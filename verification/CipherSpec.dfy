/** Cipher names: the form cipher-mode-iv of the tools and the crypto API form of the kernel. */
module CipherSpec {
  import opened Bytes
  import opened CStrings

  const CLEN := 63
  const CAPIL := 143

  /** How far the format "%63[^-]-%63s" gets. */
  datatype Split = Nothing | First(a: string) | Both(a: string, b: string)

  function Split2(s: string): Split {
    match Until(s, '-', CLEN)
    case None => Nothing
    case Some((a, rest)) =>
      if rest == "" || rest[0] != '-' then First(a) else
      match Word(rest[1..], CLEN)
      case None => First(a)
      case Some((b, _)) => Both(a, b)
  }

  /** What goes between "capi:" and the IV. */
  function Wrapped(orgI: string, mode: string, capi: string): string {
    if orgI == "none" then capi
    else if orgI == "aead" && mode == "ccm" then "rfc4309(" + capi + ")"
    else if orgI == "aead" then capi
    else if orgI == "poly1305" then "rfc7539(" + capi + ",poly1305)"
    else "authenc(" + orgI + "," + capi + ")"
  }

  function IntegrityOption(orgI: string, tag: nat): string {
    " integrity:" + Dec(tag) + ":" + (if orgI == "none" then "none" else "aead")
  }

  /** The two texts that cipher_c2dm prints for a spec that it has taken apart. */
  function Printed(orgC: string, orgI: Option<string>, tag: nat, cipher: string, mode: string, iv: string)
    : (string, string)
  {
    match orgI
    case None => (orgC, "")
    case Some(i) =>
      var capi := if mode == "" then cipher else mode + "(" + cipher + ")";
      ("capi:" + Wrapped(i, mode, Snprintf(CAPIL + 1, capi)) + "-" + iv, IntegrityOption(i, tag))
  }

  /** The buffers as they are filled; only a text that misses its buffer by one character is refused. */
  function Buffers(c: string, i: string, cSize: nat, iSize: nat): Option<(string, string)>
    requires cSize > 0 && iSize > 0
  {
    if |c| == cSize || |i| == iSize then None else Some((Snprintf(cSize, c), Snprintf(iSize, i)))
  }

  /** cipher_c2dm: the kernel's cipher name and integrity option. */
  function C2dm(orgC: string, orgI: Option<string>, tag: nat, cSize: nat, iSize: nat): Option<(string, string)> {
    if cSize == 0 || iSize == 0 then None else
    match Split2(orgC)
    case Both(cipher, tmp) =>
      (match Split2(tmp)
       case Nothing => None
       case First(iv) => var (c, i) := Printed(orgC, orgI, tag, cipher, "", iv); Buffers(c, i, cSize, iSize)
       case Both(mode, iv) => var (c, i) := Printed(orgC, orgI, tag, cipher, mode, iv); Buffers(c, i, cSize, iSize))
    case _ => None
  }

  /** "<prefix>%143s" */
  function ScanRfc4309(tmp: string): Option<string> {
    match Literal("rfc4309(", tmp)
    case None => None
    case Some(t) => if Word(t, CAPIL).Some? then Some(Word(t, CAPIL).value.0) else None
  }

  /** "<prefix>%<m>[^,],%<n>s" */
  function ScanPair(prefix: string, m: nat, n: nat, tmp: string): Option<(string, string)> {
    match Literal(prefix, tmp)
    case None => None
    case Some(t) =>
      match Until(t, ',', m)
      case None => None
      case Some((a, rest)) =>
        if rest == "" || rest[0] != ',' then None else
        match Word(rest[1..], n)
        case None => None
        case Some((b, _)) => Some((a, b))
  }

  /** The integrity and the inner cipher of a crypto API algorithm whose last parenthesis is gone. */
  function Unwrapped(tmp: string, i: Option<string>): (Option<string>, string) {
    if ScanRfc4309(tmp).Some? then
      (Some("aead"), ScanRfc4309(tmp).value)
    else if ScanPair("rfc7539(", CAPIL, CLEN, tmp).Some? then
      (Some(ScanPair("rfc7539(", CAPIL, CLEN, tmp).value.1), ScanPair("rfc7539(", CAPIL, CLEN, tmp).value.0)
    else if ScanPair("authenc(", CLEN, CAPIL, tmp).Some? then
      (Some(ScanPair("authenc(", CLEN, CAPIL, tmp).value.0), ScanPair("authenc(", CLEN, CAPIL, tmp).value.1)
    else
      (i, Snprintf(CAPIL + 1, tmp))
  }

  /** "%63[^(](%63[^)])": mode and cipher, when there are parentheses. */
  function ModeAndCipher(capi: string): Option<(string, string)> {
    match Until(capi, '(', CLEN)
    case None => None
    case Some((mode, rest)) =>
      if rest == "" || rest[0] != '(' then None else
      match Until(rest[1..], ')', CLEN)
      case None => None
      case Some((cipher, _)) => Some((mode, cipher))
  }

  function Spelled(capi: string, iv: string): string {
    Snprintf(2 * (CAPIL + 1), match ModeAndCipher(capi)
             case Some((mode, cipher)) => cipher + "-" + mode + "-" + iv
             case None => capi + "-" + iv)
  }

  function Unclosed(tmp: string): string
    requires tmp != ""
  {
    if tmp[|tmp| - 1] == ')' then tmp[..|tmp| - 1] else tmp
  }

  /** The algorithm and the IV of a kernel name that starts with "capi:". */
  function Algorithm(c: string): Option<(string, string)> {
    match Literal("capi:", c)
    case None => None
    case Some(t) =>
      match Until(t, '-', CAPIL)
      case None => None
      case Some((tmp, rest)) =>
        if rest == "" || rest[0] != '-' || |tmp| < 2 then None else
        match Word(rest[1..], CLEN)
        case None => None
        case Some((iv, _)) => Some((tmp, iv))
  }

  /** cipher_dm2c: the cipher spec and the integrity for a kernel name and its integrity option. Only the
      first four characters of the prefix are compared. */
  function Dm2c(c: string, i: Option<string>): Option<(string, Option<string>)> {
    if !("capi" <= c) then Some((c, None)) else
    match Algorithm(c)
    case None => None
    case Some((tmp, iv)) =>
      var (integrity, capi) := Unwrapped(Unclosed(tmp), i);
      Some((Spelled(capi, iv), integrity))
  }

  /** The integrity that the parser of the parameter line finds in an option that cipher_c2dm printed. */
  function KernelIntegrity(option: string): Option<string> {
    match Literal(" integrity:", option)
    case None => None
    case Some(t) => After(t, ':')
  }

  /** Translate for the kernel, with the buffers of the caller, and back. */
  function ThereAndBack(orgC: string, orgI: Option<string>, tag: nat): Option<(string, Option<string>)> {
    match C2dm(orgC, orgI, tag, 256, 256)
    case None => None
    case Some((c, i)) => Dm2c(c, KernelIntegrity(i))
  }

  // Specs in parts

  datatype Spec = Spec(cipher: string, mode: Option<string>, iv: string)
  {
    /** What follows the cipher. */
    function Rest(): string {
      if mode.Some? then mode.value + "-" + iv else iv
    }

    function Text(): string {
      cipher + "-" + Rest()
    }

    predicate Clean() {
      && Plain(cipher)
      && iv != "" && All(iv, Solid)
      && match mode case None => '-' !in iv case Some(m) => Plain(m)
    }

    predicate Fits() {
      |cipher| <= CLEN && |Rest()| <= CLEN
    }

    function Mode(): string {
      if mode.Some? then mode.value else ""
    }

    function Capi(): string {
      if mode.Some? then mode.value + "(" + cipher + ")" else cipher
    }
  }

  predicate Plain(s: string) {
    s != "" && forall i :: 0 <= i < |s| ==> In(s[i], Solid) && s[i] !in "-(),"
  }

  /** The widths of the wrapped algorithms. */
  predicate PolyFits(spec: Spec) {
    |spec.Capi()| <= CAPIL - |"rfc7539(" + ",poly1305)"|
  }

  predicate AuthencFits(auth: string, spec: Spec) {
    |auth| + |spec.Capi()| <= CAPIL - |"authenc(" + "," + ")"|
  }

  /** The condition under which a spec survives the translation, by integrity: the short cipher and the mode
      rfc4309 are mistaken on the way back, and the algorithm must not exceed the scan width. */
  predicate Survives(spec: Spec, i: string) {
    if i == "none" || i == "aead" then
      match spec.mode
      case None => |spec.cipher| >= 2
      case Some(m) => m != "rfc4309"
    else if i == "poly1305" then
      PolyFits(spec)
    else
      1 <= |i| <= CLEN && ',' !in i && '-' !in i && AuthencFits(i, spec)
  }

  lemma SplitBoth(a: string, b: string)
    requires a != "" && |a| <= CLEN && '-' !in a && b != "" && |b| <= CLEN && All(b, Solid)
    ensures Split2(a + "-" + b) == Both(a, b)
  {
    hide Until, Word;
    assert a + "-" + b == a + ("-" + b);
    UntilIs(a, "-" + b, '-', CLEN);
    assert ("-" + b)[1..] == b + "";
    WordIs(b, "", CLEN);
  }

  lemma SplitFirst(a: string)
    requires a != "" && |a| <= CLEN && '-' !in a
    ensures Split2(a) == First(a)
  {
    assert a == a + "";
    UntilIs(a, "", '-', CLEN);
  }

  lemma OptionIsShort(i: string, tag: nat)
    requires tag < U32
    ensures |IntegrityOption(i, tag)| < 256
    ensures KernelIntegrity(IntegrityOption(i, tag)) == Some(if i == "none" then "none" else "aead")
  {
    hide Dec;
    DecLength(tag, 10, U32);
    var what := if i == "none" then "none" else "aead";
    var t := Dec(tag) + ":" + what;
    assert IntegrityOption(i, tag) == " integrity:" + t;
    LiteralMatches(" integrity:", t);
    AfterIs(Dec(tag), ':', what);
  }

  /** What a spec in parts is translated to. */
  lemma Translated(spec: Spec, i: string, tag: nat)
    requires spec.Clean() && spec.Fits() && tag < U32
    ensures var c := "capi:" + Wrapped(i, spec.Mode(), spec.Capi()) + "-" + spec.iv;
      ThereAndBack(spec.Text(), Some(i), tag)
        == if |c| == 256 then None else Dm2c(Snprintf(256, c), Some(if i == "none" then "none" else "aead"))
  {
    hide Dm2c, Wrapped, IntegrityOption, KernelIntegrity, Split2;
    OptionIsShort(i, tag);
    SplitBoth(spec.cipher, spec.Rest());
    match spec.mode {
      case None => SplitFirst(spec.iv);
      case Some(m) => SplitBoth(m, spec.iv);
    }
  }

  /** The texts in buffers of 256 bytes. */
  function InBuffers(name: string, option: string): Option<(string, string)> {
    if |name| == 256 || |option| == 256 then None
    else Some((name[..Min(|name|, 255)], option[..Min(|option|, 255)]))
  }

  /** The kernel's name and option for cipher-mode-iv, by integrity. */
  lemma KernelName(spec: Spec, mode: string, i: string, tag: nat)
    requires spec.Clean() && spec.mode == Some(mode) && |spec.cipher| <= 63 && |mode| + |spec.iv| <= 62 && tag < U32
    ensures var capi := mode + "(" + spec.cipher + ")";
      C2dm(spec.cipher + "-" + (mode + "-" + spec.iv), Some(i), tag, 256, 256)
        == if i == "none" then
             InBuffers("capi:" + capi + "-" + spec.iv, " integrity:" + Dec(tag) + ":" + "none")
           else if i == "aead" && mode == "ccm" then
             InBuffers("capi:" + ("rfc4309(" + capi + ")") + "-" + spec.iv, " integrity:" + Dec(tag) + ":" + "aead")
           else if i == "aead" then
             InBuffers("capi:" + capi + "-" + spec.iv, " integrity:" + Dec(tag) + ":" + "aead")
           else if i == "poly1305" then
             InBuffers("capi:" + ("rfc7539(" + capi + ",poly1305)") + "-" + spec.iv,
                       " integrity:" + Dec(tag) + ":" + "aead")
           else
             InBuffers("capi:" + ("authenc(" + i + "," + capi + ")") + "-" + spec.iv,
                       " integrity:" + Dec(tag) + ":" + "aead")
  {
    hide Split2, Dec;
    SplitBoth(spec.cipher, spec.Rest());
    SplitBoth(mode, spec.iv);
    assert Split2(spec.cipher + "-" + (mode + "-" + spec.iv)) == Both(spec.cipher, mode + "-" + spec.iv);
    BufferIs(Printed(spec.Text(), Some(i), tag, spec.cipher, mode, spec.iv).0, IntegrityOption(i, tag));
  }

  /** The kernel's name and option for cipher-iv. */
  lemma KernelNameWithoutMode(spec: Spec, i: string, tag: nat)
    requires spec.Clean() && spec.mode == None && |spec.cipher| <= 63 && |spec.iv| <= 63 && tag < U32
    ensures C2dm(spec.cipher + "-" + spec.iv, Some(i), tag, 256, 256)
         == if i == "none" then
              InBuffers("capi:" + spec.cipher + "-" + spec.iv, " integrity:" + Dec(tag) + ":" + "none")
            else if i == "aead" then
              InBuffers("capi:" + spec.cipher + "-" + spec.iv, " integrity:" + Dec(tag) + ":" + "aead")
            else if i == "poly1305" then
              InBuffers("capi:" + ("rfc7539(" + spec.cipher + ",poly1305)") + "-" + spec.iv,
                        " integrity:" + Dec(tag) + ":" + "aead")
            else
              InBuffers("capi:" + ("authenc(" + i + "," + spec.cipher + ")") + "-" + spec.iv,
                        " integrity:" + Dec(tag) + ":" + "aead")
  {
    hide Split2, Dec;
    SplitBoth(spec.cipher, spec.iv);
    SplitFirst(spec.iv);
    BufferIs(Printed(spec.Text(), Some(i), tag, spec.cipher, "", spec.iv).0, IntegrityOption(i, tag));
  }

  lemma BufferIs(name: string, option: string)
    ensures Buffers(name, option, 256, 256) == InBuffers(name, option)
  {
    CutAt255(name);
    CutAt255(option);
  }

  lemma CutAt255(s: string)
    ensures Snprintf(256, s) == s[..Min(|s|, 255)]
  {
    assert s[..|s|] == s;
  }

  /** Without integrity the name goes to the kernel as it is, if it has the shape of a spec. */
  lemma LegacyName(s: string, tag: nat)
    ensures C2dm(s, None, tag, 256, 256)
         == if LegacyShape(s) && |s| != 256 then Some((s[..Min(|s|, 255)], "")) else None
  {
    hide Split2, LegacyShape;
    ShapeIsAccepted(s);
    CutAt255(s);
  }

  /** The first dash of a text is at `n`, and the first that is no blank behind it is no dash and at `m`. */
  predicate ShapedAt(s: string, n: nat, m: nat) {
    && n < m < |s| && s[n] == '-' && (forall j :: 0 <= j < n ==> s[j] != '-')
    && s[m] != '-' && !In(s[m], Blanks) && forall j :: n < j < m ==> In(s[j], Blanks)
  }

  /** The shape in numbers: the first dash comes after 1 to 63 characters. */
  lemma LegacyShapeIs(s: string)
    ensures LegacyShape(s) <==> exists n: nat, m: nat :: 1 <= n <= 63 && ShapedAt(s, n, m)
  {
    if LegacyShape(s) {
      var n := Run(s, Not('-'));
      var t := s[n + 1..];
      var b := Run(t, Blanks);
      Shaped(s, n, b);
      assert ShapedAt(s, n, n + 1 + b);
    }
    if n: nat, m: nat :| 1 <= n <= 63 && ShapedAt(s, n, m) {
      FirstDash(s, n);
      FirstSolid(s[n + 1..], m - n - 1);
    }
  }

  lemma Shaped(s: string, n: nat, b: nat)
    requires n == Run(s, Not('-')) < |s| && b == Run(s[n + 1..], Blanks) && n + 1 + b < |s| && s[n + 1 + b] != '-'
    ensures ShapedAt(s, n, n + 1 + b)
  {
    var t := s[n + 1..];
    assert forall j :: 0 <= j < n ==> s[j] == s[..n][j];
    assert forall j :: n < j < n + 1 + b ==> s[j] == t[..b][j - n - 1];
    assert s[n + 1 + b] == t[b];
  }

  lemma FirstDash(s: string, n: nat)
    requires n < |s| && s[n] == '-' && forall j :: 0 <= j < n ==> s[j] != '-'
    ensures Run(s, Not('-')) == n
  {
    assert s == s[..n] + s[n..];
    RunIs(s[..n], s[n..], Not('-'));
  }

  lemma FirstSolid(t: string, m: nat)
    requires m < |t| && !In(t[m], Blanks) && forall j :: 0 <= j < m ==> In(t[j], Blanks)
    ensures Run(t, Blanks) == m && SkipBlanks(t) == t[m..]
  {
    assert t == t[..m] + t[m..];
    RunIs(t[..m], t[m..], Blanks);
  }

  /** The condition of the round trip in numbers. */
  lemma SurvivesIs(spec: Spec, i: string)
    requires spec.Clean()
    ensures var mode := if spec.mode.Some? then spec.mode.value else "";
      var capi := if spec.mode.Some? then |mode| + |spec.cipher| + 2 else |spec.cipher|;
      (spec.Fits() && Survives(spec, i))
        <==> |spec.cipher| <= 63 && (if spec.mode.Some? then |mode| + |spec.iv| <= 62 else |spec.iv| <= 63)
             && if i == "none" || i == "aead" then mode != "rfc4309" && (spec.mode.None? ==> |spec.cipher| >= 2)
                else if i == "poly1305" then capi <= 125
                else 1 <= |i| <= 63 && ',' !in i && '-' !in i && |i| + capi <= 133
  {
    assert |"rfc7539(" + ",poly1305)"| == 18 && |"authenc(" + "," + ")"| == 10;
  }

  lemma AlgorithmIs(tmp: string, iv: string)
    requires 2 <= |tmp| <= CAPIL && '-' !in tmp && iv != "" && |iv| <= CLEN && All(iv, Solid)
    ensures Algorithm("capi:" + tmp + "-" + iv) == Some((tmp, iv))
  {
    var t := tmp + ("-" + iv);
    assert "capi:" + tmp + "-" + iv == "capi:" + t;
    LiteralMatches("capi:", t);
    UntilIs(tmp, "-" + iv, '-', CAPIL);
    assert ("-" + iv)[1..] == iv + "";
    WordIs(iv, "", CLEN);
  }

  /** An algorithm that is too short or too long is refused. */
  lemma AlgorithmRefused(tmp: string, iv: string)
    requires (|tmp| < 2 || |tmp| > CAPIL) && '-' !in tmp
    ensures Algorithm("capi:" + tmp + "-" + iv).None?
  {
    var t := tmp + ("-" + iv);
    assert "capi:" + tmp + "-" + iv == "capi:" + t;
    LiteralMatches("capi:", t);
    RunIs(tmp, "-" + iv, Not('-'));
    if |tmp| > CAPIL {
      assert t[CAPIL] == tmp[CAPIL];
    }
  }

  lemma CapiStarts(t: string)
    ensures "capi" <= "capi:" + t
  {
  }

  lemma ModeAndCipherIs(mode: string, cipher: string, tail: string)
    requires Plain(mode) && Plain(cipher) && |mode| <= CLEN && |cipher| <= CLEN
    requires tail == "" || tail[0] == ')'
    ensures ModeAndCipher(mode + "(" + cipher + tail) == Some((mode, cipher))
  {
    hide Until;
    var capi := mode + "(" + cipher + tail;
    assert capi == mode + ("(" + cipher + tail);
    UntilIs(mode, "(" + cipher + tail, '(', CLEN);
    assert ("(" + cipher + tail)[1..] == cipher + tail;
    UntilIs(cipher, tail, ')', CLEN);
  }

  lemma SpelledWithMode(mode: string, cipher: string, tail: string, iv: string)
    requires Plain(mode) && Plain(cipher) && |mode| <= CLEN && |cipher| <= CLEN && |iv| <= CLEN
    requires tail == "" || tail[0] == ')'
    ensures Spelled(mode + "(" + cipher + tail, iv) == cipher + "-" + mode + "-" + iv
  {
    hide ModeAndCipher, Plain;
    ModeAndCipherIs(mode, cipher, tail);
  }

  lemma Dm2cIs(tmp: string, iv: string, i: Option<string>)
    requires '-' !in tmp && iv != "" && |iv| <= CLEN && All(iv, Solid)
    ensures Dm2c("capi:" + tmp + "-" + iv, i)
         == if 2 <= |tmp| <= CAPIL then
              Some((Spelled(Unwrapped(Unclosed(tmp), i).1, iv), Unwrapped(Unclosed(tmp), i).0))
            else None
  {
    hide Algorithm, Unwrapped, Spelled, Unclosed;
    assert "capi:" + tmp + "-" + iv == "capi:" + (tmp + "-" + iv);
    CapiStarts(tmp + "-" + iv);
    if 2 <= |tmp| <= CAPIL {
      AlgorithmIs(tmp, iv);
    } else {
      AlgorithmRefused(tmp, iv);
    }
  }

  lemma SpelledWithoutMode(cipher: string, iv: string)
    requires Plain(cipher) && |cipher| <= CLEN && |iv| <= CLEN
    ensures Spelled(cipher, iv) == cipher + "-" + iv
  {
    assert cipher + "" == cipher;
    UntilIs(cipher, "", '(', CLEN);
  }

  lemma CapiIsDashFree(spec: Spec)
    requires spec.Clean() && spec.Fits()
    ensures All(spec.Capi(), Solid) && '-' !in spec.Capi() && ',' !in spec.Capi()
    ensures |spec.Capi()| + |spec.iv| <= 127 && |spec.iv| <= CLEN
  {
  }

  // No integrity algorithm, and AEAD modes that carry their own

  lemma UnwrappedTwoPart(cipher: string, i: Option<string>)
    requires Plain(cipher) && |cipher| <= CLEN
    ensures Unclosed(cipher) == cipher && Unwrapped(cipher, i) == (i, cipher)
  {
    assert cipher[|cipher| - 1] != ')';
    PrefixEnd("rfc4309(", cipher);
    PrefixEnd("rfc7539(", cipher);
    PrefixEnd("authenc(", cipher);
  }

  lemma PrefixEnd(p: string, s: string)
    requires p != ""
    ensures p <= s ==> p[|p| - 1] in s
  {
    if p <= s {
      assert s[|p| - 1] == p[|p| - 1];
    }
  }

  lemma UnwrappedThreePart(mode: string, cipher: string, i: Option<string>)
    requires Plain(cipher) && Plain(mode) && |cipher| <= CLEN && |mode| <= CLEN
    ensures var tmp := mode + "(" + cipher + ")";
      Unwrapped(Unclosed(tmp), i)
        == if mode == "rfc4309" then (Some("aead"), cipher) else (i, mode + "(" + cipher)
  {
    var tmp := mode + "(" + cipher + ")";
    var open := mode + "(" + cipher;
    assert Unclosed(tmp) == open;
    if mode == "rfc4309" {
      assert open == "rfc4309(" + cipher;
      LiteralMatches("rfc4309(", cipher);
      assert cipher == cipher + "";
      WordIs(cipher, "", CAPIL);
    } else {
      if "rfc4309(" <= open {
        PrefixIsMode("rfc4309", mode, cipher);
      }
      NoPair("rfc7539(", CAPIL, CLEN, open);
      NoPair("authenc(", CLEN, CAPIL, open);
    }
  }

  /** The text up to the first parenthesis is determined. */
  lemma PrefixIsMode(name: string, mode: string, cipher: string)
    requires '(' !in name && Plain(mode) && name + "(" <= mode + "(" + cipher
    ensures mode == name
  {
    var s := mode + "(" + cipher;
    assert s == mode + ("(" + cipher);
    RunIs(mode, "(" + cipher, Not('('));
    var rest := s[|name| + 1..];
    assert s == name + ("(" + rest);
    RunIs(name, "(" + rest, Not('('));
  }

  lemma NoPair(prefix: string, m: nat, n: nat, s: string)
    requires ',' !in s
    ensures ScanPair(prefix, m, n, s).None?
  {
  }

  /** Two parts, no inner algorithm: lost exactly when the cipher has one character. */
  lemma TwoPartPlain(spec: Spec, i: string, tag: nat)
    requires spec.Clean() && spec.Fits() && tag < U32 && spec.mode.None? && (i == "none" || i == "aead")
    ensures ThereAndBack(spec.Text(), Some(i), tag)
         == if |spec.cipher| >= 2 then Some((spec.Text(), Some(i))) else None
  {
    hide Dm2c, Unwrapped, Spelled, Unclosed, ThereAndBack;
    Translated(spec, i, tag);
    Dm2cIs(spec.cipher, spec.iv, Some(i));
    if |spec.cipher| >= 2 {
      UnwrappedTwoPart(spec.cipher, Some(i));
      SpelledWithoutMode(spec.cipher, spec.iv);
    }
  }

  /** Three parts, no wrapper: a mode named rfc4309 is mistaken for one. */
  lemma ThreePartPlain(spec: Spec, i: string, tag: nat)
    requires spec.Clean() && spec.Fits() && tag < U32 && spec.mode.Some? && (i == "none" || i == "aead")
    requires i == "aead" ==> spec.mode != Some("ccm")
    ensures ThereAndBack(spec.Text(), Some(i), tag)
         == if spec.mode.value == "rfc4309" then Some((spec.cipher + "-" + spec.iv, Some("aead")))
            else Some((spec.Text(), Some(i)))
  {
    hide Dm2c, Unwrapped, Spelled, Unclosed, ThereAndBack;
    var m := spec.mode.value;
    Translated(spec, i, tag);
    CapiIsDashFree(spec);
    Dm2cIs(spec.Capi(), spec.iv, Some(i));
    UnwrappedThreePart(m, spec.cipher, Some(i));
    if m == "rfc4309" {
      SpelledWithoutMode(spec.cipher, spec.iv);
    } else {
      assert m + "(" + spec.cipher + "" == m + "(" + spec.cipher;
      SpelledWithMode(m, spec.cipher, "", spec.iv);
      assert spec.Text() == spec.cipher + "-" + m + "-" + spec.iv;
    }
  }

  // Wrapped algorithms

  lemma UnwrappedCcm(mode: string, cipher: string, i: Option<string>)
    requires Plain(mode) && Plain(cipher) && |mode| + |cipher| <= 126
    ensures var tmp := "rfc4309(" + (mode + "(" + cipher + ")") + ")";
      Unwrapped(Unclosed(tmp), i) == (Some("aead"), mode + "(" + cipher + ")")
  {
    var capi := mode + "(" + cipher + ")";
    var tmp := "rfc4309(" + capi + ")";
    assert Unclosed(tmp) == "rfc4309(" + capi;
    LiteralMatches("rfc4309(", capi);
    assert capi == capi + "";
    WordIs(capi, "", CAPIL);
  }

  /** The mode ccm under AEAD always survives. */
  lemma CcmAead(spec: Spec, tag: nat)
    requires spec.Clean() && spec.Fits() && tag < U32 && spec.mode == Some("ccm")
    ensures ThereAndBack(spec.Text(), Some("aead"), tag) == Some((spec.Text(), Some("aead")))
  {
    hide Dm2c, Unwrapped, Spelled, Unclosed, ThereAndBack;
    Translated(spec, "aead", tag);
    CapiIsDashFree(spec);
    Dm2cIs("rfc4309(" + spec.Capi() + ")", spec.iv, Some("aead"));
    UnwrappedCcm("ccm", spec.cipher, Some("aead"));
    SpelledWithMode("ccm", spec.cipher, ")", spec.iv);
    assert spec.Text() == spec.cipher + "-" + "ccm" + "-" + spec.iv;
  }

  /** The inner cipher of a wrapped algorithm is spelled as it was. */
  lemma SpelledCapi(spec: Spec)
    requires spec.Clean() && spec.Fits()
    ensures Spelled(spec.Capi(), spec.iv) == spec.Text()
  {
    hide Spelled;
    match spec.mode {
      case None => SpelledWithoutMode(spec.cipher, spec.iv);
      case Some(m) =>
        SpelledWithMode(m, spec.cipher, ")", spec.iv);
        assert spec.Text() == spec.cipher + "-" + m + "-" + spec.iv;
    }
  }

  lemma PairIs(prefix: string, a: string, b: string, m: nat, n: nat)
    requires 1 <= |a| <= m && ',' !in a && 1 <= |b| <= n && All(b, Solid)
    ensures ScanPair(prefix, m, n, prefix + (a + ("," + b))) == Some((a, b))
  {
    LiteralMatches(prefix, a + ("," + b));
    UntilIs(a, "," + b, ',', m);
    assert ("," + b)[1..] == b + "";
    WordIs(b, "", n);
  }

  lemma OtherPrefix(s: string)
    requires s != ""
    ensures |s| > 3 && s[3] != '4' ==> ScanRfc4309(s).None?
    ensures s[0] == 'a' ==> ScanRfc4309(s).None? && ScanPair("rfc7539(", CAPIL, CLEN, s).None?
  {
  }

  lemma UnwrappedPoly(capi: string, i: Option<string>)
    requires capi != "" && ',' !in capi && |capi| <= CAPIL
    ensures Unwrapped(Unclosed("rfc7539(" + capi + ",poly1305)"), i) == (Some("poly1305"), capi)
  {
    hide ScanRfc4309, ScanPair;
    var t := "rfc7539(" + (capi + ("," + "poly1305"));
    assert "rfc7539(" + capi + ",poly1305)" == t + ")";
    assert Unclosed(t + ")") == t;
    OtherPrefix(t);
    PairIs("rfc7539(", capi, "poly1305", CAPIL, CLEN);
  }

  /** POLY1305 survives unless the algorithm is wider than the scan. */
  lemma Poly1305(spec: Spec, tag: nat)
    requires spec.Clean() && spec.Fits() && tag < U32
    ensures ThereAndBack(spec.Text(), Some("poly1305"), tag)
         == if PolyFits(spec) then Some((spec.Text(), Some("poly1305"))) else None
  {
    hide Dm2c, Unwrapped, Spelled, Unclosed, ThereAndBack;
    Translated(spec, "poly1305", tag);
    CapiIsDashFree(spec);
    Dm2cIs("rfc7539(" + spec.Capi() + ",poly1305)", spec.iv, Some("aead"));
    if PolyFits(spec) {
      UnwrappedPoly(spec.Capi(), Some("aead"));
      SpelledCapi(spec);
    }
  }

  lemma UnwrappedAuthenc(auth: string, capi: string, i: Option<string>)
    requires 1 <= |auth| <= CLEN && ',' !in auth && 1 <= |capi| <= CAPIL && All(capi, Solid)
    ensures Unwrapped(Unclosed("authenc(" + auth + "," + capi + ")"), i) == (Some(auth), capi)
  {
    hide ScanRfc4309, ScanPair;
    var t := "authenc(" + (auth + ("," + capi));
    assert "authenc(" + auth + "," + capi + ")" == t + ")";
    assert Unclosed(t + ")") == t;
    OtherPrefix(t);
    PairIs("authenc(", auth, capi, CLEN, CAPIL);
  }

  /** Any other integrity algorithm survives when it is short and has neither a comma nor a dash. */
  lemma AuthencSurvives(spec: Spec, auth: string, tag: nat)
    requires spec.Clean() && spec.Fits() && tag < U32 && auth !in {"none", "aead", "poly1305"}
    requires 1 <= |auth| <= CLEN && ',' !in auth && '-' !in auth
    ensures ThereAndBack(spec.Text(), Some(auth), tag)
         == if AuthencFits(auth, spec) then Some((spec.Text(), Some(auth))) else None
  {
    hide Dm2c, Unwrapped, Spelled, Unclosed, ThereAndBack;
    Translated(spec, auth, tag);
    CapiIsDashFree(spec);
    Dm2cIs("authenc(" + auth + "," + spec.Capi() + ")", spec.iv, Some("aead"));
    if AuthencFits(auth, spec) {
      UnwrappedAuthenc(auth, spec.Capi(), Some("aead"));
      SpelledCapi(spec);
    }
  }

  /** An integrity found in a name with an authenc algorithm is short and has neither a comma nor a dash,
      unless it is taken from the option. */
  lemma AuthencIsShort(c: string, i: Option<string>)
    requires "capi" <= c && |c| > 5 && c[5] == 'a' && Dm2c(c, i).Some?
    ensures var a := Dm2c(c, i).value.1;
      a == i || (a.Some? && 1 <= |a.value| <= CLEN && ',' !in a.value && '-' !in a.value)
  {
    hide Spelled, Unwrapped, Algorithm;
    var (tmp, iv) := Algorithm(c).value;
    AlgorithmStarts(c);
    AuthencPart(Unclosed(tmp), i);
  }

  lemma AlgorithmStarts(c: string)
    requires |c| > 5 && c[5] == 'a' && Algorithm(c).Some?
    ensures var tmp := Algorithm(c).value.0;
      tmp != "" && Unclosed(tmp) != "" && Unclosed(tmp)[0] == 'a' && '-' !in Unclosed(tmp)
  {
    hide Word;
    var t := c[5..];
    var tmp := Algorithm(c).value.0;
    var k := Run(t, Not('-'));
    assert tmp == t[..Min(CAPIL, k)];
    assert forall j :: 0 <= j < |tmp| ==> tmp[j] == t[..k][j];
  }

  lemma AuthencPart(u: string, i: Option<string>)
    requires u != "" && u[0] == 'a' && '-' !in u
    ensures var a := Unwrapped(u, i).0;
      a == i || (a.Some? && 1 <= |a.value| <= CLEN && ',' !in a.value && '-' !in a.value)
  {
    hide ScanRfc4309, ScanPair;
    OtherPrefix(u);
    if ScanPair("authenc(", CLEN, CAPIL, u).Some? {
      PairFirst("authenc(", CLEN, CAPIL, u);
    }
  }

  lemma PairFirst(prefix: string, m: nat, n: nat, u: string)
    requires ScanPair(prefix, m, n, u).Some? && '-' !in u
    ensures var a := ScanPair(prefix, m, n, u).value.0; 1 <= |a| <= m && ',' !in a && '-' !in a
  {
    hide Word;
    var v := u[|prefix|..];
    var a := ScanPair(prefix, m, n, u).value.0;
    var k := Run(v, Not(','));
    assert a == v[..Min(m, k)];
    assert forall j :: 0 <= j < |a| ==> a[j] == v[..k][j] == u[j + |prefix|];
  }

  lemma WrappedStarts(auth: string, mode: string, capi: string)
    requires auth !in {"none", "aead", "poly1305"}
    ensures var w := Wrapped(auth, mode, capi); |w| > 0 && w[0] == 'a'
  {
  }

  /** And no other one does. */
  lemma AuthencLost(spec: Spec, auth: string, tag: nat)
    requires spec.Clean() && spec.Fits() && tag < U32 && auth !in {"none", "aead", "poly1305"}
    requires !(1 <= |auth| <= CLEN && ',' !in auth && '-' !in auth)
    ensures var r := ThereAndBack(spec.Text(), Some(auth), tag); r.Some? ==> r.value.1 != Some(auth)
  {
    hide Algorithm, Dm2c, ThereAndBack, Spelled, Unwrapped, Wrapped;
    Translated(spec, auth, tag);
    var c := "capi:" + Wrapped(auth, spec.Mode(), spec.Capi()) + "-" + spec.iv;
    var cut := Snprintf(256, c);
    WrappedStarts(auth, spec.Mode(), spec.Capi());
    var w := Wrapped(auth, spec.Mode(), spec.Capi());
    assert c == "capi:" + (w + "-" + spec.iv);
    CapiStarts(w + "-" + spec.iv);
    assert "capi" <= cut && |cut| > 5 && cut[5] == w[0];
    if Dm2c(cut, Some("aead")).Some? {
      AuthencIsShort(cut, Some("aead"));
    }
  }

  /** A spec that fits the scans comes back unchanged exactly when it survives; otherwise no longer. */
  lemma FittingSpec(spec: Spec, i: string, tag: nat)
    requires spec.Clean() && spec.Fits() && tag < U32
    ensures ThereAndBack(spec.Text(), Some(i), tag) == Some((spec.Text(), Some(i))) <==> Survives(spec, i)
    ensures var r := ThereAndBack(spec.Text(), Some(i), tag);
      r.Some? && r.value.1 == Some(i) ==> |r.value.0| <= |spec.Text()|
  {
    hide ThereAndBack;
    if i == "none" || i == "aead" {
      if spec.mode.None? {
        TwoPartPlain(spec, i, tag);
      } else if i == "aead" && spec.mode.value == "ccm" {
        CcmAead(spec, tag);
      } else {
        ThreePartPlain(spec, i, tag);
        assert |spec.cipher + "-" + spec.iv| < |spec.Text()|;
      }
    } else if i == "poly1305" {
      Poly1305(spec, tag);
    } else if 1 <= |i| <= CLEN && ',' !in i && '-' !in i {
      AuthencSurvives(spec, i, tag);
    } else {
      AuthencLost(spec, i, tag);
    }
  }

  // Specs that do not fit

  lemma CipherTooLong(spec: Spec, i: string, tag: nat)
    requires spec.Clean() && |spec.cipher| > CLEN
    ensures ThereAndBack(spec.Text(), Some(i), tag).None?
  {
    var s := spec.Text();
    assert s == spec.cipher + ("-" + spec.Rest());
    RunIs(spec.cipher, "-" + spec.Rest(), Not('-'));
    assert s[CLEN] == spec.cipher[CLEN] != '-';
  }

  /** The spec that is left of one whose mode and IV are too long. */
  function Shortened(spec: Spec): Spec {
    match spec.mode
    case None => spec.(iv := spec.iv[..Min(CLEN, |spec.iv|)])
    case Some(m) =>
      if |m| >= CLEN - 1 then Spec(spec.cipher, None, m[..Min(CLEN, |m|)])
      else spec.(iv := spec.iv[..Min(CLEN - 1 - |m|, |spec.iv|)])
  }

  lemma SplitCut(a: string, b: string)
    requires a != "" && |a| <= CLEN && '-' !in a && |b| > CLEN && All(b, Solid)
    ensures Split2(a + "-" + b) == Both(a, b[..CLEN])
  {
    assert a + "-" + b == a + ("-" + b);
    UntilIs(a, "-" + b, '-', CLEN);
    assert ("-" + b)[1..] == b + "";
    RunIs(b, "", Solid);
    NothingToSkip(b);
  }

  lemma SplitAlone(a: string)
    requires a != "" && |a| < CLEN && '-' !in a
    ensures Split2(a + "-") == First(a)
  {
    UntilIs(a, "-", '-', CLEN);
    assert "-"[1..] == "";
  }

  lemma SplitShortened(spec: Spec)
    requires spec.Clean() && |spec.Rest()| > CLEN
    ensures Split2(spec.Rest()[..CLEN]) == Split2(Shortened(spec).Rest())
  {
    hide Split2;
    match spec.mode {
      case None =>
      case Some(m) =>
        var cut := spec.Rest()[..CLEN];
        if |m| >= CLEN {
          assert cut == m[..CLEN];
        } else if |m| == CLEN - 1 {
          assert cut == m + "-" && m[..|m|] == m;
          SplitAlone(m);
          SplitFirst(m);
        } else {
          assert cut == m + "-" + spec.iv[..CLEN - 1 - |m|];
        }
    }
  }

  lemma ShortenedIsClean(spec: Spec)
    requires spec.Clean() && |spec.cipher| <= CLEN && |spec.Rest()| > CLEN
    ensures Shortened(spec).Clean() && Shortened(spec).Fits() && |Shortened(spec).Text()| < |spec.Text()|
  {
  }

  /** The long spec is translated as the shortened one. */
  lemma TranslatedShortened(spec: Spec, i: string, tag: nat)
    requires spec.Clean() && |spec.cipher| <= CLEN && |spec.Rest()| > CLEN
    ensures ThereAndBack(spec.Text(), Some(i), tag) == ThereAndBack(Shortened(spec).Text(), Some(i), tag)
  {
    hide Split2, Dm2c, Buffers, KernelIntegrity;
    ShortenedIsClean(spec);
    var short := Shortened(spec);
    SplitCut(spec.cipher, spec.Rest());
    SplitBoth(short.cipher, short.Rest());
    SplitShortened(spec);
  }

  /** A clean spec with an integrity profile comes back from the kernel's form unchanged exactly when its
      parts fit the scans and it survives. */
  lemma SpecRoundTrip(spec: Spec, i: string, tag: nat)
    requires spec.Clean() && tag < U32
    ensures ThereAndBack(spec.Text(), Some(i), tag) == Some((spec.Text(), Some(i)))
       <==> spec.Fits() && Survives(spec, i)
  {
    hide ThereAndBack, Survives;
    if |spec.cipher| > CLEN {
      CipherTooLong(spec, i, tag);
    } else if |spec.Rest()| > CLEN {
      ShortenedIsClean(spec);
      TranslatedShortened(spec, i, tag);
      FittingSpec(Shortened(spec), i, tag);
    } else {
      FittingSpec(spec, i, tag);
    }
  }

  // Without integrity

  /** The shape that is required of any spec: a first part of 1 to 63 characters, and after the dash
      something other than a second dash. */
  predicate LegacyShape(s: string) {
    var n := Run(s, Not('-'));
    1 <= n <= CLEN && n < |s| && var t := SkipBlanks(s[n + 1..]); t != "" && t[0] != '-'
  }

  lemma ShapeIsAccepted(s: string)
    ensures LegacyShape(s) <==> Split2(s).Both? && !Split2(Split2(s).b).Nothing?
  {
    hide Word, Until, SkipBlanks;
    var n := Run(s, Not('-'));
    UntilShape(s, '-');
    if 1 <= n <= CLEN && n < |s| {
      WordShape(s[n + 1..]);
      if Word(s[n + 1..], CLEN).Some? {
        UntilShape(Word(s[n + 1..], CLEN).value.0, '-');
      }
    }
  }

  lemma UntilShape(s: string, c: char)
    ensures Until(s, c, CLEN).Some? <==> s != "" && s[0] != c
    ensures var n := Run(s, Not(c)); Until(s, c, CLEN).Some? ==>
      Until(s, c, CLEN).value == if n <= CLEN then (s[..n], s[n..]) else (s[..CLEN], s[CLEN..])
    ensures var n := Run(s, Not(c)); n > CLEN ==> s[CLEN] != c
  {
    var n := Run(s, Not(c));
    if n > CLEN {
      assert In(s[..n][CLEN], Not(c));
    }
  }

  lemma WordShape(s: string)
    ensures Word(s, CLEN).Some? <==> SkipBlanks(s) != ""
    ensures Word(s, CLEN).Some? ==> Word(s, CLEN).value.0 != "" && Word(s, CLEN).value.0[0] == SkipBlanks(s)[0]
  {
    var t := SkipBlanks(s);
    assert t != "" ==> !In(t[0], Blanks);
  }

  /** A name that starts with "capi:" is spelled with fewer characters. */
  lemma CapiShrinks(c: string, i: Option<string>)
    requires "capi" <= c && Dm2c(c, i).Some?
    ensures |Dm2c(c, i).value.0| + 5 <= |c|
  {
    hide Unwrapped, Spelled;
    var (tmp, iv) := Algorithm(c).value;
    AlgorithmLength(c);
    UnwrappedShrinks(Unclosed(tmp), i);
    SpelledLength(Unwrapped(Unclosed(tmp), i).1, iv);
  }

  lemma AlgorithmLength(c: string)
    requires Algorithm(c).Some?
    ensures var (tmp, iv) := Algorithm(c).value; |c| >= 6 + |tmp| + |iv|
  {
  }

  lemma UnwrappedShrinks(tmp: string, i: Option<string>)
    ensures |Unwrapped(tmp, i).1| <= |tmp|
  {
  }

  lemma SpelledLength(capi: string, iv: string)
    ensures |Spelled(capi, iv)| <= |capi| + 1 + |iv|
  {
  }

  /** Without integrity every text goes to the kernel as it is; it comes back unchanged exactly when it has
      the shape of a spec, leaves room for its NUL and does not start with "capi". */
  lemma LegacyRoundTrip(s: string, tag: nat)
    ensures ThereAndBack(s, None, tag) == Some((s, None))
       <==> LegacyShape(s) && |s| < 256 && !("capi" <= s)
  {
    hide Split2, LegacyShape, Algorithm, Unwrapped, Spelled;
    ShapeIsAccepted(s);
    var cut := Snprintf(256, s);
    if |s| != 256 && "capi" <= cut && Dm2c(cut, None).Some? {
      CapiShrinks(cut, None);
    }
  }

  /** The mode rfc4309 is one that the kernel's form cannot express. */
  lemma Rfc4309IsLost(tag: nat)
    requires tag < U32
    ensures ThereAndBack("aes-rfc4309-random", Some("aead"), tag) == Some(("aes-random", Some("aead")))
  {
    hide ThereAndBack;
    var spec := Spec("aes", Some("rfc4309"), "random");
    assert spec.Text() == "aes-rfc4309-random";
    ThreePartPlain(spec, "aead", tag);
    assert "aes" + "-" + "random" == "aes-random";
  }
}
