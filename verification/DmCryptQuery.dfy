/** Reading back the parameter line of a dm-crypt target, with everything about it requested. */
module DmCryptQuery {
  import opened Bytes
  import opened CStrings
  import opened CipherSpec
  import opened DmCrypt
  import opened Tokens

  /** What the feature section of a line says. */
  datatype Options = Options(flags: set<Flag>, tagSize: nat, sectorSize: nat, integrity: Option<string>)

  const NO_OPTIONS := Options({}, 0, SECTOR_SIZE, None)

  function NamedFlag(arg: string): Option<Flag> {
    if SameIgnoringCase(arg, "allow_discards") then Some(AllowDiscards)
    else if SameIgnoringCase(arg, "same_cpu_crypt") then Some(SameCpuCrypt)
    else if SameIgnoringCase(arg, "submit_from_crypt_cpus") then Some(SubmitFromCryptCpus)
    else if SameIgnoringCase(arg, "no_read_workqueue") then Some(NoReadWorkqueue)
    else if SameIgnoringCase(arg, "no_write_workqueue") then Some(NoWriteWorkqueue)
    else if SameIgnoringCase(arg, "iv_large_sectors") then Some(IvLargeSectors)
    else None
  }

  /** "<prefix>%u" */
  function NumberAfter(prefix: string, arg: string): Option<nat> {
    match Literal(prefix, arg)
    case None => None
    case Some(t) => if ScanNumber(t).Some? then Some(ScanNumber(t).value.0 % U32) else None
  }

  /** A number in an option is cut to 32 bits, after a number beyond 64 bits was taken for the largest one. */
  lemma NumberAfterIs(prefix: string, n: nat, rest: string)
    requires Stops(rest, Digits)
    ensures NumberAfter(prefix, prefix + (Dec(n) + rest))
         == Some(if n < 0x1_0000_0000_0000_0000 then n % 0x1_0000_0000 else 0xffff_ffff)
  {
    hide Dec, Strtoull;
    LiteralMatches(prefix, Dec(n) + rest);
    StrtoullIs(n, rest);
    assert |Dec(n) + rest| > |rest|;
  }

  function IntegrityAfter(arg: string): Option<string> {
    match Literal("integrity:", arg)
    case None => None
    case Some(t) => After(t, ':')
  }

  /** What one option adds; None for an option that is not known. */
  function WithOption(o: Options, arg: string): Option<Options> {
    if NamedFlag(arg).Some? then Some(o.(flags := o.flags + {NamedFlag(arg).value}))
    else if NumberAfter("integrity:", arg).Some? then
      match IntegrityAfter(arg)
      case None => None
      case Some(i) => Some(o.(tagSize := NumberAfter("integrity:", arg).value, integrity := Some(i)))
    else if NumberAfter("sector_size:", arg).Some? then
      Some(o.(sectorSize := NumberAfter("sector_size:", arg).value))
    else None
  }

  /** What n options add; there have to be exactly n of them. */
  function WithOptions(o: Options, n: nat, params: Option<string>): Option<Options>
    decreases n
  {
    if n == 0 then if params.Some? then None else Some(o) else
    match params
    case None => None
    case Some(s) =>
      match WithOption(o, Strsep(s).0)
      case None => None
      case Some(o') => WithOptions(o', n - 1, Strsep(s).1)
  }

  function FoundOptions(s: string): Option<Options> {
    if s == "" then Some(NO_OPTIONS) else
    if s[0] != ' ' then None else
    var (n, rest) := Strtoull(s[1..]);
    if " " <= rest then WithOptions(NO_OPTIONS, n, Some(rest[1..])) else None
  }

  function FoundKey(key: string): Option<Key> {
    if ":" <= key then
      match ScanNumber(key[1..])
      case None => None
      case Some((size, _)) =>
        match After(key[1..], ':')
        case None => None
        case Some(t) => if After(t, ':').Some? then Some(Keyring(size, After(t, ':').value)) else None
    else
      match HexBytes(key)
      case None => None
      case Some(bytes) => Some(Raw(bytes))
  }

  /** A keyring reference with a size but without a description. */
  predicate NoDescription(key: string) {
    ":" <= key && ScanNumber(key[1..]).Some? && FoundKey(key).None?
  }

  /** The fields of a line before they are interpreted. */
  datatype Fields = Fields(cipher: string, key: string, ivOffset: nat, device: string, offset: nat, features: string)

  function SplitLine(line: string): Option<Fields> {
    match Strsep(line)
    case (_, None) => None
    case (cipher, Some(s1)) =>
      match Strsep(s1)
      case (_, None) => None
      case (key, Some(s2)) =>
        var (ivOffset, s3) := Strtoull(s2);
        if !(" " <= s3) then None else
        match Strsep(s3[1..])
        case (_, None) => None
        case (device, Some(s4)) =>
          var (offset, features) := Strtoull(s4);
          Some(Fields(cipher, key, ivOffset, device, offset, features))
  }

  /** The target that a line describes, and its activation flags. */
  function FoundCrypt(line: string): Option<(Crypt, set<Flag>)> {
    match SplitLine(line)
    case None => None
    case Some(f) =>
      match FoundOptions(f.features)
      case None => None
      case Some(o) =>
        match Dm2c(f.cipher, o.integrity)
        case None => None
        case Some((cipher, integrity)) =>
          match FoundKey(f.key)
          case None => None
          case Some(key) =>
            Some((Crypt(cipher, integrity, o.tagSize, o.sectorSize, f.ivOffset, f.device, f.offset, key), o.flags))
  }

  /** The key text: ":<size>:<type>:<description>" or hexadecimal. */
  method QueryKey(text: string) returns (r: int, key: Option<Key>)
    ensures key == FoundKey(text)
    ensures r == if key.Some? then 0 else if NoDescription(text) then -ENOMEM else -EINVAL
  {
    hide ScanNumber, After, HexBytes;
    r, key := -EINVAL, None;
    if ":" <= text {
      var size := ScanNumber(text[1..]);
      if size.None? {
        return;
      }
      var end := After(text[1..], ':');
      var description := None;
      if end.Some? {
        description := After(end.value, ':');
      }
      if description.None? {
        return -ENOMEM, None;
      }
      return 0, Some(Keyring(size.value.0, description.value));
    }
    var bytes := ReadHex(text);
    if bytes.None? {
      return;
    }
    return 0, Some(Raw(bytes.value));
  }

  class DmTarget {
    var cipher: string
    var integrity: Option<string>
    var tagSize: nat
    var sectorSize: nat
    var ivOffset: nat
    var device: string
    var offset: nat
    var key: Key
    var flags: set<Flag>

    ghost function State(): Crypt
      reads this
    {
      Crypt(cipher, integrity, tagSize, sectorSize, ivOffset, device, offset, key)
    }

    /** One option sets a flag or a field of the target. */
    method QueryOption(arg: string, rintegrity: Option<string>) returns (ok: bool, rintegrity': Option<string>)
      modifies this`flags, this`tagSize, this`sectorSize
      ensures var o := WithOption(Options(old(flags), old(tagSize), old(sectorSize), rintegrity), arg);
        ok == o.Some? && (ok ==> o.value == Options(flags, tagSize, sectorSize, rintegrity'))
    {
      hide NamedFlag, NumberAfter, IntegrityAfter;
      rintegrity' := rintegrity;
      ok := true;
      var flag := NamedFlag(arg);
      if flag.Some? {
        flags := flags + {flag.value};
        return;
      }
      var val := NumberAfter("integrity:", arg);
      if val.Some? {
        tagSize := val.value;
        rintegrity' := IntegrityAfter(arg);
        ok := rintegrity'.Some?;
        return;
      }
      val := NumberAfter("sector_size:", arg);
      if val.None? {
        ok := false;
        return;
      }
      sectorSize := val.value;
    }

    /** The options of the feature section, one token after the other. */
    method QueryOptions(n: nat, text: string) returns (ok: bool, rintegrity: Option<string>)
      modifies this`flags, this`tagSize, this`sectorSize
      ensures var o := WithOptions(Options(old(flags), old(tagSize), old(sectorSize), None), n, Some(text));
        ok == o.Some? && (ok ==> o.value == Options(flags, tagSize, sectorSize, rintegrity))
    {
      hide WithOption, Strsep;
      var params := Some(text);
      rintegrity := None;
      ghost var whole := WithOptions(Options(flags, tagSize, sectorSize, None), n, params);
      var i := 0;
      while i < n
        invariant 0 <= i <= n
        invariant WithOptions(Options(flags, tagSize, sectorSize, rintegrity), n - i, params) == whole
      {
        if params.None? {
          return false, None;
        }
        var (arg, rest) := Strsep(params.value);
        params := rest;
        ok, rintegrity := QueryOption(arg, rintegrity);
        if !ok {
          return;
        }
        i := i + 1;
      }
      ok := params.None?;
    }

    /** Parse a line into the target. */
    method Query(line: string) returns (r: int)
      requires flags == {}
      modifies this
      ensures r == 0 || r == -EINVAL || r == -ENOMEM
      ensures r == -ENOMEM ==> SplitLine(line).Some? && NoDescription(SplitLine(line).value.key)
      ensures r == 0 ==> FoundCrypt(line) == Some((State(), flags))
      ensures r != 0 ==> FoundCrypt(line).None?
      ensures r != 0 ==> cipher == old(cipher) && integrity == old(integrity) && device == old(device) && key == old(key)
    {
      hide Dm2c, FoundKey, NoDescription, WithOptions, Strsep, Strtoull;
      r := -EINVAL;
      sectorSize := SECTOR_SIZE;
      var (rcipher, s1) := Strsep(line);
      if s1.None? {
        return;
      }
      var (rkey, s2) := Strsep(s1.value);
      if s2.None? {
        return;
      }
      var (iv, s3) := Strtoull(s2.value);
      if !(" " <= s3) {
        return;
      }
      ivOffset := iv;
      var (rdevice, s4) := Strsep(s3[1..]);
      if s4.None? {
        return;
      }
      var (start, features) := Strtoull(s4.value);
      offset := start;
      tagSize := 0;
      var rintegrity := None;
      assert SplitLine(line) == Some(Fields(rcipher, rkey, iv, rdevice, start, features));
      if features != "" {
        if features[0] != ' ' {
          return;
        }
        var (n, rest) := Strtoull(features[1..]);
        if !(" " <= rest) {
          return;
        }
        var ok;
        ok, rintegrity := QueryOptions(n, rest[1..]);
        if !ok {
          return;
        }
      }
      assert FoundOptions(features) == Some(Options(flags, tagSize, sectorSize, rintegrity));
      var c := Dm2c(rcipher, rintegrity);
      if c.None? {
        return;
      }
      var keyResult, vk := QueryKey(rkey);
      if vk.None? {
        return keyResult;
      }
      cipher, integrity := c.value.0, c.value.1;
      device := rdevice;
      key := vk.value;
      r := 0;
    }
  }

  // Reading back what was printed

  function WithTokens(o: Options, tokens: seq<string>): Option<Options>
    decreases tokens
  {
    if tokens == [] then Some(o) else
    match WithOption(o, tokens[0])
    case None => None
    case Some(o') => WithTokens(o', tokens[1..])
  }

  /** The token counter and the tokens keep in step. */
  lemma {:induction false} TokensAreRead(o: Options, tokens: seq<string>)
    requires tokens != [] && AllTokens(tokens)
    ensures WithOptions(o, |tokens|, Some(Joined(tokens))) == WithTokens(o, tokens)
    decreases tokens
  {
    hide WithOption, Strsep;
    var rest := tokens[1..];
    if rest == [] {
      assert Joined(tokens) == tokens[0];
      StrsepLast(tokens[0]);
    } else {
      assert Joined(tokens) == tokens[0] + " " + Joined(rest);
      StrsepToken(tokens[0], Joined(rest));
      var o' := WithOption(o, tokens[0]);
      if o'.Some? {
        TokensAreRead(o'.value, rest);
      }
    }
  }

  /** The counter decides: the tokens after it are read only when it is their number. */
  lemma {:induction false} TokensCounted(o: Options, n: nat, tokens: seq<string>)
    requires tokens != [] && AllTokens(tokens) && n != |tokens|
    ensures WithOptions(o, n, Some(Joined(tokens))) == None
    decreases tokens
  {
    hide WithOption, Strsep;
    var rest := tokens[1..];
    if n > 0 {
      if rest == [] {
        assert Joined(tokens) == tokens[0];
        StrsepLast(tokens[0]);
      } else {
        assert Joined(tokens) == tokens[0] + " " + Joined(rest);
        StrsepToken(tokens[0], Joined(rest));
        var o' := WithOption(o, tokens[0]);
        if o'.Some? {
          TokensCounted(o'.value, n - 1, rest);
        }
      }
    }
  }

  lemma {:induction false} TokensAppend(o: Options, a: seq<string>, b: seq<string>)
    ensures WithTokens(o, a + b) == match WithTokens(o, a) case None => None case Some(o') => WithTokens(o', b)
    decreases a
  {
    hide WithOption;
    if a == [] {
      assert a + b == b;
    } else {
      assert (a + b)[1..] == a[1..] + b;
      var o' := WithOption(o, a[0]);
      if o'.Some? {
        TokensAppend(o'.value, a[1..], b);
      }
    }
  }

  lemma CpuNamesAreTokens()
    ensures Token("allow_discards") && Token("same_cpu_crypt") && Token("submit_from_crypt_cpus")
  {
  }

  lemma QueueNamesAreTokens()
    ensures Token("no_read_workqueue") && Token("no_write_workqueue") && Token("iv_large_sectors")
  {
  }

  lemma NameIsRead(f: Flag)
    ensures NamedFlag(Name(f)) == Some(f) && Token(Name(f))
  {
    hide Lower, Token;
    CpuNamesAreTokens();
    QueueNamesAreTokens();
    SameAsItself(Name(f));
    NotSame("same_cpu_crypt", "allow_discards") by {
      LowerStarts();
    }
  }

  /** The name of a flag is known in upper and lower case, and nothing else is. */
  lemma NamedFlagIs(arg: string, f: Flag)
    ensures NamedFlag(arg) == Some(f) <==> SameIgnoringCase(arg, Name(f))
  {
    LowerStarts();
  }

  lemma LowerStarts()
    ensures Lower("same_cpu_crypt"[0]) != Lower("allow_discards"[0])
  {
  }

  lemma FlagIsRead(o: Options, f: Flag, flags: set<Flag>)
    ensures WithTokens(o, FlagToken(f, flags)) == Some(o.(flags := o.flags + flags * {f}))
    ensures AllTokens(FlagToken(f, flags))
  {
    hide NamedFlag, Name;
    NameIsRead(f);
    if f in flags {
      assert flags * {f} == {f};
      OneToken(o, Name(f));
    } else {
      assert o.flags + flags * {f} == o.flags;
    }
  }

  lemma OneToken(o: Options, token: string)
    ensures WithTokens(o, [token]) == WithOption(o, token)
  {
    hide WithOption;
    assert [token][1..] == [];
  }

  lemma FlagsAreRead(o: Options, flags: set<Flag>)
    ensures WithTokens(o, FlagTokens(flags)) == Some(o.(flags := o.flags + flags))
    ensures AllTokens(FlagTokens(flags))
  {
    hide WithTokens, FlagToken;
    var t5 := FlagToken(IvLargeSectors, flags);
    var t4 := FlagToken(NoWriteWorkqueue, flags) + t5;
    var t3 := FlagToken(NoReadWorkqueue, flags) + t4;
    var t2 := FlagToken(SubmitFromCryptCpus, flags) + t3;
    var t1 := FlagToken(SameCpuCrypt, flags) + t2;
    var o1 := FlagBefore(o, AllowDiscards, flags, t1);
    var o2 := FlagBefore(o1, SameCpuCrypt, flags, t2);
    var o3 := FlagBefore(o2, SubmitFromCryptCpus, flags, t3);
    var o4 := FlagBefore(o3, NoReadWorkqueue, flags, t4);
    var o5 := FlagBefore(o4, NoWriteWorkqueue, flags, t5);
    FlagIsRead(o5, IvLargeSectors, flags);
    AllFlags(flags);
    assert o5.flags + flags * {IvLargeSectors} == o.flags + flags;
  }

  lemma FlagBefore(o: Options, f: Flag, flags: set<Flag>, more: seq<string>) returns (o': Options)
    ensures o' == o.(flags := o.flags + flags * {f})
    ensures WithTokens(o, FlagToken(f, flags) + more) == WithTokens(o', more)
    ensures AllTokens(FlagToken(f, flags))
  {
    hide WithTokens, FlagToken;
    o' := o.(flags := o.flags + flags * {f});
    FlagIsRead(o, f, flags);
    TokensAppend(o, FlagToken(f, flags), more);
  }

  lemma AllFlags(flags: set<Flag>)
    ensures flags == flags * {AllowDiscards} + flags * {SameCpuCrypt} + flags * {SubmitFromCryptCpus}
      + flags * {NoReadWorkqueue} + flags * {NoWriteWorkqueue} + flags * {IvLargeSectors}
  {
    forall f | f in flags
      ensures f in {AllowDiscards, SameCpuCrypt, SubmitFromCryptCpus, NoReadWorkqueue, NoWriteWorkqueue, IvLargeSectors}
    {
      match f
      case AllowDiscards =>
      case SameCpuCrypt =>
      case SubmitFromCryptCpus =>
      case NoReadWorkqueue =>
      case NoWriteWorkqueue =>
      case IvLargeSectors =>
    }
  }

  lemma NoFlagName(arg: string)
    requires "in" <= arg || "se" <= arg
    ensures NamedFlag(arg).None?
  {
    assert Lower(arg[0]) == arg[0] && Lower(arg[1]) == arg[1];
    assert Lower("iv_large_sectors"[1]) == 'v' && Lower("same_cpu_crypt"[1]) == 'a';
    assert Lower("submit_from_crypt_cpus"[1]) == 'u' && Lower("no_read_workqueue"[0]) == 'n';
    assert Lower("no_write_workqueue"[0]) == 'n' && Lower("allow_discards"[0]) == 'a';
  }

  lemma SectorIsRead(o: Options, t: Crypt)
    requires t.sectorSize < U32 && o.sectorSize == SECTOR_SIZE
    ensures WithTokens(o, SectorTokens(t)) == Some(o.(sectorSize := t.sectorSize)) && AllTokens(SectorTokens(t))
  {
    hide NamedFlag, Dec, ScanNumber;
    if t.sectorSize != SECTOR_SIZE {
      var arg := "sector_size:" + Dec(t.sectorSize);
      NoFlagName(arg);
      assert arg[0] == 's' && Literal("integrity:", arg).None?;
      LiteralMatches("sector_size:", Dec(t.sectorSize));
      ScanNumberDec(t.sectorSize, "");
      assert Dec(t.sectorSize) + "" == Dec(t.sectorSize);
      NumbersAreTokens(t.sectorSize);
      OneToken(o, arg);
    }
  }

  lemma IntegrityIsRead(o: Options, i: string, tag: nat)
    requires tag < U32
    ensures WithOption(o, IntegrityToken(i, tag))
         == Some(o.(tagSize := tag, integrity := Some(if i == "none" then "none" else "aead")))
    ensures Token(IntegrityToken(i, tag))
  {
    hide NamedFlag, Dec, ScanNumber, After;
    var what := if i == "none" then "none" else "aead";
    var arg := IntegrityToken(i, tag);
    var t := Dec(tag) + (":" + what);
    assert arg == "integrity:" + t;
    NoFlagName(arg);
    LiteralMatches("integrity:", t);
    ScanNumberDec(tag, ":" + what);
    NumbersAreTokens(tag);
    assert Dec(tag) + [':'] + what == t;
    AfterIs(Dec(tag), ':', what);
  }

  /** The options of a target, read back from its printed tokens. */
  function PrintedOptions(t: Crypt, flags: set<Flag>): Options {
    Options(flags, if t.integrity.Some? then t.tagSize else 0, t.sectorSize,
            if t.integrity.Some? then Some(if t.integrity.value == "none" then "none" else "aead") else None)
  }

  lemma OptionsAreRead(t: Crypt, flags: set<Flag>)
    requires t.Valid()
    ensures WithTokens(NO_OPTIONS, OptionTokens(t, flags)) == Some(PrintedOptions(t, flags))
    ensures AllTokens(OptionTokens(t, flags))
  {
    hide WithOption, FlagTokens, SectorTokens, IntegrityToken;
    var o1 := NO_OPTIONS.(flags := {} + flags);
    var o2 := o1.(sectorSize := t.sectorSize);
    FlagsAreRead(NO_OPTIONS, flags);
    TokensAppend(NO_OPTIONS, FlagTokens(flags), SectorTokens(t) + IntegrityTokens(t));
    SectorIsRead(o1, t);
    TokensAppend(o1, SectorTokens(t), IntegrityTokens(t));
    if t.integrity.Some? {
      IntegrityIsRead(o2, t.integrity.value, t.tagSize);
      OneToken(o2, IntegrityToken(t.integrity.value, t.tagSize));
    } else {
      NoTokens(o2);
    }
    assert {} + flags == flags;
  }

  /** The feature section, its option count included, is read back in full. */
  lemma FeaturesAreRead(t: Crypt, flags: set<Flag>)
    requires t.Valid()
    ensures FoundOptions(Features(OptionTokens(t, flags))) == Some(PrintedOptions(t, flags))
  {
    hide WithTokens, WithOptions, OptionTokens, Dec, Strtoull, Spaced, Joined, PrintedOptions;
    OptionsAreRead(t, flags);
    var tokens := OptionTokens(t, flags);
    FeaturesFit(t, flags);
    if tokens == [] {
      NoTokens(NO_OPTIONS);
    } else {
      var s := Features(tokens);
      var rest := " " + Joined(tokens);
      SpacedIsJoined(tokens);
      assert s[1..] == Dec(|tokens|) + rest;
      StrtoullDec(|tokens|, rest);
      assert rest[1..] == Joined(tokens);
      TokensAreRead(NO_OPTIONS, tokens);
    }
  }

  lemma NoTokens(o: Options)
    ensures WithTokens(o, []) == Some(o)
  {
  }

  lemma KeyIsRead(key: Key, nullCipher: bool)
    requires key.Keyring? ==> key.size < U64 && Token(key.description)
    ensures FoundKey(KeyText(key, nullCipher)) == Some(if nullCipher then Raw([]) else key)
    ensures Token(KeyText(key, nullCipher))
  {
    hide Dec, Hex, HexBytes, ScanNumber, After;
    if nullCipher {
      NullKey();
    } else {
      match key {
        case Raw(bytes) =>
          HexRoundTrip(bytes);
          HexIsText(bytes);
          assert Hex(bytes) != "" ==> HexValue(Hex(bytes)[0]).Some?;
        case Keyring(size, description) =>
          var text := KeyText(key, nullCipher);
          var rest := ":logon:" + description;
          assert text[1..] == Dec(size) + rest;
          ScanNumberDec(size, rest);
          NumbersAreTokens(size);
          var tail := "logon:" + description;
          assert text[1..] == Dec(size) + [':'] + tail;
          AfterIs(Dec(size), ':', tail);
          assert tail == "logon" + [':'] + description;
          AfterIs("logon", ':', description);
      }
    }
  }

  lemma NullKey()
    ensures HexBytes("-") == Some([])
  {
  }

  lemma LineIsSplit(c: string, key: string, ivOffset: nat, device: string, offset: nat, features: string)
    requires Token(c) && Token(key) && Token(device) && ivOffset < U64 && offset < U64
    requires features == "" || features[0] == ' '
    ensures SplitLine(Line(c, key, ivOffset, device, offset, features))
         == Some(Fields(c, key, ivOffset, device, offset, features))
  {
    hide Strsep, Strtoull, Dec;
    var s4 := Dec(offset) + features;
    var s3 := " " + (device + " " + s4);
    var s2 := Dec(ivOffset) + s3;
    var s1 := key + " " + s2;
    assert Line(c, key, ivOffset, device, offset, features) == c + " " + s1;
    StrsepToken(c, s1);
    StrsepToken(key, s2);
    StrtoullDec(ivOffset, s3);
    assert s3[1..] == device + " " + s4;
    StrsepToken(device, s4);
    StrtoullDec(offset, features);
  }

  /** Whatever the cipher translation makes of a spec, the parser finds that spec again as far as the
      translation back does, and every other field as it was; the tag size only with an integrity profile,
      and no key with a null cipher. */
  lemma CryptLineRoundTrip(t: Crypt, flags: set<Flag>)
    requires t.Valid() && CryptLine(t, flags).Some?
    requires Token(C2dm(t.cipher, t.integrity, t.tagSize, 256, 256).value.0)
    ensures var c := C2dm(t.cipher, t.integrity, t.tagSize, 256, 256).value.0;
      FoundCrypt(CryptLine(t, flags).value)
        == match Dm2c(c, PrintedOptions(t, flags).integrity)
           case None => None
           case Some((cipher, integrity)) =>
             Some((t.(cipher := cipher, integrity := integrity, tagSize := PrintedOptions(t, flags).tagSize,
                      key := if NullName(c) then Raw([]) else t.key), flags))
  {
    hide C2dm, IsCipherNull, NullName, Dm2c, FoundKey, KeyText, FoundOptions, Features, OptionTokens, SplitLine, Line;
    var c := C2dm(t.cipher, t.integrity, t.tagSize, 256, 256).value.0;
    var features := Features(OptionTokens(t, flags));
    FeaturesStart(OptionTokens(t, flags));
    NullIs(c);
    KeyIsRead(t.key, IsCipherNull(c));
    LineIsSplit(c, KeyText(t.key, IsCipherNull(c)), t.ivOffset, t.device, t.offset, features);
    FeaturesAreRead(t, flags);
  }

  lemma FeaturesStart(tokens: seq<string>)
    ensures Features(tokens) == "" || Features(tokens)[0] == ' '
  {
  }

  /** The volume key of a real cipher comes back, whatever becomes of the cipher's name: for a kernel name that is
      not "null" and has "cipher_null" at no position. */
  lemma RealKeyIsFound(t: Crypt, flags: set<Flag>, c: string, option: string)
    requires t.Valid() && Token(c) && C2dm(t.cipher, t.integrity, t.tagSize, 256, 256) == Some((c, option))
    requires c != "null" && forall k :: 0 <= k <= |c| ==> !("cipher_null" <= c[k..])
    ensures var found := FoundCrypt(CryptLine(t, flags).value);
      found.Some? ==> found.value.0.key == t.key && found.value.1 == flags
  {
    hide C2dm, Dm2c, FoundCrypt, CryptLine;
    LineExists(t, flags);
    CryptLineRoundTrip(t, flags);
  }

  lemma LineExists(t: Crypt, flags: set<Flag>)
    ensures CryptLine(t, flags).Some? <==> C2dm(t.cipher, t.integrity, t.tagSize, 256, 256).Some?
  {
    hide C2dm, Features, OptionTokens, KeyText, Line, IsCipherNull;
  }

  // Together with the cipher translation

  lemma SplitTokens(s: string)
    requires Token(s)
    ensures Split2(s).First? ==> Token(Split2(s).a)
    ensures Split2(s).Both? ==> Token(Split2(s).a) && Token(Split2(s).b)
  {
    hide Until, Word;
    TokenUntil(s, '-', CLEN);
    match Until(s, '-', CLEN)
    case None =>
    case Some((a, rest)) =>
      if rest != "" {
        TokenWord(rest[1..], CLEN);
      }
  }

  lemma TokenUntil(s: string, stop: char, max: nat)
    requires Token(s)
    ensures Until(s, stop, max).Some? ==> Token(Until(s, stop, max).value.0) && Token(Until(s, stop, max).value.1)
  {
  }

  lemma TokenWord(s: string, max: nat)
    requires Token(s)
    ensures Word(s, max).Some? ==> Token(Word(s, max).value.0)
  {
    var t := SkipBlanks(s);
    assert Token(t);
  }

  /** A cipher name without blanks has a kernel form without blanks. */
  lemma TranslationIsToken(orgC: string, orgI: Option<string>, tag: nat)
    requires Token(orgC) && (orgI.Some? ==> Token(orgI.value))
    ensures C2dm(orgC, orgI, tag, 256, 256).Some? ==> Token(C2dm(orgC, orgI, tag, 256, 256).value.0)
  {
    hide Split2, IntegrityOption, Printed;
    SplitTokens(orgC);
    if Split2(orgC).Both? {
      var cipher, tmp := Split2(orgC).a, Split2(orgC).b;
      SplitTokens(tmp);
      match Split2(tmp)
      case Nothing =>
      case First(iv) => PrintedToken(orgC, orgI, tag, cipher, "", iv);
      case Both(mode, iv) => PrintedToken(orgC, orgI, tag, cipher, mode, iv);
    }
  }

  lemma PrintedToken(orgC: string, orgI: Option<string>, tag: nat, cipher: string, mode: string, iv: string)
    requires Token(orgC) && (orgI.Some? ==> Token(orgI.value)) && Token(cipher) && Token(mode) && Token(iv)
    ensures Token(Printed(orgC, orgI, tag, cipher, mode, iv).0)
  {
    hide IntegrityOption, Wrapped, Snprintf;
    if orgI.Some? {
      var capi := if mode == "" then cipher else mode + "(" + cipher + ")";
      assert Token(capi);
      assert Token(Snprintf(CAPIL + 1, capi));
      WrappedToken(orgI.value, mode, Snprintf(CAPIL + 1, capi));
    }
  }

  lemma WrappedToken(i: string, mode: string, capi: string)
    requires Token(i) && Token(capi)
    ensures Token(Wrapped(i, mode, capi))
  {
    assert Token("rfc4309(") && Token("rfc7539(") && Token(",poly1305)") && Token("authenc(");
  }

  /** The line carries exactly what the translation there and back needs. */
  lemma TranslatedAlike(t: Crypt, flags: set<Flag>)
    requires t.Valid()
    ensures ThereAndBack(t.cipher, t.integrity, t.tagSize)
         == match C2dm(t.cipher, t.integrity, t.tagSize, 256, 256)
            case None => None
            case Some((c, _)) => Dm2c(c, PrintedOptions(t, flags).integrity)
  {
    hide C2dm, Dm2c, IntegrityOption, KernelIntegrity;
    if C2dm(t.cipher, t.integrity, t.tagSize, 256, 256).Some? {
      PrintedOption(t);
      if t.integrity.Some? {
        OptionIsShort(t.integrity.value, t.tagSize);
      } else {
        NoKernelIntegrity();
      }
    }
  }

  lemma NoKernelIntegrity()
    ensures KernelIntegrity("") == None
  {
  }

  /** What a target looks like when it is read back: a null cipher has lost its key, and without an integrity
      profile there is no tag. */
  ghost function ReadBack(t: Crypt): Crypt {
    t.(tagSize := if t.integrity.Some? then t.tagSize else 0,
       key := if C2dm(t.cipher, t.integrity, t.tagSize, 256, 256).Some?
                && NullName(C2dm(t.cipher, t.integrity, t.tagSize, 256, 256).value.0)
              then Raw([]) else t.key)
  }

  ghost predicate RoundTrips(t: Crypt, flags: set<Flag>)
  {
    CryptLine(t, flags).Some? && FoundCrypt(CryptLine(t, flags).value) == Some((ReadBack(t), flags))
  }

  /** A target is read back from its line exactly when its cipher survives the translation. */
  lemma RoundTripsIff(t: Crypt, flags: set<Flag>)
    requires t.Valid()
    ensures RoundTrips(t, flags)
       <==> ThereAndBack(t.cipher, t.integrity, t.tagSize) == Some((t.cipher, t.integrity))
  {
    hide C2dm, Dm2c, FoundCrypt, Line, KeyText, Features, OptionTokens, IsCipherNull, NullName, ThereAndBack;
    TranslatedAlike(t, flags);
    if CryptLine(t, flags).Some? {
      TranslationIsToken(t.cipher, t.integrity, t.tagSize);
      CryptLineRoundTrip(t, flags);
    }
  }

  /** With an integrity profile. */
  lemma AuthenticatedTarget(spec: Spec, t: Crypt, flags: set<Flag>)
    requires t.Valid() && spec.Clean() && t.cipher == spec.Text() && t.integrity.Some?
    ensures RoundTrips(t, flags) <==> spec.Fits() && Survives(spec, t.integrity.value)
  {
    hide RoundTrips, ThereAndBack, Survives;
    RoundTripsIff(t, flags);
    SpecRoundTrip(spec, t.integrity.value, t.tagSize);
  }

  /** Without one. */
  lemma PlainTarget(t: Crypt, flags: set<Flag>)
    requires t.Valid() && t.integrity.None?
    ensures RoundTrips(t, flags) <==> LegacyShape(t.cipher) && |t.cipher| < 256 && !("capi" <= t.cipher)
  {
    hide RoundTrips, ThereAndBack, LegacyShape;
    RoundTripsIff(t, flags);
    LegacyRoundTrip(t.cipher, t.tagSize);
  }
}
