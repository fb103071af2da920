/** dm-verity lines whose options do not fit the fixed buffers: what is lost, and exactly when. */
module DmVerityCut {
  import opened Bytes
  import opened CStrings
  import opened Tokens
  import opened DmVerity
  import opened DmVerityQuery

  predicate RoundTrips(v: Verity, flags: set<Flag>) {
    FoundVerity(VerityLine(v, flags)) == Found((v.table, PrintedOptions(v, Normalised(flags))))
  }

  /** The same number with another last digit. */
  function OtherLastDigit(n: nat): nat {
    if n % 10 == 0 then n + 1 else n - n % 10
  }

  lemma OtherNumber(n: nat)
    requires n < U32
    ensures var m := OtherLastDigit(n); m != n && m < U32 && m / 10 == n / 10
  {
  }

  lemma SameButLast(n: nat, m: nat)
    requires n / 10 == m / 10
    ensures |Dec(n)| == |Dec(m)| && Dec(n)[..|Dec(n)| - 1] == Dec(m)[..|Dec(n)| - 1]
  {
    if n >= 10 {
      assert Dec(n)[..|Dec(n)| - 1] == Dec(n / 10);
      assert Dec(m)[..|Dec(m)| - 1] == Dec(m / 10);
    }
  }

  /** Texts that differ in their last character only are cut alike. */
  lemma CutAlike(size: nat, a: string, b: string)
    requires 0 < size <= |a| == |b| && a[..|a| - 1] == b[..|a| - 1]
    ensures Snprintf(size, a) == Snprintf(size, b)
  {
    assert a[..size - 1] == a[..|a| - 1][..size - 1];
    assert b[..size - 1] == b[..|a| - 1][..size - 1];
  }

  function OtherRoots(fec: Fec): Fec {
    fec.(roots := OtherLastDigit(fec.roots))
  }

  function FecTextStart(fec: Fec): string {
    " use_fec_from_device " + (fec.device + (" fec_start " + (Dec(fec.offset) + (" fec_blocks " + (Dec(fec.blocks) +
    " fec_roots ")))))
  }

  lemma RootsAreLast(fec: Fec)
    ensures FecText(fec) == FecTextStart(fec) + Dec(fec.roots)
  {
    hide Dec, FecTextStart, FecText;
    FecTextTail(fec, "");
    assert FecText(fec) + "" == FecText(fec) && Dec(fec.roots) + "" == Dec(fec.roots);
    FecStartTail(fec, Dec(fec.roots));
  }

  lemma FecStartTail(fec: Fec, tail: string)
    ensures FecTextStart(fec) + tail == " use_fec_from_device " + (fec.device + (" fec_start " + (Dec(fec.offset) +
      (" fec_blocks " + (Dec(fec.blocks) + (" fec_roots " + tail))))))
  {
    hide Dec;
    var t2 := " fec_blocks " + (Dec(fec.blocks) + " fec_roots ");
    var t1 := " fec_start " + (Dec(fec.offset) + t2);
    Regroup(" use_fec_from_device ", fec.device, t1, tail);
    Regroup(" fec_start ", Dec(fec.offset), t2, tail);
    Regroup(" fec_blocks ", Dec(fec.blocks), " fec_roots ", tail);
  }

  /** FEC options that do not fit are printed like those with other roots. */
  lemma FecCutAlike(fec: Fec)
    requires fec.Valid() && |FecText(fec)| > 254
    ensures OtherRoots(fec).Valid() && OtherRoots(fec) != fec
    ensures FecFeature(Some(fec)) == FecFeature(Some(OtherRoots(fec)))
  {
    hide FecText, FecTextStart, Dec, Snprintf, OtherLastDigit, Token;
    var other := OtherRoots(fec);
    OtherNumber(fec.roots);
    SameButLast(fec.roots, other.roots);
    RootsAreLast(fec);
    RootsAreLast(other);
    SameStart(fec, other);
    var a, b, t := Dec(fec.roots), Dec(other.roots), FecTextStart(fec);
    assert (t + a)[..|t + a| - 1] == t + a[..|a| - 1];
    assert (t + b)[..|t + b| - 1] == t + b[..|a| - 1];
    CutAlike(255, FecText(fec), FecText(other));
  }

  lemma SameStart(a: Fec, b: Fec)
    requires b == a.(roots := b.roots)
    ensures FecTextStart(a) == FecTextStart(b)
  {
  }

  function OtherKey(key: string): string
    requires key != ""
  {
    key[|key| - 1 := if key[|key| - 1] == 'a' then 'b' else 'a']
  }

  /** A signature key description that does not fit is printed like another one. */
  lemma SigCutAlike(key: string)
    requires Token(key) && |SigText(key)| > 542
    ensures key != "" && Token(OtherKey(key)) && OtherKey(key) != key && |OtherKey(key)| == |key|
    ensures SigFeature(Some(key)) == SigFeature(Some(OtherKey(key)))
  {
    hide Snprintf;
    var other := OtherKey(key);
    assert other[|key| - 1] != key[|key| - 1];
    assert SigText(key)[..|SigText(key)| - 1] == " root_hash_sig_key_desc " + key[..|key| - 1];
    assert SigText(other)[..|SigText(other)| - 1] == " root_hash_sig_key_desc " + other[..|key| - 1];
    assert key[..|key| - 1] == other[..|key| - 1];
    CutAlike(543, SigText(key), SigText(other));
  }

  /** Targets that differ at most in the value, not in the width, of what is printed last into the two
      buffers. */
  predicate SameShape(v: Verity, w: Verity) {
    && w.table == v.table && w.fec.Some? == v.fec.Some? && w.sigKey.Some? == v.sigKey.Some?
    && (v.fec.Some? ==> w.fec.value == v.fec.value.(roots := w.fec.value.roots)
                        && |Dec(w.fec.value.roots)| == |Dec(v.fec.value.roots)|)
    && (v.sigKey.Some? ==> |w.sigKey.value| == |v.sigKey.value|)
  }

  /** A target that is printed like v but is another one, when v does not fit. */
  function Sibling(v: Verity): Verity
    requires v.Valid() && !v.Fits()
  {
    if v.fec.Some? && |FecText(v.fec.value)| > 254 then v.(fec := Some(OtherRoots(v.fec.value)))
    else SigCutAlike(v.sigKey.value); v.(sigKey := Some(OtherKey(v.sigKey.value)))
  }

  /** No parser can tell the two apart. */
  lemma SiblingPrintedAlike(v: Verity, flags: set<Flag>)
    requires v.Valid() && !v.Fits()
    ensures var w := Sibling(v); w.Valid() && SameShape(v, w) && w != v
    ensures VerityLine(v, flags) == VerityLine(Sibling(v), flags)
    ensures !(RoundTrips(v, flags) && RoundTrips(Sibling(v), flags))
  {
    hide FecText, SigText, FecFeature, SigFeature, Normalised, TableText, OptionCount, FlagTexts, FoundVerity,
      OtherRoots, OtherKey, Dec;
    if v.fec.Some? && |FecText(v.fec.value)| > 254 {
      FecCutAlike(v.fec.value);
      OtherRootsWidth(v.fec.value);
    } else {
      SigCutAlike(v.sigKey.value);
    }
  }

  lemma OtherRootsWidth(fec: Fec)
    requires fec.Valid()
    ensures OtherRoots(fec) == fec.(roots := OtherRoots(fec).roots)
    ensures |Dec(OtherRoots(fec).roots)| == |Dec(fec.roots)|
  {
    hide Dec, OtherLastDigit;
    OtherNumber(fec.roots);
    SameButLast(fec.roots, OtherRoots(fec).roots);
  }

  // Where the text is cut

  function Label(name: string): string {
    " " + name + " "
  }

  function Part(name: string, value: nat): string {
    Label(name) + Dec(value)
  }

  function Head1(fec: Fec): string {
    Label("use_fec_from_device") + fec.device
  }

  function Head2(fec: Fec): string {
    Head1(fec) + Part("fec_start", fec.offset)
  }

  function Head3(fec: Fec): string {
    Head2(fec) + Part("fec_blocks", fec.blocks)
  }

  lemma Labels()
    ensures Label("use_fec_from_device") == " use_fec_from_device " && Label("fec_start") == " fec_start "
    ensures Label("fec_blocks") == " fec_blocks " && Label("fec_roots") == " fec_roots "
  {
  }

  lemma StartIsHead(fec: Fec)
    ensures FecTextStart(fec) == Head3(fec) + Label("fec_roots")
    ensures FecText(fec) == Head3(fec) + Part("fec_roots", fec.roots)
  {
    hide Dec, FecText, Label;
    Labels();
    RootsAreLast(fec);
    var a, b, c := Label("use_fec_from_device"), Label("fec_start"), Label("fec_blocks");
    FecStartTail(fec, "");
    assert FecTextStart(fec) + "" == FecTextStart(fec);
    assert a + (fec.device + (b + (Dec(fec.offset) + (c + (Dec(fec.blocks) + Label("fec_roots"))))))
        == Head3(fec) + Label("fec_roots");
    assert FecTextStart(fec) == a + (fec.device + (b + (Dec(fec.offset) + (c + (Dec(fec.blocks) + Label("fec_roots"))))));
  }

  // Reading on from a head

  lemma DeviceIsRead(o: Options, h: nat, i: nat, n: nat, device: string, tail: string)
    requires i < n && Token(device) && (tail == "" || tail[0] == ' ')
    ensures WithOptions(o, h, i, n, Rest(Label("use_fec_from_device") + device + tail))
         == WithOptions(o.(fecDevice := Some(device)), h, i + 2, n, Rest(tail))
  {
    hide WithOptions, KindOf, Strsep;
    Labels();
    ArgumentKinds();
    ArgumentNamesAreTokens();
    LabelRest("use_fec_from_device", device + tail);
    assert Label("use_fec_from_device") + device + tail == Label("use_fec_from_device") + (device + tail);
    ArgumentIsRead(o, h, i, n, "use_fec_from_device", FecDevice, device + tail);
    LastIsRead(device, tail);
  }

  lemma LabelRest(name: string, s: string)
    ensures Rest(Label(name) + s) == Some(name + " " + s) && SkipOne(Label(name) + s) == name + " " + s
  {
    assert (Label(name) + s)[1..] == name + " " + s;
  }

  predicate NumberName(name: string) {
    name == "fec_start" || name == "fec_blocks" || name == "fec_roots"
  }

  function NumberKind(name: string): (kind: Kind)
    requires NumberName(name)
    ensures kind.FecStart? || kind.FecBlocks? || kind.FecRoots?
  {
    if name == "fec_start" then FecStart else if name == "fec_blocks" then FecBlocks else FecRoots
  }

  lemma NumberNames(name: string)
    requires NumberName(name)
    ensures Token(name) && 9 <= |name| <= 10
    ensures KindOf(name) == NumberKind(name)
  {
    hide KindOf, Token;
    ArgumentKinds();
    RootsKind();
    ArgumentNamesAreTokens();
  }

  /** An option with a number, or with what is left of one. */
  lemma NumberOption(o: Options, h: nat, i: nat, n: nat, name: string, digits: string, tail: string)
    requires i < n && NumberName(name) && Strtoull(digits + tail).1 == tail
    ensures var r := WithArgument(o, h, NumberKind(name), digits + tail);
      WithOptions(o, h, i, n, Rest(Label(name) + digits + tail)) == WithOptions(r.0, h, i + 2, n, Some(SkipOne(tail)))
    ensures var r := WithArgument(o, h, NumberKind(name), digits + tail);
      WithOptions(o, h, i, n, Some(SkipOne(Label(name) + digits + tail)))
        == WithOptions(r.0, h, i + 2, n, Some(SkipOne(tail)))
  {
    hide WithOptions, KindOf, Strsep, Strtoull;
    NumberNames(name);
    LabelRest(name, digits + tail);
    assert Label(name) + digits + tail == Label(name) + (digits + tail);
    ArgumentIsRead(o, h, i, n, name, NumberKind(name), digits + tail);
  }

  // What is missing

  function Needed(key: Option<string>): nat {
    if key.Some? then 2 else 0
  }

  lemma SigTail(key: Option<string>)
    ensures key.None? ==> SigWhole(key) == ""
    ensures key.Some? ==> SigWhole(key) == Label("root_hash_sig_key_desc") + key.value
    ensures key.Some? ==> SigWhole(key) != "" && SigWhole(key)[0] == ' '
    ensures key.Some? ==> Rest(SigWhole(key)) == Some("root_hash_sig_key_desc" + " " + key.value)
    ensures key.Some? ==> SkipOne(SigWhole(key)) == "root_hash_sig_key_desc" + " " + key.value
  {
    if key.Some? {
      LabelRest("root_hash_sig_key_desc", key.value);
    }
  }

  /** Both ways of going on end alike. */
  predicate Ends(o: Options, h: nat, i: nat, n: nat, tail: string, r: Reading<Options>) {
    WithOptions(o, h, i, n, Rest(tail)) == r && WithOptions(o, h, i, n, Some(SkipOne(tail))) == r
  }

  lemma NoOption(o: Options, h: nat, i: nat, n: nat)
    requires i < n
    ensures WithOptions(o, h, i, n, None) == Refused && WithOptions(o, h, i, n, Some("")) == Refused
  {
    hide KindOf;
    StrsepLast("");
    ShortIsUnknown("");
  }

  lemma ShortIsUnknown(arg: string)
    requires |arg| < 9
    ensures KindOf(arg) == Unknown
  {
  }

  /** The text ends, with or without the signature key, and more options are expected. */
  lemma Exhausted(o: Options, h: nat, i: nat, n: nat, key: Option<string>)
    requires n > i + Needed(key) && (key.Some? ==> Token(key.value))
    ensures Ends(o, h, i, n, SigWhole(key), Refused)
  {
    hide WithOptions, KindOf, Strsep, SigWhole;
    SigTail(key);
    match key {
      case None => NoOption(o, h, i, n);
      case Some(k) =>
        ArgumentKinds();
        ArgumentNamesAreTokens();
        ArgumentIsRead(o, h, i, n, "root_hash_sig_key_desc", SigKey, k);
        StrsepLast(k);
        NoOption(WithArgument(o, h, SigKey, k).0, h, i + 2, n);
    }
  }

  lemma UnknownOption(o: Options, h: nat, i: nat, n: nat, arg: string, tail: string)
    requires i < n && Token(arg) && KindOf(arg) == Unknown && (tail == "" || tail[0] == ' ')
    ensures WithOptions(o, h, i, n, Some(arg + tail)) == Refused
  {
    hide KindOf, Strsep;
    LastIsRead(arg, tail);
  }

  lemma PrefixIsUnknown(name: string, k: nat)
    requires NumberName(name) && k < |name|
    ensures KindOf(name[..k]) == Unknown && Token(name[..k])
  {
    hide KindOf;
    NumberNames(name);
    if k < 9 {
      ShortIsUnknown(name[..k]);
    } else {
      FecBlockIsUnknown();
      assert name == "fec_blocks" && name[..9] == "fec_block";
    }
  }

  lemma FecBlockIsUnknown()
    ensures KindOf("fec_block") == Unknown
  {
    hide Lower;
    FirstChars();
    MoreChars();
    assert Lower("fec_block"[4]) != Lower("fec_start"[4]) && Lower("fec_block"[4]) != Lower("fec_roots"[4]);
  }

  lemma MoreChars()
    ensures Lower('b') == 'b' && Lower('s') == 's' && Lower('r') == 'r'
  {
  }

  lemma DigitsAreRead(digits: string, tail: string)
    requires digits != "" && All(digits, Digits) && Stops(tail, Digits)
    ensures Strtoull(digits + tail).1 == tail
  {
    hide Value, Run, SkipBlanks;
    assert In((digits + tail)[0], Digits) && Stops(digits + tail, Blanks);
    NothingToSkip(digits + tail);
    RunIs(digits, tail, Digits);
  }

  lemma NoDigitsLeft(key: Option<string>)
    ensures Strtoull(SigWhole(key)) == (0, SigWhole(key)) && Stops(SigWhole(key), Digits)
  {
    if key.Some? {
      hide Strtoull, SigWhole;
      SigIsBlankAndOption(key.value);
      NoNumber("root_hash_sig_key_desc" + " " + key.value);
    }
  }

  /** The text of a number is read as far as it was printed. */
  lemma CutNumber(value: nat, j: nat, key: Option<string>)
    requires j <= |Dec(value)|
    ensures Strtoull(Dec(value)[..j] + SigWhole(key)).1 == SigWhole(key)
    ensures j == 0 ==> Strtoull(Dec(value)[..j] + SigWhole(key)).0 == 0
  {
    hide Dec, SigWhole, Strtoull;
    var digits := Dec(value)[..j];
    NoDigitsLeft(key);
    if j > 0 {
      assert forall k :: 0 <= k < j ==> digits[k] == Dec(value)[k];
      DigitsAreRead(digits, SigWhole(key));
    } else {
      assert digits + SigWhole(key) == SigWhole(key);
    }
  }

  lemma SkipsOneBlank(s: string)
    requires Stops(s, Blanks)
    ensures SkipBlanks(" " + s) == s && SkipBlanks(s) == s
  {
    RunIs(" ", s, Blanks);
    NothingToSkip(s);
  }

  lemma NoNumber(s: string)
    requires s != "" && s[0] == 'r'
    ensures Strtoull(s) == (0, s) && Strtoull(" " + s) == (0, " " + s)
  {
    hide Run, SkipBlanks, Value;
    SkipsOneBlank(s);
    RunIs("", s, Digits);
    assert "" + s == s;
  }

  /** A name takes the signature option for its number, and the rest of that is no option. */
  lemma NameThenKey(o: Options, h: nat, i: nat, n: nat, name: string, key: string)
    requires NumberName(name) && n >= i + 4
    ensures WithOptions(o, h, i, n, Some(name + " " + ("root_hash_sig_key_desc" + " " + key))) == Refused
  {
    hide WithOptions, KindOf, Strsep, Strtoull;
    var s := "root_hash_sig_key_desc" + " " + key;
    NumberNames(name);
    NoNumber(s);
    ArgumentIsRead(o, h, i, n, name, NumberKind(name), s);
    assert SkipOne(s) == "oot_hash_sig_key_desc" + (" " + key);
    OotIsUnknown();
    UnknownOption(WithArgument(o, h, NumberKind(name), s).0, h, i + 2, n, "oot_hash_sig_key_desc", " " + key);
  }

  lemma NameAtEnd(o: Options, h: nat, i: nat, n: nat, name: string)
    requires NumberName(name) && i < n
    ensures Ends(o, h, i, n, " " + name + SigWhole(None), NullCursor)
  {
    hide WithOptions, KindOf, Strsep, Rest, SkipOne;
    BlankRest(name);
    assert " " + name + SigWhole(None) == " " + name;
    NameAlone(o, h, i, n, name);
  }

  lemma NameBeforeKey(o: Options, h: nat, i: nat, n: nat, name: string, key: string)
    requires NumberName(name) && n >= i + 4
    ensures Ends(o, h, i, n, " " + name + SigWhole(Some(key)), Refused)
  {
    hide WithOptions, KindOf, Strsep, Strtoull, SigWhole, Rest, SkipOne, Token, NumberName;
    SigIsBlankAndOption(key);
    var s := "root_hash_sig_key_desc" + " " + key;
    Regrouped(name, s);
    BlankRest(name + " " + s);
    NameThenKey(o, h, i, n, name, key);
  }

  lemma Regrouped(name: string, s: string)
    ensures " " + name + (" " + s) == " " + (name + " " + s)
  {
  }

  lemma NoLabelLeft(o: Options, h: nat, i: nat, n: nat, name: string, key: Option<string>)
    requires NumberName(name) && n >= i + 2 + Needed(key)
    ensures Ends(o, h, i, n, " " + name + SigWhole(key), if key.None? then NullCursor else Refused)
  {
    hide WithOptions, SigWhole, Rest, SkipOne, NumberName, Ends;
    match key {
      case None => NameAtEnd(o, h, i, n, name);
      case Some(k) => NameBeforeKey(o, h, i, n, name, k);
    }
  }

  lemma BlankRest(s: string)
    ensures Rest(" " + s) == Some(s) && SkipOne(" " + s) == s
  {
    assert (" " + s)[1..] == s;
  }

  lemma SigIsBlankAndOption(key: string)
    ensures SigWhole(Some(key)) == " " + ("root_hash_sig_key_desc" + " " + key)
  {
  }

  lemma NameAlone(o: Options, h: nat, i: nat, n: nat, name: string)
    requires i < n && NumberName(name)
    ensures WithOptions(o, h, i, n, Some(name)) == NullCursor
  {
    hide KindOf, Strsep;
    NumberNames(name);
    StrsepLast(name);
  }

  lemma OotIsUnknown()
    ensures KindOf("oot_hash_sig_key_desc") == Unknown && Token("oot_hash_sig_key_desc")
  {
    hide Lower;
    FirstChars();
    OChar();
    NotSame("oot_hash_sig_key_desc", "restart_on_corruption");
  }

  lemma OChar()
    ensures Lower('o') == 'o'
  {
  }

  lemma PartOfLabel(o: Options, h: nat, i: nat, n: nat, name: string, m: nat, key: Option<string>)
    requires NumberName(name) && 1 <= m <= |name| && i < n
    ensures Ends(o, h, i, n, (" " + name)[..m] + SigWhole(key), Refused)
  {
    hide WithOptions, KindOf, Strsep, SigWhole, Rest, SkipOne;
    SigTail(key);
    var x := name[..m - 1];
    BlankRest(x + SigWhole(key));
    PrefixIsUnknown(name, m - 1);
    UnknownOption(o, h, i, n, x, SigWhole(key));
    assert (" " + name)[..m] + SigWhole(key) == " " + (x + SigWhole(key));
  }

  /** An option with a number that is cut off somewhere: too few options are left for the count. */
  lemma Starved(o: Options, h: nat, i: nat, n: nat, name: string, value: nat, m: nat, key: Option<string>)
    requires NumberName(name) && m < |Part(name, value)| && (key.Some? ==> Token(key.value))
    requires n >= i + Needed(key) + if m < |Label(name)| then 2 else 4
    ensures Ends(o, h, i, n, Part(name, value)[..m] + SigWhole(key),
                 if key.None? && m == |name| + 1 then NullCursor else Refused)
  {
    hide WithOptions, KindOf, Strsep, Strtoull, SigWhole, Ends, Dec;
    var part := Part(name, value);
    if m == 0 {
      assert part[..m] + SigWhole(key) == SigWhole(key);
      Exhausted(o, h, i, n, key);
    } else if m <= |name| {
      assert part[..m] == (" " + name)[..m];
      PartOfLabel(o, h, i, n, name, m, key);
    } else if m == |name| + 1 {
      assert part[..m] == " " + name;
      NoLabelLeft(o, h, i, n, name, key);
    } else {
      var digits := Dec(value)[..m - |Label(name)|];
      assert part[..m] == Label(name) + digits;
      CutNumber(value, m - |Label(name)|, key);
      DigitsThenNothing(o, h, i, n, name, digits, key);
    }
  }

  lemma DigitsThenNothing(o: Options, h: nat, i: nat, n: nat, name: string, digits: string, key: Option<string>)
    requires NumberName(name) && n >= i + Needed(key) + 4 && (key.Some? ==> Token(key.value))
    requires Strtoull(digits + SigWhole(key)).1 == SigWhole(key)
    ensures Ends(o, h, i, n, Label(name) + digits + SigWhole(key), Refused)
  {
    hide WithOptions, KindOf, Strsep, Strtoull, SigWhole, WithArgument;
    NumberNames(name);
    NumberOption(o, h, i, n, name, digits, SigWhole(key));
    Exhausted(WithArgument(o, h, NumberKind(name), digits + SigWhole(key)).0, h, i + 2, n, key);
  }

  // The FEC options, cut after `cut` characters

  /** A whole option with a number and more text behind it. */
  lemma NumberThenTail(o: Options, h: nat, i: nat, n: nat, name: string, value: nat, tail: string)
    requires i < n && NumberName(name) && value < U64 && (tail == "" || tail[0] == ' ')
    ensures WithOptions(o, h, i, n, Rest(Part(name, value) + tail))
         == WithOptions(WithArgument(o, h, NumberKind(name), Dec(value) + tail).0, h, i + 2, n, Some(SkipOne(tail)))
    ensures WithOptions(o, h, i, n, Some(SkipOne(Part(name, value) + tail)))
         == WithOptions(o, h, i, n, Rest(Part(name, value) + tail))
  {
    hide WithOptions, KindOf, Strtoull, WithArgument, Dec;
    NumberThenMore(value, tail);
    assert Part(name, value) + tail == Label(name) + Dec(value) + tail;
    NumberOption(o, h, i, n, name, Dec(value), tail);
  }

  lemma PartTail(part: string, m: nat, key: Option<string>)
    requires part != "" && part[0] == ' ' && m <= |part|
    ensures var t := part[..m] + SigWhole(key); t == "" || t[0] == ' '
  {
    hide SigWhole;
    SigTail(key);
    if m == 0 {
      assert part[..m] + SigWhole(key) == SigWhole(key);
    }
  }

  lemma CutInDevice(o: Options, h: nat, i: nat, n: nat, fec: Fec, m: nat, key: Option<string>)
    requires fec.Valid() && m < |fec.device| && n == i + 8 + Needed(key) && (key.Some? ==> Token(key.value))
    ensures WithOptions(o, h, i, n, Rest(Label("use_fec_from_device") + fec.device[..m] + SigWhole(key))) == Refused
  {
    hide WithOptions, SigWhole, Label;
    SigTail(key);
    assert Token(fec.device[..m]);
    DeviceIsRead(o, h, i, n, fec.device[..m], SigWhole(key));
    Exhausted(o.(fecDevice := Some(fec.device[..m])), h, i + 2, n, key);
  }

  lemma CutInStart(o: Options, h: nat, i: nat, n: nat, fec: Fec, m: nat, key: Option<string>)
    requires fec.Valid() && m < |Part("fec_start", fec.offset)| && n == i + 8 + Needed(key)
    requires key.Some? ==> Token(key.value)
    ensures WithOptions(o, h, i, n, Rest(Head1(fec) + (Part("fec_start", fec.offset)[..m] + SigWhole(key))))
         == if key.None? && m == |"fec_start"| + 1 then NullCursor else Refused
  {
    hide WithOptions, SigWhole, Part, Label;
    PartStart("fec_start", fec.offset);
    PartTail(Part("fec_start", fec.offset), m, key);
    DeviceIsRead(o, h, i, n, fec.device, Part("fec_start", fec.offset)[..m] + SigWhole(key));
    Starved(o.(fecDevice := Some(fec.device)), h, i + 2, n, "fec_start", fec.offset, m, key);
  }

  lemma PartStart(name: string, value: nat)
    ensures Part(name, value) != "" && Part(name, value)[0] == ' '
  {
  }

  /** The options after the device. */
  lemma Head2IsRead(o: Options, h: nat, i: nat, n: nat, fec: Fec, tail: string) returns (o': Options)
    requires fec.Valid() && i + 4 <= n && (tail == "" || tail[0] == ' ')
    ensures WithOptions(o, h, i, n, Rest(Head2(fec) + tail)) == WithOptions(o', h, i + 4, n, Some(SkipOne(tail)))
    ensures o' == o.(fecDevice := Some(fec.device), fecOffset := fec.offset, fecAreaOffset := fec.offset * h % U64)
  {
    hide WithOptions, Part, Label, KindOf, Strtoull, Dec;
    var start := Part("fec_start", fec.offset);
    PartStart("fec_start", fec.offset);
    assert Head2(fec) + tail == Label("use_fec_from_device") + fec.device + (start + tail);
    DeviceIsRead(o, h, i, n, fec.device, start + tail);
    var o1 := o.(fecDevice := Some(fec.device));
    NumberThenTail(o1, h, i + 2, n, "fec_start", fec.offset, tail);
    NumberNames("fec_start");
    NumberThenMore(fec.offset, tail);
    o' := WithArgument(o1, h, FecStart, Dec(fec.offset) + tail).0;
  }

  lemma Head3IsRead(o: Options, h: nat, i: nat, n: nat, fec: Fec, tail: string) returns (o': Options)
    requires fec.Valid() && i + 6 <= n && (tail == "" || tail[0] == ' ')
    ensures WithOptions(o, h, i, n, Rest(Head3(fec) + tail)) == WithOptions(o', h, i + 6, n, Some(SkipOne(tail)))
    ensures o' == o.(fecDevice := Some(fec.device), fecOffset := fec.offset, fecAreaOffset := fec.offset * h % U64,
                     fecBlocks := fec.blocks)
  {
    hide WithOptions, Part, Label, KindOf, Strtoull, Dec, Head2;
    var blocks := Part("fec_blocks", fec.blocks);
    PartStart("fec_blocks", fec.blocks);
    assert Head3(fec) + tail == Head2(fec) + (blocks + tail);
    var o2 := Head2IsRead(o, h, i, n, fec, blocks + tail);
    NumberThenTail(o2, h, i + 4, n, "fec_blocks", fec.blocks, tail);
    NumberNames("fec_blocks");
    NumberThenMore(fec.blocks, tail);
    o' := WithArgument(o2, h, FecBlocks, Dec(fec.blocks) + tail).0;
  }

  lemma CutInBlocks(o: Options, h: nat, i: nat, n: nat, fec: Fec, m: nat, key: Option<string>)
    requires fec.Valid() && m < |Part("fec_blocks", fec.blocks)| && n == i + 8 + Needed(key)
    requires key.Some? ==> Token(key.value)
    ensures WithOptions(o, h, i, n, Rest(Head2(fec) + (Part("fec_blocks", fec.blocks)[..m] + SigWhole(key))))
         == if key.None? && m == |"fec_blocks"| + 1 then NullCursor else Refused
  {
    hide WithOptions, SigWhole, Part, Label, Head2;
    PartStart("fec_blocks", fec.blocks);
    PartTail(Part("fec_blocks", fec.blocks), m, key);
    var o' := Head2IsRead(o, h, i, n, fec, Part("fec_blocks", fec.blocks)[..m] + SigWhole(key));
    Starved(o', h, i + 4, n, "fec_blocks", fec.blocks, m, key);
  }

  lemma CutInRootsLabel(o: Options, h: nat, i: nat, n: nat, fec: Fec, m: nat, key: Option<string>)
    requires fec.Valid() && m < |Label("fec_roots")| && n == i + 8 + Needed(key) && (key.Some? ==> Token(key.value))
    ensures WithOptions(o, h, i, n, Rest(Head3(fec) + (Part("fec_roots", fec.roots)[..m] + SigWhole(key))))
         == if key.None? && m == |"fec_roots"| + 1 then NullCursor else Refused
  {
    hide WithOptions, SigWhole, Head3;
    PartStart("fec_roots", fec.roots);
    PartTail(Part("fec_roots", fec.roots), m, key);
    var o' := Head3IsRead(o, h, i, n, fec, Part("fec_roots", fec.roots)[..m] + SigWhole(key));
    Starved(o', h, i + 6, n, "fec_roots", fec.roots, m, key);
  }

  /** A number of which no digit is left is read as zero. */
  lemma CutBeforeRoots(o: Options, h: nat, i: nat, n: nat, fec: Fec, key: Option<string>)
    requires fec.Valid() && n == i + 8 + Needed(key)
    ensures WithOptions(o, h, i, n, Rest(Head3(fec) + (Label("fec_roots") + SigWhole(key))))
         == WithOptions(WithFec(o, h, fec.(roots := 0)), h, i + 8, n, Some(SkipOne(SigWhole(key))))
  {
    hide WithOptions, SigWhole, Head3, KindOf, Strtoull;
    var tail := Label("fec_roots") + SigWhole(key);
    LabelRest("fec_roots", SigWhole(key));
    var o' := Head3IsRead(o, h, i, n, fec, tail);
    NoDigitsLeft(key);
    assert Label("fec_roots") + "" + SigWhole(key) == tail && "" + SigWhole(key) == SigWhole(key);
    NumberOption(o', h, i + 6, n, "fec_roots", "", SigWhole(key));
    NumberNames("fec_roots");
  }

  /** The buffer ends right after the name of an option. */
  predicate EndsInName(fec: Fec) {
    || |Head1(fec)| + |" fec_start"| == 254
    || |Head2(fec)| + |" fec_blocks"| == 254
    || |Head3(fec)| + |" fec_roots"| == 254
  }

  /** FEC options whose roots have no digit within the buffer: the line is refused, wherever the cut falls,
      except that right after a name at the end of the line the code reads through a null pointer. */
  lemma CutEarly(o: Options, h: nat, i: nat, n: nat, fec: Fec, key: Option<string>)
    requires fec.Valid() && |FecTextStart(fec)| > 254 && n == i + 8 + Needed(key) && (key.Some? ==> Token(key.value))
    ensures WithOptions(o, h, i, n, Rest(FecFeature(Some(fec)) + SigWhole(key)))
         == if key.None? && EndsInName(fec) then NullCursor else Refused
  {
    hide WithOptions, SigWhole, Label, Part, FecText, FecTextStart, Head1, Head2, Head3, Dec;
    StartIsHead(fec);
    RootsAreLast(fec);
    HeadsGrow(fec);
    PartLength("fec_start", fec.offset);
    PartLength("fec_blocks", fec.blocks);
    var text, sig := FecText(fec), SigWhole(key);
    var cut := FecFeature(Some(fec));
    assert cut == text[..254];
    var start, blocks, roots := Part("fec_start", fec.offset), Part("fec_blocks", fec.blocks), Part("fec_roots", fec.roots);
    if |Head3(fec)| <= 254 {
      var m := 254 - |Head3(fec)|;
      assert cut + sig == Head3(fec) + (roots[..m] + sig);
      CutInRootsLabel(o, h, i, n, fec, m, key);
    } else if |Head2(fec)| <= 254 {
      var m := 254 - |Head2(fec)|;
      assert cut == Head3(fec)[..254] && cut + sig == Head2(fec) + (blocks[..m] + sig);
      CutInBlocks(o, h, i, n, fec, m, key);
    } else if |Head1(fec)| <= 254 {
      var m := 254 - |Head1(fec)|;
      assert cut == Head2(fec)[..254] && cut + sig == Head1(fec) + (start[..m] + sig);
      CutInStart(o, h, i, n, fec, m, key);
    } else {
      var intro := Label("use_fec_from_device");
      LabelLength();
      var m := 254 - |intro|;
      assert cut == Head1(fec)[..254] == intro + fec.device[..m];
      CutInDevice(o, h, i, n, fec, m, key);
    }
  }

  lemma PartLength(name: string, value: nat)
    ensures |Part(name, value)| > |name| + 2
  {
    hide Dec;
  }

  lemma LabelLength()
    ensures |Label("use_fec_from_device")| == 21
  {
  }

  lemma HeadsGrow(fec: Fec)
    ensures Head3(fec) == Head2(fec) + Part("fec_blocks", fec.blocks)
    ensures Head2(fec) == Head1(fec) + Part("fec_start", fec.offset)
    ensures Head1(fec) == Label("use_fec_from_device") + fec.device
  {
  }

  // Each single target

  /** What is left of a number after its first j digits. */
  lemma {:induction false} DigitsOf(value: nat, j: nat) returns (m: nat)
    requires 1 <= j <= |Dec(value)|
    ensures Dec(value)[..j] == Dec(m) && m <= value && (j < |Dec(value)| <==> m < value)
  {
    if j == |Dec(value)| {
      m := value;
      assert Dec(value)[..j] == Dec(value);
    } else {
      assert value >= 10;
      m := DigitsOf(value / 10, j);
      assert Dec(value)[..j] == Dec(value / 10)[..j];
    }
  }

  /** The description as far as its buffer holds it. */
  function PrintedKey(key: Option<string>): Option<string> {
    if key.Some? then Some(key.value[..Min(|key.value|, 518)]) else None
  }

  lemma KeyIsPrinted(key: Option<string>)
    requires key.Some? ==> Token(key.value)
    ensures SigFeature(key) == SigWhole(PrintedKey(key)) == SigFeature(PrintedKey(key))
    ensures PrintedKey(key).Some? == key.Some?
    ensures key.Some? ==> Token(PrintedKey(key).value) && |SigText(PrintedKey(key).value)| <= 542
    ensures PrintedKey(key) == key <==> key.Some? ==> |SigText(key.value)| <= 542
  {
    if key.Some? {
      var k := key.value;
      assert k[..|k|] == k;
      if |k| > 518 {
        assert SigText(k)[..542] == " root_hash_sig_key_desc " + k[..518];
      }
    }
  }

  /** The exact condition for a target to be read back: its description fits, and so do its FEC options, or they
      miss their buffer by the single digit of no roots, which is read as zero anyway. */
  predicate Recovered(v: Verity) {
    && (v.sigKey.Some? ==> |SigText(v.sigKey.value)| <= 542)
    && (v.fec.Some? ==> |FecText(v.fec.value)| <= 254
                        || (|FecText(v.fec.value)| == 255 && v.fec.value.roots == 0))
  }

  /** A target with the same line, whose options fit: the roots have lost digits, the description its end. */
  lemma FittingTwin(v: Verity, flags: set<Flag>) returns (w: Verity)
    requires v.Valid() && (v.fec.Some? ==> |FecTextStart(v.fec.value)| < 254)
    ensures w.Valid() && w.Fits() && VerityLine(w, flags) == VerityLine(v, flags)
    ensures w.table == v.table && w.sigKey == PrintedKey(v.sigKey) && w.fec.Some? == v.fec.Some?
    ensures v.fec.Some? ==> (w.fec == v.fec <==> |FecText(v.fec.value)| <= 254)
  {
    hide FecText, FecTextStart, Dec, SigText, SigFeature, Token, PrintedKey, TableText, FlagTexts, OptionCount,
      Normalised, SigWhole;
    KeyIsPrinted(v.sigKey);
    w := v.(sigKey := PrintedKey(v.sigKey));
    if v.fec.Some? {
      var fec := v.fec.value;
      RootsAreLast(fec);
      var j := Min(|Dec(fec.roots)|, 254 - |FecTextStart(fec)|);
      var m := DigitsOf(fec.roots, j);
      var cut := fec.(roots := m);
      RootsAreLast(cut);
      SameStart(fec, cut);
      assert FecFeature(Some(fec)) == FecText(cut) == FecFeature(Some(cut));
      w := w.(fec := Some(cut));
    }
  }

  /** FEC options that lose all digits of their roots. */
  lemma NoDigits(v: Verity, flags: set<Flag>)
    requires v.Valid() && v.fec.Some? && |FecTextStart(v.fec.value)| >= 254
    ensures |FecTextStart(v.fec.value)| > 254 ==>
      FoundVerity(VerityLine(v, flags)) == if v.sigKey.None? && EndsInName(v.fec.value) then NullCursor else Refused
    ensures |FecTextStart(v.fec.value)| == 254 ==>
      FoundVerity(VerityLine(v, flags)) == Found((v.table,
        PrintedOptions(v.(sigKey := PrintedKey(v.sigKey), fec := Some(v.fec.value.(roots := 0))), Normalised(flags))))
  {
    hide WithOptions, FoundTable, FoundOptions, TableText, Features, Normalised, FecText, FecTextStart, FecFeature,
      SigText, SigFeature, SigWhole, PrintedKey, Dec, OptionCount;
    var f := Normalised(flags);
    var i, n := OptionCount(f, false, false), OptionCount(f, true, v.sigKey.Some?);
    var o, h, key := NO_OPTIONS.(flags := f), v.table.hashBlockSize, PrintedKey(v.sigKey);
    CountBounds(f, true, v.sigKey.Some?);
    FlagsFirst(v, f);
    TableIsRead(v.table, Features(v, f));
    KeyIsPrinted(v.sigKey);
    if |FecTextStart(v.fec.value)| > 254 {
      CutEarly(o, h, i, n, v.fec.value, key);
    } else {
      LabelOnly(v.fec.value, SigWhole(key));
      CutBeforeRoots(o, h, i, n, v.fec.value, key);
      AfterFec(WithFec(o, h, v.fec.value.(roots := 0)), h, i + 8, n, key);
    }
  }

  lemma LabelOnly(fec: Fec, tail: string)
    requires |FecTextStart(fec)| == 254
    ensures FecFeature(Some(fec)) + tail == Head3(fec) + (Label("fec_roots") + tail)
  {
    hide FecText, FecTextStart, Head3, Label, Part, Dec;
    StartIsHead(fec);
    RootsAreLast(fec);
    assert FecFeature(Some(fec)) == FecTextStart(fec);
  }

  /** The signature key, if any, ends the options. */
  lemma AfterFec(o: Options, h: nat, i: nat, n: nat, key: Option<string>)
    requires n == i + Needed(key) && (key.Some? ==> Token(key.value)) && o.sigKey.None?
    ensures WithOptions(o, h, i, n, Some(SkipOne(SigWhole(key)))) == Found(o.(sigKey := key))
  {
    hide WithOptions, SigText;
    SigStart(key);
    if key.Some? {
      SigIsRead(o, h, n, key.value);
    } else {
      NoneLeft(o, h, n, Some(""));
    }
  }

  /** For every target and all flags: its line is read back as it was if and only if the signature description
      fits its buffer and the FEC options fit theirs, or miss it only by the digit of no roots. */
  lemma VerityRoundTripIff(v: Verity, flags: set<Flag>)
    requires v.Valid()
    ensures RoundTrips(v, flags) <==> Recovered(v)
  {
    hide FoundVerity, VerityLine, Normalised, FecText, FecTextStart, SigText, Dec, PrintedKey;
    KeyIsPrinted(v.sigKey);
    if v.fec.Some? {
      RootsAreLast(v.fec.value);
      OneDigit(v.fec.value.roots);
    }
    if v.fec.Some? && |FecTextStart(v.fec.value)| >= 254 {
      NoDigits(v, flags);
    } else {
      var w := FittingTwin(v, flags);
      VerityLineRoundTrip(w, flags);
    }
  }

  lemma OneDigit(n: nat)
    ensures |Dec(n)| >= 1 && (n == 0 ==> |Dec(n)| == 1)
  {
  }
}
