/** Reading back the parameter line of a dm-verity target, with everything about it requested. */
module DmVerityQuery {
  import opened Bytes
  import opened CStrings
  import opened Tokens
  import opened DmVerity

  datatype Kind = Plain(flag: Flag) | FecDevice | FecStart | FecBlocks | FecRoots | SigKey | Unknown

  function KindOf(arg: string): Kind {
    if SameIgnoringCase(arg, "ignore_corruption") then Plain(IgnoreCorruption)
    else if SameIgnoringCase(arg, "restart_on_corruption") then Plain(RestartOnCorruption)
    else if SameIgnoringCase(arg, "panic_on_corruption") then Plain(PanicOnCorruption)
    else if SameIgnoringCase(arg, "ignore_zero_blocks") then Plain(IgnoreZeroBlocks)
    else if SameIgnoringCase(arg, "check_at_most_once") then Plain(CheckAtMostOnce)
    else if SameIgnoringCase(arg, "use_fec_from_device") then FecDevice
    else if SameIgnoringCase(arg, "fec_start") then FecStart
    else if SameIgnoringCase(arg, "fec_blocks") then FecBlocks
    else if SameIgnoringCase(arg, "fec_roots") then FecRoots
    else if SameIgnoringCase(arg, "root_hash_sig_key_desc") then SigKey
    else Unknown
  }

  /** What the feature section of a line says. */
  datatype Options = Options(flags: set<Flag>, fecDevice: Option<string>, fecOffset: nat, fecAreaOffset: nat,
                             fecBlocks: nat, fecRoots: nat, sigKey: Option<string>)

  const NO_OPTIONS := Options({}, None, 0, 0, 0, 0, None)

  /** The text after a number: one more character is skipped if there is one. */
  function SkipOne(s: string): string {
    if s == "" then "" else s[1..]
  }

  /** The effect of an option with an argument, and what is left. */
  function WithArgument(o: Options, hashBlockSize: nat, kind: Kind, s: string): (Options, Option<string>)
    requires !kind.Plain? && !kind.Unknown?
  {
    match kind
    case FecDevice => (o.(fecDevice := Some(Strsep(s).0)), Strsep(s).1)
    case FecStart =>
      (o.(fecOffset := Strtoull(s).0, fecAreaOffset := Strtoull(s).0 * hashBlockSize % U64), Some(SkipOne(Strtoull(s).1)))
    case FecBlocks => (o.(fecBlocks := Strtoull(s).0), Some(SkipOne(Strtoull(s).1)))
    case FecRoots => (o.(fecRoots := Strtoull(s).0 % U32), Some(SkipOne(Strtoull(s).1)))
    case SigKey => (if o.sigKey.None? then o.(sigKey := Some(Strsep(s).0)) else o, Strsep(s).1)
  }

  /** What the options with a number make of a printed one, of any size; the first signature key stays. */
  lemma ArgumentIs(o: Options, h: nat, n: nat, rest: string)
    requires Stops(rest, Digits)
    ensures var v := if n < 0x1_0000_0000_0000_0000 then n else 0xffff_ffff_ffff_ffff;
      && WithArgument(o, h, FecStart, Dec(n) + rest).0 == o.(fecOffset := v, fecAreaOffset := v * h % 0x1_0000_0000_0000_0000)
      && WithArgument(o, h, FecBlocks, Dec(n) + rest).0 == o.(fecBlocks := v)
      && WithArgument(o, h, FecRoots, Dec(n) + rest).0 == o.(fecRoots := v % 0x1_0000_0000)
    ensures o.sigKey.Some? ==> WithArgument(o, h, SigKey, rest).0 == o
    ensures o.sigKey.None? ==> WithArgument(o, h, SigKey, rest).0 == o.(sigKey := Some(Strsep(rest).0))
  {
    hide Dec, Strtoull, Strsep;
    StrtoullIs(n, rest);
  }

  /** What becomes of a line. With NullCursor an option ends the line where its value should follow, and the
      code goes on reading through a null pointer. */
  datatype Reading<+T> = Found(value: T) | Refused | NullCursor

  /** What the options add from the i-th of n on. An option that needs an argument counts twice. Only for the
      signature key is a missing argument noticed. */
  function WithOptions(o: Options, hashBlockSize: nat, i: nat, n: nat, params: Option<string>): Reading<Options>
    decreases n - i
  {
    if i >= n then
      if params.Some? && params.value != "" then Refused else Found(o)
    else
      match params
      case None => Refused
      case Some(s) =>
        var (arg, rest) := Strsep(s);
        var kind := KindOf(arg);
        if kind.Unknown? then Refused
        else if kind.Plain? then WithOptions(o.(flags := o.flags + {kind.flag}), hashBlockSize, i + 1, n, rest)
        else
          match rest
          case None => if kind.SigKey? then Refused else NullCursor
          case Some(s') =>
            var (o', rest') := WithArgument(o, hashBlockSize, kind, s');
            WithOptions(o', hashBlockSize, i + 2, n, rest')
  }

  function FoundOptions(hashBlockSize: nat, params: Option<string>): Reading<Options> {
    match params
    case None => Found(NO_OPTIONS)
    case Some(s) =>
      var (n, rest) := Strtoull(s);
      if " " <= rest then WithOptions(NO_OPTIONS, hashBlockSize, 0, n % U32, Some(rest[1..])) else Refused
  }

  /** crypt_hex_to_bytes */
  function HexToBytes(hex: string): Option<seq<byte>> {
    if |hex| % 2 == 1 then None else HexBytes(hex)
  }

  /** A text of odd length is refused, whatever it is; one of even length that is not refused has a byte for each
      two characters. */
  lemma HexToBytesIs(hex: string)
    ensures |hex| % 2 == 1 ==> HexToBytes(hex).None?
    ensures HexToBytes(hex).Some? ==> 2 * |HexToBytes(hex).value| == |hex|
    ensures |hex| % 2 == 0 ==> HexToBytes(hex) == HexBytes(hex)
  {
    HexBytesLength(hex);
  }

  lemma {:induction false} HexBytesLength(hex: string)
    ensures HexBytes(hex).Some? ==> |HexBytes(hex).value| == |hex| / 2
  {
    hide HexByte;
    if |hex| >= 2 {
      HexBytesLength(hex[2..]);
    }
  }

  function FoundSalt(s: string): Option<seq<byte>> {
    if s == "-" then Some([]) else HexToBytes(s)
  }

  /** A number that has to be followed by a blank. */
  function NumberField(s: string): Option<(nat, string)> {
    var (n, rest) := Strtoull(s);
    if " " <= rest then Some((n, rest[1..])) else None
  }

  /** A token that has to be followed by a blank. */
  function TokenField(s: string): Option<(string, string)> {
    match Strsep(s)
    case (_, None) => None
    case (tok, Some(rest)) => Some((tok, rest))
  }

  /** The four numbers in the middle of the line. */
  function Numbers(s: string): Option<((nat, nat, nat, nat), string)> {
    match NumberField(s)
    case None => None
    case Some((a, s1)) =>
      match NumberField(s1)
      case None => None
      case Some((b, s2)) =>
        match NumberField(s2)
        case None => None
        case Some((c, s3)) =>
          match NumberField(s3)
          case None => None
          case Some((d, s4)) => Some(((a % U32, b % U32, c, d), s4))
  }

  /** The last three mandatory fields, and the features if there are any. */
  function Hashes(s: string): Option<((string, seq<byte>, seq<byte>), Option<string>)> {
    match TokenField(s)
    case None => None
    case Some((name, s1)) =>
      match TokenField(s1)
      case None => None
      case Some((hex, s2)) =>
        match HexToBytes(hex)
        case None => None
        case Some(root) =>
          match FoundSalt(Strsep(s2).0)
          case None => None
          case Some(salt) => Some(((name, root, salt), Strsep(s2).1))
  }

  function FoundTable(line: string): Option<(Table, Option<string>)> {
    match NumberField(line)
    case None => None
    case Some((version, s1)) =>
      match TokenField(s1)
      case None => None
      case Some((device, s2)) =>
        match TokenField(s2)
        case None => None
        case Some((hashDevice, s3)) =>
          match Numbers(s3)
          case None => None
          case Some((num, s4)) =>
            match Hashes(s4)
            case None => None
            case Some((h, rest)) =>
              Some((Table(version % U32, device, hashDevice, num.0, num.1, num.2, num.3, h.0, h.1, h.2), rest))
  }

  /** The target that a line describes. */
  function FoundVerity(line: string): Reading<(Table, Options)> {
    match FoundTable(line)
    case None => Refused
    case Some((table, rest)) =>
      match FoundOptions(table.hashBlockSize, rest)
      case Found(o) => Found((table, o))
      case Refused => Refused
      case NullCursor => NullCursor
  }

  /** crypt_hex_to_bytes */
  method CryptHexToBytes(hex: string) returns (bytes: Option<seq<byte>>)
    ensures bytes == HexToBytes(hex)
  {
    if |hex| % 2 == 1 {
      return None;
    }
    bytes := ReadHex(hex);
  }

  /** Block sizes, data blocks and hash start, each followed by a blank. */
  method QueryNumbers(s: string) returns (r: Option<((nat, nat, nat, nat), string)>)
    ensures r == Numbers(s)
  {
    hide Strtoull;
    var (dataBlockSize, s1) := Strtoull(s);
    if !(" " <= s1) {
      return None;
    }
    var (hashBlockSize, s2) := Strtoull(s1[1..]);
    if !(" " <= s2) {
      return None;
    }
    var (dataSize, s3) := Strtoull(s2[1..]);
    if !(" " <= s3) {
      return None;
    }
    var (hashOffset, s4) := Strtoull(s3[1..]);
    if !(" " <= s4) {
      return None;
    }
    return Some(((dataBlockSize % U32, hashBlockSize % U32, dataSize, hashOffset), s4[1..]));
  }

  /** Hash name, root digest and salt. */
  method QueryHashes(s: string) returns (r: Option<((string, seq<byte>, seq<byte>), Option<string>)>)
    ensures r == Hashes(s)
  {
    hide Strsep, HexToBytes;
    var (hashName, s1) := Strsep(s);
    if s1.None? {
      return None;
    }
    var (str, s2) := Strsep(s1.value);
    if s2.None? {
      return None;
    }
    var rootHash := CryptHexToBytes(str);
    if rootHash.None? {
      return None;
    }
    var (saltText, params) := Strsep(s2.value);
    var salt: Option<seq<byte>> := Some([]);
    if saltText != "-" {
      salt := CryptHexToBytes(saltText);
      if salt.None? {
        return None;
      }
    }
    return Some(((hashName, rootHash.value, salt.value), params));
  }

  /** The mandatory fields from left to right. */
  method QueryTable(line: string) returns (r: Option<(Table, Option<string>)>)
    ensures r == FoundTable(line)
  {
    hide Strtoull, Strsep, Numbers, Hashes;
    var (version, rest) := Strtoull(line);
    if !(" " <= rest) {
      return None;
    }
    var (device, s1) := Strsep(rest[1..]);
    if s1.None? {
      return None;
    }
    var (hashDevice, s2) := Strsep(s1.value);
    if s2.None? {
      return None;
    }
    var numbers := QueryNumbers(s2.value);
    if numbers.None? {
      return None;
    }
    var hashes := QueryHashes(numbers.value.1);
    if hashes.None? {
      return None;
    }
    var (dataBlockSize, hashBlockSize, dataSize, hashOffset) := numbers.value.0;
    var (hashName, rootHash, salt) := hashes.value.0;
    return Some((Table(version % U32, device, hashDevice, dataBlockSize, hashBlockSize, dataSize, hashOffset,
                       hashName, rootHash, salt), hashes.value.1));
  }

  class DmTarget {
    var flags: set<Flag>
    var fecDevice: Option<string>
    var fecOffset: nat
    var fecAreaOffset: nat
    var fecBlocks: nat
    var fecRoots: nat
    var sigKey: Option<string>

    ghost function State(): Options
      reads this
    {
      Options(flags, fecDevice, fecOffset, fecAreaOffset, fecBlocks, fecRoots, sigKey)
    }

    /** An option with an argument: the cursor moves past the argument. */
    method QueryArgument(hashBlockSize: nat, kind: Kind, s: string) returns (params: Option<string>)
      requires !kind.Plain? && !kind.Unknown?
      modifies this
      ensures (State(), params) == WithArgument(old(State()), hashBlockSize, kind, s)
    {
      hide Strsep, Strtoull;
      match kind {
        case FecDevice =>
          fecDevice := Some(Strsep(s).0);
          params := Strsep(s).1;
        case FecStart =>
          var (val, rest) := Strtoull(s);
          params := Some(SkipOne(rest));
          fecOffset := val;
          fecAreaOffset := val * hashBlockSize % U64;
        case FecBlocks =>
          var (val, rest) := Strtoull(s);
          params := Some(SkipOne(rest));
          fecBlocks := val;
        case FecRoots =>
          var (val, rest) := Strtoull(s);
          params := Some(SkipOne(rest));
          fecRoots := val % U32;
        case SigKey =>
          var (key, rest) := Strsep(s);
          params := rest;
          if sigKey.None? {
            sigKey := Some(key);
          }
      }
    }

    /** The loop over the feature section; `noValue` says that it would go on through a null pointer. */
    method QueryOptions(hashBlockSize: nat, features: nat, text: string) returns (r: int, noValue: bool)
      modifies this
      ensures r == 0 || r == -EINVAL
      ensures WithOptions(old(State()), hashBlockSize, 0, features, Some(text))
           == if r == 0 then Found(State()) else if noValue then NullCursor else Refused
    {
      hide KindOf, WithArgument, Strsep;
      r, noValue := -EINVAL, false;
      var params := Some(text);
      ghost var whole := WithOptions(State(), hashBlockSize, 0, features, params);
      var i := 0;
      while i < features
        invariant WithOptions(State(), hashBlockSize, i, features, params) == whole
        decreases features - i
      {
        if params.None? {
          return;
        }
        var (arg, rest) := Strsep(params.value);
        params := rest;
        var kind := KindOf(arg);
        if kind.Unknown? {
          return;
        } else if kind.Plain? {
          flags := flags + {kind.flag};
        } else {
          if params.None? {
            noValue := !kind.SigKey?;
            return;
          }
          params := QueryArgument(hashBlockSize, kind, params.value);
          i := i + 1;
        }
        i := i + 1;
      }
      if params.Some? && params.value != "" {
        return;
      }
      r := 0;
    }

    /** Parse a line: the mandatory fields are returned, the options set in the target. */
    method Query(line: string) returns (r: int, noValue: bool, table: Option<Table>)
      requires State() == NO_OPTIONS
      modifies this
      ensures r == 0 || r == -EINVAL
      ensures r == 0 <==> table.Some?
      ensures FoundVerity(line)
           == if r == 0 then Found((table.value, State())) else if noValue then NullCursor else Refused
    {
      hide FoundTable, WithOptions, Strtoull;
      r, noValue, table := -EINVAL, false, None;
      var fields := QueryTable(line);
      if fields.None? {
        return;
      }
      var (t, params) := fields.value;
      if params.Some? {
        var (val, rest) := Strtoull(params.value);
        if !(" " <= rest) {
          return;
        }
        var result;
        result, noValue := QueryOptions(t.hashBlockSize, val % U32, rest[1..]);
        if result != 0 {
          return;
        }
      }
      r, table := 0, Some(t);
    }
  }

  // Reading back the mandatory fields

  lemma NumberIsRead(n: nat, rest: string)
    requires n < U64
    ensures NumberField(Dec(n) + (" " + rest)) == Some((n, rest))
  {
    hide Dec, Strtoull;
    StrtoullDec(n, " " + rest);
    assert (" " + rest)[1..] == rest;
  }

  lemma TokenIsRead(tok: string, rest: string)
    requires Token(tok)
    ensures TokenField(tok + " " + rest) == Some((tok, rest))
  {
    hide Strsep;
    StrsepToken(tok, rest);
  }

  function Rest(tail: string): Option<string> {
    if tail == "" then None else Some(tail[1..])
  }

  lemma LastIsRead(tok: string, tail: string)
    requires Token(tok) && (tail == "" || tail[0] == ' ')
    ensures Strsep(tok + tail) == (tok, Rest(tail))
  {
    hide Strsep;
    if tail == "" {
      assert tok + tail == tok;
      StrsepLast(tok);
    } else {
      assert tok + tail == tok + " " + tail[1..];
      StrsepToken(tok, tail[1..]);
    }
  }

  lemma SaltIsRead(salt: seq<byte>)
    ensures FoundSalt(SaltText(salt)) == Some(salt) && Token(SaltText(salt))
  {
    hide Hex, HexBytes;
    if salt != [] {
      HexRoundTrip(salt);
      HexIsText(salt);
      assert |Hex(salt)| > 1;
    }
  }

  lemma HashesAreRead(name: string, root: seq<byte>, salt: seq<byte>, tail: string)
    requires Token(name) && (tail == "" || tail[0] == ' ')
    ensures Hashes(name + " " + (Hex(root) + " " + (SaltText(salt) + tail))) == Some(((name, root, salt), Rest(tail)))
  {
    hide TokenField, Hex, HexBytes, SaltText, FoundSalt, Strsep;
    HexIsText(root);
    HexRoundTrip(root);
    SaltIsRead(salt);
    TokenIsRead(name, Hex(root) + " " + (SaltText(salt) + tail));
    TokenIsRead(Hex(root), SaltText(salt) + tail);
    LastIsRead(SaltText(salt), tail);
  }

  lemma NumbersInTurn(s: string, a: nat, s1: string, b: nat, s2: string, c: nat, s3: string, d: nat, s4: string)
    requires a < U32 && b < U32
    requires NumberField(s) == Some((a, s1)) && NumberField(s1) == Some((b, s2))
    requires NumberField(s2) == Some((c, s3)) && NumberField(s3) == Some((d, s4))
    ensures Numbers(s) == Some(((a, b, c, d), s4))
  {
    hide NumberField;
  }

  lemma NumbersAreRead(a: nat, b: nat, c: nat, d: nat, rest: string)
    requires a < U32 && b < U32 && c < U64 && d < U64
    ensures Numbers(Dec(a) + (" " + (Dec(b) + (" " + (Dec(c) + (" " + (Dec(d) + (" " + rest))))))))
         == Some(((a, b, c, d), rest))
  {
    hide NumberField, Dec, Numbers;
    var s3 := Dec(d) + (" " + rest);
    var s2 := Dec(c) + (" " + s3);
    var s1 := Dec(b) + (" " + s2);
    NumberIsRead(a, s1);
    NumberIsRead(b, s2);
    NumberIsRead(c, s3);
    NumberIsRead(d, rest);
    NumbersInTurn(Dec(a) + (" " + s1), a, s1, b, s2, c, s3, d, rest);
  }

  lemma TableIsRead(t: Table, features: string)
    requires t.Valid() && (features == "" || features[0] == ' ')
    ensures FoundTable(TableText(t, features)) == Some((t, Rest(features)))
  {
    hide NumberField, TokenField, Numbers, Hashes, Dec, Hex, SaltText;
    var s4 := t.hashName + " " + (Hex(t.rootHash) + " " + (SaltText(t.salt) + features));
    var s3 := Dec(t.dataBlockSize) + (" " + (Dec(t.hashBlockSize) + (" " + (Dec(t.dataSize) + (" " +
      (Dec(t.hashOffset) + (" " + s4)))))));
    var s2 := t.hashDevice + " " + s3;
    var s1 := t.device + " " + s2;
    assert TableText(t, features) == Dec(t.hashType) + (" " + s1);
    NumberIsRead(t.hashType, s1);
    TokenIsRead(t.device, s2);
    TokenIsRead(t.hashDevice, s3);
    NumbersAreRead(t.dataBlockSize, t.hashBlockSize, t.dataSize, t.hashOffset, s4);
    HashesAreRead(t.hashName, t.rootHash, t.salt, features);
  }

  // Reading back the options

  lemma FirstChars()
    ensures Lower('i') == 'i' && Lower('r') == 'r' && Lower('p') == 'p' && Lower('c') == 'c'
    ensures Lower('u') == 'u' && Lower('f') == 'f' && Lower('s') == 's'
  {
  }

  lemma FlagKind(f: Flag)
    ensures KindOf(Name(f)) == Plain(f)
  {
    hide Lower;
    FirstChars();
    SameAsItself(Name(f));
    NotSame("check_at_most_once", "ignore_zero_blocks");
  }

  /** The name of a flag is known in upper and lower case, and nothing else is. */
  lemma FlagKindIs(arg: string, f: Flag)
    ensures KindOf(arg) == Plain(f) <==> SameIgnoringCase(arg, Name(f))
  {
    hide Lower;
    FirstChars();
    if SameIgnoringCase(arg, Name(f)) && arg != "" {
      assert Lower(arg[0]) == Lower(Name(f)[0]) && |arg| == |Name(f)|;
    }
  }

  /** So are the names of the options with a value. */
  lemma KindIs(arg: string)
    ensures KindOf(arg).FecDevice? <==> SameIgnoringCase(arg, "use_fec_from_device")
    ensures KindOf(arg).FecStart? <==> SameIgnoringCase(arg, "fec_start")
    ensures KindOf(arg).FecBlocks? <==> SameIgnoringCase(arg, "fec_blocks")
    ensures KindOf(arg).FecRoots? <==> SameIgnoringCase(arg, "fec_roots")
    ensures KindOf(arg).SigKey? <==> SameIgnoringCase(arg, "root_hash_sig_key_desc")
  {
    hide Lower;
    FirstChars();
    assert Lower("fec_roots"[4]) != Lower("fec_start"[4]);
    if SameIgnoringCase(arg, "use_fec_from_device") {
      assert Lower(arg[0]) == Lower("use_fec_from_device"[0]);
    }
  }

  lemma CorruptionNamesAreTokens()
    ensures Token("ignore_corruption") && Token("restart_on_corruption") && Token("panic_on_corruption")
  {
  }

  lemma BlockNamesAreTokens()
    ensures Token("ignore_zero_blocks") && Token("check_at_most_once")
  {
  }

  lemma FlagNameIsToken(f: Flag)
    ensures Token(Name(f))
  {
    hide Token;
    CorruptionNamesAreTokens();
    BlockNamesAreTokens();
  }

  lemma ArgumentKinds()
    ensures KindOf("use_fec_from_device") == FecDevice && KindOf("fec_start") == FecStart
    ensures KindOf("fec_blocks") == FecBlocks && KindOf("root_hash_sig_key_desc") == SigKey
  {
    hide Lower;
    FirstChars();
    SameAsItself("use_fec_from_device");
    SameAsItself("fec_start");
    SameAsItself("fec_blocks");
    SameAsItself("root_hash_sig_key_desc");
    NotSame("use_fec_from_device", "panic_on_corruption");
  }

  lemma RootsKind()
    ensures KindOf("fec_roots") == FecRoots
  {
    hide Lower;
    FirstChars();
    SameAsItself("fec_roots");
    assert Lower("fec_roots"[4]) != Lower("fec_start"[4]);
  }

  lemma ArgumentNamesAreTokens()
    ensures Token("use_fec_from_device") && Token("fec_start") && Token("fec_blocks") && Token("fec_roots")
    ensures Token("root_hash_sig_key_desc")
  {
  }

  lemma FlagIsRead(o: Options, hashBlockSize: nat, i: nat, n: nat, f: Flag, flags: set<Flag>, tail: string)
    requires tail == "" || tail[0] == ' '
    requires i + Count(f, flags) <= n
    ensures WithOptions(o, hashBlockSize, i, n, Rest(FlagText(f, flags) + tail))
         == WithOptions(o.(flags := o.flags + flags * {f}), hashBlockSize, i + Count(f, flags), n, Rest(tail))
  {
    hide KindOf, Name, Strsep, WithArgument;
    if f in flags {
      FlagKind(f);
      FlagNameIsToken(f);
      LastIsRead(Name(f), tail);
      assert (FlagText(f, flags) + tail)[1..] == Name(f) + tail;
      assert flags * {f} == {f};
    } else {
      assert FlagText(f, flags) + tail == tail;
      assert o.flags + flags * {f} == o.flags;
    }
  }

  lemma FlagTextStart(f: Flag, flags: set<Flag>, tail: string)
    requires tail == "" || tail[0] == ' '
    ensures var t := FlagText(f, flags) + tail; t == "" || t[0] == ' '
  {
  }

  lemma FlagsAreRead(o: Options, hashBlockSize: nat, n: nat, flags: set<Flag>, tail: string)
    requires tail == "" || tail[0] == ' '
    requires OptionCount(flags, false, false) <= n
    ensures WithOptions(o, hashBlockSize, 0, n, Rest(FlagTexts(flags) + tail))
         == WithOptions(o.(flags := o.flags + flags), hashBlockSize, OptionCount(flags, false, false), n, Rest(tail))
  {
    hide WithOptions, FlagText, Rest, Count;
    var t5 := FlagText(CheckAtMostOnce, flags) + tail;
    var t4 := FlagText(IgnoreZeroBlocks, flags) + t5;
    var t3 := FlagText(PanicOnCorruption, flags) + t4;
    var t2 := FlagText(RestartOnCorruption, flags) + t3;
    var t1 := FlagText(IgnoreCorruption, flags) + t2;
    assert FlagTexts(flags) + tail == t1;
    FlagTextStart(CheckAtMostOnce, flags, tail);
    FlagTextStart(IgnoreZeroBlocks, flags, t5);
    FlagTextStart(PanicOnCorruption, flags, t4);
    FlagTextStart(RestartOnCorruption, flags, t3);
    var o1 := o.(flags := o.flags + flags * {IgnoreCorruption});
    var o2 := o1.(flags := o1.flags + flags * {RestartOnCorruption});
    var o3 := o2.(flags := o2.flags + flags * {PanicOnCorruption});
    var o4 := o3.(flags := o3.flags + flags * {IgnoreZeroBlocks});
    var i1 := Count(IgnoreCorruption, flags);
    var i2 := i1 + Count(RestartOnCorruption, flags);
    var i3 := i2 + Count(PanicOnCorruption, flags);
    var i4 := i3 + Count(IgnoreZeroBlocks, flags);
    FlagIsRead(o, hashBlockSize, 0, n, IgnoreCorruption, flags, t2);
    FlagIsRead(o1, hashBlockSize, i1, n, RestartOnCorruption, flags, t3);
    FlagIsRead(o2, hashBlockSize, i2, n, PanicOnCorruption, flags, t4);
    FlagIsRead(o3, hashBlockSize, i3, n, IgnoreZeroBlocks, flags, t5);
    FlagIsRead(o4, hashBlockSize, i4, n, CheckAtMostOnce, flags, tail);
    AllFlags(flags);
    assert o4.flags + flags * {CheckAtMostOnce} == o.flags + flags;
  }

  lemma AllFlags(flags: set<Flag>)
    ensures flags == flags * {IgnoreCorruption} + flags * {RestartOnCorruption} + flags * {PanicOnCorruption}
      + flags * {IgnoreZeroBlocks} + flags * {CheckAtMostOnce}
  {
    forall f | f in flags
      ensures f in {IgnoreCorruption, RestartOnCorruption, PanicOnCorruption, IgnoreZeroBlocks, CheckAtMostOnce}
    {
      match f
      case IgnoreCorruption =>
      case RestartOnCorruption =>
      case PanicOnCorruption =>
      case IgnoreZeroBlocks =>
      case CheckAtMostOnce =>
    }
  }

  lemma ArgumentIsRead(o: Options, hashBlockSize: nat, i: nat, n: nat, name: string, kind: Kind, s: string)
    requires i < n && Token(name) && KindOf(name) == kind && !kind.Plain? && !kind.Unknown?
    ensures WithOptions(o, hashBlockSize, i, n, Some(name + " " + s))
         == WithOptions(WithArgument(o, hashBlockSize, kind, s).0, hashBlockSize, i + 2, n,
                        WithArgument(o, hashBlockSize, kind, s).1)
  {
    hide KindOf, Strsep, WithArgument;
    StrsepToken(name, s);
  }

  lemma NumberThenMore(n: nat, tail: string)
    requires n < U64 && (tail == "" || tail[0] == ' ')
    ensures Strtoull(Dec(n) + tail) == (n, tail)
  {
    StrtoullDec(n, tail);
  }

  /** The options after the FEC device and its three numbers have been read. */
  function WithFec(o: Options, hashBlockSize: nat, fec: Fec): Options {
    o.(fecDevice := Some(fec.device), fecOffset := fec.offset, fecAreaOffset := fec.offset * hashBlockSize % U64,
       fecBlocks := fec.blocks, fecRoots := fec.roots)
  }

  /** The four FEC options take eight of the counted arguments. */
  lemma FecIsRead(o: Options, hashBlockSize: nat, i: nat, n: nat, fec: Fec, tail: string)
    requires fec.Valid() && i + 8 <= n && (tail == "" || tail[0] == ' ')
    ensures WithOptions(o, hashBlockSize, i, n, Rest(FecText(fec) + tail))
         == WithOptions(WithFec(o, hashBlockSize, fec), hashBlockSize, i + 8, n, Some(SkipOne(tail)))
  {
    hide WithOptions, KindOf, Strsep, Strtoull, Dec;
    var s4 := Dec(fec.roots) + tail;
    var s3 := Dec(fec.blocks) + (" " + ("fec_roots" + " " + s4));
    var s2 := Dec(fec.offset) + (" " + ("fec_blocks" + " " + s3));
    var s1 := fec.device + " " + ("fec_start" + " " + s2);
    FecTextParts(fec, tail);
    ArgumentKinds();
    RootsKind();
    ArgumentNamesAreTokens();
    ArgumentIsRead(o, hashBlockSize, i, n, "use_fec_from_device", FecDevice, s1);
    StrsepToken(fec.device, "fec_start" + " " + s2);
    var o1 := o.(fecDevice := Some(fec.device));
    ArgumentIsRead(o1, hashBlockSize, i + 2, n, "fec_start", FecStart, s2);
    NumberThenMore(fec.offset, " " + ("fec_blocks" + " " + s3));
    SkipBlank("fec_blocks" + " " + s3);
    var o2 := o1.(fecOffset := fec.offset, fecAreaOffset := fec.offset * hashBlockSize % U64);
    ArgumentIsRead(o2, hashBlockSize, i + 4, n, "fec_blocks", FecBlocks, s3);
    NumberThenMore(fec.blocks, " " + ("fec_roots" + " " + s4));
    SkipBlank("fec_roots" + " " + s4);
    var o3 := o2.(fecBlocks := fec.blocks);
    ArgumentIsRead(o3, hashBlockSize, i + 6, n, "fec_roots", FecRoots, s4);
    NumberThenMore(fec.roots, tail);
  }

  lemma SkipBlank(s: string)
    ensures SkipOne(" " + s) == s
  {
  }

  lemma FecTextParts(fec: Fec, tail: string)
    ensures var s4 := Dec(fec.roots) + tail;
      var s3 := Dec(fec.blocks) + (" " + ("fec_roots" + " " + s4));
      var s2 := Dec(fec.offset) + (" " + ("fec_blocks" + " " + s3));
      var s1 := fec.device + " " + ("fec_start" + " " + s2);
      Rest(FecText(fec) + tail) == Some("use_fec_from_device" + " " + s1)
  {
    hide Dec, FecText, Rest;
    var s4 := Dec(fec.roots) + tail;
    var s3 := Dec(fec.blocks) + (" fec_roots " + s4);
    var s2 := Dec(fec.offset) + (" fec_blocks " + s3);
    var s1 := fec.device + (" fec_start " + s2);
    FecTextTail(fec, tail);
    RootsBlank(s4);
    BlocksBlank(s3);
    StartBlank(s2);
    assert fec.device + (" " + ("fec_start" + " " + s2)) == fec.device + " " + ("fec_start" + " " + s2);
    DeviceBlank(s1);
  }

  lemma FecTextTail(fec: Fec, tail: string)
    ensures FecText(fec) + tail == " use_fec_from_device " + (fec.device + (" fec_start " + (Dec(fec.offset) +
      (" fec_blocks " + (Dec(fec.blocks) + (" fec_roots " + (Dec(fec.roots) + tail)))))))
  {
    hide Dec;
    var t3 := " fec_roots " + Dec(fec.roots);
    var t2 := " fec_blocks " + (Dec(fec.blocks) + t3);
    var t1 := " fec_start " + (Dec(fec.offset) + t2);
    Regroup(" use_fec_from_device ", fec.device, t1, tail);
    Regroup(" fec_start ", Dec(fec.offset), t2, tail);
    Regroup(" fec_blocks ", Dec(fec.blocks), t3, tail);
    Regroup(" fec_roots ", Dec(fec.roots), "", tail);
    assert Dec(fec.roots) + "" == Dec(fec.roots) && "" + tail == tail;
  }

  lemma Regroup(a: string, b: string, c: string, tail: string)
    ensures (a + (b + c)) + tail == a + (b + (c + tail))
  {
  }

  lemma RootsBlank(s: string)
    ensures " fec_roots " + s == " " + ("fec_roots" + " " + s)
  {
  }

  lemma BlocksBlank(s: string)
    ensures " fec_blocks " + s == " " + ("fec_blocks" + " " + s)
  {
  }

  lemma StartBlank(s: string)
    ensures " fec_start " + s == " " + ("fec_start" + " " + s)
  {
  }

  lemma DeviceBlank(s: string)
    ensures Rest(" use_fec_from_device " + s) == Some("use_fec_from_device" + " " + s)
  {
    var t := "use_fec_from_device" + " " + s;
    assert " use_fec_from_device " + s == " " + t;
    assert (" " + t)[1..] == t;
  }

  lemma SigIsRead(o: Options, hashBlockSize: nat, n: nat, key: string)
    requires Token(key) && o.sigKey.None? && n >= 2
    ensures WithOptions(o, hashBlockSize, n - 2, n, Rest(SigText(key))) == Found(o.(sigKey := Some(key)))
  {
    hide KindOf, Strsep, WithOptions;
    ArgumentKinds();
    ArgumentNamesAreTokens();
    assert SigText(key)[1..] == "root_hash_sig_key_desc" + " " + key;
    ArgumentIsRead(o, hashBlockSize, n - 2, n, "root_hash_sig_key_desc", SigKey, key);
    StrsepLast(key);
    NoneLeft(o.(sigKey := Some(key)), hashBlockSize, n, None);
  }

  lemma NoneLeft(o: Options, hashBlockSize: nat, n: nat, params: Option<string>)
    requires params == None || params == Some("")
    ensures WithOptions(o, hashBlockSize, n, n, params) == Found(o)
  {
  }

  /** The options of a target as they should be found again. */
  function PrintedOptions(v: Verity, flags: set<Flag>): Options {
    var o := NO_OPTIONS.(flags := flags);
    var o' := if v.fec.Some? then WithFec(o, v.table.hashBlockSize, v.fec.value) else o;
    o'.(sigKey := v.sigKey)
  }

  function FecWhole(fec: Option<Fec>): string {
    if fec.Some? then FecText(fec.value) else ""
  }

  function SigWhole(key: Option<string>): string {
    if key.Some? then SigText(key.value) else ""
  }

  /** After the flags: the FEC options and the signature key, in step with the count. */
  lemma TailIsRead(v: Verity, flags: set<Flag>, i: nat, n: nat)
    requires v.Valid() && n == i + (if v.fec.Some? then 8 else 0) + (if v.sigKey.Some? then 2 else 0)
    ensures WithOptions(NO_OPTIONS.(flags := flags), v.table.hashBlockSize, i, n,
                        Rest(FecWhole(v.fec) + SigWhole(v.sigKey)))
         == Found(PrintedOptions(v, flags))
  {
    hide WithOptions, FecText;
    var o := NO_OPTIONS.(flags := flags);
    var h := v.table.hashBlockSize;
    var sig := SigWhole(v.sigKey);
    var o' := if v.fec.Some? then WithFec(o, h, v.fec.value) else o;
    SigStart(v.sigKey);
    if v.fec.Some? {
      FecIsRead(o, h, i, n, v.fec.value, sig);
    } else {
      assert FecWhole(v.fec) + sig == sig;
    }
    if v.sigKey.Some? {
      SigIsRead(o', h, n, v.sigKey.value);
    } else {
      NoneLeft(o', h, n, None);
      NoneLeft(o', h, n, Some(""));
    }
  }

  lemma SigStart(key: Option<string>)
    ensures key.None? ==> SigWhole(key) == ""
    ensures var t := SigWhole(key); key.Some? ==> t != "" && t[0] == ' ' && Rest(t) == Some(SkipOne(t))
  {
  }

  lemma FecStartsBlank(fec: Option<Fec>, key: Option<string>)
    ensures var t := FecWhole(fec) + SigWhole(key);
      (t == "" || t[0] == ' ') && (fec.Some? || key.Some? ==> t != "")
  {
    hide Dec;
    if fec.Some? {
      assert FecText(fec.value)[0] == ' ';
    } else {
      assert FecWhole(fec) + SigWhole(key) == SigWhole(key);
    }
  }

  lemma CountBounds(flags: set<Flag>, fec: bool, sig: bool)
    ensures OptionCount(flags, fec, sig) <= 15
    ensures OptionCount(flags, fec, sig)
         == OptionCount(flags, false, false) + (if fec then 8 else 0) + (if sig then 2 else 0)
  {
  }

  lemma NoFlagsNoText(flags: set<Flag>)
    ensures OptionCount(flags, false, false) == 0 <==> FlagTexts(flags) == ""
    ensures FlagTexts(flags) != "" ==> FlagTexts(flags)[0] == ' '
    ensures OptionCount(flags, false, false) == 0 <==> flags == {}
  {
    hide Name;
    AllFlags(flags);
  }

  /** What is left to read after the option count and the flags, whether or not the rest fits its buffers. */
  lemma FlagsFirst(v: Verity, flags: set<Flag>)
    requires v.Valid()
    ensures FoundOptions(v.table.hashBlockSize, Rest(Features(v, flags)))
         == WithOptions(NO_OPTIONS.(flags := flags), v.table.hashBlockSize, OptionCount(flags, false, false),
                        OptionCount(flags, v.fec.Some?, v.sigKey.Some?), Rest(FecFeature(v.fec) + SigFeature(v.sigKey)))
    ensures Features(v, flags) == "" || Features(v, flags)[0] == ' '
  {
    hide WithOptions, FlagTexts, FecFeature, SigFeature, Dec, Strtoull, OptionCount;
    var n := OptionCount(flags, v.fec.Some?, v.sigKey.Some?);
    CountBounds(flags, v.fec.Some?, v.sigKey.Some?);
    NoFlagsNoText(flags);
    FeaturesStartBlank(v.fec, v.sigKey);
    var tail := FecFeature(v.fec) + SigFeature(v.sigKey);
    if n == 0 {
      assert Features(v, flags) == "";
      NoneLeft(NO_OPTIONS, v.table.hashBlockSize, 0, None);
      assert Rest(tail) == None;
    } else {
      var t := FlagTexts(flags) + tail;
      assert Features(v, flags)[1..] == Dec(n) + t;
      NumberThenMore(n, t);
      FlagsAreRead(NO_OPTIONS, v.table.hashBlockSize, n, flags, tail);
      assert NO_OPTIONS.(flags := {} + flags) == NO_OPTIONS.(flags := flags);
    }
  }

  lemma FeaturesStartBlank(fec: Option<Fec>, key: Option<string>)
    ensures var t := FecFeature(fec) + SigFeature(key);
      (t == "" || t[0] == ' ') && (fec.Some? || key.Some? ==> t != "") && (fec.None? && key.None? ==> t == "")
  {
    hide FecText, SigText;
    if fec.Some? {
      FecStartsBlank(fec, None);
      assert FecFeature(fec) <= FecText(fec.value) && FecFeature(fec) != "";
    } else if key.Some? {
      SigStart(key);
      assert SigFeature(key) <= SigText(key.value) && SigFeature(key) != "";
    }
  }

  lemma FeaturesAreRead(v: Verity, flags: set<Flag>)
    requires v.Valid() && v.Fits()
    ensures FoundOptions(v.table.hashBlockSize, Rest(Features(v, flags))) == Found(PrintedOptions(v, flags))
    ensures Features(v, flags) == "" || Features(v, flags)[0] == ' '
  {
    hide WithOptions, FecText, SigText, PrintedOptions, OptionCount, FoundOptions, Features;
    CountBounds(flags, v.fec.Some?, v.sigKey.Some?);
    FlagsFirst(v, flags);
    TailIsRead(v, flags, OptionCount(flags, false, false), OptionCount(flags, v.fec.Some?, v.sigKey.Some?));
    assert FecFeature(v.fec) == FecWhole(v.fec) && SigFeature(v.sigKey) == SigWhole(v.sigKey);
  }

  /** A target is read back from its line in full, with the flags that are not in conflict, whenever the two
      fixed buffers hold its FEC and signature options. */
  lemma VerityLineRoundTrip(v: Verity, flags: set<Flag>)
    requires v.Valid() && v.Fits()
    ensures FoundVerity(VerityLine(v, flags)) == Found((v.table, PrintedOptions(v, Normalised(flags))))
  {
    hide FoundTable, FoundOptions, TableText, Features, PrintedOptions, Normalised;
    FeaturesAreRead(v, Normalised(flags));
    TableIsRead(v.table, Features(v, Normalised(flags)));
  }

  /** What is found for each option that a target has, and for those that it has not. */
  lemma OptionsFound(v: Verity, flags: set<Flag>)
    ensures var o := PrintedOptions(v, Normalised(flags));
      && (forall f :: f in o.flags <==> (f in flags && (f.RestartOnCorruption? ==> PanicOnCorruption !in flags)
            && (f.IgnoreCorruption? ==> RestartOnCorruption !in flags && PanicOnCorruption !in flags)))
      && o.sigKey == v.sigKey
      && (match v.fec
          case Some(fec) => o.fecDevice == Some(fec.device) && o.fecOffset == fec.offset && o.fecBlocks == fec.blocks
            && o.fecRoots == fec.roots
            && o.fecAreaOffset == fec.offset * v.table.hashBlockSize % 0x1_0000_0000_0000_0000
          case None => o.fecDevice == None && o.fecOffset == o.fecBlocks == o.fecRoots == o.fecAreaOffset == 0)
  {
  }

  /** The counter decides: flags after it are read exactly when it is their number. */
  lemma {:induction false} FlagsCounted(o: Options, hashBlockSize: nat, i: nat, n: nat, flags: seq<Flag>)
    requires i <= n && flags != []
    ensures WithOptions(o, hashBlockSize, i, n, Some(Joined(Names(flags)))).Found? <==> n - i == |flags|
    decreases n - i
  {
    hide KindOf, Strsep, Name;
    var name := Name(flags[0]);
    FlagKind(flags[0]);
    FlagNameIsToken(flags[0]);
    assert Joined(Names(flags)) == name + Spaced(Names(flags)[1..]) && Names(flags)[1..] == Names(flags[1..]);
    NameIsNotEmpty(flags[0]);
    if |flags| == 1 {
      assert Joined(Names(flags)) == name;
      StrsepLast(name);
    } else {
      SpacedIsJoined(Names(flags[1..]));
      assert Joined(Names(flags)) == name + " " + Joined(Names(flags[1..]));
      StrsepToken(name, Joined(Names(flags[1..])));
      if i < n {
        FlagsCounted(o.(flags := o.flags + {flags[0]}), hashBlockSize, i + 1, n, flags[1..]);
      }
    }
  }

  function Names(flags: seq<Flag>): (names: seq<string>)
    ensures |names| == |flags|
  {
    seq(|flags|, i requires 0 <= i < |flags| => Name(flags[i]))
  }

  lemma NameIsNotEmpty(f: Flag)
    ensures Name(f) != ""
  {
  }
}
