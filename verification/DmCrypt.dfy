/** The parameter line of the kernel's dm-crypt target. */
module DmCrypt {
  import opened Bytes
  import opened CStrings
  import opened CipherSpec
  import opened Tokens

  datatype Flag =
    AllowDiscards | SameCpuCrypt | SubmitFromCryptCpus | NoReadWorkqueue | NoWriteWorkqueue | IvLargeSectors

  /** The volume key, or the description of one in the kernel keyring. */
  datatype Key = Raw(bytes: seq<byte>) | Keyring(size: nat, description: string)

  datatype Crypt = Crypt(cipher: string, integrity: Option<string>, tagSize: nat, sectorSize: nat, ivOffset: nat,
                         device: string, offset: nat, key: Key)
  {
    predicate Valid() {
      && tagSize < U32 && sectorSize < U32 && ivOffset < U64 && offset < U64
      && Token(cipher) && Token(device) && (integrity.Some? ==> Token(integrity.value))
      && match key case Raw(bytes) => true case Keyring(size, description) => size < U64 && Token(description)
    }
  }

  function Name(f: Flag): string {
    match f
    case AllowDiscards => "allow_discards"
    case SameCpuCrypt => "same_cpu_crypt"
    case SubmitFromCryptCpus => "submit_from_crypt_cpus"
    case NoReadWorkqueue => "no_read_workqueue"
    case NoWriteWorkqueue => "no_write_workqueue"
    case IvLargeSectors => "iv_large_sectors"
  }

  // The line as it should be printed

  function FlagToken(f: Flag, flags: set<Flag>): seq<string> {
    if f in flags then [Name(f)] else []
  }

  function FlagTokens(flags: set<Flag>): seq<string> {
    FlagToken(AllowDiscards, flags) + (FlagToken(SameCpuCrypt, flags) + (FlagToken(SubmitFromCryptCpus, flags) +
    (FlagToken(NoReadWorkqueue, flags) + (FlagToken(NoWriteWorkqueue, flags) + FlagToken(IvLargeSectors, flags)))))
  }

  function SectorTokens(t: Crypt): seq<string> {
    if t.sectorSize != SECTOR_SIZE then ["sector_size:" + Dec(t.sectorSize)] else []
  }

  function IntegrityToken(i: string, tag: nat): string {
    "integrity:" + Dec(tag) + ":" + (if i == "none" then "none" else "aead")
  }

  function IntegrityTokens(t: Crypt): seq<string> {
    if t.integrity.Some? then [IntegrityToken(t.integrity.value, t.tagSize)] else []
  }

  function OptionTokens(t: Crypt, flags: set<Flag>): seq<string> {
    FlagTokens(flags) + (SectorTokens(t) + IntegrityTokens(t))
  }

  function Features(tokens: seq<string>): string {
    if tokens == [] then "" else " " + Dec(|tokens|) + Spaced(tokens)
  }

  predicate Contains(s: string, sub: string) {
    sub <= s || (s != "" && Contains(s[1..], sub))
  }

  predicate IsCipherNull(c: string) {
    Contains(c, "cipher_null") || c == "null"
  }

  /** strstr, position by position. */
  lemma {:induction false} ContainsIs(s: string, sub: string)
    ensures Contains(s, sub) <==> exists k :: 0 <= k <= |s| && sub <= s[k..]
  {
    assert s[0..] == s;
    if s != "" {
      assert forall k :: 1 <= k <= |s| ==> s[1..][k - 1..] == s[k..];
      ContainsIs(s[1..], sub);
      if k :| 0 <= k <= |s[1..]| && sub <= s[1..][k..] {
        assert s[k + 1..] == s[1..][k..];
      }
    }
  }

  /** A kernel name that stands for no encryption. */
  ghost predicate NullName(c: string) {
    c == "null" || exists k :: 0 <= k <= |c| && "cipher_null" <= c[k..]
  }

  lemma NullIs(c: string)
    ensures IsCipherNull(c) <==> NullName(c)
  {
    hide Contains;
    ContainsIs(c, "cipher_null");
  }

  function KeyText(key: Key, nullCipher: bool): string {
    if nullCipher then "-" else
    match key
    case Raw(bytes) => Hex(bytes)
    case Keyring(size, description) => ":" + Dec(size) + ":logon:" + description
  }

  function Line(c: string, key: string, ivOffset: nat, device: string, offset: nat, features: string): string {
    c + " " + (key + " " + (Dec(ivOffset) + (" " + (device + " " + (Dec(offset) + features)))))
  }

  function CryptLine(t: Crypt, flags: set<Flag>): Option<string> {
    match C2dm(t.cipher, t.integrity, t.tagSize, 256, 256)
    case None => None
    case Some((c, i)) =>
      Some(Line(c, KeyText(t.key, IsCipherNull(c)), t.ivOffset, t.device, t.offset, Features(OptionTokens(t, flags))))
  }

  // Printing it

  /** One less than the number of decimal digits. */
  method IntLog10(x: nat) returns (r: nat)
    ensures r + 1 == |Dec(x)|
  {
    r := 0;
    var y := x / 10;
    while y > 0
      invariant r + (if y > 0 then |Dec(y)| else 0) + 1 == |Dec(x)|
    {
      r := r + 1;
      y := y / 10;
    }
  }

  function FlagText(f: Flag, flags: set<Flag>): string {
    if f in flags then " " + Name(f) else ""
  }

  /** The key as it is printed into a buffer that is sized for it; the buffer never cuts it. */
  method PrintKey(key: Key, nullCipher: bool) returns (hexkey: Option<string>)
    ensures hexkey == Some(KeyText(key, nullCipher))
  {
    if nullCipher {
      return Some("-");
    }
    match key {
      case Keyring(size, description) =>
        var digits := IntLog10(size);
        var bufferSize := |description| + digits + 10;
        var text := ":" + Dec(size) + ":logon:" + description;
        if |text| >= bufferSize {
          return None;
        }
        return Some(Snprintf(bufferSize, text));
      case Raw(bytes) =>
        var text := HexKey(bytes);
        return Some(text);
    }
  }

  method CountOptions(t: Crypt, flags: set<Flag>) returns (numOptions: nat)
    ensures numOptions == |OptionTokens(t, flags)|
  {
    hide *;
    numOptions := 0;
    if AllowDiscards in flags {
      numOptions := numOptions + 1;
    }
    if SameCpuCrypt in flags {
      numOptions := numOptions + 1;
    }
    if SubmitFromCryptCpus in flags {
      numOptions := numOptions + 1;
    }
    if NoReadWorkqueue in flags {
      numOptions := numOptions + 1;
    }
    if NoWriteWorkqueue in flags {
      numOptions := numOptions + 1;
    }
    if IvLargeSectors in flags {
      numOptions := numOptions + 1;
    }
    FlagTokenCount(flags);
    OptionTokenCount(t, flags);
    if t.integrity.Some? {
      numOptions := numOptions + 1;
    }
    if t.sectorSize != SECTOR_SIZE {
      numOptions := numOptions + 1;
    }
  }

  /** The feature section: the number of options and all of them, in buffers that never cut them. */
  method PrintFeatures(t: Crypt, flags: set<Flag>, integrityDm: string) returns (features: string)
    requires t.Valid()
    requires integrityDm == if t.integrity.Some? then IntegrityOption(t.integrity.value, t.tagSize) else ""
    ensures features == Features(OptionTokens(t, flags))
  {
    hide Name, Dec, IntegrityOption, Spaced, FlagTokens, OptionTokens, FlagText;
    var numOptions := CountOptions(t, flags);
    FlagTexts(flags);
    OptionTexts(t, flags);
    FeaturesFit(t, flags);
    var sectorFeature := "";
    if t.sectorSize != SECTOR_SIZE {
      sectorFeature := Snprintf(32, " sector_size:" + Dec(t.sectorSize));
    }
    if numOptions == 0 {
      return "";
    }
    features := Snprintf(511, " " + Dec(numOptions) +
      ((FlagText(AllowDiscards, flags) + (FlagText(SameCpuCrypt, flags) + (FlagText(SubmitFromCryptCpus, flags) +
      (FlagText(NoReadWorkqueue, flags) + (FlagText(NoWriteWorkqueue, flags) + FlagText(IvLargeSectors, flags))))))
      + (sectorFeature + integrityDm)));
  }

  method GetDmCryptParams(t: Crypt, flags: set<Flag>) returns (params: Option<string>)
    requires t.Valid()
    ensures params == CryptLine(t, flags)
  {
    hide Features, OptionTokens, KeyText, C2dm, IsCipherNull, Dec;
    var dm := C2dm(t.cipher, t.integrity, t.tagSize, 256, 256);
    if dm.None? {
      return None;
    }
    var (cipherDm, integrityDm) := dm.value;
    PrintedOption(t);
    var features := PrintFeatures(t, flags, integrityDm);
    var hexkey := PrintKey(t.key, IsCipherNull(cipherDm));
    if hexkey.None? {
      return None;
    }
    var maxSize := |hexkey.value| + |cipherDm| + |t.device| + |features| + 64;
    var line := cipherDm + " " + (hexkey.value + " " + (Dec(t.ivOffset) + (" " + (t.device + " " +
      (Dec(t.offset) + features)))));
    Lengths(t.ivOffset);
    Lengths(t.offset);
    if |line| >= maxSize {
      return None;
    }
    params := Some(Snprintf(maxSize, line));
  }

  lemma FlagTokenCount(flags: set<Flag>)
    ensures |FlagTokens(flags)| == (if AllowDiscards in flags then 1 else 0) + (if SameCpuCrypt in flags then 1 else 0)
      + (if SubmitFromCryptCpus in flags then 1 else 0) + (if NoReadWorkqueue in flags then 1 else 0)
      + (if NoWriteWorkqueue in flags then 1 else 0) + (if IvLargeSectors in flags then 1 else 0)
  {
  }

  lemma OptionTokenCount(t: Crypt, flags: set<Flag>)
    ensures |OptionTokens(t, flags)|
      == |FlagTokens(flags)| + (if t.sectorSize != SECTOR_SIZE then 1 else 0) + (if t.integrity.Some? then 1 else 0)
  {
    hide FlagTokens;
  }

  lemma SpacedFlag(f: Flag, flags: set<Flag>, more: seq<string>)
    ensures Spaced(FlagToken(f, flags) + more) == FlagText(f, flags) + Spaced(more)
    ensures Spaced(FlagToken(f, flags)) == FlagText(f, flags)
  {
    SpacedAppend(FlagToken(f, flags), more);
  }

  lemma FlagTexts(flags: set<Flag>)
    ensures Spaced(FlagTokens(flags))
         == FlagText(AllowDiscards, flags) + (FlagText(SameCpuCrypt, flags) + (FlagText(SubmitFromCryptCpus, flags) +
            (FlagText(NoReadWorkqueue, flags) + (FlagText(NoWriteWorkqueue, flags) + FlagText(IvLargeSectors, flags)))))
  {
    hide Spaced, FlagToken, FlagText;
    var t5 := FlagToken(IvLargeSectors, flags);
    var t4 := FlagToken(NoWriteWorkqueue, flags) + t5;
    var t3 := FlagToken(NoReadWorkqueue, flags) + t4;
    var t2 := FlagToken(SubmitFromCryptCpus, flags) + t3;
    var t1 := FlagToken(SameCpuCrypt, flags) + t2;
    SpacedFlag(AllowDiscards, flags, t1);
    SpacedFlag(SameCpuCrypt, flags, t2);
    SpacedFlag(SubmitFromCryptCpus, flags, t3);
    SpacedFlag(NoReadWorkqueue, flags, t4);
    SpacedFlag(NoWriteWorkqueue, flags, t5);
    SpacedFlag(IvLargeSectors, flags, []);
  }

  lemma IntegrityTokenText(i: string, tag: nat)
    ensures " " + IntegrityToken(i, tag) == IntegrityOption(i, tag)
  {
    hide Dec;
    assert " " + "integrity:" == " integrity:";
  }

  lemma OptionTexts(t: Crypt, flags: set<Flag>)
    ensures Spaced(OptionTokens(t, flags)) == Spaced(FlagTokens(flags))
      + ((if t.sectorSize != SECTOR_SIZE then " sector_size:" + Dec(t.sectorSize) else "")
      + (if t.integrity.Some? then IntegrityOption(t.integrity.value, t.tagSize) else ""))
  {
    hide Dec, FlagTokens, IntegrityOption, IntegrityToken;
    SpacedAppend(FlagTokens(flags), SectorTokens(t) + IntegrityTokens(t));
    SpacedAppend(SectorTokens(t), IntegrityTokens(t));
    assert " " + ("sector_size:" + Dec(t.sectorSize)) == " sector_size:" + Dec(t.sectorSize);
    if t.integrity.Some? {
      IntegrityTokenText(t.integrity.value, t.tagSize);
    }
  }

  lemma FlagTextLength(f: Flag, flags: set<Flag>)
    ensures |FlagText(f, flags)| <= 23
  {
  }

  lemma FlagsFit(flags: set<Flag>)
    ensures |Spaced(FlagTokens(flags))| <= 138 && |FlagTokens(flags)| <= 6
  {
    hide FlagTokens, FlagText;
    FlagTokenCount(flags);
    FlagTexts(flags);
    FlagTextLength(AllowDiscards, flags);
    FlagTextLength(SameCpuCrypt, flags);
    FlagTextLength(SubmitFromCryptCpus, flags);
    FlagTextLength(NoReadWorkqueue, flags);
    FlagTextLength(NoWriteWorkqueue, flags);
    FlagTextLength(IvLargeSectors, flags);
  }

  lemma FeaturesFit(t: Crypt, flags: set<Flag>)
    requires t.Valid()
    ensures |OptionTokens(t, flags)| <= 8 && |Features(OptionTokens(t, flags))| < 511
    ensures |" sector_size:" + Dec(t.sectorSize)| < 32
  {
    hide Dec, FlagTokens, IntegrityOption, OptionTokens, Spaced;
    FlagsFit(flags);
    OptionTokenCount(t, flags);
    OptionTexts(t, flags);
    Lengths(t.sectorSize);
    DecLength(|OptionTokens(t, flags)|, 1, 10);
    if t.integrity.Some? {
      OptionIsShort(t.integrity.value, t.tagSize);
    }
  }

  /** The integrity text that the cipher translation leaves is the option, uncut. */
  lemma PrintedOption(t: Crypt)
    requires t.Valid() && C2dm(t.cipher, t.integrity, t.tagSize, 256, 256).Some?
    ensures C2dm(t.cipher, t.integrity, t.tagSize, 256, 256).value.1
         == if t.integrity.Some? then IntegrityOption(t.integrity.value, t.tagSize) else ""
  {
    hide Split2, Wrapped, IntegrityOption;
    if t.integrity.Some? {
      OptionIsShort(t.integrity.value, t.tagSize);
    }
  }

  // The line in full

  lemma FlagTextIs(flags: set<Flag>)
    ensures FlagText(AllowDiscards, flags) == if AllowDiscards in flags then " " + "allow_discards" else ""
    ensures FlagText(SameCpuCrypt, flags) == if SameCpuCrypt in flags then " " + "same_cpu_crypt" else ""
    ensures FlagText(SubmitFromCryptCpus, flags)
         == if SubmitFromCryptCpus in flags then " " + "submit_from_crypt_cpus" else ""
    ensures FlagText(NoReadWorkqueue, flags) == if NoReadWorkqueue in flags then " " + "no_read_workqueue" else ""
    ensures FlagText(NoWriteWorkqueue, flags) == if NoWriteWorkqueue in flags then " " + "no_write_workqueue" else ""
    ensures FlagText(IvLargeSectors, flags) == if IvLargeSectors in flags then " " + "iv_large_sectors" else ""
  {
  }

  /** How many options a target has. */
  function Count(t: Crypt, flags: set<Flag>): nat {
    (if AllowDiscards in flags then 1 else 0) + (if SameCpuCrypt in flags then 1 else 0)
    + (if SubmitFromCryptCpus in flags then 1 else 0) + (if NoReadWorkqueue in flags then 1 else 0)
    + (if NoWriteWorkqueue in flags then 1 else 0) + (if IvLargeSectors in flags then 1 else 0)
    + (if t.sectorSize != 512 then 1 else 0) + (if t.integrity.Some? then 1 else 0)
  }

  /** The feature section, word by word. */
  lemma FeaturesText(t: Crypt, flags: set<Flag>)
    ensures |OptionTokens(t, flags)| == Count(t, flags)
    ensures Features(OptionTokens(t, flags)) == if Count(t, flags) == 0 then "" else
      " " + Dec(Count(t, flags))
      + (((if AllowDiscards in flags then " " + "allow_discards" else "")
          + ((if SameCpuCrypt in flags then " " + "same_cpu_crypt" else "")
          + ((if SubmitFromCryptCpus in flags then " " + "submit_from_crypt_cpus" else "")
          + ((if NoReadWorkqueue in flags then " " + "no_read_workqueue" else "")
          + ((if NoWriteWorkqueue in flags then " " + "no_write_workqueue" else "")
          + (if IvLargeSectors in flags then " " + "iv_large_sectors" else ""))))))
         + ((if t.sectorSize != 512 then " sector_size:" + Dec(t.sectorSize) else "")
          + (if t.integrity.Some? then
               " integrity:" + Dec(t.tagSize) + ":" + (if t.integrity.value == "none" then "none" else "aead")
             else "")))
  {
    hide Dec, FlagTokens, FlagText, OptionTokens, Spaced, SectorTokens, IntegrityTokens;
    FlagTextIs(flags);
    FlagTexts(flags);
    OptionTexts(t, flags);
    FlagTokenCount(flags);
    OptionTokenCount(t, flags);
  }

  /** The line of a target whose kernel name is neither "null" nor has "cipher_null" at any position: the key is
      printed in hexadecimal or by its description. */
  lemma RealCipherLine(t: Crypt, flags: set<Flag>, c: string, option: string)
    requires C2dm(t.cipher, t.integrity, t.tagSize, 256, 256) == Some((c, option))
    requires c != "null" && forall k :: 0 <= k <= |c| ==> !("cipher_null" <= c[k..])
    ensures var key := match t.key case Raw(bytes) => Hex(bytes)
                                   case Keyring(size, description) => ":" + Dec(size) + ":logon:" + description;
      CryptLine(t, flags) == Some(c + " " + (key + " " + (Dec(t.ivOffset) + (" " + (t.device + " " + (Dec(t.offset)
                                  + Features(OptionTokens(t, flags))))))))
  {
    hide C2dm, Features, OptionTokens, Dec, Hex, IsCipherNull;
    NullIs(c);
  }

  /** The line of any other target: the key is a dash. */
  lemma NullCipherLine(t: Crypt, flags: set<Flag>, c: string, option: string)
    requires C2dm(t.cipher, t.integrity, t.tagSize, 256, 256) == Some((c, option))
    requires c == "null" || exists k :: 0 <= k <= |c| && "cipher_null" <= c[k..]
    ensures CryptLine(t, flags) == Some(c + " " + ("-" + " " + (Dec(t.ivOffset) + (" " + (t.device + " "
                                        + (Dec(t.offset) + Features(OptionTokens(t, flags))))))))
  {
    hide C2dm, Features, OptionTokens, Dec, IsCipherNull;
    NullIs(c);
  }
}
