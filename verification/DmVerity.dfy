/** The parameter line of the kernel's dm-verity target. */
module DmVerity {
  import opened Bytes
  import opened CStrings
  import opened Tokens

  datatype Flag = IgnoreCorruption | RestartOnCorruption | PanicOnCorruption | IgnoreZeroBlocks | CheckAtMostOnce

  /** Forward error correction: its device, and where and how much. */
  datatype Fec = Fec(device: string, offset: nat, blocks: nat, roots: nat)
  {
    predicate Valid() {
      Token(device) && offset < U64 && blocks < U64 && roots < U32
    }
  }

  /** The mandatory fields. */
  datatype Table = Table(hashType: nat, device: string, hashDevice: string, dataBlockSize: nat, hashBlockSize: nat,
                         dataSize: nat, hashOffset: nat, hashName: string, rootHash: seq<byte>, salt: seq<byte>)
  {
    predicate Valid() {
      && hashType < U32 && dataBlockSize < U32 && hashBlockSize < U32 && dataSize < U64 && hashOffset < U64
      && Token(device) && Token(hashDevice) && Token(hashName)
    }
  }

  datatype Verity = Verity(table: Table, fec: Option<Fec>, sigKey: Option<string>)
  {
    predicate Valid() {
      table.Valid() && (fec.Some? ==> fec.value.Valid()) && (sigKey.Some? ==> Token(sigKey.value))
    }

    /** Whether the two fixed buffers hold the texts that are printed into them. */
    predicate Fits() {
      && (fec.Some? ==> |FecText(fec.value)| <= 254)
      && (sigKey.Some? ==> |SigText(sigKey.value)| <= 542)
    }
  }

  function Name(f: Flag): string {
    match f
    case IgnoreCorruption => "ignore_corruption"
    case RestartOnCorruption => "restart_on_corruption"
    case PanicOnCorruption => "panic_on_corruption"
    case IgnoreZeroBlocks => "ignore_zero_blocks"
    case CheckAtMostOnce => "check_at_most_once"
  }

  /** Panic takes precedence over restart, and either of them over ignore. */
  function Normalised(flags: set<Flag>): (r: set<Flag>)
    ensures r <= flags && flags - r <= {IgnoreCorruption, RestartOnCorruption}
    ensures |r * {IgnoreCorruption, RestartOnCorruption, PanicOnCorruption}| <= 1
    ensures PanicOnCorruption in flags ==> PanicOnCorruption in r
    ensures RestartOnCorruption in flags && PanicOnCorruption !in flags ==> RestartOnCorruption in r
    ensures flags * {RestartOnCorruption, PanicOnCorruption} == {} ==> r == flags
  {
    var f := if RestartOnCorruption in flags && PanicOnCorruption in flags then flags - {RestartOnCorruption} else flags;
    var r := if IgnoreCorruption in f && (RestartOnCorruption in f || PanicOnCorruption in f)
             then f - {IgnoreCorruption} else f;
    OneOfThree(r);
    r
  }

  lemma OneOfThree(r: set<Flag>)
    requires !(IgnoreCorruption in r && RestartOnCorruption in r)
    requires !(IgnoreCorruption in r && PanicOnCorruption in r)
    requires !(RestartOnCorruption in r && PanicOnCorruption in r)
    ensures |r * {IgnoreCorruption, RestartOnCorruption, PanicOnCorruption}| <= 1
  {
    var s := r * {IgnoreCorruption, RestartOnCorruption, PanicOnCorruption};
    if IgnoreCorruption in r {
      assert s == {IgnoreCorruption};
    } else if RestartOnCorruption in r {
      assert s == {RestartOnCorruption};
    } else if PanicOnCorruption in r {
      assert s == {PanicOnCorruption};
    } else {
      assert s == {};
    }
  }

  function FlagText(f: Flag, flags: set<Flag>): string {
    if f in flags then " " + Name(f) else ""
  }

  function FlagTexts(flags: set<Flag>): string {
    FlagText(IgnoreCorruption, flags) + (FlagText(RestartOnCorruption, flags) + (FlagText(PanicOnCorruption, flags) +
    (FlagText(IgnoreZeroBlocks, flags) + FlagText(CheckAtMostOnce, flags))))
  }

  function FecText(fec: Fec): string {
    " use_fec_from_device " + (fec.device + (" fec_start " + (Dec(fec.offset) + (" fec_blocks " + (Dec(fec.blocks) +
    (" fec_roots " + Dec(fec.roots)))))))
  }

  function SigText(key: string): string {
    " root_hash_sig_key_desc " + key
  }

  function FecFeature(fec: Option<Fec>): string {
    if fec.Some? then Snprintf(255, FecText(fec.value)) else ""
  }

  function SigFeature(key: Option<string>): string {
    if key.Some? then Snprintf(543, SigText(key.value)) else ""
  }

  function Count(f: Flag, flags: set<Flag>): nat {
    if f in flags then 1 else 0
  }

  /** The option tokens of a target: one for each flag, two for each of the four FEC values and for the
      signature key. */
  function OptionCount(flags: set<Flag>, fec: bool, sig: bool): nat {
    Count(IgnoreCorruption, flags) + Count(RestartOnCorruption, flags) + Count(PanicOnCorruption, flags)
    + Count(IgnoreZeroBlocks, flags) + Count(CheckAtMostOnce, flags)
    + (if fec then 8 else 0) + (if sig then 2 else 0)
  }

  function Features(v: Verity, flags: set<Flag>): string {
    var n := OptionCount(flags, v.fec.Some?, v.sigKey.Some?);
    if n == 0 then "" else " " + (Dec(n) + (FlagTexts(flags) + (FecFeature(v.fec) + SigFeature(v.sigKey))))
  }

  function SaltText(salt: seq<byte>): string {
    if salt == [] then "-" else Hex(salt)
  }

  function TableText(t: Table, features: string): string {
    Dec(t.hashType) + (" " + (t.device + " " + (t.hashDevice + " " + (Dec(t.dataBlockSize) + (" " +
    (Dec(t.hashBlockSize) + (" " + (Dec(t.dataSize) + (" " + (Dec(t.hashOffset) + (" " + (t.hashName + " " +
    (Hex(t.rootHash) + " " + (SaltText(t.salt) + features))))))))))))))
  }

  function VerityLine(v: Verity, flags: set<Flag>): string {
    TableText(v.table, Features(v, Normalised(flags)))
  }

  method PrintFec(fec: Fec) returns (fecFeatures: string)
    ensures fecFeatures == Snprintf(255, FecText(fec))
  {
    fecFeatures := Snprintf(255, " use_fec_from_device " + (fec.device + (" fec_start " + (Dec(fec.offset) +
      (" fec_blocks " + (Dec(fec.blocks) + (" fec_roots " + Dec(fec.roots))))))));
  }

  /** Flags that contradict a stronger one are dropped. */
  method DropConflicts(flags: set<Flag>) returns (f: set<Flag>)
    ensures f == Normalised(flags)
  {
    f := flags;
    if RestartOnCorruption in f && PanicOnCorruption in f {
      f := f - {RestartOnCorruption};
    }
    if IgnoreCorruption in f && (RestartOnCorruption in f || PanicOnCorruption in f) {
      f := f - {IgnoreCorruption};
    }
  }

  /** The options are counted and printed in three parts. */
  method PrintFeatures(v: Verity, flags: set<Flag>) returns (features: string, fecFeatures: string, verifyArgs: string)
    ensures features + (fecFeatures + verifyArgs) == Features(v, Normalised(flags))
    ensures fecFeatures == FecFeature(v.fec) && verifyArgs == SigFeature(v.sigKey)
  {
    hide Dec, FlagTexts, FecText, SigText, Count, Normalised, Snprintf;
    var f := DropConflicts(flags);
    var numOptions := CountFlags(f);
    fecFeatures, verifyArgs := "", "";
    if v.fec.Some? {
      numOptions := numOptions + 8;
      fecFeatures := PrintFec(v.fec.value);
    }
    if v.sigKey.Some? {
      numOptions := numOptions + 2;
      verifyArgs := Snprintf(543, SigText(v.sigKey.value));
    }
    if numOptions == 0 {
      features := "";
    } else {
      FeaturesFit(f, numOptions);
      features := Snprintf(255, " " + (Dec(numOptions) + FlagTexts(f)));
    }
  }

  method CountFlags(flags: set<Flag>) returns (numOptions: nat)
    ensures numOptions == OptionCount(flags, false, false) && numOptions <= 5
  {
    numOptions := 0;
    if IgnoreCorruption in flags {
      numOptions := numOptions + 1;
    }
    if RestartOnCorruption in flags {
      numOptions := numOptions + 1;
    }
    if PanicOnCorruption in flags {
      numOptions := numOptions + 1;
    }
    if IgnoreZeroBlocks in flags {
      numOptions := numOptions + 1;
    }
    if CheckAtMostOnce in flags {
      numOptions := numOptions + 1;
    }
  }

  method GetDmVerityParams(v: Verity, flags: set<Flag>) returns (params: Option<string>)
    requires v.Valid()
    ensures params == Some(VerityLine(v, flags))
  {
    hide Features, Dec, Hex, Token;
    var t := v.table;
    var features, fecFeatures, verifyArgs := PrintFeatures(v, flags);
    var hexroot := HexKey(t.rootHash);
    var hexsalt := "-";
    if t.salt != [] {
      hexsalt := HexKey(t.salt);
    }
    var maxSize := |hexroot| + |hexsalt| + |t.device| + |t.hashDevice| + |t.hashName| + |features| + |fecFeatures|
      + 128 + |verifyArgs|;
    var line := Dec(t.hashType) + (" " + (t.device + " " + (t.hashDevice + " " + (Dec(t.dataBlockSize) + (" " +
      (Dec(t.hashBlockSize) + (" " + (Dec(t.dataSize) + (" " + (Dec(t.hashOffset) + (" " + (t.hashName + " " +
      (hexroot + " " + (hexsalt + (features + (fecFeatures + verifyArgs))))))))))))))));
    Lengths(t.hashType);
    Lengths(t.dataBlockSize);
    Lengths(t.hashBlockSize);
    Lengths(t.dataSize);
    Lengths(t.hashOffset);
    if |line| >= maxSize {
      return None;
    }
    params := Some(Snprintf(maxSize, line));
  }

  lemma FlagTextLength(f: Flag, flags: set<Flag>)
    ensures |FlagText(f, flags)| <= 22
  {
  }

  lemma FeaturesFit(flags: set<Flag>, n: nat)
    requires n < U32
    ensures |" " + (Dec(n) + FlagTexts(flags))| < 255
  {
    hide Dec, FlagText;
    Lengths(n);
    FlagTextLength(IgnoreCorruption, flags);
    FlagTextLength(RestartOnCorruption, flags);
    FlagTextLength(PanicOnCorruption, flags);
    FlagTextLength(IgnoreZeroBlocks, flags);
    FlagTextLength(CheckAtMostOnce, flags);
  }

  // The line in full

  /** The flags as they are printed: restart only without panic, ignore only without either. */
  lemma FlagTextsAre(flags: set<Flag>)
    ensures FlagTexts(Normalised(flags))
         == (if IgnoreCorruption in flags && RestartOnCorruption !in flags && PanicOnCorruption !in flags
             then " " + "ignore_corruption" else "")
            + ((if RestartOnCorruption in flags && PanicOnCorruption !in flags
                then " " + "restart_on_corruption" else "")
            + ((if PanicOnCorruption in flags then " " + "panic_on_corruption" else "")
            + ((if IgnoreZeroBlocks in flags then " " + "ignore_zero_blocks" else "")
            + (if CheckAtMostOnce in flags then " " + "check_at_most_once" else ""))))
  {
  }

  /** How many option words a target has. */
  function Words(v: Verity, flags: set<Flag>): nat {
    (if IgnoreCorruption in flags && RestartOnCorruption !in flags && PanicOnCorruption !in flags then 1 else 0)
    + (if RestartOnCorruption in flags && PanicOnCorruption !in flags then 1 else 0)
    + (if PanicOnCorruption in flags then 1 else 0)
    + (if IgnoreZeroBlocks in flags then 1 else 0) + (if CheckAtMostOnce in flags then 1 else 0)
    + (if v.fec.Some? then 8 else 0) + (if v.sigKey.Some? then 2 else 0)
  }

  lemma WordsAreCounted(v: Verity, flags: set<Flag>)
    ensures OptionCount(Normalised(flags), v.fec.Some?, v.sigKey.Some?) == Words(v, flags)
  {
  }

  /** The four FEC options and the signature option, as far as their buffers hold them. */
  lemma OptionTextsAre(v: Verity)
    ensures v.fec.Some? ==> var fec := v.fec.value;
      FecFeature(v.fec) == Snprintf(255, " use_fec_from_device " + (fec.device + (" fec_start " + (Dec(fec.offset)
        + (" fec_blocks " + (Dec(fec.blocks) + (" fec_roots " + Dec(fec.roots))))))))
    ensures v.sigKey.Some? ==>
      SigFeature(v.sigKey) == Snprintf(543, " root_hash_sig_key_desc " + v.sigKey.value)
    ensures v.fec.None? ==> FecFeature(v.fec) == ""
    ensures v.sigKey.None? ==> SigFeature(v.sigKey) == ""
  {
    hide Dec, Snprintf;
  }

  /** The line, field by field; its option texts are those of the lemmas before. */
  lemma VerityLineText(v: Verity, flags: set<Flag>)
    ensures VerityLine(v, flags)
         == var t := v.table;
            Dec(t.hashType) + (" " + (t.device + " " + (t.hashDevice + " " + (Dec(t.dataBlockSize) + (" " +
            (Dec(t.hashBlockSize) + (" " + (Dec(t.dataSize) + (" " + (Dec(t.hashOffset) + (" " + (t.hashName + " " +
            (Hex(t.rootHash) + " " + ((if t.salt == [] then "-" else Hex(t.salt))
            + (if Words(v, flags) == 0 then ""
               else " " + (Dec(Words(v, flags)) + (FlagTexts(Normalised(flags))
                           + (FecFeature(v.fec) + SigFeature(v.sigKey)))))))))))))))))))
  {
    hide Dec, Hex, FlagTexts, FecFeature, SigFeature, OptionCount, Normalised, Words;
    WordsAreCounted(v, flags);
  }
}
