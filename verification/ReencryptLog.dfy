/** The text log from which an interrupted re-encryption is resumed. */
module ReencryptLog {
  import opened Bytes
  import opened CStrings

  /** The part of the context that the log carries, and the UUID that it is checked against. */
  datatype Progress = Progress(uuid: Option<string>, direction: int, mode: int, offset: nat, shift: nat)
  {
    predicate Valid() {
      && -0x8000_0000 <= direction < 0x8000_0000
      && 0 <= mode <= 2
      && offset < U64 && shift < U64
      && (uuid.Some? ==> '\0' !in uuid.value)
    }
  }

  function Line(key: string, value: string): string {
    key + " = " + value + "\n"
  }

  function NumberLines(p: Progress): string {
    Line("direction", DecInt(p.direction)) + (Line("mode", DecInt(p.mode)) +
    (Line("offset", Dec(p.offset)) + (Line("shift", Dec(p.shift)) + "# EOF\n")))
  }

  /** The first line, in three pieces because the verifier does not look into a literal as long as the whole. */
  function Banner(): string {
    "# LUKS reencry" + ("ption log, DO N" + "OT EDIT OR DELETE.")
  }

  /** The whole text of the log, before it is cut to a sector. */
  function LogText(p: Progress): string
    requires p.uuid.Some?
  {
    Banner() + "\n" + (Line("version", DecInt(2)) + (Line("UUID", p.uuid.value) + NumberLines(p)))
  }

  /** A sector holding a text and padded with NULs. */
  function Sector(text: string): (r: seq<char>)
    requires |text| < SECTOR_SIZE
    ensures |r| == SECTOR_SIZE
  {
    text + seq(SECTOR_SIZE - |text|, _ => '\0')
  }

  /** The C string at the start of a buffer. */
  function CString(buffer: seq<char>): string {
    buffer[..Run(buffer, Not('\0'))]
  }

  /** A scanf format that starts with "<key> = ": what is left for its conversion. */
  function Field(key: string, line: string): Option<string> {
    if key <= line then
      var t := SkipBlanks(line[|key|..]);
      if t != "" && t[0] == '=' then Some(SkipBlanks(t[1..])) else None
    else
      None
  }

  function NumberField(key: string, line: string): Option<nat> {
    match Field(key, line)
    case None => None
    case Some(t) => if ScanNumber(t).Some? then Some(ScanNumber(t).value.0) else None
  }

  function IntField(key: string, line: string): Option<int> {
    match Field(key, line)
    case None => None
    case Some(t) => if ScanInt(t).Some? then Some(ScanInt(t).value.0) else None
  }

  function UuidField(line: string): Option<string> {
    match Field("UUID", line)
    case None => None
    case Some(t) => if Word(t, 40).Some? then Some(Word(t, 40).value.0) else None
  }

  /** What one line of the log does to the context, and whether it is accepted. */
  function ParsedLine(p: Progress, line: string): (Progress, bool) {
    if "#" <= line then (p, true)
    else if IntField("version", line).Some? then (p, 1 <= IntField("version", line).value <= 2)
    else if UuidField(line).Some? then (p, p.uuid == UuidField(line))
    else if IntField("direction", line).Some? then (p.(direction := IntField("direction", line).value), true)
    else if NumberField("offset", line).Some? then (p.(offset := NumberField("offset", line).value), true)
    else if NumberField("shift", line).Some? then (p.(shift := NumberField("shift", line).value), true)
    else if IntField("mode", line).Some? then
      (p.(mode := IntField("mode", line).value), 0 <= IntField("mode", line).value <= 2)
    else (p, false)
  }

  /** What a log text does to the context: line by line up to the first one that is refused; a last line
      without a line feed is ignored. */
  function Parsed(p: Progress, text: string): (Progress, bool)
    decreases |text|
  {
    var n := Run(text, Not('\n'));
    if n == |text| then (p, true) else
    var (q, ok) := ParsedLine(p, text[..n]);
    if ok then Parsed(q, text[n + 1..]) else (q, false)
  }

  /** A file after something was written at its beginning. */
  function Overwritten(file: seq<char>, text: seq<char>): seq<char> {
    text + file[Min(|text|, |file|)..]
  }

  /** A write that did not get through has written some beginning of the sector, or nothing. */
  ghost predicate PartlyLogged(file: seq<char>, before: seq<char>, sector: seq<char>) {
    exists k :: 0 <= k <= |sector| && file == Overwritten(before, sector[..k])
  }

  /** What is in the buffer after the file was read into it and its end was marked. */
  function ReadInto(buffer: seq<char>, file: seq<char>): seq<char>
    requires |buffer| == SECTOR_SIZE
  {
    var n := Min(|file|, SECTOR_SIZE);
    (file[..n] + buffer[n..])[..SECTOR_SIZE - 1] + "\0"
  }

  class LogContext {
    var deviceUuid: Option<string>
    var direction: int
    var mode: int
    var deviceOffset: nat
    var deviceShift: nat
    const logBuf: array<char>
    var logFile: seq<char>
    var faults: nat           // how many more system calls may fail

    ghost predicate Valid()
      reads this
    {
      logBuf.Length == SECTOR_SIZE
    }

    /** A context that knows nothing of a log yet. */
    constructor (uuid: Option<string>, file: seq<char>, faults: nat)
      ensures Valid() && fresh(logBuf) && logFile == file && deviceUuid == uuid && this.faults == faults
    {
      this.faults := faults;
      deviceUuid, direction, mode, deviceOffset, deviceShift := uuid, 0, 0, 0, 0;
      logBuf, logFile := new char[SECTOR_SIZE](i => '\0'), file;
    }

    ghost function State(): Progress
      reads this
    {
      Progress(deviceUuid, direction, mode, deviceOffset, deviceShift)
    }

    /** Print the log into the buffer and write the buffer over the log file. A write that fails has written
        some of it, or nothing. */
    method WriteLog() returns (r: int)
      requires Valid() && deviceUuid.Some?
      modifies this`logFile, this`faults, logBuf
      ensures Valid()
      ensures r == 0 || r == -EIO
      ensures faults == if r == 0 then old(faults) else old(faults) - 1
      ensures r == 0 ==> logFile == Overwritten(old(logFile), Sector(Snprintf(SECTOR_SIZE, LogText(State()))))
      ensures r != 0 ==> PartlyLogged(logFile, old(logFile), Sector(Snprintf(SECTOR_SIZE, LogText(State()))))
    {
      var text := Snprintf(SECTOR_SIZE,
        Banner() + "\n" + (Line("version", DecInt(2)) + (Line("UUID", deviceUuid.value) +
        (Line("direction", DecInt(direction)) + (Line("mode", DecInt(mode)) +
        (Line("offset", Dec(deviceOffset)) + (Line("shift", Dec(deviceShift)) + "# EOF\n")))))));
      assert text == Snprintf(SECTOR_SIZE, LogText(State()));
      forall i | 0 <= i < SECTOR_SIZE {
        logBuf[i] := if i < |text| then text[i] else '\0';
      }
      assert logBuf[..] == Sector(text);
      var written: int := *;
      if 0 <= written < SECTOR_SIZE && faults > 0 {
        faults := faults - 1;
        assert logBuf[..written] == logBuf[..][..written];
        logFile := Overwritten(logFile, logBuf[..written]);
        return -EIO;
      }
      logFile := Overwritten(logFile, logBuf[..]);
      r := 0;
    }

    method ParseLineLog(line: string) returns (r: int)
      modifies this`direction, this`mode, this`deviceOffset, this`deviceShift
      ensures (State(), r == 0) == ParsedLine(old(State()), line)
      ensures r == 0 || r == -EINVAL
    {
      hide IntField, NumberField, UuidField;
      if "#" <= line {
        return 0;
      }
      var version := IntField("version", line);
      if version.Some? {
        return if version.value < 1 || version.value > 2 then -EINVAL else 0;
      }
      var uuid := UuidField(line);
      if uuid.Some? {
        return if deviceUuid.None? || deviceUuid.value != uuid.value then -EINVAL else 0;
      }
      var d := IntField("direction", line);
      if d.Some? {
        direction := d.value;
        return 0;
      }
      var n := NumberField("offset", line);
      if n.Some? {
        deviceOffset := n.value;
        return 0;
      }
      n := NumberField("shift", line);
      if n.Some? {
        deviceShift := n.value;
        return 0;
      }
      var m := IntField("mode", line);
      if m.None? {
        return -EINVAL;
      }
      mode := m.value;
      r := if mode != 0 && mode != 1 && mode != 2 then -EINVAL else 0;
    }

    /** Read the log file, as far as it goes, and take over what its lines say. */
    method ParseLog() returns (r: int)
      requires Valid()
      modifies this`direction, this`mode, this`deviceOffset, this`deviceShift, this`faults, logBuf
      ensures Valid()
      ensures r == 0 || r == -EIO || r == -EINVAL
      ensures faults == if r == -EIO then old(faults) - 1 else old(faults)
      ensures r == -EIO ==> State() == old(State())
      ensures r != -EIO ==>
                (State(), r == 0) == Parsed(old(State()), CString(ReadInto(old(logBuf[..]), logFile)))
    {
      hide Parsed, ParsedLine, CString;
      var fault: bool := *;
      if fault && faults > 0 {
        faults := faults - 1;
        return -EIO;
      }
      var size := Min(|logFile|, SECTOR_SIZE);
      forall i | 0 <= i < size {
        logBuf[i] := logFile[i];
      }
      logBuf[SECTOR_SIZE - 1] := '\0';
      assert logBuf[0..] == ReadInto(old(logBuf[..]), logFile);
      ghost var result := Parsed(State(), CString(logBuf[0..]));
      var start := 0;
      while true
        invariant 0 <= start < SECTOR_SIZE && Valid()
        invariant logBuf[SECTOR_SIZE - 1] == '\0' && logFile == old(logFile)
        invariant Parsed(State(), CString(logBuf[start..])) == result
        invariant faults == old(faults)
        decreases SECTOR_SIZE - start
      {
        ghost var rest := logBuf[start..];
        var text := CString(logBuf[start..]);
        var n := Run(text, Not('\n'));
        ParsedStep(State(), text);
        if n == |text| {
          break;
        }
        NextLine(rest, n);
        var end := start + n;
        logBuf[end] := '\0';
        assert logBuf[start..] == rest[n := '\0'];
        var line := ParseLineLog(CString(logBuf[start..]));
        if line != 0 {
          return -EINVAL;
        }
        start := end + 1;
        assert logBuf[start..] == rest[n + 1..];
      }
      r := 0;
    }
  }

  /** What cutting a buffer at its first line feed leaves: the line before it and the text after it. */
  lemma NextLine(buffer: seq<char>, n: nat)
    requires buffer != [] && buffer[|buffer| - 1] == '\0'
    requires n == Run(CString(buffer), Not('\n')) && n < |CString(buffer)|
    ensures n + 1 < |buffer|
    ensures CString(buffer[n := '\0']) == CString(buffer)[..n]
    ensures CString(buffer[n + 1..]) == CString(buffer)[n + 1..]
  {
    TextEnds(buffer);
    TextSplits(buffer, n);
    LineCut(buffer[n := '\0'], CString(buffer)[..n]);
  }

  lemma ParsedStep(p: Progress, text: string)
    ensures var n := Run(text, Not('\n'));
      Parsed(p, text) == if n == |text| then (p, true) else
        var (q, ok) := ParsedLine(p, text[..n]);
        if ok then Parsed(q, text[n + 1..]) else (q, false)
  {
  }

  lemma TextEnds(buffer: seq<char>)
    requires buffer != [] && buffer[|buffer| - 1] == '\0'
    ensures |CString(buffer)| < |buffer|
  {
    assert !In(buffer[|buffer| - 1], Not('\0'));
  }

  lemma TextSplits(buffer: seq<char>, n: nat)
    requires n < |CString(buffer)|
    ensures CString(buffer[n + 1..]) == CString(buffer)[n + 1..]
  {
    var m := |CString(buffer)|;
    var a, b := buffer[n + 1..m], buffer[m..];
    assert a + b == buffer[n + 1..];
    assert All(a, Not('\0')) by {
      assert forall i :: 0 <= i < |a| ==> a[i] == CString(buffer)[n + 1 + i];
    }
    RunIs(a, b, Not('\0'));
  }

  lemma LineCut(buffer: seq<char>, line: string)
    requires |line| < |buffer| && buffer[..|line|] == line && buffer[|line|] == '\0' && '\0' !in line
    ensures CString(buffer) == line
  {
    assert buffer == line + buffer[|line|..];
    RunIs(line, buffer[|line|..], Not('\0'));
  }

  // Reading back

  lemma FieldIs(key: string, value: string)
    requires Stops(value, Blanks)
    ensures Field(key, key + " = " + value) == Some(value)
  {
    var s := key + " = " + value;
    assert s == key + (" = " + value);
    assert s[|key|..] == " " + ("= " + value);
    RunIs(" ", "= " + value, Blanks);
    assert ("= " + value)[1..] == " " + value;
    RunIs(" ", value, Blanks);
  }

  lemma NoField(key: string, line: string)
    requires key != "" && line != "" && key[0] != line[0]
    ensures Field(key, line).None?
  {
  }

  lemma IntLine(key: string, i: int)
    requires -0x8000_0000 <= i < 0x8000_0000
    ensures IntField(key, key + " = " + DecInt(i)) == Some(i)
  {
    hide ScanInt, Field;
    var t := DecInt(i);
    assert t[0] == '-' || In(t[0], Digits);
    FieldIs(key, t);
    ScanIntDec(i, "");
    assert t + "" == t;
  }

  lemma NumberLine(key: string, n: nat)
    requires n < U64
    ensures NumberField(key, key + " = " + Dec(n)) == Some(n)
  {
    hide ScanNumber, Field;
    var t := Dec(n);
    assert In(t[0], Digits);
    FieldIs(key, t);
    ScanNumberDec(n, "");
    assert t + "" == t;
  }

  predicate GoodUuid(uuid: string) {
    1 <= |uuid| <= 40 && All(uuid, Solid)
  }

  /** A UUID line that is accepted shows a good UUID, and a good UUID makes an accepted line. */
  lemma UuidLine(p: Progress, line: string)
    requires "UUID = " <= line
    ensures ParsedLine(p, line) == (p, true) <==> UuidField(line).Some? && p.uuid == UuidField(line)
    ensures ParsedLine(p, line).0 == p
    ensures ParsedLine(p, line).1 ==> p.uuid.Some? && GoodUuid(p.uuid.value)
  {
    hide Field;
    assert line[0] == 'U';
    NoField("version", line);
    NoField("direction", line);
    NoField("offset", line);
    NoField("shift", line);
    NoField("mode", line);
  }

  /** Without white space. */
  predicate Unbroken(u: string) {
    forall i :: 0 <= i < |u| ==> u[i] !in [' ', '\t', '\n', '\U{0B}', '\U{0C}', '\r']
  }

  lemma UnbrokenIsSolid(u: string)
    ensures Unbroken(u) <==> All(u, Solid)
  {
    forall i | 0 <= i < |u|
      ensures In(u[i], Solid) <==> u[i] !in [' ', '\t', '\n', '\U{0B}', '\U{0C}', '\r']
    {
    }
  }

  /** The first word of a text that is one word. */
  lemma FirstOf(u: string, max: nat)
    requires u != "" && All(u, Solid) && max > 0
    ensures Word(u, max) == Some((u[..Min(max, |u|)], u[Min(max, |u|)..]))
  {
    NothingToSkip(u);
    assert u + "" == u;
    RunIs(u, "", Solid);
  }

  /** Of a UUID without white space the first 40 characters are compared. */
  lemma UuidCompared(p: Progress, u: string)
    requires u != "" && Unbroken(u)
    ensures ParsedLine(p, "UUID = " + u) == (p, p.uuid == Some(if |u| <= 40 then u else u[..40]))
  {
    hide Field, In, Unbroken, Word, IntField, NumberField;
    var line := "UUID = " + u;
    assert line == "UUID" + " = " + u;
    UnbrokenIsSolid(u);
    StartsSolid(u);
    FieldIs("UUID", u);
    FirstOf(u, 40);
    UuidWord(line, u);
    Others(line, "UUID");
    assert u[..|u|] == u;
    assert UuidField(line) == Some(if |u| <= 40 then u else u[..40]);
  }

  lemma UuidWord(line: string, u: string)
    requires Field("UUID", line) == Some(u) && Word(u, 40).Some?
    ensures UuidField(line) == Some(Word(u, 40).value.0)
  {
    hide Field, Word;
  }

  lemma StartsSolid(u: string)
    requires u != "" && All(u, Solid)
    ensures Stops(u, Blanks)
  {
  }

  /** A good UUID is one of 1 to 40 characters without white space. */
  lemma GoodUuidIs(u: string)
    ensures GoodUuid(u) <==> 1 <= |u| <= 40 && Unbroken(u)
  {
    UnbrokenIsSolid(u);
  }

  lemma LineIs(start: string, key: string, value: string)
    requires start == key + " = "
    ensures Line(key, value) == start + value + "\n"
  {
  }

  /** The text of a log, character by character but for its numbers and its UUID. */
  lemma LogTextIs(p: Progress, uuid: string)
    requires p.uuid == Some(uuid)
    ensures LogText(p)
         == "# LUKS reencry" + ("ption log, DO N" + "OT EDIT OR DELETE.") + "\n"
            + ("version = 2\n" + ("UUID = " + uuid + "\n" + ("direction = " + DecInt(p.direction) + "\n"
            + ("mode = " + DecInt(p.mode) + "\n" + ("offset = " + Dec(p.offset) + "\n"
            + ("shift = " + Dec(p.shift) + "\n" + "# EOF\n"))))))
  {
    hide Dec, DecInt, Line;
    TwoIsOneDigit();
    LineIs("version = ", "version", "2");
    LineIs("UUID = ", "UUID", uuid);
    LineIs("direction = ", "direction", DecInt(p.direction));
    LineIs("mode = ", "mode", DecInt(p.mode));
    LineIs("offset = ", "offset", Dec(p.offset));
    LineIs("shift = ", "shift", Dec(p.shift));
    assert "version = " + "2" + "\n" == "version = 2\n";
  }

  lemma GoodUuidLine(p: Progress)
    requires p.uuid.Some? && GoodUuid(p.uuid.value)
    ensures ParsedLine(p, "UUID = " + p.uuid.value) == (p, true)
  {
    var u := p.uuid.value;
    assert "UUID" + " = " + u == "UUID = " + u;
    FieldIs("UUID", u);
    WordIs(u, "", 40);
    assert u + "" == u;
    UuidLine(p, "UUID = " + u);
  }

  lemma DirectionLine(p: Progress, i: int)
    requires -0x8000_0000 <= i < 0x8000_0000
    ensures ParsedLine(p, "direction = " + DecInt(i)) == (p.(direction := i), true)
  {
    hide Field, IntField, NumberField, UuidField, DecInt;
    var line := "direction = " + DecInt(i);
    assert line == "direction" + " = " + DecInt(i);
    IntLine("direction", i);
    Others(line, "direction");
  }

  /** Any mode is taken over, but only the three that there are leave the log accepted. */
  lemma ModeLine(p: Progress, i: int)
    requires -0x8000_0000 <= i < 0x8000_0000
    ensures ParsedLine(p, "mode = " + DecInt(i)) == (p.(mode := i), i == 0 || i == 1 || i == 2)
  {
    hide Field, IntField, NumberField, UuidField, DecInt;
    var line := "mode = " + DecInt(i);
    assert line == "mode" + " = " + DecInt(i);
    IntLine("mode", i);
    Others(line, "mode");
  }

  lemma OffsetLine(p: Progress, n: nat)
    requires n < U64
    ensures ParsedLine(p, "offset = " + Dec(n)) == (p.(offset := n), true)
  {
    hide Field, IntField, NumberField, UuidField, Dec;
    var line := "offset = " + Dec(n);
    assert line == "offset" + " = " + Dec(n);
    NumberLine("offset", n);
    Others(line, "offset");
  }

  lemma ShiftLine(p: Progress, n: nat)
    requires n < U64
    ensures ParsedLine(p, "shift = " + Dec(n)) == (p.(shift := n), true)
  {
    hide Field, IntField, NumberField, UuidField, Dec;
    var line := "shift = " + Dec(n);
    assert line == "shift" + " = " + Dec(n);
    NumberLine("shift", n);
    Others(line, "shift");
  }

  /** A line that starts with one of the keys is not taken for one of the others. */
  lemma Others(line: string, key: string)
    requires key in {"version", "UUID", "direction", "offset", "shift", "mode"} && key <= line
    ensures !("#" <= line)
    ensures key != "version" ==> IntField("version", line).None?
    ensures key != "UUID" ==> UuidField(line).None?
    ensures key != "direction" ==> IntField("direction", line).None?
    ensures key != "offset" ==> NumberField("offset", line).None?
    ensures key != "shift" ==> NumberField("shift", line).None?
    ensures key != "mode" ==> IntField("mode", line).None?
  {
    assert line[0] == key[0];
  }

  /** A log of version 1 or 2 is accepted. */
  lemma VersionLine(p: Progress, i: int)
    requires -0x8000_0000 <= i < 0x8000_0000
    ensures ParsedLine(p, "version = " + DecInt(i)) == (p, i == 1 || i == 2)
  {
    hide Field, IntField, NumberField, UuidField, DecInt;
    var line := "version = " + DecInt(i);
    assert line == "version" + " = " + DecInt(i);
    IntLine("version", i);
    Others(line, "version");
  }

  /** A line that is no comment and starts with none of the six keys is refused; an empty one too. */
  lemma RefusedLine(p: Progress, line: string)
    requires !("#" <= line) && !("version" <= line) && !("UUID" <= line) && !("direction" <= line)
    requires !("offset" <= line) && !("shift" <= line) && !("mode" <= line)
    ensures ParsedLine(p, line) == (p, false)
  {
  }

  /** So is a key without a number. */
  lemma NoNumber(p: Progress, key: string, value: string)
    requires key in {"version", "direction", "offset", "shift", "mode"}
    requires Stops(value, Blanks) && Stops(value, Digits) && !Signed(value)
    ensures ParsedLine(p, key + " = " + value) == (p, false)
  {
    hide Field, ParsedLine;
    var line := key + " = " + value;
    FieldIs(key, value);
    NotScanned(value);
    Others(line, key);
    NoneOfThem(p, line);
  }

  lemma NotScanned(value: string)
    requires Stops(value, Blanks) && Stops(value, Digits) && !Signed(value)
    ensures ScanInt(value).None? && ScanNumber(value).None?
  {
    assert Run(value, Blanks) == 0 && Run(value, Digits) == 0;
  }

  lemma NoneOfThem(p: Progress, line: string)
    requires !("#" <= line) && IntField("version", line).None? && UuidField(line).None?
    requires IntField("direction", line).None? && NumberField("offset", line).None? && NumberField("shift", line).None?
    requires IntField("mode", line).None?
    ensures ParsedLine(p, line) == (p, false)
  {
  }

  lemma ParsedHead(p: Progress, line: string, rest: string)
    requires All(line, Not('\n'))
    ensures var (q, ok) := ParsedLine(p, line);
      Parsed(p, line + "\n" + rest) == if ok then Parsed(q, rest) else (q, false)
  {
    hide ParsedLine;
    assert line + "\n" + rest == line + ("\n" + rest);
    RunIs(line, "\n" + rest, Not('\n'));
    assert (line + "\n" + rest)[|line| + 1..] == rest;
  }

  lemma NumbersAreOneLine(i: int, n: nat)
    ensures All(DecInt(i), Not('\n')) && All(Dec(n), Not('\n'))
    ensures '\0' !in DecInt(i) && '\0' !in Dec(n)
  {
    hide Dec;
    var d := Dec(if i < 0 then -i else i);
    assert forall k :: 0 <= k < |d| ==> In(d[k], Digits);
  }

  lemma ParsedNumberLines(p: Progress, w: Progress)
    requires p.Valid()
    ensures Parsed(w, NumberLines(p))
         == (w.(direction := p.direction, mode := p.mode, offset := p.offset, shift := p.shift), true)
  {
    hide ParsedLine, DecInt, Dec, Parsed;
    NumbersAreOneLine(p.direction, p.offset);
    NumbersAreOneLine(p.mode, p.shift);
    var d, m := "direction = " + DecInt(p.direction), "mode = " + DecInt(p.mode);
    var o, s := "offset = " + Dec(p.offset), "shift = " + Dec(p.shift);
    var w1 := w.(direction := p.direction);
    var w2 := w1.(mode := p.mode);
    var w3 := w2.(offset := p.offset);
    var w4 := w3.(shift := p.shift);
    var r3 := "# EOF" + "\n" + "";
    var r2 := s + "\n" + r3;
    var r1 := o + "\n" + r2;
    var r0 := m + "\n" + r1;
    assert NumberLines(p) == d + "\n" + r0;
    DirectionLine(w, p.direction);
    ParsedHead(w, d, r0);
    ModeLine(w1, p.mode);
    ParsedHead(w1, m, r1);
    OffsetLine(w2, p.offset);
    ParsedHead(w2, o, r2);
    ShiftLine(w3, p.shift);
    ParsedHead(w3, s, r3);
    ParsedHead(w4, "# EOF", "");
    CommentLine(w4, "# EOF");
    NothingLeft(w4);
  }

  lemma CommentLine(p: Progress, line: string)
    requires "#" <= line
    ensures ParsedLine(p, line) == (p, true)
  {
  }

  lemma NothingLeft(p: Progress)
    ensures Parsed(p, "") == (p, true)
  {
  }

  lemma BannerIsComment()
    ensures "#" <= Banner() && All(Banner(), Not('\n')) && '\0' !in Banner() && |Banner()| == 47
  {
    var a, b, c := "# LUKS reencry", "ption log, DO N", "OT EDIT OR DELETE.";
    assert a[0] == '#';
    assert All(a, Not('\n')) && '\0' !in a;
    assert All(b, Not('\n')) && '\0' !in b;
    assert All(c, Not('\n')) && '\0' !in c;
  }

  /** The banner and the version line change nothing. */
  lemma ParsedStart(w: Progress, rest: string)
    ensures Parsed(w, Banner() + "\n" + (Line("version", DecInt(2)) + rest)) == Parsed(w, rest)
  {
    hide ParsedLine, DecInt, Parsed, Banner;
    NumbersAreOneLine(2, 0);
    var v := "version = " + DecInt(2);
    assert Line("version", DecInt(2)) + rest == v + "\n" + rest;
    BannerIsComment();
    CommentLine(w, Banner());
    ParsedHead(w, Banner(), v + "\n" + rest);
    VersionLine(w, 2);
    ParsedHead(w, v, rest);
  }

  // The log as a whole

  /** What a context reads back from the sector that another one wrote. */
  function ReadBack(p: Progress): string
    requires p.uuid.Some?
  {
    CString(Sector(Snprintf(SECTOR_SIZE, LogText(p)))[..SECTOR_SIZE - 1] + "\0")
  }

  /** A file that starts with the sector of a context gives that context's log, whatever else it holds. */
  lemma ReadsLog(p: Progress, buffer: seq<char>, file: seq<char>)
    requires p.uuid.Some? && |buffer| == SECTOR_SIZE
    requires Sector(Snprintf(SECTOR_SIZE, LogText(p))) <= file
    ensures CString(ReadInto(buffer, file)) == ReadBack(p)
  {
    hide LogText, CString;
    var sector := Sector(Snprintf(SECTOR_SIZE, LogText(p)));
    assert file[..SECTOR_SIZE] == sector && (sector + buffer[SECTOR_SIZE..])[..SECTOR_SIZE - 1] == sector[..SECTOR_SIZE - 1];
  }

  /** The context with everything the log carries taken from p. */
  function Restored(p: Progress, w: Progress): Progress {
    w.(direction := p.direction, mode := p.mode, offset := p.offset, shift := p.shift)
  }

  function Head(): string {
    Banner() + "\n" + Line("version", DecInt(2))
  }

  function Body(p: Progress): string
    requires p.uuid.Some?
  {
    Line("UUID", p.uuid.value) + NumberLines(p)
  }

  lemma NoNuls(p: Progress)
    requires p.Valid() && p.uuid.Some?
    ensures LogText(p) == Head() + Body(p) && |Head()| == 60 && '\0' !in LogText(p)
  {
    hide DecInt, Dec, Banner;
    BannerIsComment();
    NumbersAreOneLine(2, 0);
    NumbersAreOneLine(p.direction, p.offset);
    NumbersAreOneLine(p.mode, p.shift);
    assert '\0' !in NumberLines(p);
    assert '\0' !in Line("UUID", p.uuid.value) && '\0' !in Line("version", DecInt(2));
    TwoIsOneDigit();
    assert LogText(p) == Head() + Body(p);
  }

  lemma TwoIsOneDigit()
    ensures DecInt(2) == "2"
  {
  }

  lemma TextIsReadBack(p: Progress)
    requires p.Valid() && p.uuid.Some?
    ensures ReadBack(p) == Snprintf(SECTOR_SIZE, LogText(p))
  {
    hide LogText;
    NoNuls(p);
    var text := Snprintf(SECTOR_SIZE, LogText(p));
    var padding := seq(SECTOR_SIZE - |text|, _ => '\0');
    assert Sector(text)[..SECTOR_SIZE - 1] + "\0" == text + padding;
    assert All(text, Not('\0')) by {
      assert forall i :: 0 <= i < |text| ==> text[i] == LogText(p)[i];
    }
    RunIs(text, padding, Not('\0'));
  }

  lemma NumberLengths(p: Progress)
    requires p.Valid()
    ensures |NumberLines(p)| <= 105
  {
    hide Dec;
    var d := if p.direction < 0 then -p.direction else p.direction;
    Lengths(d);
    DecLength(p.mode, 1, 3);
    Lengths(p.offset);
    Lengths(p.shift);
  }

  /** With a good UUID the log fits in its sector, and reading it back restores every field. */
  lemma GoodUuidRestores(p: Progress, w: Progress)
    requires p.Valid() && p.uuid.Some? && w.uuid == p.uuid && GoodUuid(p.uuid.value)
    ensures |LogText(p)| < SECTOR_SIZE
    ensures Parsed(w, ReadBack(p)) == (Restored(p, w), true)
  {
    hide NumberLines, ParsedLine, Parsed, Banner, DecInt;
    NoNuls(p);
    NumberLengths(p);
    TextIsReadBack(p);
    var line := "UUID = " + p.uuid.value;
    assert Body(p) == line + "\n" + NumberLines(p);
    assert LogText(p) == Banner() + "\n" + (Line("version", DecInt(2)) + Body(p));
    ParsedStart(w, Body(p));
    GoodUuidLine(w);
    assert forall i :: 7 <= i < |line| ==> line[i] == p.uuid.value[i - 7];
    ParsedHead(w, line, NumberLines(p));
    ParsedNumberLines(p, w);
  }

  /** What the sector has room for between "UUID = " and its last character. */
  const UUID_ROOM := 444

  /** With any other UUID nothing is restored. The log is refused, unless it was cut off within its UUID line:
      then it is accepted without effect. */
  lemma BadUuidRestoresNothing(p: Progress, w: Progress)
    requires p.Valid() && p.uuid.Some? && w.uuid == p.uuid && !GoodUuid(p.uuid.value)
    ensures var (q, ok) := Parsed(w, ReadBack(p));
      q == w && (ok <==> |p.uuid.value| >= UUID_ROOM && '\n' !in p.uuid.value[..UUID_ROOM])
  {
    hide NumberLines, ParsedLine, Parsed, Banner, DecInt, GoodUuid, UuidField;
    NoNuls(p);
    TextIsReadBack(p);
    var body := Body(p)[..Min(|Body(p)|, SECTOR_SIZE - 1 - |Head()|)];
    var start := "UUID = ";
    assert start <= Body(p) by {
      assert Body(p) == start + (p.uuid.value + "\n" + NumberLines(p));
    }
    assert start <= body;
    assert ReadBack(p) == Banner() + "\n" + (Line("version", DecInt(2)) + body);
    ParsedStart(w, body);
    var n := Run(body, Not('\n'));
    ParsedStep(w, body);
    CutOff(p.uuid.value, NumberLines(p), body, n);
    if n < |body| {
      assert start <= body[..n] by {
        assert body[n] == '\n' && forall i :: 0 <= i < |start| ==> body[i] == start[i] != '\n';
      }
      UuidLine(w, body[..n]);
    }
  }

  /** The body of the log, cut to its room, has no line feed exactly when the UUID fills that room without one. */
  lemma CutOff(uuid: string, rest: string, body: string, n: nat)
    requires var whole := "UUID = " + uuid + "\n" + rest; body == whole[..Min(|whole|, 7 + UUID_ROOM)]
    requires n == Run(body, Not('\n'))
    ensures n == |body| <==> |uuid| >= UUID_ROOM && '\n' !in uuid[..UUID_ROOM]
  {
    hide Run;
    var whole := "UUID = " + uuid + "\n" + rest;
    var k := Min(|uuid|, UUID_ROOM);
    assert forall i :: 0 <= i < k ==> body[7 + i] == uuid[i];
    if |uuid| < UUID_ROOM {
      assert body[7 + |uuid|] == '\n' && !In('\n', Not('\n'));
    } else {
      assert body == "UUID = " + uuid[..UUID_ROOM];
      if '\n' in uuid[..UUID_ROOM] {
        var i :| 0 <= i < UUID_ROOM && uuid[i] == '\n';
        assert body[7 + i] == '\n';
      } else {
        assert forall i :: 0 <= i < 7 ==> "UUID = "[i] != '\n';
      }
    }
  }

  /** The log is a faithful record exactly for the UUIDs of 1 to 40 characters without white space. */
  lemma LogRoundTrip(p: Progress)
    requires p.Valid() && p.uuid.Some?
    ensures (forall w: Progress :: w.uuid == p.uuid ==> Parsed(w, ReadBack(p)) == (Restored(p, w), true))
       <==> GoodUuid(p.uuid.value)
  {
    if GoodUuid(p.uuid.value) {
      forall w: Progress | w.uuid == p.uuid
        ensures Parsed(w, ReadBack(p)) == (Restored(p, w), true)
      {
        GoodUuidRestores(p, w);
      }
    } else {
      var w := p.(offset := p.offset + 1);
      BadUuidRestoresNothing(p, w);
      assert Restored(p, w) != w;
    }
  }
}
