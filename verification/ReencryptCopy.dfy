/** The copy loops of the offline re-encryption tool, working in place on one disk. */
module ReencryptCopy {
  import opened Bytes
  import opened ReencryptSpec
  import C = CStrings
  import L = ReencryptLog

  datatype Outcome = Finished | Interrupted | IoError | PowerLoss

  datatype Io = Ok | Failed | Lost

  datatype Mode = Reencrypt | Encrypt | Decrypt

  class ReencContext {
    const c: Ciphers
    const g: Geometry
    const deviceSize: nat     // what is to be moved; the old view may be shorter
    ghost const dir: Direction
    ghost const mode: Mode
    const blockSize: nat
    const writeLogEach: bool  // --write-log
    const disk: array<Cell>
    const uuid: string
    const shift: nat
    var directionNo: int      // the direction and the mode as the numbers that the log carries
    var modeNo: int
    var deviceOffset: nat
    ghost var log: nat        // the offset in the log file
    var logFile: seq<char>
    var inProgress: bool
    var stained: bool
    var quit: bool
    var signals: nat          // how many more system calls a signal will interrupt
    var faults: nat           // how many more things may go wrong: errors, a request to quit, a power loss

    ghost predicate Valid() reads this, disk {
      && g.Fits(disk[..]) && g.Suits(dir) && blockSize > 0
      && g.size == Min(deviceSize, g.oldLen) && deviceSize <= g.newLen
      && Numbered() && Logged()
    }

    /** The numbers in the context are those of the direction and the mode. */
    ghost predicate Numbered() reads this`directionNo, this`modeNo {
      && directionNo == (if dir.Forward? then 0 else 1)
      && modeNo == (match mode case Reencrypt => 0 case Encrypt => 1 case Decrypt => 2)
    }

    /** Whoever reads the log file, with anything in the buffer, gets the logged offset, the direction and the
        mode from it. */
    ghost predicate Logged() reads this`log, this`logFile {
      L.GoodUuid(uuid) && '\0' !in uuid && log < U64 && shift < U64 ==>
        forall buffer: seq<char>, w: L.Progress :: |buffer| == SECTOR_SIZE && w.uuid == Some(uuid) ==> ReadAs(buffer, w)
    }

    ghost predicate ReadAs(buffer: seq<char>, w: L.Progress)
      requires |buffer| == SECTOR_SIZE
      reads this`log, this`logFile
    {
      L.Parsed(w, L.CString(L.ReadInto(buffer, logFile)))
        == (w.(direction := if dir.Forward? then 0 else 1,
               mode := match mode case Reencrypt => 0 case Encrypt => 1 case Decrypt => 2,
               offset := log, shift := shift), true)
    }

    /** What the log is made of. */
    function Entry(): (p: L.Progress)
      reads this`directionNo, this`modeNo, this`deviceOffset
      ensures p.uuid.Some?
    {
      L.Progress(Some(uuid), directionNo, modeNo, deviceOffset, shift)
    }

    function LogSector(): seq<char>
      reads this`directionNo, this`modeNo, this`deviceOffset
    {
      L.Sector(C.Snprintf(SECTOR_SIZE, L.LogText(Entry())))
    }

    /** A file that begins with the sector of the context is one from which the context is read. */
    lemma SectorIsRead()
      requires Numbered() && log == deviceOffset && LogSector() <= logFile
      ensures Logged()
    {
      hide L.Parsed, L.LogText, L.CString, L.ReadInto, L.GoodUuid, L.ReadBack, L.Sector;
      if L.GoodUuid(uuid) && '\0' !in uuid && log < U64 && shift < U64 {
        forall buffer: seq<char>, w: L.Progress | |buffer| == SECTOR_SIZE && w.uuid == Some(uuid)
          ensures ReadAs(buffer, w)
        {
          L.ReadsLog(Entry(), buffer, logFile);
          L.GoodUuidRestores(Entry(), w);
        }
      }
    }

    constructor (c: Ciphers, g: Geometry, deviceSize: nat, dir: Direction, mode: Mode, blockSize: nat,
                 writeLogEach: bool, disk: array<Cell>, uuid: string, shift: nat, logged: nat, inProgress: bool,
                 signals: nat, faults: nat)
      requires g.Fits(disk[..]) && g.Suits(dir) && blockSize > 0
      requires g.size == Min(deviceSize, g.oldLen) && deviceSize <= g.newLen
      ensures Valid() && this.c == c && this.g == g && this.deviceSize == deviceSize
      ensures this.dir == dir && this.mode == mode
      ensures this.blockSize == blockSize && this.writeLogEach == writeLogEach && this.disk == disk
      ensures this.uuid == uuid && this.shift == shift
      ensures deviceOffset == logged == log && this.inProgress == inProgress && !quit && this.faults == faults
    {
      hide L.Parsed, L.LogText, L.CString, L.ReadInto, L.GoodUuid, L.Sector;
      this.uuid, this.shift := uuid, shift;
      this.c, this.g, this.deviceSize, this.dir, this.mode := c, g, deviceSize, dir, mode;
      this.blockSize, this.writeLogEach, this.disk := blockSize, writeLogEach, disk;
      this.deviceOffset, this.log, this.inProgress := logged, logged, inProgress;
      this.directionNo := if dir.Forward? then 0 else 1;
      this.modeNo := match mode case Reencrypt => 0 case Encrypt => 1 case Decrypt => 2;
      this.stained, this.quit, this.signals, this.faults := false, false, signals, faults;
      new;
      logFile := LogSector();
      SectorIsRead();
    }

    /** Whether something goes wrong here. */
    method Fault() returns (fault: bool)
      modifies this`faults
      ensures faults == if fault then old(faults) - 1 else old(faults)
    {
      fault := *;
      fault := fault && faults > 0;
      if fault {
        faults := faults - 1;
      }
    }

    /** How a write ends. */
    method Ending() returns (r: Io)
      modifies this`faults
      ensures faults == if r.Ok? then old(faults) else old(faults) - 1
    {
      var fault := Fault();
      var power := *;
      r := if !fault then Ok else if power then Lost else Failed;
    }

    /** One read(2) on the old view: short, interrupted, failed, or at the end of the device. */
    method Read(buf: array<Cell>, at: nat, pos: nat, count: nat) returns (s: int, interrupted: bool)
      requires Valid() && buf != disk && at + count <= buf.Length
      modifies buf, this`signals, this`faults
      ensures Valid() && -1 <= s <= count && buf[..at] == old(buf[..at])
      ensures faults == if s == -1 && !interrupted then old(faults) - 1 else old(faults)
      ensures s == -1 && interrupted ==> signals < old(signals)
      ensures s >= 0 ==> signals == old(signals)
      ensures s == 0 <==> s >= 0 && (count == 0 || pos >= g.oldLen)
      ensures s > 0 ==> pos + s <= g.oldLen && buf[at..at + s] == OldSlice(c, g, disk[..], pos, s)
    {
      hide Logged;
      interrupted := *;
      interrupted := interrupted && signals > 0;
      if interrupted {
        signals := signals - 1;
        return -1, true;
      }
      var fault := Fault();
      if fault {
        return -1, false;
      }
      if count == 0 || pos >= g.oldLen {
        return 0, false;
      }
      var n: int := *;
      n := if n <= 0 || n > count then count else n;
      n := if pos + n > g.oldLen then g.oldLen - pos else n;
      forall i | 0 <= i < n {
        buf[at + i] := c.decOld(pos + i, disk[g.src + pos + i]);
      }
      assert buf[at..at + n] == OldSlice(c, g, disk[..], pos, n);
      s, interrupted := n, false;
    }

    /** read_buf: retries short and interrupted reads until the end of the device. */
    method ReadBuf(buf: array<Cell>, pos: nat, count: nat) returns (s: int)
      requires Valid() && buf != disk && 0 < count <= buf.Length
      modifies buf, this`signals, this`faults
      ensures Valid() && faults == if s == -1 then old(faults) - 1 else old(faults)
      ensures s == -1 || s == Min(count, if pos <= g.oldLen then g.oldLen - pos else 0)
      ensures s > 0 ==> pos + s <= g.oldLen && buf[..s] == OldSlice(c, g, disk[..], pos, s)
    {
      hide OldSlice, Old, Logged;
      var readSize := 0;
      while true
        invariant Valid() && 0 <= readSize < count && faults == old(faults)
        invariant readSize > 0 ==> pos + readSize <= g.oldLen
        invariant readSize > 0 ==> buf[..readSize] == OldSlice(c, g, disk[..], pos, readSize)
        decreases signals, count - readSize
      {
        var n, interrupted := Read(buf, readSize, pos + readSize, count - readSize);
        if n == -1 && !interrupted {
          return -1;
        }
        if n == 0 {
          return readSize;
        }
        if n > 0 {
          assert buf[..readSize + n] == buf[..readSize] + buf[readSize..readSize + n];
          OldSliceAppend(c, g, disk[..], pos, readSize, n);
          readSize := readSize + n;
        }
        if readSize == count {
          return count;
        }
      }
    }

    /** One write(2) of a whole block to the new view. It succeeds, fails without writing anything, or the
        power fails and the cells of the block hold anything. */
    method Write(buf: array<Cell>, pos: nat, n: nat) returns (r: Io)
      requires Valid() && buf != disk && n <= buf.Length && pos + n <= g.size
      requires n > 0 ==> buf[..n] == OldSlice(c, g, disk[..], pos, n)
      modifies disk, this`faults
      ensures Valid() && faults == if r.Ok? then old(faults) else old(faults) - 1
      ensures r.Ok? ==> disk[..] == Recrypted(c, g, old(disk[..]), pos, pos + n)
      ensures r.Failed? ==> disk[..] == old(disk[..])
      ensures r.Lost? ==> forall p :: 0 <= p < disk.Length && !(g.dst + pos <= p < g.dst + pos + n) ==>
                            disk[p] == old(disk[p])
    {
      hide Logged;
      r := Ending();
      if r.Ok? {
        ghost var d := disk[..];
        assert forall i :: 0 <= i < n ==> buf[i] == buf[..n][i] == Old(c, g, d, pos + i);
        forall i | 0 <= i < n {
          disk[g.dst + pos + i] := c.encNew(pos + i, buf[i]);
        }
        forall p | 0 <= p < disk.Length
          ensures disk[p] == Recrypted(c, g, d, pos, pos + n)[p]
        {
          if g.dst + pos <= p < g.dst + pos + n {
            assert disk[g.dst + pos + (p - g.dst - pos)] == c.encNew(p - g.dst, Old(c, g, d, p - g.dst));
          }
        }
        assert disk[..] == Recrypted(c, g, d, pos, pos + n);
      } else if r.Lost? {
        var junk: nat -> Cell := *;
        forall i | 0 <= i < n {
          disk[g.dst + pos + i] := junk(i);
        }
      }
    }

    /** write_log: one sector, written completely or not at all. */
    method WriteLog() returns (r: Io)
      requires Numbered() && Logged()
      modifies this`log, this`logFile, this`faults
      ensures Logged() && faults == if r.Ok? then old(faults) else old(faults) - 1
      ensures r.Ok? ==> log == deviceOffset
      ensures r.Failed? ==> log == old(log) && logFile == old(logFile)
      ensures r.Lost? ==> log == deviceOffset || log == old(log)
    {
      hide Logged, Entry, L.Sector, L.LogText;
      r := Ending();
      var reached := *;
      if r.Ok? || (r.Lost? && reached) {
        logFile := L.Overwritten(logFile, LogSector());
        log := deviceOffset;
        SectorIsRead();
      }
    }

    /** The disk after this run, which began on `d0` at `lo`, has come to the current offset. */
    ghost predicate Moved(d0: seq<Cell>, lo: nat) reads this, disk {
      && Valid() && |d0| == disk.Length
      && (if dir.Forward? then lo <= deviceOffset <= g.size else deviceOffset <= lo <= g.size)
      && (if dir.Forward? then lo <= log <= deviceOffset else deviceOffset <= log <= lo)
      && disk[..] == MovedTo(c, g, dir, d0, lo, deviceOffset)
    }

    /** The run may end here; nothing is in flight beyond what the log does not show yet. */
    lemma EndsHere(d0: seq<Cell>, lo: nat)
      requires Moved(d0, lo)
      ensures RunEnds(c, g, dir, d0, lo, disk[..], log, deviceOffset)
    {
      hide Logged;
      TornRunEnds(c, g, dir, d0, lo, deviceOffset, disk[..], log, deviceOffset);
    }

    /** Copying one block on is the same as having copied it with the rest. */
    lemma BlockMoved(d0: seq<Cell>, lo: nat, k: nat, n: nat)
      requires Valid() && g.Fits(d0)
      requires if dir.Forward? then lo <= k && k + n <= g.size else n <= k <= lo <= g.size
      ensures var k' := if dir.Forward? then k + n else k - n;
        MovedTo(c, g, dir, d0, lo, k')
          == Recrypted(c, g, MovedTo(c, g, dir, d0, lo, k), if dir.Forward? then k else k', if dir.Forward? then k' else k)
    {
      hide Logged;
      if dir.Forward? {
        CopyOn(c, g, dir, d0, lo, k, k + n);
      } else {
        CopyOn(c, g, dir, d0, k - n, k, lo);
      }
    }

    /** A block whose write was torn may hold anything. */
    lemma TornBlock(d0: seq<Cell>, lo: nat, k: nat, n: nat, d: seq<Cell>)
      requires Valid() && g.Fits(d0) && |d| == |d0|
      requires if dir.Forward? then lo <= log <= k && k + n <= g.size else n <= k <= log <= lo <= g.size
      requires var from := if dir.Forward? then k else k - n;
        forall p :: 0 <= p < |d| && !(g.dst + from <= p < g.dst + from + n) ==> d[p] == MovedTo(c, g, dir, d0, lo, k)[p]
      ensures RunEnds(c, g, dir, d0, lo, d, log, if dir.Forward? then k + n else k - n)
    {
      hide RunEnds, MovedTo, Logged;
      TornRunEnds(c, g, dir, d0, lo, k, d, log, if dir.Forward? then k + n else k - n);
    }

    /** Write one block of plain text and advance the offset: the common end of both loop bodies. */
    method MoveBlock(buf: array<Cell>, pos: nat, n: nat, ghost d0: seq<Cell>, ghost lo: nat)
      returns (o: Io, ghost front: nat)
      requires Moved(d0, lo) && buf != disk && n <= buf.Length
      requires pos == if dir.Forward? then deviceOffset else deviceOffset - n
      requires pos + n <= g.size && buf[..n] == OldSlice(c, g, disk[..], pos, n)
      requires writeLogEach ==> log == deviceOffset
      modifies disk, this`deviceOffset, this`log, this`logFile, this`faults
      ensures Valid() && faults == if o.Ok? then old(faults) else old(faults) - 1
      ensures log == old(log) || log == deviceOffset
      ensures deviceOffset == old(deviceOffset) || deviceOffset == if dir.Forward? then old(deviceOffset) + n else pos
      ensures !o.Lost? ==> Moved(d0, lo) && front == deviceOffset
      ensures o.Ok? ==> deviceOffset == (if dir.Forward? then old(deviceOffset) + n else old(deviceOffset) - n)
                        && (writeLogEach ==> log == deviceOffset)
      ensures RunEnds(c, g, dir, d0, lo, disk[..], log, front)
      ensures writeLogEach ==> InFlightSize(dir, log, front) <= n
    {
      hide RunEnds, MovedTo, Recrypted, OldSlice, InFlight, Logged;
      ghost var k, d := deviceOffset, disk[..];
      ghost var k' := if dir.Forward? then k + n else pos;
      BlockMoved(d0, lo, k, n);
      o := Write(buf, pos, n);
      if o.Lost? {
        front := k';
        TornBlock(d0, lo, k, n, disk[..]);
        return;
      }
      if o.Failed? {
        front := k;
        EndsHere(d0, lo);
        return;
      }
      deviceOffset := if directionNo == 0 then deviceOffset + n else deviceOffset - n;
      front := deviceOffset;
      if writeLogEach {
        o := WriteLog();
      }
      EndsHere(d0, lo);
    }

    /** No block that a forward copy reads from a position on goes behind the end of the old view, unless the
        device ends there too. */
    ghost predicate BlocksFit(pos: nat)
      requires blockSize > 0
    {
      || pos >= deviceSize || deviceSize == g.oldLen
      || pos + (deviceSize - pos + blockSize - 1) / blockSize * blockSize <= g.oldLen
    }

    /** A block on, or a block that is cut short by the end of the old view. */
    lemma NextBlock(pos: nat)
      requires blockSize > 0 && pos < deviceSize
      ensures pos + blockSize > g.oldLen ==> (BlocksFit(pos) <==> deviceSize == g.oldLen)
      ensures pos + blockSize <= g.oldLen ==> (BlocksFit(pos) <==> BlocksFit(pos + blockSize))
      ensures pos + blockSize >= deviceSize ==> BlocksFit(pos + blockSize) && BlocksFit(deviceSize)
    {
      var x := deviceSize - pos + blockSize - 1;
      var k, r := x / blockSize, x % blockSize;
      assert x == k * blockSize + r;
      if k == 1 {
        assert k * blockSize == blockSize;
      } else {
        Distribute(k, 1, blockSize);
        AtLeastOneTimes(k - 1, blockSize);
        QuotientIs(x - blockSize, blockSize, k - 1, r);
      }
    }

    /** Without faults a run from here gets through. */
    ghost predicate GetsThrough(lo: nat)
      requires blockSize > 0
    {
      if dir.Forward? then BlocksFit(lo) else lo <= g.size
    }

    /** The body of the loop of copy_data_forward: the block at the offset, where both files stand. */
    method CopyBlockForward(buf: array<Cell>, posOld: nat, posNew: nat, ghost d0: seq<Cell>, ghost lo: nat)
      returns (o: Io, posOld': nat, posNew': nat, ghost front: nat)
      requires dir.Forward? && Moved(d0, lo) && posOld == posNew == deviceOffset < deviceSize
      requires buf != disk && buf.Length == blockSize && (writeLogEach ==> log == deviceOffset)
      modifies disk, this`deviceOffset, this`log, this`logFile, this`signals, this`faults, buf
      ensures Valid() && faults <= old(faults)
      ensures BlocksFit(old(deviceOffset)) ==> BlocksFit(deviceOffset) && (o.Ok? || faults < old(faults))
      ensures o.Ok? && BlocksFit(deviceOffset) ==> BlocksFit(old(deviceOffset))
      ensures log == old(log) || log == deviceOffset
      ensures RunEnds(c, g, dir, d0, lo, disk[..], log, front)
      ensures !o.Lost? ==> Moved(d0, lo) && front == deviceOffset
      ensures writeLogEach ==> InFlightSize(dir, log, front) <= blockSize
      ensures o.Ok? ==> old(deviceOffset) < deviceOffset <= deviceSize && (writeLogEach ==> log == deviceOffset)
      ensures o.Ok? && deviceOffset < deviceSize ==> posOld' == posNew' == deviceOffset
    {
      hide RunEnds, InFlight, MovedTo, Logged, OldSlice, BlocksFit;
      posOld', posNew', front := posOld, posNew, deviceOffset;
      EndsHere(d0, lo);
      NextBlock(deviceOffset);
      var s1 := ReadBuf(buf, posOld, blockSize);
      if s1 < 0 || (s1 != blockSize && deviceOffset + s1 != deviceSize) {
        return Failed, posOld', posNew', front;
      }
      posOld' := posOld + s1;
      // never write more than the device size
      if s1 + deviceOffset > deviceSize {
        FirstPart(s1, deviceSize - deviceOffset);
        assert buf[..deviceSize - deviceOffset] == buf[..s1][..deviceSize - deviceOffset];
        s1 := deviceSize - deviceOffset;
      }
      o, front := MoveBlock(buf, posNew, s1, d0, lo);
      posNew' := posNew + s1;
    }

    lemma FirstPart(n: nat, m: nat)
      requires Valid() && m <= n && deviceOffset + n <= g.oldLen
      ensures OldSlice(c, g, disk[..], deviceOffset, n)[..m] == OldSlice(c, g, disk[..], deviceOffset, m)
    {
      hide Old;
    }

    /** The loop of copy_data_forward. */
    method CopyBlocksForward(ghost d0: seq<Cell>, ghost lo: nat) returns (o: Outcome, ghost front: nat)
      requires dir.Forward? && lo == deviceOffset == log && Moved(d0, lo)
      modifies disk, this`deviceOffset, this`log, this`logFile, this`quit, this`signals, this`faults
      ensures Valid() && faults <= old(faults) && (o.Finished? ==> BlocksFit(lo) && !quit)
      ensures BlocksFit(lo) ==> BlocksFit(log) && BlocksFit(deviceOffset)
      ensures BlocksFit(lo) && !old(quit) && faults == old(faults) ==> o.Finished?
      ensures RunEnds(c, g, dir, d0, lo, disk[..], log, front)
      ensures !o.PowerLoss? ==> Moved(d0, lo) && front == deviceOffset
      ensures writeLogEach ==> InFlightSize(dir, log, front) <= blockSize
      ensures o.Finished? ==> deviceOffset == g.size == deviceSize && (writeLogEach ==> log == deviceOffset)
    {
      hide RunEnds, InFlight, Logged, BlocksFit, MovedTo;
      front := deviceOffset;
      EndsHere(d0, lo);
      AtTheEnd();
      var posOld, posNew := deviceOffset, deviceOffset;
      var buf := new Cell[blockSize];
      while !quit && deviceOffset < deviceSize
        invariant Moved(d0, lo) && fresh(buf) && buf.Length == blockSize
        invariant front == deviceOffset
        invariant writeLogEach ==> log == deviceOffset
        invariant deviceOffset < deviceSize ==> posOld == posNew == deviceOffset
        invariant RunEnds(c, g, dir, d0, lo, disk[..], log, front)
        invariant faults <= old(faults) && (quit && !old(quit) ==> faults < old(faults))
        invariant (BlocksFit(lo) <==> BlocksFit(deviceOffset)) && (BlocksFit(lo) ==> BlocksFit(log))
        decreases deviceSize - deviceOffset
      {
        var w;
        w, posOld, posNew, front := CopyBlockForward(buf, posOld, posNew, d0, lo);
        if !w.Ok? {
          return if w.Failed? then IoError else PowerLoss, front;
        }
        var syncFailed := Fault();
        if syncFailed {
          return IoError, front;
        }
        var request := Fault();
        quit := quit || request;
      }
      o := if quit then Interrupted else Finished;
    }

    /** copy_data_forward. `front` is as far as any write can have gone. Without faults it gets through exactly
        when no block goes behind the end of the old view. */
    method CopyForward() returns (o: Outcome, ghost front: nat)
      requires Valid() && dir.Forward? && deviceOffset <= g.size && log == deviceOffset
      modifies disk, this`deviceOffset, this`log, this`logFile, this`quit, this`signals, this`faults
      ensures faults <= old(faults) && (o.Finished? ==> BlocksFit(old(deviceOffset)) && !quit)
      ensures BlocksFit(old(deviceOffset)) ==> BlocksFit(log) && BlocksFit(deviceOffset)
      ensures BlocksFit(old(deviceOffset)) && !old(quit) && faults == old(faults) ==> o.Finished?
      ensures RunEnds(c, g, dir, old(disk[..]), old(deviceOffset), disk[..], log, front)
      ensures !o.PowerLoss? ==> Moved(old(disk[..]), old(deviceOffset)) && front == deviceOffset
      ensures writeLogEach ==> InFlightSize(dir, log, front) <= blockSize
      ensures Valid()
      ensures o.Finished? ==> deviceOffset == g.size == deviceSize && (writeLogEach ==> log == deviceOffset)
    {
      hide RunEnds, InFlight, Logged, BlocksFit;
      ghost var d0, lo := disk[..], deviceOffset;
      front := deviceOffset;
      assert Recrypted(c, g, d0, lo, lo) == d0;
      EndsHere(d0, lo);
      var seekFailed := Fault();
      if seekFailed {
        return IoError, front;
      }
      var w := WriteLog();
      if !w.Ok? {
        return if w.Failed? then IoError else PowerLoss, front;
      }
      o, front := CopyBlocksForward(d0, lo);
    }

    lemma AtTheEnd()
      requires blockSize > 0
      ensures BlocksFit(deviceSize)
    {
    }

    /** The run has not moved anything, because it would begin behind the end of the old view. */
    ghost predicate Stuck(d0: seq<Cell>, lo: nat) reads this, disk {
      Valid() && g.size < deviceOffset == lo <= deviceSize && log == lo && disk[..] == d0
    }

    /** The body of the loop of copy_data_backward: the block before the offset. */
    method CopyBlockBackward(buf: array<Cell>, ghost d0: seq<Cell>, ghost lo: nat) returns (o: Io, ghost front: nat)
      requires dir.Backward? && deviceOffset > 0 && if lo <= g.size then Moved(d0, lo) else Stuck(d0, lo)
      requires buf != disk && buf.Length == blockSize && (writeLogEach ==> log == deviceOffset)
      modifies disk, this`deviceOffset, this`log, this`logFile, this`signals, this`faults, buf
      ensures Valid() && faults <= old(faults) && (lo <= g.size && !o.Ok? ==> faults < old(faults))
      ensures lo > g.size ==> Stuck(d0, lo) && o.Failed?
      ensures lo <= g.size ==> RunEnds(c, g, dir, d0, lo, disk[..], log, front)
      ensures lo <= g.size && !o.Lost? ==> Moved(d0, lo) && front == deviceOffset
      ensures lo <= g.size && writeLogEach ==> InFlightSize(dir, log, front) <= blockSize
      ensures o.Ok? ==> deviceOffset < old(deviceOffset) && (writeLogEach ==> log == deviceOffset)
    {
      hide RunEnds, InFlight, MovedTo, Logged, OldSlice;
      front := deviceOffset;
      if lo <= g.size {
        EndsHere(d0, lo);
      }
      var workingOffset, workingBlock := 0, deviceOffset;
      if deviceOffset >= blockSize {
        workingOffset, workingBlock := deviceOffset - blockSize, blockSize;
      }
      var seekFailed := Fault();
      if seekFailed {
        return Failed, front;
      }
      var s1 := ReadBuf(buf, workingOffset, workingBlock);
      if s1 != workingBlock {
        return Failed, front;
      }
      o, front := MoveBlock(buf, workingOffset, workingBlock, d0, lo);
    }

    /** The loop of copy_data_backward. */
    method CopyBlocksBackward(ghost d0: seq<Cell>, ghost lo: nat) returns (o: Outcome, ghost front: nat)
      requires dir.Backward? && log == deviceOffset && if lo <= g.size then Moved(d0, lo) else Stuck(d0, lo)
      modifies disk, this`deviceOffset, this`log, this`logFile, this`quit, this`signals, this`faults
      ensures faults <= old(faults) && (o.Finished? ==> !quit)
      ensures lo <= g.size && !old(quit) && faults == old(faults) ==> o.Finished?
      ensures lo > g.size ==> Stuck(d0, lo) && (o.IoError? || o.Interrupted?)
      ensures lo <= g.size ==> RunEnds(c, g, dir, d0, lo, disk[..], log, front)
      ensures lo <= g.size && !o.PowerLoss? ==> Moved(d0, lo) && front == deviceOffset
      ensures lo <= g.size && writeLogEach ==> InFlightSize(dir, log, front) <= blockSize
      ensures Valid()
      ensures o.Finished? ==> deviceOffset == 0 && (writeLogEach ==> log == deviceOffset)
    {
      hide RunEnds, InFlight, MovedTo, Logged;
      front := deviceOffset;
      if lo <= g.size {
        EndsHere(d0, lo);
      }
      var buf := new Cell[blockSize];
      while !quit && deviceOffset > 0
        invariant if lo <= g.size then Moved(d0, lo) else Stuck(d0, lo)
        invariant fresh(buf) && buf.Length == blockSize
        invariant front == deviceOffset
        invariant writeLogEach ==> log == deviceOffset
        invariant lo <= g.size ==> RunEnds(c, g, dir, d0, lo, disk[..], log, front)
        invariant faults <= old(faults) && (quit && !old(quit) ==> faults < old(faults))
        decreases deviceOffset
      {
        var w;
        w, front := CopyBlockBackward(buf, d0, lo);
        if !w.Ok? {
          return if w.Failed? then IoError else PowerLoss, front;
        }
        var syncFailed := Fault();
        if syncFailed {
          return IoError, front;
        }
        var request := Fault();
        quit := quit || request;
      }
      o := if quit then Interrupted else Finished;
    }

    /** Where a run begins: a fresh backward copy starts at the end of the device. */
    ghost function RunStart(): nat reads this {
      if dir.Backward? && !inProgress then deviceSize else deviceOffset
    }

    /** copy_data_backward. `started` says that the start has reached the log. A device size that the old view
        does not reach is an error before anything is moved. */
    method CopyBackward() returns (o: Outcome, started: bool, ghost front: nat)
      requires Valid() && dir.Backward?
      requires inProgress ==> deviceOffset <= deviceSize && log == deviceOffset
      modifies disk, this`deviceOffset, this`log, this`logFile, this`stained, this`quit, this`signals, this`faults
      ensures Valid() && faults <= old(faults) && (o.Finished? ==> !quit)
      ensures old(RunStart()) <= g.size && !old(quit) && faults == old(faults) ==> o.Finished?
      ensures !started || old(RunStart()) > g.size ==> disk[..] == old(disk[..]) && !o.Finished?
      ensures !started ==> (o.IoError? || o.PowerLoss?) && (log == old(log) || log == old(RunStart()))
      ensures !started || old(RunStart()) > g.size ==> deviceOffset == old(RunStart())
      ensures started && old(RunStart()) > g.size ==> log == old(RunStart())
      ensures started && old(RunStart()) <= g.size ==>
                RunEnds(c, g, dir, old(disk[..]), old(RunStart()), disk[..], log, front)
      ensures started && old(RunStart()) <= g.size && !o.PowerLoss? ==>
                Moved(old(disk[..]), old(RunStart())) && front == deviceOffset
      ensures started && old(RunStart()) <= g.size && writeLogEach ==> InFlightSize(dir, log, front) <= blockSize
      ensures o.Finished? ==> started && deviceOffset == 0 && (writeLogEach ==> log == deviceOffset)
    {
      hide RunEnds, InFlight, Logged;
      ghost var d0, lo := disk[..], RunStart();
      if !inProgress {
        deviceOffset := deviceSize;
      }
      front := deviceOffset;
      if lo <= g.size {
        assert Recrypted(c, g, d0, lo, lo) == d0;
      }
      var w := WriteLog();
      started := w.Ok?;
      if !w.Ok? {
        return if w.Failed? then IoError else PowerLoss, started, front;
      }
      stained := true;
      o, front := CopyBlocksBackward(d0, lo);
    }

    /** One write(2) of zeros behind those already there: in full, in part, or not at all, or the power fails
        and the cells of the piece hold anything. */
    method WriteZeros(from: nat, done: nat, n: nat, ghost d: seq<Cell>) returns (written: nat, lost: bool)
      requires Valid() && from + done + n <= g.newLen && |d| == disk.Length && n > 0
      requires disk[..] == Zeroed(c, g, d, from, done)
      modifies disk, this`faults
      ensures Valid() && written <= n && faults == if written == n && !lost then old(faults) else old(faults) - 1
      ensures !lost ==> disk[..] == Zeroed(c, g, d, from, done + written)
      ensures lost ==> written == 0 && ZeroedOutside(disk[..], d, from, done, done + n)
    {
      hide Logged;
      var k: int := *;
      var fault := Fault();
      var power := *;
      lost := fault && power;
      written := if !fault then n else if lost || k < 0 then 0 else Min(k, n - 1);
      ghost var before := disk[..];
      var pos := from + done;
      if lost {
        var junk: nat -> Cell := *;
        forall i | 0 <= i < n {
          disk[g.dst + pos + i] := junk(i);
        }
        return;
      }
      forall i | 0 <= i < written {
        disk[g.dst + pos + i] := c.encNew(pos + i, 0);
      }
      forall p | 0 <= p < disk.Length
        ensures disk[p] == Zeroed(c, g, d, from, done + written)[p]
      {
        if g.dst + pos <= p < g.dst + pos + written {
          assert disk[g.dst + pos + (p - g.dst - pos)] == c.encNew(p - g.dst, 0);
        } else {
          assert disk[p] == before[p];
        }
      }
    }

    /** The first `zeros` positions behind `from` are cleared, and those up to `end` may hold anything. */
    ghost predicate ZeroedOutside(d': seq<Cell>, d: seq<Cell>, from: nat, zeros: nat, end: nat) {
      |d'| == |d| && zeros <= end &&
      forall p :: 0 <= p < |d| && !(g.dst + from + zeros <= p < g.dst + from + end) ==>
        d'[p] == Zeroed(c, g, d, from, zeros)[p]
    }

    /** Nothing but positions of the new view from `from` on has changed. */
    ghost predicate ClearedOnly(d': seq<Cell>, d: seq<Cell>, from: nat) {
      exists zeros: nat, end: nat :: end <= g.newLen && ZeroedOutside(d', d, from, zeros, end)
    }

    /** zero_rest_of_device: clear what lies behind the moved data. A failed or short write ends it silently;
        with `lost` the power fails. */
    method ZeroRest(from: nat, bytes: nat) returns (left: nat, lost: bool, ghost zeros: nat)
      requires Valid() && from + bytes <= g.newLen
      modifies disk, this`quit, this`faults
      ensures Valid() && bytes - left <= zeros <= bytes && faults <= old(faults)
      ensures !old(quit) && faults == old(faults) ==> left == 0 && !lost
      ensures !lost ==> disk[..] == Zeroed(c, g, old(disk[..]), from, zeros)
      ensures lost ==> ZeroedOutside(disk[..], old(disk[..]), from, zeros, bytes)
    {
      hide Logged;
      ghost var d := disk[..];
      left, lost, zeros := bytes, false, 0;
      assert Zeroed(c, g, d, from, 0) == d;
      var seekFailed := Fault();
      if seekFailed {
        return;
      }
      var s1 := blockSize;
      while !quit && left > 0
        invariant Valid() && 0 <= left <= bytes && s1 > 0 && d == old(disk[..]) && !lost
        invariant zeros == bytes - left && disk[..] == Zeroed(c, g, d, from, zeros)
        invariant faults <= old(faults) && (quit && !old(quit) ==> faults < old(faults))
        decreases left
      {
        if left < s1 {
          s1 := left;
        }
        var s2;
        s2, lost := WriteZeros(from, bytes - left, s1, d);
        if lost {
          return;
        }
        zeros := zeros + s2;
        if s2 != s1 {
          return;
        }
        var syncFailed := Fault();
        if syncFailed {
          return;
        }
        left := left - s1;
        var request := Fault();
        quit := quit || request;
      }
    }

    /** Where a run that gets through ends. */
    ghost function RunEnd(): nat {
      if dir.Forward? then g.size else 0
    }

    /** The copy loop that the direction in the context asks for. */
    method CopyLoop() returns (o: Outcome, started: bool, ghost front: nat)
      requires Valid()
      requires dir.Forward? ==> deviceOffset <= g.size && log == deviceOffset
      requires inProgress ==> deviceOffset <= deviceSize && log == deviceOffset
      modifies disk, this`deviceOffset, this`log, this`logFile, this`stained, this`quit, this`signals, this`faults
      ensures Valid() && faults <= old(faults) && (o.Finished? ==> !quit)
      ensures GetsThrough(old(RunStart())) && !old(quit) && faults == old(faults) ==> o.Finished?
      ensures o.Finished? ==> GetsThrough(old(RunStart())) && started && old(RunStart()) <= g.size
      ensures o.Finished? ==> (dir.Forward? ==> g.size == deviceSize) && deviceOffset == RunEnd()
      ensures dir.Forward? && BlocksFit(old(deviceOffset)) ==> BlocksFit(log) && BlocksFit(deviceOffset)
      ensures !started || old(RunStart()) > g.size ==> disk[..] == old(disk[..]) && deviceOffset == old(RunStart())
      ensures !started ==> (o.IoError? || o.PowerLoss?) && (log == old(log) || log == old(RunStart()))
      ensures started && old(RunStart()) <= g.size ==>
                RunEnds(c, g, dir, old(disk[..]), old(RunStart()), disk[..], log, front)
      ensures started && old(RunStart()) <= g.size && !o.PowerLoss? ==>
                Moved(old(disk[..]), old(RunStart())) && front == deviceOffset
      ensures started && old(RunStart()) <= g.size && writeLogEach ==> InFlightSize(dir, log, front) <= blockSize
      ensures o.Finished? && writeLogEach ==> log == deviceOffset
    {
      hide RunEnds, InFlight, MovedTo, Logged, BlocksFit;
      if directionNo == 0 {
        o, front := CopyForward();
        started := true;
      } else {
        o, started, front := CopyBackward();
      }
    }

    /** The wipe of what a decrypted device no longer uses; any other device is left alone. */
    method WipeRest(ghost mid: seq<Cell>) returns (lost: bool)
      requires Valid() && disk[..] == mid && !quit
      modifies disk, this`quit, this`faults
      ensures Valid() && faults <= old(faults) && (faults == old(faults) ==> !lost)
      ensures ClearedOnly(disk[..], mid, g.oldLen)
      ensures !lost ==> exists n: nat :: n <= g.newLen && disk[..] == Zeroed(c, g, mid, g.oldLen, n)
      ensures mode.Decrypt? && g.newLen > g.oldLen && faults == old(faults) ==>
                disk[..] == Zeroed(c, g, mid, g.oldLen, g.newLen - g.oldLen)
      ensures !(mode.Decrypt? && g.newLen > g.oldLen) ==> disk[..] == mid && !lost
    {
      hide Logged;
      ghost var zeros: nat := 0;
      lost := false;
      assert Zeroed(c, g, mid, g.oldLen, 0) == mid;
      if modeNo == 2 && g.newLen > g.oldLen {
        var left;
        left, lost, zeros := ZeroRest(g.oldLen, g.newLen - g.oldLen);
        assert lost ==> ZeroedOutside(disk[..], mid, g.oldLen, zeros, g.newLen - g.oldLen);
      }
      assert !lost ==> disk[..] == Zeroed(c, g, mid, g.oldLen, zeros) && zeros <= g.newLen;
      assert !lost ==> ZeroedOutside(disk[..], mid, g.oldLen, zeros, zeros);
    }

    /** copy_data: the whole copy, the wipe of what a decrypted device no longer uses, and a last log entry
        whose failure is ignored. `mid` is the disk as the copy loop left it, and `moved` says that the loop got
        through; the power may still fail in the wipe or at the last log entry. `clean` says that this entry was
        written, so that the next run starts exactly where this one stopped. */
    method CopyData()
      returns (o: Outcome, started: bool, moved: bool, clean: bool, ghost mid: seq<Cell>, ghost front: nat)
      requires Valid()
      requires dir.Forward? ==> deviceOffset <= g.size && log == deviceOffset
      requires inProgress ==> deviceOffset <= deviceSize && log == deviceOffset
      modifies disk, this
      ensures Valid() && faults <= old(faults)
      ensures GetsThrough(old(RunStart())) && !old(quit) && faults == old(faults) ==> o.Finished?
      ensures o.Finished? ==> GetsThrough(old(RunStart()))
      ensures dir.Forward? && BlocksFit(old(deviceOffset)) ==> BlocksFit(log)
      ensures o.Finished? ==> moved
      ensures moved ==> started && old(RunStart()) <= g.size && (dir.Forward? ==> g.size == deviceSize)
      ensures !started || old(RunStart()) > g.size ==> disk[..] == old(disk[..])
      ensures !started ==> (o.IoError? || o.PowerLoss?) && (log == old(log) || log == old(RunStart()))
      ensures started && old(RunStart()) <= g.size ==>
                RunEnds(c, g, dir, old(disk[..]), old(RunStart()), mid, log, front)
      ensures started && old(RunStart()) <= g.size && writeLogEach ==> InFlightSize(dir, log, front) <= blockSize
      ensures started && old(RunStart()) <= g.size && clean ==> InFlightSize(dir, log, front) == 0
      ensures started && !moved ==> disk[..] == mid
      ensures moved ==> mid == MovedTo(c, g, dir, old(disk[..]), old(RunStart()), RunEnd())
      ensures moved && (clean || writeLogEach) ==> log == RunEnd()
      ensures moved && !(mode.Decrypt? && g.newLen > g.oldLen) ==> disk[..] == mid
      ensures o.Finished? ==> exists n: nat :: n <= g.newLen && disk[..] == Zeroed(c, g, mid, g.oldLen, n)
      ensures moved && mode.Decrypt? && g.newLen > g.oldLen && faults == old(faults) ==>
                disk[..] == Zeroed(c, g, mid, g.oldLen, g.newLen - g.oldLen)
      ensures moved ==> ClearedOnly(disk[..], mid, g.oldLen)
    {
      hide RunEnds, InFlight, MovedTo, Logged, BlocksFit, ClearedOnly;
      o, started, front := CopyLoop();
      mid := disk[..];
      moved, clean := o.Finished?, false;
      if o.PowerLoss? {
        return;
      }
      if o.Finished? {
        var lost := WipeRest(mid);
        if lost {
          o := PowerLoss;
          return;
        }
      }
      if started && old(RunStart()) <= g.size {
        EndsWith(old(disk[..]), old(RunStart()), mid);
      }
      var w := WriteLog();
      clean := w.Ok?;
      if w.Lost? {
        o := PowerLoss;
      }
    }

    /** A last log entry takes over the offset that the run has come to. */
    lemma EndsWith(d0: seq<Cell>, lo: nat, mid: seq<Cell>)
      requires Valid() && |d0| == |mid| == disk.Length
      requires if dir.Forward? then lo <= deviceOffset <= g.size else deviceOffset <= lo <= g.size
      requires mid == MovedTo(c, g, dir, d0, lo, deviceOffset)
      ensures RunEnds(c, g, dir, d0, lo, mid, deviceOffset, deviceOffset)
    {
      hide Logged;
      TornRunEnds(c, g, dir, d0, lo, deviceOffset, mid, deviceOffset, deviceOffset);
    }

    /** No data of `d0` is lost: it can be had by going on from the log, or it has all been moved, which the log
        says too. */
    ghost predicate Kept(d0: seq<Cell>) reads this, disk {
      && |d0| == disk.Length && g.Fits(d0) && g.size <= g.oldLen
      && (Recoverable(c, g, dir, d0, disk[..], log)
          || (inProgress && log == RunEnd() && AllMoved(d0, disk[..])))
    }

    ghost predicate AllMoved(d0: seq<Cell>, d: seq<Cell>)
      requires g.Fits(d0) && |d| == |d0| && g.size <= g.oldLen
    {
      forall x :: 0 <= x < g.size ==> New(c, g, d, x) == Old(c, g, d0, x)
    }

    /** The tool started again and again, each time from what the log file says, until a run gets through or the
        attempts are used up. With a log entry for each block and a block size up to the distance of the two
        views, no error, signal or power loss on the way costs any data, be it in the copy or in the wipe. */
    method Reencrypt(attempts: nat) returns (finished: bool)
      requires Valid() && deviceSize == g.size < U64 && shift < U64
      requires log == Start(g, dir)
      requires L.GoodUuid(uuid) && '\0' !in uuid
      requires c.Valid() && writeLogEach && blockSize <= g.Distance()
      modifies disk, this
      ensures Valid() && Kept(old(disk[..]))
      ensures finished ==> forall x :: 0 <= x < deviceSize ==> New(c, g, disk[..], x) == Old(c, g, old(disk[..]), x)
      ensures GetsThrough(Start(g, dir)) && old(faults) < attempts ==> finished
      ensures finished && mode.Decrypt? && faults == old(faults) ==>
                forall x :: g.oldLen <= x < g.newLen ==> New(c, g, disk[..], x) == 0
    {
      hide RunEnds, InFlight, Recoverable, Recrypted, New, Old, Zeroed, AllMoved, ZeroedOutside, MovedTo, Logged,
        BlocksFit;
      ghost var d0 := disk[..];
      StartRecoverable(d0);
      finished := false;
      for i := 0 to attempts
        invariant Valid() && Kept(d0) && log <= g.size && !finished
        invariant !inProgress ==> log == Start(g, dir)
        invariant faults <= old(faults)
        invariant GetsThrough(Start(g, dir)) ==> faults + i <= old(faults) && GetsThrough(log)
      {
        quit := false;
        var ok := ReadLog();
        if ok {
          if !inProgress && directionNo == 1 {
            // the copy itself finds out where the end is
            deviceOffset := U64 - 1;
          }
          ghost var before, lo := disk[..], RunStart();
          var o, started, moved, clean, mid, front := CopyData();
          inProgress := true;
          RunKeeps(d0, before, lo, started, moved, mid, front);
          if o.Finished? {
            finished := true;
            if mode.Decrypt? && faults == old(faults) && g.oldLen < g.newLen {
              ClearedReads(mid);
            }
            break;
          }
        }
      }
      if finished {
        MovedIsAll(d0, disk[..]);
      }
    }

    /** Open the log and take the direction, the mode and the offset from it, as an interrupted copy does. */
    method ReadLog() returns (ok: bool)
      requires Valid() && log < U64 && shift < U64 && L.GoodUuid(uuid) && '\0' !in uuid
      modifies this`directionNo, this`modeNo, this`deviceOffset, this`faults
      ensures Valid() && faults == if ok then old(faults) else old(faults) - 1
      ensures ok ==> deviceOffset == log
      ensures !ok ==> deviceOffset == old(deviceOffset)
    {
      hide L.Parsed, L.CString, L.ReadInto, L.GoodUuid;
      var lc := new L.LogContext(Some(uuid), logFile, faults);
      assert ReadAs(lc.logBuf[..], lc.State());
      var r := lc.ParseLog();
      ok, faults := r == 0, lc.faults;
      if ok {
        directionNo, modeNo, deviceOffset := lc.direction, lc.mode, lc.deviceOffset;
      }
    }

    /** What was cleared reads as zeros through the new view. */
    lemma ClearedReads(mid: seq<Cell>)
      requires Valid() && c.Valid() && g.oldLen < g.newLen
      requires disk[..] == Zeroed(c, g, mid, g.oldLen, g.newLen - g.oldLen)
      ensures forall x :: g.oldLen <= x < g.newLen ==> New(c, g, disk[..], x) == 0
    {
      hide Logged;
      forall x | g.oldLen <= x < g.newLen
        ensures New(c, g, disk[..], x) == 0
      {
        assert disk[..][g.dst + x] == c.encNew(x, 0);
      }
    }

    lemma StartRecoverable(d0: seq<Cell>)
      requires Valid() && d0 == disk[..] && g.size <= g.oldLen && log == Start(g, dir)
      ensures Kept(d0)
    {
      hide Logged;
    }

    lemma MovedIsAll(d0: seq<Cell>, d: seq<Cell>)
      requires g.Fits(d0) && |d| == |d0| && g.size <= g.oldLen && AllMoved(d0, d)
      ensures forall x :: 0 <= x < g.size ==> New(c, g, d, x) == Old(c, g, d0, x)
    {
    }

    /** A run that began when everything had been moved leaves the disk as it is. */
    lemma NothingToMove(before: seq<Cell>, mid: seq<Cell>, front: nat)
      requires Valid() && |before| == |mid| == disk.Length && g.Fits(before)
      requires RunEnds(c, g, dir, before, RunEnd(), mid, log, front)
      ensures mid == before && log == RunEnd()
    {
      hide Logged;
      assert Recrypted(c, g, before, RunEnd(), RunEnd()) == before;
    }

    /** A run that got through from a recoverable state has moved everything. */
    lemma MovedFrom(d0: seq<Cell>, before: seq<Cell>, lo: nat, mid: seq<Cell>)
      requires c.Valid() && g.Fits(d0) && |before| == |d0| && g.Suits(dir) && g.size <= g.oldLen && lo <= g.size
      requires Recoverable(c, g, dir, d0, before, lo) || (lo == RunEnd() && AllMoved(d0, before))
      requires mid == MovedTo(c, g, dir, before, lo, RunEnd())
      ensures |mid| == |d0| && AllMoved(d0, mid)
    {
      hide Logged;
      if Recoverable(c, g, dir, d0, before, lo) {
        assert mid == Recrypted(c, g, d0, 0, g.size);
      } else {
        assert mid == before;
      }
    }

    /** Clearing what lies behind the data leaves the data alone. */
    lemma ClearingKeeps(d0: seq<Cell>, mid: seq<Cell>)
      requires Valid() && g.Fits(d0) && |mid| == |d0| && g.size <= g.oldLen && AllMoved(d0, mid)
      requires ClearedOnly(disk[..], mid, g.oldLen)
      ensures |d0| == disk.Length && AllMoved(d0, disk[..])
    {
      hide Logged;
      var n: nat, end: nat :| end <= g.newLen && ZeroedOutside(disk[..], mid, g.oldLen, n, end);
      forall x | 0 <= x < g.size
        ensures New(c, g, disk[..], x) == Old(c, g, d0, x)
      {
        assert New(c, g, mid, x) == Old(c, g, d0, x);
        assert disk[..][g.dst + x] == Zeroed(c, g, mid, g.oldLen, n)[g.dst + x] == mid[g.dst + x];
      }
    }

    /** Whatever a run does, the data is kept; one that got through has moved it. */
    lemma RunKeeps(d0: seq<Cell>, before: seq<Cell>, lo: nat, started: bool, moved: bool, mid: seq<Cell>, front: nat)
      requires Valid() && c.Valid() && inProgress && g.size <= g.oldLen && lo <= g.size
      requires g.Fits(d0) && |before| == |d0| == disk.Length
      requires Recoverable(c, g, dir, d0, before, lo) || (lo == RunEnd() && AllMoved(d0, before))
      requires !started ==> disk[..] == before && log == lo && !moved
      requires started ==> RunEnds(c, g, dir, before, lo, mid, log, front)
      requires started ==> InFlightSize(dir, log, front) <= g.Distance()
      requires started && !moved ==> disk[..] == mid
      requires moved ==> started && mid == MovedTo(c, g, dir, before, lo, RunEnd()) && log == RunEnd()
      requires moved ==> ClearedOnly(disk[..], mid, g.oldLen)
      ensures Kept(d0) && log <= g.size
      ensures moved ==> AllMoved(d0, disk[..])
    {
      hide RunEnds, InFlight, Recrypted, New, Old, Zeroed, AllMoved, ZeroedOutside, MovedTo, Logged;
      if moved {
        MovedFrom(d0, before, lo, mid);
        ClearingKeeps(d0, mid);
      } else if started {
        if Recoverable(c, g, dir, d0, before, lo) {
          StopKeepsRecoverable(c, g, dir, d0, before, lo, Stop(mid, log, front));
        } else {
          RunLength(before, lo, mid, front);
          NothingToMove(before, mid, front);
        }
      }
    }

    lemma RunLength(before: seq<Cell>, lo: nat, mid: seq<Cell>, front: nat)
      requires RunEnds(c, g, dir, before, lo, mid, log, front)
      ensures |mid| == |before|
    {
    }
  }
}
