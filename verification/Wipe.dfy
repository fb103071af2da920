/** Overwriting a device range piece by piece. */
module Wipe {
  import opened BlockIo
  import opened Bytes

  const OFF_MAX := 0x8000_0000_0000_0000

  datatype Pattern = Zero | Random | EncryptedZero | Special

  function Zeros(n: nat): (r: seq<byte>)
    ensures |r| == n && forall i :: 0 <= i < n ==> r[i] == 0
  {
    seq(n, i => 0)
  }

  predicate OutsideSame(d': seq<byte>, d: seq<byte>, lo: nat, hi: nat) {
    |d'| == |d| && forall i :: 0 <= i < |d| && !(lo <= i < hi) ==> d'[i] == d[i]
  }

  /** Where the wipe ends, in 64-bit arithmetic; no length means up to the end of the device. */
  function WipeEnd(size: nat, offset: nat, length: nat): nat {
    if length == 0 then size else (offset + length) % U64
  }

  /** The random number generator: `drawn` is what it has given out, `faults` how often it may still fail. */
  class Generator {
    ghost var drawn: seq<seq<byte>>
    var faults: nat

    constructor (faults: nat)
      ensures drawn == [] && this.faults == faults
    {
      this.drawn, this.faults := [], faults;
    }

    method Fill(sf: array<byte>, n: nat) returns (ok: bool)
      requires n <= sf.Length
      modifies this, sf
      ensures drawn == if ok then old(drawn) + [sf[..n]] else old(drawn)
      ensures faults == if ok then old(faults) else old(faults) - 1
    {
      var fault := *;
      ok := !(fault && faults > 0);
      var noise: nat -> byte := *;
      forall i | 0 <= i < n {
        sf[i] := noise(i);
      }
      if ok {
        drawn := drawn + [sf[..n]];
      } else {
        faults := faults - 1;
      }
    }
  }

  // The special wipe: forty passes over one piece

  /** The bytes that the pattern passes repeat. */
  const WRITE_MODES: seq<(byte, byte, byte)> :=
    [(0x55, 0x55, 0x55), (0xaa, 0xaa, 0xaa), (0x92, 0x49, 0x24),
     (0x49, 0x24, 0x92), (0x24, 0x92, 0x49), (0x00, 0x00, 0x00),
     (0x11, 0x11, 0x11), (0x22, 0x22, 0x22), (0x33, 0x33, 0x33),
     (0x44, 0x44, 0x44), (0x55, 0x55, 0x55), (0x66, 0x66, 0x66),
     (0x77, 0x77, 0x77), (0x88, 0x88, 0x88), (0x99, 0x99, 0x99),
     (0xaa, 0xaa, 0xaa), (0xbb, 0xbb, 0xbb), (0xcc, 0xcc, 0xcc),
     (0xdd, 0xdd, 0xdd), (0xee, 0xee, 0xee), (0xff, 0xff, 0xff),
     (0x92, 0x49, 0x24), (0x49, 0x24, 0x92), (0x24, 0x92, 0x49),
     (0x6d, 0xb6, 0xdb), (0xb6, 0xdb, 0x6d), (0xdb, 0x6d, 0xb6)]

  /** Whole triples of a pattern; what is left of the buffer keeps its bytes. */
  ghost predicate Patterned(s': seq<byte>, s: seq<byte>, mode: (byte, byte, byte)) {
    |s'| == |s| && forall j {:trigger s'[j]} :: 0 <= j < |s| ==>
      s'[j] == if j >= |s| / 3 * 3 then s[j] else if j % 3 == 0 then mode.0 else if j % 3 == 1 then mode.1 else mode.2
  }

  predicate RandomPass(i: nat) { i < 5 || 32 <= i < 38 || i == 39 }

  /** What each pass has left on the device. */
  ghost predicate Passes(passes: seq<seq<byte>>, size: nat) {
    && (forall i :: 0 <= i < |passes| ==> |passes[i]| == size)
    && (forall i :: 5 <= i < 32 && i < |passes| ==> Patterned(passes[i], passes[i - 1], WRITE_MODES[i - 5]))
    && (38 < |passes| ==> forall j :: 0 <= j < size ==> passes[38][j] == 0xff)
  }

  /** The passes that came from the generator. */
  function RandomPasses(passes: seq<seq<byte>>): seq<seq<byte>> {
    passes[..Min(5, |passes|)] + (passes[Min(32, |passes|)..Min(38, |passes|)] + passes[Min(39, |passes|)..])
  }

  lemma OneMorePass(passes: seq<seq<byte>>, p: seq<byte>)
    requires |passes| < 40
    ensures RandomPasses(passes + [p]) == RandomPasses(passes) + (if RandomPass(|passes|) then [p] else [])
  {
    var n := |passes|;
    if n < 5 {
      assert RandomPasses(passes) == passes;
    } else if n < 32 {
      assert (passes + [p])[..5] == passes[..5];
    } else if n < 38 {
      assert (passes + [p])[..5] == passes[..5] && (passes + [p])[32..] == passes[32..] + [p];
    } else {
      assert (passes + [p])[..5] == passes[..5] && (passes + [p])[32..38] == passes[32..38];
    }
  }

  /** wipeSpecial. */
  method WipePattern(sf: array<byte>, n: nat, turn: nat)
    requires n <= sf.Length && turn < |WRITE_MODES|
    modifies sf
    ensures Patterned(sf[..n], old(sf[..n]), WRITE_MODES[turn])
  {
    var mode := WRITE_MODES[turn];
    for i := 0 to n / 3
      invariant forall j :: 0 <= j < i ==> sf[3 * j] == mode.0 && sf[3 * j + 1] == mode.1 && sf[3 * j + 2] == mode.2
      invariant forall j :: 3 * i <= j < n ==> sf[j] == old(sf[j])
    {
      sf[3 * i], sf[3 * i + 1], sf[3 * i + 2] := mode.0, mode.1, mode.2;
    }
    forall j | 0 <= j < n / 3 * 3
      ensures sf[j] == if j % 3 == 0 then mode.0 else if j % 3 == 1 then mode.1 else mode.2
    {
      assert j == 3 * (j / 3) + j % 3;
    }
  }

  /** The buffer for one pass: random data, a pattern, or ones. */
  method FillPass(rng: Generator, sf: array<byte>, size: nat, i: nat) returns (ok: bool)
    requires i < 40 && size <= sf.Length
    modifies rng, sf
    ensures rng.faults == if ok then old(rng.faults) else old(rng.faults) - 1
    ensures rng.drawn == old(rng.drawn) + (if ok && RandomPass(i) then [sf[..size]] else [])
    ensures 5 <= i < 32 ==> Patterned(sf[..size], old(sf[..size]), WRITE_MODES[i - 5])
    ensures i == 38 ==> forall j :: 0 <= j < size ==> sf[j] == 0xff
  {
    hide Patterned;
    ok := true;
    if RandomPass(i) {
      ok := rng.Fill(sf, size);
    } else if i < 32 {
      WipePattern(sf, size, i - 5);
    } else {
      forall j | 0 <= j < size {
        sf[j] := 0xff;
      }
    }
  }

  /** One pass over a piece. */
  method WipePass(dev: Device, bsize: nat, rng: Generator, sf: array<byte>, offset: nat, size: nat, i: nat)
    returns (r: int)
    requires bsize > 0 && |dev.data| % bsize == 0 && dev.pos <= |dev.data| && 0 < size <= sf.Length && i < 40
    modifies dev, rng, sf
    ensures dev.pos <= |dev.data| && OutsideSame(dev.data, old(dev.data), offset, offset + size)
    ensures r == 0 || r == -EIO
    ensures r == 0 ==> offset + size <= |dev.data| && dev.data == Pwrite(old(dev.data), offset, sf[..size])
    ensures r == 0 ==> rng.drawn == old(rng.drawn) + (if RandomPass(i) then [sf[..size]] else [])
    ensures old(rng.drawn) <= rng.drawn
    ensures 5 <= i < 32 ==> Patterned(sf[..size], old(sf[..size]), WRITE_MODES[i - 5])
    ensures i == 38 ==> forall j :: 0 <= j < size ==> sf[j] == 0xff
    ensures rng.faults <= old(rng.faults) && (NoFault(old(dev.script)) ==> NoFault(dev.script))
    ensures old(rng.faults) == 0 && NoFault(old(dev.script)) && offset + size <= |dev.data| ==> r == 0
  {
    hide NoFault, Patterned, RandomPass;
    var ok := FillPass(rng, sf, size, i);
    if !ok {
      return -EIO;
    }
    assert |sf[..size]| == size;
    var written := WriteLseekBlockwise(dev, bsize, sf[..size], offset);
    r := if written == size then 0 else -EIO;
  }

  /** crypt_wipe_special: forty passes over one piece, of which the last stays. */
  method WipeSpecial(dev: Device, bsize: nat, rng: Generator, sf: array<byte>, offset: nat, size: nat)
    returns (r: int, ghost passes: seq<seq<byte>>)
    requires bsize > 0 && |dev.data| % bsize == 0 && dev.pos <= |dev.data| && 0 < size <= sf.Length
    modifies dev, rng, sf
    ensures dev.pos <= |dev.data| && OutsideSame(dev.data, old(dev.data), offset, offset + size)
    ensures r == 0 || r == -EIO
    ensures old(rng.drawn) <= rng.drawn
    ensures r == 0 ==> |passes| == 40 && Passes(passes, size) && rng.drawn == old(rng.drawn) + RandomPasses(passes)
    ensures r == 0 ==> offset + size <= |dev.data| && dev.data == Pwrite(old(dev.data), offset, passes[39])
    ensures rng.faults <= old(rng.faults) && (NoFault(old(dev.script)) ==> NoFault(dev.script))
    ensures old(rng.faults) == 0 && NoFault(old(dev.script)) && offset + size <= |dev.data| ==> r == 0
  {
    hide NoFault, Patterned, RandomPass, RandomPasses, Pwrite;
    passes, r := [], 0;
    NoPasses(size);
    assert rng.drawn + [] == rng.drawn;
    var i := 0;
    while i < 40
      invariant 0 <= i <= 40 && dev.pos <= |dev.data| == |old(dev.data)|
      invariant OutsideSame(dev.data, old(dev.data), offset, offset + size)
      invariant |passes| == i && Passes(passes, size) && rng.drawn == old(rng.drawn) + RandomPasses(passes)
      invariant i > 0 ==> passes[i - 1] == sf[..size] && offset + size <= |dev.data|
      invariant if i == 0 then dev.data == old(dev.data) else dev.data == Pwrite(old(dev.data), offset, sf[..size])
      invariant rng.faults <= old(rng.faults) && (NoFault(old(dev.script)) ==> NoFault(dev.script))
    {
      ghost var before, data, drawn := sf[..size], dev.data, RandomPasses(passes);
      r := WipePass(dev, bsize, rng, sf, offset, size, i);
      OutsideTwice(dev.data, data, old(dev.data), offset, offset + size);
      if r != 0 {
        return;
      }
      ghost var p := sf[..size];
      OneMorePass(passes, p);
      PassAdded(passes, p, size);
      if i > 0 {
        WrittenAgain(old(dev.data), offset, before, p);
      }
      assert (old(rng.drawn) + drawn) + [p] == old(rng.drawn) + (drawn + [p]);
      assert drawn + [] == drawn;
      passes := passes + [p];
      i := i + 1;
    }
  }

  lemma OutsideTwice(d2: seq<byte>, d1: seq<byte>, d0: seq<byte>, lo: nat, hi: nat)
    requires OutsideSame(d2, d1, lo, hi) && OutsideSame(d1, d0, lo, hi)
    ensures OutsideSame(d2, d0, lo, hi)
  {
  }

  lemma NoPasses(size: nat)
    ensures Passes([], size) && RandomPasses([]) == []
  {
  }

  lemma PassAdded(passes: seq<seq<byte>>, p: seq<byte>, size: nat)
    requires Passes(passes, size) && |p| == size && |passes| < 40
    requires 5 <= |passes| < 32 ==> Patterned(p, passes[|passes| - 1], WRITE_MODES[|passes| - 5])
    requires |passes| == 38 ==> forall j :: 0 <= j < size ==> p[j] == 0xff
    ensures Passes(passes + [p], size)
  {
    hide Patterned;
  }

  lemma WrittenAgain(d: seq<byte>, offset: nat, a: seq<byte>, b: seq<byte>)
    requires |a| == |b| && offset + |a| <= |d|
    ensures Pwrite(Pwrite(d, offset, a), offset, b) == Pwrite(d, offset, b)
  {
  }

  /** wipe_block for the sequential patterns: fill the buffer if need be and write it where the last piece
      ended. */
  method WipeBlock(dev: Device, bsize: nat, pattern: Pattern, rng: Generator, sf: array<byte>, size: nat,
                   needInit: bool)
    returns (r: int, needInit': bool)
    requires !pattern.Special? && bsize > 0 && |dev.data| % bsize == 0
    requires dev.pos % bsize == 0 && dev.pos <= |dev.data| && 0 < size <= sf.Length
    requires if pattern.Zero? then needInit || sf[..size] == Zeros(size) else needInit
    modifies dev, rng, sf
    ensures dev.pos <= |dev.data| && OutsideSame(dev.data, old(dev.data), old(dev.pos), old(dev.pos) + size)
    ensures r == 0 || r == -EIO
    ensures r == 0 ==> old(dev.pos) + size <= |dev.data| && (size % bsize == 0 ==> dev.pos == old(dev.pos) + size)
    ensures r == 0 ==> dev.data == Pwrite(old(dev.data), old(dev.pos), sf[..size])
    ensures r == 0 ==> rng.drawn == old(rng.drawn) + (if pattern.Zero? then [] else [sf[..size]])
    ensures old(rng.drawn) <= rng.drawn
    ensures pattern.Zero? ==>
              && sf[..size] == Zeros(size) && !needInit'
              && PartlyWritten(dev.data, old(dev.data), old(dev.pos), Zeros(size))
    ensures !pattern.Zero? ==> needInit'
    ensures rng.faults <= old(rng.faults) && (NoFault(old(dev.script)) ==> NoFault(dev.script))
    ensures old(rng.faults) == 0 && NoFault(old(dev.script)) && old(dev.pos) + size <= |dev.data| ==> r == 0
  {
    hide NoFault;
    needInit' := needInit;
    if needInit {
      if pattern.Zero? {
        forall i | 0 <= i < size {
          sf[i] := 0;
        }
        needInit' := false;
      } else {
        var ok := rng.Fill(sf, size);
        if !ok {
          return -EIO, needInit';
        }
      }
    }
    assert pattern.Zero? ==> sf[..size] == Zeros(size);
    assert |sf[..size]| == size;
    var n := WriteBlockwise(dev, bsize, sf[..size]);
    r := if n == size then 0 else -EIO;
  }

  // The whole range

  function Joined(parts: seq<seq<byte>>): seq<byte> {
    if parts == [] then [] else Joined(parts[..|parts| - 1]) + parts[|parts| - 1]
  }

  /** The last of every twelve. */
  function JoinedLasts(parts: seq<seq<byte>>): seq<byte> {
    if |parts| < 12 then [] else JoinedLasts(parts[..|parts| - 12]) + parts[|parts| - 1]
  }

  /** What `n` bytes that were wiped with a pattern hold, given what the generator has given out meanwhile: zeros,
      its output piece by piece, or of the twelve random passes over each piece the last. */
  function Content(pattern: Pattern, drawn: seq<seq<byte>>, n: nat): seq<byte> {
    match pattern
    case Zero => Zeros(n)
    case Special => JoinedLasts(drawn)
    case _ => Joined(drawn)
  }

  /** What a wipe that came as far as `reached` leaves. */
  ghost predicate WipedUpTo(d': seq<byte>, d: seq<byte>, offset: nat, reached: nat, pattern: Pattern,
                            drawn: seq<seq<byte>>)
  {
    && offset <= reached <= |d| && |Content(pattern, drawn, reached - offset)| == reached - offset
    && d' == Pwrite(d, offset, Content(pattern, drawn, reached - offset))
  }

  /** One piece more. `more` is what the generator gave out for it. */
  lemma WipeOn(d2: seq<byte>, d1: seq<byte>, d0: seq<byte>, lo: nat, mid: nat, piece: seq<byte>, pattern: Pattern,
               drawn: seq<seq<byte>>, more: seq<seq<byte>>)
    requires WipedUpTo(d1, d0, lo, mid, pattern, drawn)
    requires mid + |piece| <= |d1| && d2 == Pwrite(d1, mid, piece) && Content(pattern, more, |piece|) == piece
    requires pattern.Special? ==> |more| == 12
    requires pattern.Random? || pattern.EncryptedZero? ==> |more| == 1
    ensures WipedUpTo(d2, d0, lo, mid + |piece|, pattern, drawn + more)
  {
    var so := Content(pattern, drawn, mid - lo);
    PwriteTwice(d0, lo, so, piece);
    match pattern {
      case Zero =>
        assert Zeros(mid - lo) + Zeros(|piece|) == Zeros(mid + |piece| - lo);
      case Special =>
        LastsOn(drawn, more);
      case _ =>
        JoinedOn(drawn, more[0]);
        assert more == [more[0]];
    }
  }

  lemma JoinedOn(drawn: seq<seq<byte>>, p: seq<byte>)
    ensures Joined(drawn + [p]) == Joined(drawn) + p && Joined([p]) == p
  {
    assert (drawn + [p])[..|drawn|] == drawn && [p][..0] == [] && [] + p == p;
  }

  lemma LastsOn(drawn: seq<seq<byte>>, more: seq<seq<byte>>)
    requires |more| == 12
    ensures JoinedLasts(drawn + more) == JoinedLasts(drawn) + more[11] && JoinedLasts(more) == more[11]
  {
    assert (drawn + more)[..|drawn|] == drawn && more[..0] == [] && [] + more[11] == more[11];
  }

  /** What a wipe with zeros that came as far as `reached` leaves. */
  ghost predicate ZeroedUpTo(d': seq<byte>, d: seq<byte>, offset: nat, reached: nat) {
    offset <= reached <= |d| && d' == Pwrite(d, offset, Zeros(reached - offset))
  }

  lemma ZeroOn(d2: seq<byte>, d1: seq<byte>, d0: seq<byte>, lo: nat, mid: nat, n: nat, end: nat)
    requires ZeroedUpTo(d1, d0, lo, mid) && mid + n <= end && PartlyWritten(d2, d1, mid, Zeros(n))
    ensures PartlyWritten(d2, d0, lo, Zeros(end - lo))
  {
  }

  lemma ZeroWipe(d': seq<byte>, d: seq<byte>, offset: nat, reached: nat, drawn: seq<seq<byte>>)
    ensures WipedUpTo(d', d, offset, reached, Zero, drawn) <==> ZeroedUpTo(d', d, offset, reached)
  {
  }

  lemma OutsideBoth(d2: seq<byte>, d1: seq<byte>, d0: seq<byte>, lo: nat, mid: nat, hi: nat, end: nat)
    requires lo <= mid <= hi <= end && OutsideSame(d2, d1, mid, hi) && OutsideSame(d1, d0, lo, mid)
    ensures OutsideSame(d2, d0, lo, hi) && OutsideSame(d2, d0, lo, end)
  {
  }

  /** wipe_block. `more` is what the generator gave out for the piece. */
  method WipePiece(dev: Device, bsize: nat, pattern: Pattern, rng: Generator, sf: array<byte>, offset: nat, size: nat,
                   needInit: bool)
    returns (r: int, needInit': bool, ghost more: seq<seq<byte>>)
    requires bsize > 0 && |dev.data| % bsize == 0 && dev.pos <= |dev.data| && 0 < size <= sf.Length
    requires !pattern.Special? ==> dev.pos == offset && offset % bsize == 0
    requires if pattern.Zero? then needInit || sf[..size] == Zeros(size) else needInit
    modifies dev, rng, sf
    ensures dev.pos <= |dev.data| && OutsideSame(dev.data, old(dev.data), offset, offset + size)
    ensures r == 0 || r == -EIO
    ensures r == 0 ==> offset + size <= |dev.data|
                       && (!pattern.Special? && size % bsize == 0 ==> dev.pos == offset + size)
    ensures old(rng.drawn) <= rng.drawn
    ensures r == 0 ==> rng.drawn == old(rng.drawn) + more && |Content(pattern, more, size)| == size
                       && dev.data == Pwrite(old(dev.data), offset, Content(pattern, more, size))
    ensures r == 0 && pattern.Special? ==> |more| == 12
    ensures r == 0 && (pattern.Random? || pattern.EncryptedZero?) ==> |more| == 1
    ensures pattern.Zero? ==> sf[..size] == Zeros(size) && !needInit'
                              && PartlyWritten(dev.data, old(dev.data), offset, Zeros(size))
    ensures !pattern.Zero? ==> needInit'
    ensures rng.faults <= old(rng.faults) && (NoFault(old(dev.script)) ==> NoFault(dev.script))
    ensures old(rng.faults) == 0 && NoFault(old(dev.script)) && offset + size <= |dev.data| ==> r == 0
  {
    hide NoFault, Passes, Pwrite, PartlyWritten, RandomPasses;
    more := [];
    if pattern.Special? {
      ghost var passes;
      r, passes := WipeSpecial(dev, bsize, rng, sf, offset, size);
      needInit' := needInit;
      if r == 0 {
        more := RandomPasses(passes);
        LastPass(passes, size);
      }
    } else {
      r, needInit' := WipeBlock(dev, bsize, pattern, rng, sf, size, needInit);
      more := if pattern.Zero? then [] else [sf[..size]];
      JoinedOn([], sf[..size]);
    }
  }

  lemma LastPass(passes: seq<seq<byte>>, size: nat)
    requires |passes| == 40 && Passes(passes, size)
    ensures |RandomPasses(passes)| == 12 && JoinedLasts(RandomPasses(passes)) == passes[39] && |passes[39]| == size
  {
    LastsOn([], RandomPasses(passes));
  }

  lemma NothingWiped(d: seq<byte>, offset: nat, pattern: Pattern)
    requires offset <= |d|
    ensures WipedUpTo(d, d, offset, offset, pattern, []) && OutsideSame(d, d, offset, offset)
  {
  }

  /** The loop of crypt_wipe_device. `reported` is the last offset given to `progress`. */
  method WipeLoop(dev: Device, bsize: nat, pattern: Pattern, rng: Generator, start: nat, end: nat, wipeBlock: nat,
                  hasProgress: bool)
    returns (r: int, reported: nat)
    requires bsize > 0 && |dev.data| % bsize == 0 && start % bsize == 0 && wipeBlock % bsize == 0 && wipeBlock > 0
    requires dev.pos == start <= |dev.data| && start < end
    modifies dev, rng
    ensures dev.pos <= |dev.data| && OutsideSame(dev.data, old(dev.data), start, end)
    ensures r == 0 || r == -EIO || (r == -EINTR && hasProgress)
    ensures old(rng.drawn) <= rng.drawn
    ensures var drawn := rng.drawn[|old(rng.drawn)|..];
            && (r == 0 ==> WipedUpTo(dev.data, old(dev.data), start, end, pattern, drawn))
            && (r == -EINTR ==> reported <= end && WipedUpTo(dev.data, old(dev.data), start, reported, pattern, drawn))
    ensures pattern.Zero? && r == -EIO ==> PartlyWritten(dev.data, old(dev.data), start, Zeros(end - start))
    ensures old(rng.faults) == 0 && NoFault(old(dev.script)) && end <= |dev.data| ==> r != -EIO
  {
    hide WipedUpTo, OutsideSame, PartlyWritten, NoFault, Content, Pwrite;
    ghost var d := dev.data;
    ghost var drawn: seq<seq<byte>> := [];
    NothingWiped(d, start, pattern);
    var sf := new byte[wipeBlock](i => 0);
    var offset, block, needInit := start, wipeBlock, true;
    reported := start;
    assert rng.drawn == old(rng.drawn) + drawn;
    while offset < end
      invariant start <= offset <= end && offset <= |d| == |dev.data| && dev.pos <= |d|
      invariant 0 < block <= wipeBlock && (offset < end ==> block == wipeBlock)
      invariant offset < end ==> offset % bsize == 0 && (!pattern.Special? ==> dev.pos == offset)
      invariant OutsideSame(dev.data, d, start, offset) && rng.drawn == old(rng.drawn) + drawn
      invariant WipedUpTo(dev.data, d, start, offset, pattern, drawn)
      invariant rng.faults <= old(rng.faults) && (NoFault(old(dev.script)) ==> NoFault(dev.script))
      invariant pattern.Zero? && !needInit && offset < end ==> sf[..wipeBlock] == Zeros(wipeBlock)
      invariant !pattern.Zero? ==> needInit
      decreases end - offset
    {
      if offset + block > end {
        block := end - offset;
      }
      ghost var before := dev.data;
      ghost var more;
      assert pattern.Zero? && !needInit ==> sf[..block] == sf[..wipeBlock][..block] == Zeros(block);
      r, needInit, more := WipePiece(dev, bsize, pattern, rng, sf, offset, block, needInit);
      OutsideBoth(dev.data, before, d, start, offset, offset + block, end);
      if r != 0 {
        if pattern.Zero? {
          ZeroWipe(before, d, start, offset, drawn);
          ZeroOn(dev.data, before, d, start, offset, block, end);
        }
        return;
      }
      WipeOn(dev.data, before, d, start, offset, Content(pattern, more, block), pattern, drawn, more);
      assert (old(rng.drawn) + drawn) + more == old(rng.drawn) + (drawn + more);
      drawn := drawn + more;
      BlockSums(offset, wipeBlock, bsize);
      offset := offset + block;
      assert rng.drawn[|old(rng.drawn)|..] == drawn;
      if hasProgress {
        reported := offset;
        var stop := *;
        if stop {
          return -EINTR, reported;
        }
      }
    }
    r := 0;
  }

  /** The arguments that crypt_wipe_device does not refuse. */
  predicate Accepted(bsize: nat, offset: nat, length: nat, wipeBlock: nat) {
    bsize > 0 && wipeBlock > 0 && offset % 512 == 0 && length % 512 == 0 && wipeBlock % 512 == 0
  }

  lemma EndOf(size: nat, offset: nat, length: nat)
    requires offset < U64 && 0 < length < U64
    ensures WipeEnd(size, offset, length) == if offset + length < U64 then offset + length else offset + length - U64
    ensures offset + length >= U64 ==> WipeEnd(size, offset, length) < offset
  {
    if offset + length >= U64 {
      QuotientIs(offset + length, U64, 1, offset + length - U64);
    } else {
      QuotientIs(offset + length, U64, 0, offset + length);
    }
  }

  /** crypt_wipe_device. `memory` says whether the buffer can be allocated; the error for that is positive. A
      range that does not wrap around 64 bits is wiped or the call fails; one that does is not wiped and the call
      succeeds. The special pattern is for rotational devices; others get random data instead. */
  method WipeDevice(dev: Device, bsize: nat, pattern: Pattern, rng: Generator, offset: nat, length: nat, wipeBlock: nat,
                    hasProgress: bool, rotational: bool, memory: bool)
    returns (r: int, reported: nat)
    requires bsize > 0 ==> |dev.data| % bsize == 0 && offset % bsize == 0 && wipeBlock % bsize == 0
    requires |dev.data| < OFF_MAX && offset < U64 && length < U64 && dev.pos <= |dev.data|
    requires memory ==> wipeBlock < OFF_MAX
    modifies dev, rng
    ensures |dev.data| == |old(dev.data)| && old(rng.drawn) <= rng.drawn
    ensures r == 0 || r == -EIO || r == -EINTR || r == -EINVAL || r == ENOMEM
    ensures r == -EINVAL || r == ENOMEM ==> dev.data == old(dev.data)
    ensures r == ENOMEM ==> !memory
    ensures r == -EINTR ==> hasProgress
    ensures r == 0 ==> Accepted(bsize, offset, length, wipeBlock)
    ensures var used := if pattern.Special? && !rotational then Random else pattern;
            var drawn := rng.drawn[|old(rng.drawn)|..];
            && (r == 0 && length > 0 && offset + length < U64 ==>
                  WipedUpTo(dev.data, old(dev.data), offset, offset + length, used, drawn))
            && (r == 0 && length == 0 ==> WipedUpTo(dev.data, old(dev.data), offset, |dev.data|, used, drawn))
            && (r == -EINTR ==> WipedUpTo(dev.data, old(dev.data), offset, reported, used, drawn))
    ensures Accepted(bsize, offset, length, wipeBlock) && memory && !hasProgress ==>
              (length > 0 && offset + length >= U64 && offset <= |dev.data| ==> r == 0)
    ensures Accepted(bsize, offset, length, wipeBlock) && memory && !hasProgress
            && old(rng.faults) == 0 && NoFault(old(dev.script)) ==>
              (length > 0 && offset + length <= |dev.data| ==> r == 0)
              && (length == 0 && offset < |dev.data| ==> r == 0)
    ensures length > 0 && offset + length >= U64 ==> dev.data == old(dev.data)
    ensures var end := WipeEnd(|old(dev.data)|, offset, length);
            && OutsideSame(dev.data, old(dev.data), offset, end)
            && (r == 0 && offset < end ==> end <= |dev.data|)
            && (r == 0 && offset >= end ==> dev.data == old(dev.data))
            && (r == -EINTR ==> reported <= end)
            && (pattern.Zero? && r == -EIO ==>
                  offset < end && PartlyWritten(dev.data, old(dev.data), offset, Zeros(end - offset)))
  {
    hide PartlyWritten, NoFault, Content, Pwrite;
    reported := offset;
    if bsize == 0 || wipeBlock == 0 {
      return -EINVAL, reported;
    }
    if offset % 512 != 0 || length % 512 != 0 || wipeBlock % 512 != 0 {
      return -EINVAL, reported;
    }
    var end: nat;
    if length > 0 {
      EndOf(|dev.data|, offset, length);
      end := (offset + length) % U64;
    } else {
      end := |dev.data|;
      if end <= offset {
        return -EINVAL, reported;
      }
    }
    if !memory {
      return ENOMEM, reported;
    }
    var ok := dev.Lseek(offset);
    if !ok {
      return -EINVAL, reported;
    }
    var refused := *;
    if hasProgress && refused {
      return -EINVAL, reported;
    }
    var used := if pattern.Special? && !rotational then Random else pattern;
    if offset < end {
      r, reported := WipeLoop(dev, bsize, used, rng, offset, end, wipeBlock, hasProgress);
    } else {
      r := 0;
    }
  }
}
