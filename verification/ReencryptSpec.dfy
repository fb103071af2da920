/** Moving a device from its old to its new encryption in place: two views of one disk, and what any
    chain of interrupted, crashed and resumed copy runs does to it. */
module ReencryptSpec {

  type Cell = int

  datatype Direction = Forward | Backward

  /** The two ciphers, one bijection per position each. */
  datatype Ciphers = Ciphers(
    encOld: (nat, Cell) -> Cell, decOld: (nat, Cell) -> Cell,
    encNew: (nat, Cell) -> Cell, decNew: (nat, Cell) -> Cell)
  {
    ghost predicate Valid() {
      && (forall x: nat, v: Cell :: decOld(x, encOld(x, v)) == v && encOld(x, decOld(x, v)) == v)
      && (forall x: nat, v: Cell :: decNew(x, encNew(x, v)) == v && encNew(x, decNew(x, v)) == v)
    }
  }

  /** Where the old and the new view lie on the disk, and how much data has to move. */
  datatype Geometry = Geometry(src: nat, oldLen: nat, dst: nat, newLen: nat, size: nat) {
    ghost predicate Fits(d: seq<Cell>) {
      src + oldLen <= |d| && dst + newLen <= |d| && size <= newLen
    }

    /** The copy runs away from data that it still has to read. */
    ghost predicate Suits(dir: Direction) {
      if dir.Forward? then dst <= src else src <= dst
    }

    function Distance(): nat {
      if dst <= src then src - dst else dst - src
    }
  }

  ghost function Old(c: Ciphers, g: Geometry, d: seq<Cell>, x: nat): Cell
    requires g.src + x < |d|
  {
    c.decOld(x, d[g.src + x])
  }

  ghost function New(c: Ciphers, g: Geometry, d: seq<Cell>, x: nat): Cell
    requires g.dst + x < |d|
  {
    c.decNew(x, d[g.dst + x])
  }

  /** The disk after the positions [lo, hi) of the old view were copied to the new one. */
  ghost function Recrypted(c: Ciphers, g: Geometry, d: seq<Cell>, lo: nat, hi: nat): (r: seq<Cell>)
    requires lo <= hi && g.src + hi <= |d| && g.dst + hi <= |d|
    ensures |r| == |d|
    ensures forall p {:trigger r[p]} :: 0 <= p < |d| ==>
              r[p] == if g.dst + lo <= p < g.dst + hi then c.encNew(p - g.dst, Old(c, g, d, p - g.dst)) else d[p]
  {
    seq(|d|, p requires 0 <= p < |d| =>
      if g.dst + lo <= p < g.dst + hi then c.encNew(p - g.dst, Old(c, g, d, p - g.dst)) else d[p])
  }

  /** The plain text of the positions [from, from + n) in the old view. */
  ghost function OldSlice(c: Ciphers, g: Geometry, d: seq<Cell>, from: nat, n: nat): (r: seq<Cell>)
    requires g.src + from + n <= |d|
    ensures |r| == n
    ensures forall i {:trigger r[i]} :: 0 <= i < n ==> r[i] == Old(c, g, d, from + i)
  {
    seq(n, i requires 0 <= i < n => Old(c, g, d, from + i))
  }

  lemma OldSliceAppend(c: Ciphers, g: Geometry, d: seq<Cell>, from: nat, m: nat, n: nat)
    requires g.src + from + m + n <= |d|
    ensures OldSlice(c, g, d, from, m + n) == OldSlice(c, g, d, from, m) + OldSlice(c, g, d, from + m, n)
  {
  }

  /** The moved part when the copy stands at `k`, and the part that is left. */
  function MovedLo(dir: Direction, k: nat): nat { if dir.Forward? then 0 else k }
  function MovedHi(g: Geometry, dir: Direction, k: nat): nat { if dir.Forward? then k else g.size }
  function LeftLo(dir: Direction, k: nat): nat { if dir.Forward? then k else 0 }
  function LeftHi(g: Geometry, dir: Direction, k: nat): nat { if dir.Forward? then g.size else k }

  /** Copying on, in the right direction, is the same as having copied in one go. */
  lemma CopyOn(c: Ciphers, g: Geometry, dir: Direction, d: seq<Cell>, lo: nat, mid: nat, hi: nat)
    requires lo <= mid <= hi <= g.oldLen && hi <= g.size && g.Fits(d) && g.Suits(dir)
    ensures dir.Forward? ==>
              Recrypted(c, g, Recrypted(c, g, d, lo, mid), mid, hi) == Recrypted(c, g, d, lo, hi)
    ensures dir.Backward? ==>
              Recrypted(c, g, Recrypted(c, g, d, mid, hi), lo, mid) == Recrypted(c, g, d, lo, hi)
  {
    var once := Recrypted(c, g, d, lo, hi);
    var twice := if dir.Forward? then Recrypted(c, g, Recrypted(c, g, d, lo, mid), mid, hi)
                 else Recrypted(c, g, Recrypted(c, g, d, mid, hi), lo, mid);
    forall p | 0 <= p < |d| ensures twice[p] == once[p] {
    }
    assert twice == once;
  }

  /** At every block boundary the offset separates moved from unmoved data. */
  lemma OffsetSeparates(c: Ciphers, g: Geometry, dir: Direction, d: seq<Cell>, k: nat, x: nat)
    requires c.Valid() && g.Fits(d) && g.size <= g.oldLen && g.Suits(dir) && k <= g.size && x < g.size
    ensures var d' := Recrypted(c, g, d, MovedLo(dir, k), MovedHi(g, dir, k));
            if MovedLo(dir, k) <= x < MovedHi(g, dir, k)
            then New(c, g, d', x) == Old(c, g, d, x)
            else Old(c, g, d', x) == Old(c, g, d, x)
  {
  }

  // ----- runs

  /** What a copy run may leave behind. It started on disk `d` with `log` in the log, and ended on disk
      `d'` with `log'`; it had written nothing beyond position `front`. Between `log'` and `front` the
      new view may hold anything: finished blocks, half of one, or garbage. */
  ghost predicate RunEnds(c: Ciphers, g: Geometry, dir: Direction, d: seq<Cell>, log: nat,
                          d': seq<Cell>, log': nat, front: nat)
  {
    && |d'| == |d| && g.Fits(d) && log <= g.size && g.size <= g.oldLen
    && (if dir.Forward? then log <= log' <= front <= g.size else front <= log' <= log)
    && var lo, hi := if dir.Forward? then log else log', if dir.Forward? then log' else log;
       forall p :: 0 <= p < |d| && !InFlight(g, dir, log', front, p) ==>
         d'[p] == Recrypted(c, g, d, lo, hi)[p]
  }

  ghost predicate InFlight(g: Geometry, dir: Direction, log: nat, front: nat, p: int) {
    if dir.Forward? then g.dst + log <= p < g.dst + front else g.dst + front <= p < g.dst + log
  }

  /** The disk of a run that started at `log` and has moved everything up to `k`. */
  ghost function MovedTo(c: Ciphers, g: Geometry, dir: Direction, d: seq<Cell>, log: nat, k: nat): seq<Cell>
    requires g.Fits(d) && g.size <= g.oldLen
    requires if dir.Forward? then log <= k <= g.size else k <= log <= g.size
  {
    if dir.Forward? then Recrypted(c, g, d, log, k) else Recrypted(c, g, d, k, log)
  }

  /** A run that has moved everything up to `k` and then wrote anything at all up to `front` is a run that
      may have ended so, whichever entry `log'` on the way its log still shows. */
  lemma TornRunEnds(c: Ciphers, g: Geometry, dir: Direction, d: seq<Cell>, log: nat, k: nat,
                    d': seq<Cell>, log': nat, front: nat)
    requires g.Fits(d) && |d'| == |d| && g.size <= g.oldLen
    requires if dir.Forward? then log <= log' <= k <= front <= g.size else front <= k <= log' <= log <= g.size
    requires forall p :: 0 <= p < |d| && !InFlight(g, dir, k, front, p) ==> d'[p] == MovedTo(c, g, dir, d, log, k)[p]
    ensures RunEnds(c, g, dir, d, log, d', log', front)
  {
  }

  function InFlightSize(dir: Direction, log: nat, front: nat): int {
    if dir.Forward? then front - log else log - front
  }

  datatype Stop = Stop(disk: seq<Cell>, log: nat, front: nat)

  function Start(g: Geometry, dir: Direction): nat { if dir.Forward? then 0 else g.size }

  /** A chain of runs, each resumed from the log the one before left. */
  ghost predicate Chain(c: Ciphers, g: Geometry, dir: Direction, d: seq<Cell>, log: nat, stops: seq<Stop>)
    decreases |stops|
  {
    stops == [] ||
    (&& RunEnds(c, g, dir, d, log, stops[0].disk, stops[0].log, stops[0].front)
     && InFlightSize(dir, stops[0].log, stops[0].front) <= g.Distance()
     && Chain(c, g, dir, stops[0].disk, stops[0].log, stops[1..]))
  }

  /** All data of `d0` can still be had from `d` with the log at `log`. */
  ghost predicate Recoverable(c: Ciphers, g: Geometry, dir: Direction, d0: seq<Cell>, d: seq<Cell>, log: nat) {
    && |d| == |d0| && g.Fits(d0) && log <= g.size <= g.oldLen
    && Recrypted(c, g, d, LeftLo(dir, log), LeftHi(g, dir, log)) == Recrypted(c, g, d0, 0, g.size)
  }

  /** A run that stops with no more than the distance in flight keeps everything recoverable. */
  lemma StopKeepsRecoverable(c: Ciphers, g: Geometry, dir: Direction, d0: seq<Cell>, d: seq<Cell>, log: nat, s: Stop)
    requires g.Suits(dir) && Recoverable(c, g, dir, d0, d, log)
    requires RunEnds(c, g, dir, d, log, s.disk, s.log, s.front)
    requires InFlightSize(dir, s.log, s.front) <= g.Distance()
    ensures Recoverable(c, g, dir, d0, s.disk, s.log)
  {
    var target := Recrypted(c, g, d, LeftLo(dir, log), LeftHi(g, dir, log));
    var again := Recrypted(c, g, s.disk, LeftLo(dir, s.log), LeftHi(g, dir, s.log));
    forall p | 0 <= p < |d| ensures again[p] == target[p] {
    }
    assert again == target;
  }

  ghost function LastDisk(d: seq<Cell>, stops: seq<Stop>): seq<Cell> {
    if stops == [] then d else stops[|stops| - 1].disk
  }

  ghost function LastLog(log: nat, stops: seq<Stop>): nat {
    if stops == [] then log else stops[|stops| - 1].log
  }

  lemma {:induction false} ChainKeepsRecoverable(c: Ciphers, g: Geometry, dir: Direction, d0: seq<Cell>,
                                                 d: seq<Cell>, log: nat, stops: seq<Stop>)
    requires g.Suits(dir) && Recoverable(c, g, dir, d0, d, log) && Chain(c, g, dir, d, log, stops)
    ensures Recoverable(c, g, dir, d0, LastDisk(d, stops), LastLog(log, stops))
    decreases |stops|
  {
    if stops != [] {
      StopKeepsRecoverable(c, g, dir, d0, d, log, stops[0]);
      ChainKeepsRecoverable(c, g, dir, d0, stops[0].disk, stops[0].log, stops[1..]);
    }
  }

  /** However often the copy was stopped, failed or lost power, with at most the distance in flight each
      time: a last run that gets through leaves the new view equal to the original old view. */
  lemma ChainRecovers(c: Ciphers, g: Geometry, dir: Direction, d: seq<Cell>, stops: seq<Stop>)
    requires c.Valid() && g.Fits(d) && g.size <= g.oldLen && g.Suits(dir)
    requires Chain(c, g, dir, d, Start(g, dir), stops)
    ensures var last, log := LastDisk(d, stops), LastLog(Start(g, dir), stops);
            && |last| == |d| && log <= g.size
            && forall x :: 0 <= x < g.size ==>
                 New(c, g, Recrypted(c, g, last, LeftLo(dir, log), LeftHi(g, dir, log)), x) == Old(c, g, d, x)
  {
    ChainKeepsRecoverable(c, g, dir, d, d, Start(g, dir), stops);
  }

  /** The part of the old view that blocks written up to `front` overwrite although the log at `log` still
      needs it: positions `y` whose cell is the new cell of position `Over(y)`. */
  ghost function Over(g: Geometry, dir: Direction, y: nat): int {
    if dir.Forward? then y + g.Distance() else y - g.Distance()
  }

  ghost predicate Clobbered(g: Geometry, dir: Direction, log: nat, front: nat, y: nat) {
    if dir.Forward? then log <= y && y + g.Distance() < front
    else y < log && front <= y - g.Distance()
  }

  /** Crashing with the log at `log` and every block up to `front` written loses data of disk `d`. */
  ghost predicate LosesData(c: Ciphers, g: Geometry, dir: Direction, d: seq<Cell>, log: nat, front: nat)
    requires g.Fits(d) && g.size <= g.oldLen && log <= g.size && front <= g.size
  {
    var crashed := Recrypted(c, g, d, MovedLo(dir, front), MovedHi(g, dir, front));
    exists x :: 0 <= x < g.size &&
      New(c, g, Recrypted(c, g, crashed, LeftLo(dir, log), LeftHi(g, dir, log)), x) != Old(c, g, d, x)
  }

  /** The ciphers differ at some position in flight; only then does rewriting in place change anything. */
  ghost predicate DifferInFlight(c: Ciphers, dir: Direction, log: nat, front: nat) {
    exists y: nat, v: Cell :: (if dir.Forward? then log <= y < front else front <= y < log)
                              && c.encNew(y, c.decOld(y, v)) != v
  }

  /** What a resumed copy makes of a position whose old cell was overwritten. */
  lemma ClobberedValue(c: Ciphers, g: Geometry, dir: Direction, d: seq<Cell>, log: nat, front: nat, y: nat)
    requires c.Valid() && g.Fits(d) && g.size <= g.oldLen && g.Suits(dir) && log <= g.size && front <= g.size
    requires y < g.size && Clobbered(g, dir, log, front, y)
    ensures 0 <= Over(g, dir, y) < g.size
    ensures var z: nat := Over(g, dir, y);
            var crashed := Recrypted(c, g, d, MovedLo(dir, front), MovedHi(g, dir, front));
            New(c, g, Recrypted(c, g, crashed, LeftLo(dir, log), LeftHi(g, dir, log)), y)
            == c.decOld(y, c.encNew(z, Old(c, g, d, z)))
  {
    var z := Over(g, dir, y);
    var crashed := Recrypted(c, g, d, MovedLo(dir, front), MovedHi(g, dir, front));
    assert g.src + y == g.dst + z && MovedLo(dir, front) <= z < MovedHi(g, dir, front);
    assert crashed[g.src + y] == c.encNew(z, Old(c, g, d, z));
    var final := Recrypted(c, g, crashed, LeftLo(dir, log), LeftHi(g, dir, log));
    assert LeftLo(dir, log) <= y < LeftHi(g, dir, log);
    assert final[g.dst + y] == c.encNew(y, Old(c, g, crashed, y));
  }

  /** A disk on which overwriting the cell of `y` early changes it. */
  lemma ClobberLoses(c: Ciphers, g: Geometry, dir: Direction, d: seq<Cell>, log: nat, front: nat, y: nat)
    requires c.Valid() && g.Fits(d) && g.size <= g.oldLen && g.Suits(dir) && log <= g.size && front <= g.size
    requires y < g.size && Clobbered(g, dir, log, front, y) && 0 <= Over(g, dir, y) < g.size
    requires c.encNew(Over(g, dir, y), Old(c, g, d, Over(g, dir, y))) != d[g.src + y]
    ensures LosesData(c, g, dir, d, log, front)
  {
    hide Clobbered, Over, Recrypted, New;
    ClobberedValue(c, g, dir, d, log, front, y);
    var v: Cell := c.encNew(Over(g, dir, y), Old(c, g, d, Over(g, dir, y)));
    assert c.encOld(y, c.decOld(y, v)) == v;
    assert c.encOld(y, c.decOld(y, d[g.src + y])) == d[g.src + y];
  }

  /** With more in flight than the distance, some disk loses data. */
  lemma SomeDiskLoses(c: Ciphers, g: Geometry, dir: Direction, n: nat, log: nat, front: nat) returns (d: seq<Cell>)
    requires c.Valid() && g.src + g.oldLen <= n && g.dst + g.newLen <= n && g.size <= g.newLen && g.size <= g.oldLen
    requires g.Suits(dir) && log <= g.size && front <= g.size
    requires InFlightSize(dir, log, front) > g.Distance()
    requires g.Distance() > 0 || DifferInFlight(c, dir, log, front)
    ensures |d| == n && g.Fits(d) && LosesData(c, g, dir, d, log, front)
  {
    if g.Distance() > 0 {
      var y := if dir.Forward? then log else log - 1;
      var z := Over(g, dir, y);
      d := seq(n, p => if p == g.src + y then c.encNew(z, c.decOld(z, 0)) + 1 else 0);
      assert d[g.src + z] == 0;
      ClobberLoses(c, g, dir, d, log, front, y);
    } else {
      var y: nat, v: Cell :| (if dir.Forward? then log <= y < front else front <= y < log)
                             && c.encNew(y, c.decOld(y, v)) != v;
      d := seq(n, p => v);
      ClobberLoses(c, g, dir, d, log, front, y);
    }
  }

  /** Replay is safe exactly up to the distance: resuming from the log recovers every disk if and only if
      no more than the distance was in flight, or old and new cipher text are the same anyway. */
  lemma ReplaySafeIff(c: Ciphers, g: Geometry, dir: Direction, n: nat, log: nat, front: nat)
    requires c.Valid() && g.src + g.oldLen <= n && g.dst + g.newLen <= n && g.size <= g.newLen && g.size <= g.oldLen
    requires g.Suits(dir) && log <= g.size && front <= g.size && InFlightSize(dir, log, front) >= 0
    ensures (forall d: seq<Cell> :: |d| == n ==> g.Fits(d) && !LosesData(c, g, dir, d, log, front))
            <==> InFlightSize(dir, log, front) <= g.Distance()
                 || (g.Distance() == 0 && !DifferInFlight(c, dir, log, front))
  {
    if InFlightSize(dir, log, front) > g.Distance() && (g.Distance() > 0 || DifferInFlight(c, dir, log, front)) {
      var d := SomeDiskLoses(c, g, dir, n, log, front);
    } else {
      forall d: seq<Cell> | |d| == n ensures g.Fits(d) && !LosesData(c, g, dir, d, log, front) {
        NoLoss(c, g, dir, d, log, front);
      }
    }
  }

  lemma NoLoss(c: Ciphers, g: Geometry, dir: Direction, d: seq<Cell>, log: nat, front: nat)
    requires c.Valid() && g.Fits(d) && g.size <= g.oldLen
    requires g.Suits(dir) && log <= g.size && front <= g.size && InFlightSize(dir, log, front) >= 0
    requires InFlightSize(dir, log, front) <= g.Distance() || (g.Distance() == 0 && !DifferInFlight(c, dir, log, front))
    ensures !LosesData(c, g, dir, d, log, front)
  {
    var crashed := Recrypted(c, g, d, MovedLo(dir, front), MovedHi(g, dir, front));
    var final := Recrypted(c, g, crashed, LeftLo(dir, log), LeftHi(g, dir, log));
    forall x | 0 <= x < g.size ensures New(c, g, final, x) == Old(c, g, d, x) {
      if LeftLo(dir, log) <= x < LeftHi(g, dir, log) {
        assert final[g.dst + x] == c.encNew(x, Old(c, g, crashed, x));
        assert crashed[g.src + x] == d[g.src + x];
      } else {
        assert final[g.dst + x] == crashed[g.dst + x];
      }
    }
  }

  // ----- wiping the end of a decrypted device

  /** The disk after zeros were written to `n` positions of the new view from `from` on. */
  ghost function Zeroed(c: Ciphers, g: Geometry, d: seq<Cell>, from: nat, n: nat): (r: seq<Cell>)
    ensures |r| == |d|
    ensures forall p {:trigger r[p]} :: 0 <= p < |d| ==>
              r[p] == if g.dst + from <= p < g.dst + from + n then c.encNew(p - g.dst, 0) else d[p]
  {
    seq(|d|, p requires 0 <= p < |d| =>
      if g.dst + from <= p < g.dst + from + n then c.encNew(p - g.dst, 0) else d[p])
  }

  /** A run that gets through from a recoverable state, and then clears `n` positions behind the data,
      leaves the whole original plain text followed by zeros. */
  lemma FinishedDisk(c: Ciphers, g: Geometry, dir: Direction, d0: seq<Cell>, d: seq<Cell>, log: nat, n: nat, x: nat)
    requires c.Valid() && Recoverable(c, g, dir, d0, d, log)
    requires g.oldLen + n <= g.newLen && (x < g.size || g.oldLen <= x < g.oldLen + n)
    ensures var done := Recrypted(c, g, d, LeftLo(dir, log), LeftHi(g, dir, log));
            New(c, g, Zeroed(c, g, done, g.oldLen, n), x) == if x < g.size then Old(c, g, d0, x) else 0
  {
    var done := Recrypted(c, g, d0, 0, g.size);
    assert Zeroed(c, g, done, g.oldLen, n)[g.dst + x] == if x < g.size then done[g.dst + x] else c.encNew(x, 0);
  }

  /** Power fails while the end of a decrypted device is being cleared, with the log still at `log`. */
  ghost predicate ZeroingLosesData(c: Ciphers, g: Geometry, d: seq<Cell>, log: nat, n: nat)
    requires g.Fits(d) && log <= g.size <= g.oldLen
  {
    var crashed := Zeroed(c, g, Recrypted(c, g, d, 0, g.size), g.oldLen, n);
    exists x :: 0 <= x < g.size && New(c, g, Recrypted(c, g, crashed, log, g.size), x) != Old(c, g, d, x)
  }

  /** The cells that were cleared and those that a replay from the log reads again do not meet. */
  predicate ClearsApart(g: Geometry, log: nat, n: nat) {
    n == 0 || log == g.size || g.oldLen + n <= log + g.Distance() || g.size + g.Distance() <= g.oldLen
  }

  lemma ZeroingLoses(c: Ciphers, g: Geometry, d: seq<Cell>, log: nat, n: nat, y: nat)
    requires c.Valid() && g.Fits(d) && g.size <= g.oldLen && g.oldLen + n <= g.newLen && g.Suits(Forward)
    requires log <= y < g.size && g.oldLen <= y + g.Distance() < g.oldLen + n
    requires d[g.src + y] != c.encNew(y + g.Distance(), 0)
    ensures ZeroingLosesData(c, g, d, log, n)
  {
    var z := y + g.Distance();
    var crashed := Zeroed(c, g, Recrypted(c, g, d, 0, g.size), g.oldLen, n);
    assert g.src + y == g.dst + z && crashed[g.src + y] == c.encNew(z, 0);
    var final := Recrypted(c, g, crashed, log, g.size);
    assert final[g.dst + y] == c.encNew(y, Old(c, g, crashed, y));
    assert New(c, g, final, y) == c.decOld(y, crashed[g.src + y]);
    assert c.encOld(y, c.decOld(y, crashed[g.src + y])) == crashed[g.src + y];
    assert c.encOld(y, c.decOld(y, d[g.src + y])) == d[g.src + y];
  }

  lemma ZeroingKeeps(c: Ciphers, g: Geometry, d: seq<Cell>, log: nat, n: nat)
    requires c.Valid() && g.Fits(d) && g.size <= g.oldLen && g.oldLen + n <= g.newLen && g.Suits(Forward)
    requires log <= g.size <= log + g.Distance()
    requires ClearsApart(g, log, n)
    ensures !ZeroingLosesData(c, g, d, log, n)
  {
    var crashed := Zeroed(c, g, Recrypted(c, g, d, 0, g.size), g.oldLen, n);
    var final := Recrypted(c, g, crashed, log, g.size);
    forall x | 0 <= x < g.size ensures New(c, g, final, x) == Old(c, g, d, x) {
      if log <= x {
        assert crashed[g.src + x] == d[g.src + x];
        assert final[g.dst + x] == c.encNew(x, Old(c, g, crashed, x));
      } else {
        assert final[g.dst + x] == crashed[g.dst + x];
      }
    }
  }

  /** The wipe may overwrite old cells that a replay would read again: even when the copy alone could be
      replayed, a replay is safe for every disk only if the wipe keeps clear of those cells. */
  lemma ZeroingSafeIff(c: Ciphers, g: Geometry, len: nat, log: nat, n: nat)
    requires c.Valid() && g.src + g.oldLen <= len && g.dst + g.newLen <= len
    requires g.Suits(Forward) && g.size <= g.oldLen && g.oldLen + n <= g.newLen
    requires log <= g.size <= log + g.Distance()
    ensures (forall d: seq<Cell> :: |d| == len ==> g.Fits(d) && !ZeroingLosesData(c, g, d, log, n))
            <==> ClearsApart(g, log, n)
  {
    if ClearsApart(g, log, n) {
      forall d: seq<Cell> | |d| == len ensures g.Fits(d) && !ZeroingLosesData(c, g, d, log, n) {
        ZeroingKeeps(c, g, d, log, n);
      }
    } else {
      var y := if log + g.Distance() < g.oldLen then g.oldLen - g.Distance() else log;
      var d := seq(len, p => c.encNew(y + g.Distance(), 0) + 1);
      ZeroingLoses(c, g, d, log, n, y);
    }
  }
}
