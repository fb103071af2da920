/** What the lock protocol guarantees over whole runs. */
module LockRuns {
  import opened Bytes
  import opened LockProtocol

  lemma InitialInv(s: State)
    requires Initial(s)
    ensures Inv(s)
  {
  }

  lemma {:induction false} LegalAppend(s: State, a: seq<Step>, b: seq<Step>)
    requires Legal(s, a)
    ensures Legal(s, a + b) <==> Legal(Exec(s, a), b)
    ensures Legal(s, a + b) ==> Exec(s, a + b) == Exec(Exec(s, a), b)
    decreases |a|
  {
    if a == [] {
      assert a + b == b;
    } else {
      assert (a + b)[0] == a[0] && (a + b)[1..] == a[1..] + b;
      LegalAppend(Apply(s, a[0]), a[1..], b);
    }
  }

  /** The states that some interleaving of the handles can produce. */
  ghost predicate Reachable(s: State) {
    exists s0, run :: Initial(s0) && Legal(s0, run) && Exec(s0, run) == s
  }

  lemma ReachableInv(s: State)
    requires Reachable(s)
    ensures Inv(s)
  {
    var s0, run :| Initial(s0) && Legal(s0, run) && Exec(s0, run) == s;
    InitialInv(s0);
    RunKeepsInv(s0, run);
  }

  lemma ReachableStep(s: State, t: Step)
    requires Reachable(s) && Enabled(s, t)
    ensures Reachable(Apply(s, t))
  {
    var s0, run :| Initial(s0) && Legal(s0, run) && Exec(s0, run) == s;
    LegalAppend(s0, run, [t]);
    assert [t][1..] == [];
    assert Legal(s0, run + [t]) && Exec(s0, run + [t]) == Apply(s, t);
  }

  /** Safety over every interleaving: a handle whose verification passed holds its flock on the file
      the path names, and a verified writer is alone. */
  lemma MutualExclusion(s: State, g: nat, h: nat)
    requires Reachable(s) && g < |s.handles| && h < |s.handles| && s.handles[g].phase.Held?
    ensures s.path == Some(s.handles[g].fd) && s.handles[g].lock == Some(s.handles[g].want)
    ensures s.handles[g].want.Exclusive? && s.handles[h].phase.Held? ==> g == h
  {
    ReachableInv(s);
    assert HandleInv(s, s.handles[g]) && HandleInv(s, s.handles[h]);
    if g != h {
      assert Compatible(s.handles[g], s.handles[h]);
    }
  }

  /** A releaser removes its own file only: when it is about to unlink, the path still names the
      inode it has open, nobody holds a verified lock, and no other releaser is as far. */
  lemma UnlinkRemovesOwnFile(s: State, g: nat, h: nat)
    requires Reachable(s) && g < |s.handles| && h < |s.handles| && s.handles[g].phase.Unlinking?
    ensures s.path == Some(s.handles[g].fd)
    ensures !s.handles[h].phase.Held?
    ensures s.handles[h].phase.Unlinking? ==> g == h
  {
    ReachableInv(s);
    assert HandleInv(s, s.handles[g]) && HandleInv(s, s.handles[h]);
    if g != h {
      assert Compatible(s.handles[g], s.handles[h]);
    }
  }

  ghost predicate NoStepOf(run: seq<Step>, h: nat) {
    forall i :: 0 <= i < |run| ==> run[i].h != h
  }

  /** While a handle is held, nothing the others do can remove or replace the lock file. */
  lemma {:induction false} HeldPinsPath(s: State, run: seq<Step>, h: nat)
    requires Inv(s) && Legal(s, run) && h < |s.handles| && s.handles[h].phase.Held? && NoStepOf(run, h)
    ensures |Exec(s, run).handles| == |s.handles|
    ensures Exec(s, run).path == s.path == Some(s.handles[h].fd)
    ensures Exec(s, run).handles[h] == s.handles[h]
    decreases |run|
  {
    assert HandleInv(s, s.handles[h]);
    if run != [] {
      assert run[0].h != h;
      StepKeepsInv(s, run[0]);
      var s' := Apply(s, run[0]);
      assert s'.handles[h] == s.handles[h];
      assert HandleInv(s', s'.handles[h]);
      assert NoStepOf(run[1..], h) by {
        forall i | 0 <= i < |run[1..]| ensures run[1..][i].h != h {
          assert run[1..][i] == run[i + 1];
        }
      }
      HeldPinsPath(s', run[1..], h);
    }
  }

  // ----- how often the acquisition loop goes round

  /** How often handle `h` went round the loop again: the file was found to be removed or replaced after the
      flock was granted, or it could not be looked at. */
  function Retries(run: seq<Step>, h: nat): nat {
    if run == [] then 0
    else (if run[0] == VerifyStale(h) || run[0] == VerifyNoStat(h) then 1 else 0) + Retries(run[1..], h)
  }

  function UnlinksByOthers(run: seq<Step>, h: nat): nat {
    if run == [] then 0
    else (if run[0].Unlink? && run[0].h != h then 1 else 0) + UnlinksByOthers(run[1..], h)
  }

  /** How often stat failed in the verification of `h` for another reason than a missing file. */
  function StatErrors(run: seq<Step>, h: nat): nat {
    if run == [] then 0
    else (if run[0] == VerifyNoStat(h) then 1 else 0) + StatErrors(run[1..], h)
  }

  lemma {:induction false} CountsAppend(a: seq<Step>, b: seq<Step>, h: nat)
    ensures Retries(a + b, h) == Retries(a, h) + Retries(b, h)
    ensures UnlinksByOthers(a + b, h) == UnlinksByOthers(a, h) + UnlinksByOthers(b, h)
    ensures StatErrors(a + b, h) == StatErrors(a, h) + StatErrors(b, h)
  {
    if a == [] {
      assert a + b == b;
    } else {
      assert (a + b)[0] == a[0] && (a + b)[1..] == a[1..] + b;
      CountsAppend(a[1..], b, h);
    }
  }

  /** Handle `h` waits on, or holds, a file that the path no longer names: its next verification must fail. */
  ghost function Doomed(s: State, h: nat): nat
    requires h < |s.handles|
  {
    if (s.handles[h].phase.Opened? || s.handles[h].phase.Locked?) && !Names(s, h) then 1 else 0
  }

  lemma StepCharges(s: State, t: Step, h: nat)
    requires Enabled(s, t) && h < |s.handles|
    ensures |Apply(s, t).handles| == |s.handles|
    ensures Retries([t], h) + Doomed(Apply(s, t), h)
         <= UnlinksByOthers([t], h) + StatErrors([t], h) + Doomed(s, h)
  {
    assert [t][1..] == [];
    if t.h == h {
      assert Apply(s, t).handles[h] == Apply(s, t).handles[t.h];
    } else {
      assert Apply(s, t).handles[h] == s.handles[h];
    }
  }

  /** Every failed verification is paid for by an unlink of another handle or by an error of stat. */
  lemma {:induction false} RetriesCharged(s: State, run: seq<Step>, h: nat)
    requires Legal(s, run) && h < |s.handles|
    ensures |Exec(s, run).handles| == |s.handles|
    ensures Retries(run, h) + Doomed(Exec(s, run), h)
         <= UnlinksByOthers(run, h) + StatErrors(run, h) + Doomed(s, h)
    decreases |run|
  {
    if run != [] {
      StepCharges(s, run[0], h);
      RetriesCharged(Apply(s, run[0]), run[1..], h);
      assert [run[0]] + run[1..] == run;
      CountsAppend([run[0]], run[1..], h);
    }
  }

  /** In every run, from any state in which `h` has no file open, `h` retries at most as often as the other
      handles unlink the lock file and stat fails: without such errors, at most as often as they unlink it. */
  lemma RetryBound(s: State, run: seq<Step>, h: nat)
    requires Legal(s, run) && h < |s.handles| && !s.handles[h].HasFd()
    ensures Retries(run, h) <= UnlinksByOthers(run, h) + StatErrors(run, h)
    ensures (forall i :: 0 <= i < |run| ==> run[i] != VerifyNoStat(h)) ==> Retries(run, h) <= UnlinksByOthers(run, h)
  {
    RetriesCharged(s, run, h);
    if forall i :: 0 <= i < |run| ==> run[i] != VerifyNoStat(h) {
      NoStatErrors(run, h);
    }
  }

  lemma {:induction false} NoStatErrors(run: seq<Step>, h: nat)
    requires forall i :: 0 <= i < |run| ==> run[i] != VerifyNoStat(h)
    ensures StatErrors(run, h) == 0
  {
    if run != [] {
      NoStatErrors(run[1..], h);
    }
  }

  /** One way round the loop after a stat that failed: unlock, keep the file, close, open it again, lock it. */
  function RoundTrip(h: nat): seq<Step> {
    [VerifyNoStat(h), FlockUn(h), TryFails(h), Close(h), OpenExisting(h), Flock(h)]
  }

  function RoundTrips(h: nat, k: nat): seq<Step> {
    if k == 0 then [] else RoundTrip(h) + RoundTrips(h, k - 1)
  }

  predicate AboutToVerify(s: State, h: nat) {
    h < |s.handles| && Names(s, h) &&
    s.handles[h] == Handle(Locked, s.handles[h].fd, Some(s.handles[h].want), s.handles[h].want, false)
  }

  lemma OneStep(s: State, t: Step)
    requires Enabled(s, t)
    ensures Legal(s, [t]) && Exec(s, [t]) == Apply(s, t)
  {
    assert [t][1..] == [];
  }

  lemma ThenStep(s: State, run: seq<Step>, t: Step)
    requires Legal(s, run) && Enabled(Exec(s, run), t)
    ensures Legal(s, run + [t]) && Exec(s, run + [t]) == Apply(Exec(s, run), t)
  {
    OneStep(Exec(s, run), t);
    LegalAppend(s, run, [t]);
  }

  /** A locked handle that unlocks and locks the same file again finds nobody in the way. */
  lemma StillGrantable(s: State, s': State, h: nat)
    requires Inv(s) && AboutToVerify(s, h) && |s'.handles| == |s.handles|
    requires forall g :: 0 <= g < |s.handles| && g != h ==> s'.handles[g] == s.handles[g]
    requires s'.handles[h].fd == s.handles[h].fd
    ensures Grantable(s', h, s.handles[h].want)
  {
    forall g | 0 <= g < |s.handles| && g != h
      ensures Compatible(s.handles[h], s.handles[g])
    {
    }
  }

  /** The way round the loop ends in the state that it began in. */
  lemma RoundTripReturns(s: State, h: nat)
    requires Inv(s) && AboutToVerify(s, h)
    ensures Legal(s, RoundTrip(h)) && Exec(s, RoundTrip(h)) == s
  {
    hide Inv, Grantable, Legal, Exec;
    var x := s.handles[h];
    var r1 := [VerifyNoStat(h)];
    OneStep(s, VerifyNoStat(h));
    ThenStep(s, r1, FlockUn(h));
    ThenStep(s, r1 + [FlockUn(h)], TryFails(h));
    ThenStep(s, r1 + [FlockUn(h)] + [TryFails(h)], Close(h));
    ThenStep(s, r1 + [FlockUn(h)] + [TryFails(h)] + [Close(h)], OpenExisting(h));
    var r5 := r1 + [FlockUn(h)] + [TryFails(h)] + [Close(h)] + [OpenExisting(h)];
    var s5 := Put(s, h, x.(phase := Opened, lock := None));
    assert Exec(s, r5).handles == s5.handles;
    StillGrantable(s, s5, h);
    ThenStep(s, r5, Flock(h));
    assert Put(s5, h, x).handles == s.handles;
    assert r5 + [Flock(h)] == RoundTrip(h);
  }

  /** Steps that are neither a failed verification nor an unlink count for nothing. */
  lemma {:induction false} Uncounted(run: seq<Step>, h: nat)
    requires forall i :: 0 <= i < |run| ==> !run[i].VerifyStale? && !run[i].VerifyNoStat? && !run[i].Unlink?
    ensures Retries(run, h) == StatErrors(run, h) == UnlinksByOthers(run, h) == 0
  {
    if run != [] {
      Uncounted(run[1..], h);
    }
  }

  lemma RoundTripCounts(h: nat)
    ensures Retries(RoundTrip(h), h) == 1 && StatErrors(RoundTrip(h), h) == 1 && UnlinksByOthers(RoundTrip(h), h) == 0
  {
    var rest := [FlockUn(h), TryFails(h), Close(h), OpenExisting(h), Flock(h)];
    assert RoundTrip(h)[1..] == rest;
    Uncounted(rest, h);
  }

  /** The errors of stat are needed in the bound: from any state in which a handle is about to verify, it can go
      round the loop any number of times without any unlink. */
  lemma {:induction false} StatErrorRetries(s: State, h: nat, k: nat)
    requires Inv(s) && AboutToVerify(s, h)
    ensures Legal(s, RoundTrips(h, k)) && Exec(s, RoundTrips(h, k)) == s
    ensures Retries(RoundTrips(h, k), h) == k && UnlinksByOthers(RoundTrips(h, k), h) == 0
  {
    hide Inv, RoundTrip, AboutToVerify;
    if k > 0 {
      RoundTripReturns(s, h);
      RoundTripCounts(h);
      StatErrorRetries(s, h, k - 1);
      LegalAppend(s, RoundTrip(h), RoundTrips(h, k - 1));
      CountsAppend(RoundTrip(h), RoundTrips(h, k - 1), h);
    }
  }

  // ----- why the second look at the path is needed

  /** flock alone excludes nobody: two handles may each have an exclusive flock, on two different
      inodes. Only the verification that follows tells them apart: it can pass for one of them and
      must send the other round the loop again. */
  ghost predicate BothLocked(s: State) {
    && |s.handles| == 2
    && s.handles[0].phase == Locked && s.handles[0].lock == Some(Exclusive)
    && s.handles[1].phase == Locked && s.handles[1].lock == Some(Exclusive)
    && Enabled(s, VerifySame(0)) && Enabled(s, VerifyStale(1))
  }

  function Client(phase: Phase, fd: Inode, lock: Option<Kind>): Handle {
    Handle(phase, fd, lock, Exclusive, false)
  }

  function Two(path: Option<Inode>, x: Handle, y: Handle): State {
    State(path, [x, y])
  }

  /** One more step of a run of two handles: handle 0 goes from `x` to `x'`. */
  lemma Go0(t: Step, p: Option<Inode>, x: Handle, y: Handle, p': Option<Inode>, x': Handle)
    requires t.h == 0 && Reachable(Two(p, x, y)) && Enabled(Two(p, x, y), t)
    requires Apply(Two(p, x, y), t).path == p' && Apply(Two(p, x, y), t).handles[0] == x'
    ensures Reachable(Two(p', x', y))
  {
    hide Reachable, Enabled;
    ReachableStep(Two(p, x, y), t);
    assert Apply(Two(p, x, y), t).handles == [x', y];
  }

  lemma Go1(t: Step, p: Option<Inode>, x: Handle, y: Handle, p': Option<Inode>, y': Handle)
    requires t.h == 1 && Reachable(Two(p, x, y)) && Enabled(Two(p, x, y), t)
    requires Apply(Two(p, x, y), t).path == p' && Apply(Two(p, x, y), t).handles[1] == y'
    ensures Reachable(Two(p', x, y'))
  {
    hide Reachable, Enabled;
    ReachableStep(Two(p, x, y), t);
    assert Apply(Two(p, x, y), t).handles == [x, y'];
  }

  const LOCK := Some(Exclusive)

  lemma RaceStart()
    ensures Reachable(Two(None, Client(Idle, 0, None), Client(Idle, 0, None)))
  {
    var s0 := Two(None, Client(Idle, 0, None), Client(Idle, 0, None));
    assert Initial(s0) && Legal(s0, []) && Exec(s0, []) == s0;
  }

  /** Both open file 7, which handle 0 creates. */
  lemma RaceOpen()
    ensures Reachable(Two(Some(7), Client(Opened, 7, None), Client(Opened, 7, None)))
  {
    hide Reachable;
    RaceStart();
    var idle, wanting, waiter := Client(Idle, 0, None), Client(Wanting, 0, None), Client(Opened, 7, None);
    Go0(Begin(0, Exclusive), None, idle, idle, None, wanting);
    Go0(OpenCreate(0, 7), None, wanting, idle, Some(7), waiter);
    Go1(Begin(1, Exclusive), Some(7), waiter, idle, Some(7), wanting);
    Go1(OpenExisting(1), Some(7), waiter, wanting, Some(7), waiter);
  }

  /** Handle 0 acquires the lock. */
  lemma RaceAcquire()
    ensures Reachable(Two(Some(7), Client(Held, 7, LOCK), Client(Opened, 7, None)))
  {
    hide Reachable;
    RaceOpen();
    var waiter := Client(Opened, 7, None);
    Go0(Flock(0), Some(7), waiter, waiter, Some(7), Client(Locked, 7, LOCK));
    Go0(VerifySame(0), Some(7), Client(Locked, 7, LOCK), waiter, Some(7), Client(Held, 7, LOCK));
  }

  /** Handle 0 lets go and takes the lock once more to remove the file. */
  lemma RaceLetGo()
    ensures Reachable(Two(Some(7), Client(Unlinking, 7, LOCK), Client(Opened, 7, None)))
  {
    hide Reachable;
    RaceAcquire();
    var waiter := Client(Opened, 7, None);
    Go0(FlockUn(0), Some(7), Client(Held, 7, LOCK), waiter, Some(7), Client(Releasing, 7, None));
    Go0(TryGranted(0), Some(7), Client(Releasing, 7, None), waiter, Some(7), Client(Probing, 7, LOCK));
    Go0(StatSame(0), Some(7), Client(Probing, 7, LOCK), waiter, Some(7), Client(Unlinking, 7, LOCK));
  }

  /** Handle 0 removes the file. */
  lemma RaceRelease()
    ensures Reachable(Two(None, Client(Idle, 7, None), Client(Opened, 7, None)))
  {
    hide Reachable;
    RaceLetGo();
    var waiter := Client(Opened, 7, None);
    Go0(Unlink(0), Some(7), Client(Unlinking, 7, LOCK), waiter, None, Client(Closing, 7, LOCK));
    Go0(Close(0), None, Client(Closing, 7, LOCK), waiter, None, Client(Idle, 7, None));
  }

  /** Handle 1 now locks the removed file, handle 0 the file that replaced it. */
  lemma RaceRelock()
    ensures Reachable(Two(Some(8), Client(Locked, 8, LOCK), Client(Locked, 7, LOCK)))
  {
    hide Reachable;
    RaceRelease();
    var locked := Client(Locked, 7, LOCK);
    Go1(Flock(1), None, Client(Idle, 7, None), Client(Opened, 7, None), None, locked);
    Go0(Begin(0, Exclusive), None, Client(Idle, 7, None), locked, None, Client(Wanting, 7, None));
    Go0(OpenCreate(0, 8), None, Client(Wanting, 7, None), locked, Some(8), Client(Opened, 8, None));
    Go0(Flock(0), Some(8), Client(Opened, 8, None), locked, Some(8), Client(Locked, 8, LOCK));
  }

  lemma FlockAloneIsNotEnough()
    ensures exists s :: Reachable(s) && BothLocked(s)
  {
    hide Reachable;
    RaceRelock();
    assert BothLocked(Two(Some(8), Client(Locked, 8, LOCK), Client(Locked, 7, LOCK)));
  }
}
