/** The metadata lock protocol as a transition system: any number of handles share one lock file,
    which they create on demand, lock, re-check, and remove again when they let go of it.
    Every system call is one step, so a run may interleave the handles in any order. */
module LockProtocol {
  import opened Bytes

  type Inode = nat

  datatype Kind = Shared | Exclusive

  /** Where a handle stands between `acquire_and_verify` and the end of `release_lock_handle`. */
  datatype Phase =
    | Idle       // no request
    | Wanting    // at the head of the acquisition loop, before openat
    | Opened     // the lock file is open, flock not granted yet
    | Locked     // flock granted, not verified yet
    | Held       // verification passed, the caller owns the lock
    | Unlocking  // verification failed, before flock(LOCK_UN)
    | Releasing  // in release_lock_handle, before flock(LOCK_EX | LOCK_NB)
    | Probing    // that flock was granted, before stat
    | Unlinking  // stat found the inode of our descriptor, before unlink
    | Closing    // before close

  /** `fd` is meaningful while HasFd(); `again` says that closing goes back to the loop head. */
  datatype Handle = Handle(phase: Phase, fd: Inode, lock: Option<Kind>, want: Kind, again: bool) {
    predicate HasFd() { phase != Idle && phase != Wanting }
  }

  datatype State = State(path: Option<Inode>, handles: seq<Handle>)

  datatype Step =
    | Begin(h: nat, kind: Kind)
    | OpenExisting(h: nat)
    | OpenCreate(h: nat, ino: Inode)
    | OpenFails(h: nat)
    | Flock(h: nat)
    | FlockFails(h: nat)
    | VerifySame(h: nat)
    | VerifyStale(h: nat)
    | VerifyNoStat(h: nat)
    | VerifyFails(h: nat)
    | FlockUn(h: nat)
    | FlockUnFails(h: nat)
    | TryGranted(h: nat)
    | TryRefused(h: nat)
    | TryFails(h: nat)
    | StatSame(h: nat)
    | StatOther(h: nat)
    | StatFails(h: nat)
    | Unlink(h: nat)
    | UnlinkFails(h: nat)
    | Close(h: nat)
    | Crash(h: nat)

  /** flock may give handle `h` a lock of kind `k`: no other descriptor of the inode conflicts. */
  predicate Grantable(s: State, h: nat, k: Kind)
    requires h < |s.handles|
  {
    forall g :: 0 <= g < |s.handles| && g != h && s.handles[g].HasFd() && s.handles[g].fd == s.handles[h].fd
      ==> s.handles[g].lock.None? || (s.handles[g].lock.value.Shared? && k.Shared?)
  }

  /** No open descriptor refers to inode `i`, so the file system may hand that number out. */
  predicate Unreferenced(s: State, i: Inode) {
    forall g :: 0 <= g < |s.handles| && s.handles[g].HasFd() ==> s.handles[g].fd != i
  }

  predicate Names(s: State, h: nat)
    requires h < |s.handles|
  {
    s.path == Some(s.handles[h].fd)
  }

  predicate Enabled(s: State, t: Step) {
    t.h < |s.handles| &&
    var p := s.handles[t.h].phase;
    match t
    case Begin(_, _) => p.Idle?
    case OpenExisting(_) => p.Wanting? && s.path.Some?
    case OpenCreate(_, ino) => p.Wanting? && s.path.None? && Unreferenced(s, ino)
    case OpenFails(_) => p.Wanting?
    case Flock(h) => p.Opened? && Grantable(s, h, s.handles[h].want)
    case FlockFails(_) => p.Opened?
    case VerifySame(h) => p.Locked? && Names(s, h)
    case VerifyStale(h) => p.Locked? && !Names(s, h)
    case VerifyNoStat(_) => p.Locked?
    case VerifyFails(_) => p.Locked?
    case FlockUn(_) => p.Held? || p.Unlocking?
    case FlockUnFails(_) => p.Held? || p.Unlocking?
    case TryGranted(h) => p.Releasing? && Grantable(s, h, Exclusive)
    case TryRefused(h) => p.Releasing? && !Grantable(s, h, Exclusive)
    case TryFails(_) => p.Releasing?
    case StatSame(h) => p.Probing? && Names(s, h)
    case StatOther(h) => p.Probing? && !Names(s, h)
    case StatFails(_) => p.Probing?
    case Unlink(_) => p.Unlinking?
    case UnlinkFails(_) => p.Unlinking?
    case Close(_) => p.Closing?
    case Crash(_) => true
  }

  function Put(s: State, h: nat, x: Handle): State
    requires h < |s.handles|
  {
    s.(handles := s.handles[h := x])
  }

  /** The effect of a step. `Unlink` removes whatever file the path names at that moment. */
  function Apply(s: State, t: Step): State
    requires Enabled(s, t)
  {
    var x := s.handles[t.h];
    match t
    case Begin(h, kind) => Put(s, h, x.(phase := Wanting, want := kind, again := false))
    case OpenExisting(h) => Put(s, h, x.(phase := Opened, fd := s.path.value))
    case OpenCreate(h, ino) => Put(s.(path := Some(ino)), h, x.(phase := Opened, fd := ino))
    case OpenFails(h) => Put(s, h, x.(phase := Idle))
    case Flock(h) => Put(s, h, x.(phase := Locked, lock := Some(x.want)))
    case FlockFails(h) => Put(s, h, x.(phase := Releasing, again := false))
    case VerifySame(h) => Put(s, h, x.(phase := Held))
    case VerifyStale(h) => Put(s, h, x.(phase := Unlocking, again := true))
    case VerifyNoStat(h) => Put(s, h, x.(phase := Unlocking, again := true))
    case VerifyFails(h) => Put(s, h, x.(phase := Unlocking, again := false))
    case FlockUn(h) => Put(s, h, x.(phase := Releasing, lock := None, again := x.again && x.phase.Unlocking?))
    case FlockUnFails(h) => Put(s, h, x.(phase := Releasing, again := x.again && x.phase.Unlocking?))
    case TryGranted(h) => Put(s, h, x.(phase := Probing, lock := Some(Exclusive)))
    case TryRefused(h) => Put(s, h, x.(phase := Closing, lock := None))
    case TryFails(h) => Put(s, h, x.(phase := Closing))
    case StatSame(h) => Put(s, h, x.(phase := Unlinking))
    case StatOther(h) => Put(s, h, x.(phase := Closing))
    case StatFails(h) => Put(s, h, x.(phase := Closing))
    case Unlink(h) => Put(s.(path := None), h, x.(phase := Closing))
    case UnlinkFails(h) => Put(s, h, x.(phase := Closing))
    case Close(h) => Put(s, h, x.(phase := if x.again then Wanting else Idle, lock := None, again := false))
    case Crash(h) => Put(s, h, x.(phase := Idle, lock := None, again := false))
  }

  ghost predicate Legal(s: State, run: seq<Step>)
    decreases |run|
  {
    run == [] || (Enabled(s, run[0]) && Legal(Apply(s, run[0]), run[1..]))
  }

  ghost function Exec(s: State, run: seq<Step>): State
    requires Legal(s, run)
    decreases |run|
  {
    if run == [] then s else Exec(Apply(s, run[0]), run[1..])
  }

  /** Nobody has asked for anything yet; the lock file may have survived an earlier crash. */
  ghost predicate Initial(s: State) {
    forall h :: 0 <= h < |s.handles| ==> s.handles[h].phase == Idle && s.handles[h].lock == None
  }

  ghost predicate HandleInv(s: State, x: Handle) {
    && (x.lock.Some? ==> x.HasFd())
    && (x.phase.Locked? || x.phase.Held? ==> x.lock == Some(x.want))
    && (x.phase.Probing? || x.phase.Unlinking? ==> x.lock == Some(Exclusive))
    && (x.phase.Held? || x.phase.Unlinking? ==> s.path == Some(x.fd))
  }

  ghost predicate Compatible(x: Handle, y: Handle) {
    x.lock.Some? && y.lock.Some? && x.fd == y.fd ==> x.lock.value.Shared? && y.lock.value.Shared?
  }

  /** The inductive invariant: the kernel never grants conflicting locks, and whoever passed
      verification or is about to unlink holds a lock on the file that the path names. */
  ghost predicate Inv(s: State) {
    && (forall h :: 0 <= h < |s.handles| ==> HandleInv(s, s.handles[h]))
    && (forall g, h :: 0 <= g < |s.handles| && 0 <= h < |s.handles| && g != h ==>
          Compatible(s.handles[g], s.handles[h]))
  }

  lemma StepKeepsOwn(s: State, t: Step)
    requires Inv(s) && Enabled(s, t)
    ensures Apply(s, t).handles == s.handles[t.h := Apply(s, t).handles[t.h]]
    ensures HandleInv(Apply(s, t), Apply(s, t).handles[t.h])
  {
    assert HandleInv(s, s.handles[t.h]);
  }

  lemma StepKeepsHandle(s: State, t: Step, g: nat)
    requires Inv(s) && Enabled(s, t) && g < |s.handles| && g != t.h
    ensures HandleInv(Apply(s, t), s.handles[g])
  {
    hide Grantable;
    var x, y := s.handles[t.h], s.handles[g];
    assert HandleInv(s, x) && HandleInv(s, y) && Compatible(x, y);
  }

  lemma StepKeepsOther(s: State, t: Step, g: nat)
    requires Inv(s) && Enabled(s, t) && g < |s.handles| && g != t.h
    ensures HandleInv(Apply(s, t), s.handles[g])
    ensures Compatible(Apply(s, t).handles[t.h], s.handles[g])
  {
    StepKeepsHandle(s, t, g);
    var x, y := s.handles[t.h], s.handles[g];
    assert HandleInv(s, x) && HandleInv(s, y) && Compatible(x, y);
  }

  lemma StepKeepsInv(s: State, t: Step)
    requires Inv(s) && Enabled(s, t)
    ensures Inv(Apply(s, t)) && |Apply(s, t).handles| == |s.handles|
  {
    var s' := Apply(s, t);
    StepKeepsOwn(s, t);
    forall g: nat | g < |s.handles| && g != t.h
      ensures HandleInv(s', s.handles[g]) && Compatible(s'.handles[t.h], s.handles[g])
    {
      StepKeepsOther(s, t, g);
    }
    forall g, h | 0 <= g < |s.handles| && 0 <= h < |s.handles| && g != h
      ensures Compatible(s'.handles[g], s'.handles[h])
    {
      assert Compatible(s.handles[g], s.handles[h]);
    }
  }

  lemma {:induction false} RunKeepsInv(s: State, run: seq<Step>)
    requires Inv(s) && Legal(s, run)
    ensures Inv(Exec(s, run)) && |Exec(s, run).handles| == |s.handles|
    decreases |run|
  {
    if run != [] {
      StepKeepsInv(s, run[0]);
      RunKeepsInv(Apply(s, run[0]), run[1..]);
    }
  }
}
