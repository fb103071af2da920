/** The code that runs the lock protocol: the acquisition loop, the release, and the reference-counted
    device lock on top. Between any two system calls the other processes may take steps. */
module DeviceLock {
  import opened Bytes
  import opened LockProtocol
  import opened LockRuns

  ghost function Above(hs: seq<Handle>): (n: nat)
    ensures forall h :: 0 <= h < |hs| ==> hs[h].fd < n
  {
    if hs == [] then 0
    else
      var rest := Above(hs[..|hs| - 1]);
      if hs[|hs| - 1].fd < rest then rest else hs[|hs| - 1].fd + 1
  }

  lemma UnreferencedExists(s: State)
    ensures exists i: Inode :: Unreferenced(s, i)
  {
    assert Unreferenced(s, Above(s.handles));
  }

  /** One process `me` and the rest of the system. `script` holds what the other processes will try to
      do; they take any number of those steps whenever `me` enters the kernel. `faults` is how many more of the
      system calls of `me` may fail for no reason that the state shows. */
  class Kernel {
    const me: nat
    ghost const start: State
    var st: State
    var script: seq<Step>
    var faults: nat
    ghost var trace: seq<Step>

    constructor (start: State, me: nat, script: seq<Step>, faults: nat)
      requires Initial(start) && me < |start.handles|
      ensures Valid() && st == start && this.me == me && this.start == start && trace == []
    {
      this.me, this.start, this.st, this.script, this.faults, this.trace := me, start, start, script, faults, [];
      new;
      InitialInv(start);
    }

    ghost predicate Valid() reads this {
      && Initial(start) && Legal(start, trace) && Exec(start, trace) == st
      && Inv(st) && me < |st.handles| == |start.handles|
    }

    function Mine(): Handle
      requires me < |st.handles|
      reads this
    {
      st.handles[me]
    }

    /** Nobody else does anything and nothing fails. */
    predicate Quiet() reads this {
      script == [] && faults == 0
    }

    /** No other open descriptor of the file that the path names holds a flock in the way of kind `k`. */
    predicate Free(s: State, k: Kind)
    {
      forall g :: 0 <= g < |s.handles| && g != me && s.handles[g].HasFd() && s.path == Some(s.handles[g].fd)
        ==> s.handles[g].lock.None? || (s.handles[g].lock.value.Shared? && k.Shared?)
    }

    predicate OthersSame(s: State, s': State)
    {
      |s.handles| == |s'.handles| && forall g :: 0 <= g < |s.handles| && g != me ==> s'.handles[g] == s.handles[g]
    }

    /** Whether a system call fails. */
    method Fault() returns (fault: bool)
      modifies this`faults
      ensures faults == if fault then old(faults) - 1 else old(faults)
    {
      fault := *;
      fault := fault && faults > 0;
      if fault {
        faults := faults - 1;
      }
    }

    method Do(t: Step)
      requires Valid() && Enabled(st, t)
      modifies this`st, this`trace
      ensures Valid() && st == Apply(old(st), t) && trace == old(trace) + [t]
    {
      StepKeepsInv(st, t);
      LegalAppend(start, trace, [t]);
      assert [t][1..] == [];
      st, trace := Apply(st, t), trace + [t];
    }

    /** The others take the first step of their script, if it is theirs to take. */
    method PlayOne()
      requires Valid() && script != []
      modifies this`st, this`script, this`trace
      ensures Valid() && script == old(script)[1..] && Mine() == old(Mine())
      ensures old(trace) <= trace && Retries(trace, me) == Retries(old(trace), me)
    {
      var t := script[0];
      script := script[1..];
      if Enabled(st, t) && t.h != me {
        CountsAppend(trace, [t], me);
        Do(t);
      }
    }

    method Interfere()
      requires Valid()
      modifies this`st, this`script, this`trace
      ensures Valid() && Mine() == old(Mine())
      ensures |script| <= |old(script)| && (|script| == |old(script)| ==> st == old(st))
      ensures old(trace) <= trace && Retries(trace, me) == Retries(old(trace), me)
    {
      var more := *;
      while more && script != []
        invariant Valid() && Mine() == old(Mine())
        invariant |script| <= |old(script)| && (|script| == |old(script)| ==> st == old(st))
        invariant old(trace) <= trace && Retries(trace, me) == Retries(old(trace), me)
        decreases |script|
      {
        PlayOne();
        more := *;
      }
    }

    /** One own step other than a failed verification, after the others had their turn. */
    method Own(t: Step)
      requires Valid() && t.h == me && Enabled(st, t) && !t.VerifyStale? && !t.VerifyNoStat?
      modifies this`st, this`trace
      ensures Valid() && st == Apply(old(st), t) && old(trace) <= trace
      ensures Retries(trace, me) == Retries(old(trace), me)
    {
      CountsAppend(trace, [t], me);
      Do(t);
    }

    /** open_resource: openat with O_CREAT. A failure is passed on with its own error number. */
    method OpenResource() returns (r: int)
      requires Valid() && Mine().phase.Wanting?
      modifies this`st, this`script, this`faults, this`trace
      ensures Valid() && |script| <= |old(script)| && faults <= old(faults)
      ensures old(Quiet()) ==> Quiet() && r == 0 && OthersSame(old(st), st)
      ensures old(Quiet()) && old(st).path.Some? ==> st.path == old(st).path
      ensures old(Quiet()) ==> (Grantable(st, me, Mine().want) <==> Free(old(st), Mine().want))
      ensures old(trace) <= trace && Retries(trace, me) == Retries(old(trace), me)
      ensures r <= 0
      ensures r == 0 ==> Mine().phase.Opened? && Names(st, me) && Mine().want == old(Mine().want)
      ensures r < 0 ==> Mine().phase.Idle?
    {
      Interfere();
      var fault := Fault();
      r := *;
      r := if !fault then 0 else if r < 0 then r else -1;
      if fault {
        Own(OpenFails(me));
      } else if st.path.Some? {
        Own(OpenExisting(me));
      } else {
        UnreferencedExists(st);
        var ino: nat :| Unreferenced(st, ino);
        Own(OpenCreate(me, ino));
      }
    }

    /** flock on a fresh descriptor. A blocking request waits until the others make room; if they never
        do, the wait ends with a signal. */
    method FlockFd(blocking: bool) returns (r: int)
      requires Valid() && Mine().phase.Opened?
      modifies this`st, this`script, this`faults, this`trace
      ensures Valid() && |script| <= |old(script)| && (|script| == |old(script)| ==> st.path == old(st.path))
      ensures faults <= old(faults) && (old(Quiet()) ==> Quiet() && OthersSame(old(st), st))
      ensures old(Quiet()) ==>
                r == if old(Grantable(st, me, Mine().want)) then 0 else if blocking then -EINVAL else -EBUSY
      ensures old(trace) <= trace && Retries(trace, me) == Retries(old(trace), me)
      ensures Mine().want == old(Mine().want) && Mine().fd == old(Mine().fd)
      ensures r == 0 ==> Mine().phase.Locked?
      ensures r == 0 || r == -EBUSY || r == -EINVAL
      ensures r < 0 ==> Mine().phase.Releasing? && !Mine().again
      ensures r == -EBUSY ==> !blocking
    {
      hide Inv, Legal, Exec, Initial, Retries, HandleInv, Compatible;
      Interfere();
      while blocking && !Grantable(st, me, Mine().want) && script != []
        invariant Valid() && Mine() == old(Mine()) && faults == old(faults)
        invariant |script| <= |old(script)| && (|script| == |old(script)| ==> st == old(st))
        invariant old(trace) <= trace && Retries(trace, me) == Retries(old(trace), me)
        decreases |script|
      {
        PlayOne();
      }
      var fault := Fault();
      if !fault && Grantable(st, me, Mine().want) {
        Own(Flock(me));
        r := 0;
      } else {
        r := if fault || blocking then -EINVAL else -EBUSY;
        Own(FlockFails(me));
      }
    }

    /** verify_lock_handle: does the path still name the file we locked? A stat that fails, for whatever
        reason, counts as no. */
    method VerifyLockHandle() returns (r: int)
      requires Valid() && Mine().phase.Locked?
      modifies this
      ensures Valid() && |script| <= |old(script)| && faults <= old(faults)
      ensures old(trace) <= trace
      ensures Retries(trace, me) == Retries(old(trace), me) + (if r == -EAGAIN then 1 else 0)
      ensures Mine().want == old(Mine().want)
      ensures r == 0 || r == -EAGAIN || r == -EINVAL
      ensures r == 0 ==> Mine().phase.Held?
      ensures r < 0 ==> Mine().phase.Unlocking? && Mine().again == (r == -EAGAIN)
      ensures r == -EAGAIN && |script| == |old(script)| && faults == old(faults) ==> !old(Names(st, me))
      ensures old(Quiet()) ==> Quiet() && OthersSame(old(st), st) && st.path == old(st).path
      ensures old(Quiet()) ==> r == if old(Names(st, me)) then 0 else -EAGAIN
    {
      hide Inv, Legal, Exec, Initial, HandleInv, Compatible;
      Interfere();
      var fault := Fault();
      var noStat := *;
      if fault && noStat {
        Again(VerifyNoStat(me));
        r := -EAGAIN;
      } else if fault {
        Own(VerifyFails(me));
        r := -EINVAL;
      } else if Names(st, me) {
        Own(VerifySame(me));
        r := 0;
      } else {
        Again(VerifyStale(me));
        r := -EAGAIN;
      }
    }

    /** A failed verification that sends the handle round the loop. */
    method Again(t: Step)
      requires Valid() && Mine().phase.Locked? && Enabled(st, t)
      requires t == VerifyStale(me) || t == VerifyNoStat(me)
      modifies this`st, this`trace
      ensures Valid() && st == Apply(old(st), t) && old(trace) <= trace
      ensures Retries(trace, me) == Retries(old(trace), me) + 1
    {
      CountsAppend(trace, [t], me);
      assert [t][1..] == [];
      Do(t);
    }

    /** flock(LOCK_UN); a failure is only logged. */
    method UnlockFd()
      requires Valid() && (Mine().phase.Held? || Mine().phase.Unlocking?)
      modifies this`st, this`script, this`faults, this`trace
      ensures Valid() && |script| <= |old(script)| && faults <= old(faults) && Mine().phase.Releasing?
      ensures old(Quiet()) ==> Quiet() && OthersSame(old(st), st) && st.path == old(st).path
      ensures old(Quiet()) ==> Mine().lock == None && Mine().fd == old(Mine().fd)
      ensures old(trace) <= trace && Retries(trace, me) == Retries(old(trace), me)
      ensures Mine().want == old(Mine().want) && Mine().again == old(Mine().again && Mine().phase.Unlocking?)
    {
      Interfere();
      var fault := Fault();
      if fault {
        Own(FlockUnFails(me));
      } else {
        Own(FlockUn(me));
      }
    }

    /** unlink in release_lock_handle; a failure is only logged. */
    method UnlinkLockFile()
      requires Valid() && Mine().phase.Unlinking?
      modifies this`st, this`script, this`faults, this`trace
      ensures Valid() && |script| <= |old(script)| && faults <= old(faults) && Mine().phase.Closing?
      ensures old(Quiet()) ==> Quiet() && OthersSame(old(st), st) && st.path == None
      ensures old(trace) <= trace && Retries(trace, me) == Retries(old(trace), me)
      ensures Mine().want == old(Mine().want) && Mine().again == old(Mine().again)
    {
      hide Inv, Legal, Exec, Initial, Retries, HandleInv, Compatible, Grantable;
      Interfere();
      var fault := Fault();
      if fault {
        Own(UnlinkFails(me));
      } else {
        Own(Unlink(me));
      }
    }

    /** The part of release_lock_handle that runs under the exclusive flock. */
    method RemoveLockFile()
      requires Valid() && Mine().phase.Probing?
      modifies this`st, this`script, this`faults, this`trace
      ensures Valid() && |script| <= |old(script)| && faults <= old(faults) && Mine().phase.Closing?
      ensures old(Quiet()) ==> Quiet() && OthersSame(old(st), st)
      ensures old(Quiet()) ==> st.path == if old(Names(st, me)) then None else old(st).path
      ensures old(trace) <= trace && Retries(trace, me) == Retries(old(trace), me)
      ensures Mine().want == old(Mine().want) && Mine().again == old(Mine().again)
    {
      hide Inv, Legal, Exec, Initial, Retries, HandleInv, Compatible, Grantable;
      Interfere();
      var fault := Fault();
      if fault {
        Own(StatFails(me));
      } else if !Names(st, me) {
        Own(StatOther(me));
      } else {
        Own(StatSame(me));
        UnlinkLockFile();
      }
    }

    /** release_lock_handle: remove the lock file if nobody else uses it, then close it. */
    method ReleaseLockHandle()
      requires Valid() && Mine().phase.Releasing?
      modifies this`st, this`script, this`faults, this`trace
      ensures Valid() && |script| <= |old(script)| && faults <= old(faults)
      ensures old(Quiet()) ==> Quiet() && OthersSame(old(st), st)
      ensures old(Quiet()) ==>
                st.path == if old(Grantable(st, me, Exclusive) && Names(st, me)) then None else old(st).path
      ensures old(trace) <= trace && Retries(trace, me) == Retries(old(trace), me)
      ensures Mine().phase == (if old(Mine().again) then Wanting else Idle)
      ensures Mine().want == old(Mine().want) && Mine().lock == None
    {
      hide Inv, Legal, Exec, Initial, Retries, HandleInv, Compatible, Grantable;
      Interfere();
      var fault := Fault();
      if fault {
        Own(TryFails(me));
      } else if !Grantable(st, me, Exclusive) {
        Own(TryRefused(me));
      } else {
        Own(TryGranted(me));
        RemoveLockFile();
      }
      Interfere();
      Own(Close(me));
    }

    lemma MineInv()
      requires Valid()
      ensures HandleInv(st, Mine())
    {
    }

    /** acquire_and_verify. The loop goes round again only after the others removed the file we had opened or
        stat failed, so it ends, and `retries` never exceeds their unlinks and those errors. */
    method AcquireAndVerify(want: Kind, blocking: bool) returns (r: int, retries: nat, ghost gotFile: bool)
      requires Valid() && Mine().phase.Idle?
      modifies this
      ensures Valid() && old(trace) <= trace
      ensures r == 0 ==> Mine().phase.Held? && Mine().want == want && Mine().lock == Some(want) && Names(st, me)
      ensures r <= 0 && (gotFile ==> r == 0 || r == -EBUSY || r == -EINVAL)
      ensures r < 0 ==> Mine().phase.Idle? && Mine().lock == None
      ensures gotFile && r == -EBUSY ==> !blocking
      ensures old(Quiet()) ==> gotFile && retries == 0 && Quiet() && OthersSame(old(st), st)
      ensures old(Quiet()) ==> r == if Free(old(st), want) then 0 else if blocking then -EINVAL else -EBUSY
      ensures retries == Retries(trace, me) - Retries(old(trace), me)
      ensures retries <= UnlinksByOthers(trace, me) - UnlinksByOthers(old(trace), me)
                         + StatErrors(trace, me) - StatErrors(old(trace), me)
    {
      hide Inv, Legal, Exec, Initial, Retries, Compatible, Grantable;
      r, retries, gotFile := 0, 0, true;
      Own(Begin(me, want));
      var done := false;
      while !done
        invariant Valid() && old(trace) <= trace
        invariant retries == Retries(trace, me) - Retries(old(trace), me)
        invariant !done ==> Mine().phase.Wanting? && Mine().want == want
        invariant done ==> r <= 0 && (gotFile ==> r == 0 || r == -EBUSY || r == -EINVAL)
        invariant done && r == 0 ==> Mine().phase.Held? && Mine().want == want
        invariant done && r < 0 ==> Mine().phase.Idle?
        invariant done && gotFile && r == -EBUSY ==> !blocking
        invariant old(Quiet()) ==> Quiet() && retries == 0 && OthersSame(old(st), st)
        invariant old(Quiet()) && !done ==> st.path == old(st).path
        invariant old(Quiet()) && done ==>
                    gotFile && r == if Free(old(st), want) then 0 else if blocking then -EINVAL else -EBUSY
        decreases if done then 0 else 1, |script| + faults
      {
        r := OpenResource();
        gotFile := r == 0;
        if r < 0 {
          done := true;
        } else {
          r := FlockFd(blocking);
          if r < 0 {
            ReleaseLockHandle();
            done := true;
          } else {
            r := VerifyLockHandle();
            if r < 0 {
              UnlockFd();
              ReleaseLockHandle();
            }
            if r == -EAGAIN {
              retries := retries + 1;
            } else {
              done := true;
            }
          }
        }
      }
      MineInv();
      RetriesSince(old(st), old(trace));
    }

    /** What was retried since a state without a descriptor is paid for since then. */
    lemma RetriesSince(s: State, before: seq<Step>)
      requires Valid() && before <= trace && Legal(start, before) && Exec(start, before) == s
      requires me < |s.handles| && !s.handles[me].HasFd()
      ensures Retries(trace, me) - Retries(before, me)
           <= UnlinksByOthers(trace, me) - UnlinksByOthers(before, me) + StatErrors(trace, me) - StatErrors(before, me)
    {
      hide Inv, Retries, Legal, Exec;
      var mine := trace[|before|..];
      assert before + mine == trace;
      LegalAppend(start, before, mine);
      CountsAppend(before, mine, me);
      RetryBound(s, mine, me);
    }

    /** unlock_internal. */
    method UnlockInternal()
      requires Valid() && Mine().phase.Held?
      modifies this`st, this`script, this`faults, this`trace
      ensures Valid() && old(trace) <= trace && Mine().phase.Idle? && Mine().lock == None
      ensures old(Quiet()) ==> Quiet() && OthersSame(old(st), st)
      ensures old(Quiet()) ==> st.path == if Free(old(st), Exclusive) then None else old(st).path
    {
      MineInv();
      UnlockFd();
      ReleaseLockHandle();
    }
  }

  // ----- the reference-counted device lock

  class LockHandle {
    var refcnt: nat
    const kind: Kind

    constructor (kind: Kind)
      ensures this.kind == kind && refcnt == 1
    {
      this.kind, refcnt := kind, 1;
    }
  }

  /** How deeply a device is locked, and with which kind of flock. */
  datatype Nest = Nest(count: nat, kind: Option<Kind>)

  datatype Call = ReadLock(granted: bool) | WriteLock(granted: bool) | ReadUnlock | WriteUnlock

  /** What the wrappers assert about the state they are called in. */
  predicate Asserted(n: Nest, c: Call) {
    match c
    case ReadLock(_) => true
    case WriteLock(_) => n.kind != Some(Shared)
    case ReadUnlock => n.count > 0
    case WriteUnlock => n.count > 0 && n.kind == Some(Exclusive)
  }

  /** The effect of a call; `granted` matters only when there is no lock yet. */
  function After(n: Nest, c: Call): Nest
    requires Asserted(n, c)
  {
    match c
    case ReadLock(granted) =>
      if n.count > 0 then n.(count := n.count + 1) else if granted then Nest(1, Some(Shared)) else n
    case WriteLock(granted) =>
      if n.count > 0 then n.(count := n.count + 1) else if granted then Nest(1, Some(Exclusive)) else n
    case _ => if n.count == 1 then Nest(0, None) else n.(count := n.count - 1)
  }

  class Device {
    var lh: LockHandle?
    const kernel: Kernel
    const lockingEnabled: bool

    ghost predicate Valid()
      reads this, lh, kernel
    {
      && kernel.Valid()
      && (lh == null ==> kernel.Mine().phase.Idle?)
      && (lh != null ==> lh.refcnt > 0 && kernel.Mine().phase.Held? && kernel.Mine().want == lh.kind)
    }

    ghost function Nesting(): Nest
      reads this, lh
    {
      if lh == null then Nest(0, None) else Nest(lh.refcnt, Some(lh.kind))
    }

    constructor (kernel: Kernel, lockingEnabled: bool)
      requires kernel.Valid() && kernel.Mine().phase.Idle?
      ensures Valid() && Nesting() == Nest(0, None) && this.kernel == kernel
    {
      this.lh, this.kernel, this.lockingEnabled := null, kernel, lockingEnabled;
    }

    /** device_read_lock. */
    method ReadLock() returns (r: int)
      requires Valid()
      modifies this`lh, lh, kernel
      ensures Valid() && (lh == old(lh) || fresh(lh))
      ensures !lockingEnabled ==> r == 0 && Nesting() == old(Nesting())
      ensures lockingEnabled ==> Nesting() == After(old(Nesting()), Call.ReadLock(r == 0)) && (r == 0 || r == -EBUSY)
      ensures old(Nesting()).count > 0 ==> kernel.trace == old(kernel.trace) && r == 0
      ensures lockingEnabled && old(lh == null && kernel.Quiet()) ==>
                (r == 0 <==> kernel.Free(old(kernel.st), Shared))
    {
      if !lockingEnabled {
        return 0;
      }
      if lh != null {
        lh.refcnt := lh.refcnt + 1;
        return 0;
      }
      var retries;
      ghost var gotFile;
      r, retries, gotFile := kernel.AcquireAndVerify(Shared, true);
      if r < 0 {
        return -EBUSY;
      }
      lh := new LockHandle(Shared);
    }

    /** device_write_lock: the depth on success, a negative error otherwise. */
    method WriteLock() returns (r: int)
      requires Valid()
      requires lockingEnabled ==> Asserted(Nesting(), Call.WriteLock(true))
      modifies this`lh, lh, kernel
      ensures Valid() && (lh == old(lh) || fresh(lh))
      ensures !lockingEnabled ==> r == 0 && Nesting() == old(Nesting())
      ensures lockingEnabled ==> Nesting() == After(old(Nesting()), Call.WriteLock(r > 0))
      ensures lockingEnabled && r >= 0 ==> r == Nesting().count
      ensures old(Nesting()).count > 0 ==> kernel.trace == old(kernel.trace) && r >= 0
      ensures lockingEnabled && old(lh == null && kernel.Quiet()) ==>
                (r > 0 <==> kernel.Free(old(kernel.st), Exclusive))
    {
      if !lockingEnabled {
        return 0;
      }
      if lh != null {
        lh.refcnt := lh.refcnt + 1;
        return lh.refcnt;
      }
      var retries;
      ghost var gotFile;
      r, retries, gotFile := kernel.AcquireAndVerify(Exclusive, true);
      if r < 0 {
        return;
      }
      lh := new LockHandle(Exclusive);
      r := 1;
    }

    /** device_unlock_internal. */
    method UnlockInternal()
      requires Valid() && lh != null
      modifies this`lh, lh, kernel
      ensures Valid() && (lh == old(lh) || lh == null)
      ensures Nesting() == After(old(Nesting()), Call.ReadUnlock)
      ensures old(Nesting()).count == 1 && old(kernel.Quiet()) && kernel.Free(old(kernel.st), Exclusive) ==>
                kernel.st.path == None
      ensures old(Nesting()).count > 1 ==> kernel.trace == old(kernel.trace)
    {
      lh.refcnt := lh.refcnt - 1;
      if lh.refcnt > 0 {
        return;
      }
      kernel.UnlockInternal();
      lh := null;
    }

    /** device_read_unlock. */
    method ReadUnlock()
      requires Valid()
      requires lockingEnabled ==> Asserted(Nesting(), Call.ReadUnlock)
      modifies this`lh, lh, kernel
      ensures Valid() && (lh == old(lh) || lh == null)
      ensures Nesting() == if lockingEnabled then After(old(Nesting()), Call.ReadUnlock) else old(Nesting())
      ensures old(Nesting()).count > 1 ==> kernel.trace == old(kernel.trace)
    {
      if lockingEnabled {
        UnlockInternal();
      }
    }

    /** device_write_unlock. */
    method WriteUnlock()
      requires Valid()
      requires lockingEnabled ==> Asserted(Nesting(), Call.WriteUnlock)
      modifies this`lh, lh, kernel
      ensures Valid() && (lh == old(lh) || lh == null)
      ensures Nesting() == if lockingEnabled then After(old(Nesting()), Call.WriteUnlock) else old(Nesting())
      ensures old(Nesting()).count > 1 ==> kernel.trace == old(kernel.trace)
    {
      if lockingEnabled {
        UnlockInternal();
      }
    }
  }

  // ----- sequences of calls

  /** What a caller may ask for, and a past call: `done` says that it took effect. A call whose assert does not
      hold is not made. */
  datatype Request = WantRead | WantWrite | DropRead | DropWrite

  datatype Past = Past(request: Request, done: bool)
  {
    predicate Locks() { done && (request.WantRead? || request.WantWrite?) }
    predicate Unlocks() { done && (request.DropRead? || request.DropWrite?) }
  }

  function LocksIn(past: seq<Past>): nat {
    if past == [] then 0 else LocksIn(past[..|past| - 1]) + if past[|past| - 1].Locks() then 1 else 0
  }

  function UnlocksIn(past: seq<Past>): nat {
    if past == [] then 0 else UnlocksIn(past[..|past| - 1]) + if past[|past| - 1].Unlocks() then 1 else 0
  }

  /** The flock that the history calls for: none while all locks are undone, and otherwise what the first of
      the outstanding locks asked for. */
  function FlockFor(past: seq<Past>): Option<Kind> {
    if LocksIn(past) <= UnlocksIn(past) then None
    else
      var before, last := past[..|past| - 1], past[|past| - 1];
      if LocksIn(before) > UnlocksIn(before) then FlockFor(before)
      else Some(if last.request.WantWrite? then Exclusive else Shared)
  }

  /** Some lock is outstanding after every call of `more`. */
  ghost predicate StaysLocked(past: seq<Past>, more: seq<Past>)
    decreases |more|
  {
    LocksIn(past) > UnlocksIn(past) && (more != [] ==> StaysLocked(past + [more[0]], more[1..]))
  }

  /** Until the last unlock the flock never changes: nested read locks do not weaken a write lock. */
  lemma {:induction false} KindIsPinned(past: seq<Past>, more: seq<Past>)
    requires StaysLocked(past, more)
    ensures FlockFor(past + more) == FlockFor(past)
    decreases |more|
  {
    if more == [] {
      assert past + more == past;
    } else {
      var next := past + [more[0]];
      assert next[..|next| - 1] == past && next + more[1..] == past + more;
      KindIsPinned(next, more[1..]);
    }
  }

  lemma OneMore(past: seq<Past>, last: Past)
    ensures LocksIn(past + [last]) == LocksIn(past) + (if last.Locks() then 1 else 0)
    ensures UnlocksIn(past + [last]) == UnlocksIn(past) + (if last.Unlocks() then 1 else 0)
    ensures FlockFor(past + [last])
         == if LocksIn(past + [last]) <= UnlocksIn(past + [last]) then None
            else if LocksIn(past) > UnlocksIn(past) then FlockFor(past)
            else Some(if last.request.WantWrite? then Exclusive else Shared)
  {
    assert (past + [last])[..|past|] == past;
  }

  /** The device is in the state that its history calls for. */
  ghost predicate Matches(dev: Device, past: seq<Past>)
    reads dev, dev.lh, dev.kernel
  {
    && dev.Valid()
    && dev.Nesting().count == LocksIn(past) - UnlocksIn(past)
    && dev.kernel.Mine().lock == FlockFor(past)
  }

  lemma FlockHeld(dev: Device)
    requires dev.Valid()
    ensures dev.kernel.Mine().lock == dev.Nesting().kind
  {
    assert HandleInv(dev.kernel.st, dev.kernel.Mine());
  }

  /** One request, made if its assert holds. */
  method Make(dev: Device, request: Request, ghost past: seq<Past>) returns (done: bool)
    requires dev.lockingEnabled && Matches(dev, past)
    modifies dev`lh, dev.lh, dev.kernel
    ensures Matches(dev, past + [Past(request, done)]) && (dev.lh == old(dev.lh) || dev.lh == null || fresh(dev.lh))
    ensures old(dev.Nesting()).count > 0 && dev.Nesting().count > 0 ==> dev.kernel.trace == old(dev.kernel.trace)
    ensures !done ==> dev.Nesting() == old(dev.Nesting())
    ensures request.WantRead? && old(dev.Nesting()).count > 0 ==> done
    ensures request.WantWrite? && old(dev.Nesting()).kind == Some(Exclusive) ==> done
    ensures request.DropRead? ==> done == (old(dev.Nesting()).count > 0)
    ensures request.DropWrite? ==> done == (old(dev.Nesting()).kind == Some(Exclusive))
  {
    hide LocksIn, UnlocksIn, FlockFor;
    OneMore(past, Past(request, true));
    OneMore(past, Past(request, false));
    FlockHeld(dev);
    done := false;
    match request {
      case WantRead =>
        var r := dev.ReadLock();
        done := r == 0;
      case WantWrite =>
        if dev.lh == null || dev.lh.kind.Exclusive? {
          var r := dev.WriteLock();
          done := r > 0;
        }
      case DropRead =>
        if dev.lh != null {
          dev.ReadUnlock();
          done := true;
        }
      case DropWrite =>
        if dev.lh != null && dev.lh.kind.Exclusive? {
          dev.WriteUnlock();
          done := true;
        }
    }
    FlockHeld(dev);
  }

  /** For every sequence of requests to a device that starts unlocked: its reference count is the number of
      granted locks minus unlocks, the flock is held exactly while that is positive, and until the last unlock
      it is of the kind that the first of the outstanding locks asked for. */
  method Play(dev: Device, requests: seq<Request>) returns (past: seq<Past>)
    requires dev.lockingEnabled && dev.Valid() && dev.Nesting().count == 0
    modifies dev`lh, dev.lh, dev.kernel
    ensures |past| == |requests| && forall i :: 0 <= i < |past| ==> past[i].request == requests[i]
    ensures dev.Valid() && dev.Nesting().count == LocksIn(past) - UnlocksIn(past)
    ensures dev.kernel.Mine().lock == FlockFor(past)
    ensures dev.kernel.Mine().lock.Some? <==> dev.Nesting().count > 0
  {
    hide LocksIn, UnlocksIn, FlockFor;
    FlockHeld(dev);
    past := [];
    NoHistory();
    while |past| < |requests|
      invariant |past| <= |requests| && forall i :: 0 <= i < |past| ==> past[i].request == requests[i]
      invariant Matches(dev, past)
      invariant dev.lh == old(dev.lh) || dev.lh == null || fresh(dev.lh)
      decreases |requests| - |past|
    {
      var request := requests[|past|];
      var done := Make(dev, request, past);
      past := past + [Past(request, done)];
    }
    FlockHeld(dev);
  }

  lemma NoHistory()
    ensures LocksIn([]) == 0 && UnlocksIn([]) == 0 && FlockFor([]) == None
  {
  }
}
