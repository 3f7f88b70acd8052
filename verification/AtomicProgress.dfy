/** What each step under the hashed locks does, and that every operation can be brought to its end. */
module AtomicProgress {
  import opened Atomic
  import opened AtomicObjects

  /** What holds in every run of any operations. */
  ghost predicate Sound(ops: iset<Op>, s: State) {
    Shape(ops, s) && Exclusive(s) && OwnEntries(s)
  }

  /** Only this thread, and the clock, are different. */
  predicate OnlyThread(s: State, s': State, t: nat, thread: Thread) {
    t < |s.threads| && s'.threads == s.threads[t := thread] && s'.clock == s.clock + 1
  }

  ghost predicate Called(s: State, s': State, t: nat, op: Op) {
    OnlyThread(s, s', t, Spinning(op, s.clock)) && s'.memory == s.memory && s'.locks == s.locks && s'.log == s.log
  }

  /** A thread gets in exactly when nobody is inside under the same lock. */
  ghost predicate Tried(s: State, s': State, t: nat, op: Op, invoked: nat) {
    && t < |s.threads| && s'.memory == s.memory
    && if Held(s, LockFor(op.ptr)) then s' == s.(clock := s.clock + 1)
       else OnlyThread(s, s', t, Inside(op, |s.log|, Start(op.kind)))
            && s'.log == s.log + [Entry(op, invoked, s.clock, Pending)]
  }

  /** It works on its own bytes alone, and what it is doing does not change. */
  ghost predicate Worked(s: State, s': State, t: nat, op: Op, entry: nat) {
    && t < |s.threads| == |s'.threads| && s'.log == s.log && s'.locks == s.locks && |s'.memory| == |s.memory|
    && (forall x | 0 <= x < |s.memory| && !op.Touches(x) :: s'.memory[x] == s.memory[x])
    && s'.threads[t].Inside? && s'.threads[t].op == op && s'.threads[t].entry == entry
    && OnlyThread(s, s', t, s'.threads[t])
  }

  /** Its entry gets the result, and nobody is inside under this lock any more. */
  ghost predicate Returns(s: State, s': State, t: nat, op: Op, entry: nat, result: Result) {
    && OnlyThread(s, s', t, Idle) && s'.memory == s.memory && entry < |s.log|
    && s'.log == s.log[entry := s.log[entry].(returned := Returned(result, s.clock))]
    && !Held(s', LockFor(op.ptr))
  }

  /** What each kind of step does. */
  lemma Effects(ops: iset<Op>, s: State, a: Action)
    requires Sound(ops, s) && Enabled(ops, s, a)
    ensures var s', me := Next(ops, s, a), s.threads[a.t];
      match a
      case Invoke(t, op) => Called(s, s', t, op)
      case Acquire(t) => Tried(s, s', t, me.op, me.invoked)
      case Work(t) => Worked(s, s', t, me.op, me.entry)
      case Unlock(t) => Returns(s, s', t, me.op, me.entry, me.phase.result)
  {
    hide LockFor, Combine;
    if a.Acquire? || a.Unlock? { LockInRange(s.threads[a.t].op.ptr); }
    if a.Unlock? { ExclusiveStep(ops, s, a); }
  }

  // ----- Every operation can be brought to its end -----

  lemma TakeStep(ops: iset<Op>, s: State, a: Action)
    requires Sound(ops, s) && Enabled(ops, s, a)
    ensures Sound(ops, Next(ops, s, a)) && Reaches(ops, s, Next(ops, s, a))
  {
    hide Exclusive, OwnEntries, Shape, Enabled, Next;
    ExclusiveStep(ops, s, a);
    OneStep(ops, s, a);
  }

  /** A thread that is inside finishes on its own. */
  lemma {:induction false} Leave(ops: iset<Op>, s: State, t: nat) returns (s': State)
    requires Sound(ops, s) && t < |s.threads| && s.threads[t].Inside?
    ensures Sound(ops, s') && Reaches(ops, s, s') && s'.threads == s.threads[t := Idle]
    decreases Left(s.threads[t].op, s.threads[t].phase) + 1
  {
    hide Exclusive, OwnEntries, Next, Reaches, Left, Tried, Called;
    CriticalSectionEnds(ops, s, t);
    var a := if s.threads[t].phase.Leaving? then Unlock(t) else Work(t);
    TakeStep(ops, s, a);
    Effects(ops, s, a);
    s' := Next(ops, s, a);
    if a.Work? {
      var s1 := s';
      s' := Leave(ops, s1, t);
      Then(ops, s, s1, s');
    }
  }

  /** When nobody is inside, a thread that waits gets in at its next attempt. */
  lemma Enter(ops: iset<Op>, s: State, t: nat) returns (s': State)
    requires Sound(ops, s) && t < |s.threads| && s.threads[t].Spinning?
    requires forall u | 0 <= u < |s.threads| :: !s.threads[u].Inside?
    ensures Sound(ops, s') && Reaches(ops, s, s') && s'.threads == s.threads[t := Idle]
  {
    hide Exclusive, OwnEntries, Next, Reaches;
    TakeStep(ops, s, Acquire(t));
    Effects(ops, s, Acquire(t));
    var s1 := Next(ops, s, Acquire(t));
    s' := Leave(ops, s1, t);
    Then(ops, s, s1, s');
  }

  function Busy(ts: seq<Thread>): nat {
    if ts == [] then 0 else Busy(ts[1..]) + if ts[0].Idle? then 0 else 1
  }

  lemma {:induction false} BusyLess(ts: seq<Thread>, t: nat)
    requires t < |ts| && !ts[t].Idle?
    ensures Busy(ts[t := Idle]) == Busy(ts) - 1
  {
    if t == 0 {
      assert ts[0 := Idle][1..] == ts[1..];
    } else {
      assert ts[t := Idle][1..] == ts[1..][t - 1 := Idle];
      BusyLess(ts[1..], t - 1);
    }
  }

  ghost predicate AllIdle(s: State) { forall t | 0 <= t < |s.threads| :: s.threads[t].Idle? }

  lemma {:induction false} Finishing(ops: iset<Op>, s: State) returns (s': State)
    requires Sound(ops, s)
    ensures Reaches(ops, s, s') && AllIdle(s')
    decreases Busy(s.threads)
  {
    hide Sound, Reaches, Busy, Run;
    var s1 := s;
    if t :| 0 <= t < |s.threads| && s.threads[t].Inside? {
      s1 := Leave(ops, s, t);
      BusyLess(s.threads, t);
    } else if t :| 0 <= t < |s.threads| && s.threads[t].Spinning? {
      s1 := Enter(ops, s, t);
      BusyLess(s.threads, t);
    } else {
      Stays(ops, s);
      return s;
    }
    s' := Finishing(ops, s1);
    Then(ops, s, s1, s');
  }

  /** No deadlock: every run of any operations can be continued until every operation that was
      called has returned. */
  lemma CanFinish(ops: iset<Op>, s: State, run: seq<Action>, s': State)
    requires Initial(ops, s) && Run(ops, s, run, s')
    ensures exists s'' :: Reaches(ops, s', s'') && AllIdle(s'')
  {
    hide Reaches, Run, Exclusive, OwnEntries, Shape;
    BeginsSound(ops, s);
    SoundRun(ops, s, run, s');
    var s'' := Finishing(ops, s');
  }

  lemma BeginsSound(ops: iset<Op>, s: State)
    requires Initial(ops, s)
    ensures Sound(ops, s)
  {
  }

  lemma {:induction false} SoundRun(ops: iset<Op>, s: State, run: seq<Action>, s': State)
    requires Sound(ops, s) && Run(ops, s, run, s')
    ensures Sound(ops, s')
    decreases |run|
  {
    hide Shape, Exclusive, OwnEntries, Next, Enabled;
    if run != [] {
      ExclusiveStep(ops, s, run[0]);
      SoundRun(ops, Next(ops, s, run[0]), run[1..], s');
    }
  }
}
