/** `__shared_count` and `__shared_weak_count`: the reference counts behind shared_ptr and
    weak_ptr, as a state machine whose steps are the atomic operations of any number of threads. */
module SharedCount {

  /** Where a thread stands inside an operation on the counts. */
  datatype Pc =
    | Idle
    | Locking(seen: int) // inside `lock`, holding the last value that was read
    | OnZeroShared       // `__release_shared` reached -1; `__on_zero_shared` runs next
    | LoadWeak           // at the plain load of `__release_weak`
    | DecrementWeak      // the load saw something other than 0
    | OnZeroWeak         // `__on_zero_shared_weak` runs next

  /** A thread with the strong and weak references it holds. Code that runs nested inside
      `__on_zero_shared` is a thread of its own here. */
  datatype Thread = Thread(strong: nat, weak: nat, pc: Pc)

  datatype Event = ZeroShared | ZeroWeak | Locked | Expired

  /** The two counts hold one less than the number of owners. */
  datatype State = State(owners: int, weakOwners: int, threads: seq<Thread>, log: seq<Event>)

  datatype Action =
    | AddShared(t: nat)
    | AddWeak(t: nat)
    | GiveShared(t: nat, to: nat)
    | GiveWeak(t: nat, to: nat)
    | ReleaseShared(t: nat)
    | RunZeroShared(t: nat)
    | ReleaseWeak(t: nat)
    | ReadWeak(t: nat)
    | SubtractWeak(t: nat)
    | RunZeroWeak(t: nat)
    | StartLock(t: nat)
    | TryLock(t: nat)

  // ----- The steps -----

  /** What a thread may do: it acts only on references that it holds. */
  predicate Enabled(s: State, a: Action) {
    a.t < |s.threads| &&
    var me := s.threads[a.t];
    match a
    case AddShared(_) => me.pc.Idle? && me.strong > 0
    case AddWeak(_) => me.pc.Idle? && (me.strong > 0 || me.weak > 0)
    case GiveShared(_, to) => me.pc.Idle? && me.strong > 0 && to < |s.threads| && to != a.t
    case GiveWeak(_, to) => (me.pc.Idle? || me.pc.OnZeroShared?) && me.weak > 0 && to < |s.threads| && to != a.t
    case ReleaseShared(_) => me.pc.Idle? && me.strong > 0
    case RunZeroShared(_) => me.pc.OnZeroShared?
    case ReleaseWeak(_) => me.pc.Idle? && me.weak > 0
    case ReadWeak(_) => me.pc.LoadWeak?
    case SubtractWeak(_) => me.pc.DecrementWeak?
    case RunZeroWeak(_) => me.pc.OnZeroWeak?
    case StartLock(_) => me.pc.Idle? && me.weak > 0
    case TryLock(_) => me.pc.Locking?
  }

  function Next(s: State, a: Action): State
    requires Enabled(s, a)
  {
    var me := s.threads[a.t];
    match a
    case AddShared(t) =>
      s.(owners := s.owners + 1, threads := s.threads[t := me.(strong := me.strong + 1)])
    case AddWeak(t) =>
      s.(weakOwners := s.weakOwners + 1, threads := s.threads[t := me.(weak := me.weak + 1)])
    case GiveShared(t, to) =>
      var you := s.threads[to];
      s.(threads := s.threads[t := me.(strong := me.strong - 1)][to := you.(strong := you.strong + 1)])
    case GiveWeak(t, to) =>
      var you := s.threads[to];
      s.(threads := s.threads[t := me.(weak := me.weak - 1)][to := you.(weak := you.weak + 1)])
    case ReleaseShared(t) =>
      var pc := if s.owners - 1 == -1 then OnZeroShared else Idle;
      s.(owners := s.owners - 1, threads := s.threads[t := me.(strong := me.strong - 1, pc := pc)])
    case RunZeroShared(t) =>
      s.(threads := s.threads[t := me.(pc := LoadWeak)], log := s.log + [ZeroShared])
    case ReleaseWeak(t) =>
      s.(threads := s.threads[t := me.(weak := me.weak - 1, pc := LoadWeak)])
    case ReadWeak(t) =>
      s.(threads := s.threads[t := me.(pc := if s.weakOwners == 0 then OnZeroWeak else DecrementWeak)])
    case SubtractWeak(t) =>
      var pc := if s.weakOwners - 1 == -1 then OnZeroWeak else Idle;
      s.(weakOwners := s.weakOwners - 1, threads := s.threads[t := me.(pc := pc)])
    case RunZeroWeak(t) =>
      s.(threads := s.threads[t := me.(pc := Idle)], log := s.log + [ZeroWeak])
    case StartLock(t) =>
      s.(threads := s.threads[t := me.(pc := Locking(s.owners))])
    case TryLock(t) =>
      if me.pc.seen == -1 then
        s.(threads := s.threads[t := me.(pc := Idle)], log := s.log + [Expired])
      else if s.owners == me.pc.seen then
        s.(owners := me.pc.seen + 1, threads := s.threads[t := me.(pc := Idle, strong := me.strong + 1)],
           log := s.log + [Locked])
      else
        s.(threads := s.threads[t := me.(pc := Locking(s.owners))])
  }

  /** One strong reference, held by thread 0: the state behind a new shared_ptr. */
  function Initial(n: nat): State
    requires n > 0
  {
    State(0, 0, [Thread(1, 0, Idle)] + AtRestTimes(n - 1), [])
  }

  function AtRestTimes(n: nat): seq<Thread> {
    if n == 0 then [] else [Thread(0, 0, Idle)] + AtRestTimes(n - 1)
  }

  /** The actions can be taken one after the other, and lead to s'. */
  ghost predicate Run(s: State, run: seq<Action>, s': State)
    decreases |run|
  {
    if run == [] then s' == s else Enabled(s, run[0]) && Run(Next(s, run[0]), run[1..], s')
  }

  ghost predicate Reachable(s: State) {
    exists n: nat, run: seq<Action> :: n > 0 && Run(Initial(n), run, s)
  }

  // ----- Adding up the threads -----

  /** What threads hold and owe: strong references, weak references held or being released,
      calls of `__on_zero_shared` and of `__on_zero_shared_weak` about to happen. */
  datatype Tally = Tally(strong: int, weak: int, zeroing: int, destroying: int) {
    function Plus(o: Tally): Tally {
      Tally(strong + o.strong, weak + o.weak, zeroing + o.zeroing, destroying + o.destroying)
    }
    function Minus(o: Tally): Tally {
      Tally(strong - o.strong, weak - o.weak, zeroing - o.zeroing, destroying - o.destroying)
    }
    predicate Covers(o: Tally) {
      strong >= o.strong && weak >= o.weak && zeroing >= o.zeroing && destroying >= o.destroying
    }
  }

  function Of(t: Thread): Tally {
    Tally(t.strong,
          t.weak + (if t.pc.OnZeroShared? || t.pc.LoadWeak? || t.pc.DecrementWeak? then 1 else 0),
          if t.pc.OnZeroShared? then 1 else 0,
          if t.pc.OnZeroWeak? then 1 else 0)
  }

  function All(ts: seq<Thread>): Tally {
    if ts == [] then Tally(0, 0, 0, 0) else Of(ts[0]).Plus(All(ts[1..]))
  }

  lemma {:induction false} Replace(ts: seq<Thread>, i: nat, t: Thread)
    requires i < |ts|
    ensures All(ts[i := t]) == All(ts).Minus(Of(ts[i])).Plus(Of(t))
  {
    if i == 0 {
      assert ts[0 := t][1..] == ts[1..];
    } else {
      assert ts[i := t][1..] == ts[1..][i - 1 := t];
      Replace(ts[1..], i - 1, t);
    }
  }

  lemma Covered(ts: seq<Thread>, i: nat)
    requires i < |ts|
    ensures All(ts).Covers(Of(ts[i])) && All(ts[i := Thread(0, 0, Idle)]).Covers(Tally(0, 0, 0, 0))
  {
    NotNegative(ts[i := Thread(0, 0, Idle)]);
    Replace(ts, i, Thread(0, 0, Idle));
  }

  lemma {:induction false} NotNegative(ts: seq<Thread>)
    ensures All(ts).Covers(Tally(0, 0, 0, 0))
  {
    if ts != [] { NotNegative(ts[1..]); }
  }

  predicate AtRest(t: Thread) { t.strong == 0 && t.weak == 0 && t.pc.Idle? }

  lemma {:induction false} NothingHeld(ts: seq<Thread>)
    requires forall i | 0 <= i < |ts| :: AtRest(ts[i])
    ensures All(ts) == Tally(0, 0, 0, 0)
  {
    if ts != [] {
      var first, rest := ts[0], ts[1..];
      assert AtRest(first);
      forall i | 0 <= i < |rest| ensures AtRest(rest[i]) { assert AtRest(ts[i + 1]); }
      NothingHeld(rest);
    }
  }

  function Occurs(log: seq<Event>, e: Event): nat {
    if log == [] then 0 else Occurs(log[..|log| - 1], e) + if log[|log| - 1] == e then 1 else 0
  }

  lemma Logged(log: seq<Event>, x: Event, e: Event)
    ensures Occurs(log + [x], e) == Occurs(log, e) + if x == e then 1 else 0
  {
    assert (log + [x])[..|log|] == log;
  }

  // ----- The invariant -----

  function B(b: bool): int { if b then 1 else 0 }

  /** All weak references: those of the threads, and the one that all strong owners share. */
  function WeakRefs(s: State): int { All(s.threads).weak + B(s.owners >= 0) }

  /** The counts count the references; each callback is owed or done exactly once its side is
      dead; a thread inside `lock` holds a weak reference and reads -1 only from a dead count. */
  ghost predicate Inv(s: State) {
    && Counts(s)
    && forall i | 0 <= i < |s.threads| :: ThreadOk(s.owners, s.threads[i])
  }

  ghost predicate Counts(s: State) {
    var all := All(s.threads);
    && s.owners + 1 == all.strong
    && Occurs(s.log, ZeroShared) + all.zeroing == B(s.owners == -1)
    && Occurs(s.log, ZeroWeak) + all.destroying == B(WeakRefs(s) == 0)
    && (WeakRefs(s) > 0 ==> s.weakOwners + 1 == WeakRefs(s))
  }

  ghost predicate ThreadOk(owners: int, t: Thread) {
    t.pc.Locking? ==> t.weak > 0 && t.pc.seen >= -1 && (t.pc.seen == -1 ==> owners == -1)
  }

  lemma {:induction false} AtRestAll(n: nat)
    ensures |AtRestTimes(n)| == n && forall i | 0 <= i < n :: AtRest(AtRestTimes(n)[i])
  {
    if n > 0 { AtRestAll(n - 1); }
  }

  lemma AllFirst(ts: seq<Thread>)
    requires ts != []
    ensures All(ts) == Of(ts[0]).Plus(All(ts[1..]))
  {
  }

  lemma OneAmongResting(first: Thread, rest: seq<Thread>)
    requires forall i | 0 <= i < |rest| :: AtRest(rest[i])
    ensures All([first] + rest) == Of(first)
  {
    hide All, AtRest;
    var ts := [first] + rest;
    assert ts[0] == first && ts[1..] == rest;
    AllFirst(ts);
    NothingHeld(rest);
  }

  lemma InitialInv(n: nat)
    requires n > 0
    ensures Inv(Initial(n)) && |Initial(n).threads| == n && Strong(Initial(n)) == Weak(Initial(n)) == 1
    ensures Initial(n).threads[0].strong == 1 && Initial(n).log == []
  {
    hide All, AtRestTimes;
    var first, rest := Thread(1, 0, Idle), AtRestTimes(n - 1);
    AtRestAll(n - 1);
    OneAmongResting(first, rest);
    forall i | 0 <= i < n ensures ([first] + rest)[i].pc.Idle? {
      if i > 0 { assert AtRest(rest[i - 1]); }
    }
  }

  /** Every step of every thread keeps the invariant. */
  lemma InvStep(s: State, a: Action)
    requires Inv(s) && Enabled(s, a)
    ensures Inv(Next(s, a))
  {
    hide All, Occurs, Counts;
    CountsStep(s, a);
    CountsBound(s);
    CountsBound(Next(s, a));
    if s.owners == -1 { DeadStep(s, a); }
  }

  lemma CountsBound(s: State)
    requires Counts(s)
    ensures s.owners >= -1
    ensures s.owners == -1 ==> forall i | 0 <= i < |s.threads| :: s.threads[i].strong == 0
  {
    hide All, Occurs;
    NotNegative(s.threads);
    forall i | 0 <= i < |s.threads| ensures All(s.threads).strong >= s.threads[i].strong { Covered(s.threads, i); }
  }

  lemma CountsStep(s: State, a: Action)
    requires Inv(s) && Enabled(s, a)
    ensures Counts(Next(s, a))
  {
    hide All, Occurs;
    var s' := Next(s, a);
    Covered(s.threads, a.t);
    Replace(s.threads, a.t, Thread(0, 0, Idle));
    if a.GiveShared? || a.GiveWeak? {
      var me := s.threads[a.t];
      var gave := if a.GiveShared? then me.(strong := me.strong - 1) else me.(weak := me.weak - 1);
      Replace(s.threads, a.t, gave);
      Replace(s.threads[a.t := gave], a.to, s'.threads[a.to]);
    } else {
      Replace(s.threads, a.t, s'.threads[a.t]);
    }
    forall x, e ensures Occurs(s.log + [x], e) == Occurs(s.log, e) + if x == e then 1 else 0 {
      Logged(s.log, x, e);
    }
  }

  lemma {:induction false} InvRun(s: State, run: seq<Action>, s': State)
    requires Inv(s) && Run(s, run, s')
    ensures Inv(s')
    decreases |run|
  {
    hide Inv;
    if run != [] {
      InvStep(s, run[0]);
      InvRun(Next(s, run[0]), run[1..], s');
    }
  }

  lemma ReachableInv(s: State)
    requires Reachable(s)
    ensures Inv(s)
  {
    hide Inv, Run;
    var n: nat, run: seq<Action> :| n > 0 && Run(Initial(n), run, s);
    InitialInv(n);
    InvRun(Initial(n), run, s);
  }

  // ----- What holds in every run -----

  /** Each callback fires at most once; the second only after the first. */
  lemma AtMostOnce(s: State)
    requires Reachable(s)
    ensures Occurs(s.log, ZeroWeak) <= Occurs(s.log, ZeroShared) <= 1
  {
    ReachableInv(s);
    NotNegative(s.threads);
    OwedIsHeld(s.threads);
  }

  /** A thread that still has to call `__on_zero_shared` has a weak reference to give back. */
  lemma {:induction false} OwedIsHeld(ts: seq<Thread>)
    ensures All(ts).zeroing <= All(ts).weak
  {
    if ts != [] { OwedIsHeld(ts[1..]); }
  }

  /** `__on_zero_shared` is called with no strong reference left anywhere. */
  lemma ZeroSharedIsLast(s: State, a: Action)
    requires Reachable(s) && Enabled(s, a) && a.RunZeroShared?
    ensures s.owners == -1 && forall i | 0 <= i < |s.threads| :: s.threads[i].strong == 0
  {
    hide All, Occurs;
    ReachableInv(s);
    Covered(s.threads, a.t);
    forall i | 0 <= i < |s.threads| ensures s.threads[i].strong == 0 { Covered(s.threads, i); NotNegative(s.threads); }
  }

  /** Once `__on_zero_shared_weak` is about to run, or has run, the strong side is dead, its own
      callback is done, no reference is left, no other thread is inside any operation, and
      nothing but this one call can ever happen: the counts are not touched again. */
  lemma DestroyedAlone(s: State)
    requires Reachable(s)
    requires (exists i | 0 <= i < |s.threads| :: s.threads[i].pc.OnZeroWeak?) || ZeroWeak in s.log
    ensures s.owners == -1 && Occurs(s.log, ZeroShared) == 1
    ensures forall i | 0 <= i < |s.threads| :: s.threads[i].strong == 0 && s.threads[i].weak == 0
    ensures forall i | 0 <= i < |s.threads| :: s.threads[i].pc.Idle? || s.threads[i].pc.OnZeroWeak?
    ensures forall i, j | 0 <= i < j < |s.threads| :: s.threads[i].pc.Idle? || s.threads[j].pc.Idle?
    ensures forall a | Enabled(s, a) :: a.RunZeroWeak? && ZeroWeak !in s.log
  {
    hide All, Occurs;
    ReachableInv(s);
    NotNegative(s.threads);
    if ZeroWeak in s.log { OccursIn(s.log, ZeroWeak); }
    forall i | 0 <= i < |s.threads| ensures All(s.threads).Covers(Of(s.threads[i])) { Covered(s.threads, i); }
    assert WeakRefs(s) == 0;
    OwedIsHeld(s.threads);
    forall i, j | 0 <= i < j < |s.threads| ensures s.threads[i].pc.Idle? || s.threads[j].pc.Idle? {
      var others := s.threads[i := Thread(0, 0, Idle)];
      Replace(s.threads, i, Thread(0, 0, Idle));
      Covered(others, j);
    }
    forall a | Enabled(s, a) ensures a.RunZeroWeak? && ZeroWeak !in s.log {
      if ZeroWeak in s.log { OccursIn(s.log, ZeroWeak); }
    }
  }

  lemma {:induction false} OccursIn(log: seq<Event>, e: Event)
    requires e in log
    ensures Occurs(log, e) >= 1
  {
    var last := |log| - 1;
    if log[last] != e {
      assert log == log[..last] + [log[last]];
      OccursIn(log[..last], e);
    }
  }

  /** Nothing leaks: when every reference is gone and every thread has come to rest, both
      callbacks have run, once each. */
  lemma NothingLeaks(s: State)
    requires Reachable(s)
    requires forall i | 0 <= i < |s.threads| :: AtRest(s.threads[i])
    ensures Occurs(s.log, ZeroShared) == 1 && Occurs(s.log, ZeroWeak) == 1
  {
    ReachableInv(s);
    NothingHeld(s.threads);
  }

  // ----- lock -----

  lemma DeadStep(s: State, a: Action)
    requires Inv(s) && s.owners == -1 && Enabled(s, a)
    ensures Next(s, a).owners == -1
    ensures Occurs(Next(s, a).log, Locked) == Occurs(s.log, Locked)
  {
    hide All, Occurs;
    Covered(s.threads, a.t);
    NotNegative(s.threads);
    assert s.threads[a.t].strong == 0;
    forall x ensures Occurs(s.log + [x], Locked) == Occurs(s.log, Locked) + if x == Locked then 1 else 0 {
      Logged(s.log, x, Locked);
    }
  }

  /** A count that reached -1 stays there in every continuation: no `lock` succeeds again and
      no thread gets a strong reference. */
  lemma {:induction false} NeverRevived(s: State, run: seq<Action>, s': State)
    requires Inv(s) && s.owners == -1 && Run(s, run, s')
    ensures s'.owners == -1 && Occurs(s'.log, Locked) == Occurs(s.log, Locked)
    ensures forall i | 0 <= i < |s'.threads| :: s'.threads[i].strong == 0
    decreases |run|
  {
    hide All, Occurs;
    if run == [] {
      NotNegative(s.threads);
      forall i | 0 <= i < |s.threads| ensures s.threads[i].strong == 0 { Covered(s.threads, i); }
    } else {
      DeadStep(s, run[0]);
      InvStep(s, run[0]);
      NeverRevived(Next(s, run[0]), run[1..], s');
    }
  }

  /** `lock` gives up only when the object is dead, and takes a reference only when, at that
      moment, there is a strong owner; otherwise it looks again. */
  lemma LockAnswers(s: State, t: nat)
    requires Reachable(s) && Enabled(s, TryLock(t))
    ensures var s' := Next(s, TryLock(t));
      && (s'.log == s.log + [Expired] ==> s.owners == -1)
      && (s'.log == s.log + [Locked] ==> s.owners >= 0 && s'.owners == s.owners + 1
                                         && s'.threads[t].strong == s.threads[t].strong + 1)
      && (s'.log == s.log ==> s'.threads[t].pc == Locking(s.owners))
      && (s'.log == s.log + [Expired] || s'.log == s.log + [Locked] || s'.log == s.log)
  {
    hide All, Occurs;
    ReachableInv(s);
    NotNegative(s.threads);
    assert s.log + [Expired] != s.log + [Locked] by {
      assert (s.log + [Expired])[|s.log|] == Expired;
      assert (s.log + [Locked])[|s.log|] == Locked;
    }
  }

  /** Undisturbed, `lock` answers in two steps: a reference if and only if the object lives. */
  lemma LockAlone(s: State, t: nat)
    requires Reachable(s) && Enabled(s, StartLock(t))
    ensures var s1 := Next(s, StartLock(t));
      && Enabled(s1, TryLock(t))
      && Next(s1, TryLock(t)).threads[t].pc.Idle?
      && Next(s1, TryLock(t)).log == s.log + [if s.owners == -1 then Expired else Locked]
  {
  }

  // ----- The plain load of __release_weak -----

  /** What the step would do without the fast path: always decrement. */
  function PlainRelease(s: State, t: nat): State
    requires Enabled(s, ReadWeak(t))
  {
    Next(s.(threads := s.threads[t := s.threads[t].(pc := DecrementWeak)]), SubtractWeak(t))
  }

  /** The load sees 0 exactly when the reference being released is the last one of all, and
      then the fast path takes the same branch as the decrement would, undisturbed; only the
      store of -1, which nobody can read any more, is missing. */
  lemma FastPathIsDecrement(s: State, t: nat)
    requires Reachable(s) && Enabled(s, ReadWeak(t))
    ensures s.weakOwners == 0 <==> WeakRefs(s) == 1
    ensures s.weakOwners == 0 ==> s.owners == -1 && Next(s, ReadWeak(t)) == PlainRelease(s, t).(weakOwners := 0)
    ensures s.weakOwners == 0 ==> forall a | Enabled(s, a) :: a == ReadWeak(t)
    ensures s.weakOwners != 0 ==> Next(s, ReadWeak(t)).threads[t].pc == DecrementWeak
  {
    hide All, Occurs;
    ReachableInv(s);
    Covered(s.threads, t);
    assert WeakRefs(s) > 0;
    if s.weakOwners == 0 {
      AloneWithLast(s, t);
      assert PlainRelease(s, t).threads == s.threads[t := s.threads[t].(pc := OnZeroWeak)];
    }
  }

  /** The thread that gives back the last weak reference is the only one that can do anything. */
  lemma AloneWithLast(s: State, t: nat)
    requires Inv(s) && Enabled(s, ReadWeak(t)) && WeakRefs(s) == 1
    ensures s.owners == -1
    ensures forall a | Enabled(s, a) :: a == ReadWeak(t)
  {
    hide All, Occurs;
    Covered(s.threads, t);
    var others := s.threads[t := Thread(0, 0, Idle)];
    Replace(s.threads, t, Thread(0, 0, Idle));
    NotNegative(others);
    NotNegative(s.threads);
    forall a | Enabled(s, a) ensures a == ReadWeak(t) {
      if a.t != t {
        Covered(others, a.t);
      } else {
        assert Of(s.threads[t]).weak == 1 + s.threads[t].weak;
      }
    }
  }

  // ----- What every step does to the references -----

  /** Strong references that exist. */
  function Strong(s: State): int { All(s.threads).strong }

  /** Weak references that exist: the strong ones have one in common. */
  function Weak(s: State): int { All(s.threads).weak + if Strong(s) > 0 then 1 else 0 }

  /** The attempt of `lock` finds the number of strong references that it has read. */
  predicate Succeeds(s: State, a: Action)
    requires Enabled(s, a)
  {
    a.TryLock? && s.threads[a.t].pc.seen == Strong(s) - 1 >= 0
  }

  predicate Passes(a: Action, from: nat, i: nat) {
    (a.GiveShared? || a.GiveWeak?) && a.t == from && a.to == i
  }

  function StrongGain(s: State, a: Action, i: nat): int
    requires Enabled(s, a)
  {
    if i == a.t then
      if a.AddShared? || Succeeds(s, a) then 1 else if a.GiveShared? || a.ReleaseShared? then -1 else 0
    else if a.GiveShared? && a.to == i then 1 else 0
  }

  function WeakGain(a: Action, i: nat): int {
    if i == a.t then
      if a.AddWeak? then 1 else if a.GiveWeak? || a.ReleaseWeak? then -1 else 0
    else if a.GiveWeak? && a.to == i then 1 else 0
  }

  /** Where the thread stands after its step, by the references that exist. */
  function PcAfter(s: State, a: Action): Pc
    requires Enabled(s, a)
  {
    match a
    case ReleaseShared(_) => if Strong(s) == 1 then OnZeroShared else Idle
    case RunZeroShared(_) => LoadWeak
    case ReleaseWeak(_) => LoadWeak
    case ReadWeak(_) => if Weak(s) == 1 then OnZeroWeak else DecrementWeak
    case SubtractWeak(_) => if Weak(s) == 1 then OnZeroWeak else Idle
    case StartLock(t) => Locking(Strong(s) - 1)
    case TryLock(t) => if Succeeds(s, a) || s.threads[t].pc.seen == -1 then Idle else Locking(Strong(s) - 1)
    case RunZeroWeak(_) => Idle
    case _ => s.threads[a.t].pc
  }

  function Events(s: State, a: Action): seq<Event>
    requires Enabled(s, a)
  {
    if a.RunZeroShared? then [ZeroShared] else if a.RunZeroWeak? then [ZeroWeak]
    else if Succeeds(s, a) then [Locked] else if a.TryLock? && s.threads[a.t].pc.seen == -1 then [Expired]
    else []
  }

  /** The counts decide as counting all references would: every step changes the references that
      it is meant to change and no others, and goes on to a callback exactly when the reference
      that it gives back is the last one. */
  lemma Effects(s: State, a: Action)
    requires Reachable(s) && Enabled(s, a)
    ensures var s' := Next(s, a);
      && |s'.threads| == |s.threads| && s'.log == s.log + Events(s, a) && s'.threads[a.t].pc == PcAfter(s, a)
      && forall i | 0 <= i < |s.threads| ::
        && s'.threads[i].strong == s.threads[i].strong + StrongGain(s, a, i)
        && s'.threads[i].weak == s.threads[i].weak + WeakGain(a, i)
        && (i != a.t ==> s'.threads[i].pc == s.threads[i].pc)
  {
    hide All, Occurs;
    ReachableInv(s);
    NotNegative(s.threads);
    Covered(s.threads, a.t);
    if a.ReadWeak? || a.SubtractWeak? { assert WeakRefs(s) >= 1; }
  }

  // ----- Everything can be brought to an end -----

  /** An upper bound of the steps that a thread needs to give back all it has. */
  function Work(t: Thread): nat {
    5 * t.strong + 4 * t.weak
    + match t.pc
      case Idle => 0
      case OnZeroWeak => 1
      case DecrementWeak => 2
      case LoadWeak => 3
      case OnZeroShared => 4
      case Locking(_) => 7
  }

  function WorkOfAll(ts: seq<Thread>): nat {
    if ts == [] then 0 else Work(ts[0]) + WorkOfAll(ts[1..])
  }

  lemma {:induction false} WorkReplaced(ts: seq<Thread>, i: nat, t: Thread)
    requires i < |ts|
    ensures WorkOfAll(ts[i := t]) == WorkOfAll(ts) - Work(ts[i]) + Work(t)
  {
    if i == 0 {
      assert ts[0 := t][1..] == ts[1..];
    } else {
      assert ts[i := t][1..] == ts[1..][i - 1 := t];
      WorkReplaced(ts[1..], i - 1, t);
    }
  }

  /** What a thread that is not at rest does to come to rest. */
  function Winding(t: nat, me: Thread): Action {
    match me.pc
    case Idle => if me.strong > 0 then ReleaseShared(t) else ReleaseWeak(t)
    case OnZeroWeak => RunZeroWeak(t)
    case DecrementWeak => SubtractWeak(t)
    case LoadWeak => ReadWeak(t)
    case OnZeroShared => RunZeroShared(t)
    case Locking(_) => TryLock(t)
  }

  /** Such a step can be taken in every state; it reduces the work, or it makes `lock` look again,
      which then answers at the next step. */
  lemma Winds(s: State, t: nat)
    requires t < |s.threads| && !AtRest(s.threads[t])
    ensures var a := Winding(t, s.threads[t]);
      && Enabled(s, a)
      && var s' := Next(s, a);
      && |s'.threads| == |s.threads|
      && (WorkOfAll(s'.threads) < WorkOfAll(s.threads)
          || (s' == s.(threads := s.threads[t := s'.threads[t]]) && s'.threads[t].pc == Locking(s.owners)
              && WorkOfAll(s'.threads) == WorkOfAll(s.threads)))
      && (s.threads[t].pc == Locking(s.owners) ==> WorkOfAll(s'.threads) < WorkOfAll(s.threads))
  {
    hide WorkOfAll;
    var s' := Next(s, Winding(t, s.threads[t]));
    WorkReplaced(s.threads, t, s'.threads[t]);
  }

  ghost predicate Ended(s: State) {
    && Occurs(s.log, ZeroShared) == 1 && Occurs(s.log, ZeroWeak) == 1
    && forall i | 0 <= i < |s.threads| :: AtRest(s.threads[i])
  }

  /** From every reachable state there is a run after which nobody holds a reference and every
      thread is at rest; so then both callbacks have run exactly once. */
  lemma CanFinish(s: State)
    requires Reachable(s)
    ensures exists run, s' :: Run(s, run, s') && Reachable(s') && Ended(s')
  {
    hide Run, Occurs, AtRest;
    var run, s' := Finishing(s);
    assert Reachable(s') by {
      var n: nat, before: seq<Action> :| n > 0 && Run(Initial(n), before, s);
      RunJoined(Initial(n), before, s, run, s');
    }
    NothingLeaks(s');
  }

  lemma {:induction false} Finishing(s: State) returns (run: seq<Action>, s': State)
    ensures Run(s, run, s') && forall i | 0 <= i < |s'.threads| :: AtRest(s'.threads[i])
    decreases WorkOfAll(s.threads)
  {
    hide WorkOfAll, AtRest;
    if t :| 0 <= t < |s.threads| && !AtRest(s.threads[t]) {
      Winds(s, t);
      var a := Winding(t, s.threads[t]);
      var s1 := Next(s, a);
      if WorkOfAll(s1.threads) < WorkOfAll(s.threads) {
        run, s' := Finishing(s1);
        run := [a] + run;
      } else {
        assert !AtRest(s1.threads[t]) by { StillLocking(s1.threads[t]); }
        Winds(s1, t);
        var b := Winding(t, s1.threads[t]);
        run, s' := Finishing(Next(s1, b));
        assert Run(s1, [b] + run, s');
        run := [a] + ([b] + run);
      }
    } else {
      run, s' := [], s;
    }
  }

  lemma StillLocking(t: Thread)
    requires t.pc.Locking?
    ensures !AtRest(t)
  {
  }

  lemma {:induction false} RunJoined(s: State, run: seq<Action>, s1: State, more: seq<Action>, s2: State)
    requires Run(s, run, s1) && Run(s1, more, s2)
    ensures Run(s, run + more, s2)
    decreases |run|
  {
    if run == [] {
      assert run + more == more;
    } else {
      RunJoined(Next(s, run[0]), run[1..], s1, more, s2);
      assert (run + more)[1..] == run[1..] + more;
    }
  }

  /** One step more. */
  lemma Then(s0: State, run: seq<Action>, s: State, a: Action) returns (more: seq<Action>, s': State)
    requires Run(s0, run, s) && Enabled(s, a)
    ensures s' == Next(s, a) && Run(s0, more, s')
  {
    more, s' := run + [a], Next(s, a);
    assert Run(s', [], s') && [a][1..] == [];
    assert Run(s, [a], s');
    RunJoined(s0, run, s, [a], s');
  }

  lemma TwoThreads()
    ensures Initial(2) == State(0, 0, [Thread(1, 0, Idle), Thread(0, 0, Idle)], [])
    ensures Run(Initial(2), [], Initial(2))
  {
    assert AtRestTimes(1) == [Thread(0, 0, Idle)] + AtRestTimes(0);
  }

  lemma Sharing() returns (run: seq<Action>, s: State)
    ensures Run(Initial(2), run, s) && s == State(2, 1, [Thread(1, 0, Idle), Thread(2, 1, Idle)], [Locked])
  {
    hide Run, Initial;
    var i := Initial(2);
    TwoThreads();
    run, s := Then(i, [], i, AddWeak(0));
    run, s := Then(i, run, s, GiveWeak(0, 1));
    run, s := Then(i, run, s, AddShared(0));
    run, s := Then(i, run, s, GiveShared(0, 1));
    assert s == State(1, 1, [Thread(1, 0, Idle), Thread(1, 1, Idle)], []);
    run, s := Then(i, run, s, StartLock(1));
    run, s := Then(i, run, s, TryLock(1));
  }

  lemma Dying(i: State, before: seq<Action>, s0: State) returns (run: seq<Action>, s: State)
    requires Run(i, before, s0) && s0 == State(2, 1, [Thread(1, 0, Idle), Thread(2, 1, Idle)], [Locked])
    ensures Run(i, run, s)
    ensures s == State(-1, 1, [Thread(0, 0, LoadWeak), Thread(0, 1, Idle)], [Locked, ZeroShared, Expired])
  {
    hide Run;
    run, s := Then(i, before, s0, ReleaseShared(1));
    run, s := Then(i, run, s, ReleaseShared(1));
    run, s := Then(i, run, s, ReleaseShared(0));
    assert s == State(-1, 1, [Thread(0, 0, OnZeroShared), Thread(0, 1, Idle)], [Locked]);
    run, s := Then(i, run, s, RunZeroShared(0));
    run, s := Then(i, run, s, StartLock(1));
    run, s := Then(i, run, s, TryLock(1));
  }

  /** A run that takes every kind of step: a weak and a second strong reference pass to another
      thread, `lock` succeeds, all strong ones go, `lock` fails, all weak ones go. */
  lemma Lifecycle()
    ensures exists run, s :: Run(Initial(2), run, s) && s.log == [Locked, ZeroShared, Expired, ZeroWeak]
  {
    hide Run, Initial;
    var i := Initial(2);
    var run, s := Sharing();
    run, s := Dying(i, run, s);
    run, s := Then(i, run, s, ReadWeak(0));
    run, s := Then(i, run, s, SubtractWeak(0));
    assert s == State(-1, 0, [Thread(0, 0, Idle), Thread(0, 1, Idle)], [Locked, ZeroShared, Expired]);
    run, s := Then(i, run, s, ReleaseWeak(1));
    run, s := Then(i, run, s, ReadWeak(1));
    run, s := Then(i, run, s, RunZeroWeak(1));
  }
}
