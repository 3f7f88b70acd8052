/** For which objects the hashed locks make operations atomic: exactly for those that have the
    same lock whenever they share a byte. */
module AtomicObjects {
  import opened Atomic

  /** What callers name by address and size. */
  datatype Object = Object(ptr: nat, size: nat) {
    predicate Touches(x: int) { ptr <= x < ptr + size }
  }

  ghost predicate ShareByte(a: Object, b: Object) { exists x :: a.Touches(x) && b.Touches(x) }

  /** Objects that share a byte have the same lock. */
  ghost predicate LocksAgree(objects: iset<Object>) {
    forall a, b | a in objects && b in objects && ShareByte(a, b) :: LockFor(a.ptr) == LockFor(b.ptr)
  }

  ghost predicate FitIn(objects: iset<Object>, n: nat) {
    forall o | o in objects :: o.ptr + o.size <= n
  }

  /** All operations on the objects. */
  ghost function OpsOn(objects: iset<Object>, n: nat): iset<Op> {
    iset op: Op | Object(op.ptr, op.size) in objects && op.Fits(n)
  }

  // ----- Reaching states -----

  ghost predicate Reaches(ops: iset<Op>, s: State, s': State) {
    exists run :: Run(ops, s, run, s')
  }

  lemma {:induction false} RunConcat(ops: iset<Op>, s: State, r: seq<Action>, s1: State, r': seq<Action>, s2: State)
    requires Run(ops, s, r, s1) && Run(ops, s1, r', s2)
    ensures Run(ops, s, r + r', s2)
    decreases |r|
  {
    hide Shape, Enabled, Next;
    if r == [] {
      assert r + r' == r';
    } else {
      assert (r + r')[1..] == r[1..] + r';
      RunConcat(ops, Next(ops, s, r[0]), r[1..], s1, r', s2);
    }
  }

  lemma Then(ops: iset<Op>, s: State, s1: State, s2: State)
    requires Reaches(ops, s, s1) && Reaches(ops, s1, s2)
    ensures Reaches(ops, s, s2)
  {
    hide Run;
    var r :| Run(ops, s, r, s1);
    var r' :| Run(ops, s1, r', s2);
    RunConcat(ops, s, r, s1, r', s2);
  }

  lemma Stays(ops: iset<Op>, s: State)
    ensures Reaches(ops, s, s)
  {
    assert Run(ops, s, [], s);
  }

  lemma OneStep(ops: iset<Op>, s: State, a: Action)
    requires Shape(ops, s) && Enabled(ops, s, a)
    ensures Reaches(ops, s, Next(ops, s, a))
  {
    hide Shape, Enabled, Next;
    assert [a][1..] == [];
    assert Run(ops, s, [a], Next(ops, s, a));
  }

  /** A step, and that it can be taken. */
  lemma Take(ops: iset<Op>, s0: State, s: State, a: Action)
    requires Reaches(ops, s0, s) && Shape(ops, s) && Enabled(ops, s, a)
    ensures Reaches(ops, s0, Next(ops, s, a)) && Shape(ops, Next(ops, s, a))
  {
    hide Shape, Enabled, Next, Reaches;
    OneStep(ops, s, a);
    ShapeStep(ops, s, a);
    Then(ops, s0, s, Next(ops, s, a));
  }

  // ----- Two threads inside -----

  /** Nobody is inside on bytes that somebody else is working on. */
  ghost predicate Separate(s: State) {
    forall t, u | 0 <= t < u < |s.threads| && s.threads[t].Inside? && s.threads[u].Inside? ::
      !Overlap(s.threads[t].op, s.threads[u].op)
  }

  ghost function TwoThreads(n: nat): State {
    State(seq(n, i => 0), seq(SPINLOCK_COUNT, i => 0), [Idle, Idle], [], 0)
  }

  lemma TwoThreadsInitial(ops: iset<Op>, n: nat)
    requires forall op | op in ops :: op.Fits(n)
    ensures Initial(ops, TwoThreads(n)) && Shape(ops, TwoThreads(n))
  {
  }

  /** Two operations with different locks get inside together. */
  lemma BothInside(ops: iset<Op>, n: nat, a: Op, b: Op) returns (s: State)
    requires (forall op | op in ops :: op.Fits(n)) && a in ops && b in ops
    requires LockFor(a.ptr) != LockFor(b.ptr)
    ensures Reaches(ops, TwoThreads(n), s) && Shape(ops, s)
    ensures s.memory == TwoThreads(n).memory
    ensures s.threads == [Inside(a, 0, Start(a.kind)), Inside(b, 1, Start(b.kind))]
    ensures |s.log| == 2 && s.log[0].op == a && s.log[1].op == b
  {
    hide LockFor;
    var s0 := TwoThreads(n);
    TwoThreadsInitial(ops, n);
    Stays(ops, s0);
    hide Reaches;
    LockInRange(a.ptr);
    LockInRange(b.ptr);
    Take(ops, s0, s0, Invoke(0, a));
    var s1 := Next(ops, s0, Invoke(0, a));
    Take(ops, s0, s1, Acquire(0));
    var s2 := Next(ops, s1, Acquire(0));
    Take(ops, s0, s2, Invoke(1, b));
    var s3 := Next(ops, s2, Invoke(1, b));
    Take(ops, s0, s3, Acquire(1));
    s := Next(ops, s3, Acquire(1));
  }

  /** The discipline holds if and only if no run has two threads inside on a common byte. */
  lemma DisciplineIsSeparation(ops: iset<Op>, n: nat)
    requires forall op | op in ops :: op.Fits(n)
    ensures Disciplined(ops) <==>
      forall s, s' | Initial(ops, s) && |s.memory| == n && Reaches(ops, s, s') :: Separate(s')
  {
    hide LockFor, Run, Shape, Initial, Overlap;
    if Disciplined(ops) {
      forall s, s' | Initial(ops, s) && |s.memory| == n && Reaches(ops, s, s') ensures Separate(s') {
        var run :| Run(ops, s, run, s');
        forall t, u | 0 <= t < u < |s'.threads| && s'.threads[t].Inside? && s'.threads[u].Inside?
          ensures !Overlap(s'.threads[t].op, s'.threads[u].op)
        {
          MutualExclusion(ops, s, run, s', t, u);
        }
      }
    } else {
      var a, b :| a in ops && b in ops && Overlap(a, b) && LockFor(a.ptr) != LockFor(b.ptr);
      TwoThreadsInitial(ops, n);
      var s' := BothInside(ops, n, a, b);
      assert s'.threads[0].Inside? && s'.threads[1].Inside? && Overlap(s'.threads[0].op, s'.threads[1].op);
      assert |TwoThreads(n).memory| == n;
    }
  }

  // ----- Orders that explain a run -----

  ghost predicate Quiet(s: State) { forall t | 0 <= t < |s.threads| :: !s.threads[t].Inside? }

  /** Run one after the other in this order, the operations return what they returned; what had
      returned before another was called comes before it; and a quiet memory is what they leave. */
  ghost predicate Explains(m0: Bytes, s: State, order: seq<Entry>) {
    && AllFit(|m0|, order)
    && (forall k | 0 <= k < |order| && order[k].returned.Returned? ::
          order[k].returned.result == Answer(m0, order, k).result)
    && (forall j, k | 0 <= j < |order| && 0 <= k < |order| && order[j].returned.Returned? ::
          order[j].returned.time <= order[k].invoked ==> j < k)
    && (Quiet(s) ==> s.memory == Replay(m0, order))
  }

  /** Some order of all the operations does. */
  ghost predicate Explained(m0: Bytes, s: State) {
    exists order: seq<Entry> :: multiset(order) == multiset(s.log) && Explains(m0, s, order)
  }

  /** On a disciplined set of operations the order of acquisition explains every run. */
  lemma DisciplinedExplained(ops: iset<Op>, s: State, s': State)
    requires Disciplined(ops) && Initial(ops, s) && Reaches(ops, s, s')
    ensures Explained(s.memory, s')
  {
    hide Disciplined, Initial, Run, Answer, Replay;
    var run :| Run(ops, s, run, s');
    Linearizable(ops, s, run, s');
    assert Explains(s.memory, s', s'.log);
  }

  // ----- Two exchanges that miss each other -----

  /** A thread that exchanges reads the whole object. */
  lemma {:induction false} ReadAll(ops: iset<Op>, s0: State, s: State, t: nat) returns (s': State)
    requires Reaches(ops, s0, s) && Shape(ops, s) && t < |s.threads|
    requires s.threads[t].Inside? && s.threads[t].phase.Reading? && s.threads[t].op.kind.Exchange?
    requires var op, b := s.threads[t].op, s.threads[t].phase.buffer;
      op.Fits(|s.memory|) && |b| <= op.size && b == Value(s.memory, op)[..|b|]
    ensures Reaches(ops, s0, s') && Shape(ops, s')
    ensures s'.memory == s.memory && s'.log == s.log
    ensures var me := s.threads[t];
      s'.threads == s.threads[t := me.(phase := Writing(0, me.op.kind.value, Former(Value(s.memory, me.op))))]
    decreases s.threads[t].op.size - |s.threads[t].phase.buffer|
  {
    hide Reaches, Value, LockFor;
    var op, b := s.threads[t].op, s.threads[t].phase.buffer;
    Take(ops, s0, s, Work(t));
    s' := Next(ops, s, Work(t));
    if |b| < op.size {
      ByteOf(s.memory, op, |b|);
      s' := ReadAll(ops, s0, s', t);
    } else {
      assert b == Value(s.memory, op);
    }
  }

  /** ... and writes it. */
  lemma {:induction false} WriteAll(ops: iset<Op>, s0: State, s: State, t: nat) returns (s': State)
    requires Reaches(ops, s0, s) && Shape(ops, s) && t < |s.threads|
    requires s.threads[t].Inside? && s.threads[t].phase.Writing?
    ensures Reaches(ops, s0, s') && Shape(ops, s')
    ensures |s'.memory| == |s.memory| && s'.log == s.log
    ensures var me := s.threads[t];
      s'.threads == s.threads[t := me.(phase := Leaving(me.phase.result))]
    decreases s.threads[t].op.size - s.threads[t].phase.i
  {
    hide Reaches, Value, LockFor;
    Take(ops, s0, s, Work(t));
    s' := Next(ops, s, Work(t));
    if s.threads[t].phase.i < s.threads[t].op.size { s' := WriteAll(ops, s0, s', t); }
  }

  /** Both threads read before either writes: both get the bytes of the beginning. */
  lemma MissingExchanges(ops: iset<Op>, n: nat, a: Op, b: Op) returns (s: State)
    requires (forall op | op in ops :: op.Fits(n)) && a in ops && b in ops
    requires LockFor(a.ptr) != LockFor(b.ptr) && a.kind.Exchange? && b.kind.Exchange?
    ensures Reaches(ops, TwoThreads(n), s) && a.Fits(n) && b.Fits(n)
    ensures |s.log| == 2 && s.log[0].op == a && s.log[1].op == b
    ensures s.log[0].returned.Returned? && s.log[0].returned.result == Former(Value(TwoThreads(n).memory, a))
    ensures s.log[1].returned.Returned? && s.log[1].returned.result == Former(Value(TwoThreads(n).memory, b))
    ensures Quiet(s)
  {
    hide LockFor, Value, Reaches;
    var s0 := TwoThreads(n);
    var s1 := BothInside(ops, n, a, b);
    assert a.Fits(|s0.memory|) && b.Fits(|s0.memory|);
    assert Value(s0.memory, a)[..0] == [] && Value(s0.memory, b)[..0] == [];
    var s2 := ReadAll(ops, s0, s1, 0);
    var s3 := ReadAll(ops, s0, s2, 1);
    var s4 := WriteAll(ops, s0, s3, 0);
    var s5 := WriteAll(ops, s0, s4, 1);
    Take(ops, s0, s5, Unlock(0));
    var s6 := Next(ops, s5, Unlock(0));
    Take(ops, s0, s6, Unlock(1));
    s := Next(ops, s6, Unlock(1));
  }

  // ----- No order explains them -----

  lemma TwoOrders(x: Entry, y: Entry, order: seq<Entry>)
    requires multiset(order) == multiset([x, y])
    ensures order == [x, y] || order == [y, x]
  {
    assert |order| == |multiset(order)| == 2;
    assert order == [order[0], order[1]];
    assert order[0] in multiset(order) && order[1] in multiset(order);
    if order[0] == order[1] {
      assert multiset(order)[order[0]] == 2;
    }
  }

  /** Of two exchanges that write new bytes to an object with a common byte, the later one sees
      what the earlier one wrote. */
  lemma LaterSees(m: Bytes, x: Entry, y: Entry, z: int)
    requires x.op.Fits(|m|) && y.op.Fits(|m|) && x.op.kind.Exchange?
    requires x.op.Touches(z) && y.op.Touches(z) && x.op.kind.value[z - x.op.ptr] != m[z]
    requires y.op.kind.Exchange?
    ensures AllFit(|m|, [x, y]) && Answer(m, [x, y], 1).result != Former(Value(m, y.op))
  {
    hide Combine;
    assert [x, y][..1] == [x] && [x][..0] == [];
    assert Replay(m, [x]) == Perform(m, x.op);
    ValueAfter(m, x.op);
    var after := Perform(m, x.op);
    assert Value(after, x.op)[z - x.op.ptr] == after[z];
    assert Value(after, y.op)[z - y.op.ptr] == after[z];
    assert Value(m, y.op)[z - y.op.ptr] == m[z];
  }

  /** An exchange that writes a new byte at z and got what was there at the beginning. */
  ghost predicate Misses(m: Bytes, e: Entry, z: int) {
    && e.op.Fits(|m|) && e.op.kind.Exchange? && e.op.Touches(z) && e.op.kind.value[z - e.op.ptr] != m[z]
    && e.returned.Returned? && e.returned.result == Former(Value(m, e.op))
  }

  lemma NothingExplains(m: Bytes, s: State, z: int)
    requires |s.log| == 2 && Misses(m, s.log[0], z) && Misses(m, s.log[1], z)
    ensures !Explained(m, s)
  {
    hide Answer, Value, Replay;
    var x, y := s.log[0], s.log[1];
    assert s.log == [x, y];
    LaterSees(m, x, y, z);
    LaterSees(m, y, x, z);
    forall order: seq<Entry> | multiset(order) == multiset(s.log) ensures !Explains(m, s, order) {
      TwoOrders(x, y, order);
    }
  }

  // ----- The exact condition -----

  ghost function Ones(n: nat): Bytes { seq(n, i => 1) }

  /** Objects whose locks differ although they share a byte have a run, of two exchanges, that no
      order of the operations explains. */
  lemma TornObjects(objects: iset<Object>, n: nat, a: Object, b: Object)
    requires FitIn(objects, n) && a in objects && b in objects
    requires ShareByte(a, b) && LockFor(a.ptr) != LockFor(b.ptr)
    ensures Initial(OpsOn(objects, n), TwoThreads(n)) && |TwoThreads(n).memory| == n
    ensures exists s' :: Reaches(OpsOn(objects, n), TwoThreads(n), s') && Quiet(s') && !Explained(TwoThreads(n).memory, s')
  {
    hide LockFor, Reaches, Explained, Answer, Replay, Value;
    var ops, m := OpsOn(objects, n), TwoThreads(n).memory;
    var x, y := Op(a.ptr, a.size, Exchange(Ones(a.size))), Op(b.ptr, b.size, Exchange(Ones(b.size)));
    TwoThreadsInitial(ops, n);
    var z :| a.Touches(z) && b.Touches(z);
    var s' := MissingExchanges(ops, n, x, y);
    assert m[z] == 0;
    NothingExplains(m, s', z);
  }

  /** The operations on a set of objects are linearizable in every run if and only if objects
      that share a byte have the same lock. */
  lemma AtomicExactly(objects: iset<Object>, n: nat)
    requires FitIn(objects, n)
    ensures LocksAgree(objects) <==>
      forall s, s' | Initial(OpsOn(objects, n), s) && |s.memory| == n && Reaches(OpsOn(objects, n), s, s') ::
        Explained(s.memory, s')
  {
    hide LockFor, Reaches, Explained, Initial, ShareByte;
    var ops := OpsOn(objects, n);
    if LocksAgree(objects) {
      AgreeDisciplined(objects, n);
      hide Disciplined;
      forall s, s' | Initial(ops, s) && |s.memory| == n && Reaches(ops, s, s') ensures Explained(s.memory, s') {
        DisciplinedExplained(ops, s, s');
      }
    } else {
      var a, b :| a in objects && b in objects && ShareByte(a, b) && LockFor(a.ptr) != LockFor(b.ptr);
      TornObjects(objects, n, a, b);
    }
  }

  lemma AgreeDisciplined(objects: iset<Object>, n: nat)
    requires LocksAgree(objects)
    ensures Disciplined(OpsOn(objects, n))
  {
    hide LockFor;
    forall x, y | x in OpsOn(objects, n) && y in OpsOn(objects, n) && Overlap(x, y)
      ensures LockFor(x.ptr) == LockFor(y.ptr)
    {
      var a, b := Object(x.ptr, x.size), Object(y.ptr, y.size);
      var z := if x.ptr < y.ptr then y.ptr else x.ptr;
      assert a.Touches(z) && b.Touches(z);
      assert ShareByte(a, b);
    }
  }

  /** Two views of one 32-byte object: a run of two exchanges that is not atomic. */
  lemma LargeObjectsCounterexample()
    ensures var objects := iset{Object(0, 32), Object(16, 16)};
      && Initial(OpsOn(objects, 32), TwoThreads(32))
      && exists s' :: Reaches(OpsOn(objects, 32), TwoThreads(32), s') && Quiet(s') && !Explained(TwoThreads(32).memory, s')
  {
    hide LockFor, Reaches, Explained, Initial;
    var objects := iset{Object(0, 32), Object(16, 16)};
    LargeObjectLocks();
    assert Object(0, 32).Touches(16) && Object(16, 16).Touches(16);
    TornObjects(objects, 32, Object(0, 32), Object(16, 16));
  }
}
