/** Atomic operations on objects of any size under a hashed table of spin locks, as a state
    machine whose steps read or write one byte, or one lock word. */
module Atomic {
  import opened Bits

  type Bytes = seq<nat>

  const SPINLOCK_COUNT: nat := 1024
  const SPINLOCK_MASK: nat := SPINLOCK_COUNT - 1

  // ----- Operations -----

  datatype Fetch = Add | Sub | BitAnd | BitOr | BitXor

  datatype Kind =
    | Load
    | Store(value: Bytes)
    | Exchange(value: Bytes)
    | CompareExchange(expected: Bytes, desired: Bytes)
    | FetchOp(fetch: Fetch, value: Bytes)

  datatype Op = Op(ptr: nat, size: nat, kind: Kind) {
    /** The operands have the size of the object, which lies in memory. */
    predicate Fits(n: nat) {
      && ptr + size <= n
      && match kind
         case Load => true
         case Store(v) => |v| == size
         case Exchange(v) => |v| == size
         case CompareExchange(e, d) => |e| == size && |d| == size
         case FetchOp(_, v) => |v| == size
    }

    predicate Touches(x: int) { ptr <= x < ptr + size }
  }

  /** What the caller gets back: nothing, the former value, or the answer of a comparison. */
  datatype Result = Done | Former(value: Bytes) | Exchanged | Different(value: Bytes)

  /** Little-endian numbers. */
  function Number(b: Bytes): nat { if b == [] then 0 else b[0] + 256 * Number(b[1..]) }

  function ToBytes(n: nat, size: nat): (b: Bytes)
    ensures |b| == size
  {
    if size == 0 then [] else [n % 256] + ToBytes(n / 256, size - 1)
  }

  /** `tmp op val` on unsigned integers of the size of the object. */
  function Combine(f: Fetch, a: Bytes, b: Bytes): (r: Bytes)
    ensures |r| == |a|
  {
    var x, y := Number(a), Number(b);
    ToBytes(match f
      case Add => x + y
      case Sub => Low(x - y, 8 * |a|)
      case BitAnd => And(x, y)
      case BitOr => Or(x, y)
      case BitXor => Xor(x, y), |a|)
  }

  lemma Scale256(q: int, k: nat)
    ensures Scale(q, k + 8) == 256 * Scale(q, k) && Pow2(k + 8) == 256 * Pow2(k)
  {
    Next4(q, k);
    Next4(q, k + 4);
  }

  lemma Next4(q: int, k: nat)
    ensures Scale(q, k + 4) == 16 * Scale(q, k) && Pow2(k + 4) == 16 * Pow2(k)
  {
    hide Scale, Pow2;
    Bits.Next(q, k);
    Bits.Next(q, k + 1);
    Bits.Next(q, k + 2);
    Bits.Next(q, k + 3);
  }

  /** The bytes of a number hold it modulo 256 to their number. */
  lemma {:induction false} NumberOfBytes(n: nat, size: nat)
    ensures Number(ToBytes(n, size)) == Low(n, 8 * size)
  {
    hide Scale, Pow2, Low, Shr;
    if size == 0 {
      assert Pow2(0) == 1 by { LowNothing(n); }
      LowNothing(n);
    } else {
      var k, t := 8 * (size - 1), ToBytes(n / 256, size - 1);
      NumberOfBytes(n / 256, size - 1);
      assert ([n % 256] + t)[1..] == t;
      HighLow(n / 256, k);
      Scale256(Shr(n / 256, k), k);
      HighLowUnique(n, k + 8, Shr(n / 256, k), 256 * Low(n / 256, k) + n % 256);
    }
  }

  lemma LowNothing(n: nat)
    ensures Low(n, 0) == 0 && Pow2(0) == 1
  {
  }

  lemma SubtractAdded(x: int, y: int, w: nat)
    ensures Low(Low(x + y, w) - y, w) == Low(x, w)
  {
    hide Scale, Pow2, Low, Shr;
    HighLow(x + y, w);
    HighLow(x, w);
    var q := Shr(x, w) - Shr(x + y, w);
    ScaleAdd(q, Shr(x + y, w), w);
    HighLowUnique(Low(x + y, w) - y, w, q, Low(x, w));
  }

  lemma CombineAddSub(a: Bytes, b: Bytes)
    ensures Number(Combine(Add, a, b)) == Low(Number(a) + Number(b), 8 * |a|)
    ensures Number(Combine(Sub, a, b)) == Low(Number(a) - Number(b), 8 * |a|)
  {
    hide Pow2, Low, Number, ToBytes;
    var x: int, y: int, w := Number(a), Number(b), 8 * |a|;
    NumberOfBytes(x + y, |a|);
    NumberOfBytes(Low(x - y, w), |a|);
    LowSmall(Low(x - y, w), w);
  }

  /** Fetch-and-add and fetch-and-subtract work modulo 2 to the bits of the object, and the
      second undoes the first. */
  lemma SumsWrap(a: Bytes, b: Bytes)
    ensures var w := 8 * |a|;
      && Number(Combine(Add, a, b)) == Low(Number(a) + Number(b), w)
      && Number(Combine(Sub, a, b)) == Low(Number(a) - Number(b), w)
      && Number(Combine(Sub, Combine(Add, a, b), b)) == Low(Number(a), w)
  {
    hide Low, Number, ToBytes;
    CombineAddSub(a, b);
    CombineAddSub(Combine(Add, a, b), b);
    SubtractAdded(Number(a), Number(b), 8 * |a|);
  }

  datatype Outcome = Outcome(result: Result, value: Bytes)

  /** The operation done at once: its result and the new value of the object. */
  function AtOnce(kind: Kind, was: Bytes): Outcome {
    match kind
    case Load => Outcome(Former(was), was)
    case Store(v) => Outcome(Done, v)
    case Exchange(v) => Outcome(Former(was), v)
    case CompareExchange(e, d) => if was == e then Outcome(Exchanged, d) else Outcome(Different(was), was)
    case FetchOp(f, v) => Outcome(Former(was), Combine(f, was, v))
  }

  function Value(m: Bytes, op: Op): (v: Bytes)
    requires op.Fits(|m|)
    ensures |v| == op.size
  {
    m[op.ptr..op.ptr + op.size]
  }

  /** Memory after the operation was done at once. */
  function Perform(m: Bytes, op: Op): (r: Bytes)
    requires op.Fits(|m|)
    ensures |r| == |m|
  {
    m[..op.ptr] + AtOnce(op.kind, Value(m, op)).value + m[op.ptr + op.size..]
  }

  // ----- Locks -----

  /** `lock_for_pointer`, as an index into `locks`. */
  function LockFor(ptr: nat): nat {
    var hash := Shr(ptr, 4);
    And(Xor(Shr(hash, 16), And(hash, SPINLOCK_MASK)), SPINLOCK_MASK)
  }

  lemma LockInRange(ptr: nat)
    ensures LockFor(ptr) < SPINLOCK_COUNT
  {
    hide And, Xor, Shr;
    assert Pow2(10) == 1024;
    var hash := Shr(ptr, 4);
    AndMask(Xor(Shr(hash, 16), And(hash, SPINLOCK_MASK)), 10);
  }

  /** The two operations have a byte in common. */
  predicate Overlap(a: Op, b: Op) {
    a.size > 0 && b.size > 0 && a.ptr < b.ptr + b.size && b.ptr < a.ptr + a.size
  }

  /** Operations that share a byte use the same lock. */
  ghost predicate Disciplined(ops: iset<Op>) {
    forall a, b | a in ops && b in ops && Overlap(a, b) :: LockFor(a.ptr) == LockFor(b.ptr)
  }

  /** Objects that keep within 16 bytes aligned to 16 meet the discipline, in any mixture of
      addresses and sizes; so do objects of any size that are always named by one address. */
  lemma GranulesDisciplined(ops: iset<Op>)
    requires forall a, b | a in ops && b in ops && Overlap(a, b) ::
      a.ptr == b.ptr || (InGranule(a) && InGranule(b))
    ensures Disciplined(ops)
  {
    hide And, Xor, Shr;
    forall a, b | a in ops && b in ops && Overlap(a, b) ensures LockFor(a.ptr) == LockFor(b.ptr) {
      Shr4(a.ptr);
      Shr4(b.ptr);
    }
  }

  predicate InGranule(o: Op) { o.ptr % 16 + o.size <= 16 }

  lemma Shr4(x: int)
    ensures Shr(x, 4) == x / 16
  {
    assert Shr(x / 2 / 2 / 2 / 2, 0) == x / 16;
    assert Shr(x / 2 / 2 / 2, 1) == x / 16;
    assert Shr(x / 2 / 2, 2) == x / 16;
    assert Shr(x / 2, 3) == x / 16;
  }

  /** Two views of one 32-byte object get different locks. */
  lemma LargeObjectLocks()
    ensures LockFor(0) != LockFor(16)
  {
    Shr4(0);
    Shr4(16);
    XorZero(1);
    XorZero(0);
    assert And(1, 1023) == 1 && And(0, 1023) == 0;
    ShrSmall(16);
  }

  lemma {:induction false} ShrSmall(k: nat)
    ensures Shr(0, k) == 0 && (k > 0 ==> Shr(1, k) == 0)
  {
    if k > 0 { ShrSmall(k - 1); }
  }

  // ----- The machine -----

  /** How far a thread is inside its critical section. */
  datatype Phase =
    | Comparing(i: nat)
    | Reading(buffer: Bytes)
    | Writing(i: nat, value: Bytes, result: Result)
    | Leaving(result: Result)

  datatype Thread =
    | Idle
    | Spinning(op: Op, invoked: nat)
    | Inside(op: Op, entry: nat, phase: Phase)

  /** One acquisition of a lock: the operation, the times at which it was called and at which
      it got the lock, and its result and the time of its return. */
  datatype Entry = Entry(op: Op, invoked: nat, acquired: nat, returned: Return)
  datatype Return = Pending | Returned(result: Result, time: nat)

  datatype State = State(memory: Bytes, locks: seq<nat>, threads: seq<Thread>, log: seq<Entry>, clock: nat)

  datatype Action = Invoke(t: nat, op: Op) | Acquire(t: nat) | Work(t: nat) | Unlock(t: nat)

  function Start(kind: Kind): Phase {
    match kind
    case Load => Reading([])
    case Store(v) => Writing(0, v, Done)
    case Exchange(_) => Reading([])
    case CompareExchange(_, _) => Comparing(0)
    case FetchOp(_, _) => Reading([])
  }

  /** What follows when the whole object has been read. */
  function AfterReading(kind: Kind, buffer: Bytes): Phase {
    match kind
    case Load => Leaving(Former(buffer))
    case Store(v) => Leaving(Done)
    case Exchange(v) => Writing(0, v, Former(buffer))
    case CompareExchange(_, _) => Leaving(Different(buffer))
    case FetchOp(f, v) => Writing(0, Combine(f, buffer, v), Former(buffer))
  }

  ghost predicate Enabled(ops: iset<Op>, s: State, a: Action) {
    a.t < |s.threads| &&
    match a
    case Invoke(t, op) => s.threads[t].Idle? && op in ops
    case Acquire(t) => s.threads[t].Spinning?
    case Work(t) => s.threads[t].Inside? && !s.threads[t].phase.Leaving?
    case Unlock(t) => s.threads[t].Inside? && s.threads[t].phase.Leaving?
  }

  /** One byte of work: the next phase and the memory. */
  function Progress(m: Bytes, op: Op, phase: Phase): (Phase, Bytes)
    requires op.Fits(|m|) && PhaseFits(op, phase) && !phase.Leaving?
  {
    match phase
    case Comparing(i) =>
      if i == op.size then (Writing(0, op.kind.desired, Exchanged), m)
      else if m[op.ptr + i] == op.kind.expected[i] then (Comparing(i + 1), m)
      else (Reading([]), m)
    case Reading(buffer) =>
      if |buffer| == op.size then (AfterReading(op.kind, buffer), m)
      else (Reading(buffer + [m[op.ptr + |buffer|]]), m)
    case Writing(i, value, result) =>
      if i == op.size then (Leaving(result), m)
      else (Writing(i + 1, value, result), m[op.ptr + i := value[i]])
  }

  predicate PhaseFits(op: Op, phase: Phase) {
    match phase
    case Comparing(i) => i <= op.size && op.kind.CompareExchange? && |op.kind.expected| == op.size
    case Reading(buffer) => |buffer| <= op.size
    case Writing(i, value, _) => i <= op.size && |value| == op.size
    case Leaving(_) => true
  }

  /** What keeps every access in bounds; part of the invariant below. */
  ghost predicate Shape(ops: iset<Op>, s: State) {
    && |s.locks| == SPINLOCK_COUNT
    && (forall op | op in ops :: op.Fits(|s.memory|))
    && (forall t | 0 <= t < |s.threads| && s.threads[t].Spinning? :: s.threads[t].op in ops)
    && (forall t | 0 <= t < |s.threads| && s.threads[t].Inside? ::
          && s.threads[t].op in ops && s.threads[t].entry < |s.log|
          && PhaseFits(s.threads[t].op, s.threads[t].phase))
  }

  ghost function Next(ops: iset<Op>, s: State, a: Action): State
    requires Shape(ops, s) && Enabled(ops, s, a)
  {
    var me := s.threads[a.t];
    var now := s.(clock := s.clock + 1);
    match a
    case Invoke(t, op) => now.(threads := s.threads[t := Spinning(op, s.clock)])
    case Acquire(t) =>
      LockInRange(me.op.ptr);
      if s.locks[LockFor(me.op.ptr)] != 0 then now // the exchange fails; the loop tries again
      else
        now.(locks := s.locks[LockFor(me.op.ptr) := 1],
             threads := s.threads[t := Inside(me.op, |s.log|, Start(me.op.kind))],
             log := s.log + [Entry(me.op, me.invoked, s.clock, Pending)])
    case Work(t) =>
      var (phase, memory) := Progress(s.memory, me.op, me.phase);
      now.(memory := memory, threads := s.threads[t := me.(phase := phase)])
    case Unlock(t) =>
      LockInRange(me.op.ptr);
      now.(locks := s.locks[LockFor(me.op.ptr) := 0],
           threads := s.threads[t := Idle],
           log := s.log[me.entry := s.log[me.entry].(returned := Returned(me.phase.result, s.clock))])
  }

  // ----- The sequential replay -----

  ghost predicate AllFit(n: nat, log: seq<Entry>) { forall k | 0 <= k < |log| :: log[k].op.Fits(n) }

  /** The operations of the log done at once, one after the other. */
  ghost function Replay(m: Bytes, log: seq<Entry>): (r: Bytes)
    requires AllFit(|m|, log)
    ensures |r| == |m|
  {
    if log == [] then m else Perform(Replay(m, log[..|log| - 1]), log[|log| - 1].op)
  }

  /** What operation k returns when the log is run sequentially. */
  ghost function Answer(m: Bytes, log: seq<Entry>, k: nat): Outcome
    requires AllFit(|m|, log) && k < |log|
  {
    AtOnce(log[k].op.kind, Value(Replay(m, log[..k]), log[k].op))
  }

  // ----- The invariant -----

  /** Locks are held by at most one thread, and a lock word is set only while it is held. */
  ghost predicate Exclusive(s: State) {
    && |s.locks| == SPINLOCK_COUNT
    && (forall t | 0 <= t < |s.threads| && s.threads[t].Inside? ::
          LockFor(s.threads[t].op.ptr) < SPINLOCK_COUNT && s.locks[LockFor(s.threads[t].op.ptr)] == 1)
    && (forall t, u | 0 <= t < u < |s.threads| && s.threads[t].Inside? && s.threads[u].Inside? ::
          LockFor(s.threads[t].op.ptr) != LockFor(s.threads[u].op.ptr))
    && (forall l | 0 <= l < SPINLOCK_COUNT && s.locks[l] != 0 :: Held(s, l))
  }

  ghost predicate Held(s: State, l: nat) {
    exists t :: 0 <= t < |s.threads| && s.threads[t].Inside? && LockFor(s.threads[t].op.ptr) == l
  }

  /** How a phase relates the former value of the object to its present bytes. */
  ghost predicate PhaseOk(op: Op, phase: Phase, was: Bytes, present: Bytes) {
    && |was| == op.size == |present|
    && match phase
       case Comparing(i) => op.kind.CompareExchange? && i <= op.size && present == was && |op.kind.expected| == op.size
                            && forall j | 0 <= j < i :: was[j] == op.kind.expected[j]
       case Reading(b) => |b| <= op.size && present == was && b == was[..|b|] && !op.kind.Store?
                          && (op.kind.CompareExchange? ==> was != op.kind.expected)
       case Writing(i, value, result) => i <= op.size && AtOnce(op.kind, was) == Outcome(result, value)
                                         && |value| == op.size && present == value[..i] + was[i..]
       case Leaving(result) => AtOnce(op.kind, was) == Outcome(result, present)
  }

  /** A byte that no thread is working on. */
  ghost predicate Free(s: State, x: int) {
    forall t | 0 <= t < |s.threads| && s.threads[t].Inside? :: !s.threads[t].op.Touches(x)
  }

  /** Memory is the replay of the log, but for the objects that threads are working on. */
  ghost predicate Contents(m0: Bytes, s: State) {
    && |s.memory| == |m0| && AllFit(|m0|, s.log)
    && (forall x | 0 <= x < |m0| && Free(s, x) :: s.memory[x] == Replay(m0, s.log)[x])
    && (forall t | 0 <= t < |s.threads| && s.threads[t].Inside? :: Working(m0, s, s.threads[t]))
  }

  ghost predicate Working(m0: Bytes, s: State, me: Thread)
    requires me.Inside? && |s.memory| == |m0| && AllFit(|m0|, s.log)
  {
    && me.entry < |s.log| && s.log[me.entry].op == me.op && s.log[me.entry].returned.Pending?
    && me.op.Fits(|m0|)
    && PhaseOk(me.op, me.phase, Value(Replay(m0, s.log[..me.entry]), me.op), Value(s.memory, me.op))
    && Value(Replay(m0, s.log), me.op) == Answer(m0, s.log, me.entry).value
  }

  /** Entries stand in the order of acquisition, times are past, and what has been returned is
      the sequential answer. */
  ghost predicate History(m0: Bytes, s: State) {
    && AllFit(|m0|, s.log)
    && (forall k | 0 <= k < |s.log| :: Timely(s.log[k], s.clock))
    && (forall j, k | 0 <= j < k < |s.log| :: s.log[j].acquired < s.log[k].acquired)
    && (forall t | 0 <= t < |s.threads| && s.threads[t].Spinning? :: s.threads[t].invoked < s.clock)
    && (forall k | 0 <= k < |s.log| && s.log[k].returned.Returned? ::
          s.log[k].returned.result == Answer(m0, s.log, k).result)
  }

  ghost predicate Timely(e: Entry, clock: nat) {
    && e.invoked < e.acquired < clock
    && (e.returned.Returned? ==> e.acquired < e.returned.time < clock)
  }

  ghost predicate Inv(ops: iset<Op>, m0: Bytes, s: State) {
    Shape(ops, s) && Exclusive(s) && Contents(m0, s) && History(m0, s) && OwnEntries(s)
  }

  /** No two threads work on the same entry. */
  ghost predicate OwnEntries(s: State) {
    forall t, u | 0 <= t < u < |s.threads| && s.threads[t].Inside? && s.threads[u].Inside? ::
      s.threads[t].entry != s.threads[u].entry
  }

  /** All threads idle and all locks free. */
  ghost predicate Initial(ops: iset<Op>, s: State) {
    && |s.locks| == SPINLOCK_COUNT && (forall l | 0 <= l < SPINLOCK_COUNT :: s.locks[l] == 0)
    && (forall t | 0 <= t < |s.threads| :: s.threads[t].Idle?)
    && s.log == [] && (forall op | op in ops :: op.Fits(|s.memory|))
  }

  ghost predicate Run(ops: iset<Op>, s: State, run: seq<Action>, s': State)
    decreases |run|
  {
    if run == [] then s' == s
    else Shape(ops, s) && Enabled(ops, s, run[0]) && Run(ops, Next(ops, s, run[0]), run[1..], s')
  }

  // ----- Replay under changes of the log -----

  lemma ReplaySnoc(m: Bytes, log: seq<Entry>, e: Entry)
    requires AllFit(|m|, log) && e.op.Fits(|m|)
    ensures AllFit(|m|, log + [e])
    ensures Replay(m, log + [e]) == Perform(Replay(m, log), e.op)
  {
    hide Perform;
    assert (log + [e])[..|log|] == log;
  }

  /** The replay does not look at times and results. */
  lemma {:induction false} ReplaySame(m: Bytes, log: seq<Entry>, log': seq<Entry>)
    requires AllFit(|m|, log) && |log'| == |log| && forall k | 0 <= k < |log| :: log'[k].op == log[k].op
    ensures AllFit(|m|, log') && Replay(m, log') == Replay(m, log)
  {
    hide Perform;
    if log != [] {
      ReplaySame(m, log[..|log| - 1], log'[..|log| - 1]);
    }
  }

  lemma ValueAfter(m: Bytes, op: Op)
    requires op.Fits(|m|)
    ensures |AtOnce(op.kind, Value(m, op)).value| == op.size
    ensures Value(Perform(m, op), op) == AtOnce(op.kind, Value(m, op)).value
    ensures forall x | 0 <= x < |m| && !op.Touches(x) :: Perform(m, op)[x] == m[x]
  {
    hide Combine;
  }

  lemma ValueElsewhere(m: Bytes, m': Bytes, op: Op)
    requires op.Fits(|m|) && |m'| == |m|
    requires forall x | 0 <= x < |m| && op.Touches(x) :: m'[x] == m[x]
    ensures Value(m', op) == Value(m, op)
  {
    assert Value(m', op) == Value(m, op) by {
      forall j | 0 <= j < op.size ensures Value(m', op)[j] == Value(m, op)[j] {
        assert op.Touches(op.ptr + j);
      }
    }
  }

  // ----- Every step keeps the invariant -----

  lemma ProgressPhase(m: Bytes, op: Op, phase: Phase, was: Bytes)
    requires op.Fits(|m|) && PhaseFits(op, phase) && !phase.Leaving?
    requires PhaseOk(op, phase, was, Value(m, op))
    ensures var (phase', m') := Progress(m, op, phase);
      && |m'| == |m| && PhaseFits(op, phase')
      && (forall x | 0 <= x < |m| && !op.Touches(x) :: m'[x] == m[x])
      && PhaseOk(op, phase', was, Value(m', op))
  {
    hide Value, PhaseOk;
    match phase {
      case Comparing(i) => ComparedMore(m, op, i, was);
      case Reading(b) => ReadMore(m, op, b, was);
      case Writing(i, value, result) => WrittenMore(m, op, i, value, result, was);
    }
  }

  lemma ComparedMore(m: Bytes, op: Op, i: nat, was: Bytes)
    requires op.Fits(|m|) && PhaseFits(op, Comparing(i)) && PhaseOk(op, Comparing(i), was, Value(m, op))
    ensures PhaseFits(op, Progress(m, op, Comparing(i)).0)
    ensures PhaseOk(op, Progress(m, op, Comparing(i)).0, was, Value(m, op))
  {
    hide Value;
    if i == op.size {
      assert was == op.kind.expected;
      assert op.kind.desired[..0] + was[0..] == was;
    } else {
      ByteOf(m, op, i);
      assert was[..0] == [];
    }
  }

  lemma ReadMore(m: Bytes, op: Op, b: Bytes, was: Bytes)
    requires op.Fits(|m|) && PhaseFits(op, Reading(b)) && PhaseOk(op, Reading(b), was, Value(m, op))
    ensures PhaseFits(op, Progress(m, op, Reading(b)).0)
    ensures PhaseOk(op, Progress(m, op, Reading(b)).0, was, Value(m, op))
  {
    hide Value, Combine;
    if |b| == op.size {
      assert b == was;
      assert forall v: Bytes :: v[..0] + was[0..] == was;
    } else {
      ByteOf(m, op, |b|);
    }
  }

  lemma WrittenMore(m: Bytes, op: Op, i: nat, value: Bytes, result: Result, was: Bytes)
    requires op.Fits(|m|) && PhaseFits(op, Writing(i, value, result))
    requires PhaseOk(op, Writing(i, value, result), was, Value(m, op))
    ensures var (phase', m') := Progress(m, op, Writing(i, value, result));
      && |m'| == |m| && PhaseFits(op, phase')
      && (forall x | 0 <= x < |m| && !op.Touches(x) :: m'[x] == m[x])
      && PhaseOk(op, phase', was, Value(m', op))
  {
    hide Value, AtOnce;
    if i == op.size {
      assert value[..i] + was[i..] == value;
    } else {
      ByteWritten(m, op, i, value, was);
    }
  }

  lemma ByteOf(m: Bytes, op: Op, i: nat)
    requires op.Fits(|m|) && i < op.size
    ensures m[op.ptr + i] == Value(m, op)[i]
  {
  }

  lemma ByteWritten(m: Bytes, op: Op, i: nat, value: Bytes, was: Bytes)
    requires op.Fits(|m|) && i < op.size && |value| == |was| == op.size
    requires Value(m, op) == value[..i] + was[i..]
    ensures Value(m[op.ptr + i := value[i]], op) == value[..i + 1] + was[i + 1..]
  {
    var next := value[..i + 1] + was[i + 1..];
    forall j | 0 <= j < op.size ensures Value(m[op.ptr + i := value[i]], op)[j] == next[j] {
      assert j != i ==> m[op.ptr + j] == Value(m, op)[j];
    }
  }

  /** Answers depend only on the operations up to and including the one that is asked for. */
  lemma AnswerSame(m: Bytes, log: seq<Entry>, log': seq<Entry>, k: nat)
    requires AllFit(|m|, log) && AllFit(|m|, log') && k < |log| && k < |log'|
    requires forall j | 0 <= j <= k :: log'[j].op == log[j].op
    ensures Answer(m, log', k) == Answer(m, log, k)
    ensures Replay(m, log'[..k]) == Replay(m, log[..k])
  {
    hide AtOnce, Replay;
    ReplaySame(m, log[..k], log'[..k]);
  }

  /** Threads inside critical sections work on separate bytes. */
  lemma Apart(ops: iset<Op>, s: State, t: nat, u: nat)
    requires Disciplined(ops) && Shape(ops, s) && Exclusive(s)
    requires t < |s.threads| && u < |s.threads| && t != u
    requires s.threads[t].Inside? && s.threads[u].Inside?
    ensures !Overlap(s.threads[t].op, s.threads[u].op)
  {
    hide LockFor;
  }

  /** Nobody works on an object whose lock is free. */
  lemma ApartFromFree(ops: iset<Op>, s: State, op: Op, u: nat)
    requires Disciplined(ops) && Shape(ops, s) && Exclusive(s) && op in ops
    requires LockFor(op.ptr) < SPINLOCK_COUNT && s.locks[LockFor(op.ptr)] == 0
    requires u < |s.threads| && s.threads[u].Inside?
    ensures !Overlap(op, s.threads[u].op)
  {
    hide LockFor;
  }

  // Work

  lemma WorkContents(ops: iset<Op>, m0: Bytes, s: State, t: nat)
    requires Disciplined(ops) && Inv(ops, m0, s) && Enabled(ops, s, Work(t))
    ensures Contents(m0, Next(ops, s, Work(t)))
  {
    hide AtOnce, Replay, Answer, PhaseOk, Progress, LockFor, History, OwnEntries, Disciplined, Value;
    var me, s' := s.threads[t], Next(ops, s, Work(t));
    var was := Value(Replay(m0, s.log[..me.entry]), me.op);
    ProgressPhase(s.memory, me.op, me.phase, was);
    assert s'.threads[t].op == me.op;
    forall x | 0 <= x < |m0| && Free(s', x) ensures s'.memory[x] == Replay(m0, s'.log)[x] {
      assert !s'.threads[t].op.Touches(x);
      forall u | 0 <= u < |s.threads| && s.threads[u].Inside? ensures !s.threads[u].op.Touches(x) {
        assert !s'.threads[u].op.Touches(x);
      }
    }
    forall u | 0 <= u < |s'.threads| && s'.threads[u].Inside? ensures Working(m0, s', s'.threads[u]) {
      if u != t {
        Apart(ops, s, t, u);
        ValueElsewhere(s.memory, s'.memory, s.threads[u].op);
      }
    }
  }

  /** Every step keeps all accesses in bounds, whatever the operations. */
  lemma ShapeStep(ops: iset<Op>, s: State, a: Action)
    requires Shape(ops, s) && Enabled(ops, s, a)
    ensures Shape(ops, Next(ops, s, a))
  {
    hide LockFor, Combine;
    if a.Acquire? || a.Unlock? { LockInRange(s.threads[a.t].op.ptr); }
  }

  /** Neither the locks nor who is inside has changed. */
  ghost predicate SameHolders(s: State, s': State) {
    && s'.locks == s.locks && |s'.threads| == |s.threads|
    && forall u | 0 <= u < |s.threads| :: SameSection(s.threads[u], s'.threads[u])
  }

  predicate SameSection(a: Thread, b: Thread) {
    a.Inside? == b.Inside? && (a.Inside? ==> b.op == a.op && b.entry == a.entry)
  }

  lemma ExclusiveSame(s: State, s': State)
    requires Exclusive(s) && OwnEntries(s) && SameHolders(s, s')
    ensures Exclusive(s') && OwnEntries(s')
  {
    hide LockFor;
    forall l | 0 <= l < SPINLOCK_COUNT && s'.locks[l] != 0 ensures Held(s', l) {
      assert Held(s, l);
      var u :| 0 <= u < |s.threads| && s.threads[u].Inside? && LockFor(s.threads[u].op.ptr) == l;
      assert s'.threads[u].Inside? && LockFor(s'.threads[u].op.ptr) == l;
    }
  }

  lemma HistorySame(m0: Bytes, s: State, s': State)
    requires History(m0, s) && s'.log == s.log && s'.clock == s.clock + 1
    requires forall t | 0 <= t < |s'.threads| && s'.threads[t].Spinning? :: s'.threads[t].invoked < s'.clock
    ensures History(m0, s')
  {
    hide Answer, AllFit;
  }

  lemma WorkSame(ops: iset<Op>, m0: Bytes, s: State, t: nat)
    requires Inv(ops, m0, s) && Enabled(ops, s, Work(t))
    ensures var s' := Next(ops, s, Work(t));
      && SameHolders(s, s') && s'.log == s.log && s'.clock == s.clock + 1
      && forall t | 0 <= t < |s'.threads| && s'.threads[t].Spinning? :: s'.threads[t].invoked < s'.clock
  {
    hide Progress, LockFor, Contents, Exclusive, OwnEntries, PhaseFits;
    WaitersInPast(m0, s);
  }

  lemma WorkKeeps(ops: iset<Op>, m0: Bytes, s: State, t: nat)
    requires Disciplined(ops) && Inv(ops, m0, s) && Enabled(ops, s, Work(t))
    ensures Inv(ops, m0, Next(ops, s, Work(t)))
  {
    hide LockFor, Contents, Disciplined, Exclusive, OwnEntries, Shape, History, Next, SameHolders;
    var s' := Next(ops, s, Work(t));
    WorkContents(ops, m0, s, t);
    ShapeStep(ops, s, Work(t));
    WorkSame(ops, m0, s, t);
    ExclusiveSame(s, s');
    HistorySame(m0, s, s');
  }

  lemma WaitersInPast(m0: Bytes, s: State)
    requires History(m0, s)
    ensures forall t | 0 <= t < |s.threads| && s.threads[t].Spinning? :: s.threads[t].invoked < s.clock
  {
  }

  // Invoke, and a failed attempt to acquire

  lemma ContentsSame(m0: Bytes, s: State, s': State)
    requires Contents(m0, s) && s'.memory == s.memory && s'.log == s.log && |s'.threads| == |s.threads|
    requires forall u | 0 <= u < |s.threads| ::
      s'.threads[u].Inside? == s.threads[u].Inside? && (s.threads[u].Inside? ==> s'.threads[u] == s.threads[u])
    ensures Contents(m0, s')
  {
    hide AtOnce, Replay, Answer, PhaseOk, Value;
    forall x | 0 <= x < |m0| && Free(s', x) ensures Free(s, x) {
      forall u | 0 <= u < |s.threads| && s.threads[u].Inside? ensures !s.threads[u].op.Touches(x) {
        assert !s'.threads[u].op.Touches(x);
      }
    }
    forall u | 0 <= u < |s'.threads| && s'.threads[u].Inside? ensures Working(m0, s', s'.threads[u]) {
      assert Working(m0, s, s.threads[u]);
    }
  }

  lemma ShapeSame(ops: iset<Op>, s: State, s': State)
    requires Shape(ops, s) && s'.locks == s.locks && s'.memory == s.memory && s'.log == s.log
    requires |s'.threads| == |s.threads|
    requires forall u | 0 <= u < |s.threads| ::
      s'.threads[u] == s.threads[u] || (s'.threads[u].Spinning? && s'.threads[u].op in ops)
    ensures Shape(ops, s')
  {
    hide PhaseFits;
  }

  /** The exchange of 0 for 1 fails. */
  predicate Fails(s: State, a: Action) {
    && a.Acquire? && a.t < |s.threads| && s.threads[a.t].Spinning?
    && var l := LockFor(s.threads[a.t].op.ptr); l < |s.locks| && s.locks[l] != 0
  }

  lemma WaitKeeps(ops: iset<Op>, m0: Bytes, s: State, a: Action)
    requires Inv(ops, m0, s) && Enabled(ops, s, a)
    requires a.Invoke? || Fails(s, a)
    ensures Inv(ops, m0, Next(ops, s, a))
  {
    hide AtOnce, Replay, Answer, Progress, LockFor, Contents, Value, PhaseOk, Exclusive, OwnEntries;
    var s' := Next(ops, s, a);
    ShapeSame(ops, s, s');
    hide Shape;
    ExclusiveSame(s, s');
    ContentsSame(m0, s, s');
    WaitersInPast(m0, s);
    hide History;
    HistorySame(m0, s, s');
  }

  // Acquire

  ghost predicate Acquires(ops: iset<Op>, m0: Bytes, s: State, t: nat) {
    && Disciplined(ops) && Inv(ops, m0, s) && Enabled(ops, s, Acquire(t))
    && LockFor(s.threads[t].op.ptr) < SPINLOCK_COUNT && s.locks[LockFor(s.threads[t].op.ptr)] == 0
  }

  lemma AcquireContents(ops: iset<Op>, m0: Bytes, s: State, t: nat)
    requires Acquires(ops, m0, s, t)
    ensures Contents(m0, Next(ops, s, Acquire(t)))
  {
    hide LockFor, History, OwnEntries, Disciplined, Exclusive, AtOnce, Replay, Perform, Value, PhaseOk, Answer;
    var op, s' := s.threads[t].op, Next(ops, s, Acquire(t));
    var spec, e := Replay(m0, s.log), s'.log[|s.log|];
    ReplaySnoc(m0, s.log, e);
    ValueAfter(spec, op);
    forall u | 0 <= u < |s.threads| && s.threads[u].Inside? ensures !Overlap(op, s.threads[u].op) {
      ApartFromFree(ops, s, op, u);
    }
    assert s'.log[..|s.log|] == s.log;
    forall x | 0 <= x < |m0| && Free(s', x) ensures s'.memory[x] == Replay(m0, s'.log)[x] {
      assert s'.threads[t].Inside? && !s'.threads[t].op.Touches(x);
      assert Free(s, x) by {
        forall u | 0 <= u < |s.threads| && s.threads[u].Inside? ensures !s.threads[u].op.Touches(x) {
          assert !s'.threads[u].op.Touches(x);
        }
      }
    }
    forall u | 0 <= u < |s'.threads| && s'.threads[u].Inside? ensures Working(m0, s', s'.threads[u]) {
      if u == t {
        AcquiredValue(m0, s, op);
        AcquiredWorking(m0, s, s', t);
      } else {
        assert Working(m0, s, s.threads[u]);
        AnswerSame(m0, s.log, s'.log, s.threads[u].entry);
        forall x | s.threads[u].op.Touches(x) ensures !op.Touches(x) {}
        ValueElsewhere(spec, Replay(m0, s'.log), s.threads[u].op);
      }
    }
  }

  /** The object of a free lock is up to date. */
  lemma AcquiredValue(m0: Bytes, s: State, op: Op)
    requires Contents(m0, s) && op.Fits(|m0|)
    requires forall u | 0 <= u < |s.threads| && s.threads[u].Inside? :: !Overlap(op, s.threads[u].op)
    ensures Value(s.memory, op) == Value(Replay(m0, s.log), op)
  {
    hide Replay, Value, PhaseOk, Answer;
    forall x | op.Touches(x) && 0 <= x < |m0| ensures s.memory[x] == Replay(m0, s.log)[x] {
      assert Free(s, x);
    }
    ValueElsewhere(s.memory, Replay(m0, s.log), op);
  }

  lemma AcquiredWorking(m0: Bytes, s: State, s': State, t: nat)
    requires t < |s'.threads| && |s.memory| == |m0| && s'.memory == s.memory
    requires AllFit(|m0|, s.log) && |s'.log| == |s.log| + 1 && s'.log[..|s.log|] == s.log
    requires var op := s'.log[|s.log|].op;
      && s'.log[|s.log|].returned.Pending? && op.Fits(|m0|)
      && s'.threads[t] == Inside(op, |s.log|, Start(op.kind))
      && Value(s.memory, op) == Value(Replay(m0, s.log), op)
      && AllFit(|m0|, s'.log) && Replay(m0, s'.log) == Perform(Replay(m0, s.log), op)
    ensures Working(m0, s', s'.threads[t])
  {
    hide Replay, Perform, Value;
    var op := s'.log[|s.log|].op;
    var was := Value(s.memory, op);
    ValueAfter(Replay(m0, s.log), op);
    StartOk(op, was);
  }

  lemma StartOk(op: Op, was: Bytes)
    requires |was| == op.size && op.Fits(op.ptr + op.size)
    ensures PhaseOk(op, Start(op.kind), was, was)
  {
    hide Combine;
    assert was[..0] == [];
    assert op.kind.Store? ==> op.kind.value[..0] + was[0..] == was;
  }

  lemma AcquireExclusive(ops: iset<Op>, s: State, t: nat)
    requires Shape(ops, s) && Exclusive(s) && OwnEntries(s) && Enabled(ops, s, Acquire(t))
    requires LockFor(s.threads[t].op.ptr) < SPINLOCK_COUNT && s.locks[LockFor(s.threads[t].op.ptr)] == 0
    ensures Exclusive(Next(ops, s, Acquire(t))) && OwnEntries(Next(ops, s, Acquire(t)))
  {
    hide LockFor;
    var s' := Next(ops, s, Acquire(t));
    forall l | 0 <= l < SPINLOCK_COUNT && s'.locks[l] != 0 ensures Held(s', l) {
      if l == LockFor(s.threads[t].op.ptr) {
        assert s'.threads[t].Inside? && LockFor(s'.threads[t].op.ptr) == l;
      } else {
        assert Held(s, l);
        var u :| 0 <= u < |s.threads| && s.threads[u].Inside? && LockFor(s.threads[u].op.ptr) == l;
        assert s'.threads[u].Inside? && LockFor(s'.threads[u].op.ptr) == l;
      }
    }
  }

  lemma AcquireHistory(ops: iset<Op>, m0: Bytes, s: State, t: nat)
    requires Acquires(ops, m0, s, t)
    ensures History(m0, Next(ops, s, Acquire(t)))
  {
    hide LockFor, Disciplined, Exclusive, OwnEntries, Answer, Replay, Working, Free;
    var s' := Next(ops, s, Acquire(t));
    assert AllFit(|m0|, s'.log);
    forall k | 0 <= k < |s'.log| && s'.log[k].returned.Returned?
      ensures s'.log[k].returned.result == Answer(m0, s'.log, k).result
    {
      AnswerSame(m0, s.log, s'.log, k);
    }
  }

  // Unlock

  ghost predicate Unlocks(ops: iset<Op>, m0: Bytes, s: State, t: nat) {
    Disciplined(ops) && Inv(ops, m0, s) && Enabled(ops, s, Unlock(t))
  }

  lemma UnlockContents(ops: iset<Op>, m0: Bytes, s: State, t: nat)
    requires Unlocks(ops, m0, s, t)
    ensures Contents(m0, Next(ops, s, Unlock(t)))
  {
    hide LockFor, History, Disciplined, Exclusive, AtOnce, Replay, Perform, PhaseOk, Answer;
    var me, s' := s.threads[t], Next(ops, s, Unlock(t));
    assert Working(m0, s, me);
    ReplaySame(m0, s.log, s'.log);
    UnlockedValue(m0, s, me);
    forall x | 0 <= x < |m0| && Free(s', x) ensures s'.memory[x] == Replay(m0, s'.log)[x] {
      if me.op.Touches(x) {
        assert Value(s.memory, me.op)[x - me.op.ptr] == s.memory[x];
      } else {
        assert Free(s, x) by {
          forall u | 0 <= u < |s.threads| && s.threads[u].Inside? ensures !s.threads[u].op.Touches(x) {
            if u != t { assert !s'.threads[u].op.Touches(x); }
          }
        }
      }
    }
    forall u | 0 <= u < |s'.threads| && s'.threads[u].Inside? ensures Working(m0, s', s'.threads[u]) {
      assert Working(m0, s, s.threads[u]);
      AnswerSame(m0, s.log, s'.log, s.threads[u].entry);
    }
  }

  lemma UnlockedValue(m0: Bytes, s: State, me: Thread)
    requires me.Inside? && me.phase.Leaving? && |s.memory| == |m0| && AllFit(|m0|, s.log) && Working(m0, s, me)
    ensures Value(s.memory, me.op) == Value(Replay(m0, s.log), me.op)
    ensures Answer(m0, s.log, me.entry).result == me.phase.result
  {
    hide AtOnce, Replay, Value;
  }

  lemma UnlockExclusive(ops: iset<Op>, s: State, t: nat)
    requires Shape(ops, s) && Exclusive(s) && OwnEntries(s) && Enabled(ops, s, Unlock(t))
    ensures Exclusive(Next(ops, s, Unlock(t))) && OwnEntries(Next(ops, s, Unlock(t)))
  {
    hide LockFor;
    var s' := Next(ops, s, Unlock(t));
    forall l | 0 <= l < SPINLOCK_COUNT && s'.locks[l] != 0 ensures Held(s', l) {
      assert Held(s, l);
      var u :| 0 <= u < |s.threads| && s.threads[u].Inside? && LockFor(s.threads[u].op.ptr) == l;
      assert s'.threads[u].Inside? && LockFor(s'.threads[u].op.ptr) == l;
    }
  }

  lemma UnlockHistory(ops: iset<Op>, m0: Bytes, s: State, t: nat)
    requires Unlocks(ops, m0, s, t)
    ensures History(m0, Next(ops, s, Unlock(t)))
  {
    hide LockFor, Disciplined, Exclusive, OwnEntries, Answer, Replay, Free, PhaseOk, Value;
    var me, s' := s.threads[t], Next(ops, s, Unlock(t));
    assert Working(m0, s, me);
    UnlockedValue(m0, s, me);
    assert AllFit(|m0|, s'.log);
    forall k | 0 <= k < |s'.log| && s'.log[k].returned.Returned?
      ensures s'.log[k].returned.result == Answer(m0, s'.log, k).result
    {
      AnswerSame(m0, s.log, s'.log, k);
    }
  }

  /** Every step of every thread keeps the invariant. */
  lemma InvStep(ops: iset<Op>, m0: Bytes, s: State, a: Action)
    requires Disciplined(ops) && Inv(ops, m0, s) && Enabled(ops, s, a)
    ensures Inv(ops, m0, Next(ops, s, a))
  {
    hide LockFor, Disciplined, Exclusive, OwnEntries, History, Contents, Next;
    match a {
      case Invoke(t, op) => WaitKeeps(ops, m0, s, a);
      case Acquire(t) =>
        LockInRange(s.threads[t].op.ptr);
        if s.locks[LockFor(s.threads[t].op.ptr)] != 0 {
          WaitKeeps(ops, m0, s, a);
        } else {
          ShapeStep(ops, s, a);
          AcquireExclusive(ops, s, t);
          AcquireContents(ops, m0, s, t);
          AcquireHistory(ops, m0, s, t);
        }
      case Work(t) => WorkKeeps(ops, m0, s, t);
      case Unlock(t) =>
        ShapeStep(ops, s, a);
        UnlockExclusive(ops, s, t);
        UnlockContents(ops, m0, s, t);
        UnlockHistory(ops, m0, s, t);
    }
  }

  lemma InitialInv(ops: iset<Op>, s: State)
    requires Initial(ops, s)
    ensures Inv(ops, s.memory, s)
  {
  }

  lemma {:induction false} InvRun(ops: iset<Op>, m0: Bytes, s: State, run: seq<Action>, s': State)
    requires Disciplined(ops) && Inv(ops, m0, s) && Run(ops, s, run, s')
    ensures Inv(ops, m0, s')
    decreases |run|
  {
    hide Inv, Disciplined, Next, Shape;
    if run != [] {
      InvStep(ops, m0, s, run[0]);
      InvRun(ops, m0, Next(ops, s, run[0]), run[1..], s');
    }
  }

  // ----- What holds in every run -----

  /** Steps that take or give back no lock. */
  lemma HoldersStay(ops: iset<Op>, s: State, a: Action)
    requires Shape(ops, s) && Enabled(ops, s, a) && (a.Invoke? || a.Work? || Fails(s, a))
    ensures SameHolders(s, Next(ops, s, a))
  {
    hide LockFor, Progress, PhaseFits;
  }

  /** Every step, of whatever operations, keeps each lock with at most one holder. */
  lemma ExclusiveStep(ops: iset<Op>, s: State, a: Action)
    requires Shape(ops, s) && Exclusive(s) && OwnEntries(s) && Enabled(ops, s, a)
    ensures Shape(ops, Next(ops, s, a)) && Exclusive(Next(ops, s, a)) && OwnEntries(Next(ops, s, a))
  {
    hide LockFor, Exclusive, OwnEntries, Next, SameHolders;
    ShapeStep(ops, s, a);
    if a.Acquire? { LockInRange(s.threads[a.t].op.ptr); }
    if a.Unlock? {
      UnlockExclusive(ops, s, a.t);
    } else if a.Acquire? && s.locks[LockFor(s.threads[a.t].op.ptr)] == 0 {
      AcquireExclusive(ops, s, a.t);
    } else {
      HoldersStay(ops, s, a);
      ExclusiveSame(s, Next(ops, s, a));
    }
  }

  lemma {:induction false} ExclusiveRun(ops: iset<Op>, s: State, run: seq<Action>, s': State)
    requires Shape(ops, s) && Exclusive(s) && OwnEntries(s) && Run(ops, s, run, s')
    ensures Exclusive(s')
    decreases |run|
  {
    hide Shape, Exclusive, OwnEntries, Next, Enabled;
    if run != [] {
      ExclusiveStep(ops, s, run[0]);
      ExclusiveRun(ops, Next(ops, s, run[0]), run[1..], s');
    }
  }

  /** In every run of whatever operations, at most one thread is inside the critical sections of
      any lock. */
  lemma OneHolder(ops: iset<Op>, s: State, run: seq<Action>, s': State, t: nat, u: nat)
    requires Initial(ops, s) && Run(ops, s, run, s')
    requires t < u < |s'.threads| && s'.threads[t].Inside? && s'.threads[u].Inside?
    ensures LockFor(s'.threads[t].op.ptr) != LockFor(s'.threads[u].op.ptr)
  {
    hide LockFor, Run;
    ExclusiveRun(ops, s, run, s');
  }

  /** With the discipline, threads that are inside work on separate bytes. */
  lemma MutualExclusion(ops: iset<Op>, s: State, run: seq<Action>, s': State, t: nat, u: nat)
    requires Disciplined(ops) && Initial(ops, s) && Run(ops, s, run, s')
    requires t < u < |s'.threads| && s'.threads[t].Inside? && s'.threads[u].Inside?
    ensures !Overlap(s'.threads[t].op, s'.threads[u].op)
  {
    hide LockFor, Disciplined, History, Contents, Run, Initial;
    InitialInv(ops, s);
    InvRun(ops, s.memory, s, run, s');
    Apart(ops, s', t, u);
  }

  /** Linearizability. Run one after the other in the order in which they got their locks, the
      operations return what they returned; an operation that returned before another was called
      comes before it; and when nobody is inside, memory is what the sequential run leaves. */
  lemma Linearizable(ops: iset<Op>, s: State, run: seq<Action>, s': State)
    requires Disciplined(ops) && Initial(ops, s) && Run(ops, s, run, s')
    ensures AllFit(|s.memory|, s'.log)
    ensures forall k | 0 <= k < |s'.log| && s'.log[k].returned.Returned? ::
      s'.log[k].returned.result == Answer(s.memory, s'.log, k).result
    ensures forall j, k | 0 <= j < |s'.log| && 0 <= k < |s'.log| && s'.log[j].returned.Returned? ::
      s'.log[j].returned.time <= s'.log[k].invoked ==> j < k
    ensures (forall t | 0 <= t < |s'.threads| :: !s'.threads[t].Inside?) ==> s'.memory == Replay(s.memory, s'.log)
  {
    hide LockFor, Disciplined, Run, Initial, Answer, Replay, Exclusive, Working, OwnEntries, Shape;
    InitialInv(ops, s);
    InvRun(ops, s.memory, s, run, s');
    if forall t | 0 <= t < |s'.threads| :: !s'.threads[t].Inside? {
      assert forall x | 0 <= x < |s'.memory| :: Free(s', x);
    }
  }

  /** The steps that a phase still has before the lock is given back. */
  function Left(op: Op, phase: Phase): int {
    match phase
    case Comparing(i) => (op.size - i) + 2 * op.size + 4
    case Reading(b) => (op.size - |b|) + op.size + 3
    case Writing(i, _, _) => (op.size - i) + 1
    case Leaving(_) => 0
  }

  /** A thread inside a critical section is never blocked and leaves after finitely many steps
      of its own, however the others are scheduled and whatever the operations; unlocking frees
      the lock. */
  lemma CriticalSectionEnds(ops: iset<Op>, s: State, t: nat)
    requires Shape(ops, s) && t < |s.threads| && s.threads[t].Inside?
    ensures Enabled(ops, s, Work(t)) || Enabled(ops, s, Unlock(t))
    ensures Enabled(ops, s, Work(t)) ==> var me' := Next(ops, s, Work(t)).threads[t];
      me'.Inside? && 0 <= Left(me'.op, me'.phase) < Left(s.threads[t].op, s.threads[t].phase)
    ensures Enabled(ops, s, Unlock(t)) ==> var s' := Next(ops, s, Unlock(t));
      s'.threads[t].Idle? && LockFor(s.threads[t].op.ptr) < SPINLOCK_COUNT
      && s'.locks[LockFor(s.threads[t].op.ptr)] == 0
  {
    hide LockFor, Combine;
    LockInRange(s.threads[t].op.ptr);
  }
}
