/** What the bitwise fetch operations and the hash of the locks do, bit by bit. */
module FetchBits {
  import opened Atomic
  import Bits

  /** Bit j of a number. */
  function Bit(x: nat, j: nat): nat {
    if j == 0 then x % 2 else Bit(x / 2, j - 1)
  }

  ghost predicate AreBytes(b: Bytes) { forall i | 0 <= i < |b| :: b[i] < 256 }

  // ----- Numbers -----

  lemma {:induction false} AndBit(x: nat, y: nat, j: nat)
    ensures Bit(Bits.And(x, y), j) == if Bit(x, j) == 1 && Bit(y, j) == 1 then 1 else 0
    decreases j
  {
    ZeroBits(j);
    if j > 0 && x > 0 && y > 0 { AndBit(x / 2, y / 2, j - 1); }
  }

  lemma {:induction false} OrBit(x: nat, y: nat, j: nat)
    ensures Bit(Bits.Or(x, y), j) == if Bit(x, j) == 1 || Bit(y, j) == 1 then 1 else 0
    decreases j
  {
    ZeroBits(j);
    if j > 0 { OrBit(x / 2, y / 2, j - 1); }
  }

  lemma {:induction false} XorBit(x: nat, y: nat, j: nat)
    ensures Bit(Bits.Xor(x, y), j) == if Bit(x, j) != Bit(y, j) then 1 else 0
    decreases j
  {
    ZeroBits(j);
    if j > 0 { XorBit(x / 2, y / 2, j - 1); }
  }

  lemma {:induction false} ZeroBits(j: nat)
    ensures Bit(0, j) == 0
  {
    if j > 0 { ZeroBits(j - 1); }
  }

  /** A number of eight bits and what is above it. */
  lemma ByteBit(x: nat, y: nat, j: nat)
    requires x < 256
    ensures Bit(x + 256 * y, j) == if j < 8 then Bit(x, j) else Bit(y, j - 8)
  {
    hide Bit;
    assert Bits.Pow2(8) == 256 by { EightPlaces(0); }
    EightPlaces(y);
    LowBits(x, y, 8, j);
  }

  /** The same with w bits below. */
  lemma {:induction false} LowBits(x: nat, y: nat, w: nat, j: nat)
    requires x < Bits.Pow2(w)
    ensures Bits.Scale(y, w) >= 0
    ensures Bit(x + Bits.Scale(y, w), j) == if j < w then Bit(x, j) else Bit(y, j - w)
    decreases w
  {
    Bits.ScaleMono(0, y, w);
    Bits.ScaleOne(w);
    if w > 0 {
      var z := Bits.Scale(y, w - 1);
      Bits.ScaleMono(0, y, w - 1);
      Bits.ScaleOne(w - 1);
      assert Bits.Scale(y, w) == 2 * z;
      Halves(x, z);
      if j > 0 { LowBits(x / 2, y, w - 1, j - 1); }
    }
  }

  lemma Halves(x: nat, z: nat)
    ensures (x + 2 * z) / 2 == x / 2 + z && (x + 2 * z) % 2 == x % 2
  {
  }

  lemma EightPlaces(y: int)
    ensures Bits.Scale(y, 8) == 256 * y && Bits.Pow2(8) == 256
  {
    Scale256(y, 0);
    assert Bits.Scale(y, 0) == y && Bits.Pow2(0) == 1;
  }

  // ----- Objects -----

  /** Bit j of byte i is bit 8 * i + j of the number. */
  lemma {:induction false} NumberBit(b: Bytes, i: nat, j: nat)
    requires AreBytes(b) && i < |b| && j < 8
    ensures Bit(Number(b), 8 * i + j) == Bit(b[i], j)
    decreases |b|
  {
    hide Bit;
    ByteBit(b[0], Number(b[1..]), 8 * i + j);
    if i > 0 { NumberBit(b[1..], i - 1, j); }
  }

  lemma {:induction false} ToBytesBit(n: nat, size: nat, i: nat, j: nat)
    requires i < size && j < 8
    ensures ToBytes(n, size)[i] < 256 && Bit(ToBytes(n, size)[i], j) == Bit(n, 8 * i + j)
    decreases size
  {
    hide Bit;
    assert n == n % 256 + 256 * (n / 256);
    ByteBit(n % 256, n / 256, 8 * i + j);
    if i > 0 { ToBytesBit(n / 256, size - 1, i - 1, j); }
  }

  /** What a bitwise operation makes of two bits. */
  function Logic(f: Fetch, p: bool, q: bool): bool
    requires f.BitAnd? || f.BitOr? || f.BitXor?
  {
    match f
    case BitAnd => p && q
    case BitOr => p || q
    case BitXor => p != q
  }

  /** Every bit of the new value comes from the two bits at its place, and from no others. */
  lemma CombineBits(f: Fetch, a: Bytes, b: Bytes, i: nat, j: nat)
    requires f.BitAnd? || f.BitOr? || f.BitXor?
    requires AreBytes(a) && AreBytes(b) && |a| == |b| && i < |a| && j < 8
    ensures Combine(f, a, b)[i] < 256
    ensures Bit(Combine(f, a, b)[i], j) == 1 <==> Logic(f, Bit(a[i], j) == 1, Bit(b[i], j) == 1)
  {
    hide Bit, Number, ToBytes;
    var x, y, k := Number(a), Number(b), 8 * i + j;
    NumberBit(a, i, j);
    NumberBit(b, i, j);
    match f {
      case BitAnd => AndBit(x, y, k); ToBytesBit(Bits.And(x, y), |a|, i, j);
      case BitOr => OrBit(x, y, k); ToBytesBit(Bits.Or(x, y), |a|, i, j);
      case BitXor => XorBit(x, y, k); ToBytesBit(Bits.Xor(x, y), |a|, i, j);
    }
    BitIsBit(a[i], j);
    BitIsBit(b[i], j);
  }

  lemma {:induction false} BitIsBit(x: nat, j: nat)
    ensures Bit(x, j) == 0 || Bit(x, j) == 1
  {
    if j > 0 { BitIsBit(x / 2, j - 1); }
  }

  // ----- In memory, and in every run -----

  ghost predicate Bitwise(op: Op) {
    op.kind.FetchOp? && (op.kind.fetch.BitAnd? || op.kind.fetch.BitOr? || op.kind.fetch.BitXor?)
  }

  /** Done at once, a bitwise fetch returns what was there, and leaves at each bit what its two
      bits make; no other byte changes. */
  lemma FetchedBits(m: Bytes, op: Op)
    requires op.Fits(|m|) && Bitwise(op) && AreBytes(m) && AreBytes(op.kind.value)
    ensures AtOnce(op.kind, Value(m, op)).result == Former(m[op.ptr..op.ptr + op.size])
    ensures forall x | 0 <= x < |m| && !op.Touches(x) :: Perform(m, op)[x] == m[x]
    ensures forall i, j | 0 <= i < op.size && 0 <= j < 8 ::
      Bit(Perform(m, op)[op.ptr + i], j) == 1 <==>
      Logic(op.kind.fetch, Bit(m[op.ptr + i], j) == 1, Bit(op.kind.value[i], j) == 1)
  {
    hide Bit, Combine;
    var v, after := Value(m, op), Perform(m, op);
    ValueAfter(m, op);
    assert AreBytes(v);
    forall i, j | 0 <= i < op.size && 0 <= j < 8
      ensures Bit(after[op.ptr + i], j) == 1 <==>
        Logic(op.kind.fetch, Bit(m[op.ptr + i], j) == 1, Bit(op.kind.value[i], j) == 1)
    {
      CombineBits(op.kind.fetch, v, op.kind.value, i, j);
      ByteOf(m, op, i);
      ByteOf(after, op, i);
    }
  }

  /** In every run of disciplined operations: what such a fetch returned is what the operations
      before it left, and what it left has the bits it should. */
  lemma FetchInRun(ops: iset<Op>, s: State, run: seq<Action>, s': State, k: nat)
    requires Disciplined(ops) && Initial(ops, s) && Run(ops, s, run, s')
    requires k < |s'.log| && s'.log[k].returned.Returned? && Bitwise(s'.log[k].op)
    requires AreBytes(s.memory) && forall i | 0 <= i < |s'.log| :: OperandBytes(s'.log[i].op.kind)
    ensures AllFit(|s.memory|, s'.log)
    ensures var op, before, after := s'.log[k].op, Replay(s.memory, s'.log[..k]), Replay(s.memory, s'.log[..k + 1]);
      && s'.log[k].returned.result == Former(before[op.ptr..op.ptr + op.size])
      && forall i, j | 0 <= i < op.size && 0 <= j < 8 ::
           Bit(after[op.ptr + i], j) == 1 <==>
           Logic(op.kind.fetch, Bit(before[op.ptr + i], j) == 1, Bit(op.kind.value[i], j) == 1)
  {
    hide Disciplined, Initial, Run, Bit, Combine, Perform, Logic, Replay;
    Linearizable(ops, s, run, s');
    var op, before := s'.log[k].op, Replay(s.memory, s'.log[..k]);
    assert s'.log[..k + 1] == s'.log[..k] + [s'.log[k]];
    ReplaySnoc(s.memory, s'.log[..k], s'.log[k]);
    ReplayBytes(s.memory, s'.log[..k]);
    FetchedBits(before, op);
  }

  ghost predicate OperandBytes(kind: Kind) {
    match kind
    case Load => true
    case Store(v) => AreBytes(v)
    case Exchange(v) => AreBytes(v)
    case CompareExchange(_, d) => AreBytes(d)
    case FetchOp(_, v) => AreBytes(v)
  }

  lemma {:induction false} ToBytesAreBytes(n: nat, size: nat)
    ensures AreBytes(ToBytes(n, size))
  {
    if size > 0 { ToBytesAreBytes(n / 256, size - 1); }
  }

  lemma CombineAreBytes(f: Fetch, a: Bytes, b: Bytes)
    ensures AreBytes(Combine(f, a, b))
  {
    hide Number, ToBytes;
    var x: int, y: int := Number(a), Number(b);
    ToBytesAreBytes(x + y, |a|);
    ToBytesAreBytes(Bits.Low(x - y, 8 * |a|), |a|);
    ToBytesAreBytes(Bits.And(x, y), |a|);
    ToBytesAreBytes(Bits.Or(x, y), |a|);
    ToBytesAreBytes(Bits.Xor(x, y), |a|);
  }

  /** Memory of bytes stays memory of bytes. */
  lemma {:induction false} ReplayBytes(m: Bytes, log: seq<Entry>)
    requires AllFit(|m|, log) && AreBytes(m) && forall k | 0 <= k < |log| :: OperandBytes(log[k].op.kind)
    ensures AreBytes(Replay(m, log))
  {
    hide Combine;
    if log != [] {
      var op, before := log[|log| - 1].op, Replay(m, log[..|log| - 1]);
      ReplayBytes(m, log[..|log| - 1]);
      if op.kind.FetchOp? { CombineAreBytes(op.kind.fetch, Value(before, op), op.kind.value); }
      assert AreBytes(AtOnce(op.kind, Value(before, op)).value);
    }
  }

  // ----- The hash of the locks -----

  lemma {:induction false} ShrBit(x: nat, k: nat, j: nat)
    ensures Bits.Shr(x, k) >= 0 && Bit(Bits.Shr(x, k), j) == Bit(x, k + j)
    decreases k
  {
    if k > 0 { ShrBit(x / 2, k - 1, j); }
  }

  lemma {:induction false} OnesBit(w: nat, j: nat)
    ensures Bit(Bits.Pow2(w) - 1, j) == 1 <==> j < w
  {
    if w == 0 {
      ZeroBits(j);
    } else if j > 0 {
      assert (Bits.Pow2(w) - 1) / 2 == Bits.Pow2(w - 1) - 1;
      OnesBit(w - 1, j - 1);
    }
  }

  lemma MaskBit(j: nat)
    ensures Bit(SPINLOCK_MASK, j) == 1 <==> j < 10
  {
    assert Bits.Pow2(10) == 1024;
    OnesBit(10, j);
  }

  /** Bit j of the index of the lock is bit j + 4 of the address xor bit j + 20, for the ten bits
      that there are. */
  lemma LockBits(ptr: nat, j: nat)
    ensures Bit(LockFor(ptr), j) == 1 <==> j < 10 && Bit(ptr, j + 4) != Bit(ptr, j + 20)
  {
    hide Bit, Bits.Shr, Bits.And, Bits.Xor;
    var hash := Bits.Shr(ptr, 4);
    ShrBit(ptr, 4, 0);
    ShrBit(ptr, 4, j);
    ShrBit(hash, 16, j);
    ShrBit(ptr, 4, 16 + j);
    MaskBit(j);
    AndBit(hash, SPINLOCK_MASK, j);
    XorBit(Bits.Shr(hash, 16), Bits.And(hash, SPINLOCK_MASK), j);
    AndBit(Bits.Xor(Bits.Shr(hash, 16), Bits.And(hash, SPINLOCK_MASK)), SPINLOCK_MASK, j);
    BitIsBit(ptr, j + 4);
    BitIsBit(ptr, j + 20);
  }
}
