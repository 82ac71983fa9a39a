/** The CRC-32 of the delivery runtime: the table-driven byte loop that ships, the
    bit-serial division it has to agree with, and the corruption it always detects.
    The register is a 32-bit vector and the division is reflected (least significant
    bit first), as in clause 3.2.9 of IEEE 802.3. */

/** Linear shift registers in general. The proofs need only a few laws of the register
    operations, so they are carried out for any register that has them. */
module ShiftRegister {

  /** The operations of a register holding values of type R. */
  datatype Register<!R> = Register(
    divisor: R,
    xor: (R, R) -> R,
    down: R -> R,          // shift right by one
    odd: R -> bool,        // the bit that a shift loses
    add: (R, bool) -> R,   // xor an input bit into the low end
    step: R -> R)          // one step of division

  /** n steps without new input. */
  function Shift<R>(m: Register<R>, c: R, n: nat): R
    decreases n, c
  {
    if n == 0 then c else Shift(m, m.step(c), n - 1)
  }

  /** Bits of input taken in one at a time. */
  function Feed<R>(m: Register<R>, c: R, bits: seq<bool>): R
    decreases |bits|
  {
    if |bits| == 0 then c else Feed(m, m.step(m.add(c, bits[0])), bits[1..])
  }

  /** The n low bits of x, least significant first: the order of the wire. */
  function LowBits<R>(m: Register<R>, x: R, n: nat): (bits: seq<bool>)
    ensures |bits| == n
    decreases n, x
  {
    if n == 0 then [] else [m.odd(x)] + LowBits(m, m.down(x), n - 1)
  }

  /** What is left of x once its n low bits have been shifted out. */
  function HighPart<R>(m: Register<R>, x: R, n: nat): R
    decreases n, x
  {
    if n == 0 then x else HighPart(m, m.down(x), n - 1)
  }

  /** Bit i of x; bit 0 is the least significant. */
  function Bit<R>(m: Register<R>, x: R, i: nat): bool
    decreases i, x
  {
    if i == 0 then m.odd(x) else Bit(m, m.down(x), i - 1)
  }

  ghost predicate StepIsLinear<R(!new)>(m: Register<R>) {
    forall a, b :: m.step(m.xor(a, b)) == m.xor(m.step(a), m.step(b))
  }

  /** Input above the low end just moves down one place. */
  ghost predicate StepSplitsInput<R(!new)>(m: Register<R>) {
    forall c, x :: m.step(m.xor(c, x)) == m.xor(m.step(m.add(c, m.odd(x))), m.down(x))
  }

  ghost predicate StepDivides<R(!new)>(m: Register<R>) {
    forall c :: m.step(c) == if m.odd(c) then m.xor(m.divisor, m.down(c)) else m.down(c)
  }

  ghost predicate XorIsBitwise<R(!new)>(m: Register<R>) {
    && (forall a, b :: m.odd(m.xor(a, b)) == (m.odd(a) != m.odd(b)))
    && (forall a, b :: m.down(m.xor(a, b)) == m.xor(m.down(a), m.down(b)))
  }

  ghost predicate XorAssociates<R(!new)>(m: Register<R>) {
    forall a, b, c :: m.xor(m.xor(a, b), c) == m.xor(a, m.xor(b, c))
  }

  ghost predicate XorCommutes<R(!new)>(m: Register<R>) {
    forall a, b :: m.xor(a, b) == m.xor(b, a)
  }

  ghost predicate XorCancels<R(!new)>(m: Register<R>) {
    forall a, b :: m.xor(a, m.xor(a, b)) == b
  }

  ghost predicate AddIsLow<R(!new)>(m: Register<R>) {
    && (forall c, v :: m.odd(m.add(c, v)) == (m.odd(c) != v))
    && (forall c, v :: m.down(m.add(c, v)) == m.down(c))
  }

  ghost predicate BitsDetermine<R(!new)>(m: Register<R>) {
    forall a, b :: m.odd(a) == m.odd(b) && m.down(a) == m.down(b) ==> a == b
  }

  /** Nothing is left above bit 31. */
  ghost predicate Has32Bits<R(!new)>(m: Register<R>) {
    forall a, b :: HighPart(m, a, 32) == HighPart(m, b, 32)
  }

  /** A 32-bit divider whose divisor has its top bit set. */
  ghost predicate IsDivider<R(!new)>(m: Register<R>) {
    && StepDivides(m) && XorIsBitwise(m) && AddIsLow(m) && BitsDetermine(m) && Has32Bits(m)
    && Bit(m, m.divisor, 31)
  }

  /** The registers agree from bit n up. */
  ghost predicate SameBits<R>(m: Register<R>, c: R, d: R, n: nat) {
    forall i: nat :: n <= i < 32 ==> Bit(m, c, i) == Bit(m, d, i)
  }

  // ---- Feeding bits and shifting ----

  lemma Regroup<R(!new)>(m: Register<R>, p: R, x: R, y: R)
    requires XorAssociates(m) && XorCommutes(m) && XorCancels(m)
    ensures m.xor(m.xor(p, x), m.xor(p, y)) == m.xor(x, y)
    ensures m.xor(m.xor(p, x), y) == m.xor(p, m.xor(x, y))
    ensures m.xor(x, m.xor(p, y)) == m.xor(p, m.xor(x, y))
  {
    assert m.xor(m.xor(p, x), p) == m.xor(p, m.xor(p, x)) == x;
    assert m.xor(m.xor(m.xor(p, x), p), y) == m.xor(m.xor(p, x), m.xor(p, y));
    assert m.xor(m.xor(x, p), y) == m.xor(x, m.xor(p, y));
    assert m.xor(x, p) == m.xor(p, x);
  }

  lemma StepLinearAt<R(!new)>(m: Register<R>, a: R, b: R)
    requires StepDivides(m) && XorIsBitwise(m)
    requires var p, x, y := m.divisor, m.down(a), m.down(b);
      && m.xor(m.xor(p, x), m.xor(p, y)) == m.xor(x, y)
      && m.xor(m.xor(p, x), y) == m.xor(p, m.xor(x, y))
      && m.xor(x, m.xor(p, y)) == m.xor(p, m.xor(x, y))
    ensures m.step(m.xor(a, b)) == m.xor(m.step(a), m.step(b))
  {
  }

  /** A register that divides by xoring is linear. */
  lemma DivisionIsLinear<R(!new)>(m: Register<R>)
    requires StepDivides(m) && XorIsBitwise(m)
    requires XorAssociates(m) && XorCommutes(m) && XorCancels(m)
    ensures StepIsLinear(m)
  {
    forall a, b ensures m.step(m.xor(a, b)) == m.xor(m.step(a), m.step(b)) {
      Regroup(m, m.divisor, m.down(a), m.down(b));
      StepLinearAt(m, a, b);
    }
  }

  lemma StepSplitAt<R(!new)>(m: Register<R>, c: R, x: R, high: R)
    requires StepDivides(m) && StepIsLinear(m)
    requires m.xor(c, x) == m.xor(m.add(c, m.odd(x)), high)
    requires !m.odd(high) && m.down(high) == m.down(x)
    ensures m.step(m.xor(c, x)) == m.xor(m.step(m.add(c, m.odd(x))), m.down(x))
  {
  }

  lemma {:induction false} ShiftLinear<R(!new)>(m: Register<R>, a: R, b: R, n: nat)
    requires StepIsLinear(m)
    ensures Shift(m, m.xor(a, b), n) == m.xor(Shift(m, a, n), Shift(m, b, n))
    decreases n
  {
    if n > 0 {
      ShiftLinear(m, m.step(a), m.step(b), n - 1);
    }
  }

  lemma {:induction false} FeedAppend<R>(m: Register<R>, c: R, a: seq<bool>, b: seq<bool>)
    ensures Feed(m, c, a + b) == Feed(m, Feed(m, c, a), b)
    decreases |a|
  {
    if |a| == 0 {
      assert a + b == b;
    } else {
      assert (a + b)[1..] == a[1..] + b;
      FeedAppend(m, m.step(m.add(c, a[0])), a[1..], b);
    }
  }

  /** Feeding bits one at a time is xoring them in together and then shifting. */
  lemma {:induction false} FeedIsShift<R(!new)>(m: Register<R>, c: R, x: R, n: nat)
    requires StepSplitsInput(m)
    ensures Shift(m, m.xor(c, x), n) == m.xor(Feed(m, c, LowBits(m, x, n)), HighPart(m, x, n))
    decreases n
  {
    if n > 0 {
      FeedIsShift(m, m.step(m.add(c, m.odd(x))), m.down(x), n - 1);
      assert LowBits(m, x, n)[1..] == LowBits(m, m.down(x), n - 1);
    }
  }

  lemma {:induction false} ShiftClear<R(!new)>(m: Register<R>, x: R, n: nat)
    requires StepDivides(m)
    requires forall i: nat :: i < n ==> !LowBits(m, x, n)[i]
    ensures Shift(m, x, n) == HighPart(m, x, n)
    decreases n
  {
    if n > 0 {
      assert !LowBits(m, x, n)[0];
      assert LowBits(m, x, n)[1..] == LowBits(m, m.down(x), n - 1);
      ShiftClear(m, m.down(x), n - 1);
    }
  }

  /** A table entry replaces n steps: the part of x below bit n goes through the table,
      the part above moves down. */
  lemma ShiftByTable<R(!new)>(m: Register<R>, x: R, low: R, high: R, n: nat)
    requires StepIsLinear(m) && StepDivides(m)
    requires x == m.xor(low, high)
    requires forall i: nat :: i < n ==> !LowBits(m, high, n)[i]
    ensures Shift(m, x, n) == m.xor(Shift(m, low, n), HighPart(m, high, n))
  {
    ShiftLinear(m, low, high, n);
    ShiftClear(m, high, n);
  }

  /** n bits fed in one by one, or looked up: low is the index, high what moves down, and what
      the input has above bit n comes out at the end. */
  lemma FeedByTable<R(!new)>(m: Register<R>, c: R, x: R, low: R, high: R, n: nat)
    requires StepIsLinear(m) && StepDivides(m) && StepSplitsInput(m)
    requires m.xor(c, x) == m.xor(low, high)
    requires forall i: nat :: i < n ==> !LowBits(m, high, n)[i]
    ensures m.xor(Feed(m, c, LowBits(m, x, n)), HighPart(m, x, n)) == m.xor(Shift(m, low, n), HighPart(m, high, n))
  {
    FeedIsShift(m, c, x, n);
    ShiftByTable(m, m.xor(c, x), low, high, n);
  }

  lemma {:induction false} HighPartAdd<R>(m: Register<R>, x: R, j: nat, k: nat)
    ensures HighPart(m, x, j + k) == HighPart(m, HighPart(m, x, j), k)
    decreases j
  {
    if j > 0 {
      HighPartAdd(m, m.down(x), j - 1, k);
    }
  }

  lemma {:induction false} BitOfHighPart<R>(m: Register<R>, x: R, j: nat, i: nat)
    ensures Bit(m, x, j + i) == Bit(m, HighPart(m, x, j), i)
    decreases j
  {
    if j > 0 {
      BitOfHighPart(m, m.down(x), j - 1, i);
    }
  }

  function Down4<R>(m: Register<R>, x: R): R { m.down(m.down(m.down(m.down(x)))) }

  lemma HighPart8<R>(m: Register<R>, x: R)
    ensures HighPart(m, x, 8) == Down4(m, Down4(m, x))
  {
    HighPartAdd(m, x, 4, 4);
    HighPart4(m, x);
    HighPart4(m, Down4(m, x));
  }

  lemma HighPart4<R>(m: Register<R>, x: R)
    ensures HighPart(m, x, 4) == Down4(m, x)
  {
    var y := m.down(m.down(x));
    assert HighPart(m, y, 2) == HighPart(m, m.down(y), 1) == m.down(m.down(y));
    assert HighPart(m, x, 4) == HighPart(m, y, 2);
  }

  lemma LowBits4<R>(m: Register<R>, x: R)
    ensures LowBits(m, x, 4) == [m.odd(x), m.odd(m.down(x)), m.odd(m.down(m.down(x))), m.odd(m.down(m.down(m.down(x))))]
  {
    var y := m.down(m.down(x));
    assert LowBits(m, y, 2) == [m.odd(y), m.odd(m.down(y))];
    assert LowBits(m, x, 4) == [m.odd(x), m.odd(m.down(x))] + LowBits(m, y, 2);
  }

  lemma {:induction false} LowBitsAdd<R>(m: Register<R>, x: R, j: nat, k: nat)
    ensures LowBits(m, x, j + k) == LowBits(m, x, j) + LowBits(m, HighPart(m, x, j), k)
    decreases j
  {
    if j == 0 {
      assert LowBits(m, x, 0) + LowBits(m, x, k) == LowBits(m, x, k);
    } else {
      LowBitsAdd(m, m.down(x), j - 1, k);
    }
  }

  lemma {:induction false} LowBitsInjective<R(!new)>(m: Register<R>, x: R, y: R, n: nat)
    requires BitsDetermine(m)
    requires LowBits(m, x, n) == LowBits(m, y, n) && HighPart(m, x, n) == HighPart(m, y, n)
    ensures x == y
    decreases n
  {
    if n > 0 {
      assert LowBits(m, x, n)[0] == LowBits(m, y, n)[0];
      assert LowBits(m, x, n)[1..] == LowBits(m, y, n)[1..];
      LowBitsInjective(m, m.down(x), m.down(y), n - 1);
    }
  }

  // ---- The look-up table ----

  /** The register value reached by counting up to i from zero. */
  function Count<R>(next: R -> R, zero: R, i: nat): R {
    if i == 0 then zero else next(Count(next, zero, i - 1))
  }

  /** Entry i of the table is the value i after `steps` steps. */
  ghost predicate IsTableOf<R>(m: Register<R>, next: R -> R, zero: R, table: array<R>, steps: nat)
    reads table
  {
    table.Length == 256 && forall i: nat :: i < 256 ==> table[i] == Shift(m, Count(next, zero, i), steps)
  }

  method TableEntry<R>(m: Register<R>, i: R, steps: nat) returns (c: R)
    ensures c == Shift(m, i, steps)
  {
    c := i;
    var k: nat := 0;
    while k < steps
      invariant k <= steps
      invariant Shift(m, c, steps - k) == Shift(m, i, steps)
    {
      c := m.step(c);
      k := k + 1;
    }
  }

  method BuildTable<R(0)>(m: Register<R>, next: R -> R, zero: R, steps: nat) returns (table: array<R>)
    ensures fresh(table) && IsTableOf(m, next, zero, table, steps)
  {
    table := new R[256];
    var i: nat, value := 0, zero;
    while i < 256
      invariant i <= 256 && value == Count(next, zero, i)
      invariant forall j: nat :: j < i ==> table[j] == Shift(m, Count(next, zero, j), steps)
    {
      var c := TableEntry(m, value, steps);
      table[i] := c;
      i, value := i + 1, next(value);
    }
  }

  // ---- Bursts ----

  lemma {:induction false} BitXor<R(!new)>(m: Register<R>, a: R, b: R, i: nat)
    requires XorIsBitwise(m)
    ensures Bit(m, m.xor(a, b), i) == (Bit(m, a, i) != Bit(m, b, i))
    decreases i
  {
    if i > 0 {
      BitXor(m, m.down(a), m.down(b), i - 1);
    }
  }

  /** Bit i after one input bit and one step, in terms of the register before. */
  lemma BitAfterStep<R(!new)>(m: Register<R>, c: R, v: bool, i: nat)
    requires StepDivides(m) && XorIsBitwise(m) && AddIsLow(m)
    ensures Bit(m, m.step(m.add(c, v)), i) == (Bit(m, c, i + 1) != ((m.odd(c) != v) && Bit(m, m.divisor, i)))
  {
    BitXor(m, m.divisor, m.down(m.add(c, v)), i);
  }

  lemma {:induction false} SameBitsEqual<R(!new)>(m: Register<R>, c: R, d: R, n: nat)
    requires BitsDetermine(m)
    requires HighPart(m, c, n) == HighPart(m, d, n)
    requires forall i: nat :: i < n ==> Bit(m, c, i) == Bit(m, d, i)
    ensures c == d
    decreases n
  {
    if n > 0 {
      assert Bit(m, c, 0) == Bit(m, d, 0);
      forall i: nat | i < n - 1 ensures Bit(m, m.down(c), i) == Bit(m, m.down(d), i) {
        assert Bit(m, c, i + 1) == Bit(m, d, i + 1);
      }
      SameBitsEqual(m, m.down(c), m.down(d), n - 1);
    }
  }

  lemma {:induction false} NoBit32<R(!new)>(m: Register<R>, c: R, d: R)
    requires Has32Bits(m)
    ensures Bit(m, c, 32) == Bit(m, d, 32)
  {
    BitOfHighPart(m, c, 32, 0);
    BitOfHighPart(m, d, 32, 0);
  }

  /** One input bit and one step, run backwards. If two registers agree from bit n up
      afterwards, they agreed from bit n + 1 up before, and their low ends differed
      exactly if the input bits did. */
  lemma StepBack<R(!new)>(m: Register<R>, c: R, d: R, v: bool, w: bool, n: nat)
    requires IsDivider(m)
    requires n <= 31 && SameBits(m, m.step(m.add(c, v)), m.step(m.add(d, w)), n)
    ensures (m.odd(c) != v) == (m.odd(d) != w)
    ensures SameBits(m, c, d, n + 1)
  {
    BitAfterStep(m, c, v, 31);
    BitAfterStep(m, d, w, 31);
    NoBit32(m, c, d);
    forall i: nat | n + 1 <= i < 32 ensures Bit(m, c, i) == Bit(m, d, i) {
      StepBackBit(m, c, d, v, w, n, i - 1);
    }
  }

  lemma StepBackBit<R(!new)>(m: Register<R>, c: R, d: R, v: bool, w: bool, n: nat, i: nat)
    requires StepDivides(m) && XorIsBitwise(m) && AddIsLow(m)
    requires n <= i < 32 && SameBits(m, m.step(m.add(c, v)), m.step(m.add(d, w)), n)
    requires (m.odd(c) != v) == (m.odd(d) != w)
    ensures Bit(m, c, i + 1) == Bit(m, d, i + 1)
  {
    BitAfterStep(m, c, v, i);
    BitAfterStep(m, d, w, i);
  }

  lemma {:induction false} FeedInjectiveInState<R(!new)>(m: Register<R>, c: R, d: R, bits: seq<bool>)
    requires IsDivider(m)
    requires Feed(m, c, bits) == Feed(m, d, bits)
    ensures c == d
    decreases |bits|
  {
    if |bits| > 0 {
      var v := bits[0];
      FeedInjectiveInState(m, m.step(m.add(c, v)), m.step(m.add(d, v)), bits[1..]);
      StepBack(m, c, d, v, v, 0);
      assert Bit(m, c, 0) == Bit(m, d, 0);
      SameBitsEqual(m, c, d, 32);
    }
  }

  /** Running two windows of at most 32 bits backwards from a common register: the
      registers they started from agree above the window, and if those agree altogether
      then so do the windows. */
  lemma {:induction false} WindowInjective<R(!new)>(m: Register<R>, c: R, d: R, v: seq<bool>, w: seq<bool>)
    requires IsDivider(m)
    requires |v| == |w| <= 32
    requires Feed(m, c, v) == Feed(m, d, w)
    ensures SameBits(m, c, d, |v|)
    ensures c == d ==> v == w
    decreases |v|
  {
    if |v| > 0 {
      WindowInjective(m, m.step(m.add(c, v[0])), m.step(m.add(d, w[0])), v[1..], w[1..]);
      StepBack(m, c, d, v[0], w[0], |v| - 1);
      if c == d {
        assert v[0] == w[0];
        assert v == [v[0]] + v[1..] && w == [w[0]] + w[1..];
      }
    }
  }

  /** Bit strings of one length, equal outside bits lo..hi. */
  ghost predicate DifferOnlyWithin(a: seq<bool>, b: seq<bool>, lo: nat, hi: nat) {
    && |a| == |b| && lo <= hi <= |a|
    && a[..lo] == b[..lo] && a[hi..] == b[hi..]
  }

  /** A burst of at most 32 bits, anywhere in a message, changes the register. */
  lemma BurstChangesRegister<R(!new)>(m: Register<R>, c: R, a: seq<bool>, b: seq<bool>, lo: nat, hi: nat)
    requires IsDivider(m)
    requires DifferOnlyWithin(a, b, lo, hi) && hi - lo <= 32
    requires Feed(m, c, a) == Feed(m, c, b)
    ensures a == b
  {
    var before := Feed(m, c, a[..lo]);
    var v, w := a[lo..hi], b[lo..hi];
    assert a == a[..lo] + (v + a[hi..]) && b == a[..lo] + (w + a[hi..]);
    FeedAppend(m, c, a[..lo], v + a[hi..]);
    FeedAppend(m, c, a[..lo], w + a[hi..]);
    FeedAppend(m, before, v, a[hi..]);
    FeedAppend(m, before, w, a[hi..]);
    FeedInjectiveInState(m, Feed(m, before, v), Feed(m, before, w), a[hi..]);
    WindowInjective(m, before, before, v, w);
  }

  lemma DivisorAdded<R(!new)>(m: Register<R>, s: R, t: R, one: R, x: R)
    requires StepIsLinear(m) && XorAssociates(m) && XorCommutes(m) && XorCancels(m)
    requires t == m.xor(s, one) && m.step(one) == m.divisor
    ensures m.xor(m.step(s), x) == m.xor(m.step(t), m.xor(x, m.divisor))
  {
    var u, p := m.step(s), m.divisor;
    assert m.step(t) == m.xor(u, p);
    assert m.xor(p, m.xor(x, p)) == m.xor(p, m.xor(p, x)) == x;
    assert m.xor(m.xor(u, p), m.xor(x, p)) == m.xor(u, m.xor(p, m.xor(x, p)));
  }

  /** A window of n + 1 bits and the same window with the divisor added to it. */
  lemma DivisorVanishes<R(!new)>(m: Register<R>, r: R, first: bool, one: R, x: R, n: nat)
    requires StepSplitsInput(m) && StepIsLinear(m)
    requires XorAssociates(m) && XorCommutes(m) && XorCancels(m)
    requires m.add(r, !first) == m.xor(m.add(r, first), one) && m.step(one) == m.divisor
    requires HighPart(m, x, n) == HighPart(m, m.xor(x, m.divisor), n)
    ensures Feed(m, r, [first] + LowBits(m, x, n)) == Feed(m, r, [!first] + LowBits(m, m.xor(x, m.divisor), n))
  {
    var y := m.xor(x, m.divisor);
    var s, t := m.step(m.add(r, first)), m.step(m.add(r, !first));
    var v, w := [first] + LowBits(m, x, n), [!first] + LowBits(m, y, n);
    assert v[1..] == LowBits(m, x, n) && w[1..] == LowBits(m, y, n);
    DivisorAdded(m, m.add(r, first), m.add(r, !first), one, x);
    SameShiftSameFeed(m, s, t, x, y, n);
  }

  lemma SameShiftSameFeed<R(!new)>(m: Register<R>, s: R, t: R, x: R, y: R, n: nat)
    requires StepSplitsInput(m) && XorCommutes(m) && XorCancels(m)
    requires m.xor(s, x) == m.xor(t, y) && HighPart(m, x, n) == HighPart(m, y, n)
    ensures Feed(m, s, LowBits(m, x, n)) == Feed(m, t, LowBits(m, y, n))
  {
    FeedIsShift(m, s, x, n);
    FeedIsShift(m, t, y, n);
    CancelRight(m, Feed(m, s, LowBits(m, x, n)), Feed(m, t, LowBits(m, y, n)), HighPart(m, x, n));
  }

  lemma CancelRight<R(!new)>(m: Register<R>, a: R, b: R, z: R)
    requires XorCommutes(m) && XorCancels(m)
    requires m.xor(a, z) == m.xor(b, z)
    ensures a == b
  {
    assert m.xor(z, m.xor(z, a)) == a;
    assert m.xor(z, m.xor(z, b)) == b;
  }
}

module Crc32 {
  import opened ShiftRegister

  const POLYNOMIAL: bv32 := 0xEDB88320
  const ALL_ONES: bv32 := 0xFFFFFFFF

  function Xor(a: bv32, b: bv32): bv32 { a ^ b }

  function Down(a: bv32): bv32 { a >> 1 }

  predicate Odd(a: bv32) { a & 1 == 1 }

  function AddBit(c: bv32, bit: bool): bv32 {
    if bit then Xor(c, 1) else c
  }

  /** One bit of reflected division: shift right, subtract the divisor if a one fell out. */
  function BitStep(c: bv32): bv32 {
    if Odd(c) then Xor(POLYNOMIAL, Down(c)) else Down(c)
  }

  /** The 32-bit register of the runtime. */
  const CRC: Register<bv32> := Register(POLYNOMIAL, Xor, Down, Odd, AddBit, BitStep)

  function MessageBits(bytes: seq<bv8>): (bits: seq<bool>)
    ensures |bits| == 8 * |bytes|
  {
    if |bytes| == 0 then [] else LowBits(CRC, bytes[0] as bv32, 8) + MessageBits(bytes[1..])
  }

  /** Bit-serial CRC-32 of a byte string: the reference. */
  function Checksum(bytes: seq<bv8>): bv32 {
    Xor(Feed(CRC, ALL_ONES, MessageBits(bytes)), ALL_ONES)
  }

  // ---- The laws of the 32-bit register ----

  lemma ParityOfXor(a: bv32, b: bv32)
    ensures Odd(a ^ b) == (Odd(a) != Odd(b))
  {
  }

  lemma DownOfXor(a: bv32, b: bv32)
    ensures Down(Xor(a, b)) == Xor(Down(a), Down(b))
  {
    assert (a ^ b) >> 1 == (a >> 1) ^ (b >> 1);
  }

  lemma XorAssociative(a: bv32, b: bv32, c: bv32)
    ensures Xor(Xor(a, b), c) == Xor(a, Xor(b, c))
  {
  }

  lemma XorCancel(a: bv32, b: bv32)
    ensures Xor(a, Xor(a, b)) == b
  {
  }

  lemma SplitFacts(c: bv32, x: bv32, high: bv32)
    requires high == x & 0xFFFFFFFE
    ensures Xor(c, x) == Xor(AddBit(c, Odd(x)), high)
    ensures !Odd(high) && Down(high) == Down(x)
  {
  }

  lemma AddBitFacts(c: bv32, v: bool)
    ensures Odd(AddBit(c, v)) == (Odd(c) != v)
    ensures Down(AddBit(c, v)) == Down(c)
  {
  }

  lemma CrcXorIsBitwise()
    ensures XorIsBitwise(CRC)
  {
    forall a, b ensures CRC.odd(CRC.xor(a, b)) == (CRC.odd(a) != CRC.odd(b)) {
      ParityOfXor(a, b);
    }
    forall a, b ensures CRC.down(CRC.xor(a, b)) == CRC.xor(CRC.down(a), CRC.down(b)) {
      DownOfXor(a, b);
    }
  }

  lemma CrcXorAssociates()
    ensures XorAssociates(CRC)
  {
    forall a, b, c ensures CRC.xor(CRC.xor(a, b), c) == CRC.xor(a, CRC.xor(b, c)) {
      XorAssociative(a, b, c);
    }
  }

  lemma CrcXorCancels()
    ensures XorCancels(CRC)
  {
    forall a, b ensures CRC.xor(a, CRC.xor(a, b)) == b {
      XorCancel(a, b);
    }
  }

  lemma CrcXorCommutes()
    ensures XorCommutes(CRC)
  {
  }

  lemma CrcStepDivides()
    ensures StepDivides(CRC)
  {
  }

  lemma CrcStepIsLinear()
    ensures StepIsLinear(CRC)
  {
    CrcStepDivides();
    CrcXorIsBitwise();
    CrcXorAssociates();
    CrcXorCommutes();
    CrcXorCancels();
    DivisionIsLinear(CRC);
  }

  lemma CrcSplitsInput()
    ensures StepSplitsInput(CRC)
  {
    CrcStepIsLinear();
    CrcStepDivides();
    forall c, x ensures CRC.step(CRC.xor(c, x)) == CRC.xor(CRC.step(CRC.add(c, CRC.odd(x))), CRC.down(x)) {
      SplitFacts(c, x, x & 0xFFFFFFFE);
      StepSplitAt(CRC, c, x, x & 0xFFFFFFFE);
    }
  }

  lemma CrcAddIsLow()
    ensures AddIsLow(CRC)
  {
    forall c, v ensures CRC.odd(CRC.add(c, v)) == (CRC.odd(c) != v) {
      AddBitFacts(c, v);
    }
    forall c, v ensures CRC.down(CRC.add(c, v)) == CRC.down(c) {
      AddBitFacts(c, v);
    }
  }

  lemma BitsDetermineWord(a: bv32, b: bv32)
    requires Odd(a) == Odd(b) && Down(a) == Down(b)
    ensures a == b
  {
  }

  lemma CrcBitsDetermine()
    ensures BitsDetermine(CRC)
  {
    forall a, b | CRC.odd(a) == CRC.odd(b) && CRC.down(a) == CRC.down(b) ensures a == b {
      BitsDetermineWord(a, b);
    }
  }

  lemma ShiftFacts(x: bv32)
    ensures (((x >> 1) >> 1) >> 1) >> 1 == x >> 4
    ensures (x >> 4) >> 4 == x >> 8 && (x >> 8) >> 8 == x >> 16 && (x >> 16) >> 8 == x >> 24 && (x >> 24) >> 8 == 0
  {
  }

  lemma DownNibble(x: bv32)
    ensures Down4(CRC, x) == x >> 4
  {
    ShiftFacts(x);
  }

  lemma DownByte(x: bv32)
    ensures HighPart(CRC, x, 8) == x >> 8
  {
    HighPart8(CRC, x);
    DownNibble(x);
    DownNibble(x >> 4);
    ShiftFacts(x);
  }

  lemma HighPart16(x: bv32)
    ensures HighPart(CRC, x, 16) == x >> 16
  {
    HighPartAdd(CRC, x, 8, 8);
    DownByte(x);
    DownByte(x >> 8);
    ShiftFacts(x);
  }

  lemma HighPart24(x: bv32)
    ensures HighPart(CRC, x, 24) == x >> 24
  {
    HighPartAdd(CRC, x, 16, 8);
    HighPart16(x);
    DownByte(x >> 16);
    ShiftFacts(x);
  }

  lemma HighPart32(x: bv32)
    ensures HighPart(CRC, x, 32) == 0
  {
    HighPartAdd(CRC, x, 24, 8);
    HighPart24(x);
    DownByte(x >> 24);
    assert (x >> 24) >> 8 == 0;
  }

  lemma TopBitOfPolynomial()
    ensures Bit(CRC, POLYNOMIAL, 31)
  {
    BitOfHighPart(CRC, POLYNOMIAL, 24, 7);
    HighPart24(POLYNOMIAL);
    assert POLYNOMIAL >> 24 == 0xED;
    assert Bit(CRC, 0xED, 7) == Bit(CRC, 0x76, 6) == Bit(CRC, 0x3B, 5) == Bit(CRC, 0x1D, 4);
    assert Bit(CRC, 0x1D, 4) == Bit(CRC, 0x0E, 3) == Bit(CRC, 0x07, 2) == Bit(CRC, 0x03, 1);
    assert Bit(CRC, 0x03, 1) == Bit(CRC, 0x01, 0);
  }

  lemma CrcIsDivider()
    ensures IsDivider(CRC)
  {
    CrcXorIsBitwise();
    CrcAddIsLow();
    CrcBitsDetermine();
    TopBitOfPolynomial();
    forall a, b ensures HighPart(CRC, a, 32) == HighPart(CRC, b, 32) {
      HighPart32(a);
      HighPart32(b);
    }
  }

  // ---- The table loop computes the bit-serial checksum ----

  lemma LowNibbleClear(x: bv32)
    requires x & 0xF == 0
    ensures !Odd(x) && !Odd(Down(x)) && !Odd(Down(Down(x))) && !Odd(Down(Down(Down(x))))
  {
  }

  lemma LowNibble(x: bv32)
    requires x & 0xF == 0
    ensures LowBits(CRC, x, 4) == [false, false, false, false]
  {
    LowNibbleClear(x);
    LowBits4(CRC, x);
  }

  lemma LowByteClear(x: bv32)
    requires x & 0xF == 0 && (x >> 4) & 0xF == 0
    ensures forall i: nat :: i < 8 ==> !LowBits(CRC, x, 8)[i]
  {
    LowBitsAdd(CRC, x, 4, 4);
    HighPart4(CRC, x);
    DownNibble(x);
    LowNibble(x);
    LowNibble(x >> 4);
  }

  lemma IndexFacts(c: bv32, b: bv8, low: bv32) returns (high: bv32)
    requires low == (c ^ b as bv32) & 0xFF
    ensures Xor(c, b as bv32) == Xor(low, high)
    ensures high & 0xF == 0 && (high >> 4) & 0xF == 0 && high >> 8 == c >> 8
    ensures (b as bv32) >> 8 == 0
  {
    high := (c ^ b as bv32) & 0xFFFFFF00;
  }

  lemma XorZero(y: bv32)
    ensures Xor(y, 0) == y
  {
  }

  lemma TableStep(c: bv32, x: bv32, low: bv32, high: bv32, n: nat)
    requires CRC.xor(c, x) == CRC.xor(low, high) && HighPart(CRC, x, n) == 0
    requires forall i: nat :: i < n ==> !LowBits(CRC, high, n)[i]
    ensures Feed(CRC, c, LowBits(CRC, x, n)) == Xor(Shift(CRC, low, n), HighPart(CRC, high, n))
  {
    CrcStepIsLinear();
    CrcStepDivides();
    CrcSplitsInput();
    FeedByTable(CRC, c, x, low, high, n);
    XorZero(Feed(CRC, c, LowBits(CRC, x, n)));
  }

  lemma HighByte(x: bv32, rest: bv32)
    requires x >> 8 == rest
    ensures HighPart(CRC, x, 8) == rest
  {
    DownByte(x);
  }

  /** The byte step with the index and the rest given by what is true of them. */
  lemma ByteStepOf(c: bv32, x: bv32, low: bv32, high: bv32, rest: bv32)
    requires Xor(c, x) == Xor(low, high)
    requires x >> 8 == 0 && high >> 8 == rest && high & 0xF == 0 && (high >> 4) & 0xF == 0
    ensures Feed(CRC, c, LowBits(CRC, x, 8)) == Xor(Shift(CRC, low, 8), rest)
  {
    HighByte(x, 0);
    HighByte(high, rest);
    LowByteClear(high);
    TableStep(c, x, low, high, 8);
  }

  lemma ByteStepAt(c: bv32, b: bv8, low: bv32, rest: bv32)
    requires low == (c ^ b as bv32) & 0xFF && rest == c >> 8
    ensures Feed(CRC, c, LowBits(CRC, b as bv32, 8)) == Xor(Shift(CRC, low, 8), rest)
  {
    var high := IndexFacts(c, b, low);
    ByteStepOf(c, b as bv32, low, high, rest);
  }

  lemma ByteStep(c: bv32, b: bv8)
    ensures Feed(CRC, c, LowBits(CRC, b as bv32, 8)) == Xor(Shift(CRC, (c ^ b as bv32) & 0xFF, 8), c >> 8)
  {
    ByteStepAt(c, b, (c ^ b as bv32) & 0xFF, c >> 8);
  }

  lemma {:induction false} MessageBitsAppend(a: seq<bv8>, b: seq<bv8>)
    ensures MessageBits(a + b) == MessageBits(a) + MessageBits(b)
  {
    if |a| == 0 {
      assert a + b == b;
    } else {
      assert (a + b)[1..] == a[1..] + b;
      MessageBitsAppend(a[1..], b);
    }
  }

  lemma AppendByte(c: bv32, bytes: seq<bv8>, b: bv8)
    ensures Feed(CRC, c, MessageBits(bytes + [b]))
         == Feed(CRC, Feed(CRC, c, MessageBits(bytes)), LowBits(CRC, b as bv32, 8))
  {
    MessageBitsAppend(bytes, [b]);
    assert MessageBits([b]) == LowBits(CRC, b as bv32, 8);
    FeedAppend(CRC, c, MessageBits(bytes), LowBits(CRC, b as bv32, 8));
  }

  lemma NextByte(c: bv32, bytes: seq<bv8>, n: nat, steps: nat)
    requires n < |bytes| && steps == 8
    ensures Feed(CRC, c, MessageBits(bytes[..n + 1]))
         == Feed(CRC, Feed(CRC, c, MessageBits(bytes[..n])), LowBits(CRC, bytes[n] as bv32, steps))
  {
    AppendByte(c, bytes[..n], bytes[n]);
    assert bytes[..n + 1] == bytes[..n] + [bytes[n]];
  }

  function Increment(w: bv32): bv32 { w + 1 }

  /** The number i as a register value, for i below 2^32. */
  function Word(i: nat): bv32 {
    Count(Increment, 0, i)
  }

  lemma IndexPredecessor(w: bv8)
    requires w != 0
    ensures (w - 1) as int == w as int - 1
    ensures (w - 1) as bv32 + 1 == w as bv32
  {
  }

  lemma {:induction false} WordOfIndex(w: bv8)
    ensures Word(w as int) == w as bv32
    decreases w as int
  {
    if w != 0 {
      IndexPredecessor(w);
      WordOfIndex(w - 1);
    }
  }

  /** The table: entry i is the register i after eight bit steps. */
  ghost predicate IsTable(table: array<bv32>, steps: nat)
    reads table
  {
    IsTableOf(CRC, Increment, 0, table, steps)
  }

  lemma LowByte(x: bv32, index: bv8)
    requires index == (x & 0xFF) as bv8
    ensures index as bv32 == x & 0xFF
  {
  }

  method LookUp(table: array<bv32>, crc: bv32, b: bv8, ghost steps: nat) returns (next: bv32)
    requires steps == 8 && IsTable(table, steps)
    ensures next == Feed(CRC, crc, LowBits(CRC, b as bv32, steps))
  {
    var index := ((crc ^ b as bv32) & 0xFF) as bv8;
    LowByte(crc ^ b as bv32, index);
    WordOfIndex(index);
    ByteStep(crc, b);
    next := Xor(table[index as int], crc >> 8);
  }

  /** The loop over the bytes of a message, from register c. */
  method Absorb(table: array<bv32>, c: bv32, bytes: seq<bv8>, ghost steps: nat) returns (crc: bv32)
    requires steps == 8 && IsTable(table, steps)
    ensures crc == Feed(CRC, c, MessageBits(bytes))
  {
    crc := c;
    var n := 0;
    while n < |bytes|
      invariant n <= |bytes|
      invariant crc == Feed(CRC, c, MessageBits(bytes[..n]))
    {
      crc := LookUp(table, crc, bytes[n], steps);
      NextByte(c, bytes, n, steps);
      n := n + 1;
    }
    assert bytes[..n] == bytes;
  }

  /** The shipped form: a table of 256 entries, then a byte at a time through it. */
  method TableChecksum(bytes: seq<bv8>) returns (crc: bv32)
    ensures crc == Checksum(bytes)
  {
    var table := BuildTable(CRC, Increment, 0, 8);
    crc := Absorb(table, ALL_ONES, bytes, 8);
    crc := Xor(crc, ALL_ONES);
  }

  // ---- What the checksum detects ----

  lemma ByteBitsInjective(x: bv8, y: bv8)
    requires LowBits(CRC, x as bv32, 8) == LowBits(CRC, y as bv32, 8)
    ensures x == y
  {
    DownByte(x as bv32);
    DownByte(y as bv32);
    CrcBitsDetermine();
    LowBitsInjective(CRC, x as bv32, y as bv32, 8);
  }

  lemma {:induction false} MessageBitsInjective(a: seq<bv8>, b: seq<bv8>)
    requires MessageBits(a) == MessageBits(b)
    ensures a == b
    decreases |a|
  {
    if |a| > 0 {
      var x, y := LowBits(CRC, a[0] as bv32, 8), LowBits(CRC, b[0] as bv32, 8);
      assert (x + MessageBits(a[1..]))[..8] == x && (y + MessageBits(b[1..]))[..8] == y;
      assert (x + MessageBits(a[1..]))[8..] == MessageBits(a[1..]);
      assert (y + MessageBits(b[1..]))[8..] == MessageBits(b[1..]);
      ByteBitsInjective(a[0], b[0]);
      MessageBitsInjective(a[1..], b[1..]);
      assert a == [a[0]] + a[1..] && b == [b[0]] + b[1..];
    }
  }

  lemma ChecksumsDiffer(x: bv32, y: bv32)
    requires Xor(x, ALL_ONES) == Xor(y, ALL_ONES)
    ensures x == y
  {
  }

  lemma BurstChangesCrc(c: bv32, a: seq<bool>, b: seq<bool>, lo: nat, hi: nat)
    requires DifferOnlyWithin(a, b, lo, hi) && hi - lo <= 32
    requires Feed(CRC, c, a) == Feed(CRC, c, b)
    ensures a == b
  {
    CrcIsDivider();
    BurstChangesRegister(CRC, c, a, b, lo, hi);
  }

  /** Two different payloads of one length whose bits differ only inside some 32
      consecutive bits, aligned or not, never share a checksum. */
  lemma BurstDetected(a: seq<bv8>, b: seq<bv8>, lo: nat, hi: nat)
    requires |a| == |b| && a != b
    requires DifferOnlyWithin(MessageBits(a), MessageBits(b), lo, hi) && hi - lo <= 32
    ensures Checksum(a) != Checksum(b)
  {
    if Checksum(a) == Checksum(b) {
      ChecksumsDiffer(Feed(CRC, ALL_ONES, MessageBits(a)), Feed(CRC, ALL_ONES, MessageBits(b)));
      BurstChangesCrc(ALL_ONES, MessageBits(a), MessageBits(b), lo, hi);
      MessageBitsInjective(a, b);
    }
  }

  lemma MessageBitsSlices(a: seq<bv8>, lo: nat, hi: nat)
    requires lo <= hi <= |a|
    ensures MessageBits(a)[..8 * lo] == MessageBits(a[..lo])
    ensures MessageBits(a)[8 * hi..] == MessageBits(a[hi..])
  {
    assert a == a[..lo] + a[lo..] && a == a[..hi] + a[hi..];
    MessageBitsAppend(a[..lo], a[lo..]);
    MessageBitsAppend(a[..hi], a[hi..]);
  }

  /** The byte form: any change confined to four consecutive bytes is detected. */
  lemma FourByteBurstDetected(a: seq<bv8>, b: seq<bv8>, lo: nat, hi: nat)
    requires |a| == |b| && a != b && lo <= hi <= |a| && hi - lo <= 4
    requires a[..lo] == b[..lo] && a[hi..] == b[hi..]
    ensures Checksum(a) != Checksum(b)
  {
    MessageBitsSlices(a, lo, hi);
    MessageBitsSlices(b, lo, hi);
    BurstDetected(a, b, 8 * lo, 8 * hi);
  }

  lemma AddOne(r: bv32, v: bool)
    ensures CRC.add(r, !v) == CRC.xor(CRC.add(r, v), 1)
    ensures CRC.step(1) == CRC.divisor
  {
  }

  lemma DivisorVanishesHere(r: bv32, first: bool, x: bv32)
    ensures Feed(CRC, r, [first] + LowBits(CRC, x, 32)) == Feed(CRC, r, [!first] + LowBits(CRC, CRC.xor(x, CRC.divisor), 32))
  {
    HighPart32(x);
    HighPart32(CRC.xor(x, CRC.divisor));
    CrcStepIsLinear();
    CrcSplitsInput();
    CrcXorAssociates();
    CrcXorCommutes();
    CrcXorCancels();
    AddOne(r, first);
    DivisorVanishes(CRC, r, first, 1, x, 32);
  }

  /** 32 is the exact limit: every window of 33 bits has a different one, the divisor
      added to it, that leaves the register the same whatever comes before and after. */
  lemma BurstLimitIsSharp(c: bv32, before: seq<bool>, first: bool, x: bv32, after: seq<bool>)
    ensures var v, w := [first] + LowBits(CRC, x, 32), [!first] + LowBits(CRC, x ^ 0xEDB88320, 32);
            && |v| == |w| == 33 && v != w
            && Feed(CRC, c, before + v + after) == Feed(CRC, c, before + w + after)
  {
    var v, w := [first] + LowBits(CRC, x, 32), [!first] + LowBits(CRC, Xor(x, POLYNOMIAL), 32);
    assert v[0] != w[0];
    DivisorVanishesHere(Feed(CRC, c, before), first, x);
    FeedAppend(CRC, c, before, v);
    FeedAppend(CRC, c, before, w);
    FeedAppend(CRC, c, before + v, after);
    FeedAppend(CRC, c, before + w, after);
  }

  // ---- Which checksum it is ----

  /** Registers each one step after the one before it. */
  predicate IsChain(registers: seq<bv32>) {
    |registers| > 0 && forall i :: 0 <= i < |registers| - 1 ==> BitStep(registers[i]) == registers[i + 1]
  }

  lemma {:induction false} ChainShifts(registers: seq<bv32>, n: nat)
    requires IsChain(registers) && n == |registers| - 1
    ensures Shift(CRC, registers[0], n) == registers[n]
    decreases n
  {
    if n > 0 {
      assert BitStep(registers[0]) == registers[0 + 1];
      ChainShifts(registers[1..], n - 1);
    }
  }

  lemma {:induction false} ShiftAdd(c: bv32, j: nat, k: nat)
    ensures Shift(CRC, c, j + k) == Shift(CRC, Shift(CRC, c, j), k)
    decreases j
  {
    if j > 0 {
      ShiftAdd(BitStep(c), j - 1, k);
    }
  }

  lemma OnesShifted8(n: nat)
    requires n == 8
    ensures Shift(CRC, 0xFFFFFFFF, n) == 0x2DFD1072
  {
    ChainShifts([0xFFFFFFFF, 0x92477CDF, 0xA49B3D4F, 0xBFF51D87, 0xB2420DE3,
                 0xB49985D1, 0xB7F441C8, 0x5BFA20E4, 0x2DFD1072], n);
  }

  lemma OnesShifted16(n: nat)
    requires n == 8
    ensures Shift(CRC, 0x2DFD1072, n) == 0xBE26ED00
  {
    ChainShifts([0x2DFD1072, 0x16FE8839, 0xE6C7C73C, 0x7363E39E, 0x39B1F1CF,
                 0xF1607BC7, 0x9508BEC3, 0xA73CDC41, 0xBE26ED00], n);
  }

  lemma OnesShifted24(n: nat)
    requires n == 8
    ensures Shift(CRC, 0xBE26ED00, n) == 0x00BE26ED
  {
    ChainShifts([0xBE26ED00, 0x5F137680, 0x2F89BB40, 0x17C4DDA0, 0x0BE26ED0,
                 0x05F13768, 0x02F89BB4, 0x017C4DDA, 0x00BE26ED], n);
  }

  lemma OnesShifted32(n: nat)
    requires n == 8
    ensures Shift(CRC, 0x00BE26ED, n) == 0xDEBB20E3
  {
    ChainShifts([0x00BE26ED, 0xEDE79056, 0x76F3C82B, 0xD6C16735, 0x86D830BA,
                 0x436C185D, 0xCC0E8F0E, 0x66074787, 0xDEBB20E3], n);
  }

  lemma ByteOfOnesShifted(n: nat)
    requires n == 8
    ensures Shift(CRC, 0xFF, n) == 0x2D02EF8D
  {
    ChainShifts([0x000000FF, 0xEDB8835F, 0x9B64C28F, 0xA00AE267, 0xBDBDF213,
                 0xB3667A29, 0xB40BBE34, 0x5A05DF1A, 0x2D02EF8D], n);
  }

  lemma ChecksumOfNothing()
    ensures Checksum([]) == 0
  {
    assert MessageBits([]) == [];
  }

  /** A zero byte in front changes every checksum. */
  lemma LeadingZeroDetected(p: seq<bv8>)
    ensures Checksum([0] + p) != Checksum(p)
  {
    var c := Feed(CRC, ALL_ONES, LowBits(CRC, 0, 8));
    ZeroByteMoves(c);
    assert MessageBits([0] + p) == LowBits(CRC, 0, 8) + MessageBits(p) by {
      assert ([0] + p)[0] == 0 && ([0] + p)[1..] == p;
    }
    FeedAppend(CRC, ALL_ONES, LowBits(CRC, 0, 8), MessageBits(p));
    if Checksum([0] + p) == Checksum(p) {
      ChecksumsDiffer(Feed(CRC, c, MessageBits(p)), Feed(CRC, ALL_ONES, MessageBits(p)));
      CrcIsDivider();
      FeedInjectiveInState(CRC, c, ALL_ONES, MessageBits(p));
    }
  }

  lemma ZeroByteMoves(c: bv32)
    requires c == Feed(CRC, ALL_ONES, LowBits(CRC, 0, 8))
    ensures c != ALL_ONES
  {
    var zero: bv8 := 0;
    ByteStepAt(ALL_ONES, zero, 0xFF, 0x00FFFFFF);
    ByteOfOnesShifted(8);
  }

  function LowestByte(w: bv32): bv8 {
    (w & 0xFF) as bv8
  }

  /** The four bytes of a word, low byte first. */
  function LittleEndian(w: bv32): seq<bv8> {
    [LowestByte(w), LowestByte(w >> 8), LowestByte(w >> 16), LowestByte(w >> 24)]
  }

  lemma OnesShifted(n: nat)
    requires n == 8
    ensures Shift(CRC, ALL_ONES, n + n + n + n) == 0xDEBB20E3
  {
    OnesShifted8(n);
    OnesShifted16(n);
    OnesShifted24(n);
    OnesShifted32(n);
    ShiftAdd(ALL_ONES, n, n);
    ShiftAdd(ALL_ONES, n + n, n);
    ShiftAdd(ALL_ONES, n + n + n, n);
  }

  lemma SameNibble(x: bv32, y: bv32)
    requires x & 0xF == y & 0xF
    ensures Odd(x) == Odd(y) && Odd(Down(x)) == Odd(Down(y))
    ensures Odd(Down(Down(x))) == Odd(Down(Down(y))) && Odd(Down(Down(Down(x)))) == Odd(Down(Down(Down(y))))
  {
  }

  lemma SameLowBits4(x: bv32, y: bv32)
    requires x & 0xF == y & 0xF
    ensures LowBits(CRC, x, 4) == LowBits(CRC, y, 4)
  {
    SameNibble(x, y);
    LowBits4(CRC, x);
    LowBits4(CRC, y);
  }

  lemma SameLowBits8(x: bv32, y: bv32)
    requires x & 0xF == y & 0xF && (x >> 4) & 0xF == (y >> 4) & 0xF
    ensures LowBits(CRC, x, 8) == LowBits(CRC, y, 8)
  {
    LowBitsAdd(CRC, x, 4, 4);
    LowBitsAdd(CRC, y, 4, 4);
    HighPart4(CRC, x);
    HighPart4(CRC, y);
    DownNibble(x);
    DownNibble(y);
    SameLowBits4(x, y);
    SameLowBits4(x >> 4, y >> 4);
  }

  lemma ByteFacts(w: bv32)
    ensures LowestByte(w) as bv32 & 0xF == w & 0xF && (LowestByte(w) as bv32 >> 4) & 0xF == (w >> 4) & 0xF
  {
  }

  lemma ByteOfWord(w: bv32, n: nat)
    requires n == 8
    ensures LowBits(CRC, LowestByte(w) as bv32, n) == LowBits(CRC, w, n)
  {
    ByteFacts(w);
    SameLowBits8(LowestByte(w) as bv32, w);
  }

  lemma OneByte(w: bv32, b: bv8, n: nat)
    requires n == 8 && b == LowestByte(w)
    ensures MessageBits([b]) == LowBits(CRC, w, n)
  {
    ByteOfWord(w, n);
    assert [b][1..] == [];
  }

  lemma FourBytes(a: bv8, b: bv8, c: bv8, d: bv8)
    ensures MessageBits([a, b, c, d]) == MessageBits([a]) + MessageBits([b]) + MessageBits([c]) + MessageBits([d])
  {
    assert [a, b, c, d] == [a] + [b] + [c] + [d];
    MessageBitsAppend([a] + [b] + [c], [d]);
    MessageBitsAppend([a] + [b], [c]);
    MessageBitsAppend([a], [b]);
  }

  lemma WordBits(w: bv32, n: nat)
    requires n == 8
    ensures LowBits(CRC, w, n + n + n + n) == LowBits(CRC, w, n) + LowBits(CRC, w >> 8, n)
                                           + LowBits(CRC, w >> 16, n) + LowBits(CRC, w >> 24, n)
  {
    LowBitsAdd(CRC, w, n, n);
    LowBitsAdd(CRC, w, n + n, n);
    LowBitsAdd(CRC, w, n + n + n, n);
    DownByte(w);
    HighPart16(w);
    HighPart24(w);
  }

  lemma BytesOfWord(w: bv32, v: bv32, x: bv32, y: bv32, n: nat)
    requires n == 8
    ensures MessageBits([LowestByte(w), LowestByte(v), LowestByte(x), LowestByte(y)])
         == LowBits(CRC, w, n) + LowBits(CRC, v, n) + LowBits(CRC, x, n) + LowBits(CRC, y, n)
  {
    var a, b, c, d := LowestByte(w), LowestByte(v), LowestByte(x), LowestByte(y);
    OneByte(w, a, n);
    OneByte(v, b, n);
    OneByte(x, c, n);
    OneByte(y, d, n);
    FourBytes(a, b, c, d);
  }

  /** The bytes of a word carry its bits in the order of the register. */
  lemma LittleEndianBits(w: bv32, s: seq<bv8>, n: nat)
    requires n == 8 && s == LittleEndian(w)
    ensures MessageBits(s) == LowBits(CRC, w, n + n + n + n)
  {
    BytesOfWord(w, w >> 8, w >> 16, w >> 24, n);
    WordBits(w, n);
  }

  /** A word fed into a register it complements leaves what all ones leave. */
  lemma ComplementLeaves(r: bv32, w: bv32, n: nat)
    requires n == 8 && CRC.xor(r, w) == ALL_ONES
    ensures Feed(CRC, r, LowBits(CRC, w, n + n + n + n)) == 0xDEBB20E3
  {
    CrcSplitsInput();
    FeedIsShift(CRC, r, w, n + n + n + n);
    HighPart32(w);
    OnesShifted(n);
    XorZero(Feed(CRC, r, LowBits(CRC, w, n + n + n + n)));
  }

  /** The residue law: with its own checksum behind it, low byte first, every message has the
      checksum 0x2144DF1C. */
  lemma Residue(p: seq<bv8>)
    ensures Checksum(p + LittleEndian(Checksum(p))) == 0x2144DF1C
  {
    var r, w := Feed(CRC, ALL_ONES, MessageBits(p)), Checksum(p);
    ComplementOf(r, w);
    ResidueFrom(r, w, p, LittleEndian(w), 8);
  }

  lemma ResidueFrom(r: bv32, w: bv32, p: seq<bv8>, s: seq<bv8>, n: nat)
    requires n == 8 && s == LittleEndian(w)
    requires r == Feed(CRC, ALL_ONES, MessageBits(p)) && CRC.xor(r, w) == ALL_ONES
    ensures Feed(CRC, ALL_ONES, MessageBits(p + s)) == 0xDEBB20E3
  {
    MessageBitsAppend(p, s);
    LittleEndianBits(w, s, n);
    FeedAppend(CRC, ALL_ONES, MessageBits(p), MessageBits(s));
    ComplementLeaves(r, w, n);
  }

  lemma ComplementOf(r: bv32, w: bv32)
    requires w == Xor(r, ALL_ONES)
    ensures CRC.xor(r, w) == ALL_ONES
  {
  }
}
