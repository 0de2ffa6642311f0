/** CRC-16/Modbus and what it detects.  Section 6.2.2 of "MODBUS over Serial Line Specification and
    Implementation Guide V1.02" is the reference for polynomial, start value and byte order.
 */
module ModbusCrc {

  const START: bv16 := 0xFFFF

  function Xor(a: bv16, b: bv16): bv16 { a ^ b }

  /** One shift of the register; 0xA001 is the reflected generator polynomial. */
  function Shift(c: bv16): bv16 {
    if c & 1 == 1 then (c >> 1) ^ 0xA001 else c >> 1
  }

  function Shifts(c: bv16, n: nat): bv16
    decreases n
  {
    if n == 0 then c else Shifts(Shift(c), n - 1)
  }

  function FeedByte(c: bv16, b: bv8): bv16 {
    Shifts(Xor(c, b as bv16), 8)
  }

  /** The register after all bytes, starting from `c`. */
  function Crc(c: bv16, data: seq<bv8>): bv16 {
    if data == [] then c
    else FeedByte(Crc(c, data[..|data| - 1]), data[|data| - 1])
  }

  /** `crc16`: the two nested loops. */
  method Crc16(data: seq<bv8>) returns (crc: bv16)
    ensures crc == Crc(0xFFFF, data)
  {
    crc := 0xFFFF;
    for i := 0 to |data|
      invariant crc == Crc(START, data[..i])
    {
      ghost var before := crc;
      crc := crc ^ data[i] as bv16;
      for k := 0 to 8
        invariant Shifts(crc, 8 - k) == FeedByte(before, data[i])
      {
        if crc & 1 != 0 {
          crc := (crc >> 1) ^ 0xA001;
        } else {
          crc := crc >> 1;
        }
      }
      assert data[..i + 1][..i] == data[..i];
    }
    assert data[..|data|] == data;
  }

  // ---------------------------------------------------------------- the shift is linear and injective

  lemma XorAssociates(a: bv16, b: bv16, c: bv16)
    ensures Xor(Xor(a, b), c) == Xor(a, Xor(b, c))
  {
  }

  lemma XorCommutes(a: bv16, b: bv16)
    ensures Xor(a, b) == Xor(b, a)
  {
  }

  lemma XorZero(a: bv16)
    ensures Xor(a, 0) == a && Xor(0, a) == a && Xor(a, a) == 0
  {
  }

  lemma XorApart(a: bv16, b: bv16)
    ensures Xor(a, b) == 0 <==> a == b
  {
    XorAssociates(a, b, b);
    XorZero(a);
    XorZero(b);
    hide Xor;
  }

  /** Exchanges the middle operands. */
  lemma XorSwap(a: bv16, b: bv16, c: bv16, d: bv16)
    ensures Xor(Xor(a, b), Xor(c, d)) == Xor(Xor(a, c), Xor(b, d))
  {
    hide Xor;
    XorAssociates(a, b, Xor(c, d));
    XorAssociates(b, c, d);
    XorCommutes(b, c);
    XorAssociates(c, b, d);
    XorAssociates(a, c, Xor(b, d));
  }

  lemma LowBit(a: bv16)
    ensures a & 1 == 0 || a & 1 == 1
  {
  }

  lemma ShiftLinear(a: bv16, b: bv16)
    ensures Shift(Xor(a, b)) == Xor(Shift(a), Shift(b))
  {
    assert (a ^ b) >> 1 == (a >> 1) ^ (b >> 1);
    assert (a ^ b) & 1 == (a & 1) ^ (b & 1);
    LowBit(a);
    LowBit(b);
  }

  lemma ShiftInjective(a: bv16)
    requires Shift(a) == 0
    ensures a == 0
  {
  }

  lemma ShiftOfZero()
    ensures Shift(0) == 0
  {
  }

  lemma {:induction false} ShiftsLinear(a: bv16, b: bv16, n: nat)
    ensures Shifts(Xor(a, b), n) == Xor(Shifts(a, n), Shifts(b, n))
    decreases n
  {
    hide Shift, Xor;
    if n > 0 {
      ShiftLinear(a, b);
      ShiftsLinear(Shift(a), Shift(b), n - 1);
    }
  }

  lemma {:induction false} ShiftsZero(n: nat)
    ensures Shifts(0, n) == 0
  {
    hide Shift;
    ShiftOfZero();
    if n > 0 {
      ShiftsZero(n - 1);
    }
  }

  /** Shifting never loses an error pattern. */
  lemma {:induction false} ShiftsInjective(a: bv16, n: nat)
    requires Shifts(a, n) == 0
    ensures a == 0
    decreases n
  {
    hide Shift;
    if n > 0 {
      ShiftsInjective(Shift(a), n - 1);
      ShiftInjective(a);
    }
  }

  lemma {:induction false} ShiftsAdd(c: bv16, m: nat, n: nat)
    ensures Shifts(Shifts(c, m), n) == Shifts(c, m + n)
    decreases m
  {
    hide Shift;
    if m > 0 {
      ShiftsAdd(Shift(c), m - 1, n);
    }
  }

  // ---------------------------------------------------------------- the register fed bit by bit

  function Bit(b: bool): bv16 {
    if b then 1 else 0
  }

  function FeedBit(c: bv16, b: bool): bv16 {
    Shift(Xor(c, Bit(b)))
  }

  /** The register fed with bits in the order they travel on the line. */
  function FeedBits(c: bv16, bits: seq<bool>): bv16
    decreases |bits|
  {
    if bits == [] then c else FeedBits(FeedBit(c, bits[0]), bits[1..])
  }

  predicate Odd(v: bv16) { v & 1 == 1 }

  function Half(v: bv16): bv16 { v >> 1 }

  function Twice(v: bv16): bv16 { v << 1 }

  /** The `n` low bits of `v`, lowest first: the order in which a serial line sends a byte. */
  function LowBits(v: bv16, n: nat): (bits: seq<bool>)
    ensures |bits| == n
    decreases n
  {
    if n == 0 then [] else [Odd(v)] + LowBits(Half(v), n - 1)
  }

  function DropBits(v: bv16, n: nat): bv16
    decreases n
  {
    if n == 0 then v else DropBits(Half(v), n - 1)
  }

  /** All bits of a frame in the order they travel on the line. */
  function Wire(data: seq<bv8>): (bits: seq<bool>)
    ensures |bits| == 8 * |data|
  {
    if data == [] then [] else Wire(data[..|data| - 1]) + LowBits(data[|data| - 1] as bv16, 8)
  }

  lemma {:induction false} FeedBitsAppend(c: bv16, x: seq<bool>, y: seq<bool>)
    ensures FeedBits(c, x + y) == FeedBits(FeedBits(c, x), y)
    decreases |x|
  {
    hide FeedBit;
    if x == [] {
      assert x + y == y;
    } else {
      assert (x + y)[1..] == x[1..] + y;
      FeedBitsAppend(FeedBit(c, x[0]), x[1..], y);
    }
  }

  /** Doubling an even-topped register and shifting it once gives it back. */
  lemma ShiftOfDouble(p: bv16)
    requires p & 0x8000 == 0
    ensures Shift(Twice(p)) == p
  {
  }

  lemma SplitLow(v: bv16)
    ensures v == Xor(Bit(Odd(v)), Twice(Half(v))) && Half(v) & 0x8000 == 0
  {
  }

  lemma PeelBit(c: bv16, v: bv16)
    ensures Shift(Xor(c, v)) == Xor(FeedBit(c, Odd(v)), Half(v))
  {
    SplitLow(v);
    ShiftOfDouble(Half(v));
    hide Shift, Xor, Odd, Half, Bit, Twice;
    var b := Bit(Odd(v));
    XorAssociates(c, b, Twice(Half(v)));
    ShiftLinear(Xor(c, b), Twice(Half(v)));
  }

  lemma {:induction false} PeelBits(c: bv16, v: bv16, n: nat)
    requires DropBits(v, n) == 0
    ensures Shifts(Xor(c, v), n) == FeedBits(c, LowBits(v, n))
    decreases n
  {
    hide Shift, FeedBit, Xor, Odd, Half;
    if n > 0 {
      PeelBit(c, v);
      PeelBits(FeedBit(c, Odd(v)), Half(v), n - 1);
    } else {
      XorZero(c);
    }
  }

  lemma ByteFits(b: bv8)
    ensures DropBits(b as bv16, 8) == 0
  {
  }

  /** The byte-wise computation of the source is the bit-serial one. */
  lemma {:induction false} CrcIsBitSerial(c: bv16, data: seq<bv8>)
    ensures Crc(c, data) == FeedBits(c, Wire(data))
    decreases |data|
  {
    hide Xor, Shifts, LowBits, FeedBits, DropBits, FeedByte;
    if data != [] {
      var n := |data| - 1;
      CrcIsBitSerial(c, data[..n]);
      FeedByteIsBitSerial(Crc(c, data[..n]), data[n]);
      FeedBitsAppend(c, Wire(data[..n]), LowBits(data[n] as bv16, 8));
    } else {
      FeedNothing(c);
    }
  }

  lemma FeedByteIsBitSerial(c: bv16, b: bv8)
    ensures FeedByte(c, b) == FeedBits(c, LowBits(b as bv16, 8))
  {
    hide Xor, Shifts, LowBits, FeedBits, DropBits;
    ByteFits(b);
    PeelBits(c, b as bv16, 8);
  }

  lemma FeedNothing(c: bv16)
    ensures FeedBits(c, []) == c
  {
  }

  // ---------------------------------------------------------------- division by the generator polynomial

  /** The register read from the other end. */
  function Mirrored(c: bv16): bv16 {
    var a := ((c & 0x5555) << 1) | ((c >> 1) & 0x5555);
    var b := ((a & 0x3333) << 2) | ((a >> 2) & 0x3333);
    var d := ((b & 0x0F0F) << 4) | ((b >> 4) & 0x0F0F);
    (d << 8) | (d >> 8)
  }

  /** Multiplication by x, reduced by x^16 + x^15 + x^2 + 1. */
  function TimesX(r: bv16): bv16 {
    if r & 0x8000 != 0 then (r << 1) ^ 0x8005 else r << 1
  }

  /** The next bit of the message meets the leading coefficient of the remainder. */
  function Meet(r: bv16, bit: bool): bv16 {
    if bit then r ^ 0x8000 else r
  }

  /** One step of the long division. */
  function DivisionStep(r: bv16, bit: bool): bv16 {
    TimesX(Meet(r, bit))
  }

  /** The remainder of the message, its bits in the order in which they travel, from the start value on. */
  function Remainder(r: bv16, bits: seq<bool>): bv16
    decreases |bits|
  {
    if bits == [] then r else Remainder(DivisionStep(r, bits[0]), bits[1..])
  }

  lemma MirroredStep(c: bv16, bit: bool)
    ensures Mirrored(FeedBit(c, bit)) == DivisionStep(Mirrored(c), bit)
  {
    hide Mirrored, Xor, Bit, Meet, Shift, TimesX;
    MeetLeading(c, bit);
    MirroredShift(Xor(c, Bit(bit)));
  }

  lemma MirroredShift(c: bv16)
    ensures Mirrored(Shift(c)) == TimesX(Mirrored(c))
  {
    hide Mirrored;
    MirroredHalf(c);
    MirroredXor(c >> 1, 0xA001);
    MirroredBits();
    LowBit(c);
  }

  lemma MirroredXor(a: bv16, b: bv16)
    ensures Mirrored(a ^ b) == Mirrored(a) ^ Mirrored(b)
  {
  }

  /** The low end becomes the leading one. */
  lemma MirroredHalf(c: bv16)
    ensures Mirrored(c >> 1) == Mirrored(c) << 1
    ensures c & 1 == 1 <==> Mirrored(c) & 0x8000 != 0
  {
  }

  lemma MeetLeading(c: bv16, bit: bool)
    ensures Mirrored(Xor(c, Bit(bit))) == Meet(Mirrored(c), bit)
  {
    hide Mirrored;
    MirroredXor(c, Bit(bit));
    MirroredBits();
    XorZero(c);
    assert Mirrored(c) ^ 0 == Mirrored(c);
  }

  lemma MirroredBits()
    ensures Mirrored(0) == 0 && Mirrored(1) == 0x8000 && Mirrored(0xA001) == 0x8005 && Mirrored(0xFFFF) == 0xFFFF
  {
  }

  lemma {:induction false} MirroredFeed(c: bv16, bits: seq<bool>)
    ensures Mirrored(FeedBits(c, bits)) == Remainder(Mirrored(c), bits)
    decreases |bits|
  {
    hide Mirrored, FeedBit, DivisionStep;
    if bits != [] {
      MirroredStep(c, bits[0]);
      MirroredFeed(FeedBit(c, bits[0]), bits[1..]);
    }
  }

  /** The CRC is the mirrored remainder of the frame under division by the generator polynomial of the standard, from
      the start value of all ones. */
  lemma CrcIsRemainder(data: seq<bv8>)
    ensures Mirrored(Crc(0xFFFF, data)) == Remainder(0xFFFF, Wire(data))
  {
    CrcIsBitSerial(0xFFFF, data);
    MirroredBits();
    hide Mirrored, Crc, FeedBits, Wire;
    MirroredFeed(0xFFFF, Wire(data));
  }

  // ---------------------------------------------------------------- error bursts

  /** Bitwise difference of two transmissions of the same length. */
  function Difference(x: seq<bool>, y: seq<bool>): (d: seq<bool>)
    requires |x| == |y|
    ensures |d| == |x|
    ensures forall i :: 0 <= i < |x| ==> d[i] == (x[i] != y[i])
  {
    seq(|x|, i requires 0 <= i < |x| => x[i] != y[i])
  }

  lemma BitDifference(p: bool, q: bool)
    ensures Xor(Bit(p), Bit(q)) == Bit(p != q)
  {
  }

  /** The CRCs of two transmissions differ by the CRC of their difference, started from zero. */
  lemma {:induction false} FeedBitsLinear(c: bv16, e: bv16, x: seq<bool>, y: seq<bool>)
    requires |x| == |y|
    ensures Xor(FeedBits(c, x), FeedBits(e, y)) == FeedBits(Xor(c, e), Difference(x, y))
    decreases |x|
  {
    hide Xor, Shift, Bit;
    if x != [] {
      FeedBitsLinear(FeedBit(c, x[0]), FeedBit(e, y[0]), x[1..], y[1..]);
      assert Difference(x, y)[1..] == Difference(x[1..], y[1..]);
      ShiftLinear(Xor(c, Bit(x[0])), Xor(e, Bit(y[0])));
      XorSwap(c, Bit(x[0]), e, Bit(y[0]));
      BitDifference(x[0], y[0]);
    }
  }

  predicate AllFalse(bits: seq<bool>) {
    forall i :: 0 <= i < |bits| ==> !bits[i]
  }

  lemma {:induction false} FeedZeros(c: bv16, bits: seq<bool>)
    requires AllFalse(bits)
    ensures FeedBits(c, bits) == Shifts(c, |bits|)
    decreases |bits|
  {
    hide Xor, Shift;
    if bits != [] {
      XorZero(c);
      FeedZeros(FeedBit(c, bits[0]), bits[1..]);
    }
  }

  /** A window of up to 16 bits as a register value. */
  function Pack(bits: seq<bool>): bv16
    decreases |bits|
  {
    if bits == [] then 0 else Double(Pack(bits[1..]), bits[0])
  }

  function Double(p: bv16, low: bool): bv16 {
    Bit(low) ^ (p << 1)
  }

  /** All bits from position `n` up. */
  function Above(n: nat): bv16
    decreases n
  {
    if n == 0 then 0xFFFF else Twice(Above(n - 1))
  }

  predicate Disjoint(p: bv16, mask: bv16) {
    p & mask == 0
  }

  lemma DoubleBounded(p: bv16, low: bool, mask: bv16)
    requires Disjoint(p, mask)
    ensures Disjoint(Double(p, low), Twice(mask))
  {
  }

  lemma {:induction false} PackBounded(bits: seq<bool>)
    ensures Disjoint(Pack(bits), Above(|bits|))
    decreases |bits|
  {
    if bits == [] {
      assert Disjoint(0, 0xFFFF);
    } else {
      PackBounded(bits[1..]);
      hide Double, Disjoint, Twice;
      DoubleBounded(Pack(bits[1..]), bits[0], Above(|bits| - 1));
    }
  }

  lemma AboveReachesTop(n: nat)
    requires n <= 15
    ensures Above(n) & 0x8000 == 0x8000
  {
    assert Above(1) == 0xFFFE;
    assert Above(2) == 0xFFFC;
    assert Above(3) == 0xFFF8;
    assert Above(4) == 0xFFF0;
    assert Above(5) == 0xFFE0;
    assert Above(6) == 0xFFC0;
    assert Above(7) == 0xFF80;
    assert Above(8) == 0xFF00;
    assert Above(9) == 0xFE00;
    assert Above(10) == 0xFC00;
    assert Above(11) == 0xF800;
    assert Above(12) == 0xF000;
    assert Above(13) == 0xE000;
    assert Above(14) == 0xC000;
    assert Above(15) == 0x8000;
  }

  lemma TopClear(p: bv16, mask: bv16)
    requires Disjoint(p, mask) && mask & 0x8000 == 0x8000
    ensures p & 0x8000 == 0
  {
  }

  lemma PackTopClear(bits: seq<bool>)
    requires |bits| <= 15
    ensures Pack(bits) & 0x8000 == 0
  {
    PackBounded(bits);
    AboveReachesTop(|bits|);
    TopClear(Pack(bits), Above(|bits|));
  }

  lemma DoubleShifts(c: bv16, p: bv16, low: bool)
    requires p & 0x8000 == 0
    ensures Shift(Xor(c, Double(p, low))) == Xor(FeedBit(c, low), p)
  {
    ShiftOfDouble(p);
    DoubleIsXor(p, low);
    hide Shift, Xor, Bit, Double, Twice;
    XorAssociates(c, Bit(low), Twice(p));
    ShiftLinear(Xor(c, Bit(low)), Twice(p));
  }

  lemma DoubleIsXor(p: bv16, low: bool)
    ensures Double(p, low) == Xor(Bit(low), Twice(p))
  {
  }

  lemma DoubleZero(p: bv16, low: bool)
    requires p & 0x8000 == 0
    ensures Double(p, low) == 0 ==> !low && p == 0
  {
  }

  /** Feeding a window of up to 16 bits is shifting its value in. */
  lemma {:induction false} FeedWindow(c: bv16, w: seq<bool>)
    requires |w| <= 16
    ensures FeedBits(c, w) == Shifts(Xor(c, Pack(w)), |w|)
    ensures Pack(w) == 0 ==> AllFalse(w)
    decreases |w|
  {
    if w == [] {
      XorZero(c);
    } else {
      PackTopClear(w[1..]);
      hide Shift, Xor, Bit, Double, FeedBit;
      DoubleShifts(c, Pack(w[1..]), w[0]);
      DoubleZero(Pack(w[1..]), w[0]);
      FeedWindow(FeedBit(c, w[0]), w[1..]);
      assert forall i :: 1 <= i < |w| ==> w[i] == w[1..][i - 1];
    }
  }

  /** A non-zero error pattern confined to a window of 16 bits leaves a non-zero register. */
  lemma BurstLeavesTrace(before: seq<bool>, w: seq<bool>, after: seq<bool>)
    requires AllFalse(before) && AllFalse(after) && |w| <= 16 && !AllFalse(w)
    ensures FeedBits(0, before + w + after) != 0
  {
    hide Shift, Xor, FeedBits, Pack, AllFalse;
    FeedBitsAppend(0, before + w, after);
    FeedBitsAppend(0, before, w);
    FeedZeros(0, before);
    ShiftsZero(|before|);
    FeedWindow(0, w);
    XorZero(Pack(w));
    var r := FeedBits(0, before + w);
    FeedZeros(r, after);
    if Shifts(r, |after|) == 0 {
      ShiftsInjective(r, |after|);
      ShiftsInjective(Pack(w), |w|);
    }
  }

  /** Do two frames of the same length differ on the line only inside the 16 bits from bit `k` on? */
  ghost predicate DifferWithin(f: seq<bv8>, g: seq<bv8>, k: nat) {
    && |f| == |g|
    && forall i :: 0 <= i < 8 * |f| && !(k <= i < k + 16) ==> Wire(f)[i] == Wire(g)[i]
  }

  /** Every error burst of up to 16 bits changes the CRC. */
  lemma BurstDetected(f: seq<bv8>, g: seq<bv8>, k: nat)
    requires DifferWithin(f, g, k) && f != g
    ensures Crc(START, f) != Crc(START, g)
  {
    hide Wire, Difference, FeedBits, Xor, Crc, AllFalse, DifferWithin;
    var before, w, after := ErrorWindow(f, g, k);
    BurstLeavesTrace(before, w, after);
    CrcIsBitSerial(START, f);
    CrcIsBitSerial(START, g);
    FeedBitsLinear(START, START, Wire(f), Wire(g));
    XorZero(START);
    XorApart(Crc(START, f), Crc(START, g));
  }

  /** The difference of the two frames, cut around its window. */
  lemma ErrorWindow(f: seq<bv8>, g: seq<bv8>, k: nat) returns (before: seq<bool>, w: seq<bool>, after: seq<bool>)
    requires DifferWithin(f, g, k) && f != g
    ensures |f| == |g| && Difference(Wire(f), Wire(g)) == before + w + after
    ensures AllFalse(before) && AllFalse(after) && |w| <= 16 && !AllFalse(w)
  {
    hide Wire;
    var d := Difference(Wire(f), Wire(g));
    if Wire(f) == Wire(g) {
      WireInjective(f, g);
    }
    assert exists i :: 0 <= i < |d| && Wire(f)[i] != Wire(g)[i];
    var i :| 0 <= i < |d| && Wire(f)[i] != Wire(g)[i];
    before, w, after := CutWindow(d, k, i);
  }

  lemma CutWindow(d: seq<bool>, k: nat, i: nat) returns (before: seq<bool>, w: seq<bool>, after: seq<bool>)
    requires i < |d| && d[i] && forall j :: 0 <= j < |d| && !(k <= j < k + 16) ==> !d[j]
    ensures d == before + w + after
    ensures AllFalse(before) && AllFalse(after) && |w| <= 16 && !AllFalse(w)
  {
    var hi := if k + 16 < |d| then k + 16 else |d|;
    before, w, after := d[..k], d[k..hi], d[hi..];
    assert w[i - k];
  }

  /** A byte is determined by its bits on the line. */
  lemma {:induction false} LowBitsInjective(u: bv16, v: bv16, n: nat)
    requires LowBits(u, n) == LowBits(v, n) && DropBits(u, n) == DropBits(v, n)
    ensures u == v
    decreases n
  {
    hide Odd, Half;
    if n > 0 {
      assert LowBits(u, n)[0] == LowBits(v, n)[0];
      assert LowBits(u, n)[1..] == LowBits(v, n)[1..];
      LowBitsInjective(Half(u), Half(v), n - 1);
      SplitLow(u);
      SplitLow(v);
    }
  }

  lemma {:induction false} WireInjective(f: seq<bv8>, g: seq<bv8>)
    requires |f| == |g| && Wire(f) == Wire(g)
    ensures f == g
    decreases |f|
  {
    hide Wire, LowBits;
    if f != [] {
      WireEnds(f);
      WireEnds(g);
      WireInjective(f[..|f| - 1], g[..|g| - 1]);
      SameLastByte(f[|f| - 1], g[|g| - 1]);
      SnocEqual(f, g);
    }
  }

  lemma SnocEqual(f: seq<bv8>, g: seq<bv8>)
    requires |f| == |g| > 0 && f[..|f| - 1] == g[..|g| - 1] && f[|f| - 1] == g[|g| - 1]
    ensures f == g
  {
  }

  lemma SameLastByte(a: bv8, b: bv8)
    requires LowBits(a as bv16, 8) == LowBits(b as bv16, 8)
    ensures a == b
  {
    hide LowBits, DropBits;
    ByteFits(a);
    ByteFits(b);
    LowBitsInjective(a as bv16, b as bv16, 8);
    SameByte(a, b);
  }

  lemma SameByte(a: bv8, b: bv8)
    requires a as bv16 == b as bv16
    ensures a == b
  {
  }

  lemma WireEnds(f: seq<bv8>)
    requires f != []
    ensures Wire(f)[..8 * (|f| - 1)] == Wire(f[..|f| - 1])
    ensures Wire(f)[8 * (|f| - 1)..] == LowBits(f[|f| - 1] as bv16, 8)
  {
  }

  /** Changing one byte, or two adjacent bytes, is such a burst. */
  lemma AdjacentBytesWithin(f: seq<bv8>, g: seq<bv8>, i: nat)
    requires |f| == |g| && forall j :: 0 <= j < |f| && j != i && j != i + 1 ==> f[j] == g[j]
    ensures DifferWithin(f, g, 8 * i)
  {
    forall b | 0 <= b < 8 * |f| && !(8 * i <= b < 8 * i + 16) ensures Wire(f)[b] == Wire(g)[b] {
      assert b / 8 != i && b / 8 != i + 1;
      WireBit(f, b);
      WireBit(g, b);
    }
  }

  lemma {:induction false} WireBit(f: seq<bv8>, b: nat)
    requires b < 8 * |f|
    ensures Wire(f)[b] == LowBits(f[b / 8] as bv16, 8)[b % 8]
    decreases |f|
  {
    hide LowBits;
    var n := |f| - 1;
    if b < 8 * n {
      WireBit(f[..n], b);
    } else {
      assert b / 8 == n && b % 8 == b - 8 * n;
    }
  }
}
