/** A 128-bit value as bytes, as bits and as a number, and the five-bit groups of its base-32 form. */
module Bits {
  import opened Numerals

  type UUID = u: seq<bv8> | |u| == 16 witness seq(16, _ => 0)

  /** Bit i of a byte, bit 0 being the most significant. */
  function BitOf(b: bv8, i: nat): (bit: nat)
    requires i < 8
    ensures bit < 2
  {
    if (b >> (7 - i)) & 1 == 1 then 1 else 0
  }

  /** v with bit i of b appended at its low end. */
  function PushedBit(v: bv8, b: bv8, i: nat): bv8
    requires i < 8
  {
    (v << 1) | ((b >> (7 - i)) & 1)
  }

  /** b with its bit i or-ed with the bit of v that has weight 2^s. */
  function OredBit(b: bv8, i: nat, v: bv8, s: nat): bv8
    requires i < 8 && s < 8
  {
    b | (((v >> s) & 1) << (7 - i))
  }

  function BitAt(u: seq<bv8>, k: nat): (bit: nat)
    requires k < 8 * |u|
    ensures bit < 2
  {
    BitOf(u[k / 8], k % 8)
  }

  function BitsOf(u: seq<bv8>): (bits: seq<nat>)
    ensures |bits| == 8 * |u|
  {
    seq(8 * |u|, k requires 0 <= k < 8 * |u| => BitAt(u, k))
  }

  /** The big-endian number the bytes denote. */
  function Number(u: seq<bv8>): nat {
    if u == [] then 0 else Number(u[..|u| - 1]) * 256 + u[|u| - 1] as nat
  }

  function FromNumber(n: nat): UUID {
    var bytes := Digits(n, 256, 16);
    seq(16, k requires 0 <= k < 16 => bytes[k] as bv8)
  }

  /** The number that the n bits from `start` denote. */
  function GroupValue(u: seq<bv8>, start: nat, n: nat): nat
    requires start + n <= 8 * |u|
  {
    Value(BitsOf(u)[start..start + n], 2)
  }

  /** The i-th base-32 digit: three bits for the first, five bits for each later one. */
  function Digit(u: UUID, i: nat): (d: nat)
    requires i < 26
  {
    if i == 0 then GroupValue(u, 0, 3) else GroupValue(u, 5 * i - 2, 5)
  }

  function DigitsOf(u: UUID): (digits: seq<nat>)
    ensures |digits| == 26
  {
    seq(26, i requires 0 <= i < 26 => Digit(u, i))
  }

  // ---- one byte ----

  lemma ByteOfBits(b: bv8)
    ensures b as nat == BitOf(b, 0) * 128 + BitOf(b, 1) * 64 + BitOf(b, 2) * 32 + BitOf(b, 3) * 16
                        + BitOf(b, 4) * 8 + BitOf(b, 5) * 4 + BitOf(b, 6) * 2 + BitOf(b, 7)
  {
  }

  lemma PushBit(v: bv8, b: bv8, i: nat)
    requires v as nat < 16 && i < 8
    ensures PushedBit(v, b, i) as nat == 2 * (v as nat) + BitOf(b, i)
  {
  }

  lemma TopBits(b: bv8)
    ensures ((b & 0xe0) >> 5) as nat == BitOf(b, 0) * 4 + BitOf(b, 1) * 2 + BitOf(b, 2)
  {
  }

  lemma ShiftedTop(v: bv8, j: nat)
    requires v < 8 && j < 8
    ensures BitOf(v << 5, j) == if j < 3 then BitOf(v, j + 5) else 0
  {
  }

  lemma OrSetsBit(b: bv8, i: nat, v: bv8, s: nat)
    requires s < 8 && i < 8 && BitOf(b, i) == 0
    ensures BitOf(OredBit(b, i, v, s), i) == BitOf(v, 7 - s)
  {
  }

  lemma OrKeepsBit(b: bv8, i: nat, v: bv8, s: nat, j: nat)
    requires s < 8 && i < 8 && j < 8 && j != i
    ensures BitOf(OredBit(b, i, v, s), j) == BitOf(b, j)
  {
    var x := (v >> s) & 1;
    assert BitOf(b | (x << (7 - i)), j) == BitOf(b, j) by {
      MaskKeepsBit(b, x, i, j);
    }
  }

  lemma MaskKeepsBit(b: bv8, x: bv8, i: nat, j: nat)
    requires x <= 1 && i < 8 && j < 8 && j != i
    ensures BitOf(b | (x << (7 - i)), j) == BitOf(b, j)
  {
    ShiftedBit(x, i, j);
    OrWithZeroBit(b, x << (7 - i), j);
  }

  lemma ShiftedBit(x: bv8, i: nat, j: nat)
    requires x <= 1 && i < 8 && j < 8 && j != i
    ensures BitOf(x << (7 - i), j) == 0
  {
  }

  lemma OrWithZeroBit(b: bv8, m: bv8, j: nat)
    requires j < 8 && BitOf(m, j) == 0
    ensures BitOf(b | m, j) == BitOf(b, j)
  {
  }

  /** Or-ing one bit into the byte that holds it changes that bit alone. */
  lemma OrChangesOneBit(u: seq<bv8>, bit: nat, v: bv8, s: nat)
    requires bit < 8 * |u| && s < 8 && BitsOf(u)[bit] == 0
    ensures BitsOf(u[bit / 8 := OredBit(u[bit / 8], bit % 8, v, s)]) == BitsOf(u)[bit := BitOf(v, 7 - s)]
  {
    var u' := u[bit / 8 := OredBit(u[bit / 8], bit % 8, v, s)];
    forall k | 0 <= k < 8 * |u|
      ensures BitsOf(u')[k] == BitsOf(u)[bit := BitOf(v, 7 - s)][k]
    {
      if k == bit {
        OrSetsBit(u[bit / 8], bit % 8, v, s);
      } else if k / 8 == bit / 8 {
        assert k % 8 != bit % 8;
        OrKeepsBit(u[bit / 8], bit % 8, v, s, k % 8);
      }
    }
  }

  function LowThree(v: bv8): (bits: seq<nat>)
    ensures |bits| == 3
  {
    [BitOf(v, 5), BitOf(v, 6), BitOf(v, 7)]
  }

  function LowFive(v: bv8): (bits: seq<nat>)
    ensures |bits| == 5
  {
    [BitOf(v, 3), BitOf(v, 4)] + LowThree(v)
  }

  lemma LowFiveAt(v: bv8, n: nat)
    requires n < 5
    ensures LowFive(v)[n] == BitOf(v, n + 3)
  {
  }

  function Zeros(n: nat): seq<nat> {
    seq(n, _ => 0)
  }

  lemma FirstByteBits(u: seq<bv8>, first: bv8)
    requires |u| == 16 && first < 8 && u[0] == first << 5 && forall k :: 1 <= k < 16 ==> u[k] == 0
    ensures BitsOf(u) == LowThree(first) + Zeros(125)
  {
    forall k | 0 <= k < 128
      ensures BitsOf(u)[k] == (LowThree(first) + Zeros(125))[k]
    {
      if k < 8 {
        ShiftedTop(first, k);
      } else {
        assert u[k / 8] == 0;
      }
    }
  }

  // ---- values of short bit strings ----

  lemma ValueOfThree(bits: seq<nat>)
    requires |bits| == 3
    ensures Value(bits, 2) == 4 * bits[0] + 2 * bits[1] + bits[2]
  {
    assert bits[..2][..1] == [bits[0]] && bits[..2] == [bits[0], bits[1]];
    assert Value([bits[0]], 2) == bits[0] by { assert [bits[0]][..0] == []; }
    assert Value(bits[..2], 2) == 2 * bits[0] + bits[1];
  }

  lemma ValueOfFive(bits: seq<nat>)
    requires |bits| == 5
    ensures Value(bits, 2) == 16 * bits[0] + 8 * bits[1] + 4 * bits[2] + 2 * bits[3] + bits[4]
  {
    assert bits[..4][..3] == bits[..3];
    ValueOfThree(bits[..3]);
    assert Value(bits[..4], 2) == 2 * Value(bits[..3], 2) + bits[3];
  }

  lemma GroupOfThree(u: UUID)
    ensures GroupValue(u, 0, 3) == 4 * BitAt(u, 0) + 2 * BitAt(u, 1) + BitAt(u, 2)
  {
    ValueOfThree(BitsOf(u)[0..3]);
  }

  lemma GroupOfFive(u: UUID, start: nat)
    requires start + 5 <= 128
    ensures GroupValue(u, start, 5) ==
      16 * BitAt(u, start) + 8 * BitAt(u, start + 1) + 4 * BitAt(u, start + 2) + 2 * BitAt(u, start + 3) + BitAt(u, start + 4)
  {
    hide BitAt, Value;
    ValueOfFive(BitsOf(u)[start..start + 5]);
  }

  lemma LowBitsValue(v: bv8)
    ensures v < 8 ==> Value(LowThree(v), 2) == v as nat
    ensures v < 32 ==> Value(LowFive(v), 2) == v as nat
  {
    ByteOfBits(v);
    ValueOfThree(LowThree(v));
    ValueOfFive(LowFive(v));
    if v < 32 {
      assert BitOf(v, 0) == 0 && BitOf(v, 1) == 0 && BitOf(v, 2) == 0;
    }
    if v < 8 {
      assert BitOf(v, 3) == 0 && BitOf(v, 4) == 0;
    }
  }

  lemma ValueOfEight(b: bv8, bits: seq<nat>)
    requires |bits| == 8 && forall i :: 0 <= i < 8 ==> bits[i] == BitOf(b, i)
    ensures Value(bits, 2) == b as nat
  {
    ByteOfBits(b);
    assert bits[..7][..6] == bits[..6] && bits[..6][..5] == bits[..5];
    ValueOfFive(bits[..5]);
    assert Value(bits[..6], 2) == 2 * Value(bits[..5], 2) + bits[5];
    assert Value(bits[..7], 2) == 2 * Value(bits[..6], 2) + bits[6];
  }

  // ---- the 128 bits ----

  /** The bytes and their bits denote the same number. */
  lemma {:induction false} NumberOfBits(u: seq<bv8>)
    ensures Number(u) == Value(BitsOf(u), 2)
  {
    if u != [] {
      var p, b := u[..|u| - 1], u[|u| - 1];
      NumberOfBits(p);
      var low := seq(8, i requires 0 <= i < 8 => BitOf(b, i));
      assert u == p + [b];
      BitsOfLastByte(p, b);
      ValueOfConcat(BitsOf(p), low, 2);
      ValueOfEight(b, low);
      PowersOfTwo();
    }
  }

  lemma BitsOfLastByte(p: seq<bv8>, b: bv8)
    ensures BitsOf(p + [b]) == BitsOf(p) + seq(8, i requires 0 <= i < 8 => BitOf(b, i))
  {
    forall k | 0 <= k < 8 * |p| + 8
      ensures BitsOf(p + [b])[k] == (BitsOf(p) + seq(8, i requires 0 <= i < 8 => BitOf(b, i)))[k]
    {
      if k >= 8 * |p| {
        assert k / 8 == |p| && k % 8 == k - 8 * |p|;
      }
    }
  }

  lemma PowersOfTwo()
    ensures Pow(2, 3) == 8 && Pow(2, 5) == 32 && Pow(2, 8) == 256
  {
    assert Pow(2, 2) == 4 && Pow(2, 4) == 16;
    assert Pow(2, 6) == 64;
  }

  lemma DigitInRange(u: UUID, i: nat)
    requires i < 26
    ensures Digit(u, i) < 32 && (i == 0 ==> Digit(u, i) < 8)
  {
    if i == 0 {
      GroupOfThree(u);
    } else {
      GroupOfFive(u, 5 * i - 2);
    }
  }

  lemma {:induction false} GroupsOfFive(u: UUID, m: nat)
    requires 1 <= m <= 26
    ensures Value(DigitsOf(u)[..m], 32) == GroupValue(u, 0, 5 * m - 2)
  {
    hide Value, GroupValue;
    var digits := DigitsOf(u);
    ValueOfPrefix(digits, m, 32);
    if m == 1 {
      assert digits[..0] == [] && Value([], 32) == 0 by { ValueOfNothing(32); }
    } else {
      GroupsOfFive(u, m - 1);
      AdjacentGroups(u, 5 * m - 7);
    }
  }

  lemma AdjacentGroups(u: UUID, mid: nat)
    requires mid + 5 <= 128
    ensures GroupValue(u, 0, mid + 5) == GroupValue(u, 0, mid) * 32 + GroupValue(u, mid, 5)
  {
    var bits := BitsOf(u);
    assert bits[..mid + 5] == bits[..mid] + bits[mid..mid + 5];
    ValueOfConcat(bits[..mid], bits[mid..mid + 5], 2);
    PowersOfTwo();
  }

  /** Regrouping the bits gives the base-32 numeral of the number. */
  lemma RegroupedNumeral(u: UUID)
    ensures Value(DigitsOf(u), 32) == Number(u)
    ensures DigitsOf(u) == Digits(Number(u), 32, 26)
  {
    GroupsOfFive(u, 26);
    assert DigitsOf(u)[..26] == DigitsOf(u) && BitsOf(u)[0..128] == BitsOf(u);
    NumberOfBits(u);
    DigitsInRange(u);
    NumeralOfValue(DigitsOf(u), 32);
  }

  lemma DigitsInRange(u: UUID)
    ensures AreDigits(DigitsOf(u), 32)
  {
    forall i | 0 <= i < 26 ensures DigitsOf(u)[i] < 32 {
      DigitInRange(u, i);
    }
  }

  function BytesAsNats(u: seq<bv8>): (bytes: seq<nat>)
    ensures |bytes| == |u| && AreDigits(bytes, 256)
  {
    seq(|u|, k requires 0 <= k < |u| => u[k] as nat)
  }

  lemma {:induction false} NumberOfBytes(u: seq<bv8>)
    ensures Number(u) == Value(BytesAsNats(u), 256)
  {
    if u != [] {
      NumberOfBytes(u[..|u| - 1]);
      assert BytesAsNats(u)[..|u| - 1] == BytesAsNats(u[..|u| - 1]);
    }
  }

  /** A UUID is determined by its number. */
  lemma NumberInjective(u: UUID)
    ensures FromNumber(Number(u)) == u
  {
    NumberOfBytes(u);
    NumeralOfValue(BytesAsNats(u), 256);
  }

  // ---- the two inner loops, which the Go and the TypeScript code share ----

  /** The inner loop of encoding: the value of the next five bits. */
  method NextGroup(u: UUID, start: nat) returns (v: bv8, bit: nat)
    requires start + 5 <= 128
    ensures v as nat == GroupValue(u, start, 5) && bit == start + 5
  {
    v, bit := 0, start;
    for n := 0 to 5
      invariant bit == start + n
      invariant v as nat == GroupValue(u, start, n)
    {
      var byteIdx, bitIdx := bit / 8, bit % 8;
      PushedGroup(u, start, n, bit, v);
      v := PushedBit(v, u[byteIdx], bitIdx);
      bit := bit + 1;
    }
  }

  lemma PushedGroup(u: UUID, start: nat, n: nat, bit: nat, v: bv8)
    requires n < 5 && start + 5 <= 128 && bit == start + n
    requires v as nat == GroupValue(u, start, n)
    ensures PushedBit(v, u[bit / 8], bit % 8) as nat == GroupValue(u, start, n + 1)
  {
    GroupGrows(u, start, n);
    PushBit(v, u[bit / 8], bit % 8);
  }

  lemma GroupGrows(u: UUID, start: nat, n: nat)
    requires n < 5 && start + 5 <= 128
    ensures GroupValue(u, start, n) < 16
    ensures GroupValue(u, start, n + 1) == 2 * GroupValue(u, start, n) + BitAt(u, start + n)
  {
    hide BitAt;
    var group := BitsOf(u)[start..start + n];
    ValueBound(group, 2);
    assert Pow(2, 1) == 2 && Pow(2, 2) == 4 && Pow(2, 3) == 8 && Pow(2, 4) == 16;
    assert BitsOf(u)[start..start + n + 1] == group + [BitAt(u, start + n)];
    assert (group + [BitAt(u, start + n)])[..n] == group;
  }

  /** The inner loop of decoding: or the low five bits of v into u from `start` on. */
  method OrGroup(u: array<bv8>, v: bv8, start: nat) returns (bit: nat)
    requires u.Length == 16 && start + 5 <= 128
    requires BitsOf(u[..])[start..start + 5] == Zeros(5)
    modifies u
    ensures bit == start + 5
    ensures BitsOf(u[..]) == old(BitsOf(u[..])[..start]) + LowFive(v) + old(BitsOf(u[..])[start + 5..])
  {
    hide BitOf, OredBit, BitsOf, LowFive;
    ghost var bits := BitsOf(u[..]);
    bit := start;
    for n := 0 to 5
      invariant bit == start + n
      invariant BitsOf(u[..]) == bits[..start] + LowFive(v)[..n] + bits[bit..]
    {
      var shift := 4 - n;
      var byteIdx, bitIdx := bit / 8, bit % 8;
      ghost var before := u[..];
      assert bits[start..start + 5][n] == 0 && BitsOf(before)[bit] == bits[bit];
      LowFiveAt(v, n);
      OrChangesOneBit(before, bit, v, shift);
      u[byteIdx] := OredBit(u[byteIdx], bitIdx, v, shift);
      assert u[..] == before[byteIdx := OredBit(before[byteIdx], bitIdx, v, shift)];
      PatchedOneMore(bits, LowFive(v), start, n);
      bit := bit + 1;
    }
    assert LowFive(v)[..5] == LowFive(v);
  }

  lemma PatchedOneMore<T>(a: seq<T>, patch: seq<T>, start: nat, n: nat)
    requires n < |patch| && start + |patch| <= |a|
    ensures
      var patched := a[..start] + patch[..n] + a[start + n..];
      patched[start + n := patch[n]] == a[..start] + patch[..n + 1] + a[start + n + 1..]
  {
  }
}
