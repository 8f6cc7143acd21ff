/** `BigEndianUtils`: byte strings read as big-endian unsigned integers.
    `ShiftLeft` appends zero bytes (a multiplication by a power of 256) and
    `Xor` combines two strings aligned at their least significant byte, as
    section 4.3.1 of RFC 3711 asks of the key derivation input and section
    4.1.1 of the counter-mode IV. */
module BigEndianUtils {
  import opened Bytes

  function Max(a: nat, b: nat): nat { if a >= b then a else b }

  /** `ShiftLeft(count)`: `count / 8` zero bytes after the input. */
  function ShiftLeft(input: Bytes, count: nat): (r: Bytes)
    ensures |r| == |input| + count / 8
    ensures r[..|input|] == input
    ensures forall i | |input| <= i < |r| :: r[i] == 0
  {
    input + Zeros(count / 8)
  }

  /** The output byte at index `k` of `Xor(left, right)` whose length is `n`:
      the loop's `outputIdx`, reached when `i == n - 1 - k`. */
  function XorAt(left: Bytes, right: Bytes, n: nat, k: nat): uint8
    requires n == Max(|left|, |right|) && k < n
  {
    var leftIdx := |left| - n + k;
    var rightIdx := |right| - n + k;
    if leftIdx < 0 then right[rightIdx]
    else if rightIdx < 0 then left[leftIdx]
    else Xor8(left[leftIdx], right[rightIdx])
  }

  /** `Xor`: as long as the longer operand; the shorter one's missing high
      bytes leave the longer one's bytes as they are. */
  function Xor(left: Bytes, right: Bytes): (r: Bytes)
    ensures |r| == Max(|left|, |right|)
  {
    var n := Max(|left|, |right|);
    seq(n, k requires 0 <= k < n => XorAt(left, right, n, k))
  }

  /** Byte `j` counted from the least significant end of the result
      combines byte `j` from the end of each operand that has one. */
  lemma XorRightAligned(left: Bytes, right: Bytes, j: nat)
    requires j < Max(|left|, |right|)
    ensures var r := Xor(left, right);
            r[|r| - 1 - j] ==
              if j < |left| && j < |right| then Xor8(left[|left| - 1 - j], right[|right| - 1 - j])
              else if j < |left| then left[|left| - 1 - j]
              else right[|right| - 1 - j]
  {
  }

  lemma Xor8Commutes(a: uint8, b: uint8)
    ensures Xor8(a, b) == Xor8(b, a)
  {
    XorBitsCommutes(a, b, 8);
  }

  lemma Xor8Cancel(a: uint8, b: uint8)
    ensures Xor8(Xor8(a, b), b) == a
  {
  }

  lemma Xor8Zero(a: uint8)
    ensures Xor8(a, 0) == a && Xor8(0, a) == a
  {
    Pow2Widths();
    XorBitsZero(a, 8);
    XorBitsCommutes(a, 0, 8);
  }

  /** The operands' order does not matter. */
  lemma XorCommutes(left: Bytes, right: Bytes)
    ensures Xor(left, right) == Xor(right, left)
  {
    var a, b := Xor(left, right), Xor(right, left);
    forall k | 0 <= k < |a|
      ensures a[k] == b[k]
    {
      var li, ri := |left| - |a| + k, |right| - |a| + k;
      if 0 <= li && 0 <= ri {
        Xor8Commutes(left[li], right[ri]);
      }
    }
  }

  /** XORing the shorter operand in twice gives the longer one back. */
  lemma XorCancel(left: Bytes, right: Bytes)
    requires |right| <= |left|
    ensures Xor(Xor(left, right), right) == left
  {
  }

  /** XORing zeros changes nothing. */
  lemma XorZeros(left: Bytes, n: nat)
    requires n <= |left|
    ensures Xor(left, Zeros(n)) == left
  {
    forall k | |left| - n <= k < |left|
      ensures Xor(left, Zeros(n))[k] == left[k]
    {
      Xor8Zero(left[k]);
    }
  }

  /** A byte string without its last byte, and that byte (zero for the empty string). */
  function Init(s: Bytes): Bytes { if |s| == 0 then [] else s[..|s| - 1] }
  function Last(s: Bytes): uint8 { if |s| == 0 then 0 else s[|s| - 1] }

  lemma ValueLast(s: Bytes)
    ensures BEValue(s) == BEValue(Init(s)) * 0x100 + Last(s)
  {
  }

  /** The last byte, and the rest shifted up by eight bits. */
  lemma LastByteSplit(s: Bytes)
    ensures BEValue(s) == Last(s) + ShiftUp(BEValue(Init(s)), 8)
  {
    ValueLast(s);
    ShiftUpByte(BEValue(Init(s)));
  }

  /** `h` shifted left by `k` bits, one doubling at a time. */
  function ShiftUp(h: nat, k: nat): nat
  {
    if k == 0 then h else 2 * ShiftUp(h, k - 1)
  }

  lemma ShiftUpByte(h: nat)
    ensures ShiftUp(h, 8) == 0x100 * h
  {
    assert ShiftUp(h, 1) == 2 * h;
    assert ShiftUp(h, 2) == 4 * h;
    assert ShiftUp(h, 3) == 8 * h;
    assert ShiftUp(h, 4) == 16 * h;
    assert ShiftUp(h, 5) == 32 * h;
    assert ShiftUp(h, 6) == 64 * h;
    assert ShiftUp(h, 7) == 128 * h;
  }

  lemma {:induction false} ShiftUpIsProduct(h: nat, k: nat)
    ensures ShiftUp(h, k) == h * Pow2(k)
  {
    if k > 0 {
      ShiftUpIsProduct(h, k - 1);
      assert 2 * (h * Pow2(k - 1)) == h * (2 * Pow2(k - 1));
    }
  }

  /** Halving `lo + 2 * x` halves `lo` and keeps `x`; the parity is `lo`'s. */
  lemma Halve(lo: nat, x: nat)
    ensures (lo + 2 * x) / 2 == lo / 2 + x && (lo + 2 * x) % 2 == lo % 2
  {
  }

  /** `a` shifted right by `k` bits, one halving at a time. */
  function Down(a: nat, k: nat): nat
  {
    if k == 0 then a else Down(a / 2, k - 1)
  }

  /** The first `k` bits of an exclusive or, then the next `m`. */
  lemma {:induction false} XorBitsSplit(a: nat, b: nat, k: nat, m: nat)
    ensures XorBits(a, b, k + m) == XorBits(a, b, k) + ShiftUp(XorBits(Down(a, k), Down(b, k), m), k)
  {
    if k > 0 {
      XorBitsSplit(a / 2, b / 2, k - 1, m);
      assert k + m - 1 == k - 1 + m;
    }
  }

  /** Below `k` bits only the low parts count; above them, the high parts are what remains. */
  lemma {:induction false} LowAndHigh(lo: nat, lo': nat, hi: nat, hi': nat, k: nat)
    requires lo < Pow2(k) && lo' < Pow2(k)
    ensures XorBits(lo + ShiftUp(hi, k), lo' + ShiftUp(hi', k), k) == XorBits(lo, lo', k)
    ensures Down(lo + ShiftUp(hi, k), k) == hi
  {
    if k > 0 {
      Halve(lo, ShiftUp(hi, k - 1));
      Halve(lo', ShiftUp(hi', k - 1));
      LowAndHigh(lo / 2, lo' / 2, hi, hi', k - 1);
    }
  }

  /** The split at a `k`-bit boundary of two numbers whose low parts fit in `k` bits. */
  lemma XorBitsLowHigh(x: nat, y: nat, hi: nat, hi': nat, k: nat, m: nat)
    requires x < Pow2(k) && y < Pow2(k)
    ensures XorBits(x + ShiftUp(hi, k), y + ShiftUp(hi', k), k + m)
            == XorBits(x, y, k) + ShiftUp(XorBits(hi, hi', m), k)
  {
    LowAndHigh(x, y, hi, hi', k);
    LowAndHigh(y, x, hi', hi, k);
    XorBitsSplit(x + ShiftUp(hi, k), y + ShiftUp(hi', k), k, m);
  }

  /** The last byte of `Xor` and the `Xor` of what precedes it. */
  lemma XorStep(left: Bytes, right: Bytes)
    requires Max(|left|, |right|) > 0
    ensures var r := Xor(left, right);
            Init(r) == Xor(Init(left), Init(right)) && Last(r) == Xor8(Last(left), Last(right))
  {
    var r := Xor(left, right);
    var s := Xor(Init(left), Init(right));
    assert |Init(r)| == |s|;
    forall k | 0 <= k < |s|
      ensures Init(r)[k] == s[k]
    {
    }
    Xor8Zero(Last(left));
    Xor8Zero(Last(right));
  }

  /** `Xor` is the bitwise exclusive or of the operands read as big-endian
      numbers, over the longer operand's width. */
  lemma {:induction false} XorValue(left: Bytes, right: Bytes)
    ensures BEValue(Xor(left, right)) == XorBits(BEValue(left), BEValue(right), 8 * Max(|left|, |right|))
    decreases Max(|left|, |right|)
  {
    var n := Max(|left|, |right|);
    if n > 0 {
      var r := Xor(left, right);
      var A, B, R := BEValue(Init(left)), BEValue(Init(right)), BEValue(Init(r));
      var x, y := Last(left), Last(right);
      assert R == XorBits(A, B, 8 * (n - 1)) && Last(r) == XorBits(x, y, 8) by {
        XorStep(left, right);
        XorValue(Init(left), Init(right));
      }
      assert BEValue(left) == x + ShiftUp(A, 8) && BEValue(right) == y + ShiftUp(B, 8)
             && BEValue(r) == Last(r) + ShiftUp(R, 8) by {
        LastByteSplit(left);
        LastByteSplit(right);
        LastByteSplit(r);
      }
      var m := 8 * (n - 1);
      XorValueStep(BEValue(left), BEValue(right), BEValue(r), x, y, Last(r), A, B, R, m);
      assert 8 * n == 8 + m;
    }
  }

  /** The inductive step of `XorValue`, on the numbers alone. */
  lemma XorValueStep(l: nat, r: nat, v: nat, x: uint8, y: uint8, z: nat, a: nat, b: nat, c: nat, m: nat)
    requires l == x + ShiftUp(a, 8) && r == y + ShiftUp(b, 8) && v == z + ShiftUp(c, 8)
    requires z == XorBits(x, y, 8) && c == XorBits(a, b, m)
    ensures v == XorBits(l, r, 8 + m)
  {
    assert x < Pow2(8) && y < Pow2(8) by {
      Pow2Widths();
    }
    XorBitsLowHigh(x, y, a, b, 8, m);
  }

  /** Trailing zero bytes multiply the value by a power of two. */
  lemma {:induction false} ShiftLeftValue(input: Bytes, count: nat)
    ensures BEValue(ShiftLeft(input, count)) == BEValue(input) * Pow2(8 * (count / 8))
  {
    ShiftLeftShifts(input, count / 8);
    ShiftUpIsProduct(BEValue(input), 8 * (count / 8));
  }

  lemma {:induction false} ShiftLeftShifts(input: Bytes, z: nat)
    ensures BEValue(input + Zeros(z)) == ShiftUp(BEValue(input), 8 * z)
  {
    if z > 0 {
      var s := input + Zeros(z);
      ShiftLeftShifts(input, z - 1);
      assert Init(s) == input + Zeros(z - 1);
      ValueLast(s);
      ShiftUpAdd(BEValue(input), 8 * (z - 1));
      assert 8 * z == 8 * (z - 1) + 8;
    } else {
      assert input + Zeros(z) == input;
    }
  }

  /** Eight more doublings multiply by 256. */
  lemma ShiftUpAdd(h: nat, k: nat)
    ensures ShiftUp(h, k + 8) == 0x100 * ShiftUp(h, k)
  {
    var v := ShiftUp(h, k);
    assert ShiftUp(h, k + 1) == 2 * v;
    assert ShiftUp(h, k + 2) == 4 * v;
    assert ShiftUp(h, k + 3) == 8 * v;
    assert ShiftUp(h, k + 4) == 16 * v;
    assert ShiftUp(h, k + 5) == 32 * v;
    assert ShiftUp(h, k + 6) == 64 * v;
    assert ShiftUp(h, k + 7) == 128 * v;
  }

  /** Two trailing bytes extend a big-endian value by 16 bits. */
  lemma ValueTwoMore(s: Bytes, x: uint16)
    ensures BEValue(s + BE16(x)) == BEValue(s) * TWO16 + x
  {
    var t := s + BE16(x);
    assert Init(t) == s + [x / 0x100];
    assert Init(Init(t)) == s;
    ValueLast(t);
    ValueLast(Init(t));
  }

  /** The network-order encodings read back as the numbers they encode. */
  lemma BE32Value(x: uint32)
    ensures BEValue(BE32(x)) == x
  {
    ValueTwoMore([], x / TWO16);
    assert [] + BE16(x / TWO16) == BE16(x / TWO16);
    ValueTwoMore(BE16(x / TWO16), x % TWO16);
  }

  lemma BE64Value(x: uint64)
    ensures BEValue(BE64(x)) == x
  {
    var hi, lo := x / TWO32, x % TWO32;
    BE32Value(hi);
    assert BE64(x) == (BE32(hi) + BE16(lo / TWO16)) + BE16(lo % TWO16);
    ValueTwoMore(BE32(hi), lo / TWO16);
    ValueTwoMore(BE32(hi) + BE16(lo / TWO16), lo % TWO16);
  }
}
