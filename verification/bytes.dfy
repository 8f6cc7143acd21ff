/** Fixed-width integers and the big-endian byte codecs the relay uses through
    `BinaryPrimitives` and `BitConverter` (with an explicit byte reversal). */
module Bytes {

  type uint8 = x: int | 0 <= x < 0x100
  type uint16 = x: int | 0 <= x < 0x1_0000
  type uint32 = x: int | 0 <= x < 0x1_0000_0000
  type uint64 = x: int | 0 <= x < 0x1_0000_0000_0000_0000
  type int32 = x: int | -0x8000_0000 <= x < 0x8000_0000
  type int64 = x: int | -0x8000_0000_0000_0000 <= x < 0x8000_0000_0000_0000
  type Bytes = seq<uint8>

  const TWO16: int := 0x1_0000
  const TWO32: int := 0x1_0000_0000

  function Zeros(n: nat): (r: Bytes)
    ensures |r| == n
    ensures forall i :: 0 <= i < n ==> r[i] == 0
  {
    seq(n, _ => 0)
  }

  /** The tail of a zero-filled buffer is zero-filled. */
  lemma ZerosDrop(n: nat, k: nat)
    requires k <= n
    ensures Zeros(n)[k..] == Zeros(n - k)
  {
  }

  /** A zero-filled buffer is two zero-filled buffers back to back. */
  lemma ZerosSplit(a: nat, b: nat)
    ensures Zeros(a + b) == Zeros(a) + Zeros(b)
  {
  }

  /** Big-endian encodings. */
  function BE16(x: uint16): (r: Bytes)
    ensures |r| == 2
  {
    [x / 0x100, x % 0x100]
  }

  function BE32(x: uint32): (r: Bytes)
    ensures |r| == 4
  {
    BE16(x / 0x1_0000) + BE16(x % 0x1_0000)
  }

  function BE64(x: uint64): (r: Bytes)
    ensures |r| == 8
  {
    BE32(x / 0x1_0000_0000) + BE32(x % 0x1_0000_0000)
  }

  /** Big-endian reads at an offset, as `BinaryPrimitives.Read*BigEndian(span.Slice(i))`. */
  function U16At(s: Bytes, i: nat): uint16
    requires i + 2 <= |s|
  {
    (s[i] as int) * 0x100 + s[i + 1]
  }

  function U32At(s: Bytes, i: nat): uint32
    requires i + 4 <= |s|
  {
    U16At(s, i) * 0x1_0000 + U16At(s, i + 2)
  }

  function U64At(s: Bytes, i: nat): uint64
    requires i + 8 <= |s|
  {
    U32At(s, i) * 0x1_0000_0000 + U32At(s, i + 4)
  }

  lemma BE16Read(x: uint16, s: Bytes, i: nat)
    requires i + 2 <= |s| && s[i..i + 2] == BE16(x)
    ensures U16At(s, i) == x
  {
    assert s[i] == s[i..i + 2][0] && s[i + 1] == s[i..i + 2][1];
  }

  lemma BE32Read(x: uint32, s: Bytes, i: nat)
    requires i + 4 <= |s| && s[i..i + 4] == BE32(x)
    ensures U32At(s, i) == x
  {
    assert s[i..i + 2] == s[i..i + 4][..2];
    assert s[i + 2..i + 4] == s[i..i + 4][2..];
    BE16Read(x / TWO16, s, i);
    BE16Read(x % TWO16, s, i + 2);
  }

  /** Distinct values have distinct encodings. */
  lemma BE32Injective(x: uint32, y: uint32)
    requires BE32(x) == BE32(y)
    ensures x == y
  {
    var s := BE32(x);
    assert s[0..4] == s;
    BE32Read(x, s, 0);
    BE32Read(y, s, 0);
  }

  /** The same reads, of an encoding embedded in a larger buffer. */
  lemma BE16ReadIn(a: Bytes, x: uint16, b: Bytes)
    ensures U16At(a + BE16(x) + b, |a|) == x
  {
    var s := a + BE16(x) + b;
    assert s[|a|..|a| + 2] == BE16(x);
    BE16Read(x, s, |a|);
  }

  lemma BE32ReadIn(a: Bytes, x: uint32, b: Bytes)
    ensures U32At(a + BE32(x) + b, |a|) == x
  {
    var s := a + BE32(x) + b;
    assert s[|a|..|a| + 4] == BE32(x);
    BE32Read(x, s, |a|);
  }

  lemma BE64ReadIn(a: Bytes, x: uint64, b: Bytes)
    ensures U64At(a + BE64(x) + b, |a|) == x
  {
    var s := a + BE64(x) + b;
    assert s[|a|..|a| + 8] == BE64(x);
    BE64Read(x, s, |a|);
  }

  /** Regrouping a buffer around a split middle part. */
  lemma Regroup<T>(a: seq<T>, h: seq<T>, r: seq<T>, e: seq<T>)
    ensures a + (h + r) + e == (a + h) + r + e
    ensures a + (h + r) + e == a + h + (r + e)
  {
  }

  /** A two-byte field header followed by a body, read back in place. */
  lemma FieldAt<T>(pre: seq<T>, hd: seq<T>, body: seq<T>, tail: seq<T>)
    requires |hd| == 2
    ensures var b := (pre + hd) + body + tail;
            && |pre| + 2 + |body| <= |b|
            && b[|pre|] == hd[0] && b[|pre| + 1] == hd[1]
            && b[|pre| + 2..|pre| + 2 + |body|] == body
  {
    var b := (pre + hd) + body + tail;
    assert b[|pre| + 2..|pre| + 2 + |body|] == body;
  }

  /** Regrouping four concatenated parts. */
  lemma Assoc4<T>(a: seq<T>, b: seq<T>, c: seq<T>, d: seq<T>)
    ensures a + b + c + d == a + (b + c) + d
    ensures a + b + c + d == a + (b + (c + d))
  {
  }

  /** A part appended to a right-nested concatenation of four joins its last part. */
  lemma AppendNested<T>(a: seq<T>, b: seq<T>, c: seq<T>, d: seq<T>, e: seq<T>)
    ensures a + (b + (c + d)) + e == a + (b + (c + (d + e)))
  {
  }

  /** Concatenation regrouped to the left. */
  lemma Assoc<T>(a: seq<T>, b: seq<T>, c: seq<T>)
    ensures a + (b + c) == (a + b) + c
  {
  }

  /** Regrouping the last two of four concatenated parts. */
  lemma AssocTail<T>(a: seq<T>, b: seq<T>, c: seq<T>, d: seq<T>)
    ensures a + b + c + d == a + b + (c + d)
  {
  }

  /** Dropping from a concatenation inside its first part. */
  lemma DropConcat<T>(a: seq<T>, b: seq<T>, k: nat)
    requires k <= |a|
    ensures (a + b)[k..] == a[k..] + b
    ensures (a + b)[..k] == a[..k]
  {
  }

  /** Replacing the first `k` elements of `a + b` by `h` is the same as
      replacing them in `a` and then appending `b`. */
  lemma ReplaceHead<T>(h: seq<T>, a: seq<T>, b: seq<T>, k: nat)
    requires k <= |a|
    ensures h + (a + b)[k..] == (h + a[k..]) + b
  {
    assert (a + b)[k..] == a[k..] + b;
  }

  /** A 32-bit read inside a prefix ignores what follows it. */
  lemma U32AtPrefix(a: Bytes, b: Bytes, i: nat)
    requires i + 4 <= |a|
    ensures U32At(a + b, i) == U32At(a, i)
  {
    assert (a + b)[i..i + 4] == a[i..i + 4];
  }

  /** A non-empty sequence is its head followed by its tail. */
  lemma ConsTail<T>(s: seq<T>)
    requires |s| > 0
    ensures [s[0]] + s[1..] == s
  {
  }

  /** A slice holding `x + y` holds `x`, then `y`. */
  lemma SliceSplit<T>(b: seq<T>, i: nat, x: seq<T>, y: seq<T>)
    requires i + |x| + |y| <= |b| && b[i..i + |x| + |y|] == x + y
    ensures b[i..i + |x|] == x && b[i + |x|..i + |x| + |y|] == y
  {
    var s := b[i..i + |x| + |y|];
    assert b[i..i + |x|] == s[..|x|];
    assert b[i + |x|..i + |x| + |y|] == s[|x|..];
  }

  /** A suffix holding `x + y` has `y` as its suffix past `x`. */
  lemma SuffixSplit<T>(b: seq<T>, i: nat, x: seq<T>, y: seq<T>)
    requires i <= |b| && b[i..] == x + y
    ensures i + |x| <= |b| && b[i + |x|..] == y
  {
    assert b[i + |x|..] == b[i..][|x|..];
  }

  /** A suffix holding `x + y` holds `x` at its start. */
  lemma SuffixHead<T>(b: seq<T>, i: nat, x: seq<T>, y: seq<T>)
    requires i <= |b| && b[i..] == x + y
    ensures i + |x| <= |b| && b[i..i + |x|] == x && b[i + |x|..] == y
  {
    assert b[i..i + |x|] == b[i..][..|x|];
    assert b[i + |x|..] == b[i..][|x|..];
  }

  /** Two sequences of one length that agree from `i` on agree on every
      slice that starts there or later. */
  lemma SameSuffixSlice<T>(b: seq<T>, c: seq<T>, i: nat, j: nat, k: nat)
    requires |b| == |c| && i <= j <= k <= |b| && b[i..] == c[i..]
    ensures b[j..k] == c[j..k] && b[j..] == c[j..]
  {
    forall m | i <= m < |b|
      ensures b[m] == c[m]
    {
      assert b[m] == b[i..][m - i] && c[m] == c[i..][m - i];
    }
    assert b[j..k] == c[j..k];
  }

  /** ... and read the same 16-bit fields there. */
  lemma SameSuffixU16(b: Bytes, c: Bytes, i: nat, j: nat)
    requires |b| == |c| && i <= j && j + 2 <= |b| && b[i..] == c[i..]
    ensures U16At(b, j) == U16At(c, j)
  {
    assert b[j] == b[i..][j - i] && b[j + 1] == b[i..][j + 1 - i];
  }

  /** A 16-bit field at the start of a suffix reads back as itself. */
  lemma U16AtHead(b: Bytes, i: nat, x: uint16, y: Bytes)
    requires i <= |b| && b[i..] == BE16(x) + y
    ensures i + 2 <= |b| && U16At(b, i) == x && b[i + 2..] == y
  {
    SuffixHead(b, i, BE16(x), y);
    BE16Read(x, b, i);
  }

  /** A slice holding `x + y + z` holds `x`, then `y`, then `z`. */
  lemma SliceSplit3<T>(b: seq<T>, i: nat, x: seq<T>, y: seq<T>, z: seq<T>)
    requires i + |x| + |y| + |z| <= |b| && b[i..i + |x| + |y| + |z|] == x + y + z
    ensures b[i..i + |x|] == x
    ensures b[i + |x|..i + |x| + |y|] == y
    ensures b[i + |x| + |y|..i + |x| + |y| + |z|] == z
  {
    SliceSplit(b, i, x + y, z);
    SliceSplit(b, i, x, y);
  }

  /** The middle of a three-part concatenation, sliced back out. */
  lemma SliceMiddle<T>(a: seq<T>, x: seq<T>, c: seq<T>)
    ensures (a + x + c)[|a|..|a| + |x|] == x
  {
  }

  /** A buffer that agrees with `data` on `[idx, idx + |data|)` and with `buf`
      elsewhere is `data` spliced into `buf`. */
  lemma SpliceElems(buf: Bytes, idx: nat, data: Bytes, res: Bytes)
    requires idx + |data| <= |buf| && |res| == |buf|
    requires forall j :: 0 <= j < |buf| ==> res[j] == (if idx <= j < idx + |data| then data[j - idx] else buf[j])
    ensures res == buf[..idx] + data + buf[idx + |data|..]
  {
  }

  lemma BE64Read(x: uint64, s: Bytes, i: nat)
    requires i + 8 <= |s| && s[i..i + 8] == BE64(x)
    ensures U64At(s, i) == x
  {
    assert s[i..i + 4] == s[i..i + 8][..4];
    assert s[i + 4..i + 8] == s[i..i + 8][4..];
    BE32Read(x / TWO32, s, i);
    BE32Read(x % TWO32, s, i + 4);
  }

  /** Reinterpretation of a 32-bit pattern as a two's-complement `int`, and back. */
  function ToInt32(x: uint32): (r: int32)
    ensures r % TWO32 == x
  {
    if x < 0x8000_0000 then x else x - TWO32
  }

  function FromInt32(x: int32): (r: uint32)
    ensures ToInt32(r) == x
  {
    if x >= 0 then x else x + TWO32
  }

  function Pow2(n: nat): (r: nat)
    ensures r >= 1
  {
    if n == 0 then 1 else 2 * Pow2(n - 1)
  }

  /** Bitwise exclusive or of the low `n` bits of `a` and `b`, bit by bit from the least significant. */
  function XorBits(a: nat, b: nat, n: nat): (r: nat)
    ensures r < Pow2(n)
  {
    if n == 0 then 0
    else (if a % 2 == b % 2 then 0 else 1) + 2 * XorBits(a / 2, b / 2, n - 1)
  }

  lemma {:induction false} XorBitsCancel(a: nat, b: nat, n: nat)
    requires a < Pow2(n)
    ensures XorBits(XorBits(a, b, n), b, n) == a
  {
    if n > 0 {
      var r := XorBits(a, b, n);
      XorBitsCancel(a / 2, b / 2, n - 1);
      assert r / 2 == XorBits(a / 2, b / 2, n - 1);
      assert r % 2 == (if a % 2 == b % 2 then 0 else 1);
    }
  }

  lemma {:induction false} XorBitsCommutes(a: nat, b: nat, n: nat)
    ensures XorBits(a, b, n) == XorBits(b, a, n)
  {
    if n > 0 {
      XorBitsCommutes(a / 2, b / 2, n - 1);
    }
  }

  lemma {:induction false} XorBitsZero(a: nat, n: nat)
    requires a < Pow2(n)
    ensures XorBits(a, 0, n) == a
  {
    if n > 0 {
      XorBitsZero(a / 2, n - 1);
    }
  }

  lemma {:induction false} Pow2Add(a: nat, b: nat)
    ensures Pow2(a + b) == Pow2(a) * Pow2(b)
  {
    if a > 0 {
      Pow2Add(a - 1, b);
    }
  }

  lemma Pow2Widths()
    ensures Pow2(8) == 0x100 && Pow2(16) == TWO16 && Pow2(32) == TWO32
  {
    assert Pow2(4) == 16 by {
      assert Pow2(2) == 4;
    }
    Pow2Add(4, 4);
    Pow2Add(8, 8);
    Pow2Add(16, 16);
  }

  function Xor8(a: uint8, b: uint8): (r: uint8)
    ensures XorBits(r, b, 8) == a
  {
    Pow2Widths();
    XorBitsCancel(a, b, 8);
    XorBits(a, b, 8)
  }

  function Xor16(a: uint16, b: uint16): (r: uint16)
    ensures XorBits(r, b, 16) == a
  {
    Pow2Widths();
    XorBitsCancel(a, b, 16);
    XorBits(a, b, 16)
  }

  function Xor32(a: uint32, b: uint32): (r: uint32)
    ensures XorBits(r, b, 32) == a
  {
    Pow2Widths();
    XorBitsCancel(a, b, 32);
    XorBits(a, b, 32)
  }

  /** Little-endian encoding of a 32-bit value, `BitConverter.GetBytes(uint)` on a little-endian host. */
  function LE32(x: uint32): (r: Bytes)
    ensures |r| == 4
  {
    [x % 0x100, (x / 0x100) % 0x100, (x / TWO16) % 0x100, x / 0x100_0000]
  }

  /** The value of a byte string read least significant byte first,
      `BitConverter.ToUInt64` and its kin on a little-endian host. */
  function LEValue(s: Bytes): nat
  {
    if |s| == 0 then 0 else s[0] + 0x100 * LEValue(s[1..])
  }

  /** The `n` bytes of `x`, least significant first. */
  function LEBytes(x: nat, n: nat): (r: Bytes)
    ensures |r| == n
  {
    if n == 0 then [] else [x % 0x100] + LEBytes(x / 0x100, n - 1)
  }

  lemma Pow2Byte(n: nat)
    requires n >= 1
    ensures Pow2(8 * n) == 0x100 * Pow2(8 * (n - 1))
  {
    Pow2Widths();
    Pow2Add(8, 8 * (n - 1));
  }

  /** `n` bytes hold a value below 2^(8n). */
  lemma {:induction false} LEValueBound(s: Bytes)
    ensures LEValue(s) < Pow2(8 * |s|)
  {
    if |s| > 0 {
      LEValueBound(s[1..]);
      Pow2Byte(|s|);
    }
  }

  /** Reading back the bytes of a value that fits gives the value. */
  lemma {:induction false} LEValueOfBytes(x: nat, n: nat)
    requires x < Pow2(8 * n)
    ensures LEValue(LEBytes(x, n)) == x
  {
    if n > 0 {
      Pow2Byte(n);
      assert x / 0x100 < Pow2(8 * (n - 1));
      LEValueOfBytes(x / 0x100, n - 1);
      assert LEBytes(x, n)[1..] == LEBytes(x / 0x100, n - 1);
    }
  }

  /** Conversely, the bytes of a string's value are the string. */
  lemma {:induction false} LEBytesOfValue(s: Bytes)
    ensures LEBytes(LEValue(s), |s|) == s
  {
    if |s| > 0 {
      LEBytesOfValue(s[1..]);
      assert (s[0] + 0x100 * LEValue(s[1..])) / 0x100 == LEValue(s[1..]);
      assert (s[0] + 0x100 * LEValue(s[1..])) % 0x100 == s[0];
    }
  }

  /** A zero byte at the most significant end adds nothing. */
  lemma {:induction false} LEValueTrailingZero(s: Bytes)
    ensures LEValue(s + [0]) == LEValue(s)
  {
    if |s| > 0 {
      assert (s + [0])[1..] == s[1..] + [0];
      LEValueTrailingZero(s[1..]);
    }
  }

  /** The value of a byte string read most significant byte first. */
  function BEValue(s: Bytes): nat
  {
    if |s| == 0 then 0 else BEValue(s[..|s| - 1]) * 0x100 + s[|s| - 1]
  }
}
