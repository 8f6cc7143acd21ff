/** `IceUtils`: the candidate priority formula of section 4.1.2.1 of
    RFC 5245 and the random ICE credentials of section 15.4. The random
    draws are parameters: draw `d` picks character `d` of the alphabet. */
module IceUtils {
  import opened Results
  import opened Bytes
  import opened BigEndianUtils

  /** `_iceChars` as written: 39 entries, '0' twice, no lower-case letter. */
  const IceChars: string := "ABCDEFGHIJKLMNOPQRSTUVWXYZ01234567890+/"

  /** The whole `ice-char` alphabet of section 15.1 of RFC 5245 (ALPHA,
      DIGIT, "+" and "/"), in ascending order: 6 bits per character. */
  const FullIceChars: string := "+/" + Digits + Upper + Lower

  const Upper: string := "ABCDEFGHIJKLMNOPQRSTUVWXYZ"
  const Lower: string := "abcdefghijklmnopqrstuvwxyz"
  const Digits: string := "0123456789"

  const UsernameLength: nat := 4
  const PasswordLength: nat := 22

  /** The randomness section 15.4 of RFC 5245 asks of each, in bits. */
  const UsernameBits: nat := 24
  const PasswordBits: nat := 128

  datatype Variant = AsWritten | Corrected

  function Alphabet(v: Variant): string
  {
    if v == AsWritten then IceChars else FullIceChars
  }

  /** A character of the `ice-char` grammar. */
  predicate IsIceChar(c: char)
  {
    ('A' <= c <= 'Z') || ('a' <= c <= 'z') || ('0' <= c <= '9') || c == '+' || c == '/'
  }

  /** `GetRandomTieBreaker`: eight random bytes read as a little-endian
      `ulong`; the bytes are the parameter. */
  function GetRandomTieBreaker(random: Bytes): (r: uint64)
    requires |random| == 8
    ensures r == LEValue(random)
  {
    LEValueBound(random);
    Pow2Widths();
    Pow2Add(32, 32);
    LEValue(random)
  }

  /** Every 64-bit tie-breaker is drawn by some eight bytes, and distinct
      draws of eight bytes give distinct tie-breakers. */
  lemma TieBreakerCoversAll(x: uint64, random: Bytes)
    requires |random| == 8
    ensures GetRandomTieBreaker(LEBytes(x, 8)) == x
    ensures GetRandomTieBreaker(random) == x ==> random == LEBytes(x, 8)
  {
    Pow2Widths();
    Pow2Add(32, 32);
    LEValueOfBytes(x, 8);
    if GetRandomTieBreaker(random) == x {
      LEBytesOfValue(random);
    }
  }

  /** Bitwise or of the low `n` bits of `a` and `b`, bit by bit from the
      least significant. */
  function OrBits(a: nat, b: nat, n: nat): (r: nat)
    ensures r < Pow2(n)
  {
    if n == 0 then 0
    else (if a % 2 == 1 || b % 2 == 1 then 1 else 0) + 2 * OrBits(a / 2, b / 2, n - 1)
  }

  /** `GenerateIcePriority`: `type << 24 | local << 8 | (256 - component)`
      on a 32-bit `int`; the bit pattern is read as two's complement. */
  function GenerateIcePriority(typePreference: uint8, localPreference: uint16, componentId: uint8): int32
  {
    var high := OrBits(typePreference as nat * 0x100_0000, localPreference as nat * 0x100, 32);
    Pow2Widths();
    ToInt32(OrBits(high, 256 - componentId, 32))
  }

  /** Or with zero keeps a number that fits. */
  lemma {:induction false} OrBitsZero(a: nat, n: nat)
    requires a < Pow2(n)
    ensures OrBits(a, 0, n) == a && OrBits(0, a, n) == a
  {
    if n > 0 {
      OrBitsZero(a / 2, n - 1);
    }
  }

  /** The first `k` bits of an or, then the next `m`. */
  lemma {:induction false} OrBitsSplit(a: nat, b: nat, k: nat, m: nat)
    ensures OrBits(a, b, k + m) == OrBits(a, b, k) + ShiftUp(OrBits(Down(a, k), Down(b, k), m), k)
  {
    if k > 0 {
      OrBitsSplit(a / 2, b / 2, k - 1, m);
      assert k + m - 1 == k - 1 + m;
    }
  }

  /** Below `k` bits only the low parts count. */
  lemma {:induction false} OrBitsLow(lo: nat, lo': nat, hi: nat, hi': nat, k: nat)
    requires lo < Pow2(k) && lo' < Pow2(k)
    ensures OrBits(lo + ShiftUp(hi, k), lo' + ShiftUp(hi', k), k) == OrBits(lo, lo', k)
  {
    if k > 0 {
      Halve(lo, ShiftUp(hi, k - 1));
      Halve(lo', ShiftUp(hi', k - 1));
      OrBitsLow(lo / 2, lo' / 2, hi, hi', k - 1);
    }
  }

  /** The or of two numbers split at a `k`-bit boundary is the or of the
      low parts beside the or of the high parts. */
  lemma OrBitsLowHigh(x: nat, y: nat, hi: nat, hi': nat, k: nat, m: nat)
    requires x < Pow2(k) && y < Pow2(k)
    ensures OrBits(x + ShiftUp(hi, k), y + ShiftUp(hi', k), k + m)
            == OrBits(x, y, k) + ShiftUp(OrBits(hi, hi', m), k)
  {
    OrBitsLow(x, y, hi, hi', k);
    LowAndHigh(x, y, hi, hi', k);
    LowAndHigh(y, x, hi', hi, k);
    OrBitsSplit(x + ShiftUp(hi, k), y + ShiftUp(hi', k), k, m);
  }

  /** The two shifted preferences occupy disjoint bits. */
  lemma HighFields(t: nat, l: nat)
    requires t < 0x100 && l < 0x1_0000
    ensures OrBits(t * 0x100_0000, l * 0x100, 32) == t * 0x100_0000 + l * 0x100
  {
    ShiftUpIsProduct(t, 24);
    Pow2Add(8, 16);
    Pow2Add(16, 8);
    Pow2Widths();
    assert Pow2(24) == 0x100_0000;
    assert t * 0x100_0000 == 0 + ShiftUp(t, 24);
    ShiftUpIsProduct(0, 24);
    OrBitsLowHigh(0, l * 0x100, t, 0, 24, 8);
    OrBitsZero(l * 0x100, 24);
    OrBitsZero(t, 8);
  }

  /** The whole pattern: the type preference above 24 bits, and below them
      the local preference or-ed with the component field. */
  lemma PriorityBits(t: nat, l: nat, c: nat)
    requires t < 0x100 && l < 0x1_0000 && c < 0x100
    ensures OrBits(OrBits(t * 0x100_0000, l * 0x100, 32), 256 - c, 32)
            == t * 0x100_0000 + OrBits(l * 0x100, 256 - c, 24)
  {
    HighFields(t, l);
    ShiftUpIsProduct(t, 24);
    Pow2Add(8, 16);
    Pow2Add(16, 8);
    Pow2Widths();
    assert Pow2(24) == 0x100_0000;
    OrBitsLowHigh(l * 0x100, 256 - c, t, 0, 24, 8);
    ShiftUpIsProduct(0, 24);
    OrBitsZero(t, 8);
  }

  /** For a component ID of 1 to 255 no field overlaps another, and the
      pattern, read as unsigned, is the sum of section 4.1.2.1 of RFC 5245. */
  lemma PriorityIsSum(typePreference: uint8, localPreference: uint16, componentId: uint8)
    requires 1 <= componentId
    ensures FromInt32(GenerateIcePriority(typePreference, localPreference, componentId))
            == typePreference * 0x100_0000 + localPreference * 0x100 + (256 - componentId)
  {
    var l: nat, c: nat := localPreference, 256 - componentId;
    PriorityBits(typePreference, l, componentId);
    ShiftUpIsProduct(l, 8);
    Pow2Add(8, 16);
    Pow2Widths();
    assert c < Pow2(8);
    ShiftUpIsProduct(0, 8);
    OrBitsLowHigh(0, c, l, 0, 8, 16);
    OrBitsZero(c, 8);
    OrBitsZero(l, 16);
  }

  /** The highest host priority: (126, 65535, 1) gives 0x7EFFFFFF. */
  lemma HostPriorityExample()
    ensures GenerateIcePriority(126, 65535, 1) == 0x7EFF_FFFF
  {
    PriorityIsSum(126, 65535, 1);
  }

  /** The priority is non-negative exactly when the type preference is
      below 128: a higher one sets the sign bit of the `int`. */
  lemma PrioritySign(typePreference: uint8, localPreference: uint16, componentId: uint8)
    ensures GenerateIcePriority(typePreference, localPreference, componentId) >= 0 <==> typePreference < 128
  {
    PriorityBits(typePreference, localPreference, componentId);
    Pow2Add(8, 16);
    Pow2Widths();
    assert Pow2(24) == 0x100_0000;
  }

  /** The character a draw picks (`GetRandomIceChar`). */
  function IceChar(v: Variant, draw: nat): char
    requires draw < |Alphabet(v)|
  {
    Alphabet(v)[draw]
  }

  predicate ValidDraws(v: Variant, draws: seq<nat>)
  {
    forall k | 0 <= k < |draws| :: draws[k] < |Alphabet(v)|
  }

  /** The characters the draws pick, in order. */
  function Pick(v: Variant, draws: seq<nat>): (s: string)
    requires ValidDraws(v, draws)
    ensures |s| == |draws|
    ensures forall k | 0 <= k < |s| :: s[k] == Alphabet(v)[draws[k]]
  {
    seq(|draws|, k requires 0 <= k < |draws| => IceChar(v, draws[k]))
  }

  /** `GenerateIceUsernamePassword`: four draws for the username fragment,
      then twenty-two for the password. */
  function GenerateIceUsernamePassword(v: Variant, draws: seq<nat>): (r: (string, string))
    requires |draws| == UsernameLength + PasswordLength && ValidDraws(v, draws)
    ensures |r.0| == UsernameLength && |r.1| == PasswordLength
    ensures forall k | 0 <= k < |r.0| :: r.0[k] in Alphabet(v)
    ensures forall k | 0 <= k < |r.1| :: r.1[k] in Alphabet(v)
  {
    (Pick(v, draws[..UsernameLength]), Pick(v, draws[UsernameLength..]))
  }

  predicate NotLower(c: char)
  {
    !('a' <= c <= 'z')
  }

  /** Every character of `s` satisfies `p`. */
  predicate All(s: string, p: char -> bool)
  {
    forall k | 0 <= k < |s| :: p(s[k])
  }

  lemma AllConcat(a: string, b: string, p: char -> bool)
    requires All(a, p) && All(b, p)
    ensures All(a + b, p)
  {
    forall k | |a| <= k < |a + b|
      ensures p((a + b)[k])
    {
      assert (a + b)[k] == b[k - |a|];
    }
  }

  /** The as-written alphabet is the upper-case letters, the digits, then
      "0+/". */
  lemma IceCharsParts()
    ensures IceChars == Upper + Digits + "0+/"
  {
  }

  lemma PartsAreIceChars()
    ensures All(Upper, IsIceChar) && All(Lower, IsIceChar) && All(Digits, IsIceChar)
  {
    assert All(Upper, IsIceChar);
    assert All(Lower, IsIceChar);
  }

  /** Every character of either alphabet belongs to the `ice-char` grammar,
      so the credentials are valid `ice-ufrag` and `ice-pwd` values. */
  lemma AlphabetIsIceChar(v: Variant)
    ensures All(Alphabet(v), IsIceChar)
  {
    PartsAreIceChars();
    if v == AsWritten {
      assert All("0+/", IsIceChar);
      IceCharsParts();
      AllConcat(Upper, Digits, IsIceChar);
      AllConcat(Upper + Digits, "0+/", IsIceChar);
    } else {
      assert All("+/", IsIceChar);
      AllConcat("+/", Digits, IsIceChar);
      AllConcat("+/" + Digits, Upper, IsIceChar);
      AllConcat("+/" + Digits + Upper, Lower, IsIceChar);
    }
  }

  /** The draw that picks `c`. */
  function DrawOf(a: string, c: char): (d: nat)
    requires c in a
    ensures d < |a| && a[d] == c
  {
    if a[0] == c then 0 else 1 + DrawOf(a[1..], c)
  }

  function DrawsOf(a: string, s: string): (ds: seq<nat>)
    requires forall k | 0 <= k < |s| :: s[k] in a
    ensures |ds| == |s| && forall k | 0 <= k < |s| :: ds[k] < |a| && a[ds[k]] == s[k]
  {
    seq(|s|, k requires 0 <= k < |s| => DrawOf(a, s[k]))
  }

  /** Conversely, every pair of strings of the right lengths over the
      alphabet is generated by some draws. */
  lemma EveryCredentialReachable(v: Variant, u: string, p: string)
    requires |u| == UsernameLength && |p| == PasswordLength
    requires forall k | 0 <= k < |u| :: u[k] in Alphabet(v)
    requires forall k | 0 <= k < |p| :: p[k] in Alphabet(v)
    ensures exists draws: seq<nat> | |draws| == UsernameLength + PasswordLength && ValidDraws(v, draws) ::
              GenerateIceUsernamePassword(v, draws) == (u, p)
  {
    var du, dp := DrawsOf(Alphabet(v), u), DrawsOf(Alphabet(v), p);
    var draws := du + dp;
    assert draws[..UsernameLength] == du && draws[UsernameLength..] == dp;
    assert ValidDraws(v, draws);
    assert Pick(v, du) == u && Pick(v, dp) == p;
    assert GenerateIceUsernamePassword(v, draws) == (u, p);
  }

  function Pow(b: nat, n: nat): nat
  {
    if n == 0 then 1 else b * Pow(b, n - 1)
  }

  lemma {:induction false} PowOfPow2(m: nat, n: nat)
    ensures Pow(Pow2(m), n) == Pow2(m * n)
  {
    if n > 0 {
      PowOfPow2(m, n - 1);
      Pow2Add(m, m * (n - 1));
      assert m + m * (n - 1) == m * n;
    }
  }

  lemma MulMono(a: nat, b: nat, x: nat, y: nat)
    requires a <= b && x <= y
    ensures a * x <= b * y
  {
    assert a * x <= b * x;
    assert b * x <= b * y;
  }

  lemma {:induction false} PowMono(a: nat, b: nat, n: nat)
    requires a <= b
    ensures Pow(a, n) <= Pow(b, n)
  {
    if n > 0 {
      PowMono(a, b, n - 1);
      MulMono(a, b, Pow(a, n - 1), Pow(b, n - 1));
    }
  }

  lemma {:induction false} PowSquare(b: nat, k: nat)
    ensures Pow(b, 2 * k) == Pow(b * b, k)
  {
    if k > 0 {
      PowSquare(b, k - 1);
      assert Pow(b, 2 * k) == b * (b * Pow(b, 2 * (k - 1)));
    }
  }

  lemma {:induction false} Pow2Grows(a: nat, b: nat)
    requires a < b
    ensures Pow2(a) < Pow2(b)
  {
    if a + 1 < b {
      Pow2Grows(a, b - 1);
    }
  }

  /** Two draws from 39 entries give at most 1521 < 2^11 outcomes. */
  lemma ThirtyNineSquared(k: nat)
    ensures Pow(39, 2 * k) <= Pow2(11 * k)
  {
    PowSquare(39, k);
    PowMono(39 * 39, Pow2(11), k) by {
      Pow2Widths();
      Pow2Add(8, 3);
    }
    PowOfPow2(11, k);
  }

  /** As written the alphabet has 39 entries, repeats '0' and lacks the
      lower-case letters of the `ice-char` grammar. */
  lemma AsWrittenAlphabetShape()
    ensures |IceChars| == 39 && IceChars[26] == IceChars[36] == '0'
    ensures All(IceChars, NotLower)
  {
    IceCharsParts();
    assert All(Upper, NotLower) && All(Digits, NotLower) && All("0+/", NotLower);
    AllConcat(Upper, Digits, NotLower);
    AllConcat(Upper + Digits, "0+/", NotLower);
  }

  /** Hence, even counting all 39 entries as distinct, there are fewer
      than 2^24 usernames and fewer than 2^128 passwords, the randomness
      section 15.4 of RFC 5245 demands. */
  lemma AsWrittenTooFewCredentials()
    ensures Pow(|Alphabet(AsWritten)|, UsernameLength) < Pow2(UsernameBits)
    ensures Pow(|Alphabet(AsWritten)|, PasswordLength) < Pow2(PasswordBits)
  {
    assert |Alphabet(AsWritten)| == 39;
    ThirtyNineSquared(2);
    ThirtyNineSquared(11);
    Pow2Grows(22, UsernameBits);
    Pow2Grows(121, PasswordBits);
  }

  predicate Ascending(a: string)
  {
    forall k | 0 <= k < |a| - 1 :: a[k] < a[k + 1]
  }

  /** Two ascending strings, the first ending below the second's start. */
  lemma AscendingConcat(a: string, b: string)
    requires Ascending(a) && Ascending(b) && (|a| > 0 && |b| > 0 ==> a[|a| - 1] < b[0])
    ensures Ascending(a + b)
  {
    forall k | 0 <= k < |a + b| - 1
      ensures (a + b)[k] < (a + b)[k + 1]
    {
      if k >= |a| {
        assert (a + b)[k] == b[k - |a|];
      }
    }
  }

  lemma {:induction false} AscendingDistinct(a: string, i: nat, j: nat)
    requires Ascending(a) && i < j < |a|
    ensures a[i] < a[j]
    decreases j - i
  {
    if i + 1 < j {
      AscendingDistinct(a, i + 1, j);
    }
  }

  /** The full alphabet has 64 distinct characters. */
  lemma CorrectedAlphabetDistinct(i: nat, j: nat)
    requires i < j < |Alphabet(Corrected)|
    ensures |Alphabet(Corrected)| == 64 && Alphabet(Corrected)[i] != Alphabet(Corrected)[j]
  {
    assert Ascending("+/") && Ascending(Digits) && Ascending(Upper) && Ascending(Lower);
    AscendingConcat("+/", Digits);
    AscendingConcat("+/" + Digits, Upper);
    AscendingConcat("+/" + Digits + Upper, Lower);
    AscendingDistinct(FullIceChars, i, j);
  }

  /** So four draws carry exactly 24 bits and twenty-two draws more than
      128. */
  lemma CorrectedEnoughCredentials()
    ensures Pow(|Alphabet(Corrected)|, UsernameLength) == Pow2(UsernameBits)
    ensures Pow(|Alphabet(Corrected)|, PasswordLength) >= Pow2(PasswordBits)
  {
    assert |FullIceChars| == 64;
    assert Pow2(6) == 64 by {
      assert Pow2(2) == 4;
      Pow2Add(2, 2);
      Pow2Add(2, 4);
    }
    PowOfPow2(6, UsernameLength);
    PowOfPow2(6, PasswordLength);
    Pow2Grows(PasswordBits, 6 * PasswordLength);
  }
}
