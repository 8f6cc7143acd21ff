/** `HashUtils` of the RTSP client: lower-case hexadecimal through a
    table of 256 precomputed digit pairs, and the hex digest of an ASCII
    string that digest authentication sends. The MD5 function is a
    parameter. */
module RtspHashUtils {
  import opened Results
  import opened Bytes

  /** The lower-case hexadecimal digit of 0 to 15. */
  function HexDigit(d: nat): (c: char)
    requires d < 16
    ensures c as int < 0x80
  {
    if d < 10 then ('0' as int + d) as char else ('a' as int + d - 10) as char
  }

  /** The value of a lower-case hexadecimal digit, `None` for anything else. */
  function DigitValue(c: char): (r: Option<nat>)
    ensures r.Some? ==> r.value < 16 && HexDigit(r.value) == c
  {
    if '0' <= c <= '9' then Some(c as int - '0' as int)
    else if 'a' <= c <= 'f' then Some(c as int - 'a' as int + 10)
    else None
  }

  lemma DigitValueOfHexDigit(d: nat)
    requires d < 16
    ensures DigitValue(HexDigit(d)) == Some(d)
  {
  }

  /** `i.ToString("x2")`: two lower-case digits, high nibble first. */
  function ToStringX2(i: uint8): (s: string)
    ensures |s| == 2
  {
    [HexDigit(i / 16), HexDigit(i % 16)]
  }

  /** One entry of `CreateLookup32`: the first digit in the low 16 bits
      and the second in the high 16 bits. */
  function Lookup32(i: uint8): (r: uint32)
    ensures r % 0x1_0000 == ToStringX2(i)[0] as int
    ensures r / 0x1_0000 == ToStringX2(i)[1] as int
  {
    var s := ToStringX2(i);
    s[0] as int + s[1] as int * 0x1_0000
  }

  /** The `(char)` cast of a `uint`: its low 16 bits, a valid character
      here because the table holds only ASCII digits. */
  function LowChar(v: nat): char
    requires v % 0x1_0000 < 0x80
  {
    (v % 0x1_0000) as char
  }

  /** The reference definition: each byte written as `x2`, in order. */
  function Hex(bytes: Bytes): (s: string)
    ensures |s| == 2 * |bytes|
  {
    if |bytes| == 0 then "" else Hex(bytes[..|bytes| - 1]) + ToStringX2(bytes[|bytes| - 1])
  }

  lemma {:induction false} HexAt(bytes: Bytes, i: nat)
    requires i < |bytes|
    ensures Hex(bytes)[2 * i] == HexDigit(bytes[i] / 16)
    ensures Hex(bytes)[2 * i + 1] == HexDigit(bytes[i] % 16)
  {
    var n := |bytes| - 1;
    assert Hex(bytes) == Hex(bytes[..n]) + ToStringX2(bytes[n]);
    if i < n {
      HexAt(bytes[..n], i);
    }
  }

  /** `ToHexString`: the table entry of each byte split into its two
      characters; the result is the reference hexadecimal form. */
  method ToHexString(bytes: Bytes) returns (r: string)
    ensures r == Hex(bytes)
  {
    var len := |bytes|;
    r := seq(2 * len, _ => '0');
    for i := 0 to len
      invariant |r| == 2 * len
      invariant forall k | 0 <= k < i :: r[2 * k] == HexDigit(bytes[k] / 16) && r[2 * k + 1] == HexDigit(bytes[k] % 16)
    {
      var val := Lookup32(bytes[i]);
      r := r[2 * i := LowChar(val)][2 * i + 1 := LowChar(val / 0x1_0000)];
    }
    forall j | 0 <= j < |r|
      ensures r[j] == Hex(bytes)[j]
    {
      HexAt(bytes, j / 2);
      assert j == 2 * (j / 2) || j == 2 * (j / 2) + 1;
    }
  }

  /** The inverse: pairs of lower-case digits back to bytes; `None` for an
      odd length or any other character. */
  function FromHex(s: string): (r: Option<Bytes>)
    ensures r.Some? ==> 2 * |r.value| == |s|
    decreases |s|
  {
    if |s| == 0 then Some([])
    else if |s| == 1 then None
    else
      var n := |s| - 2;
      match (FromHex(s[..n]), DigitValue(s[n]), DigitValue(s[n + 1]))
      case (Some(b), Some(hi), Some(lo)) => Some(b + [hi * 16 + lo])
      case _ => None
  }

  /** Reading the hexadecimal form back gives the bytes. */
  lemma {:induction false} FromHexOfHex(bytes: Bytes)
    ensures FromHex(Hex(bytes)) == Some(bytes)
  {
    if |bytes| > 0 {
      var n := |bytes| - 1;
      var s := Hex(bytes);
      assert s[..2 * n] == Hex(bytes[..n]);
      FromHexOfHex(bytes[..n]);
      DigitValueOfHexDigit(bytes[n] / 16);
      DigitValueOfHexDigit(bytes[n] % 16);
      assert bytes[..n] + [bytes[n]] == bytes;
    }
  }

  /** The hexadecimal form uses only lower-case digits. */
  lemma HexIsLowerCase(bytes: Bytes, j: nat)
    requires j < |Hex(bytes)|
    ensures DigitValue(Hex(bytes)[j]).Some?
  {
    HexAt(bytes, j / 2);
    assert j == 2 * (j / 2) || j == 2 * (j / 2) + 1;
    DigitValueOfHexDigit(bytes[j / 2] / 16);
    DigitValueOfHexDigit(bytes[j / 2] % 16);
  }

  /** `Encoding.ASCII.GetBytes`: a character above 0x7F becomes '?'. */
  function AsciiBytes(s: string): (r: Bytes)
    ensures |r| == |s|
    ensures forall k | 0 <= k < |s| :: r[k] < 0x80 && (s[k] as int < 0x80 ==> r[k] == s[k] as int)
  {
    seq(|s|, k requires 0 <= k < |s| => if s[k] as int < 0x80 then s[k] as int else '?' as int)
  }

  /** Distinct ASCII strings encode to distinct bytes, so the digest input
      identifies the string. */
  lemma AsciiInjective(s: string, t: string)
    requires forall k | 0 <= k < |s| :: s[k] as int < 0x80
    requires forall k | 0 <= k < |t| :: t[k] as int < 0x80
    requires AsciiBytes(s) == AsciiBytes(t)
    ensures s == t
  {
    forall k | 0 <= k < |s|
      ensures s[k] == t[k]
    {
      assert AsciiBytes(s)[k] == AsciiBytes(t)[k];
    }
  }

  /** `ComputeHashString`: the hexadecimal form of the digest of the ASCII
      bytes; `md5` is the hash function. */
  method ComputeHashString(md5: Bytes -> Bytes, value: string) returns (r: string)
    ensures FromHex(r) == Some(md5(AsciiBytes(value)))
    ensures |md5(AsciiBytes(value))| == 16 ==> |r| == 32
  {
    r := ToHexString(md5(AsciiBytes(value)));
    FromHexOfHex(md5(AsciiBytes(value)));
  }
}
