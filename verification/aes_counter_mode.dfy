/** `AesCounterMode`: the AES counter-mode keystream of section 4.1.1 of
    RFC 3711 and the relay's payload encryption with it. The block cipher
    is a parameter (`Cipher`): the model follows which blocks are
    encrypted, in which order, and how the outputs are cut and combined. */
module AesCounterMode {
  import opened Results
  import opened Bytes
  import opened BigEndianUtils

  const BlockSize: nat := 16

  type Block = s: Bytes | |s| == BlockSize witness Zeros(16)

  /** AES in the encrypt direction: a key and one input block to one output block. */
  type Cipher = (Bytes, Block) -> Block

  /** The key sizes `Aes.Key` accepts: 128, 192 and 256 bits. */
  predicate KeyLengthSupported(key: Bytes)
  {
    |key| == 16 || |key| == 24 || |key| == 32
  }

  /** `iv.CopyTo(ivInputBlock, 0)`: the IV at the start of a zeroed block. */
  function InputBlock(iv: Bytes): (r: Result<Block>)
    ensures r.Ok? <==> |iv| <= BlockSize
    ensures r.Ok? ==> r.value[..|iv|] == iv && r.value[|iv|..] == Zeros(BlockSize - |iv|)
  {
    if |iv| > BlockSize then Fail(Argument) else Ok(iv + Zeros(BlockSize - |iv|))
  }

  /** The input block is the IV times `2^(128 - 8|iv|)` (`ShiftUp(h, k)`
      is `h * 2^k`). */
  lemma InputBlockValue(iv: Bytes)
    requires |iv| <= BlockSize
    ensures BEValue(InputBlock(iv).value) == ShiftUp(BEValue(iv), 8 * (BlockSize - |iv|))
  {
    var m := BlockSize - |iv|;
    assert InputBlock(iv).value == iv + Zeros(m);
    ShiftLeftShifts(iv, m);
  }

  /** The block the loop encrypts for `counter`: bytes 14 and 15 of the
      input block replaced by the counter's low 16 bits, high byte first. */
  function CounterBlock(ivBlock: Block, counter: nat): (b: Block)
    ensures b[..14] == ivBlock[..14] && U16At(b, 14) == counter % TWO16
  {
    BE16Read(counter % TWO16, ivBlock[..14] + BE16(counter % TWO16), 14);
    ivBlock[..14] + BE16(counter % TWO16)
  }

  /** The number of blocks the loop encrypts for `count` output bytes:
      `count` rounded up to whole blocks (`remainingBytesToFillBlock`). */
  function BlockCount(count: nat): (n: nat)
    ensures count <= BlockSize * n < count + BlockSize
  {
    var remaining := (BlockSize - count % BlockSize) % BlockSize;
    (count + remaining) / BlockSize
  }

  /** The outputs for counters `0 .. n - 1`, in order. */
  function Blocks(aes: Cipher, key: Bytes, ivBlock: Block, n: nat): (r: Bytes)
    ensures |r| == BlockSize * n
  {
    if n == 0 then [] else Blocks(aes, key, ivBlock, n - 1) + aes(key, CounterBlock(ivBlock, n - 1))
  }

  /** `GenerateKeystreamSegment`: the first `count` bytes of the encrypted
      counter blocks. The final padding block the crypto stream appends
      lies past `count` and is never returned. */
  function GenerateKeystreamSegment(aes: Cipher, key: Bytes, iv: Bytes, count: nat): (r: Result<Bytes>)
    ensures r.Ok? <==> |iv| <= BlockSize && KeyLengthSupported(key)
    ensures |iv| > BlockSize ==> r == Fail(Argument)
    ensures |iv| <= BlockSize && !KeyLengthSupported(key) ==> r == Fail(CryptoFailure)
    ensures r.Ok? ==> |r.value| == count
  {
    var ivBlock :- InputBlock(iv);
    if !KeyLengthSupported(key) then Fail(CryptoFailure)
    else Ok(Blocks(aes, key, ivBlock, BlockCount(count))[..count])
  }

  /** Byte `j` of the encrypted counter blocks is byte `j % 16` of the
      cipher's output for counter `j / 16`. */
  lemma {:induction false} BlocksAt(aes: Cipher, key: Bytes, ivBlock: Block, n: nat, j: nat)
    requires j < BlockSize * n
    ensures Blocks(aes, key, ivBlock, n)[j] == aes(key, CounterBlock(ivBlock, j / BlockSize))[j % BlockSize]
  {
    if j < BlockSize * (n - 1) {
      BlocksAt(aes, key, ivBlock, n - 1, j);
    }
  }

  /** Every keystream byte is the matching byte of the cipher's output for
      the block it falls in: the keystream is E(k, B0) || E(k, B1) || ...
      cut to length. */
  lemma KeystreamAt(aes: Cipher, key: Bytes, iv: Bytes, count: nat, j: nat)
    requires |iv| <= BlockSize && KeyLengthSupported(key) && j < count
    ensures var ivBlock := InputBlock(iv).value;
            GenerateKeystreamSegment(aes, key, iv, count).value[j]
            == aes(key, CounterBlock(ivBlock, j / BlockSize))[j % BlockSize]
  {
    BlocksAt(aes, key, InputBlock(iv).value, BlockCount(count), j);
  }

  /** A shorter segment is a prefix of a longer one under the same key and IV. */
  lemma KeystreamPrefix(aes: Cipher, key: Bytes, iv: Bytes, count: nat, count': nat)
    requires |iv| <= BlockSize && KeyLengthSupported(key) && count <= count'
    ensures GenerateKeystreamSegment(aes, key, iv, count).value
            == GenerateKeystreamSegment(aes, key, iv, count').value[..count]
  {
    var a := GenerateKeystreamSegment(aes, key, iv, count).value;
    var b := GenerateKeystreamSegment(aes, key, iv, count').value;
    forall j | 0 <= j < count
      ensures a[j] == b[j]
    {
      KeystreamAt(aes, key, iv, count, j);
      KeystreamAt(aes, key, iv, count', j);
    }
  }

  /** With the IV's two low bytes zero, as the SRTP IVs have them, the
      counter block is the 128-bit sum IV + i of section 4.1.1 of RFC 3711,
      for the first 2^16 blocks. */
  lemma CounterBlockIsSum(ivBlock: Block, i: nat)
    requires ivBlock[14] == 0 && ivBlock[15] == 0 && i < TWO16
    ensures BEValue(CounterBlock(ivBlock, i)) == BEValue(ivBlock) + i
  {
    var high := ivBlock[..14];
    ValueTwoMore(high, i);
    assert ivBlock == high + BE16(0);
    ValueTwoMore(high, 0);
  }

  /** The sign byte of a little-endian two's-complement encoding, the value
      `new BigInteger(bytes)` extends it with. */
  function SignByte(s: Bytes): uint8
  {
    if |s| > 0 && s[|s| - 1] >= 0x80 then 0xFF else 0
  }

  /** Byte `i` of the sign-extended encoding. */
  function ByteAt(s: Bytes, i: nat): uint8
  {
    if i < |s| then s[i] else SignByte(s)
  }

  /** The bytes of `new BigInteger(a) ^ new BigInteger(b)`, little-endian,
      over the longer operand's width. */
  function WideXor(a: Bytes, b: Bytes): (z: Bytes)
    ensures |z| == Max(|a|, |b|)
    ensures forall i | 0 <= i < |z| :: z[i] == Xor8(ByteAt(a, i), ByteAt(b, i))
  {
    var n := Max(|a|, |b|);
    seq(n, i requires 0 <= i < n => Xor8(ByteAt(a, i), ByteAt(b, i)))
  }

  /** `BigInteger.ToByteArray()` of a value encoded by `z` with sign byte
      `sign`: the shortest encoding, trailing sign bytes dropped while the
      byte below still carries the sign. Zero is the single byte 0. */
  function Minimal(z: Bytes, sign: uint8): (r: Bytes)
    ensures 1 <= |r| <= Max(|z|, 1)
    ensures |z| > 0 ==> r == z[..|r|]
    ensures forall i | |r| <= i < |z| :: z[i] == sign
  {
    if |z| == 0 then [0]
    else if |z| >= 2 && z[|z| - 1] == sign && (z[|z| - 2] >= 0x80) == (sign == 0xFF) then
      Minimal(z[..|z| - 1], sign)
    else z
  }

  /** `Encrypt`: a keystream of `(|input| / 32 + 2) * 32` bytes, combined
      with the input through `BigInteger` exclusive or and converted back
      to bytes. */
  function Encrypt(aes: Cipher, key: Bytes, iv: Bytes, input: Bytes): (r: Result<Bytes>)
    ensures r.Ok? <==> |iv| <= BlockSize && KeyLengthSupported(key)
    ensures r.Ok? ==> 1 <= |r.value| <= EncryptCount(|input|)
  {
    var ks :- GenerateKeystreamSegment(aes, key, iv, EncryptCount(|input|));
    Ok(Minimal(WideXor(ks, input), Xor8(SignByte(ks), SignByte(input))))
  }

  function EncryptCount(n: nat): (c: nat)
    ensures c >= n + 32
  {
    (n / 32 + 2) * 32
  }

  /** Counter-mode encryption as section 4.1 of RFC 3711 defines it: each
      payload byte XORed with the keystream byte at its position. */
  function CtrXor(ks: Bytes, payload: Bytes): (c: Bytes)
    requires |payload| <= |ks|
    ensures |c| == |payload|
    ensures forall i | 0 <= i < |c| :: XorBits(c[i], ks[i], 8) == payload[i]
  {
    seq(|payload|, i requires 0 <= i < |payload| => Xor8(payload[i], ks[i]))
  }

  /** Encrypting twice under the same keystream is the identity: decryption. */
  lemma CtrXorInvolution(ks: Bytes, payload: Bytes)
    requires |payload| <= |ks|
    ensures CtrXor(ks, CtrXor(ks, payload)) == payload
  {
  }

  /** Decrypting a prefix of the ciphertext gives the same prefix of the payload. */
  lemma CtrXorPrefix(ks: Bytes, payload: Bytes, n: nat)
    requires n <= |payload| <= |ks|
    ensures CtrXor(ks, CtrXor(ks, payload)[..n]) == payload[..n]
  {
    var c := CtrXor(ks, payload)[..n];
    forall i | 0 <= i < n
      ensures CtrXor(ks, c)[i] == payload[i]
    {
      Xor8Cancel(payload[i], ks[i]);
    }
  }

  /** Whatever the output's length, its bytes over the input are the
      counter-mode encryption of the input. */
  lemma EncryptPrefix(aes: Cipher, key: Bytes, iv: Bytes, input: Bytes)
    requires |iv| <= BlockSize && KeyLengthSupported(key)
    ensures var ks := GenerateKeystreamSegment(aes, key, iv, EncryptCount(|input|)).value;
            var out := Encrypt(aes, key, iv, input).value;
            var n := if |out| < |input| then |out| else |input|;
            out[..n] == CtrXor(ks, input)[..n]
  {
    var ks := GenerateKeystreamSegment(aes, key, iv, EncryptCount(|input|)).value;
    var z := WideXor(ks, input);
    var out := Minimal(z, Xor8(SignByte(ks), SignByte(input)));
    assert Encrypt(aes, key, iv, input).value == out;
    WideXorIsCtrXor(ks, input, out);
  }

  /** Over the input, the `BigInteger` exclusive or and counter mode agree
      byte for byte. */
  lemma WideXorIsCtrXor(ks: Bytes, input: Bytes, out: Bytes)
    requires |input| <= |ks| && |out| <= |ks|
    requires out == WideXor(ks, input)[..|out|]
    ensures var n := if |out| < |input| then |out| else |input|;
            out[..n] == CtrXor(ks, input)[..n]
  {
    var c := CtrXor(ks, input);
    var n := if |out| < |input| then |out| else |input|;
    forall i | 0 <= i < n
      ensures out[i] == c[i]
    {
      Xor8Commutes(ks[i], input[i]);
    }
  }

  /** When the keystream's last byte is neither 0x00 nor 0xFF, no byte is
      dropped, and the first `|input|` bytes of the output are exactly the
      counter-mode encryption. */
  lemma EncryptFullLength(aes: Cipher, key: Bytes, iv: Bytes, input: Bytes)
    requires |iv| <= BlockSize && KeyLengthSupported(key)
    requires var ks := GenerateKeystreamSegment(aes, key, iv, EncryptCount(|input|)).value;
             ks[|ks| - 1] != 0 && ks[|ks| - 1] != 0xFF
    ensures var ks := GenerateKeystreamSegment(aes, key, iv, EncryptCount(|input|)).value;
            var out := Encrypt(aes, key, iv, input).value;
            |out| == |ks| && out[..|input|] == CtrXor(ks, input)
  {
    var ks := GenerateKeystreamSegment(aes, key, iv, EncryptCount(|input|)).value;
    var z := WideXor(ks, input);
    var s := SignByte(input);
    var sign := Xor8(SignByte(ks), s);
    var last := |ks| - 1;
    assert z[last] == Xor8(ks[last], s);
    Xor8Cancel(ks[last], s);
    Xor8Cancel(SignByte(ks), s);
    assert z[last] != sign;
    EncryptPrefix(aes, key, iv, input);
  }
}
