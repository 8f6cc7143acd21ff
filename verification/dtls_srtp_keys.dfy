/** SRTP keying from the DTLS exporter output (`DtlsSrtpDerivedKeys`,
    `DtlsSrtpUtils.CreateSrtpPolicy`), laid out as section 4.2 of RFC 5764
    prescribes: client key, server key, client salt, server salt. */
module DtlsSrtpKeys {
  import opened Bytes

  /** `SrtpConstants`: AES-128 master keys with 112-bit salts. */
  const MasterKeyLength: nat := 16
  const MasterSaltLength: nat := 14

  function Min(a: nat, b: nat): nat { if a <= b then a else b }

  /** `BinaryReader.ReadBytes(n)` at stream position `pos`: up to `n`
      bytes, fewer (never an exception) when the stream runs out. */
  function ReadBytes(m: Bytes, pos: nat, n: nat): (r: Bytes)
    ensures |r| <= n
    ensures pos + n <= |m| ==> r == m[pos..pos + n]
    ensures pos + |r| <= |m| || |r| == 0
  {
    m[Min(pos, |m|)..Min(pos + n, |m|)]
  }

  datatype DerivedKeys = DerivedKeys(clientKey: Bytes, serverKey: Bytes, clientSalt: Bytes, serverSalt: Bytes)

  /** The constructor: four reads in a row from one stream over the material. */
  function Derive(m: Bytes, keyLength: nat, saltLength: nat): (d: DerivedKeys)
    ensures |d.clientKey| <= keyLength && |d.serverKey| <= keyLength
    ensures |d.clientSalt| <= saltLength && |d.serverSalt| <= saltLength
  {
    var clientKey := ReadBytes(m, 0, keyLength);
    var serverKey := ReadBytes(m, Min(keyLength, |m|), keyLength);
    var clientSalt := ReadBytes(m, Min(2 * keyLength, |m|), saltLength);
    var serverSalt := ReadBytes(m, Min(2 * keyLength + saltLength, |m|), saltLength);
    DerivedKeys(clientKey, serverKey, clientSalt, serverSalt)
  }

  /** The exporter side of the layout: the four parts back to back. */
  function Layout(d: DerivedKeys): (m: Bytes)
    ensures |m| == |d.clientKey| + |d.serverKey| + |d.clientSalt| + |d.serverSalt|
  {
    d.clientKey + d.serverKey + d.clientSalt + d.serverSalt
  }

  /** The split neither drops nor repeats a byte: the parts laid back to
      back are the material's first `2 * (key + salt)` bytes, or all of it. */
  lemma DeriveCoversPrefix(m: Bytes, keyLength: nat, saltLength: nat)
    ensures Layout(Derive(m, keyLength, saltLength)) == m[..Min(2 * (keyLength + saltLength), |m|)]
  {
    var k, s := keyLength, saltLength;
    var a, b, c, e := Min(k, |m|), Min(2 * k, |m|), Min(2 * k + s, |m|), Min(2 * (k + s), |m|);
    var r := Derive(m, k, s);
    assert r == DerivedKeys(m[0..a], m[a..b], m[b..c], m[c..e]) by {
      assert Min(a + k, |m|) == b && Min(b + s, |m|) == c && Min(c + s, |m|) == e;
    }
    assert Layout(r) == m[0..a] + m[a..b] + m[b..c] + m[c..e];
    SliceParts(m, a, b, c, e);
  }

  /** A prefix cut at three points is its four slices back to back. */
  lemma SliceParts(m: Bytes, a: nat, b: nat, c: nat, e: nat)
    requires a <= b <= c <= e <= |m|
    ensures m[..e] == m[0..a] + m[a..b] + m[b..c] + m[c..e]
  {
    assert m[..b] == m[0..a] + m[a..b];
    assert m[..c] == m[..b] + m[b..c];
    assert m[..e] == m[..c] + m[c..e];
  }

  /** Splitting material laid out from four parts of the agreed sizes gives
      back those parts, whatever follows them. */
  lemma DeriveLayout(d: DerivedKeys, extra: Bytes, keyLength: nat, saltLength: nat)
    requires |d.clientKey| == keyLength && |d.serverKey| == keyLength
    requires |d.clientSalt| == saltLength && |d.serverSalt| == saltLength
    ensures Derive(Layout(d) + extra, keyLength, saltLength) == d
  {
    var a, b, c, e := d.clientKey, d.serverKey, d.clientSalt, d.serverSalt;
    var m := Layout(d) + extra;
    var k, s := keyLength, saltLength;
    assert m[0..] == a + (b + (c + (e + extra))) by {
      Assoc4(a, b, c, e);
      Assoc(a + b + c, e, extra);
      Assoc(a + b, c, e + extra);
      Assoc(a, b, c + (e + extra));
    }
    var r := Derive(m, k, s);
    assert |m| >= 2 * k + 2 * s && m[k..] == b + (c + (e + extra)) && r.clientKey == a by {
      SuffixHead(m, 0, a, b + (c + (e + extra)));
    }
    assert m[2 * k..] == c + (e + extra) && r.serverKey == b by {
      SuffixHead(m, k, b, c + (e + extra));
    }
    assert m[2 * k + s..] == e + extra && r.clientSalt == c by {
      SuffixHead(m, 2 * k, c, e + extra);
    }
    assert r.serverSalt == e by {
      SuffixHead(m, 2 * k + s, e, extra);
    }
  }

  /** The master key and salt the relay protects its SRTP with. */
  datatype SrtpPolicy = SrtpPolicy(masterKey: Bytes, masterSalt: Bytes)

  /** `CreateSrtpPolicy`: the relay is the DTLS server, so it takes the
      server-write key and salt. */
  function CreateSrtpPolicy(m: Bytes): (p: SrtpPolicy)
    ensures |p.masterKey| <= MasterKeyLength && |p.masterSalt| <= MasterSaltLength
  {
    var d := Derive(m, MasterKeyLength, MasterSaltLength);
    SrtpPolicy(d.serverKey, d.serverSalt)
  }

  /** With the 60 bytes the exporter is asked for, the policy is bytes
      16-31 as the key and bytes 46-59 as the salt. */
  lemma PolicyOffsets(m: Bytes)
    requires |m| >= 2 * (MasterKeyLength + MasterSaltLength)
    ensures CreateSrtpPolicy(m) == SrtpPolicy(m[16..32], m[46..60])
  {
  }

  /** Short material yields short (possibly empty) parts rather than an error. */
  lemma ShortMaterialTruncates(m: Bytes)
    requires 16 <= |m| < 32
    ensures CreateSrtpPolicy(m) == SrtpPolicy(m[16..], [])
  {
  }
}
