/** `StunRecordWriter.Write`: a record into a zero-filled array of
    `20 + MessageLength + padLen` bytes, `padLen` being 32 for a signed
    record (integrity and fingerprint attributes) and 8 otherwise
    (fingerprint only). The writer advances one cursor through the array;
    the first write that does not fit throws (ArgumentOutOfRange for a
    `BinaryPrimitives` write, ArgumentException for a value `CopyTo` whose
    slice is too short), and the array is sent only when all writes
    succeed. So the model lays out the emitted bytes in order, and walks
    the same writes as `SpanWrites` steps to tell whether and how it fails. */
module StunRecordWriter {
  import opened Results
  import opened Bytes
  import opened StunRecord
  import StunRecordReader
  import opened SpanWrites

  function AttributesImage(attrs: seq<Attribute>): Bytes
  {
    if |attrs| == 0 then [] else Tlv(attrs[0]) + AttributesImage(attrs[1..])
  }

  /** The integrity attribute when signed, nothing otherwise. */
  function IntegrityImage(r: Record): (img: Bytes)
    ensures |img| == (if r.integrity.Some? then 24 else 0)
  {
    if r.integrity.Some? then Tlv(IntegrityAttribute(r.integrity.value)) else []
  }

  /** The header as the writer fills it in. */
  function HeaderImage(r: Record): Bytes
  {
    BE16(r.messageType) + (BE16((MessageLength(r.attributes) + TrailerLength(r)) % TWO16)
    + (BE32(MessageCookie) + r.transactionId))
  }

  /** Where the reader finds the header fields. */
  lemma HeaderFields(r: Record, x: Bytes)
    requires |r.transactionId| == TransactionIdLength
    ensures var b := HeaderImage(r) + x;
            && |b| >= HeaderLength
            && U16At(b, 0) == r.messageType
            && U16At(b, 2) == (MessageLength(r.attributes) + TrailerLength(r)) % TWO16
            && U32At(b, 4) == MessageCookie
            && b[8..HeaderLength] == r.transactionId
            && b[HeaderLength..] == x
  {
    var b := HeaderImage(r) + x;
    var len := (MessageLength(r.attributes) + TrailerLength(r)) % TWO16;
    assert b[0..] == BE16(r.messageType) + (BE16(len) + (BE32(MessageCookie) + (r.transactionId + x)));
    U16AtHead(b, 0, r.messageType, BE16(len) + (BE32(MessageCookie) + (r.transactionId + x)));
    U16AtHead(b, 2, len, BE32(MessageCookie) + (r.transactionId + x));
    SuffixHead(b, 4, BE32(MessageCookie), r.transactionId + x);
    BE32Read(MessageCookie, b, 4);
    SuffixHead(b, 8, r.transactionId, x);
  }

  /** The fingerprint attribute carrying the value `fp`. */
  function FingerprintTlv(fp: Bytes): Bytes
  {
    Tlv(Attribute(FingerprintType, Some(fp)))
  }

  /** Everything the writer emits, in order: header, attributes, integrity
      when signed, the fingerprint `fp` last. */
  function Emitted(r: Record, fp: Bytes): Bytes
  {
    HeaderImage(r) + (AttributesImage(r.attributes) + (IntegrityImage(r) + FingerprintTlv(fp)))
  }

  /** The array `Write` allocates. */
  function ArraySize(r: Record): nat
  {
    HeaderLength + MessageLength(r.attributes) + TrailerLength(r)
  }

  /** The header writes (StunRecordWriter.cs:17-24). */
  function HeaderSteps(r: Record): seq<Step>
  {
    [Put(BE16(r.messageType)), Put(BE16((MessageLength(r.attributes) + TrailerLength(r)) % TWO16)),
     Put(BE32(MessageCookie)), Copy(r.transactionId)]
  }

  /** One attribute's writes (StunRecordWriter.cs:28-37): type and length,
      the value unless it is `null`, then the padding skipped. */
  function AttributeSteps(a: Attribute): seq<Step>
  {
    [Put(BE16(a.attrType)), Put(BE16(Length(a)))]
    + (if a.value.Some? then [Copy(a.value.value)] else [])
    + [Skip(Padding(Length(a)))]
  }

  function AttributesSteps(attrs: seq<Attribute>): seq<Step>
  {
    if |attrs| == 0 then [] else AttributeSteps(attrs[0]) + AttributesSteps(attrs[1..])
  }

  /** The integrity attribute's writes, when signed (StunRecordWriter.cs:41-49). */
  function IntegritySteps(r: Record): seq<Step>
  {
    if r.integrity.Some? then
      var a := IntegrityAttribute(r.integrity.value);
      [Put(BE16(a.attrType)), Put(BE16(Length(a))), Copy(r.integrity.value)]
    else []
  }

  /** The fingerprint's writes (StunRecordWriter.cs:52-56); no padding follows. */
  function FingerprintSteps(fp: Bytes): seq<Step>
  {
    [Put(BE16(FingerprintType)), Put(BE16(Length(Attribute(FingerprintType, Some(fp))))), Copy(fp)]
  }

  function Steps(r: Record, fp: Bytes): seq<Step>
  {
    HeaderSteps(r) + (AttributesSteps(r.attributes) + (IntegritySteps(r) + FingerprintSteps(fp)))
  }

  /** The array the writer fills: the exception of the first write that does
      not fit, or the emitted bytes (the fingerprint's padding, which the
      writer never writes, cut off at the end) followed by zeros. */
  function Layout(r: Record, fp: Bytes): (res: Result<Bytes>)
    ensures res.Ok? ==> |res.value| == ArraySize(r)
    ensures res.Fail? ==> res.error == OutOfRange || res.error == Argument
  {
    var size := ArraySize(r);
    match Overrun(Steps(r, fp), 0, size)
    case Some(e) => Fail(e)
    case None => Ok((Emitted(r, fp) + Zeros(size))[..size])
  }

  /** `Write`, with the fingerprint the record's getter computes. */
  function Write(v: Variant, crc32: Bytes -> uint32, r: Record): (res: Result<Bytes>)
    ensures res.Ok? ==> |res.value| == ArraySize(r)
    ensures res.Fail? ==> res.error == OutOfRange || res.error == Argument
  {
    Layout(r, FingerprintValue(crc32, FingerprintInput(v, r)))
  }

  lemma AttributeStepsWidth(a: Attribute)
    ensures Image(AttributeSteps(a)) == Tlv(a)
  {
    var v := if a.value.Some? then [Copy(a.value.value)] else [];
    var p := Skip(Padding(Length(a)));
    assert AttributeSteps(a) == [Put(BE16(a.attrType)), Put(BE16(Length(a)))] + (v + [p]);
    TlvStepsImage(a.attrType, Length(a), v + [p]);
    TotalWidthConcat(v, [p]);
    ImageOne(p);
    if a.value.Some? {
      ImageOne(Copy(a.value.value));
    }
  }

  lemma {:induction false} AttributesStepsWidth(attrs: seq<Attribute>)
    ensures Image(AttributesSteps(attrs)) == AttributesImage(attrs)
  {
    if |attrs| > 0 {
      AttributeStepsWidth(attrs[0]);
      AttributesStepsWidth(attrs[1..]);
      TotalWidthConcat(AttributeSteps(attrs[0]), AttributesSteps(attrs[1..]));
    }
  }

  lemma HeaderStepsImage(r: Record)
    ensures Image(HeaderSteps(r)) == HeaderImage(r)
  {
    var p1, p2, p3, c := Put(BE16(r.messageType)), Put(BE16((MessageLength(r.attributes) + TrailerLength(r)) % TWO16)),
                         Put(BE32(MessageCookie)), Copy(r.transactionId);
    assert HeaderSteps(r) == [p1] + ([p2] + ([p3] + [c]));
    ImageOne(p1); ImageOne(p2); ImageOne(p3); ImageOne(c);
    TotalWidthConcat([p3], [c]);
    TotalWidthConcat([p2], [p3] + [c]);
    TotalWidthConcat([p1], [p2] + ([p3] + [c]));
  }

  /** The type and length writes of an attribute, then the steps of its value. */
  lemma TlvStepsImage(t: uint16, len: uint16, tail: seq<Step>)
    ensures Image([Put(BE16(t)), Put(BE16(len))] + tail) == BE16(t) + (BE16(len) + Image(tail))
  {
    ImageOne(Put(BE16(t))); ImageOne(Put(BE16(len)));
    assert [Put(BE16(t)), Put(BE16(len))] + tail == [Put(BE16(t))] + ([Put(BE16(len))] + tail);
    TotalWidthConcat([Put(BE16(len))], tail);
    TotalWidthConcat([Put(BE16(t))], [Put(BE16(len))] + tail);
  }

  lemma IntegrityStepsImage(r: Record)
    ensures Image(IntegritySteps(r)) == IntegrityImage(r)
  {
    if r.integrity.Some? {
      var d := r.integrity.value;
      var a := IntegrityAttribute(d);
      assert IntegritySteps(r) == [Put(BE16(a.attrType)), Put(BE16(Length(a)))] + [Copy(d)];
      TlvStepsImage(a.attrType, Length(a), [Copy(d)]);
      ImageOne(Copy(d));
      assert Zeros(Padding(Length(a))) == [];
      assert d + [] == d;
    }
  }

  lemma FingerprintStepsImage(fp: Bytes)
    ensures Image(FingerprintSteps(fp)) + Zeros(Padding(Length(Attribute(FingerprintType, Some(fp)))))
            == FingerprintTlv(fp)
  {
    var a := Attribute(FingerprintType, Some(fp));
    assert FingerprintSteps(fp) == [Put(BE16(a.attrType)), Put(BE16(Length(a)))] + [Copy(fp)];
    TlvStepsImage(a.attrType, Length(a), [Copy(fp)]);
    ImageOne(Copy(fp));
  }

  /** The steps lay down exactly the emitted bytes, short of the
      fingerprint's padding. */
  lemma StepsImage(r: Record, fp: Bytes)
    ensures Image(Steps(r, fp)) + Zeros(Padding(Length(Attribute(FingerprintType, Some(fp))))) == Emitted(r, fp)
  {
    var z := Zeros(Padding(Length(Attribute(FingerprintType, Some(fp)))));
    var h, at, i, f := HeaderSteps(r), AttributesSteps(r.attributes), IntegritySteps(r), FingerprintSteps(fp);
    TotalWidthConcat(i, f);
    TotalWidthConcat(at, i + f);
    TotalWidthConcat(h, at + (i + f));
    AppendNested(Image(h), Image(at), Image(i), Image(f), z);
    HeaderStepsImage(r);
    AttributesStepsWidth(r.attributes);
    IntegrityStepsImage(r);
    FingerprintStepsImage(fp);
  }

  /** The writer succeeds exactly when every emitted byte up to the end of
      the fingerprint value fits the array. */
  lemma LayoutSucceeds(r: Record, fp: Bytes)
    ensures Layout(r, fp).Ok?
            <==> |Emitted(r, fp)| - Padding(Length(Attribute(FingerprintType, Some(fp)))) <= ArraySize(r)
  {
    var steps := Steps(r, fp);
    var pre := HeaderSteps(r) + AttributesSteps(r.attributes) + IntegritySteps(r)
               + [Put(BE16(FingerprintType)), Put(BE16(Length(Attribute(FingerprintType, Some(fp)))))];
    assert steps == pre + [Copy(fp)];
    FitsEndingInWrite(pre, Copy(fp), 0, ArraySize(r));
    StepsImage(r, fp);
  }

  /** The writes of an unsigned record without attributes whose
      transaction id has `n` bytes, into an array of `size` bytes: the
      header fits exactly when the 8 fixed bytes and the id do. */
  lemma BareSteps(r: Record, fp: Bytes, size: nat)
    requires r.attributes == [] && r.integrity.None? && 8 + |r.transactionId| <= size
    ensures Overrun(Steps(r, fp), 0, size) == Overrun(FingerprintSteps(fp), 8 + |r.transactionId|, size)
  {
    var h := HeaderSteps(r);
    assert Steps(r, fp) == h + FingerprintSteps(fp);
    OverrunConcat(h, FingerprintSteps(fp), 0, size);
    FitsWithoutSkips(h, 0, size);
    HeaderStepsImage(r);
  }

  /** The fingerprint's writes from `at` on: the type or length field past
      the end is out of range, a value whose slice exists but is too short
      is an argument error. */
  lemma FingerprintOverrun(fp: Bytes, at: nat, size: nat)
    ensures Overrun(FingerprintSteps(fp), at, size)
            == if at + 4 > size then Some(OutOfRange)
               else if at + 4 + |fp| > size then Some(Argument)
               else None
  {
    var f := FingerprintSteps(fp);
    assert f == [f[0]] + ([f[1]] + [f[2]]);
    OverrunConcat([f[0]], [f[1]] + [f[2]], at, size);
    OverrunOne(f[0], at, size);
    ImageOne(f[0]);
    OverrunConcat([f[1]], [f[2]], at + 2, size);
    OverrunOne(f[1], at + 2, size);
    ImageOne(f[1]);
    OverrunOne(f[2], at + 4, size);
  }

  /** An unsigned record without attributes, with an `n`-byte transaction
      id and any 4-byte fingerprint, in its 28-byte array. */
  lemma BareLayout(t: uint16, n: nat, fp: Bytes)
    requires 12 <= n <= 20 && |fp| == FingerprintLength
    ensures n > 16 ==> Layout(Record(t, Zeros(n), [], None), fp) == Fail(OutOfRange)
    ensures 12 < n <= 16 ==> Layout(Record(t, Zeros(n), [], None), fp) == Fail(Argument)
    ensures n == 12 ==> Layout(Record(t, Zeros(n), [], None), fp).Ok?
  {
    var r := Record(t, Zeros(n), [], None);
    assert ArraySize(r) == 28;
    BareSteps(r, fp, 28);
    FingerprintOverrun(fp, 8 + n, 28);
  }

  /** A transaction id of 13 bytes pushes the fingerprint value of an
      unsigned record past the end of its 28-byte array: the value's slice
      has 3 bytes, so its `CopyTo` is an argument error. */
  lemma LongTransactionIdArgument(v: Variant, crc32: Bytes -> uint32, t: uint16)
    ensures Write(v, crc32, Record(t, Zeros(13), [], None)) == Fail(Argument)
  {
    var r := Record(t, Zeros(13), [], None);
    BareLayout(t, 13, FingerprintValue(crc32, FingerprintInput(v, r)));
  }

  /** With 17 bytes the fingerprint's length field already lands past the
      end: out of range. */
  lemma LongTransactionIdOutOfRange(v: Variant, crc32: Bytes -> uint32, t: uint16)
    ensures Write(v, crc32, Record(t, Zeros(17), [], None)) == Fail(OutOfRange)
  {
    var r := Record(t, Zeros(17), [], None);
    BareLayout(t, 17, FingerprintValue(crc32, FingerprintInput(v, r)));
  }


  /** A record the writer can lay out exactly: a 12-byte transaction id,
      values that fit the 16-bit length, and a total that fits the length
      field together with the trailing attributes. */
  predicate WellSized(r: Record)
  {
    && |r.transactionId| == TransactionIdLength
    && (forall i :: 0 <= i < |r.attributes| ==> |ValueBytes(r.attributes[i])| < TWO16)
    && AttributesSize(r.attributes) + 32 < TWO16
  }

  /** For a well-sized record the 16-bit message length is the attributes'
      exact size, with room for the trailing attributes. */
  lemma MessageLengthExact(r: Record)
    requires WellSized(r)
    ensures MessageLength(r.attributes) == AttributesSize(r.attributes)
    ensures MessageLength(r.attributes) + 32 < TWO16
  {
    var n := AttributesSize(r.attributes);
    assert 0 <= n < TWO16;
  }

  /** A value that fits the 16-bit length is laid out as `GetAsBytes` emits
      it, in exactly the attribute's size. */
  lemma AttributeImageLength(a: Attribute)
    requires |ValueBytes(a)| < TWO16
    ensures |Tlv(a)| == AttributeSize(a)
    ensures AttributeBytes(a) == Tlv(a)
  {
    if Length(a) == 0 {
      assert ValueBytes(a) == [] && Zeros(Padding(Length(a))) == [];
    }
  }

  lemma {:induction false} AttributesImageLength(attrs: seq<Attribute>)
    requires forall i :: 0 <= i < |attrs| ==> |ValueBytes(attrs[i])| < TWO16
    ensures |AttributesImage(attrs)| == AttributesSize(attrs)
    ensures AttributesBytes(attrs) == AttributesImage(attrs)
  {
    if |attrs| > 0 {
      AttributeImageLength(attrs[0]);
      assert forall i :: 0 <= i < |attrs[1..]| ==> attrs[1..][i] == attrs[i + 1];
      AttributesImageLength(attrs[1..]);
    }
  }

  /** A well-sized record fills its array exactly, and the length field
      counts precisely the bytes after the 20-byte header (section 6 of
      RFC 5389). */
  lemma LayoutFits(r: Record, fp: Bytes)
    requires WellSized(r) && |fp| == FingerprintLength
    ensures Layout(r, fp) == Ok(Emitted(r, fp))
    ensures |Emitted(r, fp)| == HeaderLength + AttributesSize(r.attributes) + TrailerLength(r)
    ensures U16At(Emitted(r, fp), 2) == |Emitted(r, fp)| - HeaderLength
  {
    EmittedLength(r, fp);
    MessageLengthExact(r);
    HeaderFields(r, AttributesImage(r.attributes) + (IntegrityImage(r) + FingerprintTlv(fp)));
    LayoutExact(r, fp);
  }

  lemma EmittedLength(r: Record, fp: Bytes)
    requires WellSized(r) && |fp| == FingerprintLength
    ensures |Emitted(r, fp)| == HeaderLength + AttributesSize(r.attributes) + TrailerLength(r)
  {
    AttributesImageLength(r.attributes);
    assert |FingerprintTlv(fp)| == 8;
    assert |HeaderImage(r)| == HeaderLength;
  }

  /** Emitted bytes that fill the array exactly are written as they are. */
  lemma LayoutExact(r: Record, fp: Bytes)
    requires |Emitted(r, fp)| == ArraySize(r)
    ensures Layout(r, fp) == Ok(Emitted(r, fp))
  {
    var e := Emitted(r, fp);
    LayoutSucceeds(r, fp);
    assert (e + Zeros(|e|))[..|e|] == e;
  }

  /** An attribute read back: its type and value, an absent value read as empty. */
  function ReadBack(a: Attribute): Attribute
  {
    Attribute(a.attrType, Some(ValueBytes(a)))
  }

  function ReadBacks(attrs: seq<Attribute>): (r: seq<Attribute>)
    ensures |r| == |attrs|
  {
    if |attrs| == 0 then [] else [ReadBack(attrs[0])] + ReadBacks(attrs[1..])
  }

  /** `rest` with `xs` in front, if the rest parsed. */
  function Prepend(xs: seq<Attribute>, rest: Result<seq<Attribute>>): Result<seq<Attribute>>
  {
    if rest.Fail? then rest else Ok(xs + rest.value)
  }

  /** One attribute laid out at the cursor is read as itself (or skipped,
      for the integrity and fingerprint types), and the cursor moves past
      its padding. */
  lemma ReadOne(buf: Bytes, idx: nat, a: Attribute, post: Bytes)
    requires idx <= |buf| && buf[idx..] == Tlv(a) + post && |ValueBytes(a)| < TWO16
    ensures idx + |Tlv(a)| <= |buf|
    ensures StunRecordReader.ReadAttributes(buf, idx)
            == Prepend(if StunRecordReader.Kept(a.attrType) then [ReadBack(a)] else [],
                       StunRecordReader.ReadAttributes(buf, idx + |Tlv(a)|))
  {
    TlvFields(buf, idx, a, post);
    ReadStep(buf, idx);
  }

  /** One turn of the reader's loop over a whole attribute at the cursor. */
  lemma ReadStep(buf: Bytes, idx: nat)
    requires idx + 4 <= |buf| && idx + 4 + U16At(buf, idx + 2) <= |buf|
    ensures var t, len := U16At(buf, idx), U16At(buf, idx + 2);
            StunRecordReader.ReadAttributes(buf, idx)
            == Prepend(if StunRecordReader.Kept(t) then [Attribute(t, Some(buf[idx + 4..idx + 4 + len]))] else [],
                       StunRecordReader.ReadAttributes(buf, idx + 4 + len + Padding(len)))
  {
    var len := U16At(buf, idx + 2);
    var rest := StunRecordReader.ReadAttributes(buf, idx + 4 + len + Padding(len));
    if rest.Ok? {
      assert [] + rest.value == rest.value;
    }
  }

  /** Where the reader finds the fields of an attribute laid out at the cursor. */
  lemma TlvFields(buf: Bytes, idx: nat, a: Attribute, post: Bytes)
    requires idx <= |buf| && buf[idx..] == Tlv(a) + post && |ValueBytes(a)| < TWO16
    ensures idx + |Tlv(a)| <= |buf|
    ensures U16At(buf, idx) == a.attrType && U16At(buf, idx + 2) == |ValueBytes(a)|
    ensures buf[idx + 4..idx + 4 + |ValueBytes(a)|] == ValueBytes(a)
    ensures |Tlv(a)| == 4 + |ValueBytes(a)| + Padding(|ValueBytes(a)|)
  {
    var v := ValueBytes(a);
    var len := Length(a);
    var z := Zeros(Padding(len));
    assert Tlv(a) + post == BE16(a.attrType) + (BE16(len) + (v + z)) + post;
    assert buf[idx..] == BE16(a.attrType) + (BE16(len) + (v + (z + post)));
    U16AtHead(buf, idx, a.attrType, BE16(len) + (v + (z + post)));
    U16AtHead(buf, idx + 2, len, v + (z + post));
    SuffixHead(buf, idx + 4, v, z + post);
  }

  lemma PrependCons(x: Attribute, xs: seq<Attribute>, r: Result<seq<Attribute>>)
    ensures Prepend([x], Prepend(xs, r)) == Prepend([x] + xs, r)
  {
    if r.Ok? {
      assert [x] + (xs + r.value) == ([x] + xs) + r.value;
    }
  }

  lemma PrependNil(r: Result<seq<Attribute>>)
    ensures Prepend([], r) == r
  {
    if r.Ok? {
      assert [] + r.value == r.value;
    }
  }

  /** Attributes the reader hands back one for one: values that fit the
      16-bit length, none of the two types it drops. */
  predicate Readable(attrs: seq<Attribute>)
  {
    |attrs| == 0
    || (&& |ValueBytes(attrs[0])| < TWO16 && StunRecordReader.Kept(attrs[0].attrType)
        && Readable(attrs[1..]))
  }

  lemma {:induction false} ReadableAll(attrs: seq<Attribute>)
    requires forall i :: 0 <= i < |attrs| ==>
               |ValueBytes(attrs[i])| < TWO16 && StunRecordReader.Kept(attrs[i].attrType)
    ensures Readable(attrs)
    decreases |attrs|
  {
    if |attrs| > 0 {
      assert forall i :: 0 <= i < |attrs| - 1 ==> attrs[1..][i] == attrs[i + 1];
      ReadableAll(attrs[1..]);
    }
  }

  /** The first attribute of a laid-out list is read, and the cursor lands
      on the rest of the list. */
  lemma ReadHead(buf: Bytes, idx: nat, attrs: seq<Attribute>, post: Bytes, mid: nat)
    requires |attrs| > 0 && Readable(attrs)
    requires idx <= |buf| && buf[idx..] == AttributesImage(attrs) + post
    requires mid == idx + |Tlv(attrs[0])|
    ensures mid + |AttributesImage(attrs[1..])| == idx + |AttributesImage(attrs)|
    ensures mid <= |buf| && buf[mid..] == AttributesImage(attrs[1..]) + post
    ensures StunRecordReader.ReadAttributes(buf, idx)
            == Prepend([ReadBack(attrs[0])], StunRecordReader.ReadAttributes(buf, mid))
  {
    var t := Tlv(attrs[0]);
    var rest := AttributesImage(attrs[1..]);
    assert buf[idx..] == t + (rest + post) by {
      assert AttributesImage(attrs) == t + rest;
    }
    assert mid <= |buf| && buf[mid..] == rest + post by {
      SuffixSplit(buf, idx, t, rest + post);
    }
    assert StunRecordReader.ReadAttributes(buf, idx)
           == Prepend([ReadBack(attrs[0])], StunRecordReader.ReadAttributes(buf, mid)) by {
      assert StunRecordReader.Kept(attrs[0].attrType);
      ReadOne(buf, idx, attrs[0], rest + post);
    }
  }

  /** The attribute list laid out between `idx` and `end` reads back in order. */
  lemma {:induction false} ReadImage(buf: Bytes, idx: nat, attrs: seq<Attribute>, post: Bytes, end: nat)
    requires idx <= |buf| && buf[idx..] == AttributesImage(attrs) + post
    requires end == idx + |AttributesImage(attrs)|
    requires Readable(attrs)
    ensures end <= |buf|
    ensures StunRecordReader.ReadAttributes(buf, idx) == Prepend(ReadBacks(attrs), StunRecordReader.ReadAttributes(buf, end))
    decreases |attrs|
  {
    if |attrs| == 0 {
      assert ReadBacks(attrs) == [];
      PrependNil(StunRecordReader.ReadAttributes(buf, end));
    } else {
      var mid := idx + |Tlv(attrs[0])|;
      var x, xs := ReadBack(attrs[0]), ReadBacks(attrs[1..]);
      var atIdx, atMid, atEnd := StunRecordReader.ReadAttributes(buf, idx),
        StunRecordReader.ReadAttributes(buf, mid), StunRecordReader.ReadAttributes(buf, end);
      assert atIdx == Prepend([x], atMid) && end <= |buf| && atMid == Prepend(xs, atEnd) by {
        ReadHead(buf, idx, attrs, post, mid);
        ReadImage(buf, mid, attrs[1..], post, end);
      }
      assert ReadBacks(attrs) == [x] + xs;
      PrependCons(x, xs, atEnd);
    }
  }

  /** The trailer the writer appends is parsed and dropped to the end. */
  lemma ReadTrailer(buf: Bytes, idx: nat, r: Record, f: Attribute)
    requires idx <= |buf| && buf[idx..] == IntegrityImage(r) + Tlv(f)
    requires f.attrType == FingerprintType && |ValueBytes(f)| < TWO16
    ensures StunRecordReader.ReadAttributes(buf, idx) == Ok([])
  {
    var fp := Tlv(f);
    if r.integrity.Some? {
      var mi := IntegrityAttribute(r.integrity.value);
      ReadOne(buf, idx, mi, fp);
      SuffixSplit(buf, idx, Tlv(mi), fp);
      assert buf[idx + |Tlv(mi)|..] == fp + [];
      ReadOne(buf, idx + |Tlv(mi)|, f, []);
    } else {
      assert buf[idx..] == fp + [];
      ReadOne(buf, idx, f, []);
    }
  }

  /** Reading the laid-out record gives back the message type, the
      transaction id and every attribute's type and value, in order. */
  lemma ReadLayout(r: Record, fp: Bytes)
    requires WellSized(r) && |fp| == FingerprintLength
    requires forall i :: 0 <= i < |r.attributes| ==> StunRecordReader.Kept(r.attributes[i].attrType)
    ensures StunRecordReader.Read(Emitted(r, fp))
            == Ok(Record(r.messageType, r.transactionId, ReadBacks(r.attributes), None))
  {
    var e := Emitted(r, fp);
    var img := AttributesImage(r.attributes);
    var trailer := IntegrityImage(r) + FingerprintTlv(fp);
    HeaderFields(r, img + trailer);
    var end := HeaderLength + |img|;
    assert StunRecordReader.ReadAttributes(e, HeaderLength) == Ok(ReadBacks(r.attributes)) by {
      ReadableAll(r.attributes);
      ReadImage(e, HeaderLength, r.attributes, trailer, end);
      SuffixSplit(e, HeaderLength, img, trailer);
      ReadTrailer(e, end, r, Attribute(FingerprintType, Some(fp)));
      assert ReadBacks(r.attributes) + [] == ReadBacks(r.attributes);
    }
  }

  /** Reading what the writer wrote gives back the message type, the
      transaction id and every attribute's type and value, in order; the
      integrity attribute is not carried back. */
  lemma ReadWrite(v: Variant, crc32: Bytes -> uint32, r: Record)
    requires WellSized(r)
    requires forall i :: 0 <= i < |r.attributes| ==> StunRecordReader.Kept(r.attributes[i].attrType)
    ensures Write(v, crc32, r).Ok?
    ensures StunRecordReader.Read(Write(v, crc32, r).value)
            == Ok(Record(r.messageType, r.transactionId, ReadBacks(r.attributes), None))
  {
    var fp := FingerprintValue(crc32, FingerprintInput(v, r));
    LayoutFits(r, fp);
    ReadLayout(r, fp);
  }
}
