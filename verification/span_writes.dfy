/** A writer's cursor through a fixed-size `Span<byte>`, step by step, and
    the exception the first step that does not fit raises. The relay's
    writers mix three kinds of step, and .NET fails them differently:
    `BinaryPrimitives` writes and indexer stores past the end throw
    ArgumentOutOfRange (IndexOutOfRange for the indexer: both are
    `OutOfRange` here); `source.CopyTo(span.Slice(idx))` throws
    ArgumentOutOfRange when `idx` itself lies past the end, but
    ArgumentException when the slice exists and is too short; a padding
    skip only moves the cursor. */
module SpanWrites {
  import opened Results
  import opened Bytes

  datatype Step =
    | Put(data: Bytes)   // a `BinaryPrimitives` write or an indexer store
    | Copy(data: Bytes)  // an array copied into the span from the cursor on
    | Skip(count: nat)   // bytes the cursor passes over, left as they are

  /** How far a step moves the cursor. */
  function Width(s: Step): nat
  {
    match s
    case Put(d) => |d|
    case Copy(d) => |d|
    case Skip(n) => n
  }

  /** The bytes a step leaves in a zero-filled span. */
  function Data(s: Step): (d: Bytes)
    ensures |d| == Width(s)
  {
    match s
    case Put(d) => d
    case Copy(d) => d
    case Skip(n) => Zeros(n)
  }

  function TotalWidth(steps: seq<Step>): nat
  {
    if |steps| == 0 then 0 else Width(steps[0]) + TotalWidth(steps[1..])
  }

  /** All the steps' bytes, back to back. */
  function Image(steps: seq<Step>): (img: Bytes)
    ensures |img| == TotalWidth(steps)
  {
    if |steps| == 0 then [] else Data(steps[0]) + Image(steps[1..])
  }

  /** The step writes past the end of a span of `size` bytes when taken at `at`. */
  predicate Crosses(s: Step, at: nat, size: nat)
  {
    !s.Skip? && at + Width(s) > size
  }

  /** What a crossing step throws: a copy whose slice exists is an argument
      error, anything else is out of range. */
  function Thrown(s: Step, at: nat, size: nat): Error
  {
    if s.Copy? && at <= size then Argument else OutOfRange
  }

  /** The cursor when step `k` is taken, starting from `at`. */
  function Offset(steps: seq<Step>, at: nat, k: nat): nat
    requires k <= |steps|
  {
    if k == 0 then at else Offset(steps[1..], at + Width(steps[0]), k - 1)
  }

  /** The exception of the first step that does not fit, or `None` when
      every step fits. */
  function Overrun(steps: seq<Step>, at: nat, size: nat): (r: Option<Error>)
    ensures r.Some? ==> r.value == OutOfRange || r.value == Argument
  {
    if |steps| == 0 then None
    else if Crosses(steps[0], at, size) then Some(Thrown(steps[0], at, size))
    else Overrun(steps[1..], at + Width(steps[0]), size)
  }

  /** The exception raised is the one of the first crossing step. */
  lemma {:induction false} FirstCrossing(steps: seq<Step>, at: nat, size: nat, k: nat)
    requires k < |steps|
    requires forall j :: 0 <= j < k ==> !Crosses(steps[j], Offset(steps, at, j), size)
    requires Crosses(steps[k], Offset(steps, at, k), size)
    ensures Overrun(steps, at, size) == Some(Thrown(steps[k], Offset(steps, at, k), size))
    decreases k
  {
    if k > 0 {
      assert !Crosses(steps[0], Offset(steps, at, 0), size);
      var rest := steps[1..];
      var next := at + Width(steps[0]);
      forall j | 0 <= j < k - 1
        ensures !Crosses(rest[j], Offset(rest, next, j), size)
      {
        assert rest[j] == steps[j + 1];
        assert Offset(steps, at, j + 1) == Offset(rest, next, j);
      }
      assert rest[k - 1] == steps[k];
      FirstCrossing(rest, next, size, k - 1);
    }
  }

  /** Nothing is thrown exactly when no step crosses the end. */
  lemma {:induction false} NoCrossing(steps: seq<Step>, at: nat, size: nat)
    ensures Overrun(steps, at, size).None?
            <==> forall j :: 0 <= j < |steps| ==> !Crosses(steps[j], Offset(steps, at, j), size)
    decreases |steps|
  {
    if |steps| > 0 {
      var rest := steps[1..];
      var next := at + Width(steps[0]);
      NoCrossing(rest, next, size);
      assert forall j :: 0 <= j < |rest| ==>
        rest[j] == steps[j + 1] && Offset(steps, at, j + 1) == Offset(rest, next, j);
      if !Crosses(steps[0], at, size) {
        if Overrun(steps, at, size).None? {
          forall j | 0 <= j < |steps|
            ensures !Crosses(steps[j], Offset(steps, at, j), size)
          {
            if j > 0 {
              assert rest[j - 1] == steps[j];
            }
          }
        }
      } else {
        assert Offset(steps, at, 0) == at;
      }
    }
  }

  lemma TotalWidthConcat(a: seq<Step>, b: seq<Step>)
    ensures TotalWidth(a + b) == TotalWidth(a) + TotalWidth(b)
    ensures Image(a + b) == Image(a) + Image(b)
  {
    if |a| > 0 {
      assert (a + b)[1..] == a[1..] + b;
      TotalWidthConcat(a[1..], b);
    } else {
      assert a + b == b;
    }
  }

  lemma ImageOne(s: Step)
    ensures Image([s]) == Data(s) && TotalWidth([s]) == Width(s)
  {
    assert [s][1..] == [];
  }

  /** A single step throws exactly when it crosses the end. */
  lemma OverrunOne(s: Step, at: nat, size: nat)
    ensures Overrun([s], at, size) == if Crosses(s, at, size) then Some(Thrown(s, at, size)) else None
  {
    assert [s][1..] == [];
  }

  /** Steps run one after the other: the second list starts where the
      first one ends, and runs only when the first one fits. */
  lemma {:induction false} OverrunConcat(a: seq<Step>, b: seq<Step>, at: nat, size: nat)
    ensures Overrun(a + b, at, size)
            == if Overrun(a, at, size).Some? then Overrun(a, at, size) else Overrun(b, at + TotalWidth(a), size)
    decreases |a|
  {
    if |a| > 0 {
      assert (a + b)[0] == a[0] && (a + b)[1..] == a[1..] + b;
      OverrunConcat(a[1..], b, at + Width(a[0]), size);
    } else {
      assert a + b == b;
    }
  }

  /** Without skips, the steps fit exactly when their total width fits
      after the start. */
  lemma {:induction false} FitsWithoutSkips(steps: seq<Step>, at: nat, size: nat)
    requires forall j :: 0 <= j < |steps| ==> !steps[j].Skip?
    ensures Overrun(steps, at, size).None? <==> (|steps| == 0 || at + TotalWidth(steps) <= size)
    decreases |steps|
  {
    if |steps| > 0 {
      var rest := steps[1..];
      assert forall j :: 0 <= j < |rest| ==> rest[j] == steps[j + 1];
      FitsWithoutSkips(rest, at + Width(steps[0]), size);
    }
  }

  /** Plain writes only ever throw out of range, and do so exactly when
      they do not all fit. */
  lemma {:induction false} PutsOnly(steps: seq<Step>, at: nat, size: nat)
    requires forall j :: 0 <= j < |steps| ==> steps[j].Put?
    ensures Overrun(steps, at, size) == if |steps| == 0 || at + TotalWidth(steps) <= size then None else Some(OutOfRange)
    decreases |steps|
  {
    if |steps| > 0 {
      var rest := steps[1..];
      assert forall j :: 0 <= j < |rest| ==> rest[j] == steps[j + 1];
      PutsOnly(rest, at + Width(steps[0]), size);
    }
  }

  /** When the last step writes, the steps fit exactly when their total
      width fits after the start: a skip only matters through the write
      that follows it. */
  lemma {:induction false} FitsEndingInWrite(pre: seq<Step>, last: Step, at: nat, size: nat)
    requires !last.Skip?
    ensures Overrun(pre + [last], at, size).None? <==> at + TotalWidth(pre + [last]) <= size
    decreases |pre|
  {
    var steps := pre + [last];
    if |pre| == 0 {
      assert steps == [last] && steps[1..] == [];
    } else {
      assert steps[0] == pre[0] && steps[1..] == pre[1..] + [last];
      FitsEndingInWrite(pre[1..], last, at + Width(pre[0]), size);
    }
  }
}
