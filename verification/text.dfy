/** The .NET string operations the text codecs are built from, on strings
    as sequences of characters: `IndexOf`, `Split` (empty fields kept),
    `string.Join`, `Trim(char)`, the decimal `ToString` of integers and the
    integer `Parse` methods, `StringReader.ReadLine`, and null strings. */
module Text {
  import opened Results

  /** A string reference that may be null. */
  type NString = Option<string>

  /** A string as `$"{s}"` prints it: null prints as nothing. */
  function Str(s: NString): string
  {
    if s.Some? then s.value else ""
  }

  /** `s.IndexOf(c)`: the first position of `c`, or -1. */
  function IndexOf(s: string, c: char): (i: int)
    ensures -1 <= i < |s|
    ensures i == -1 <==> c !in s
    ensures i >= 0 ==> s[i] == c && c !in s[..i]
  {
    if |s| == 0 then -1
    else if s[0] == c then 0
    else
      var j := IndexOf(s[1..], c);
      if j < 0 then -1
      else
        assert s[..j + 1] == [s[0]] + s[1..][..j];
        j + 1
  }

  /** `pat` occurs in `s` at position `j`. */
  predicate OccursAt(s: string, pat: string, j: int)
  {
    0 <= j && j + |pat| <= |s| && s[j..j + |pat|] == pat
  }

  /** `s.IndexOf(pat, StringComparison.Ordinal)`: the first position of
      `pat`, or -1. */
  function IndexOfString(s: string, pat: string): (i: int)
    ensures -1 <= i <= |s|
    ensures i >= 0 ==> OccursAt(s, pat, i) && forall j | 0 <= j < i :: !OccursAt(s, pat, j)
    ensures i == -1 ==> forall j | 0 <= j <= |s| :: !OccursAt(s, pat, j)
  {
    if |s| < |pat| then -1
    else if s[..|pat|] == pat then 0
    else
      var j := IndexOfString(s[1..], pat);
      assert forall k | 1 <= k <= |s| :: OccursAt(s, pat, k) == OccursAt(s[1..], pat, k - 1);
      if j < 0 then -1 else j + 1
  }

  /** The number of occurrences of `c`. */
  function Count(s: string, c: char): nat
  {
    if |s| == 0 then 0 else (if s[0] == c then 1 else 0) + Count(s[1..], c)
  }

  /** `s.Split(sep)`: the fields between separators, empty ones included. */
  function Split(s: string, sep: char): (parts: seq<string>)
    ensures |parts| >= 1
    ensures forall k | 0 <= k < |parts| :: sep !in parts[k]
    decreases |s|
  {
    var i := IndexOf(s, sep);
    if i < 0 then [s] else [s[..i]] + Split(s[i + 1..], sep)
  }

  /** `string.Join(sep, parts)`: the parts with `sep` between neighbours. */
  function Join(parts: seq<string>, sep: string): string
  {
    if |parts| == 0 then ""
    else if |parts| == 1 then parts[0]
    else parts[0] + sep + Join(parts[1..], sep)
  }

  /** Occurrences count additively over a concatenation. */
  lemma {:induction false} CountAppend(a: string, b: string, c: char)
    ensures Count(a + b, c) == Count(a, c) + Count(b, c)
  {
    if |a| > 0 {
      var d := if a[0] == c then 1 else 0;
      assert (a + b)[0] == a[0] && (a + b)[1..] == a[1..] + b;
      assert Count(a + b, c) == d + Count(a[1..] + b, c);
      CountAppend(a[1..], b, c);
    } else {
      assert a + b == b;
    }
  }

  lemma {:induction false} CountAbsent(s: string, c: char)
    requires c !in s
    ensures Count(s, c) == 0
  {
    if |s| > 0 {
      CountAbsent(s[1..], c);
    }
  }

  /** A string with a separator splits into the text before it and the
      parts of the text after it. */
  lemma SplitAt(s: string, sep: char)
    requires IndexOf(s, sep) >= 0
    ensures var i := IndexOf(s, sep);
            Split(s, sep) == [s[..i]] + Split(s[i + 1..], sep)
  {
  }

  /** A string without the separator is its own single part. */
  lemma SplitNone(s: string, sep: char)
    requires IndexOf(s, sep) < 0
    ensures Split(s, sep) == [s] && Join([s], [sep]) == s
  {
  }

  /** Joining a list of two or more parts puts the separator after the first. */
  lemma JoinFirst(first: string, parts: seq<string>, sep: string)
    requires |parts| >= 1
    ensures Join([first] + parts, sep) == first + sep + Join(parts, sep)
  {
    var whole := [first] + parts;
    assert |whole| >= 2 && whole[0] == first && whole[1..] == parts;
  }

  /** Splitting and joining again gives the string back. */
  lemma {:induction false} SplitJoin(s: string, sep: char)
    ensures Join(Split(s, sep), [sep]) == s
    decreases |s|
  {
    var i := IndexOf(s, sep);
    if i < 0 {
      SplitNone(s, sep);
    } else {
      var first, rest := s[..i], s[i + 1..];
      SplitAt(s, sep);
      JoinFirst(first, Split(rest, sep), [sep]);
      SplitJoin(rest, sep);
      assert s == first + [sep] + rest;
    }
  }

  /** One field more than there are separators. */
  lemma {:induction false} SplitCount(s: string, sep: char)
    ensures |Split(s, sep)| == Count(s, sep) + 1
    decreases |s|
  {
    var i := IndexOf(s, sep);
    if i < 0 {
      CountAbsent(s, sep);
    } else {
      var rest := s[i + 1..];
      SplitCount(rest, sep);
      assert s == s[..i] + ([sep] + rest);
      CountAppend(s[..i], [sep] + rest, sep);
      CountAbsent(s[..i], sep);
      assert ([sep] + rest)[1..] == rest;
    }
  }

  lemma IndexOfPrefix(a: string, c: char, b: string)
    requires c !in a
    ensures IndexOf(a + [c] + b, c) == |a|
  {
    var s := a + [c] + b;
    var i := IndexOf(s, c);
    assert s[|a|] == c;
    assert s[..|a|] == a;
  }

  /** Parts free of the separator are recovered by splitting their join. */
  lemma {:induction false} JoinSplit(parts: seq<string>, sep: char)
    requires |parts| >= 1
    requires forall k | 0 <= k < |parts| :: sep !in parts[k]
    ensures Split(Join(parts, [sep]), sep) == parts
  {
    if |parts| > 1 {
      var rest := Join(parts[1..], [sep]);
      IndexOfPrefix(parts[0], sep, rest);
      var s := parts[0] + [sep] + rest;
      assert s[..|parts[0]|] == parts[0] && s[|parts[0]| + 1..] == rest;
      JoinSplit(parts[1..], sep);
    } else {
      assert Join(parts, [sep]) == parts[0];
    }
  }

  /** A joined list as the last part of a join with the same separator
      is the join of all the parts. */
  lemma {:induction false} JoinFlatten(a: seq<string>, b: seq<string>, sep: string)
    requires |b| >= 1
    ensures Join(a + [Join(b, sep)], sep) == Join(a + b, sep)
    decreases |a|
  {
    if |a| == 0 {
      assert a + [Join(b, sep)] == [Join(b, sep)] && a + b == b;
    } else {
      assert (a + [Join(b, sep)])[1..] == a[1..] + [Join(b, sep)];
      assert (a + b)[1..] == a[1..] + b;
      JoinFlatten(a[1..], b, sep);
    }
  }

  /** A field free of the separator, then the separator, splits off first. */
  lemma SplitCons(a: string, sep: char, b: string)
    requires sep !in a
    ensures Split(a + [sep] + b, sep) == [a] + Split(b, sep)
  {
    var s := a + [sep] + b;
    IndexOfPrefix(a, sep, b);
    assert s[..|a|] == a && s[|a| + 1..] == b;
  }

  /** `s.TrimStart(c)`: the leading run of `c` removed. */
  function TrimStart(s: string, c: char): (r: string)
    ensures |r| <= |s| && r == s[|s| - |r|..]
    ensures forall k | 0 <= k < |s| - |r| :: s[k] == c
    ensures |r| > 0 ==> r[0] != c
    decreases |s|
  {
    if |s| > 0 && s[0] == c then TrimStart(s[1..], c) else s
  }

  /** `s.TrimEnd(c)`: the trailing run of `c` removed. */
  function TrimEnd(s: string, c: char): (r: string)
    ensures |r| <= |s| && r == s[..|r|]
    ensures forall k | |r| <= k < |s| :: s[k] == c
    ensures |r| > 0 ==> r[|r| - 1] != c
    decreases |s|
  {
    if |s| > 0 && s[|s| - 1] == c then TrimEnd(s[..|s| - 1], c) else s
  }

  /** `s.Trim(c)`: every leading and trailing `c` removed. */
  function Trim(s: string, c: char): string
  {
    TrimEnd(TrimStart(s, c), c)
  }

  /** The trimmed string `r` is the piece `s[i..i + |r|]` of the original,
      where `i` is where `TrimStart` stops (its contract says only `c` comes
      before), with only `c` after it, and it neither starts nor ends with `c`. */
  lemma {:induction false} TrimShape(s: string, c: char, r: string, i: nat)
    requires r == Trim(s, c) && i == |s| - |TrimStart(s, c)|
    ensures i + |r| <= |s| && s[i..i + |r|] == r
    ensures forall k | i + |r| <= k < |s| :: s[k] == c
    ensures |r| > 0 ==> r[0] != c && r[|r| - 1] != c
  {
    TrimEndShape(s, i, TrimStart(s, c), c);
  }

  /** Trimming the end of the suffix `t` of `s` from `i` on, where `t` does
      not start with `c`, leaves a piece of `s` with only `c` after it that
      neither starts nor ends with `c`. */
  lemma {:induction false} TrimEndShape(s: string, i: nat, t: string, c: char)
    requires i <= |s| && t == s[i..] && (|t| > 0 ==> t[0] != c)
    ensures var r := TrimEnd(t, c);
            && i + |r| <= |s| && s[i..i + |r|] == r
            && (forall k | i + |r| <= k < |s| :: s[k] == c)
            && (|r| > 0 ==> r[0] != c && r[|r| - 1] != c)
  {
    var r := TrimEnd(t, c);
    assert r == t[..|r|];
    assert s[i..][..|r|] == s[i..i + |r|];
    forall k | i + |r| <= k < |s|
      ensures s[k] == c
    {
      assert s[k] == t[k - i];
    }
    if |r| > 0 {
      assert r[0] == t[0];
    }
  }

  /** Trimming a string that neither starts nor ends with `c` changes nothing. */
  lemma TrimClean(s: string, c: char)
    requires |s| == 0 || (s[0] != c && s[|s| - 1] != c)
    ensures Trim(s, c) == s
  {
  }

  /** The decimal digit for 0 to 9. */
  function DigitChar(d: nat): (c: char)
    requires d < 10
    ensures '0' <= c <= '9'
  {
    (d + '0' as int) as char
  }

  predicate IsDigit(c: char)
  {
    '0' <= c <= '9'
  }

  /** The decimal digits of `n`, most significant first, without leading zeros. */
  function Digits(n: nat): (s: string)
    ensures |s| >= 1 && forall k | 0 <= k < |s| :: IsDigit(s[k])
    decreases n
  {
    if n < 10 then [DigitChar(n)] else Digits(n / 10) + [DigitChar(n % 10)]
  }

  /** `n.ToString()` in the invariant culture: a minus sign, then the digits. */
  function ToDecimal(n: int): string
  {
    if n < 0 then "-" + Digits(-n) else Digits(n)
  }

  /** The value of a string of decimal digits. */
  function DigitsValue(s: string): nat
    requires forall k | 0 <= k < |s| :: IsDigit(s[k])
  {
    if |s| == 0 then 0
    else
      assert IsDigit(s[|s| - 1]);
      DigitsValue(s[..|s| - 1]) * 10 + (s[|s| - 1] as int - '0' as int)
  }

  lemma {:induction false} DigitsRoundTrip(n: nat)
    ensures DigitsValue(Digits(n)) == n
    decreases n
  {
    if n >= 10 {
      var s := Digits(n);
      assert s[..|s| - 1] == Digits(n / 10);
      DigitsRoundTrip(n / 10);
    }
  }

  predicate AllDigits(s: string)
  {
    |s| >= 1 && forall k | 0 <= k < |s| :: IsDigit(s[k])
  }

  /** The white space `NumberStyles.Integer` admits around a number:
      U+0009 to U+000D and the space. */
  predicate IsNumberWhite(c: char)
  {
    c == ' ' || '\t' <= c <= '\r'
  }

  /** The NUL characters the parser allows after a number. */
  predicate IsNul(c: char)
  {
    c == '\0'
  }

  function TrimLeadingWhite(s: string): string
  {
    if |s| > 0 && IsNumberWhite(s[0]) then TrimLeadingWhite(s[1..]) else s
  }

  /** The text before its trailing white space. */
  function TrimTrailingWhite(s: string): string
  {
    if |s| > 0 && IsNumberWhite(s[|s| - 1]) then TrimTrailingWhite(s[..|s| - 1]) else s
  }

  /** The text before its trailing NUL characters. */
  function TrimTrailingNuls(s: string): string
  {
    if |s| > 0 && IsNul(s[|s| - 1]) then TrimTrailingNuls(s[..|s| - 1]) else s
  }

  /** The number inside the white space and trailing NUL characters the
      .NET integer parser skips: leading white space, then the number, then
      trailing white space, then NULs up to the end. */
  function NumberText(s: string): string
  {
    TrimLeadingWhite(TrimTrailingWhite(TrimTrailingNuls(s)))
  }

  /** A text with nothing for the parser to skip around it. */
  predicate Bare(s: string)
  {
    |s| > 0 && !IsNumberWhite(s[0]) && !IsNumberWhite(s[|s| - 1]) && !IsNul(s[|s| - 1])
  }

  /** A bare text is its own number text. */
  lemma NumberTextBare(s: string)
    requires Bare(s)
    ensures NumberText(s) == s
  {
  }

  /** The value of an optional sign followed by one or more decimal digits. */
  function SignedValue(t: string): Option<int>
  {
    if |t| >= 1 && (t[0] == '-' || t[0] == '+') then
      if AllDigits(t[1..]) then
        var v: int := DigitsValue(t[1..]);
        Some(if t[0] == '-' then -v else v)
      else None
    else if AllDigits(t) then Some(DigitsValue(t))
    else None
  }

  /** The value of an integer token as `T.Parse` reads it with the
      `NumberStyles.Integer` style and invariant signs: optional white
      space, an optional sign, one or more decimal digits, optional white
      space, then only NUL characters. */
  function TokenValue(s: string): Option<int>
  {
    if Bare(s) then SignedValue(s) else SignedValue(NumberText(s))
  }

  predicate AllWhite(s: string)
  {
    forall k | 0 <= k < |s| :: IsNumberWhite(s[k])
  }

  /** Leading white space is dropped up to the first other character. */
  lemma {:induction false} TrimLeadingPadded(a: string, t: string)
    requires AllWhite(a) && (|t| == 0 || !IsNumberWhite(t[0]))
    ensures TrimLeadingWhite(a + t) == t
    decreases |a|
  {
    if |a| > 0 {
      assert (a + t)[1..] == a[1..] + t;
      TrimLeadingPadded(a[1..], t);
    } else {
      assert a + t == t;
    }
  }

  /** Trailing white space is dropped back to the last other character. */
  lemma {:induction false} TrimTrailingPadded(t: string, b: string)
    requires AllWhite(b) && (|t| == 0 || !IsNumberWhite(t[|t| - 1]))
    ensures TrimTrailingWhite(t + b) == t
    decreases |b|
  {
    if |b| > 0 {
      assert (t + b)[..|t + b| - 1] == t + b[..|b| - 1];
      TrimTrailingPadded(t, b[..|b| - 1]);
    } else {
      assert t + b == t;
    }
  }

  /** A number framed by white space reads as the bare number: `T.Parse`
      accepts " 42\t" as it accepts "42". */
  lemma NumberTextPadded(a: string, t: string, b: string)
    requires AllWhite(a) && AllWhite(b) && |t| > 0
    requires !IsNumberWhite(t[0]) && !IsNumberWhite(t[|t| - 1]) && !IsNul(t[|t| - 1])
    ensures NumberText(a + t + b) == t
    ensures TokenValue(a + t + b) == TokenValue(t)
  {
    var s := a + t + b;
    assert !IsNul(s[|s| - 1]) by {
      assert s[|s| - 1] == (if |b| > 0 then b[|b| - 1] else t[|t| - 1]);
    }
    assert TrimTrailingNuls(s) == s;
    TrimTrailingPadded(a + t, b);
    TrimLeadingPadded(a, t);
    NumberTextBare(t);
  }

  /** `T.Parse(s)` for an integer type with range `lo .. hi`: null is an
      `ArgumentNullException`, a malformed token a `FormatException`, a
      value outside the range an `OverflowException`. */
  function ParseInteger(s: NString, lo: int, hi: int): (r: Result<int>)
    ensures r.Ok? ==> lo <= r.value <= hi
    ensures s.None? ==> r == Fail(ArgumentNull)
  {
    if s.None? then Fail(ArgumentNull)
    else match TokenValue(s.value)
      case None => Fail(Format)
      case Some(v) => if lo <= v <= hi then Ok(v) else Fail(Overflow)
  }

  /** `int.TryParse`: the value when `int.Parse` would succeed. */
  function TryParseInt32(s: NString): (r: Option<int>)
    ensures r.Some? <==> ParseInteger(s, -0x8000_0000, 0x7FFF_FFFF).Ok?
    ensures r.Some? ==> r.value == ParseInteger(s, -0x8000_0000, 0x7FFF_FFFF).value
  {
    match ParseInteger(s, -0x8000_0000, 0x7FFF_FFFF)
    case Ok(v) => Some(v)
    case Fail(_) => None
  }

  /** A printed integer is its own number text: it starts with a digit or
      a minus sign and ends with a digit. */
  lemma DecimalNumberText(n: int)
    ensures NumberText(ToDecimal(n)) == ToDecimal(n)
  {
    var d := ToDecimal(n);
    assert IsDigit(d[|d| - 1]);
    assert d[0] == '-' || IsDigit(d[0]);
    NumberTextBare(d);
  }

  /** Printing an integer in range and parsing it back gives the integer. */
  lemma DecimalRoundTrip(n: int, lo: int, hi: int)
    requires lo <= n <= hi
    ensures ParseInteger(Some(ToDecimal(n)), lo, hi) == Ok(n)
  {
    var d := ToDecimal(n);
    DecimalNumberText(n);
    if n < 0 {
      DigitsRoundTrip(-n);
      assert d[1..] == Digits(-n);
      assert AllDigits(d[1..]);
    } else {
      DigitsRoundTrip(n);
      assert AllDigits(d);
    }
  }

  /** A printed integer holds no character other than digits and '-'. */
  lemma DecimalCharacters(n: int)
    ensures forall k | 0 <= k < |ToDecimal(n)| :: IsDigit(ToDecimal(n)[k]) || ToDecimal(n)[k] == '-'
  {
  }

  predicate IsLineBreak(c: char)
  {
    c == '\r' || c == '\n'
  }

  /** The first line break, or -1. */
  function LineEnd(s: string): (i: int)
    ensures -1 <= i < |s|
    ensures i >= 0 ==> IsLineBreak(s[i]) && forall k | 0 <= k < i :: !IsLineBreak(s[k])
    ensures i == -1 ==> forall k | 0 <= k < |s| :: !IsLineBreak(s[k])
  {
    if |s| == 0 then -1
    else if IsLineBreak(s[0]) then 0
    else
      var j := LineEnd(s[1..]);
      if j < 0 then -1 else j + 1
  }

  /** The lines `StringReader.ReadLine` returns until it returns null: a
      line ends at "\r\n", "\r" or "\n", and a break at the very end opens
      no further line. */
  function Lines(s: string): seq<string>
    decreases |s|
  {
    if |s| == 0 then []
    else
      var i := LineEnd(s);
      if i < 0 then [s]
      else if s[i] == '\r' && i + 1 < |s| && s[i + 1] == '\n' then [s[..i]] + Lines(s[i + 2..])
      else [s[..i]] + Lines(s[i + 1..])
  }

  predicate NoLineBreak(s: string)
  {
    forall k | 0 <= k < |s| :: !IsLineBreak(s[k])
  }

  /** Each line followed by "\r\n", as `AddSdpLine` writes them. */
  function Terminated(lines: seq<string>): string
  {
    if |lines| == 0 then "" else lines[0] + "\r\n" + Terminated(lines[1..])
  }

  lemma LineEndAt(a: string, b: string)
    requires NoLineBreak(a) && |b| >= 1 && IsLineBreak(b[0])
    ensures LineEnd(a + b) == |a|
  {
    var s := a + b;
    var i := LineEnd(s);
    assert IsLineBreak(s[|a|]);
  }

  /** Reading back lines written with "\r\n" terminators gives the lines,
      provided none holds a line break of its own. */
  lemma {:induction false} ReadTerminated(lines: seq<string>)
    requires forall k | 0 <= k < |lines| :: NoLineBreak(lines[k])
    ensures Lines(Terminated(lines)) == lines
  {
    if |lines| > 0 {
      var rest := Terminated(lines[1..]);
      var s := lines[0] + "\r\n" + rest;
      assert s == lines[0] + ("\r\n" + rest);
      LineEndAt(lines[0], "\r\n" + rest);
      var i := |lines[0]|;
      assert s[i] == '\r' && s[i + 1] == '\n';
      assert s[..i] == lines[0] && s[i + 2..] == rest;
      ReadTerminated(lines[1..]);
    }
  }

  /** Terminated text of two runs of lines is the two texts in a row. */
  lemma {:induction false} TerminatedAppend(a: seq<string>, b: seq<string>)
    ensures Terminated(a + b) == Terminated(a) + Terminated(b)
  {
    if |a| > 0 {
      assert (a + b)[0] == a[0] && (a + b)[1..] == a[1..] + b;
      assert Terminated(a + b) == a[0] + "\r\n" + Terminated(a[1..] + b);
      TerminatedAppend(a[1..], b);
    } else {
      assert a + b == b;
    }
  }
}
