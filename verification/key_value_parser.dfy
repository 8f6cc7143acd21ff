/** `KeyValueParser`: the `key="value"` lists of RTSP headers such as
    `WWW-Authenticate: Digest realm="...", nonce="..."`. The list is split
    at every separator, each field at its first '=', and the value loses
    its surrounding quotes. */
module KeyValueParser {
  import opened Text

  const Quote: char := '"'

  /** One key and its value, in the order of the header. */
  datatype Pair = Pair(key: string, value: string)

  /** `SplitPair`: the text before and after the first separator, or the
      whole field when there is none. */
  function SplitPair(pair: string, separator: char): (parts: seq<string>)
    ensures |parts| == 1 <==> separator !in pair
    ensures |parts| == 1 ==> parts[0] == pair
    ensures |parts| == 2 ==> separator !in parts[0] && parts[0] + [separator] + parts[1] == pair
    ensures 1 <= |parts| <= 2
  {
    var i := IndexOf(pair, separator);
    if i == -1 then [pair]
    else
      assert pair[..i] + [separator] + pair[i + 1..] == pair;
      [pair[..i], pair[i + 1..]]
  }

  /** One field: the key, and the value unquoted, or empty without '='. */
  function ParseField(field: string): Pair
  {
    var parts := SplitPair(field, '=');
    Pair(parts[0], if |parts| > 1 then Trim(parts[1], Quote) else "")
  }

  /** `ParsePairs`: one pair per field, empty fields included. */
  function ParsePairs(pairs: string, separator: char): (r: seq<Pair>)
    ensures |r| == Count(pairs, separator) + 1
    ensures forall k | 0 <= k < |r| :: '=' !in r[k].key && separator !in r[k].key
  {
    var fields := Split(pairs, separator);
    SplitCount(pairs, separator);
    seq(|fields|, k requires 0 <= k < |fields| => ParseField(fields[k]))
  }

  /** Each pair comes from the field in the same position: without '='
      the field is the key and the value is empty; otherwise the key and
      the raw value, joined by the first '=', are the field, and the value
      is the raw value without its leading and trailing quotes. */
  lemma ParsePairsFields(pairs: string, separator: char, k: nat)
    requires k < |ParsePairs(pairs, separator)|
    ensures var field := Split(pairs, separator)[k];
            var p := ParsePairs(pairs, separator)[k];
            && ('=' !in field ==> p == Pair(field, ""))
            && ('=' in field ==> exists raw :: p.key + "=" + raw == field && p.value == Trim(raw, Quote))
  {
    var field := Split(pairs, separator)[k];
    if '=' in field {
      var parts := SplitPair(field, '=');
      assert ParsePairs(pairs, separator)[k].key + "=" + parts[1] == field;
    }
  }

  /** A value that needs no unquoting: not starting or ending with '"'. */
  predicate CleanValue(v: string)
  {
    |v| == 0 || (v[0] != Quote && v[|v| - 1] != Quote)
  }

  /** A pair that survives printing: the key holds neither '=' nor the
      separator, the value no separator and no stray quote at its ends. */
  predicate Printable(p: Pair, separator: char)
  {
    '=' !in p.key && separator !in p.key && separator !in p.value && Quote != separator && '=' != separator
    && CleanValue(p.value)
  }

  /** The field `key="value"` a header carries. */
  function FormatField(p: Pair): string
  {
    p.key + "=" + [Quote] + p.value + [Quote]
  }

  /** The header list: the fields joined by the separator. */
  function FormatPairs(ps: seq<Pair>, separator: char): string
  {
    Join(seq(|ps|, k requires 0 <= k < |ps| => FormatField(ps[k])), [separator])
  }

  /** Quotes around a clean value are exactly what `Trim('"')` removes. */
  lemma TrimQuoted(v: string)
    requires CleanValue(v)
    ensures Trim([Quote] + v + [Quote], Quote) == v
  {
    var q := [Quote] + v + [Quote];
    assert q[1..] == v + [Quote];
    assert TrimStart(q, Quote) == TrimStart(v + [Quote], Quote);
    if |v| == 0 {
      assert TrimStart([Quote], Quote) == TrimStart([], Quote);
    } else {
      assert TrimStart(v + [Quote], Quote) == v + [Quote];
      assert (v + [Quote])[..|v|] == v;
    }
  }

  lemma ParseFormatField(p: Pair)
    requires '=' !in p.key
    requires CleanValue(p.value)
    ensures ParseField(FormatField(p)) == p
  {
    var rest := [Quote] + p.value + [Quote];
    assert FormatField(p) == p.key + ['='] + rest;
    IndexOfPrefix(p.key, '=', rest);
    assert FormatField(p)[|p.key| + 1..] == rest;
    TrimQuoted(p.value);
  }

  /** Printing a non-empty list of printable pairs and parsing it back
      gives the same pairs. */
  lemma ParseFormatPairs(ps: seq<Pair>, separator: char)
    requires |ps| >= 1
    requires forall k | 0 <= k < |ps| :: Printable(ps[k], separator)
    ensures ParsePairs(FormatPairs(ps, separator), separator) == ps
  {
    var fields := seq(|ps|, k requires 0 <= k < |ps| => FormatField(ps[k]));
    forall k | 0 <= k < |fields|
      ensures separator !in fields[k]
    {
      assert fields[k] == ps[k].key + "=" + [Quote] + ps[k].value + [Quote];
    }
    JoinSplit(fields, separator);
    forall k | 0 <= k < |ps|
      ensures ParseField(fields[k]) == ps[k]
    {
      ParseFormatField(ps[k]);
    }
  }
}
