/**
 The byte-sequence split of `application/x-www-form-urlencoded` parsing
 (section 5.1 of the WHATWG URL Standard): the input is cut at every `&`,
 empty pieces are skipped, and each remaining piece is cut at its first `=`
 into a name and a value (an absent `=` gives an empty value). Percent- and
 `+`-decoding of each half is the parameter `decode`.
 */
module FormUrlencoded {
  import opened Common
  import Segment

  /** The pieces of `s` between occurrences of `sep`, in order; pieces may be empty. */
  function Split(s: string, sep: char): (r: seq<string>)
    ensures |r| >= 1
    ensures forall i :: 0 <= i < |r| ==> sep !in r[i]
    decreases |s|
  {
    match Segment.Find(s, sep)
    case None => [s]
    case Some(i) => [s[..i]] + Split(s[i + 1..], sep)
  }

  /** The pieces glued back together with `sep` between neighbours. */
  function Join(parts: seq<string>, sep: char): string
    requires |parts| >= 1
  {
    if |parts| == 1 then parts[0] else parts[0] + [sep] + Join(parts[1..], sep)
  }

  /** Splitting loses nothing: joining the pieces gives the input back. */
  lemma {:induction false} JoinSplit(s: string, sep: char)
    ensures Join(Split(s, sep), sep) == s
    decreases |s|
  {
    match Segment.Find(s, sep)
    case None =>
    case Some(i) =>
      var tail := Split(s[i + 1..], sep);
      var r := [s[..i]] + tail;
      assert Split(s, sep) == r;
      assert r[1..] == tail;
      assert Join(r, sep) == s[..i] + [sep] + Join(tail, sep);
      JoinSplit(s[i + 1..], sep);
      assert s == s[..i] + [sep] + s[i + 1..];
  }

  lemma FindAfterPiece(a: string, sep: char, b: string)
    requires sep !in a
    ensures Segment.Find(a + [sep] + b, sep) == Some(|a|)
  {
    var s := a + [sep] + b;
    assert s[|a|] == sep;
    assert s[..|a|] == a;
  }

  /** Joining pieces free of `sep` and splitting again gives the same pieces. */
  lemma {:induction false} SplitJoin(parts: seq<string>, sep: char)
    requires |parts| >= 1
    requires forall i :: 0 <= i < |parts| ==> sep !in parts[i]
    ensures Split(Join(parts, sep), sep) == parts
  {
    if |parts| > 1 {
      var rest := Join(parts[1..], sep);
      var s := parts[0] + [sep] + rest;
      FindAfterPiece(parts[0], sep, rest);
      assert s[..|parts[0]|] == parts[0];
      assert s[|parts[0]| + 1..] == rest;
      SplitJoin(parts[1..], sep);
      assert parts == [parts[0]] + parts[1..];
    }
  }

  /** An entry cut at its first `=`; with no `=` the value is empty. */
  function SplitNameValue(entry: string): (r: Pair)
    ensures '=' !in r.0
    ensures '=' in entry ==> r.0 + "=" + r.1 == entry
    ensures '=' !in entry ==> r == (entry, "")
  {
    match Segment.Find(entry, '=')
    case None => (entry, "")
    case Some(i) =>
      assert entry == entry[..i] + "=" + entry[i + 1..];
      (entry[..i], entry[i + 1..])
  }

  /** The decoded pair of one non-empty entry; an entry without `=` is all name. */
  function DecodeEntry(entry: string, decode: string -> string): (r: Pair)
    ensures '=' !in entry ==> r == (decode(entry), decode(""))
  {
    var (name, value) := SplitNameValue(entry);
    (decode(name), decode(value))
  }

  /**
   The pairs of a list of entries: one per non-empty entry, in order; empty
   entries produce nothing.
   */
  function ParseEntries(entries: seq<string>, decode: string -> string): (r: seq<Pair>)
    ensures |r| <= |entries|
    ensures (forall j :: 0 <= j < |entries| ==> entries[j] == []) ==> r == []
    ensures (forall j :: 0 <= j < |entries| ==> entries[j] != []) ==>
      && |r| == |entries|
      && forall i :: 0 <= i < |r| ==> r[i] == DecodeEntry(entries[i], decode)
  {
    if |entries| == 0 then []
    else
      var head := if entries[0] == [] then [] else [DecodeEntry(entries[0], decode)];
      head + ParseEntries(entries[1..], decode)
  }

  /**
   An entry `name=value` whose name has no `=` decodes to the decoded name and
   the decoded value; any further `=` belongs to the value.
   */
  lemma DecodeNameValue(name: string, value: string, decode: string -> string)
    requires '=' !in name
    ensures DecodeEntry(name + "=" + value, decode) == (decode(name), decode(value))
  {
    var e := name + "=" + value;
    FindAfterPiece(name, '=', value);
    assert e[..|name|] == name && e[|name| + 1..] == value;
  }

  /**
   `form_urlencoded::parse`: the decoded pairs of `input`, in input order. The
   empty input gives no pair; an input without `&` is one entry.
   */
  function Parse(input: string, decode: string -> string): (r: seq<Pair>)
    ensures input == [] ==> r == []
    ensures '&' !in input && input != [] ==> r == [DecodeEntry(input, decode)]
  {
    ParseEntries(Split(input, '&'), decode)
  }

  /**
   A query built by joining non-empty, `&`-free entries parses to exactly one
   pair per entry, in the same order.
   */
  lemma ParseJoined(entries: seq<string>, decode: string -> string)
    requires |entries| >= 1
    requires forall i :: 0 <= i < |entries| ==> entries[i] != [] && '&' !in entries[i]
    ensures |Parse(Join(entries, '&'), decode)| == |entries|
    ensures forall i :: 0 <= i < |entries| ==>
      Parse(Join(entries, '&'), decode)[i] == DecodeEntry(entries[i], decode)
  {
    SplitJoin(entries, '&');
  }

  /** The same, as an equation with the expected pairs. */
  lemma ParseJoinedIs(entries: seq<string>, decode: string -> string, expected: seq<Pair>)
    requires |entries| >= 1 && |expected| == |entries|
    requires forall i :: 0 <= i < |entries| ==> entries[i] != [] && '&' !in entries[i]
    requires forall i :: 0 <= i < |entries| ==> DecodeEntry(entries[i], decode) == expected[i]
    ensures Parse(Join(entries, '&'), decode) == expected
  {
    ParseJoined(entries, decode);
  }

  /** Empty pieces, such as those around `&&`, contribute no pair. */
  lemma {:induction false} EmptyPiecesSkipped(a: seq<string>, b: seq<string>, decode: string -> string)
    ensures ParseEntries(a + [""] + b, decode) == ParseEntries(a + b, decode)
  {
    var whole := a + [""] + b;
    if |a| == 0 {
      assert whole == [""] + b;
      assert whole[1..] == b;
      assert ParseEntries(whole, decode) == [] + ParseEntries(b, decode);
      assert a + b == b;
    } else {
      EmptyPiecesSkipped(a[1..], b, decode);
      assert whole[0] == a[0] && (a + b)[0] == a[0];
      assert whole[1..] == a[1..] + [""] + b;
      assert (a + b)[1..] == a[1..] + b;
    }
  }
}
