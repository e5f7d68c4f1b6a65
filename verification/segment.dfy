/**
 The segment extractor in front of the store: everything after the first `?`
 of the input, with any further leading `?` removed; the whole input when it
 has no `?`.
 */
module Segment {
  import opened Common

  /** Index of the first `c` in `s` (`str::find` for an ASCII character). */
  function Find(s: string, c: char): (r: Option<nat>)
    ensures r.None? <==> c !in s
    ensures r.Some? ==> r.value < |s| && s[r.value] == c && c !in s[..r.value]
  {
    if |s| == 0 then None
    else if s[0] == c then Some(0)
    else match Find(s[1..], c)
      case None => None
      case Some(i) =>
        assert s[..i + 1] == [s[0]] + s[1..][..i];
        Some(i + 1)
  }

  /** `s` with every leading `c` removed (`str::trim_start_matches`). */
  function TrimStart(s: string, c: char): (r: string)
    ensures |r| <= |s| && r == s[|s| - |r|..]
    ensures r == [] || r[0] != c
    ensures forall i :: 0 <= i < |s| - |r| ==> s[i] == c
    ensures |s| > 0 && s[0] == c ==> |r| < |s|
  {
    if |s| > 0 && s[0] == c then TrimStart(s[1..], c) else s
  }

  /**
   `r` is what follows the `?` at position `q` of `s`: `q` is the first `?`,
   every character from `q` up to `r` is a `?`, and `r` itself, a suffix of
   `s`, does not begin with `?`.
   */
  predicate AfterMarks(s: string, q: int, r: string)
  {
    && 0 <= q < |s| - |r|
    && '?' !in s[..q]
    && r == s[|s| - |r|..]
    && (r == [] || r[0] != '?')
    && (forall i :: q <= i < |s| - |r| ==> s[i] == '?')
  }

  /**
   The data segment of `s`. With no `?` it is `s` itself; otherwise it is
   what follows the first `?` and the `?`s right after it.
   */
  function ExtractUrlEncodedString(s: string): (r: string)
    ensures '?' !in s ==> r == s
    ensures '?' in s ==> exists q :: AfterMarks(s, q, r)
  {
    match Find(s, '?')
    case None => s
    case Some(idx) =>
      TrimmedAfterFirstMark(s, idx);
      TrimStart(s[idx..], '?')
  }

  lemma TrimmedAfterFirstMark(s: string, idx: nat)
    requires idx < |s| && s[idx] == '?' && '?' !in s[..idx]
    ensures AfterMarks(s, idx, TrimStart(s[idx..], '?'))
  {
    TrimmedSuffix(s, idx, '?');
  }

  /** Trimming `c` from the tail of `s` at a `c` leaves a shorter suffix, with only `c` cut. */
  lemma TrimmedSuffix(s: string, idx: nat, c: char)
    requires idx < |s| && s[idx] == c
    ensures var r := TrimStart(s[idx..], c);
      && idx < |s| - |r|
      && r == s[|s| - |r|..]
      && forall i :: idx <= i < |s| - |r| ==> s[i] == c
  {
    var t := s[idx..];
    var r := TrimStart(t, c);
    assert t[0] == c && |t| == |s| - idx;
    assert r == t[|t| - |r|..] == s[|s| - |r|..];
    forall i | idx <= i < |s| - |r| ensures s[i] == c {
      assert s[i] == t[i - idx];
    }
  }

  /**
   A prefix without `?`, one or more `?`, then a segment that does not start
   with `?`: the extractor returns exactly that segment, whatever the number
   of `?`s (so `https://abc.com/?` + qs and `https://abc.com/?????` + qs both
   give qs).
   */
  lemma {:induction false} ExtractAfterPrefix(prefix: string, marks: string, qs: string)
    requires '?' !in prefix
    requires |marks| >= 1 && forall i :: 0 <= i < |marks| ==> marks[i] == '?'
    requires qs == [] || qs[0] != '?'
    ensures ExtractUrlEncodedString(prefix + marks + qs) == qs
  {
    var s := prefix + marks + qs;
    var f := Find(s, '?');
    assert s[|prefix|] == '?';
    assert f.Some?;
    var idx := f.value;
    assert s[..|prefix|] == prefix;
    assert idx == |prefix|;
    assert s[idx..] == marks + qs;
    TrimMarks(marks, qs);
  }

  lemma {:induction false} TrimMarks(marks: string, qs: string)
    requires forall i :: 0 <= i < |marks| ==> marks[i] == '?'
    requires qs == [] || qs[0] != '?'
    ensures TrimStart(marks + qs, '?') == qs
  {
    if |marks| > 0 {
      assert (marks + qs)[1..] == marks[1..] + qs;
      TrimMarks(marks[1..], qs);
    } else {
      assert marks + qs == qs;
    }
  }
}
