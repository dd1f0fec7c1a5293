/** The string operations of Python that the worker script relies on:
    `str.split` with a one-character separator, `sep.join`, and
    `str.replace`. Strings are sequences of characters. */
module Text {
  import opened Wrappers

  /** Number of occurrences of `c` in `s`. */
  function Count(s: string, c: char): (n: nat)
    ensures n == 0 <==> c !in s
    ensures n <= |s|
  {
    if |s| == 0 then 0 else (if s[0] == c then 1 else 0) + Count(s[1..], c)
  }

  lemma {:induction false} CountConcat(a: string, b: string, c: char)
    ensures Count(a + b, c) == Count(a, c) + Count(b, c)
    decreases |a|
  {
    if |a| > 0 {
      assert (a + b)[1..] == a[1..] + b;
      CountConcat(a[1..], b, c);
    } else {
      assert a + b == b;
    }
  }

  /** Index of the first occurrence of `c` in `s`, if any. */
  function Find(s: string, c: char): (r: Option<nat>)
    ensures r.None? <==> c !in s
    ensures r.Some? ==> r.value < |s| && s[r.value] == c && c !in s[..r.value]
  {
    if |s| == 0 then None
    else if s[0] == c then Some(0)
    else match Find(s[1..], c)
      case None => None
      case Some(i) =>
        assert s[..i + 1] == [s[0]] + s[1..][..i];
        Some(i + 1)
  }

  /** `sep.join(parts)`. */
  function Join(parts: seq<string>, sep: char): (s: string)
    decreases |parts|
  {
    if |parts| == 0 then []
    else if |parts| == 1 then parts[0]
    else parts[0] + [sep] + Join(parts[1..], sep)
  }

  /** `s.split(sep)`: the separator-free fields of `s` in order. There is
      always at least one field, and one more field than separators. */
  function Split(s: string, sep: char): (parts: seq<string>)
    ensures |parts| == Count(s, sep) + 1
    ensures forall i :: 0 <= i < |parts| ==> sep !in parts[i]
    ensures forall i, ch :: 0 <= i < |parts| && ch in parts[i] ==> ch in s
    ensures Join(parts, sep) == s
    decreases |s|
  {
    match Find(s, sep)
    case None => [s]
    case Some(i) =>
      var rest := Split(s[i + 1..], sep);
      SplitStep(s, i, sep, rest);
      [s[..i]] + rest
  }

  /** One step of `Split`: the field before the first separator, followed by
      the fields of what comes after it. */
  lemma SplitStep(s: string, i: nat, sep: char, rest: seq<string>)
    requires i < |s| && s[i] == sep && sep !in s[..i]
    requires |rest| == Count(s[i + 1..], sep) + 1
    requires forall k :: 0 <= k < |rest| ==> sep !in rest[k]
    requires forall k, ch :: 0 <= k < |rest| && ch in rest[k] ==> ch in s[i + 1..]
    requires Join(rest, sep) == s[i + 1..]
    ensures var parts := [s[..i]] + rest;
      && |parts| == Count(s, sep) + 1
      && (forall k :: 0 <= k < |parts| ==> sep !in parts[k])
      && (forall k, ch :: 0 <= k < |parts| && ch in parts[k] ==> ch in s)
      && Join(parts, sep) == s
  {
    var parts := [s[..i]] + rest;
    assert s == s[..i] + ([sep] + s[i + 1..]);
    CountConcat(s[..i], [sep] + s[i + 1..], sep);
    assert Count(s[..i], sep) == 0;
    CountConcat([sep], s[i + 1..], sep);
    assert [sep][1..] == [];
    assert Count([sep], sep) == 1;
    assert parts[1..] == rest;
    SplitStepChars(s, i, rest);
  }

  lemma SplitStepChars(s: string, i: nat, rest: seq<string>)
    requires i < |s|
    requires forall k, ch :: 0 <= k < |rest| && ch in rest[k] ==> ch in s[i + 1..]
    ensures forall k, ch :: 0 <= k < |[s[..i]] + rest| && ch in ([s[..i]] + rest)[k] ==> ch in s
  {
    var parts := [s[..i]] + rest;
    forall k, ch | 0 <= k < |parts| && ch in parts[k]
      ensures ch in s
    {
      if k > 0 {
        assert parts[k] == rest[k - 1];
        assert ch in s[i + 1..];
      } else {
        assert ch in s[..i];
      }
    }
  }

  lemma FindAfterField(a: string, b: string, sep: char)
    requires sep !in a
    ensures Find(a + [sep] + b, sep) == Some(|a|)
  {
    var s := a + [sep] + b;
    assert s[..|a|] == a;
    assert s[|a|] == sep;
    assert forall j :: |a| < j <= |s| ==> s[..j][|a|] == sep;
  }

  /** Splitting a joined list of separator-free fields gives the fields back. */
  lemma {:induction false} SplitJoin(parts: seq<string>, sep: char)
    requires |parts| >= 1
    requires forall i :: 0 <= i < |parts| ==> sep !in parts[i]
    ensures Split(Join(parts, sep), sep) == parts
    decreases |parts|
  {
    if |parts| > 1 {
      var tail := Join(parts[1..], sep);
      var s := parts[0] + [sep] + tail;
      FindAfterField(parts[0], tail, sep);
      assert s[..|parts[0]|] == parts[0];
      assert s[|parts[0]| + 1..] == tail;
      SplitJoin(parts[1..], sep);
      assert parts == [parts[0]] + parts[1..];
    }
  }

  /** The last field of a join ends the joined string, preceded by the
      separator when there is more than one field. */
  lemma {:induction false} JoinLast(parts: seq<string>, sep: char)
    requires |parts| >= 1
    ensures var s := Join(parts, sep); var l := parts[|parts| - 1];
      |l| <= |s| && s[|s| - |l|..] == l && (|parts| > 1 ==> |l| < |s| && s[|s| - |l| - 1] == sep)
    decreases |parts|
  {
    if |parts| > 1 {
      JoinLast(parts[1..], sep);
      if |parts| > 2 {
        assert parts[1..][|parts[1..]| - 1] == parts[|parts| - 1];
      }
    }
  }

  /** `s.replace(pat, rep)`: every non-overlapping occurrence of `pat`,
      scanning from the left, is replaced by `rep`. */
  function ReplaceAll(s: string, pat: string, rep: string): (r: string)
    requires |pat| > 0
    ensures |rep| >= |pat| ==> |r| >= |s|
    ensures |rep| <= |pat| ==> |r| <= |s|
    decreases |s|
  {
    if |s| < |pat| then s
    else if s[..|pat|] == pat then rep + ReplaceAll(s[|pat|..], pat, rep)
    else [s[0]] + ReplaceAll(s[1..], pat, rep)
  }

  /** `pat` occurs somewhere in `s`. */
  ghost predicate Occurs(s: string, pat: string)
  {
    exists i :: 0 <= i && OccursAt(s, i, pat)
  }

  /** `pat` occurs in `s` starting at index `i`. */
  predicate OccursAt(s: string, i: nat, pat: string)
  {
    i + |pat| <= |s| && s[i..i + |pat|] == pat
  }

  /** The replacement leaves the string unchanged exactly when the pattern
      does not occur or is replaced by itself. */
  lemma {:induction false} ReplaceAllUnchanged(s: string, pat: string, rep: string)
    requires |pat| > 0
    ensures ReplaceAll(s, pat, rep) == s <==> rep == pat || !Occurs(s, pat)
    decreases |s|
  {
    if |s| < |pat| {
    } else if s[..|pat|] == pat {
      ReplaceAllUnchanged(s[|pat|..], pat, rep);
      UnchangedAtMatch(s, pat, rep);
    } else {
      ReplaceAllUnchanged(s[1..], pat, rep);
      UnchangedPastMismatch(s, pat, rep);
    }
  }

  lemma UnchangedAtMatch(s: string, pat: string, rep: string)
    requires 0 < |pat| <= |s| && s[..|pat|] == pat
    requires var rest := s[|pat|..];
      ReplaceAll(rest, pat, rep) == rest <==> rep == pat || !Occurs(rest, pat)
    ensures ReplaceAll(s, pat, rep) == s <==> rep == pat || !Occurs(s, pat)
  {
    var rest := s[|pat|..];
    assert s == pat + rest;
    assert OccursAt(s, 0, pat);
    assert ReplaceAll(s, pat, rep) == rep + ReplaceAll(rest, pat, rep);
    if rep != pat && |rep| == |pat| {
      assert ReplaceAll(s, pat, rep)[..|pat|] == rep;
    }
  }

  lemma UnchangedPastMismatch(s: string, pat: string, rep: string)
    requires 0 < |pat| <= |s| && s[..|pat|] != pat
    requires ReplaceAll(s[1..], pat, rep) == s[1..] <==> rep == pat || !Occurs(s[1..], pat)
    ensures ReplaceAll(s, pat, rep) == s <==> rep == pat || !Occurs(s, pat)
  {
    assert s == [s[0]] + s[1..];
    if Occurs(s, pat) {
      var i :| 0 <= i && OccursAt(s, i, pat);
      assert s[0..|pat|] == s[..|pat|];
      assert i != 0;
      assert s[1..][i - 1..i - 1 + |pat|] == pat;
      assert OccursAt(s[1..], i - 1, pat);
    }
    if Occurs(s[1..], pat) {
      var i :| 0 <= i && OccursAt(s[1..], i, pat);
      assert s[i + 1..i + 1 + |pat|] == pat;
      assert OccursAt(s, i + 1, pat);
    }
  }

  /** A prefix free of the pattern's first character passes through the
      replacement untouched. */
  lemma {:induction false} ReplaceAllSkips(a: string, t: string, pat: string, rep: string)
    requires |pat| > 0 && pat[0] !in a
    ensures ReplaceAll(a + t, pat, rep) == a + ReplaceAll(t, pat, rep)
    decreases |a|
  {
    if |a| > 0 {
      assert (a + t)[1..] == a[1..] + t;
      ReplaceAllSkips(a[1..], t, pat, rep);
      if |a + t| >= |pat| {
        assert (a + t)[..|pat|][0] == a[0];
      }
      assert a == [a[0]] + a[1..];
    } else {
      assert a + t == t;
    }
  }

  /** A leading occurrence of the pattern is replaced and the scan goes on
      after it. */
  lemma ReplaceAllHead(t: string, pat: string, rep: string)
    requires |pat| > 0
    ensures ReplaceAll(pat + t, pat, rep) == rep + ReplaceAll(t, pat, rep)
  {
    assert (pat + t)[..|pat|] == pat;
    assert (pat + t)[|pat|..] == t;
  }

  lemma JoinFour(a: string, b: string, c: string, d: string, sep: char)
    ensures Join([a, b, c, d], sep) == a + [sep] + b + [sep] + c + [sep] + d
  {
    var parts := [a, b, c, d];
    assert parts[1..] == [b, c, d];
    assert parts[1..][1..] == [c, d];
    assert parts[1..][1..][1..] == [d];
    assert Join([c, d], sep) == c + [sep] + d;
    assert Join([b, c, d], sep) == b + [sep] + (c + [sep] + d);
    assert Join(parts, sep) == a + [sep] + (b + [sep] + (c + [sep] + d));
  }

  lemma JoinFive(a: string, b: string, c: string, d: string, e: string, sep: char)
    ensures Join([a, b, c, d, e], sep) == a + [sep] + b + [sep] + c + [sep] + d + [sep] + e
  {
    var parts := [a, b, c, d, e];
    assert parts[1..] == [b, c, d, e];
    JoinFour(b, c, d, e, sep);
    assert Join(parts, sep) == a + [sep] + (b + [sep] + c + [sep] + d + [sep] + e);
  }
}
