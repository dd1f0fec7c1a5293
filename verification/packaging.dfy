/** Execution packaging: merging secondary input files, resolving logical
    file names to what the payload will open, parsing the
    `stream:file,stream:file` option, and substituting the input
    placeholders into the job parameters. */
module Packaging {
  import opened Wrappers
  import opened Text

  /** The `inMap` option: stream token to the files of that stream, in the
      dictionary's iteration order. */
  type InMap = seq<(string, seq<string>)>

  /** All files `inMap` names, stream by stream. */
  function MapFiles(inMap: InMap): (files: seq<string>)
    ensures forall x :: x in files <==> exists k :: 0 <= k < |inMap| && x in inMap[k].1
  {
    if |inMap| == 0 then []
    else
      var rest := MapFiles(inMap[1..]);
      assert forall k :: 1 <= k < |inMap| ==> inMap[k] == inMap[1..][k - 1];
      inMap[0].1 + rest
  }

  /** Appends each file of `files` that is not yet in the list, in order. */
  function AppendMissing(acc: seq<string>, files: seq<string>): (r: seq<string>)
    ensures |acc| <= |r| && r[..|acc|] == acc
    ensures forall x :: x in r <==> x in acc || x in files
    ensures forall i :: |acc| <= i < |r| ==> r[i] !in acc
    ensures forall i, j :: |acc| <= i < j < |r| ==> r[i] != r[j]
    decreases |files|
  {
    if |files| == 0 then acc
    else
      var next := if files[0] in acc then acc else acc + [files[0]];
      var r := AppendMissing(next, files[1..]);
      assert r[..|next|][..|acc|] == acc;
      assert files == [files[0]] + files[1..];
      r
  }

  /** The secondary files of `inMap` added to the input list: the original
      inputs keep their place and order, each missing file is appended once,
      and nothing else is added. */
  function MergeSecondary(inputs: seq<string>, inMap: InMap): (r: seq<string>)
    ensures |inputs| <= |r| && r[..|inputs|] == inputs
    ensures forall x :: x in r <==> x in inputs || exists k :: 0 <= k < |inMap| && x in inMap[k].1
    ensures forall i :: |inputs| <= i < |r| ==> r[i] !in inputs
    ensures forall i, j :: |inputs| <= i < j < |r| ==> r[i] != r[j]
  {
    AppendMissing(inputs, MapFiles(inMap))
  }

  lemma {:induction false} AppendMissingPresent(acc: seq<string>, files: seq<string>)
    requires forall x :: x in files ==> x in acc
    ensures AppendMissing(acc, files) == acc
    decreases |files|
  {
    if |files| > 0 {
      AppendMissingPresent(acc, files[1..]);
    }
  }

  /** Merging a second time adds nothing. */
  lemma MergeIdempotent(inputs: seq<string>, inMap: InMap)
    ensures MergeSecondary(MergeSecondary(inputs, inMap), inMap) == MergeSecondary(inputs, inMap)
  {
    AppendMissingPresent(MergeSecondary(inputs, inMap), MapFiles(inMap));
  }

  /** One `File` entry of the pool file catalog: its GUID and physical name. */
  datatype CatalogEntry = CatalogEntry(guid: string, pfn: string)

  /** The logical file name of a physical name: `pfn.split('/')[-1]`. */
  function LastSegment(path: string): (name: string)
    ensures '/' !in name
    ensures |name| <= |path| && path[|path| - |name|..] == name
    ensures |name| < |path| ==> path[|path| - |name| - 1] == '/'
  {
    var parts := Split(path, '/');
    JoinLast(parts, '/');
    parts[|parts| - 1]
  }

  /** The logical name of `dir/name` is `name`. */
  lemma LastSegmentOfPath(dir: string, name: string)
    requires '/' !in name
    ensures LastSegment(dir + "/" + name) == name
  {
    var path := dir + "/" + name;
    assert path[|path| - |name|..] == name;
    assert path[|path| - |name| - 1] == '/';
  }

  /** The LFN-to-PFN table built from the catalog: each physical name is
      filed under its last path segment, and a later entry replaces an
      earlier one with the same logical name. */
  function PfnByLfn(catalog: seq<CatalogEntry>): (m: map<string, string>)
    ensures forall lfn :: lfn in m ==> LastSegment(m[lfn]) == lfn
    ensures forall k :: 0 <= k < |catalog| ==> LastSegment(catalog[k].pfn) in m
    ensures forall lfn :: lfn in m ==> m[lfn] in Pfns(catalog)
    ensures forall k :: 0 <= k < |catalog| && LastEntryFor(catalog, k) ==>
      m[LastSegment(catalog[k].pfn)] == catalog[k].pfn
    decreases |catalog|
  {
    if |catalog| == 0 then map[]
    else
      var n := |catalog| - 1;
      var m := PfnByLfn(catalog[..n]);
      EveryEntryFiled(catalog, m);
      LaterEntryWins(catalog, m);
      m[LastSegment(catalog[n].pfn) := catalog[n].pfn]
  }

  /** The physical names of the catalog, in catalog order. */
  function Pfns(catalog: seq<CatalogEntry>): (pfns: seq<string>)
    ensures |pfns| == |catalog|
    ensures forall k :: 0 <= k < |catalog| ==> pfns[k] == catalog[k].pfn
    decreases |catalog|
  {
    if |catalog| == 0 then []
    else Pfns(catalog[..|catalog| - 1]) + [catalog[|catalog| - 1].pfn]
  }

  lemma EveryEntryFiled(catalog: seq<CatalogEntry>, m: map<string, string>)
    requires |catalog| > 0
    requires var prefix := catalog[..|catalog| - 1];
      forall k :: 0 <= k < |prefix| ==> LastSegment(prefix[k].pfn) in m
    ensures forall k :: 0 <= k < |catalog| - 1 ==> LastSegment(catalog[k].pfn) in m
    ensures var n := |catalog| - 1; var m' := m[LastSegment(catalog[n].pfn) := catalog[n].pfn];
      forall k :: 0 <= k < |catalog| ==> LastSegment(catalog[k].pfn) in m'
  {
    var prefix := catalog[..|catalog| - 1];
    assert forall k :: 0 <= k < |prefix| ==> prefix[k] == catalog[k];
  }

  lemma LaterEntryWins(catalog: seq<CatalogEntry>, m: map<string, string>)
    requires |catalog| > 0
    requires forall k :: 0 <= k < |catalog| - 1 ==> LastSegment(catalog[k].pfn) in m
    requires var prefix := catalog[..|catalog| - 1];
      forall k :: 0 <= k < |prefix| && LastEntryFor(prefix, k) ==> m[LastSegment(prefix[k].pfn)] == prefix[k].pfn
    ensures var n := |catalog| - 1; var m' := m[LastSegment(catalog[n].pfn) := catalog[n].pfn];
      forall k :: 0 <= k < |catalog| && LastEntryFor(catalog, k) ==> m'[LastSegment(catalog[k].pfn)] == catalog[k].pfn
  {
    var n := |catalog| - 1;
    var prefix := catalog[..n];
    var key := LastSegment(catalog[n].pfn);
    var m' := m[key := catalog[n].pfn];
    forall k | 0 <= k < |catalog| && LastEntryFor(catalog, k)
      ensures m'[LastSegment(catalog[k].pfn)] == catalog[k].pfn
    {
      if k < n {
        LastEntryInPrefix(catalog, k);
        assert prefix[k] == catalog[k];
      }
    }
  }

  /** An entry no later entry overrides is also the last of its name in
      the catalog without its final entry, and has a different name from
      that final entry. */
  lemma LastEntryInPrefix(catalog: seq<CatalogEntry>, k: nat)
    requires k < |catalog| - 1 && LastEntryFor(catalog, k)
    ensures LastEntryFor(catalog[..|catalog| - 1], k)
    ensures LastSegment(catalog[k].pfn) != LastSegment(catalog[|catalog| - 1].pfn)
  {
    var prefix := catalog[..|catalog| - 1];
    forall j | k < j < |prefix|
      ensures LastSegment(prefix[j].pfn) != LastSegment(prefix[k].pfn)
    {
      assert prefix[j] == catalog[j] && prefix[k] == catalog[k];
    }
  }

  /** No later catalog entry has the same logical name as entry `k`. */
  predicate LastEntryFor(catalog: seq<CatalogEntry>, k: nat)
    requires k < |catalog|
  {
    forall j :: k < j < |catalog| ==> LastSegment(catalog[j].pfn) != LastSegment(catalog[k].pfn)
  }

  /** Where the payload finds one input: its PFN from the catalog table in
      direct-access mode, otherwise the name itself when the file is in the
      run directory. */
  function Locate(name: string, directIn: bool, pfns: map<string, string>, present: set<string>): Option<string>
  {
    if directIn then (if name in pfns then Some(pfns[name]) else None)
    else if name in present then Some(name)
    else None
  }

  /** The inputs the payload can open, in the order they were requested;
      names that cannot be found are dropped. */
  function ResolveInputs(inputs: seq<string>, directIn: bool, pfns: map<string, string>, present: set<string>): (r: seq<string>)
    ensures |r| <= |inputs|
    ensures !directIn ==> forall x :: x in r <==> x in inputs && x in present
    ensures directIn ==> forall y :: y in r <==> exists x :: x in inputs && x in pfns && pfns[x] == y
    decreases |inputs|
  {
    if |inputs| == 0 then []
    else
      var rest := ResolveInputs(inputs[1..], directIn, pfns, present);
      assert inputs == [inputs[0]] + inputs[1..];
      match Locate(inputs[0], directIn, pfns, present)
      case Some(p) => [p] + rest
      case None => rest
  }

  /** Resolution works name by name: resolving a concatenation concatenates
      the results, so order is preserved. */
  lemma {:induction false} ResolveInputsConcat(a: seq<string>, b: seq<string>, directIn: bool, pfns: map<string, string>, present: set<string>)
    ensures ResolveInputs(a + b, directIn, pfns, present)
      == ResolveInputs(a, directIn, pfns, present) + ResolveInputs(b, directIn, pfns, present)
    decreases |a|
  {
    if |a| == 0 {
      assert a + b == b;
    } else {
      assert (a + b)[1..] == a[1..] + b;
      ResolveInputsConcat(a[1..], b, directIn, pfns, present);
    }
  }

  /** In direct-access mode every resolved entry is a physical name whose
      logical name was requested. */
  lemma DirectInputsAreRequested(inputs: seq<string>, catalog: seq<CatalogEntry>, present: set<string>)
    ensures forall y :: y in ResolveInputs(inputs, true, PfnByLfn(catalog), present) ==> LastSegment(y) in inputs
  {
  }

  /** Linking the inputs found in the starting directory into the fresh run
      directory, one `os.symlink` per name in request order. `made` holds
      the links made so far; linking a name a second time finds its link
      already there, and the call raises. */
  function Symlinks(names: seq<string>, present: set<string>, made: set<string>): (r: Option<set<string>>)
    ensures r.Some? ==> forall n :: n in r.value <==> n in made || (n in names && n in present)
    decreases |names|
  {
    if |names| == 0 then Some(made)
    else
      assert forall n :: n in names <==> n == names[0] || n in names[1..];
      if names[0] !in present then Symlinks(names[1..], present, made)
      else if names[0] in made then None
      else Symlinks(names[1..], present, made + {names[0]})
  }

  /** A name that is in the starting directory is requested twice. */
  predicate Repeated(names: seq<string>, present: set<string>)
  {
    exists i, j :: 0 <= i < j < |names| && names[i] == names[j] && names[i] in present
  }

  /** A found name that already has its link. */
  predicate Relinked(names: seq<string>, present: set<string>, made: set<string>)
  {
    exists i :: 0 <= i < |names| && names[i] in present && names[i] in made
  }

  /** Linking fails exactly when some found name is linked twice: requested
      twice, or already linked. */
  lemma {:induction false} SymlinksFail(names: seq<string>, present: set<string>, made: set<string>)
    ensures Symlinks(names, present, made).None? <==> Repeated(names, present) || Relinked(names, present, made)
    decreases |names|
  {
    if |names| > 0 {
      var n := names[0];
      var tail := names[1..];
      if n !in present {
        SymlinksFail(tail, present, made);
        ShiftAbsent(names, present, made);
      } else if n in made {
        assert Relinked(names, present, made);
      } else {
        SymlinksFail(tail, present, made + {n});
        ShiftLinked(names, present, made);
      }
    }
  }

  /** A name not in the starting directory adds no link. */
  lemma ShiftAbsent(names: seq<string>, present: set<string>, made: set<string>)
    requires |names| > 0 && names[0] !in present
    ensures Repeated(names, present) <==> Repeated(names[1..], present)
    ensures Relinked(names, present, made) <==> Relinked(names[1..], present, made)
  {
    var tail := names[1..];
    if Repeated(names, present) {
      var i, j :| 0 <= i < j < |names| && names[i] == names[j] && names[i] in present;
      assert tail[i - 1] == names[i] && tail[j - 1] == names[j];
    }
    if Repeated(tail, present) {
      var i, j :| 0 <= i < j < |tail| && tail[i] == tail[j] && tail[i] in present;
      assert names[i + 1] == tail[i] && names[j + 1] == tail[j];
    }
    if Relinked(names, present, made) {
      var i :| 0 <= i < |names| && names[i] in present && names[i] in made;
      assert tail[i - 1] == names[i];
    }
    if Relinked(tail, present, made) {
      var i :| 0 <= i < |tail| && tail[i] in present && tail[i] in made;
      assert names[i + 1] == tail[i];
    }
  }

  /** Linking a new found name: a later request for it fails. */
  lemma ShiftLinked(names: seq<string>, present: set<string>, made: set<string>)
    requires |names| > 0 && names[0] in present && names[0] !in made
    ensures Repeated(names, present) || Relinked(names, present, made)
      <==> Repeated(names[1..], present) || Relinked(names[1..], present, made + {names[0]})
  {
    var n := names[0];
    var tail := names[1..];
    if Repeated(names, present) {
      var i, j :| 0 <= i < j < |names| && names[i] == names[j] && names[i] in present;
      if i == 0 {
        assert tail[j - 1] == n;
        assert Relinked(tail, present, made + {n});
      } else {
        assert tail[i - 1] == names[i] && tail[j - 1] == names[j];
      }
    }
    if Relinked(names, present, made) {
      var i :| 0 <= i < |names| && names[i] in present && names[i] in made;
      assert tail[i - 1] == names[i];
    }
    if Repeated(tail, present) {
      var i, j :| 0 <= i < j < |tail| && tail[i] == tail[j] && tail[i] in present;
      assert names[i + 1] == tail[i] && names[j + 1] == tail[j];
    }
    if Relinked(tail, present, made + {n}) {
      var i :| 0 <= i < |tail| && tail[i] in present && tail[i] in made + {n};
      assert names[i + 1] == tail[i];
      if tail[i] == n {
        assert Repeated(names, present);
      }
    }
  }

  /** Linking into the fresh run directory fails exactly when a name in
      the starting directory is requested twice. */
  lemma LinkingFailsOnRepeat(names: seq<string>, present: set<string>)
    ensures Symlinks(names, present, {}).None? <==> Repeated(names, present)
  {
    SymlinksFail(names, present, {});
  }

  /** The `writeInputToTxt` option `stream:file,stream:file`: items that do
      not split into exactly two `:` fields are ignored, and a later item
      replaces an earlier one for the same stream. */
  function ParseStreamFiles(option: string): (m: map<string, string>)
    ensures forall k :: k in m ==> ',' !in k && ':' !in k && ',' !in m[k] && ':' !in m[k]
  {
    if option == "" then map[] else CollectStreams(Split(option, ','))
  }

  function CollectStreams(items: seq<string>): (m: map<string, string>)
    requires forall i :: 0 <= i < |items| ==> ',' !in items[i]
    ensures forall k :: k in m ==> ',' !in k && ':' !in k && ',' !in m[k] && ':' !in m[k]
    decreases |items|
  {
    if |items| == 0 then map[]
    else
      var n := |items| - 1;
      var m := CollectStreams(items[..n]);
      var fields := Split(items[n], ':');
      if |fields| == 2 then m[fields[0] := fields[1]] else m
  }

  /** The option text that lists the given `(stream, file)` pairs. */
  function StreamItems(pairs: seq<(string, string)>): (items: seq<string>)
    ensures |items| == |pairs|
  {
    seq(|pairs|, i requires 0 <= i < |pairs| => pairs[i].0 + ":" + pairs[i].1)
  }

  /** The stream table the pairs describe, a later pair winning. */
  function PairsToMap(pairs: seq<(string, string)>): map<string, string>
  {
    if |pairs| == 0 then map[]
    else
      var n := |pairs| - 1;
      PairsToMap(pairs[..n])[pairs[n].0 := pairs[n].1]
  }

  predicate CleanPair(p: (string, string))
  {
    ',' !in p.0 && ':' !in p.0 && ',' !in p.1 && ':' !in p.1
  }

  /** An item `stream:file` with no stray separators splits into its two
      parts. */
  lemma ItemFields(p: (string, string))
    requires CleanPair(p)
    ensures Split(p.0 + ":" + p.1, ':') == [p.0, p.1]
  {
    var fields := [p.0, p.1];
    assert fields[1..] == [p.1];
    assert Join(fields, ':') == p.0 + ":" + p.1;
    SplitJoin(fields, ':');
  }

  lemma {:induction false} CollectStreamItems(pairs: seq<(string, string)>)
    requires forall i :: 0 <= i < |pairs| ==> CleanPair(pairs[i])
    ensures forall i :: 0 <= i < |pairs| ==> ',' !in StreamItems(pairs)[i]
    ensures CollectStreams(StreamItems(pairs)) == PairsToMap(pairs)
    decreases |pairs|
  {
    StreamItemsClean(pairs);
    if |pairs| > 0 {
      var n := |pairs| - 1;
      var items := StreamItems(pairs);
      StreamItemsPrefix(pairs);
      CollectStreamItems(pairs[..n]);
      ItemFields(pairs[n]);
      CollectStreamsLast(items, pairs[n].0, pairs[n].1);
      assert PairsToMap(pairs) == PairsToMap(pairs[..n])[pairs[n].0 := pairs[n].1];
    }
  }

  lemma StreamItemsPrefix(pairs: seq<(string, string)>)
    requires |pairs| > 0
    ensures var n := |pairs| - 1;
      StreamItems(pairs)[..n] == StreamItems(pairs[..n])
      && StreamItems(pairs)[n] == pairs[n].0 + ":" + pairs[n].1
  {
  }

  /** A last item that splits into two fields files its second field under
      its first. */
  lemma CollectStreamsLast(items: seq<string>, stream: string, file: string)
    requires |items| > 0 && forall i :: 0 <= i < |items| ==> ',' !in items[i]
    requires Split(items[|items| - 1], ':') == [stream, file]
    ensures CollectStreams(items) == CollectStreams(items[..|items| - 1])[stream := file]
  {
  }

  lemma StreamItemsClean(pairs: seq<(string, string)>)
    requires forall i :: 0 <= i < |pairs| ==> CleanPair(pairs[i])
    ensures forall i :: 0 <= i < |pairs| ==> ',' !in StreamItems(pairs)[i]
  {
    var items := StreamItems(pairs);
    forall i | 0 <= i < |pairs|
      ensures ',' !in items[i]
    {
      assert items[i] == pairs[i].0 + ":" + pairs[i].1;
    }
  }

  /** Writing the stream table as `stream:file,…` and parsing it back gives
      the same table. */
  lemma StreamFilesRoundTrip(pairs: seq<(string, string)>)
    requires forall i :: 0 <= i < |pairs| ==> CleanPair(pairs[i])
    ensures ParseStreamFiles(Join(StreamItems(pairs), ',')) == PairsToMap(pairs)
  {
    var items := StreamItems(pairs);
    CollectStreamItems(pairs);
    if |pairs| > 0 {
      SplitJoin(items, ',');
      assert |items[0]| > 0;
      JoinLast(items, ',');
    }
  }

  /** Length of what the group `(?P<sname> |$|"|')` matches at the start
      of `rest`: one delimiter character, or nothing at the end of the
      string or just before a final newline (where `$` also matches). */
  function DelimiterAfter(rest: string): Option<nat>
  {
    if |rest| == 0 then Some(0)
    else if rest[0] == ' ' then Some(1)
    else if rest == "\n" then Some(0)
    else if rest[0] == '"' || rest[0] == '\'' then Some(1)
    else None
  }

  /** `%TOKEN` placeholders are matched only before one of these. */
  predicate IsBoundary(c: char)
  {
    c == ' ' || c == '"' || c == '\'' || c == '\n'
  }

  /** A word with no character a placeholder match could stop at. */
  predicate Plain(w: string)
  {
    forall c :: c in w ==> !IsBoundary(c)
  }

  /** A placeholder `pat` that `re.sub` replaces at index `i` of `s`. */
  predicate PlaceholderAt(s: string, i: nat, pat: string)
  {
    OccursAt(s, i, pat) && DelimiterAfter(s[i + |pat|..]).Some?
  }

  /** `re.sub('%TOKEN(?P<sname> |$|"|\')', rep + '\g<sname>', s)` with
      `pat` the literal `%TOKEN`: scanning from the left, each placeholder
      followed by a delimiter (or the end) becomes `rep`, the delimiter is
      kept, and the scan resumes after it. */
  function SubToken(s: string, pat: string, rep: string): (r: string)
    requires |pat| > 0
    decreases |s|
  {
    if |s| < |pat| then s
    else if s[..|pat|] == pat && DelimiterAfter(s[|pat|..]).Some? then
      var d := DelimiterAfter(s[|pat|..]).value;
      rep + s[|pat|..|pat| + d] + SubToken(s[|pat| + d..], pat, rep)
    else [s[0]] + SubToken(s[1..], pat, rep)
  }

  /** Text without a placeholder match is left as it is. */
  lemma {:induction false} SubTokenWithoutPlaceholder(s: string, pat: string, rep: string)
    requires |pat| > 0
    requires forall i :: 0 <= i <= |s| ==> !PlaceholderAt(s, i, pat)
    ensures SubToken(s, pat, rep) == s
    decreases |s|
  {
    if |s| >= |pat| {
      assert !PlaceholderAt(s, 0, pat);
      assert s[0..|pat|] == s[..|pat|];
      forall i | 0 <= i <= |s[1..]|
        ensures !PlaceholderAt(s[1..], i, pat)
      {
        assert !PlaceholderAt(s, i + 1, pat);
        if i + |pat| <= |s[1..]| {
          assert s[1..][i..i + |pat|] == s[i + 1..i + 1 + |pat|];
          assert s[1..][i + |pat|..] == s[i + 1 + |pat|..];
        }
      }
      SubTokenWithoutPlaceholder(s[1..], pat, rep);
      assert s == [s[0]] + s[1..];
    }
  }

  /** `w` with a trailing `pat` replaced by `rep`. */
  function ReplaceSuffix(w: string, pat: string, rep: string): string
  {
    if |pat| <= |w| && w[|w| - |pat|..] == pat then w[..|w| - |pat|] + rep else w
  }

  /** A character that cannot start the placeholder is copied and the scan
      moves on. */
  lemma SubTokenSkipsChar(c: char, x: string, pat: string, rep: string)
    requires |pat| > 0 && c != pat[0]
    ensures SubToken([c] + x, pat, rep) == [c] + SubToken(x, pat, rep)
  {
    var s := [c] + x;
    if |s| >= |pat| {
      assert s[..|pat|][0] == c;
      assert s[..|pat|] != pat;
    }
    assert s[1..] == x;
  }

  /** Text without `%` holds no placeholder start, so it is copied. */
  lemma {:induction false} SubTokenSkipsText(w: string, u: string, pat: string, rep: string)
    requires |pat| > 0 && pat[0] == '%' && '%' !in w
    ensures SubToken(w + u, pat, rep) == w + SubToken(u, pat, rep)
    decreases |w|
  {
    if |w| > 0 {
      assert w + u == [w[0]] + (w[1..] + u);
      assert w[0] in w;
      SubTokenSkipsChar(w[0], w[1..] + u, pat, rep);
      assert forall c :: c in w[1..] ==> c in w;
      SubTokenSkipsText(w[1..], u, pat, rep);
      assert w == [w[0]] + w[1..];
    } else {
      assert w + u == u;
    }
  }

  /** What the delimiter group matches starts with a boundary character. */
  lemma DelimiterIsBoundary(rest: string)
    requires |rest| > 0 && DelimiterAfter(rest).Some?
    ensures IsBoundary(rest[0])
  {
  }

  /** Within a plain word followed by a delimiter or by nothing, a
      placeholder match at the start means the word is the placeholder. */
  lemma MatchIsWholeWord(w: string, u: string, pat: string)
    requires |pat| > 0 && Plain(pat)
    requires Plain(w)
    requires u == [] || IsBoundary(u[0])
    requires PlaceholderAt(w + u, 0, pat)
    ensures w == pat && (w + u)[|pat|..] == u
  {
    var s := w + u;
    assert forall j :: 0 <= j < |pat| ==> s[j] == pat[j];
    assert forall j :: 0 <= j < |pat| ==> pat[j] in pat;
    assert forall j :: 0 <= j < |w| ==> s[j] == w[j] && w[j] in w;
    assert |u| > 0 ==> s[|w|] == u[0];
    if |pat| < |s| {
      DelimiterIsBoundary(s[|pat|..]);
    }
    assert |w| == |pat|;
    assert s[..|w|] == w;
  }

  /** A word free of boundary characters, followed by what the delimiter
      group matches (a blank, a quote, the end, or a final newline): only a
      placeholder that ends the word is replaced. */
  lemma {:induction false} SubTokenWord(w: string, u: string, pat: string, rep: string)
    requires |pat| > 0 && Plain(pat)
    requires Plain(w)
    requires DelimiterAfter(u).Some?
    ensures SubToken(w + u, pat, rep) == ReplaceSuffix(w, pat, rep) + SubToken(u, pat, rep)
    decreases |w|
  {
    var s := w + u;
    if |s| < |pat| {
      assert SubToken(u, pat, rep) == u;
    } else if PlaceholderAt(s, 0, pat) {
      SubTokenWordMatch(w, u, pat, rep);
    } else if |w| == 0 {
      assert s == u;
    } else {
      SubTokenWordStep(w, u, pat, rep);
    }
  }

  /** The word is the placeholder: it becomes `rep` and the delimiter
      after it, if any, is copied. */
  lemma SubTokenWordMatch(w: string, u: string, pat: string, rep: string)
    requires |pat| > 0 && Plain(pat)
    requires Plain(w)
    requires DelimiterAfter(u).Some?
    requires PlaceholderAt(w + u, 0, pat)
    ensures SubToken(w + u, pat, rep) == ReplaceSuffix(w, pat, rep) + SubToken(u, pat, rep)
  {
    if |u| > 0 {
      DelimiterIsBoundary(u);
    }
    MatchIsWholeWord(w, u, pat);
    assert ReplaceSuffix(w, pat, rep) == rep;
    PlaceholderBeforeDelimiter(pat, u, rep);
  }

  /** Unfolds `SubToken` once at a placeholder followed by a delimiter. */
  lemma SubTokenAtMatch(pat: string, u: string, rep: string)
    requires |pat| > 0 && DelimiterAfter(u).Some?
    ensures var d := DelimiterAfter(u).value;
      d <= |u| && SubToken(pat + u, pat, rep) == rep + u[..d] + SubToken(u[d..], pat, rep)
  {
    var s := pat + u;
    assert s[..|pat|] == pat && s[|pat|..] == u;
  }

  /** The delimiter a match consumes is copied, and the scan goes on after
      it just as it would from the delimiter itself. */
  lemma DelimiterKept(u: string, pat: string, rep: string)
    requires |pat| > 0 && Plain(pat) && DelimiterAfter(u).Some?
    ensures var d := DelimiterAfter(u).value;
      d <= |u| && u[..d] + SubToken(u[d..], pat, rep) == SubToken(u, pat, rep)
  {
    if DelimiterAfter(u).value == 1 {
      DelimiterIsBoundary(u);
      assert pat[0] in pat;
      assert u == [u[0]] + u[1..];
      SubTokenSkipsChar(u[0], u[1..], pat, rep);
    } else {
      assert u[..0] == [] && u[0..] == u;
    }
  }

  lemma {:induction false} SubTokenWordStep(w: string, u: string, pat: string, rep: string)
    requires |pat| > 0 && Plain(pat)
    requires Plain(w) && |w| > 0
    requires DelimiterAfter(u).Some?
    requires |w + u| >= |pat| && !PlaceholderAt(w + u, 0, pat)
    ensures SubToken(w + u, pat, rep) == ReplaceSuffix(w, pat, rep) + SubToken(u, pat, rep)
    decreases |w|, 0
  {
    var s := w + u;
    assert s[1..] == w[1..] + u;
    assert Plain(w[1..]);
    SubTokenWord(w[1..], u, pat, rep);
    NotPlaceholderWord(w, u, pat);
    ReplaceSuffixCons(w, pat, rep);
  }

  /** A word that is exactly the placeholder is matched where it starts. */
  lemma NotPlaceholderWord(w: string, u: string, pat: string)
    requires DelimiterAfter(u).Some?
    requires !PlaceholderAt(w + u, 0, pat)
    ensures w != pat
  {
    var s := w + u;
    assert s[..|w|] == w && s[|w|..] == u;
  }

  lemma ReplaceSuffixCons(w: string, pat: string, rep: string)
    requires |w| > 0 && w != pat
    ensures ReplaceSuffix(w, pat, rep) == [w[0]] + ReplaceSuffix(w[1..], pat, rep)
  {
    var v := w[1..];
    assert w == [w[0]] + v;
    if |pat| <= |v| {
      var tail := w[|w| - |pat|..];
      assert v[|v| - |pat|..] == tail;
      if tail == pat {
        assert w[..|w| - |pat|] == [w[0]] + v[..|v| - |pat|];
      }
    } else if |pat| == |w| {
      assert w[|w| - |pat|..] == w;
      assert ReplaceSuffix(w, pat, rep) == w;
      assert ReplaceSuffix(v, pat, rep) == v;
    }
  }

  /** On a blank-separated command line whose words hold no quote, blank or
      newline, `%TOKEN` substitution replaces exactly those placeholders
      that end a word: `%IN` is never taken out of `%INPUT2`. */
  lemma {:induction false} SubTokenWords(words: seq<string>, pat: string, rep: string)
    requires |pat| > 0 && Plain(pat)
    requires forall k :: 0 <= k < |words| ==> Plain(words[k])
    ensures SubToken(Join(words, ' '), pat, rep) == Join(MapSuffix(words, pat, rep), ' ')
    decreases |words|
  {
    if |words| == 1 {
      SubTokenWord(words[0], [], pat, rep);
      assert words[0] + [] == words[0];
    } else if |words| > 1 {
      var mapped := MapSuffix(words, pat, rep);
      SubTokenWord(words[0], " " + Join(words[1..], ' '), pat, rep);
      SubTokenWords(words[1..], pat, rep);
      assert mapped[1..] == MapSuffix(words[1..], pat, rep);
      assert pat[0] in pat;
      SubTokenLineStep(words, mapped, pat, rep);
    }
  }

  /** Substitution on a line of words, one word at a time: the first word
      and the blank after it, then the rest of the line. */
  lemma SubTokenLineStep(words: seq<string>, out: seq<string>, pat: string, rep: string)
    requires |words| > 1 && |out| == |words| && |pat| > 0 && pat[0] != ' '
    requires SubToken(words[0] + (" " + Join(words[1..], ' ')), pat, rep)
      == out[0] + SubToken(" " + Join(words[1..], ' '), pat, rep)
    requires SubToken(Join(words[1..], ' '), pat, rep) == Join(out[1..], ' ')
    ensures SubToken(Join(words, ' '), pat, rep) == Join(out, ' ')
  {
    JoinCons(words, ' ');
    JoinCons(out, ' ');
    BlankStep(words[0], Join(words[1..], ' '), out[0], Join(out[1..], ' '), pat, rep);
  }

  /** A line longer than one word is its first word, a separator, and the
      rest of the line. */
  lemma JoinCons(parts: seq<string>, sep: char)
    requires |parts| > 1
    ensures Join(parts, sep) == parts[0] + ([sep] + Join(parts[1..], sep))
  {
  }

  /** The blank after a substituted word is copied, and the substitution
      of the rest of the line follows it. */
  lemma BlankStep(w: string, tail: string, outW: string, outTail: string, pat: string, rep: string)
    requires |pat| > 0 && pat[0] != ' '
    requires SubToken(w + (" " + tail), pat, rep) == outW + SubToken(" " + tail, pat, rep)
    requires SubToken(tail, pat, rep) == outTail
    ensures SubToken(w + ([' '] + tail), pat, rep) == outW + ([' '] + outTail)
  {
    assert " " + tail == [' '] + tail;
    SubTokenSkipsChar(' ', tail, pat, rep);
  }

  /** A quoted placeholder is replaced and both quotes are kept:
      `"%IN"` becomes `"` + `rep` + `"`. */
  lemma QuotedPlaceholder(q: char, pat: string, rep: string, rest: string)
    requires q == '"' || q == '\''
    requires |pat| > 0 && Plain(pat)
    ensures SubToken([q] + pat + [q] + rest, pat, rep) == [q] + rep + [q] + SubToken(rest, pat, rep)
  {
    var after := [q] + rest;
    var tail := SubToken(rest, pat, rep);
    assert pat[0] in pat;
    assert [q] + pat + [q] + rest == [q] + (pat + after);
    SubTokenSkipsChar(q, pat + after, pat, rep);
    PlaceholderBeforeDelimiter(pat, after, rep);
    SubTokenSkipsChar(q, rest, pat, rep);
    assert [q] + (rep + ([q] + tail)) == [q] + rep + [q] + tail;
  }

  /** A placeholder followed by a delimiter is replaced by `rep`. */
  lemma PlaceholderBeforeDelimiter(pat: string, u: string, rep: string)
    requires |pat| > 0 && Plain(pat) && DelimiterAfter(u).Some?
    ensures SubToken(pat + u, pat, rep) == rep + SubToken(u, pat, rep)
  {
    SubTokenAtMatch(pat, u, rep);
    DelimiterKept(u, pat, rep);
  }

  /** A word of a command line as the multi-stream substitution sees it:
      either text with no `%`, quote or newline (blanks are allowed), or a
      placeholder of a plain name. */
  predicate Token(w: string)
  {
    Inert(w) || (|w| > 0 && w[0] == '%' && Ordinary(w[1..]))
  }

  /** Text no `%TOKEN` match can start in or stop at. */
  predicate Inert(w: string)
  {
    '%' !in w && '"' !in w && '\'' !in w && '\n' !in w
  }

  /** A placeholder of a plain name. */
  predicate PlaceholderForm(pat: string)
  {
    |pat| > 0 && pat[0] == '%' && Ordinary(pat[1..])
  }

  /** One word followed by a delimiter: it becomes `rep` if it is the
      placeholder, and is copied otherwise. */
  lemma SubTokenToken(w: string, u: string, pat: string, rep: string)
    requires Token(w) && PlaceholderForm(pat)
    requires DelimiterAfter(u).Some?
    ensures SubToken(w + u, pat, rep) == (if w == pat then rep else w) + SubToken(u, pat, rep)
  {
    if '%' !in w {
      SubTokenSkipsText(w, u, pat, rep);
      assert w != pat by { assert pat[0] in pat; }
    } else {
      assert Placeholder(pat[1..]) == pat && Placeholder(w[1..]) == w;
      PlaceholderPlain(pat[1..]);
      PlaceholderPlain(w[1..]);
      SubTokenWord(w, u, pat, rep);
      if w == pat {
        PlaceholderReplaced(pat[1..], rep);
      } else {
        OtherPlaceholderKept(pat[1..], w[1..], rep);
      }
    }
  }

  /** Each word that is the placeholder replaced by `rep`. */
  function ReplaceWords(words: seq<string>, pat: string, rep: string): (r: seq<string>)
    ensures |r| == |words|
  {
    seq(|words|, k requires 0 <= k < |words| => if words[k] == pat then rep else words[k])
  }

  /** On a blank-separated line of words, `%TOKEN` substitution replaces
      exactly the words that are the placeholder. */
  lemma {:induction false} SubTokenLine(words: seq<string>, pat: string, rep: string)
    requires PlaceholderForm(pat)
    requires forall k :: 0 <= k < |words| ==> Token(words[k])
    ensures SubToken(Join(words, ' '), pat, rep) == Join(ReplaceWords(words, pat, rep), ' ')
    decreases |words|
  {
    var mapped := ReplaceWords(words, pat, rep);
    if |words| == 0 {
    } else if |words| == 1 {
      SubTokenToken(words[0], [], pat, rep);
      assert words[0] + [] == words[0];
    } else {
      SubTokenToken(words[0], " " + Join(words[1..], ' '), pat, rep);
      SubTokenLine(words[1..], pat, rep);
      assert mapped[1..] == ReplaceWords(words[1..], pat, rep);
      SubTokenLineStep(words, mapped, pat, rep);
    }
  }

  /** What one word of the command line becomes after every stream's
      substitution: the files of the first stream whose placeholder it is,
      with the blank each replacement carries; any other word stays. */
  function StreamWord(w: string, inMap: InMap): string
    decreases |inMap|
  {
    if |inMap| == 0 then w
    else if w == Placeholder(inMap[0].0) then Join(inMap[0].1, ',') + " "
    else StreamWord(w, inMap[1..])
  }

  /** Every stream name is plain and no joined file list holds `%`, a
      quote or a newline. */
  predicate PlainStreams(inMap: InMap)
  {
    forall k :: 0 <= k < |inMap| ==> Ordinary(inMap[k].0) && Inert(Join(inMap[k].1, ','))
  }

  /** Text without `%` is no placeholder of any stream. */
  lemma {:induction false} StreamWordKeepsText(w: string, inMap: InMap)
    requires '%' !in w
    ensures StreamWord(w, inMap) == w
    decreases |inMap|
  {
    if |inMap| > 0 {
      assert w != Placeholder(inMap[0].0) by {
        if |w| > 0 { assert w[0] in w; }
      }
      StreamWordKeepsText(w, inMap[1..]);
    }
  }

  /** The per-stream substitution on a blank-separated line of words: each
      word that is the placeholder of a stream becomes that stream's files
      and a blank, the first stream in `inMap` order winning; every other
      word stays. When no file name holds `%`, a quote or a newline
      (`PlainStreams`), files substituted for one stream are never rewritten
      by a later one; `LaterStreamRewritesFiles` shows what happens
      otherwise. */
  lemma {:induction false} SubstituteStreamsLine(words: seq<string>, inMap: InMap)
    requires forall k :: 0 <= k < |words| ==> Token(words[k])
    requires PlainStreams(inMap)
    ensures SubstituteStreams(Join(words, ' '), inMap)
      == Join(seq(|words|, k requires 0 <= k < |words| => StreamWord(words[k], inMap)), ' ')
    decreases |inMap|
  {
    var result := seq(|words|, k requires 0 <= k < |words| => StreamWord(words[k], inMap));
    if |inMap| == 0 {
      assert result == words;
    } else {
      var pat := Placeholder(inMap[0].0);
      var rep := Join(inMap[0].1, ',') + " ";
      var next := ReplaceWords(words, pat, rep);
      assert Inert(rep) by {
        assert forall c :: c in rep ==> c in Join(inMap[0].1, ',') || c == ' ';
      }
      SubTokenLine(words, pat, rep);
      assert forall k :: 0 <= k < |next| ==> Token(next[k]);
      assert PlainStreams(inMap[1..]) by {
        assert forall k :: 0 <= k < |inMap[1..]| ==> inMap[1..][k] == inMap[k + 1];
      }
      SubstituteStreamsLine(next, inMap[1..]);
      forall k | 0 <= k < |words|
        ensures StreamWord(next[k], inMap[1..]) == result[k]
      {
        if words[k] == pat {
          StreamWordKeepsText(rep, inMap[1..]);
        }
      }
      assert seq(|next|, k requires 0 <= k < |next| => StreamWord(next[k], inMap[1..])) == result;
    }
  }

  /** Without `PlainStreams` a later stream does reach into the files of an
      earlier one: the first stream puts `x%second` and a blank into the
      text, and the second stream's substitution then replaces the
      placeholder inside that file name. */
  lemma LaterStreamRewritesFiles(first: string, second: string, x: string, y: string)
    requires Ordinary(first) && Ordinary(second) && '%' !in x
    ensures SubstituteStreams(Placeholder(first), [(first, [x + Placeholder(second)]), (second, [y])])
      == x + y + "  "
  {
    var inMap := [(first, [x + Placeholder(second)]), (second, [y])];
    var p := Placeholder(first);
    var q := Placeholder(second);
    var once := x + q + " ";
    var rep := y + " ";
    PlaceholderPlain(first);
    PlaceholderPlain(second);
    assert Join(inMap[0].1, ',') + " " == once;
    assert Join(inMap[1].1, ',') + " " == rep;
    PlaceholderBeforeDelimiter(p, [], once);
    assert p + [] == p;
    assert SubToken(p, p, once) == once;
    SubTokenSkipsText(x, q + " ", q, rep);
    PlaceholderBeforeDelimiter(q, " ", rep);
    assert SubToken(" ", q, rep) == " ";
    assert x + q + " " == x + (q + " ");
    assert SubToken(once, q, rep) == x + y + "  ";
    assert inMap[1..][1..] == [];
    assert SubstituteStreams(p, inMap) == SubstituteStreams(once, inMap[1..]);
    assert SubstituteStreams(once, inMap[1..]) == SubstituteStreams(x + y + "  ", []);
  }

  /** `%` followed by a placeholder name. */
  function Placeholder(name: string): (p: string)
    ensures |p| == |name| + 1 && p[0] == '%' && p[1..] == name
  {
    "%" + name
  }

  /** Each word with a trailing placeholder replaced. */
  function MapSuffix(words: seq<string>, pat: string, rep: string): (r: seq<string>)
    ensures |r| == |words|
  {
    seq(|words|, k requires 0 <= k < |words| => ReplaceSuffix(words[k], pat, rep))
  }

  /** The `%TOKEN` placeholders of every stream, in `inMap` order, each
      replaced by the stream's comma-joined files and one blank. */
  function SubstituteStreams(params: string, inMap: InMap): (r: string)
    ensures '%' !in params ==> r == params
    decreases |inMap|
  {
    if |inMap| == 0 then params
    else
      var pat := Placeholder(inMap[0].0);
      var rep := Join(inMap[0].1, ',') + " ";
      var next := SubToken(params, pat, rep);
      // Both branches are the same value; the first only carries the proof
      // that text without `%` passes through.
      if '%' !in params then
        SubTokenSkipsText(params, [], pat, rep);
        assert params + [] == params;
        SubstituteStreams(next, inMap[1..])
      else SubstituteStreams(next, inMap[1..])
  }

  /** The job parameters with the input placeholders substituted: nothing
      without inputs; with an empty `inMap`, every `%IN` by plain substring
      replacement; otherwise the per-stream `%TOKEN` placeholders. Text
      without `%` has no placeholder and is never changed. */
  function Substitute(params: string, inputs: seq<string>, inMap: InMap): (r: string)
    ensures |inputs| == 0 ==> r == params
    ensures '%' !in params ==> r == params
  {
    if |inputs| == 0 then params
    else if |inMap| == 0 then
      var pat := Placeholder("IN");
      // Both branches are the same value; the first only carries the proof
      // that text without `%` passes through.
      if '%' !in params then
        ReplaceAllSkips(params, [], pat, Join(inputs, ','));
        assert params + [] == params;
        ReplaceAll(params, pat, Join(inputs, ','))
      else ReplaceAll(params, pat, Join(inputs, ','))
    else SubstituteStreams(params, inMap)
  }

  /** The input lists written to files named by `writeInputToTxt`: all
      inputs under stream `IN` when `inMap` is empty, otherwise each listed
      stream's own files. */
  function Manifests(streamFiles: map<string, string>, inputs: seq<string>, inMap: InMap): (r: seq<(string, seq<string>)>)
    ensures |inputs| == 0 ==> r == []
    ensures |inputs| > 0 && |inMap| == 0 ==>
      r == (if "IN" in streamFiles then [(streamFiles["IN"], inputs)] else [])
    ensures |inputs| > 0 && |inMap| > 0 ==>
      forall m :: m in r <==> exists k :: 0 <= k < |inMap| && ManifestFor(streamFiles, inMap[k], m)
  {
    if |inputs| == 0 then []
    else if |inMap| == 0 then (if "IN" in streamFiles then [(streamFiles["IN"], inputs)] else [])
    else StreamManifests(streamFiles, inMap)
  }

  /** `m` is the file write for `stream` when it has a file name. */
  predicate ManifestFor(streamFiles: map<string, string>, stream: (string, seq<string>), m: (string, seq<string>))
  {
    stream.0 in streamFiles && m == (streamFiles[stream.0], stream.1)
  }

  function StreamManifests(streamFiles: map<string, string>, inMap: InMap): (r: seq<(string, seq<string>)>)
    ensures forall m :: m in r <==> exists k :: 0 <= k < |inMap| && ManifestFor(streamFiles, inMap[k], m)
    decreases |inMap|
  {
    if |inMap| == 0 then []
    else
      var rest := StreamManifests(streamFiles, inMap[1..]);
      assert forall k :: 1 <= k < |inMap| ==> inMap[1..][k - 1] == inMap[k];
      var tok := inMap[0].0;
      (if tok in streamFiles then [(streamFiles[tok], inMap[0].1)] else []) + rest
  }

  /** The manifests are written in `inMap` order: those of earlier streams
      come before those of later ones, so when two streams name the same
      file the later stream's list is the one left in it. */
  lemma {:induction false} StreamManifestsConcat(streamFiles: map<string, string>, a: InMap, b: InMap)
    ensures StreamManifests(streamFiles, a + b) == StreamManifests(streamFiles, a) + StreamManifests(streamFiles, b)
    decreases |a|
  {
    if |a| == 0 {
      assert a + b == b;
    } else {
      assert (a + b)[0] == a[0];
      assert (a + b)[1..] == a[1..] + b;
      StreamManifestsConcat(streamFiles, a[1..], b);
    }
  }

  /** A word with no placeholder character in it. */
  predicate Ordinary(w: string)
  {
    Plain(w) && '%' !in w
  }

  /** `%` is not a boundary, so a placeholder of a plain name is plain. */
  lemma PlaceholderPlain(name: string)
    requires Plain(name)
    ensures Plain(Placeholder(name))
  {
    var p := Placeholder(name);
    assert forall c :: c in p ==> c == '%' || c in name;
  }

  /** A word without `%` never ends with a placeholder. */
  lemma OrdinaryKeepsSuffix(w: string, pat: string, rep: string)
    requires '%' !in w && |pat| > 0 && pat[0] == '%'
    ensures ReplaceSuffix(w, pat, rep) == w
  {
    if |pat| <= |w| {
      assert w[|w| - |pat|..][0] == w[|w| - |pat|];
    }
  }

  /** With an empty `inMap`, `%IN` is a plain substring: it is also
      replaced at the head of any longer name such as `%INPUT2`. */
  lemma PlainInReplacesInsideLongerNames(cmd: string, flag: string, more: string, inputs: seq<string>)
    requires |inputs| > 0 && '%' !in cmd && '%' !in flag && '%' !in more
    ensures var all := Join(inputs, ',');
      Substitute(cmd + " " + Placeholder("IN") + " " + flag + " " + Placeholder("IN" + more), inputs, [])
        == cmd + " " + all + " " + flag + " " + all + more
  {
    var pat := Placeholder("IN");
    var rep := Join(inputs, ',');
    var mid := " " + flag + " ";
    var head := cmd + " ";
    var s := cmd + " " + Placeholder("IN") + " " + flag + " " + Placeholder("IN" + more);
    assert Substitute(s, inputs, []) == ReplaceAll(s, pat, rep);
    PlainInInput(cmd, flag, more);
    assert pat[0] == '%' && '%' !in head && '%' !in mid;
    PlainInSteps(head, mid, more, pat, rep);
    PlainInOutput(cmd, flag, more, rep);
  }

  lemma PlainInInput(cmd: string, flag: string, more: string)
    ensures cmd + " " + Placeholder("IN") + " " + flag + " " + Placeholder("IN" + more)
      == (cmd + " ") + (Placeholder("IN") + ((" " + flag + " ") + (Placeholder("IN") + more)))
  {
    assert Placeholder("IN" + more) == Placeholder("IN") + more;
  }

  lemma PlainInOutput(cmd: string, flag: string, more: string, rep: string)
    ensures (cmd + " ") + (rep + ((" " + flag + " ") + (rep + more)))
      == cmd + " " + rep + " " + flag + " " + rep + more
  {
  }

  lemma PlainInSteps(head: string, mid: string, more: string, pat: string, rep: string)
    requires |pat| > 0 && pat[0] !in head && pat[0] !in mid && pat[0] !in more
    ensures ReplaceAll(head + (pat + (mid + (pat + more))), pat, rep) == head + (rep + (mid + (rep + more)))
  {
    ReplaceAllSkips(more, [], pat, rep);
    assert more + [] == more;
    ReplaceAllHead(more, pat, rep);
    ReplaceAllSkips(mid, pat + more, pat, rep);
    ReplaceAllHead(mid + (pat + more), pat, rep);
    ReplaceAllSkips(head, pat + (mid + (pat + more)), pat, rep);
  }

  /** A placeholder never ends with a different placeholder whose name has
      no `%` in it. */
  lemma OtherPlaceholderKept(name: string, other: string, rep: string)
    requires name != other && '%' !in other
    ensures ReplaceSuffix(Placeholder(other), Placeholder(name), rep) == Placeholder(other)
  {
    var p := Placeholder(name);
    var q := Placeholder(other);
    if |p| < |q| {
      assert q[|q| - |p|] == q[1..][|q| - |p| - 1];
      assert q[|q| - |p|..][0] != p[0];
    } else if |p| == |q| {
      assert q[1..] != p[1..];
    }
  }

  /** A placeholder word is replaced whole. */
  lemma PlaceholderReplaced(name: string, rep: string)
    ensures ReplaceSuffix(Placeholder(name), Placeholder(name), rep) == rep
  {
    var p := Placeholder(name);
    assert p[|p| - |p|..] == p;
  }

  /** With per-stream placeholders, a stream name that is a prefix of
      another (`IN` and `INPUT2`) does not capture it; each replacement
      carries one extra blank and keeps the delimiter, so the result holds
      a double blank and a trailing blank. */
  lemma StreamPlaceholdersRespectBoundaries(cmd: string, flag: string, first: string, second: string, a: seq<string>, b: seq<string>)
    requires |a| + |b| > 0 && first != second
    requires Ordinary(first) && Ordinary(second)
    requires Ordinary(cmd) && Ordinary(flag) && Ordinary(Join(a, ',')) && Ordinary(Join(b, ','))
    ensures Substitute(cmd + " " + Placeholder(first) + " " + flag + " " + Placeholder(second), a + b, [(first, a), (second, b)])
      == cmd + " " + Join(a, ',') + "  " + flag + " " + Join(b, ',') + " "
  {
    var s := cmd + " " + Placeholder(first) + " " + flag + " " + Placeholder(second);
    var inMap := [(first, a), (second, b)];
    var once := SubToken(s, Placeholder(first), Join(a, ',') + " ");
    var twice := SubToken(once, Placeholder(second), Join(b, ',') + " ");
    assert inMap[1..][1..] == [];
    assert SubstituteStreams(s, inMap) == SubstituteStreams(once, inMap[1..]);
    assert SubstituteStreams(once, inMap[1..]) == SubstituteStreams(twice, []);
    FirstStream(cmd, flag, first, second, Join(a, ','));
    SecondStream(cmd, flag, second, Join(a, ','), Join(b, ','));
  }

  lemma FirstStream(cmd: string, flag: string, first: string, second: string, files: string)
    requires first != second && Ordinary(first) && Ordinary(second)
    requires Ordinary(cmd) && Ordinary(flag)
    ensures SubToken(cmd + " " + Placeholder(first) + " " + flag + " " + Placeholder(second), Placeholder(first), files + " ")
      == cmd + " " + (files + " ") + " " + flag + " " + Placeholder(second)
  {
    var p := Placeholder(first);
    var q := Placeholder(second);
    var words := [cmd, p, flag, q];
    JoinFour(cmd, p, flag, q, ' ');
    PlaceholderPlain(first);
    PlaceholderPlain(second);
    assert forall k :: 0 <= k < |words| ==> Plain(words[k]);
    SubTokenWords(words, p, files + " ");
    OrdinaryKeepsSuffix(cmd, p, files + " ");
    OrdinaryKeepsSuffix(flag, p, files + " ");
    PlaceholderReplaced(first, files + " ");
    OtherPlaceholderKept(first, second, files + " ");
    assert MapSuffix(words, p, files + " ") == [cmd, files + " ", flag, q];
    JoinFour(cmd, files + " ", flag, q, ' ');
  }

  lemma SecondStream(cmd: string, flag: string, second: string, aFiles: string, bFiles: string)
    requires Ordinary(second) && Ordinary(cmd) && Ordinary(flag) && Ordinary(aFiles)
    ensures SubToken(cmd + " " + (aFiles + " ") + " " + flag + " " + Placeholder(second), Placeholder(second), bFiles + " ")
      == cmd + " " + aFiles + "  " + flag + " " + bFiles + " "
  {
    var q := Placeholder(second);
    var rep := bFiles + " ";
    var before := Join([cmd, aFiles, [], flag, q], ' ');
    var after := Join([cmd, aFiles, [], flag, rep], ' ');
    SecondStreamWords(cmd, flag, second, aFiles, bFiles);
    assert SubToken(before, q, rep) == after;
    JoinFive(cmd, aFiles, [], flag, q, ' ');
    assert before == cmd + " " + (aFiles + " ") + " " + flag + " " + q;
    JoinFive(cmd, aFiles, [], flag, rep, ' ');
    assert after == cmd + " " + aFiles + "  " + flag + " " + bFiles + " ";
  }

  lemma SecondStreamWords(cmd: string, flag: string, second: string, aFiles: string, bFiles: string)
    requires Ordinary(second) && Ordinary(cmd) && Ordinary(flag) && Ordinary(aFiles)
    ensures SubToken(Join([cmd, aFiles, [], flag, Placeholder(second)], ' '), Placeholder(second), bFiles + " ")
      == Join([cmd, aFiles, [], flag, bFiles + " "], ' ')
  {
    var q := Placeholder(second);
    var words := [cmd, aFiles, [], flag, q];
    PlaceholderPlain(second);
    assert forall k :: 0 <= k < |words| ==> Plain(words[k]);
    SubTokenWords(words, q, bFiles + " ");
    OrdinaryKeepsSuffix(cmd, q, bFiles + " ");
    OrdinaryKeepsSuffix(aFiles, q, bFiles + " ");
    OrdinaryKeepsSuffix([], q, bFiles + " ");
    OrdinaryKeepsSuffix(flag, q, bFiles + " ");
    PlaceholderReplaced(second, bFiles + " ");
    assert MapSuffix(words, q, bFiles + " ") == [cmd, aFiles, [], flag, bFiles + " "];
  }
}
