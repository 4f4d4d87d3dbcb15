/** `_main` after argument parsing: truncate the mirror list, probe every
    mirror, sort the results by average rate and print them, then sort the
    same list by peak rate and print it again.  `list.sort(key=..., reverse=True)`
    is a stable sort in descending key order; it is modelled by a stable
    insertion sort. */
module Ranking {
  import opened Outcomes
  import MirrorList
  import RepoUrl
  import opened TopUrls

  /** The end of the slice `mirrors[:n]` for a list of length `len`: a
      negative `n` counts from the end, and both ends are clamped. */
  function SliceEnd(n: int, len: nat): (e: nat)
    ensures e <= len
  {
    if n >= 0 then (if n < len then n else len)
    else if len + n > 0 then len + n else 0
  }

  /** `if args.max_mirrors: mirrors = mirrors[:args.max_mirrors]`: a
      prefix of the list; all of it for `None` or 0, the first min(n, len)
      mirrors for a positive n, and all but the last -n for a negative n. */
  function Truncate(mirrors: seq<string>, maxMirrors: Option<int>): (r: seq<string>)
    ensures |r| <= |mirrors| && r == mirrors[..|r|]
    ensures maxMirrors.None? || maxMirrors.value == 0 ==> r == mirrors
    ensures maxMirrors.Some? && maxMirrors.value > 0 ==>
      |r| == if maxMirrors.value < |mirrors| then maxMirrors.value else |mirrors|
    ensures maxMirrors.Some? && maxMirrors.value < 0 ==>
      |r| == if |mirrors| + maxMirrors.value > 0 then |mirrors| + maxMirrors.value else 0
  {
    if maxMirrors.None? || maxMirrors.value == 0 then mirrors
    else mirrors[..SliceEnd(maxMirrors.value, |mirrors|)]
  }

  /** Which `TestResult` attribute a sort or a printout uses. */
  datatype Key = AvgRate | MaxRate

  function KeyOf(t: TestResult, key: Key): real {
    match key
    case AvgRate => t.avgRate
    case MaxRate => t.maxRate
  }

  /** Non-increasing in `key`. */
  ghost predicate SortedDesc(s: seq<TestResult>, key: Key) {
    forall i, j :: 0 <= i < j < |s| ==> KeyOf(s[i], key) >= KeyOf(s[j], key)
  }

  /** `x` placed before the first element whose key is smaller than its own,
      that is, after every earlier element with an equal key. */
  function Insert(s: seq<TestResult>, x: TestResult, key: Key): seq<TestResult> {
    if s == [] then [x]
    else if KeyOf(s[0], key) < KeyOf(x, key) then [x] + s
    else [s[0]] + Insert(s[1..], x, key)
  }

  /** The stable descending sort, by insertion from left to right. */
  function InsertionSort(s: seq<TestResult>, key: Key): seq<TestResult> {
    if s == [] then [] else Insert(InsertionSort(s[..|s| - 1], key), s[|s| - 1], key)
  }

  /** The elements of `s` whose key is `v`, in their order in `s`. */
  function KeyFilter(s: seq<TestResult>, key: Key, v: real): seq<TestResult> {
    if s == [] then []
    else KeyFilter(s[..|s| - 1], key, v) + (if KeyOf(s[|s| - 1], key) == v then [s[|s| - 1]] else [])
  }

  lemma {:induction false} InsertPermutes(s: seq<TestResult>, x: TestResult, key: Key)
    ensures multiset(Insert(s, x, key)) == multiset(s) + multiset{x}
  {
    if s != [] && KeyOf(s[0], key) >= KeyOf(x, key) {
      InsertPermutes(s[1..], x, key);
      assert s == [s[0]] + s[1..];
    }
  }

  lemma {:induction false} InsertKeepsSorted(s: seq<TestResult>, x: TestResult, key: Key)
    requires SortedDesc(s, key)
    ensures SortedDesc(Insert(s, x, key), key)
  {
    if s == [] {
    } else if KeyOf(s[0], key) < KeyOf(x, key) {
      SortedCons(x, s, key);
    } else {
      var rest := Insert(s[1..], x, key);
      InsertKeepsSorted(s[1..], x, key);
      InsertPermutes(s[1..], x, key);
      forall j | 0 <= j < |rest| ensures KeyOf(s[0], key) >= KeyOf(rest[j], key) {
        assert rest[j] in multiset(s[1..]) + multiset{x};
        if rest[j] != x {
          var m :| 0 <= m < |s[1..]| && s[1..][m] == rest[j];
          assert s[m + 1] == rest[j];
        }
      }
      SortedCons(s[0], rest, key);
    }
  }

  lemma SortedCons(h: TestResult, t: seq<TestResult>, key: Key)
    requires SortedDesc(t, key)
    requires forall j :: 0 <= j < |t| ==> KeyOf(h, key) >= KeyOf(t[j], key)
    ensures SortedDesc([h] + t, key)
  {
    var s := [h] + t;
    forall i, j | 0 <= i < j < |s| ensures KeyOf(s[i], key) >= KeyOf(s[j], key) {
      assert s[j] == t[j - 1];
      if i > 0 { assert s[i] == t[i - 1]; }
    }
  }

  lemma {:induction false} KeyFilterConcat(a: seq<TestResult>, b: seq<TestResult>, key: Key, v: real)
    ensures KeyFilter(a + b, key, v) == KeyFilter(a, key, v) + KeyFilter(b, key, v)
    decreases |b|
  {
    if b != [] {
      var n := |b| - 1;
      assert (a + b)[..|a + b| - 1] == a + b[..n];
      KeyFilterConcat(a, b[..n], key, v);
    } else {
      assert a + b == a;
    }
  }

  lemma {:induction false} KeyFilterNone(s: seq<TestResult>, key: Key, v: real)
    requires forall i :: 0 <= i < |s| ==> KeyOf(s[i], key) != v
    ensures KeyFilter(s, key, v) == []
  {
    if s != [] {
      KeyFilterNone(s[..|s| - 1], key, v);
    }
  }

  lemma KeyFilterSingle(x: TestResult, key: Key, v: real)
    ensures KeyFilter([x], key, v) == if KeyOf(x, key) == v then [x] else []
  {
    assert [x][..0] == [];
  }

  /** Inserting into a sorted list puts `x` last among the elements with its key. */
  lemma {:induction false} InsertFilter(s: seq<TestResult>, x: TestResult, key: Key, v: real)
    requires SortedDesc(s, key)
    ensures KeyFilter(Insert(s, x, key), key, v) == KeyFilter(s, key, v) + (if KeyOf(x, key) == v then [x] else [])
  {
    if s == [] {
      KeyFilterSingle(x, key, v);
      assert Insert(s, x, key) == [x];
    } else if KeyOf(s[0], key) < KeyOf(x, key) {
      InsertFilterFront(s, x, key, v);
    } else {
      InsertFilter(s[1..], x, key, v);
      InsertFilterSkip(s, x, key, v);
    }
  }

  lemma InsertFilterFront(s: seq<TestResult>, x: TestResult, key: Key, v: real)
    requires SortedDesc(s, key) && s != [] && KeyOf(s[0], key) < KeyOf(x, key)
    ensures KeyFilter(Insert(s, x, key), key, v) == KeyFilter(s, key, v) + (if KeyOf(x, key) == v then [x] else [])
  {
    assert Insert(s, x, key) == [x] + s;
    KeyFilterSingle(x, key, v);
    KeyFilterConcat([x], s, key, v);
    if KeyOf(x, key) == v {
      KeyFilterNone(s, key, v);
    }
  }

  lemma InsertFilterSkip(s: seq<TestResult>, x: TestResult, key: Key, v: real)
    requires s != [] && KeyOf(s[0], key) >= KeyOf(x, key)
    requires KeyFilter(Insert(s[1..], x, key), key, v) == KeyFilter(s[1..], key, v) + (if KeyOf(x, key) == v then [x] else [])
    ensures KeyFilter(Insert(s, x, key), key, v) == KeyFilter(s, key, v) + (if KeyOf(x, key) == v then [x] else [])
  {
    var rest := Insert(s[1..], x, key);
    assert Insert(s, x, key) == [s[0]] + rest;
    assert s == [s[0]] + s[1..];
    KeyFilterConcat([s[0]], s[1..], key, v);
    KeyFilterConcat([s[0]], rest, key, v);
  }

  /** The sort returns a permutation of its input, non-increasing in the
      key, in which the elements with any one key value keep their input
      order (stability). */
  lemma SortIsStableSort(s: seq<TestResult>, key: Key)
    ensures multiset(InsertionSort(s, key)) == multiset(s)
    ensures SortedDesc(InsertionSort(s, key), key)
    ensures forall v :: KeyFilter(InsertionSort(s, key), key, v) == KeyFilter(s, key, v)
  {
    SortPermutes(s, key);
    SortSorts(s, key);
    forall v ensures KeyFilter(InsertionSort(s, key), key, v) == KeyFilter(s, key, v) {
      SortKeepsTies(s, key, v);
    }
  }

  lemma {:induction false} SortPermutes(s: seq<TestResult>, key: Key)
    ensures multiset(InsertionSort(s, key)) == multiset(s)
  {
    if s != [] {
      var n := |s| - 1;
      SortPermutes(s[..n], key);
      InsertPermutes(InsertionSort(s[..n], key), s[n], key);
      assert s == s[..n] + [s[n]];
    }
  }

  lemma {:induction false} SortSorts(s: seq<TestResult>, key: Key)
    ensures SortedDesc(InsertionSort(s, key), key)
  {
    if s != [] {
      var n := |s| - 1;
      SortSorts(s[..n], key);
      InsertKeepsSorted(InsertionSort(s[..n], key), s[n], key);
    }
  }

  lemma {:induction false} SortKeepsTies(s: seq<TestResult>, key: Key, v: real)
    ensures KeyFilter(InsertionSort(s, key), key, v) == KeyFilter(s, key, v)
  {
    if s != [] {
      var n := |s| - 1;
      SortKeepsTies(s[..n], key, v);
      SortSorts(s[..n], key);
      InsertFilter(InsertionSort(s[..n], key), s[n], key, v);
    }
  }

  lemma {:induction false} InsertAt(s: seq<TestResult>, x: TestResult, key: Key, j: nat)
    requires j <= |s|
    requires forall k :: 0 <= k < j ==> KeyOf(s[k], key) >= KeyOf(x, key)
    requires j == |s| || KeyOf(s[j], key) < KeyOf(x, key)
    ensures Insert(s, x, key) == s[..j] + [x] + s[j..]
  {
    if j > 0 {
      InsertAt(s[1..], x, key, j - 1);
      assert s[..j] == [s[0]] + s[1..][..j - 1];
      assert s[j..] == s[1..][j - 1..];
    }
  }

  /** `stats.sort(key=attrgetter(...), reverse=True)`, as an insertion sort
      over the list's value. */
  method SortByKey(s: seq<TestResult>, key: Key) returns (r: seq<TestResult>)
    ensures r == InsertionSort(s, key)
    ensures multiset(r) == multiset(s) && SortedDesc(r, key)
    ensures forall v :: KeyFilter(r, key, v) == KeyFilter(s, key, v)
  {
    r := [];
    for i := 0 to |s|
      invariant r == InsertionSort(s[..i], key)
    {
      var x := s[i];
      var j := 0;
      while j < |r| && KeyOf(r[j], key) >= KeyOf(x, key)
        invariant j <= |r|
        invariant forall k :: 0 <= k < j ==> KeyOf(r[k], key) >= KeyOf(x, key)
      {
        j := j + 1;
      }
      InsertAt(r, x, key, j);
      assert s[..i + 1][..i] == s[..i];
      r := r[..j] + [x] + r[j..];
    }
    assert s[..|s|] == s;
    SortIsStableSort(s, key);
  }

  lemma {:induction false} KeyFilterMembers(s: seq<TestResult>, key: Key, v: real, x: TestResult)
    requires x in KeyFilter(s, key, v)
    ensures x in s && KeyOf(x, key) == v
  {
    var n := |s| - 1;
    if x in KeyFilter(s[..n], key, v) {
      KeyFilterMembers(s[..n], key, v, x);
    }
  }

  /** Filtering keeps a list sorted in another key. */
  lemma {:induction false} KeyFilterSorted(s: seq<TestResult>, order: Key, key: Key, v: real)
    requires SortedDesc(s, order)
    ensures SortedDesc(KeyFilter(s, key, v), order)
  {
    if s != [] {
      var n := |s| - 1;
      var f := KeyFilter(s[..n], key, v);
      KeyFilterSorted(s[..n], order, key, v);
      forall i | 0 <= i < |f| ensures KeyOf(f[i], order) >= KeyOf(s[n], order) {
        KeyFilterMembers(s[..n], key, v, f[i]);
        var m :| 0 <= m < n && s[..n][m] == f[i];
        assert s[m] == f[i];
      }
    }
  }

  /** The filter of `s` around one of its elements with key `v`. */
  lemma KeyFilterAround(s: seq<TestResult>, key: Key, v: real, m: nat)
    requires m < |s| && KeyOf(s[m], key) == v
    ensures KeyFilter(s, key, v) == KeyFilter(s[..m], key, v) + [s[m]] + KeyFilter(s[m + 1..], key, v)
  {
    assert s == s[..m] + [s[m]] + s[m + 1..];
    KeyFilterConcat(s[..m] + [s[m]], s[m + 1..], key, v);
    KeyFilterConcat(s[..m], [s[m]], key, v);
    KeyFilterSingle(s[m], key, v);
  }

  /** An element with key `v` at index i of `s` sits, in the filter, at the
      number of such elements before i; a later such element sits further on. */
  lemma KeyFilterPosition(s: seq<TestResult>, key: Key, v: real, i: nat, j: nat)
    requires i < j < |s| && KeyOf(s[i], key) == v && KeyOf(s[j], key) == v
    ensures |KeyFilter(s[..i], key, v)| < |KeyFilter(s[..j], key, v)| < |KeyFilter(s, key, v)|
    ensures KeyFilter(s, key, v)[|KeyFilter(s[..i], key, v)|] == s[i]
    ensures KeyFilter(s, key, v)[|KeyFilter(s[..j], key, v)|] == s[j]
  {
    KeyFilterAround(s, key, v, i);
    KeyFilterAround(s, key, v, j);
    assert s[..j][..i] == s[..i] && s[..j][i] == s[i];
    KeyFilterAround(s[..j], key, v, i);
  }

  /** After sorting by average and then by peak, the list is a permutation
      of the results ordered by peak rate, and mirrors with equal peak rates
      stay in average-rate order. */
  lemma PeakRankingBreaksTiesByAverage(stats: seq<TestResult>)
    ensures var byPeak := InsertionSort(InsertionSort(stats, AvgRate), MaxRate);
      multiset(byPeak) == multiset(stats) && SortedDesc(byPeak, MaxRate) &&
      forall i, j :: 0 <= i < j < |byPeak| && byPeak[i].maxRate == byPeak[j].maxRate ==>
        byPeak[i].avgRate >= byPeak[j].avgRate
  {
    var byAvg := InsertionSort(stats, AvgRate);
    var byPeak := InsertionSort(byAvg, MaxRate);
    SortIsStableSort(stats, AvgRate);
    SortIsStableSort(byAvg, MaxRate);
    forall i, j | 0 <= i < j < |byPeak| && byPeak[i].maxRate == byPeak[j].maxRate
      ensures byPeak[i].avgRate >= byPeak[j].avgRate
    {
      var v := byPeak[i].maxRate;
      var f := KeyFilter(byPeak, MaxRate, v);
      assert f == KeyFilter(byAvg, MaxRate, v);
      KeyFilterSorted(byAvg, AvgRate, MaxRate, v);
      KeyFilterPosition(byPeak, MaxRate, v, i, j);
    }
  }

  /** The rows `print_stats` prints for `stats`: the chosen rate and the
      templated URL, or the assertion error of the first URL without the
      release segment. */
  function PrintedRows(stats: seq<TestResult>, version: string, arch: string, key: Key): (r: Result<seq<(real, string)>>)
    ensures r.Ok? <==> forall k :: 0 <= k < |stats| ==> RepoUrl.Contains(stats[k].url, RepoUrl.ReleasePath(version, arch))
    ensures r.Err? ==> r.error == AssertionError
    ensures r.Ok? ==> (|r.value| == |stats| &&
      forall k :: 0 <= k < |stats| ==>
        r.value[k] == (KeyOf(stats[k], key), RepoUrl.ToRepoUrl(stats[k].url, version, arch).value))
  {
    if stats == [] then Ok([])
    else
      var url := RepoUrl.ToRepoUrl(stats[0].url, version, arch);
      if url.Err? then Err(url.error)
      else
        var rest := PrintedRows(stats[1..], version, arch, key);
        if rest.Err? then rest
        else Ok([(KeyOf(stats[0], key), url.value)] + rest.value)
  }

  /** The peak printout fails only if the average printout, which comes
      first, already failed: both print the same mirrors. */
  lemma PeakRowsFollowAverageRows(byAvg: seq<TestResult>, byPeak: seq<TestResult>, version: string, arch: string)
    requires multiset(byPeak) == multiset(byAvg)
    ensures PrintedRows(byAvg, version, arch, AvgRate).Ok? ==> PrintedRows(byPeak, version, arch, MaxRate).Ok?
  {
    if PrintedRows(byAvg, version, arch, AvgRate).Ok? {
      forall k | 0 <= k < |byPeak| ensures RepoUrl.Contains(byPeak[k].url, RepoUrl.ReleasePath(version, arch)) {
        assert byPeak[k] in multiset(byAvg);
        var m :| 0 <= m < |byAvg| && byAvg[m] == byPeak[k];
      }
    }
  }

  /** What `_main` prints in its two sections. */
  datatype Report = Report(
    byAverage: seq<TestResult>, averageRows: seq<(real, string)>,
    byPeak: seq<TestResult>, peakRows: seq<(real, string)>)

  /** The part of `_main` after probing: sort by average and print, then
      sort the same list by peak and print. */
  function Rank(stats: seq<TestResult>, version: string, arch: string): (r: Result<Report>)
    ensures r.Err? ==> r.error == AssertionError
    ensures r.Ok? ==> (|r.value.averageRows| == |r.value.byAverage| && |r.value.peakRows| == |r.value.byPeak| &&
      r.value.byAverage == InsertionSort(stats, AvgRate) && r.value.byPeak == InsertionSort(r.value.byAverage, MaxRate))
  {
    var byAvg := InsertionSort(stats, AvgRate);
    var avgRows := PrintedRows(byAvg, version, arch, AvgRate);
    if avgRows.Err? then Err(avgRows.error)
    else
      var byPeak := InsertionSort(byAvg, MaxRate);
      var peakRows := PrintedRows(byPeak, version, arch, MaxRate);
      if peakRows.Err? then Err(peakRows.error)
      else Ok(Report(byAvg, avgRows.value, byPeak, peakRows.value))
  }

  /** `_main` from the fetched mirror-list body on: `Ok` with both rankings
      and printouts, or the exception that ended the run. */
  function Run(body: string, maxMirrors: Option<int>, trials: seq<Trial>, version: string, arch: string): Result<Report>
    requires |trials| == |Truncate(MirrorList.GetMirrorList(body), maxMirrors)| && ValidTrials(trials)
  {
    var collected := Collect(Truncate(MirrorList.GetMirrorList(body), maxMirrors), ProbeOutcomes(trials));
    if collected.Err? then Err(collected.error) else Rank(collected.value, version, arch)
  }

  /** `_main`: truncate, probe, sort by average and print, sort by peak and print. */
  method BestMirrors(body: string, maxMirrors: Option<int>, trials: seq<Trial>, version: string, arch: string)
    returns (r: Result<Report>)
    requires |trials| == |Truncate(MirrorList.GetMirrorList(body), maxMirrors)| && ValidTrials(trials)
    ensures r == Run(body, maxMirrors, trials, version, arch)
  {
    var mirrors := MirrorList.GetMirrorList(body);
    if maxMirrors.Some? && maxMirrors.value != 0 {
      mirrors := mirrors[..SliceEnd(maxMirrors.value, |mirrors|)];
    }
    var collected := GetTopUrls(mirrors, trials);
    if collected.Err? {
      return Err(collected.error);
    }
    var stats := SortByKey(collected.value, AvgRate);
    var avgRows := PrintedRows(stats, version, arch, AvgRate);
    if avgRows.Err? {
      return Err(avgRows.error);
    }
    var byAvg := stats;
    stats := SortByKey(stats, MaxRate);
    var peakRows := PrintedRows(stats, version, arch, MaxRate);
    if peakRows.Err? {
      return Err(peakRows.error);
    }
    r := Ok(Report(byAvg, avgRows.value, stats, peakRows.value));
  }

  /** The rankings fail only by the `assert` of `to_repo_url`, exactly when
      some result's URL lacks the release segment, and never through the
      peak printout alone. */
  lemma RankFailsOnlyOnMissingSegment(stats: seq<TestResult>, version: string, arch: string)
    ensures Rank(stats, version, arch).Err? <==>
      exists k :: 0 <= k < |stats| && !RepoUrl.Contains(stats[k].url, RepoUrl.ReleasePath(version, arch))
    ensures Rank(stats, version, arch).Err? ==> Rank(stats, version, arch).error == AssertionError
    ensures Rank(stats, version, arch).Err? ==> PrintedRows(InsertionSort(stats, AvgRate), version, arch, AvgRate).Err?
  {
    var byAvg := InsertionSort(stats, AvgRate);
    SortIsStableSort(stats, AvgRate);
    SortIsStableSort(byAvg, MaxRate);
    PeakRowsFollowAverageRows(byAvg, InsertionSort(byAvg, MaxRate), version, arch);
    if PrintedRows(byAvg, version, arch, AvgRate).Err? {
      var k :| 0 <= k < |byAvg| && !RepoUrl.Contains(byAvg[k].url, RepoUrl.ReleasePath(version, arch));
      assert byAvg[k] in multiset(stats);
      var m :| 0 <= m < |stats| && stats[m] == byAvg[k];
    } else {
      forall k | 0 <= k < |stats|
        ensures RepoUrl.Contains(stats[k].url, RepoUrl.ReleasePath(version, arch))
      {
        assert stats[k] in multiset(byAvg);
        var m :| 0 <= m < |byAvg| && byAvg[m] == stats[k];
      }
    }
  }

  /** A successful ranking lists exactly the given results twice: once as a
      stable descending sort by average rate, once descending by peak rate
      with ties in average order; the printed rows follow the lists. */
  lemma RankOrdersResults(stats: seq<TestResult>, version: string, arch: string)
    requires Rank(stats, version, arch).Ok?
    ensures var rep := Rank(stats, version, arch).value;
      multiset(rep.byAverage) == multiset(stats) &&
      SortedDesc(rep.byAverage, AvgRate) &&
      (forall v :: KeyFilter(rep.byAverage, AvgRate, v) == KeyFilter(stats, AvgRate, v)) &&
      multiset(rep.byPeak) == multiset(stats) &&
      SortedDesc(rep.byPeak, MaxRate) &&
      (forall i, j :: 0 <= i < j < |rep.byPeak| && rep.byPeak[i].maxRate == rep.byPeak[j].maxRate ==>
        rep.byPeak[i].avgRate >= rep.byPeak[j].avgRate) &&
      |rep.averageRows| == |rep.byAverage| && |rep.peakRows| == |rep.byPeak| &&
      (forall k :: 0 <= k < |rep.averageRows| ==> rep.averageRows[k].0 == rep.byAverage[k].avgRate) &&
      (forall k :: 0 <= k < |rep.peakRows| ==> rep.peakRows[k].0 == rep.byPeak[k].maxRate)
  {
    SortIsStableSort(stats, AvgRate);
    PeakRankingBreaksTiesByAverage(stats);
  }

  /** A run fails exactly when a download measured zero elapsed time, or
      when all probes succeed in that sense but a result's URL lacks the
      release segment. A successful run ranks exactly the mirrors of the
      truncated list whose probe did not raise `OSError`, in list order
      before sorting. */
  lemma RunRanksSuccessfulMirrors(body: string, maxMirrors: Option<int>, trials: seq<Trial>, version: string, arch: string)
    requires |trials| == |Truncate(MirrorList.GetMirrorList(body), maxMirrors)| && ValidTrials(trials)
    ensures var mirrors := Truncate(MirrorList.GetMirrorList(body), maxMirrors);
      var collected := Collect(mirrors, ProbeOutcomes(trials));
      var r := Run(body, maxMirrors, trials, version, arch);
      (collected.Err? <==> exists i :: 0 <= i < |trials| && trials[i].Streamed? && trials[i].elapsed == 0.0) &&
      (collected.Err? ==> r == Err(ZeroDivisionError)) &&
      (collected.Ok? ==> (r == Rank(collected.value, version, arch) &&
        RecordsSuccesses(mirrors, ProbeOutcomes(trials), collected.value, Succeeded(ProbeOutcomes(trials)))))
  {
    var mirrors := Truncate(MirrorList.GetMirrorList(body), maxMirrors);
    var outcomes := ProbeOutcomes(trials);
    GetTopUrlsFailsOnlyByZeroTime(mirrors, trials);
    if Collect(mirrors, outcomes).Ok? {
      CollectKeepsSuccesses(mirrors, outcomes);
    } else {
      CollectFailsOnlyByFatal(mirrors, outcomes);
    }
  }
}
