/**
 * The summary stage of the humm command: probe records are grouped by
 * status code as they arrive, the status codes are gathered and sorted,
 * each group is optionally sorted by URL string, and the report lines are
 * rendered with 200s hidden unless asked for and credentials stripped.
 */
module MainSummary {
  import opened Wrappers
  import opened Humm
  import opened Sorting
  import opened MainLinks

  /** The status codes that occur in `stats`. */
  function Codes(stats: seq<LinkStats>): set<int>
  {
    set i | 0 <= i < |stats| :: stats[i].statusCode
  }

  /** The records of `stats` with status code `c`, in arrival order. */
  function WithCode(stats: seq<LinkStats>, c: int): seq<LinkStats>
  {
    if |stats| == 0 then []
    else
      var rest := WithCode(stats[..|stats| - 1], c);
      if stats[|stats| - 1].statusCode == c then rest + [stats[|stats| - 1]] else rest
  }

  /**
   * One step of the receive loop: the record is appended to the group of its
   * status code, which is created when absent; every other group is unchanged.
   */
  function AddResult(summary: SpiderSummary, stat: LinkStats): (r: SpiderSummary)
    ensures r.results.Keys == summary.results.Keys + {stat.statusCode}
    ensures stat.statusCode !in summary.results ==> r.results[stat.statusCode] == [stat]
    ensures stat.statusCode in summary.results ==>
      r.results[stat.statusCode] == summary.results[stat.statusCode] + [stat]
    ensures forall c :: c in summary.results && c != stat.statusCode ==> r.results[c] == summary.results[c]
  {
    var c := stat.statusCode;
    var group := if c in summary.results then summary.results[c] else [];
    summary.(results := summary.results[c := group + [stat]])
  }

  /**
   * The receive loop over the records in the order they arrived: the groups
   * are exactly the status codes seen, each holding its records in arrival order.
   */
  method CollectResults(stats: seq<LinkStats>) returns (summary: SpiderSummary)
    ensures summary.results.Keys == Codes(stats)
    ensures forall c :: c in summary.results ==> summary.results[c] == WithCode(stats, c)
  {
    summary := SpiderSummary(map[]);
    for i := 0 to |stats|
      invariant summary.results.Keys == Codes(stats[..i])
      invariant forall c :: c in summary.results ==> summary.results[c] == WithCode(stats[..i], c)
    {
      var prefix := stats[..i + 1];
      assert prefix[..i] == stats[..i] && prefix[i] == stats[i];
      assert Codes(prefix) == Codes(stats[..i]) + {stats[i].statusCode} by {
        forall c | c in Codes(prefix) ensures c in Codes(stats[..i]) + {stats[i].statusCode} {
          var k :| 0 <= k < |prefix| && prefix[k].statusCode == c;
          if k < i { assert stats[..i][k] == prefix[k]; }
        }
        forall c | c in Codes(stats[..i]) ensures c in Codes(prefix) {
          var k :| 0 <= k < i && stats[..i][k].statusCode == c;
          assert prefix[k] == stats[..i][k];
        }
        assert prefix[i].statusCode in Codes(prefix);
      }
      if stats[i].statusCode !in summary.results {
        CodeNotSeen(stats[..i], stats[i].statusCode);
      }
      forall c ensures WithCode(prefix, c) ==
        WithCode(stats[..i], c) + (if stats[i].statusCode == c then [stats[i]] else [])
      {
      }
      summary := AddResult(summary, stats[i]);
    }
    assert stats[..|stats|] == stats;
  }

  /** A code that has not arrived has no records. */
  lemma {:induction false} CodeNotSeen(stats: seq<LinkStats>, c: int)
    requires c !in Codes(stats)
    ensures WithCode(stats, c) == []
  {
    if |stats| > 0 {
      var init := stats[..|stats| - 1];
      assert stats[|stats| - 1].statusCode in Codes(stats);
      forall k | 0 <= k < |init| ensures init[k].statusCode != c {
        assert stats[k] == init[k];
        assert stats[k].statusCode in Codes(stats);
      }
      CodeNotSeen(init, c);
    }
  }

  /** A group holds exactly the records with its code. */
  lemma {:induction false} WithCodeMembers(stats: seq<LinkStats>, c: int)
    ensures forall x :: x in WithCode(stats, c) <==> x in stats && x.statusCode == c
  {
    if |stats| > 0 {
      WithCodeMembers(stats[..|stats| - 1], c);
      assert stats == stats[..|stats| - 1] + [stats[|stats| - 1]];
    }
  }

  /** Grouping keeps arrival order: records that arrive later come later in their group. */
  lemma {:induction false} WithCodeAppend(a: seq<LinkStats>, b: seq<LinkStats>, c: int)
    ensures WithCode(a + b, c) == WithCode(a, c) + WithCode(b, c)
  {
    if |b| > 0 {
      var b' := b[..|b| - 1];
      assert (a + b)[..|a + b| - 1] == a + b';
      assert (a + b)[|a + b| - 1] == b[|b| - 1];
      WithCodeAppend(a, b', c);
    } else {
      assert a + b == a;
    }
  }

  /** The total size of the groups of `stats` for the codes `keys`. */
  function SumSizes(stats: seq<LinkStats>, keys: seq<int>): nat
  {
    if |keys| == 0 then 0 else |WithCode(stats, keys[0])| + SumSizes(stats, keys[1..])
  }

  lemma {:induction false} SumSizesStep(init: seq<LinkStats>, x: LinkStats, keys: seq<int>)
    requires NoDuplicates(keys)
    ensures SumSizes(init + [x], keys) == SumSizes(init, keys) + (if x.statusCode in keys then 1 else 0)
  {
    assert (init + [x])[..|init|] == init;
    if |keys| > 0 {
      assert NoDuplicates(keys[1..]);
      SumSizesStep(init, x, keys[1..]);
      assert keys == [keys[0]] + keys[1..];
    }
  }

  /** Every record is in exactly one group: over all codes, the group sizes add up to the record count. */
  lemma {:induction false} GroupSizesSum(stats: seq<LinkStats>, keys: seq<int>)
    requires NoDuplicates(keys)
    requires forall c :: c in Codes(stats) ==> c in keys
    ensures SumSizes(stats, keys) == |stats|
  {
    if |stats| == 0 {
      ZeroSizes(keys);
    } else {
      var init, x := stats[..|stats| - 1], stats[|stats| - 1];
      assert stats == init + [x];
      forall c | c in Codes(init) ensures c in keys {
        var k :| 0 <= k < |init| && init[k].statusCode == c;
        assert stats[k] == init[k];
      }
      GroupSizesSum(init, keys);
      SumSizesStep(init, x, keys);
      assert x.statusCode in Codes(stats);
    }
  }

  lemma {:induction false} ZeroSizes(keys: seq<int>)
    ensures SumSizes([], keys) == 0
  {
    if |keys| > 0 {
      ZeroSizes(keys[1..]);
    }
  }

  /** The total size of the groups `keys` of a results map. */
  function GroupTotal(results: map<int, seq<LinkStats>>, keys: seq<int>): nat
    requires forall k :: k in keys ==> k in results
  {
    if |keys| == 0 then 0
    else
      var k := keys[0];
      assert k in keys;
      assert k in results;
      |results[k]| + GroupTotal(results, keys[1..])
  }

  /** After the receive loop, the groups together hold exactly as many records as arrived. */
  lemma {:induction false} CollectedSizesSum(stats: seq<LinkStats>, summary: SpiderSummary, keys: seq<int>)
    requires summary.results.Keys == Codes(stats)
    requires forall c :: c in summary.results ==> summary.results[c] == WithCode(stats, c)
    requires NoDuplicates(keys)
    requires forall k :: k in keys <==> k in summary.results
    ensures GroupTotal(summary.results, keys) == |stats|
  {
    GroupTotalIsSumSizes(stats, summary, keys);
    GroupSizesSum(stats, keys);
  }

  lemma {:induction false} GroupTotalIsSumSizes(stats: seq<LinkStats>, summary: SpiderSummary, keys: seq<int>)
    requires forall c :: c in summary.results ==> summary.results[c] == WithCode(stats, c)
    requires forall k :: k in keys ==> k in summary.results
    ensures GroupTotal(summary.results, keys) == SumSizes(stats, keys)
  {
    if |keys| > 0 {
      GroupTotalIsSumSizes(stats, summary, keys[1..]);
    }
  }

  // ---------------------------------------------------------------------
  // Status keys
  // ---------------------------------------------------------------------

  /** A duplicate-free sequence counts each value at most once. */
  lemma {:induction false} DistinctCountsAtMostOne(s: seq<int>)
    requires NoDuplicates(s)
    ensures forall x :: multiset(s)[x] <= 1
  {
    if |s| > 0 {
      var init := s[..|s| - 1];
      assert s == init + [s[|s| - 1]];
      assert NoDuplicates(init);
      DistinctCountsAtMostOne(init);
      assert s[|s| - 1] !in init;
    }
  }

  /** A permutation of a duplicate-free sequence is duplicate-free. */
  lemma DistinctPermutation(s: seq<int>, t: seq<int>)
    requires NoDuplicates(s) && multiset(s) == multiset(t)
    ensures NoDuplicates(t)
  {
    DistinctCountsAtMostOne(s);
    forall i, j | 0 <= i < j < |t| ensures t[i] != t[j] {
      assert t == t[..j] + [t[j]] + t[j + 1..];
      assert t[..j][i] == t[i];
      assert multiset(t)[t[j]] == multiset(t[..j])[t[j]] + 1 + multiset(t[j + 1..])[t[j]];
      assert multiset(t[..j])[t[i]] >= 1;
    }
  }

  /**
   * The status keys: the map's keys, gathered in whatever order the map
   * yields them and then sorted, so strictly ascending.
   */
  method GatherStatusKeys(results: map<int, seq<LinkStats>>) returns (keys: seq<int>)
    ensures forall k :: k in keys <==> k in results
    ensures forall i, j :: 0 <= i < j < |keys| ==> keys[i] < keys[j]
  {
    var unordered: seq<int> := [];
    var remaining := results.Keys;
    while remaining != {}
      invariant remaining <= results.Keys
      invariant forall k :: k in unordered <==> k in results && k !in remaining
      invariant NoDuplicates(unordered)
      decreases remaining
    {
      assert (forall k :: k !in remaining) ==> remaining == {};
      var k :| k in remaining;
      unordered := unordered + [k];
      remaining := remaining - {k};
    }
    var a := new int[|unordered|](i requires 0 <= i < |unordered| => unordered[i]);
    assert a[..] == unordered;
    IntLessIsStrictWeakOrder();
    SortSlice(a, (x: int, y: int) => x < y);
    keys := a[..];
    DistinctPermutation(unordered, keys);
    assert forall k :: k in keys <==> k in multiset(unordered);
  }

  // ---------------------------------------------------------------------
  // Sorting a group by URL string
  // ---------------------------------------------------------------------

  /** The records ordered by the string form of their URL, non-decreasing. */
  predicate SortedByUrl(group: seq<LinkStats>, show: Url -> string)
  {
    forall i, j :: 0 <= i < j < |group| ==> !StrLess(show(group[j].url), show(group[i].url))
  }

  /** The per-group sort.Slice by `Url.String()`, with `show` standing for that serialisation. */
  method SortGroupByUrl(group: seq<LinkStats>, show: Url -> string) returns (sorted: seq<LinkStats>)
    ensures multiset(sorted) == multiset(group)
    ensures SortedByUrl(sorted, show)
  {
    var a := new LinkStats[|group|](i requires 0 <= i < |group| => group[i]);
    assert a[..] == group;
    var key := (s: LinkStats) => show(s.url);
    StrLessByKeyIsStrictWeakOrder(key);
    SortSlice(a, ByKey(key));
    sorted := a[..];
  }

  // ---------------------------------------------------------------------
  // Rendering
  // ---------------------------------------------------------------------

  /**
   * A report line: a group's header with its size, or one listed record.
   * The bracketed page-type column of an entry is computed from the listed
   * URL, so it is given by PageColumn rather than stored.
   */
  datatype Line =
    | Header(statusCode: int, count: nat)
    | Entry(statusCode: int, url: Url)

  /** The page-type column printed after an entry's URL. */
  function PageColumn(l: Line): string
    requires l.Entry?
  {
    DeterminePageType(l.url)
  }

  /** The listed form of a record: its URL without credentials. */
  function EntryLine(code: int, stat: LinkStats): (l: Line)
    ensures l.Entry? && l.statusCode == code && l.url.user == None
    ensures l.url == RemoveBasicAuth(stat.url)
  {
    Entry(code, RemoveBasicAuth(stat.url))
  }

  /**
   * The page type printed for a record is that of its own URL: removing
   * the credentials first does not change it.
   */
  lemma EntryPageColumn(code: int, stat: LinkStats)
    ensures PageColumn(EntryLine(code, stat)) == DeterminePageType(stat.url)
  {
    PageTypeIgnoresCredentials(stat.url);
  }

  /** The lines listed for one group: none for 200 unless asked for, else one per record. */
  function GroupLines(code: int, group: seq<LinkStats>, show200: bool): seq<Line>
  {
    if code == 200 && !show200 then []
    else seq(|group|, i requires 0 <= i < |group| => EntryLine(code, group[i]))
  }

  /** The listing loop of one group. */
  method RenderGroup(code: int, group: seq<LinkStats>, show200: bool) returns (lines: seq<Line>)
    ensures lines == GroupLines(code, group, show200)
  {
    lines := [];
    for i := 0 to |group|
      invariant lines == if code == 200 && !show200 then [] else
        seq(i, n requires 0 <= n < i => EntryLine(code, group[n]))
    {
      if code == 200 && !show200 {
        continue;
      }
      lines := lines + [EntryLine(code, group[i])];
    }
  }

  /** The whole report: for each key in order, its header and then its listed records. */
  function Report(results: map<int, seq<LinkStats>>, keys: seq<int>, show200: bool): seq<Line>
  {
    if |keys| == 0 then []
    else
      var k := keys[|keys| - 1];
      var group := GroupOf(results, k);
      Report(results, keys[..|keys| - 1], show200) + [Header(k, |group|)] + GroupLines(k, group, show200)
  }

  /** The group of a status code; the report only asks for codes that are keys. */
  function GroupOf(results: map<int, seq<LinkStats>>, k: int): seq<LinkStats>
  {
    if k in results then results[k] else []
  }

  /**
   * Extending the listed keys by one appends that key's section; groups of
   * keys already listed that did not change leave the earlier lines valid.
   */
  lemma ReportExtend(results: map<int, seq<LinkStats>>, keys: seq<int>, i: nat,
                     group: seq<LinkStats>, out: seq<Line>, show200: bool)
    requires i < |keys| && keys[i] !in keys[..i]
    requires out == [Header(keys[i], |group|)] + GroupLines(keys[i], group, show200)
    ensures Report(results[keys[i] := group], keys[..i + 1], show200) == Report(results, keys[..i], show200) + out
  {
    var results' := results[keys[i] := group];
    var ks := keys[..i + 1];
    assert ks[..|ks| - 1] == keys[..i] && ks[|ks| - 1] == keys[i];
    assert GroupOf(results', keys[i]) == group;
    assert Report(results', ks, show200) == Report(results', keys[..i], show200) + out;
    forall k | k in keys[..i] ensures GroupOf(results, k) == GroupOf(results', k) {
    }
    ReportFrame(results, results', keys[..i], show200);
  }

  /** The report reads only the groups it lists. */
  lemma {:induction false} ReportFrame(m1: map<int, seq<LinkStats>>, m2: map<int, seq<LinkStats>>, keys: seq<int>, show200: bool)
    requires forall k :: k in keys ==> GroupOf(m1, k) == GroupOf(m2, k)
    ensures Report(m1, keys, show200) == Report(m2, keys, show200)
  {
    if |keys| > 0 {
      ReportFrame(m1, m2, keys[..|keys| - 1], show200);
    }
  }

  /** No listed URL carries credentials, and no 200 is listed unless asked for. */
  lemma {:induction false} ReportIsSafe(results: map<int, seq<LinkStats>>, keys: seq<int>, show200: bool)
    requires forall k :: k in keys ==> k in results
    ensures forall l :: l in Report(results, keys, show200) && l.Entry? ==> l.url.user == None
    ensures forall l :: l in Report(results, keys, show200) && l.Entry? && l.statusCode == 200 ==> show200
  {
    if |keys| > 0 {
      ReportIsSafe(results, keys[..|keys| - 1], show200);
    }
  }

  /**
   * The listed entries are exactly the stripped records of the listed groups:
   * each entry comes from a record of its group, and each record of a group
   * that is not a hidden 200 is listed.
   */
  lemma {:induction false} ReportListsExactlyTheRecords(results: map<int, seq<LinkStats>>, keys: seq<int>, show200: bool)
    requires forall k :: k in keys ==> k in results
    ensures forall l :: l in Report(results, keys, show200) && l.Entry? ==>
      l.statusCode in keys && exists st :: st in results[l.statusCode] && l == EntryLine(l.statusCode, st)
    ensures forall k, st :: k in keys && st in results[k] && (k != 200 || show200) ==>
      EntryLine(k, st) in Report(results, keys, show200)
  {
    if |keys| > 0 {
      var init, k := keys[..|keys| - 1], keys[|keys| - 1];
      assert keys == init + [k];
      ReportListsExactlyTheRecords(results, init, show200);
      var g := GroupLines(k, results[k], show200);
      forall l | l in g ensures exists st :: st in results[k] && l == EntryLine(k, st) {
        var n :| 0 <= n < |g| && g[n] == l;
        assert results[k][n] in results[k];
      }
      forall st | st in results[k] && (k != 200 || show200) ensures EntryLine(k, st) in g {
        var n :| 0 <= n < |results[k]| && results[k][n] == st;
        assert g[n] == EntryLine(k, st);
      }
    }
  }

  /** The header lines of a report, in order. */
  function Headers(lines: seq<Line>): seq<Line>
  {
    if |lines| == 0 then []
    else Headers(lines[..|lines| - 1]) + (if lines[|lines| - 1].Header? then [lines[|lines| - 1]] else [])
  }

  lemma {:induction false} HeadersAppend(a: seq<Line>, b: seq<Line>)
    ensures Headers(a + b) == Headers(a) + Headers(b)
  {
    if |b| > 0 {
      var b' := b[..|b| - 1];
      assert (a + b)[..|a + b| - 1] == a + b';
      assert (a + b)[|a + b| - 1] == b[|b| - 1];
      HeadersAppend(a, b');
    } else {
      assert a + b == a;
    }
  }

  lemma {:induction false} NoHeadersInGroup(code: int, group: seq<LinkStats>, show200: bool)
    ensures Headers(GroupLines(code, group, show200)) == []
  {
    var g := GroupLines(code, group, show200);
    if |g| > 0 {
      assert g[..|g| - 1] == GroupLines(code, group[..|g| - 1], show200);
      NoHeadersInGroup(code, group[..|g| - 1], show200);
    }
  }

  lemma HeadersOfSection(r0: seq<Line>, h: Line, g: seq<Line>)
    requires h.Header? && Headers(g) == []
    ensures Headers(r0 + [h] + g) == Headers(r0) + [h]
  {
    HeadersAppend(r0 + [h], g);
    HeadersAppend(r0, [h]);
    assert [h][..0] == [];
  }

  /** Every key gets one header, with its group's size, in the order of the keys. */
  lemma {:induction false} ReportHeaders(results: map<int, seq<LinkStats>>, keys: seq<int>, show200: bool)
    ensures |Headers(Report(results, keys, show200))| == |keys|
    ensures forall i :: 0 <= i < |keys| ==>
      Headers(Report(results, keys, show200))[i] == Header(keys[i], |GroupOf(results, keys[i])|)
  {
    if |keys| > 0 {
      var init, k := keys[..|keys| - 1], keys[|keys| - 1];
      var h := Header(k, |GroupOf(results, k)|);
      var g := GroupLines(k, GroupOf(results, k), show200);
      var r0 := Report(results, init, show200);
      assert Report(results, keys, show200) == r0 + [h] + g;
      ReportHeaders(results, init, show200);
      NoHeadersInGroup(k, GroupOf(results, k), show200);
      HeadersOfSection(r0, h, g);
      var hs := Headers(r0) + [h];
      forall i | 0 <= i < |keys| ensures hs[i] == Header(keys[i], |GroupOf(results, keys[i])|) {
        if i < |init| {
          assert init[i] == keys[i];
        }
      }
    }
  }

  /**
   * What the report stage does to one group: with sort field "url" it becomes
   * a permutation of itself in URL-string order, otherwise it is kept as it arrived.
   */
  predicate Reordered(before: seq<LinkStats>, after: seq<LinkStats>, sortField: string, show: Url -> string)
  {
    if sortField == "url" then multiset(after) == multiset(before) && SortedByUrl(after, show)
    else after == before
  }

  /**
   * One key of the report stage: its header, then (for sort field "url")
   * its group sorted, then its listed records.
   */
  method ReportGroup(key: int, group: seq<LinkStats>, sortField: string, show200: bool, show: Url -> string)
    returns (group': seq<LinkStats>, out: seq<Line>)
    ensures Reordered(group, group', sortField, show)
    ensures out == [Header(key, |group'|)] + GroupLines(key, group', show200)
  {
    var header := Header(key, |group|);
    group' := group;
    if sortField == "url" {
      group' := SortGroupByUrl(group, show);
      assert |group'| == |multiset(group')| == |group|;
    }
    var groupLines := RenderGroup(key, group', show200);
    out := [header] + groupLines;
  }

  /**
   * The printing loop over the sorted keys: each key's group is reordered in
   * place and its section appended to the output.
   */
  method ReportKeys(summary: map<int, seq<LinkStats>>, keys: seq<int>, sortField: string, show200: bool, show: Url -> string)
    returns (results: map<int, seq<LinkStats>>, lines: seq<Line>)
    requires forall n :: 0 <= n < |keys| ==> keys[n] in summary
    requires forall i, j :: 0 <= i < j < |keys| ==> keys[i] < keys[j]
    ensures results.Keys == summary.Keys
    ensures forall n :: 0 <= n < |keys| ==> Reordered(summary[keys[n]], results[keys[n]], sortField, show)
    ensures forall k :: k in summary && k !in keys ==> results[k] == summary[k]
    ensures lines == Report(results, keys, show200)
  {
    results := summary;
    lines := [];
    for i := 0 to |keys|
      invariant results.Keys == summary.Keys
      invariant forall n :: 0 <= n < i ==> Reordered(summary[keys[n]], results[keys[n]], sortField, show)
      invariant forall k :: k in summary && k !in keys[..i] ==> results[k] == summary[k]
      invariant lines == Report(results, keys[..i], show200)
    {
      var key := keys[i];
      var group, out := ReportGroup(key, summary[key], sortField, show200, show);
      assert key !in keys[..i];
      ReportExtend(results, keys, i, group, out, show200);
      results, lines := results[key := group], lines + out;
    }
    assert keys[..|keys|] == keys;
  }

  /**
   * The report stage: gather and sort the status keys, then for each key
   * print its header, sort its group by URL string when the sort field is
   * "url" (in place, so the summary itself ends up sorted), and list its
   * records.
   */
  method Finalize(summary: SpiderSummary, sortField: string, show200: bool, show: Url -> string)
    returns (final: SpiderSummary, keys: seq<int>, lines: seq<Line>)
    ensures forall k :: k in keys <==> k in summary.results
    ensures forall i, j :: 0 <= i < j < |keys| ==> keys[i] < keys[j]
    ensures final.results.Keys == summary.results.Keys
    ensures forall k :: k in final.results ==> Reordered(summary.results[k], final.results[k], sortField, show)
    ensures sortField != "url" ==> final == summary
    ensures lines == Report(final.results, keys, show200)
  {
    keys := GatherStatusKeys(summary.results);
    forall n | 0 <= n < |keys| ensures keys[n] in summary.results {
      assert keys[n] in keys;
    }
    var results;
    results, lines := ReportKeys(summary.results, keys, sortField, show200, show);
    forall k | k in results ensures Reordered(summary.results[k], results[k], sortField, show) {
      var n :| 0 <= n < |keys| && keys[n] == k;
    }
    final := SpiderSummary(results);
  }
}
