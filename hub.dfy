/** The list and state logic of the content hub screen (App.tsx): the page filter and its
    pagination, selection and sort toggles, the set of stopped generation jobs, the
    god-mode log parser and the one-entry-per-line text fields. */
module Hub {
  import opened Text
  import opened Pages

  // ------------------------------------------------------------------ filtering

  predicate PriorityIs(page: SitemapPage, priority: string) {
    page.updatePriority == Some(priority)
  }

  /** Title or address contains the search text, ignoring case. */
  predicate SearchHits(page: SitemapPage, search: string) {
    Contains(ToLower(page.title), ToLower(search)) || Contains(ToLower(page.id), ToLower(search))
  }

  /** `filteredAndSortedHubPages`: the status filter (unless it is "All") and then the search
      filter (unless it is empty). Nothing is sorted. */
  function HubFilter(pages: seq<SitemapPage>, statusFilter: string, search: string): (r: seq<SitemapPage>)
    ensures forall p :: p in r <==>
              p in pages && (statusFilter == "All" || PriorityIs(p, statusFilter)) && (search == "" || SearchHits(p, search))
    ensures IsSubsequence(r, pages)
    ensures forall p :: multiset(r)[p] ==
              if (statusFilter == "All" || PriorityIs(p, statusFilter)) && (search == "" || SearchHits(p, search))
              then multiset(pages)[p] else 0
  {
    var byStatus := if statusFilter != "All" then Keep(pages, p => PriorityIs(p, statusFilter)) else pages;
    var r := if search != "" then Keep(byStatus, p => SearchHits(p, search)) else byStatus;
    KeepFacts(pages, p => PriorityIs(p, statusFilter));
    KeepFacts(byStatus, p => SearchHits(p, search));
    assert IsSubsequence(byStatus, pages) by {
      KeepAll(pages, p => true);
      KeepFacts(pages, p => true);
    }
    assert IsSubsequence(r, byStatus) by {
      KeepAll(byStatus, p => true);
      KeepFacts(byStatus, p => true);
    }
    SubsequenceTransitive(r, byStatus, pages);
    forall p | true
      ensures multiset(r)[p] ==
                if (statusFilter == "All" || PriorityIs(p, statusFilter)) && (search == "" || SearchHits(p, search))
                then multiset(pages)[p] else 0
    {
      KeepCounts(pages, p => PriorityIs(p, statusFilter), p);
      KeepCounts(byStatus, p => SearchHits(p, search), p);
    }
    r
  }

  // ------------------------------------------------------------------ pagination

  const ItemsPerPage: nat := 20

  /** Where `slice` puts an index: counted from the end when negative, then clipped. */
  function SliceIndex(i: int, n: nat): (r: nat)
    ensures r <= n
    ensures 0 <= i <= n ==> r == i
    ensures i > n ==> r == n
  {
    if i < 0 then (if n + i < 0 then 0 else n + i) else if i > n then n else i
  }

  /** `s.slice(start, end)`. */
  function JsSlice<T>(s: seq<T>, start: int, end: int): (r: seq<T>)
    ensures |r| <= |s|
    ensures 0 <= start <= end ==> r == s[SliceIndex(start, |s|)..SliceIndex(end, |s|)]
  {
    var a := SliceIndex(start, |s|);
    var b := SliceIndex(end, |s|);
    if a < b then s[a..b] else []
  }

  function Min(a: nat, b: nat): nat {
    if a < b then a else b
  }

  /** `paginatedHubPages`: page `hubPage`, counted from 1, of the filtered list. */
  function PageOf<T>(list: seq<T>, hubPage: int): (r: seq<T>)
    ensures |r| <= ItemsPerPage
    ensures hubPage >= 1 ==>
              r == list[Min((hubPage - 1) * ItemsPerPage, |list|)..Min(hubPage * ItemsPerPage, |list|)]
  {
    var start := (hubPage - 1) * ItemsPerPage;
    JsSlice(list, start, start + ItemsPerPage)
  }

  /** `Math.ceil(n / ITEMS_PER_PAGE)`. */
  function TotalPages(n: nat): (t: nat)
    ensures n <= t * ItemsPerPage
    ensures t == 0 || (t - 1) * ItemsPerPage < n
  {
    (n + ItemsPerPage - 1) / ItemsPerPage
  }

  /** Pages 1 to `k` one after another. */
  function FirstPages<T>(list: seq<T>, k: nat): seq<T>
    decreases k
  {
    if k == 0 then [] else FirstPages(list, k - 1) + PageOf(list, k)
  }

  lemma {:induction false} FirstPagesPrefix<T>(list: seq<T>, k: nat)
    ensures FirstPages(list, k) == list[..Min(k * ItemsPerPage, |list|)]
    decreases k
  {
    if k > 0 {
      FirstPagesPrefix(list, k - 1);
      var a := Min((k - 1) * ItemsPerPage, |list|);
      var b := Min(k * ItemsPerPage, |list|);
      assert list[..a] + list[a..b] == list[..b];
    }
  }

  /** Reading every page in turn gives back the whole filtered list, and there is nothing
      on the pages after the last one. */
  lemma {:induction false} PagesCoverList<T>(list: seq<T>, hubPage: int)
    ensures FirstPages(list, TotalPages(|list|)) == list
    ensures hubPage > TotalPages(|list|) ==> PageOf(list, hubPage) == []
  {
    FirstPagesPrefix(list, TotalPages(|list|));
    assert list[..|list|] == list;
  }

  // ------------------------------------------------------------------ selection and sort

  /** `handleToggleHubPageSelect` / `handleToggleSelect`: flip one id's membership. */
  function Toggle(selected: set<string>, id: string): (r: set<string>)
    ensures id in r <==> id !in selected
    ensures forall x :: x != id ==> (x in r <==> x in selected)
  {
    if id in selected then selected - {id} else selected + {id}
  }

  lemma {:induction false} ToggleTwice(selected: set<string>, id: string)
    ensures Toggle(Toggle(selected, id), id) == selected
  {
  }

  /** `handleToggleHubPageSelectAll` / `handleToggleSelectAll`: clear the selection when its
      size equals the number of visible entries, otherwise select exactly the visible ids. */
  function SelectAll(selected: set<string>, visibleIds: seq<string>): (r: set<string>)
    ensures |selected| == |visibleIds| ==> r == {}
    ensures |selected| != |visibleIds| ==> forall x :: x in r <==> x in visibleIds
  {
    if |selected| == |visibleIds| then {} else set x | x in visibleIds
  }

  /** With distinct visible ids, a second click on select-all clears what the first
      selected. */
  lemma {:induction false} SelectAllTwiceClears(selected: set<string>, visibleIds: seq<string>)
    requires Distinct(visibleIds) && |selected| != |visibleIds|
    ensures SelectAll(SelectAll(selected, visibleIds), visibleIds) == {}
  {
    DistinctCard(visibleIds);
  }

  /** Only the sizes are compared: one hidden selected page against one different visible
      page counts as "all selected", so the click clears instead of selecting. */
  lemma {:induction false} SelectAllComparesCounts()
    ensures SelectAll({"a"}, ["b"]) == {}
  {
  }

  datatype Direction = Asc | Desc
  datatype SortConfig = SortConfig(key: string, direction: Direction)

  /** `handleSort` / `handleHubSort`: descending only on a second click of an ascending key. */
  function NextSort(config: SortConfig, key: string): (r: SortConfig)
    ensures r.key == key
    ensures r.direction == Desc <==> config.key == key && config.direction == Asc
  {
    SortConfig(key, if config.key == key && config.direction == Asc then Desc else Asc)
  }

  /** Clicking the same key again always reverses the direction. */
  lemma {:induction false} SortClicksAlternate(config: SortConfig, key: string)
    ensures NextSort(NextSort(config, key), key).direction != NextSort(config, key).direction
  {
  }

  // ------------------------------------------------------------------ stopping jobs

  /** The fields of a content item the handlers look at. */
  datatype Item = Item(id: string, title: string, kind: string, status: string)

  predicate IsGenerating(item: Item) {
    item.status == "generating"
  }

  /** The ids of the items being generated, in list order. */
  function GeneratingIds(items: seq<Item>): (ids: seq<string>)
    ensures forall id :: id in ids <==> exists k :: 0 <= k < |items| && IsGenerating(items[k]) && items[k].id == id
    decreases |items|
  {
    if items == [] then []
    else
      var n := |items| - 1;
      var init := GeneratingIds(items[..n]);
      assert forall k :: 0 <= k < n ==> items[..n][k] == items[k];
      if IsGenerating(items[n]) then init + [items[n].id] else init
  }

  /** The set of jobs asked to stop (`stopGenerationRef.current`). */
  class StopRegistry {
    var stopped: set<string>

    constructor()
      ensures stopped == {}
    {
      stopped := {};
    }

    /** `handleStopGeneration(itemId)`: a non-empty id is stopped on its own; without one
        (or with an empty one) every item being generated is stopped and the run ends.
        `dispatched` lists the ids whose status becomes idle, in dispatch order. */
    method Stop(itemId: Option<string>, items: seq<Item>) returns (dispatched: seq<string>, endsRun: bool)
      modifies this
      ensures itemId.Some? && itemId.value != "" ==>
                stopped == old(stopped) + {itemId.value} && dispatched == [itemId.value] && !endsRun
      ensures !(itemId.Some? && itemId.value != "") ==>
                stopped == old(stopped) + (set id | id in GeneratingIds(items)) && dispatched == GeneratingIds(items) && endsRun
    {
      if itemId.Some? && itemId.value != "" {
        stopped := stopped + {itemId.value};
        return [itemId.value], false;
      }
      dispatched := [];
      for i := 0 to |items|
        invariant dispatched == GeneratingIds(items[..i])
        invariant stopped == old(stopped) + (set id | id in dispatched)
      {
        assert items[..i + 1][..i] == items[..i];
        if items[i].status == "generating" {
          stopped := stopped + {items[i].id};
          dispatched := dispatched + [items[i].id];
        }
      }
      assert items[..|items|] == items;
      endsRun := true;
    }

    /** `handleGenerateSingle`: the item's own stop request is withdrawn. */
    method GenerateSingle(id: string)
      modifies this
      ensures stopped == old(stopped) - {id}
    {
      stopped := stopped - {id};
    }

    /** `handleGenerateSelected`: every stop request is withdrawn and the selected items,
        in list order, are handed to the generator (`starts` when there is any). */
    method GenerateSelected(items: seq<Item>, selected: set<string>) returns (toGenerate: seq<Item>, starts: bool)
      modifies this
      ensures stopped == {}
      ensures forall it :: it in toGenerate <==> it in items && it.id in selected
      ensures IsSubsequence(toGenerate, items)
      ensures forall it :: multiset(toGenerate)[it] == if it.id in selected then multiset(items)[it] else 0
      ensures starts <==> exists it :: it in items && it.id in selected
    {
      stopped := {};
      toGenerate := Keep(items, (it: Item) => it.id in selected);
      KeepFacts(items, (it: Item) => it.id in selected);
      forall it | true ensures multiset(toGenerate)[it] == if it.id in selected then multiset(items)[it] else 0 {
        KeepCounts(items, (it: Item) => it.id in selected, it);
      }
      starts := |toGenerate| > 0;
      if !starts {
        assert forall it :: it in items ==> it.id !in selected;
      } else {
        assert toGenerate[0] in toGenerate;
      }
    }
  }

  // ------------------------------------------------------------------ god-mode log

  const SuccessTag: string := "\U{2705} SUCCESS"
  const OptimizedTag: string := "\U{2705} Optimized: "
  const MaxLogs: nat := 50

  datatype OptimizedLog = OptimizedLog(title: string, url: string, timestamp: string)
  datatype GodModeState = GodModeState(history: seq<OptimizedLog>, logs: seq<string>)

  /** `[entry, ...prev].slice(0, 50)`. */
  function PushLog(logs: seq<string>, entry: string): (r: seq<string>)
    ensures 1 <= |r| <= MaxLogs && r[0] == entry
    ensures r[1..] == logs[..Min(|logs|, MaxLogs - 1)]
  {
    ([entry] + logs)[..Min(|logs| + 1, MaxLogs)]
  }

  lemma {:induction false} SuccessHasTitlePart(msg: string)
    requires StartsWith(msg, SuccessTag + "|")
    ensures |Split(msg, "|")| >= 2 && Split(msg, "|")[0] == SuccessTag
  {
    var n := |SuccessTag|;
    assert msg[n..n + 1] == (SuccessTag + "|")[n..n + 1] == "|";
    forall j | 0 <= j < n ensures !OccursAt(msg, "|", j) {
      assert msg[j..j + 1][0] == SuccessTag[j];
    }
    IndexOfIs(msg, "|", 0, n);
    assert msg[..n] == SuccessTag;
  }

  /** `maintenanceEngine.logCallback(msg)`; `timestamp` is the time of day it runs. */
  function OnLog(state: GodModeState, msg: string, timestamp: string): (r: GodModeState)
    ensures StartsWith(msg, SuccessTag + "|") ==>
              var parts := Split(msg, "|");
              && |parts| >= 2
              && r.logs == PushLog(state.logs, OptimizedTag + parts[1])
              && r.history == (if |parts| >= 3 then [OptimizedLog(parts[1], parts[2], timestamp)] + state.history
                               else state.history)
    ensures !StartsWith(msg, SuccessTag + "|") ==> r == GodModeState(state.history, PushLog(state.logs, msg))
  {
    if StartsWith(msg, SuccessTag + "|") then
      SuccessHasTitlePart(msg);
      var parts := Split(msg, "|");
      var history := if |parts| >= 3 then [OptimizedLog(parts[1], parts[2], timestamp)] + state.history else state.history;
      GodModeState(history, PushLog(state.logs, OptimizedTag + parts[1]))
    else GodModeState(state.history, PushLog(state.logs, msg))
  }

  /** A success report built from a title and an address that hold no '|' is recorded with
      exactly that title and address. */
  lemma {:induction false} SuccessReportRoundTrip(state: GodModeState, title: string, url: string, timestamp: string)
    requires '|' !in title && '|' !in url
    ensures var r := OnLog(state, Join([SuccessTag, title, url], "|"), timestamp);
            && r.history == [OptimizedLog(title, url, timestamp)] + state.history
            && r.logs[0] == OptimizedTag + title
  {
    var parts := [SuccessTag, title, url];
    var msg := Join(parts, "|");
    assert '|' !in SuccessTag;
    SplitJoin(parts, "|");
    assert parts[1..] == [title, url] && [title, url][1..] == [url];
    assert Join([url], "|") == url;
    assert Join([title, url], "|") == title + "|" + url;
    assert msg == SuccessTag + "|" + (title + "|" + url);
    assert msg[..|SuccessTag| + 1] == SuccessTag + "|";
  }

  // ------------------------------------------------------------------ line lists

  /** `parts.map(s => s.trim())`. */
  function TrimAll(parts: seq<string>): (r: seq<string>)
    ensures |r| == |parts| && forall k :: 0 <= k < |parts| ==> r[k] == Trim(parts[k])
  {
    seq(|parts|, i requires 0 <= i < |parts| => Trim(parts[i]))
  }

  predicate IsLine(l: string) {
    l != "" && !IsSpace(l[0]) && !IsSpace(l[|l| - 1])
  }

  predicate NonEmpty(l: string) {
    l != ""
  }

  /** `text.split('\n').map(s => s.trim()).filter(Boolean)`. */
  function SplitLines(text: string): seq<string>
  {
    Keep(TrimAll(Split(text, "\n")), NonEmpty)
  }

  /** Every line `SplitLines` returns is non-empty and has no white space at either end. */
  lemma {:induction false} SplitLinesAreLines(text: string)
    ensures forall k :: 0 <= k < |SplitLines(text)| ==> IsLine(SplitLines(text)[k])
  {
    var trimmed := TrimAll(Split(text, "\n"));
    var r := SplitLines(text);
    KeepFacts(trimmed, NonEmpty);
    TrimmedAreLines(Split(text, "\n"));
    forall k | 0 <= k < |r| ensures IsLine(r[k]) {
      assert r[k] in r;
    }
  }

  /** Every non-empty trimmed part is a line. */
  lemma {:induction false} TrimmedAreLines(parts: seq<string>)
    ensures forall x :: x in TrimAll(parts) && x != "" ==> IsLine(x)
  {
    var trimmed := TrimAll(parts);
    forall x | x in trimmed && x != "" ensures IsLine(x) {
      var j :| 0 <= j < |trimmed| && trimmed[j] == x;
      TrimIsLine(parts[j]);
    }
  }

  lemma {:induction false} TrimIsLine(s: string)
    ensures Trim(s) != "" ==> IsLine(Trim(s))
  {
  }

  /** A line with no space at either end is its own trim. */
  lemma {:induction false} TrimOfTrimmed(l: string)
    requires IsLine(l)
    ensures Trim(l) == l
  {
    assert TrimStart(l) == l;
  }

  lemma {:induction false} TrimAllLines(lines: seq<string>)
    requires forall k :: 0 <= k < |lines| ==> IsLine(lines[k])
    ensures TrimAll(lines) == lines
  {
    forall k | 0 <= k < |lines| ensures TrimAll(lines)[k] == lines[k] {
      TrimOfTrimmed(lines[k]);
    }
  }

  /** Lines that are non-empty, have no space at either end and no line break come back
      unchanged from joining them with line breaks and splitting again. */
  lemma {:induction false} SplitLinesRoundTrip(lines: seq<string>)
    requires lines != []
    requires forall k :: 0 <= k < |lines| ==> IsLine(lines[k]) && '\n' !in lines[k]
    ensures SplitLines(Join(lines, "\n")) == lines
  {
    var sep := "\n";
    assert sep[0] == '\n';
    SplitJoin(lines, sep);
    TrimAllLines(lines);
    KeepAll(lines, NonEmpty);
  }

  /** The item a keyword line becomes: its id and title are the keyword. */
  datatype PlannedItem = PlannedItem(id: string, title: string, kind: string)

  /** `handleGenerateMultipleFromKeywords`: one standard item per keyword line, or nothing
      at all when there is no keyword. */
  function KeywordItems(primaryKeywords: string): (r: Option<seq<PlannedItem>>)
    ensures var keywords := SplitLines(primaryKeywords);
            && (r.None? <==> keywords == [])
            && (r.Some? ==> |r.value| == |keywords|
                            && forall k :: 0 <= k < |keywords| ==> r.value[k] == PlannedItem(keywords[k], keywords[k], "standard"))
  {
    var keywords := SplitLines(primaryKeywords);
    if keywords == [] then None
    else Some(seq(|keywords|, k requires 0 <= k < |keywords| => PlannedItem(keywords[k], keywords[k], "standard")))
  }
}
