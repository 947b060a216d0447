/** The Hacker News collector (src/hacker-news.ts, repeated in script.ts):
    pick the per-day filter control, scroll until the oldest loaded day
    section is at least eight days old, collect the visible posts of each
    day section in the trailing week, drop empty days, and sort the days
    newest first.  The browser is abstracted as the sequence of page
    snapshots that successive scrolls produce. */
module HackerNews {
  import opened Wrappers
  import opened Constants
  import opened JsText
  import opened Calendar
  import opened Seqs

  /** One `li.entry.row` of a day section.  `displayNone` is the computed
      style the filter sets on rows it hides; `linkText` and `href` come from
      the `a.link.story` element, `points` and `comments` are the texts of
      the `span.points` and `span.comments` elements (None when missing). */
  datatype Row = Row(displayNone: bool, linkText: Option<string>, href: Option<string>,
                     points: Option<string>, comments: Option<string>)

  /** One `ul.entries.unstyled` day section, identified by its YYYYMMDD id. */
  datatype Section = Section(id: string, rows: seq<Row>)

  /** The posts of one day; `date` is the day number of the section. */
  datatype DayGroup = DayGroup(date: int, posts: seq<Post>)

  /** The filter control clicked for each filter. */
  function FilterSelector(f: HckrNewsPostFilter): string {
    match f
    case Top10 => "a.filtertop.by10"
    case Top20 => "a.filtertop.by20"
    case Top50Percent => "a.filtertop.byhalf"
  }

  /** Each filter clicks its own control. */
  lemma FilterSelectorInjective(f: HckrNewsPostFilter, g: HckrNewsPostFilter)
    ensures FilterSelector(f) == FilterSelector(g) <==> f == g
  {
  }

  // ----- the scroll loop -----

  /** The loop's exit test: the last day section exists and its id is, as a
      string, at most the key of the day eight days ago. */
  predicate ShouldStopScrolling(sections: seq<Section>, targetKey: string) {
    |sections| > 0 && LexLessOrEqual(sections[|sections| - 1].id, targetKey)
  }

  /** The page after k scrolls is snapshots[k]; the loop stops at the first
      snapshot that passes the exit test.  The source waits forever when
      none does; here the snapshots run out, and that is a failure (None). */
  method ScrollUntilLoaded(snapshots: seq<seq<Section>>, targetKey: string) returns (r: Option<nat>)
    ensures r.Some? ==> r.value < |snapshots| && ShouldStopScrolling(snapshots[r.value], targetKey)
    ensures r.Some? ==> forall k :: 0 <= k < r.value ==> !ShouldStopScrolling(snapshots[k], targetKey)
    ensures r.None? ==> forall k :: 0 <= k < |snapshots| ==> !ShouldStopScrolling(snapshots[k], targetKey)
  {
    var k := 0;
    while k < |snapshots|
      invariant 0 <= k <= |snapshots|
      invariant forall j :: 0 <= j < k ==> !ShouldStopScrolling(snapshots[j], targetKey)
    {
      if ShouldStopScrolling(snapshots[k], targetKey) {
        return Some(k);
      }
      k := k + 1;
    }
    return None;
  }

  /** Why the loop's exit test is enough: when the last section's key and the
      target key are keys of real dates and the target is eight days before
      today, the loop stops exactly when the last section lies at least eight
      days back, that is before the whole trailing week [today - 7, today). */
  lemma StopMeansWeekLoaded(sections: seq<Section>, last: CivilDate, target: CivilDate, today: int)
    requires ValidDate(last) && ValidDate(target) && DayOf(target) == today - 8
    requires |sections| > 0 && sections[|sections| - 1].id == EncodeKey(last)
    ensures ShouldStopScrolling(sections, EncodeKey(target)) <==> DayOf(last) <= today - 8
    ensures ShouldStopScrolling(sections, EncodeKey(target)) ==> DayOf(last) < today - 7
  {
    KeyOrderIsDateOrder(last, target);
  }

  // ----- extraction of one section -----

  /** The post a visible row yields: a missing title or url becomes the
      empty string, a missing count becomes 0. */
  function RowPost(r: Row): (p: Post)
    ensures r.linkText.None? ==> p.title == ""
    ensures r.href.None? ==> p.url == ""
    ensures r.points.None? ==> p.numberOfUpvotes == Int(0)
    ensures r.comments.None? ==> p.numberOfComments == Int(0)
  {
    CountOfMissing();
    Post(TrimmedOr(r.linkText, ""), r.href.GetOr(""), CountOf(r.points), CountOf(r.comments))
  }

  /** What one row contributes: nothing when the filter hides it. */
  function RowOutput(r: Row): seq<Post> {
    if r.displayNone then [] else [RowPost(r)]
  }

  /** The posts the visible rows yield, in page order. */
  function VisiblePosts(rows: seq<Row>): seq<Post> {
    ConcatMap(rows, RowOutput)
  }

  /** The inner forEach: one post per visible row, pushed in order. */
  method CollectVisiblePosts(rows: seq<Row>) returns (posts: seq<Post>)
    ensures posts == VisiblePosts(rows)
  {
    posts := [];
    var i := 0;
    while i < |rows|
      invariant 0 <= i <= |rows|
      invariant posts == ConcatMap(rows[..i], RowOutput)
    {
      var row := rows[i];
      assert rows[..i + 1][..i] == rows[..i];
      if !row.displayNone {
        posts := posts + [RowPost(row)];
      }
      i := i + 1;
    }
    assert rows[..|rows|] == rows;
  }

  /** A hidden row contributes nothing, wherever it stands. */
  lemma HiddenRowAddsNothing(a: seq<Row>, r: Row, b: seq<Row>)
    requires r.displayNone
    ensures VisiblePosts(a + [r] + b) == VisiblePosts(a + b)
  {
    ConcatMapSkip(a, r, b, RowOutput);
  }

  /** At most one post per row, and none exactly when every row is hidden. */
  lemma VisiblePostsLength(rows: seq<Row>)
    ensures |VisiblePosts(rows)| <= |rows|
    ensures |VisiblePosts(rows)| == 0 <==> forall i :: 0 <= i < |rows| ==> rows[i].displayNone
  {
    ConcatMapLength(rows, RowOutput);
  }

  /** Every post comes from a visible row, and every visible row gives one. */
  lemma VisiblePostsMembership(rows: seq<Row>, p: Post)
    ensures p in VisiblePosts(rows) <==>
      exists i :: 0 <= i < |rows| && !rows[i].displayNone && p == RowPost(rows[i])
  {
    ConcatMapMembership(rows, RowOutput, p);
  }

  // ----- the trailing week -----

  /** `postDate >= oneWeekAgo && postDate < today`: today is excluded, the
      day seven days back is included. */
  predicate InWindow(day: int, today: int) {
    today - 7 <= day < today
  }

  /** The day of a section, when its id spells one the window can compare. */
  function SectionDay(s: Section): Option<int> {
    DecodeKey(s.id)
  }

  /** What the outer forEach pushes for one section. */
  function SectionGroup(s: Section, today: int): seq<DayGroup> {
    match SectionDay(s)
    case None => []
    case Some(day) =>
      if InWindow(day, today) && VisiblePosts(s.rows) != [] then [DayGroup(day, VisiblePosts(s.rows))]
      else []
  }

  function SectionGroupOn(today: int): Section -> seq<DayGroup> {
    s => SectionGroup(s, today)
  }

  /** The groups the extraction pushes, in page order, before sorting. */
  function ExpectedGroups(sections: seq<Section>, today: int): seq<DayGroup> {
    ConcatMap(sections, SectionGroupOn(today))
  }

  /** The page.evaluate extraction: the outer forEach over day sections and
      the inner one over their rows. */
  method ExtractGroups(sections: seq<Section>, today: int) returns (groups: seq<DayGroup>)
    ensures groups == ExpectedGroups(sections, today)
  {
    groups := [];
    var i := 0;
    while i < |sections|
      invariant 0 <= i <= |sections|
      invariant groups == ConcatMap(sections[..i], SectionGroupOn(today))
    {
      var section := sections[i];
      assert sections[..i + 1][..i] == sections[..i];
      var day := SectionDay(section);
      if day.Some? && InWindow(day.value, today) {
        var posts := CollectVisiblePosts(section.rows);
        if |posts| > 0 {
          groups := groups + [DayGroup(day.value, posts)];
        }
      }
      i := i + 1;
    }
    assert sections[..|sections|] == sections;
  }

  /** A group is emitted for a day exactly when some section of that day
      lies in the window and has a visible row; the group holds that
      section's visible posts.  So every group is in the window and
      non-empty. */
  lemma ExpectedGroupsMembership(sections: seq<Section>, today: int, g: DayGroup)
    ensures g in ExpectedGroups(sections, today) <==>
      exists i :: 0 <= i < |sections| && SectionDay(sections[i]) == Some(g.date)
        && InWindow(g.date, today) && g.posts == VisiblePosts(sections[i].rows) && g.posts != []
    ensures g in ExpectedGroups(sections, today) ==> InWindow(g.date, today) && g.posts != []
  {
    ConcatMapMembership(sections, SectionGroupOn(today), g);
  }

  /** At most one group per section. */
  lemma ExpectedGroupsLength(sections: seq<Section>, today: int)
    ensures |ExpectedGroups(sections, today)| <= |sections|
  {
    ConcatMapLength(sections, SectionGroupOn(today));
  }

  /** No two sections name the same day. */
  predicate DistinctDays(sections: seq<Section>) {
    forall i, j :: 0 <= i < j < |sections| && SectionDay(sections[i]).Some? ==>
      SectionDay(sections[i]) != SectionDay(sections[j])
  }

  function Dates(groups: seq<DayGroup>): set<int> {
    set g | g in groups :: g.date
  }

  /** The days lo, lo + 1, ..., hi - 1. */
  function Days(lo: int, hi: int): (r: set<int>)
    ensures forall d :: d in r <==> lo <= d < hi
    ensures lo <= hi ==> |r| == hi - lo
    decreases hi - lo
  {
    if hi <= lo then {} else Days(lo, hi - 1) + {hi - 1}
  }

  /** Distinct section days give groups with distinct dates. */
  lemma {:induction false} DatesOfDistinctDays(sections: seq<Section>, today: int)
    requires DistinctDays(sections)
    ensures |Dates(ExpectedGroups(sections, today))| == |ExpectedGroups(sections, today)|
  {
    if sections != [] {
      var n := |sections| - 1;
      var init := sections[..n];
      var f := SectionGroupOn(today);
      assert DistinctDays(init) by {
        forall i, j | 0 <= i < j < |init| && SectionDay(init[i]).Some?
          ensures SectionDay(init[i]) != SectionDay(init[j])
        {
          assert init[i] == sections[i] && init[j] == sections[j];
        }
      }
      DatesOfDistinctDays(init, today);
      var head := ExpectedGroups(init, today);
      var tail := SectionGroup(sections[n], today);
      assert ExpectedGroups(sections, today) == head + tail;
      if tail == [] {
        assert head + tail == head;
      } else {
        var g := tail[0];
        assert tail == [g];
        forall h | h in head ensures h.date != g.date {
          ExpectedGroupsMembership(init, today, h);
          var i :| 0 <= i < |init| && SectionDay(init[i]) == Some(h.date);
          assert init[i] == sections[i];
        }
        assert Dates(head + [g]) == Dates(head) + {g.date};
      }
    }
  }

  /** With distinct section days, at most seven groups are emitted: one per
      day of the trailing week. */
  lemma AtMostSevenGroups(sections: seq<Section>, today: int)
    requires DistinctDays(sections)
    ensures |ExpectedGroups(sections, today)| <= 7
  {
    var groups := ExpectedGroups(sections, today);
    DatesOfDistinctDays(sections, today);
    forall d | d in Dates(groups) ensures d in Days(today - 7, today) {
      var g :| g in groups && g.date == d;
      ExpectedGroupsMembership(sections, today, g);
    }
    SubsetCard(Dates(groups), Days(today - 7, today));
  }

  lemma SubsetCard(a: set<int>, b: set<int>)
    requires a <= b
    ensures |a| <= |b|
  {
    assert b == a + (b - a);
  }

  // ----- sorting -----

  ghost predicate SortedByDateDescending(s: seq<DayGroup>) {
    forall p, q :: 0 <= p < q < |s| ==> s[p].date >= s[q].date
  }

  /** Exchanging two elements keeps the multiset of the array. */
  method Swap(a: array<DayGroup>, i: nat, j: nat)
    requires i < a.Length && j < a.Length
    modifies a
    ensures a[..] == old(a[..])[i := old(a[j])][j := old(a[i])]
    ensures a[i] == old(a[j]) && a[j] == old(a[i])
    ensures forall k :: 0 <= k < a.Length && k != i && k != j ==> a[k] == old(a[k])
    ensures multiset(a[..]) == multiset(old(a[..]))
  {
    a[i], a[j] := a[j], a[i];
  }

  /** The in-place sort of the result, most recent day first. */
  method SortByDateDescending(a: array<DayGroup>)
    modifies a
    ensures SortedByDateDescending(a[..])
    ensures multiset(a[..]) == multiset(old(a[..]))
  {
    var i := 0;
    while i < a.Length
      invariant 0 <= i <= a.Length
      invariant SortedByDateDescending(a[..i])
      invariant multiset(a[..]) == multiset(old(a[..]))
    {
      InsertNext(a, i);
      i := i + 1;
    }
    assert a[..a.Length] == a[..];
  }

  /** One step of the insertion sort: the entry at i moves down past the
      older days before it, so the first i + 1 entries are in order. */
  method InsertNext(a: array<DayGroup>, i: nat)
    requires i < a.Length && SortedByDateDescending(a[..i])
    modifies a
    ensures SortedByDateDescending(a[..i + 1])
    ensures multiset(a[..]) == multiset(old(a[..]))
    ensures forall k :: i < k < a.Length ==> a[k] == old(a[k])
  {
    var j := i;
    SortedPrefixPairs(a[..], i);
    while j > 0 && a[j - 1].date < a[j].date
      invariant 0 <= j <= i
      invariant forall p, q :: 0 <= p < q <= i && p != j && q != j ==> a[p].date >= a[q].date
      invariant forall q :: j < q <= i ==> a[j].date > a[q].date
      invariant multiset(a[..]) == multiset(old(a[..]))
      invariant forall k :: i < k < a.Length ==> a[k] == old(a[k])
    {
      Swap(a, j - 1, j);
      j := j - 1;
    }
    InsertionDone(a[..], i, j);
  }

  /** A sorted prefix, read off the whole sequence. */
  lemma SortedPrefixPairs(s: seq<DayGroup>, i: nat)
    requires i <= |s| && SortedByDateDescending(s[..i])
    ensures forall p, q :: 0 <= p < q < i ==> s[p].date >= s[q].date
  {
    forall p, q | 0 <= p < q < i ensures s[p].date >= s[q].date {
      assert s[..i][p] == s[p] && s[..i][q] == s[q];
    }
  }

  /** When the moving entry stops, at j, below an entry at least as recent
      (or at the front), the first i + 1 entries are in order. */
  lemma InsertionDone(s: seq<DayGroup>, i: nat, j: nat)
    requires j <= i < |s|
    requires forall p, q :: 0 <= p < q <= i && p != j && q != j ==> s[p].date >= s[q].date
    requires forall q :: j < q <= i ==> s[j].date > s[q].date
    requires j == 0 || s[j - 1].date >= s[j].date
    ensures SortedByDateDescending(s[..i + 1])
  {
    forall p, q | 0 <= p < q <= i ensures s[p].date >= s[q].date {
      if q == j {
        if p < j - 1 {
          assert s[p].date >= s[j - 1].date;
        }
      }
    }
    assert forall p, q :: 0 <= p < q < i + 1 ==> s[..i + 1][p] == s[p] && s[..i + 1][q] == s[q];
  }

  /** Two groups of one date make the set of dates smaller than the list. */
  lemma {:induction false} RepeatedDateShrinksDates(s: seq<DayGroup>, i: nat, j: nat)
    requires i < j < |s| && s[i].date == s[j].date
    ensures |Dates(s)| < |s|
  {
    var n := |s| - 1;
    var init := s[..n];
    assert s == init + [s[n]];
    assert Dates(s) == Dates(init) + {s[n].date};
    DatesBound(init);
    if j == n {
      assert s[i] in init;
      assert Dates(s) == Dates(init);
    } else {
      assert init[i] == s[i] && init[j] == s[j];
      RepeatedDateShrinksDates(init, i, j);
    }
  }

  lemma {:induction false} DatesBound(s: seq<DayGroup>)
    ensures |Dates(s)| <= |s|
  {
    if s != [] {
      var n := |s| - 1;
      assert s == s[..n] + [s[n]];
      assert Dates(s) == Dates(s[..n]) + {s[n].date};
      DatesBound(s[..n]);
    }
  }

  /** With distinct section days, the sorted result is strictly newest
      first: no two groups share a date. */
  lemma StrictlyDescendingWhenDistinct(result: seq<DayGroup>, sections: seq<Section>, today: int)
    requires DistinctDays(sections) && SortedByDateDescending(result)
    requires multiset(result) == multiset(ExpectedGroups(sections, today))
    ensures forall p, q :: 0 <= p < q < |result| ==> result[p].date > result[q].date
  {
    var groups := ExpectedGroups(sections, today);
    DatesOfDistinctDays(sections, today);
    assert Dates(result) == Dates(groups) by {
      forall g ensures g in result <==> g in groups {
        assert g in result <==> g in multiset(result);
        assert g in groups <==> g in multiset(groups);
      }
    }
    assert |multiset(result)| == |multiset(groups)|;
    forall p, q | 0 <= p < q < |result| ensures result[p].date > result[q].date {
      if result[p].date == result[q].date {
        RepeatedDateShrinksDates(result, p, q);
        assert false;
      }
    }
  }

  // ----- the collector -----

  /** The first snapshot at which the scroll loop stops, if any. */
  function FirstStop(snapshots: seq<seq<Section>>, targetKey: string): (r: Option<nat>)
    ensures r.Some? ==> r.value < |snapshots| && ShouldStopScrolling(snapshots[r.value], targetKey)
  {
    if snapshots == [] then None
    else if ShouldStopScrolling(snapshots[0], targetKey) then Some(0)
    else match FirstStop(snapshots[1..], targetKey)
      case None => None
      case Some(k) => Some(k + 1)
  }

  lemma {:induction false} FirstStopUnique(snapshots: seq<seq<Section>>, targetKey: string, r: Option<nat>)
    requires r.Some? ==> r.value < |snapshots| && ShouldStopScrolling(snapshots[r.value], targetKey)
    requires r.Some? ==> forall k :: 0 <= k < r.value ==> !ShouldStopScrolling(snapshots[k], targetKey)
    requires r.None? ==> forall k :: 0 <= k < |snapshots| ==> !ShouldStopScrolling(snapshots[k], targetKey)
    ensures FirstStop(snapshots, targetKey) == r
  {
    if snapshots != [] && !ShouldStopScrolling(snapshots[0], targetKey) {
      var r' := match r case None => None case Some(k) => Some(k - 1);
      FirstStopUnique(snapshots[1..], targetKey, r');
    }
  }

  /** getTopPostsOfTheWeekForHackerNews.  `page(selector)` is what the page
      shows after the filter control `selector` is clicked: the snapshots
      after 0, 1, 2, ... scrolls, or None when navigation, the click or a
      wait throws.  Any failure yields no groups. */
  method GetTopPostsOfTheWeekForHackerNews(filter: HckrNewsPostFilter,
      page: string -> Option<seq<seq<Section>>>, today: int, targetKey: string)
    returns (result: seq<DayGroup>)
    ensures page(FilterSelector(filter)).None? ==> result == []
    ensures page(FilterSelector(filter)).Some? ==>
      var snapshots := page(FilterSelector(filter)).value;
      match FirstStop(snapshots, targetKey)
      case None => result == []
      case Some(k) =>
        && SortedByDateDescending(result)
        && multiset(result) == multiset(ExpectedGroups(snapshots[k], today))
  {
    var loaded := page(FilterSelector(filter));
    if loaded.None? {
      return [];
    }
    var snapshots := loaded.value;
    var stop := ScrollUntilLoaded(snapshots, targetKey);
    FirstStopUnique(snapshots, targetKey, stop);
    if stop.None? {
      return [];
    }
    var groups := ExtractGroups(snapshots[stop.value], today);
    var a := new DayGroup[|groups|](i requires 0 <= i < |groups| => groups[i]);
    assert a[..] == groups;
    SortByDateDescending(a);
    result := a[..];
  }

  /** Sorting keeps exactly the extracted groups, so every returned group is
      in the window and non-empty. */
  lemma SortedResultGroups(result: seq<DayGroup>, sections: seq<Section>, today: int)
    requires multiset(result) == multiset(ExpectedGroups(sections, today))
    ensures forall g :: g in result ==> InWindow(g.date, today) && g.posts != []
    ensures |result| == |ExpectedGroups(sections, today)|
  {
    forall g | g in result ensures InWindow(g.date, today) && g.posts != [] {
      assert g in multiset(result);
      assert g in ExpectedGroups(sections, today);
      ExpectedGroupsMembership(sections, today, g);
    }
    assert |multiset(result)| == |multiset(ExpectedGroups(sections, today))|;
  }
}
