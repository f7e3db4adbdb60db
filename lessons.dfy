/**
 * Lessons and what the viewer computes from them without changing anything:
 * the search filter (app.js:56-63), `manifest.find` by id (app.js:115), the
 * sidebar's visible items grouped by category (app.js:74-80) and the
 * completion percentage (app.js:106-109).
 */
module Lessons {
  import opened Builtins

  /** One manifest entry. `tags` and `next` are empty when the manifest omits
      them; `category` is None when it omits that. */
  datatype Lesson = Lesson(
    id: string,
    seqNum: int,
    title: string,
    category: Option<string>,
    tags: seq<string>,
    path: string,
    next: seq<string>)

  /** A progress record `{opened, done}` (`visited` holds `opened`, a word Dafny
      reserves); a flag the stored object lacks reads as false. */
  datatype ProgressEntry = ProgressEntry(visited: bool, done: bool)

  type Progress = map<string, ProgressEntry>

  /** `state.progress[id]?.done` */
  predicate IsDone(progress: Progress, id: string)
  {
    id in progress && progress[id].done
  }

  /** The ids the manifest holds. */
  function IdSet(manifest: seq<Lesson>): set<string>
  {
    set x | x in manifest :: x.id
  }

  /** No entry is done without having been opened. Stored progress need not
      satisfy it, but no handler breaks it. */
  predicate DoneImpliesVisited(progress: Progress)
  {
    forall id :: id in progress && progress[id].done ==> progress[id].visited
  }

  /** Every progress key names a lesson of the manifest. */
  predicate KnownIds(progress: Progress, manifest: seq<Lesson>)
  {
    progress.Keys <= IdSet(manifest)
  }

  // ---------------------------------------------------------------------------
  // Search (app.js:56-63)
  // ---------------------------------------------------------------------------

  /** `item.category || ""`: the category text the search looks in. */
  function SearchCategory(item: Lesson): string
  {
    if item.category.Some? then item.category.value else ""
  }

  /** `groups[item.category]`: the property key the sidebar files a lesson
      under. A missing category is converted to the key "undefined". */
  function GroupKey(item: Lesson): string
  {
    if item.category.Some? then item.category.value else "undefined"
  }

  /** `e.target.value.toLowerCase().trim()` */
  function NormalizeQuery(raw: string): string
  {
    Trim(ToLower(raw))
  }

  /** Title, space-joined tags or category contains the (lower-case) query. */
  predicate Matches(q: string, item: Lesson)
  {
    || Contains(ToLower(item.title), q)
    || Contains(ToLower(Join(item.tags, " ")), q)
    || Contains(ToLower(SearchCategory(item)), q)
  }

  /** What `onSearch` leaves in `state.filtered`. */
  function SearchResult(manifest: seq<Lesson>, raw: string): seq<Lesson>
  {
    var q := NormalizeQuery(raw);
    if q == [] then manifest else Filter(manifest, (item: Lesson) => Matches(q, item))
  }

  /** The result keeps manifest order and holds each lesson as often as the
      manifest does when it matches (or the query is blank) and never otherwise. */
  lemma SearchSpec(manifest: seq<Lesson>, raw: string)
    ensures IsSubsequence(SearchResult(manifest, raw), manifest)
    ensures forall x :: multiset(SearchResult(manifest, raw))[x]
                        == if NormalizeQuery(raw) == [] || Matches(NormalizeQuery(raw), x)
                           then multiset(manifest)[x] else 0
  {
    var q := NormalizeQuery(raw);
    if q == [] {
      SubsequenceReflexive(manifest);
    } else {
      FilterSpec(manifest, (item: Lesson) => Matches(q, item));
    }
  }

  lemma SearchKeepsOrder(manifest: seq<Lesson>, raw: string)
    ensures IsSubsequence(SearchResult(manifest, raw), manifest)
  {
    if NormalizeQuery(raw) == [] {
      SubsequenceReflexive(manifest);
    } else {
      FilterSubsequence(manifest, (item: Lesson) => Matches(NormalizeQuery(raw), item));
    }
  }

  /** A query of whitespace only restores the whole manifest. */
  lemma BlankQueryRestores(manifest: seq<Lesson>, raw: string)
    requires AllWhitespace(raw)
    ensures SearchResult(manifest, raw) == manifest
  {
    assert AllWhitespace(ToLower(raw));
    TrimOfWhitespace(ToLower(raw));
  }

  /** Search ignores the case of the query. */
  lemma SearchIgnoresCase(manifest: seq<Lesson>, raw: string)
    ensures SearchResult(manifest, ToLower(raw)) == SearchResult(manifest, raw)
  {
    ToLowerIdempotent(raw);
  }

  // ---------------------------------------------------------------------------
  // manifest.find(x => x.id === id) (app.js:115)
  // ---------------------------------------------------------------------------

  /** The first lesson with the given id, or None when no lesson has it. */
  function FindById(manifest: seq<Lesson>, id: string): (r: Option<Lesson>)
    ensures r.None? <==> forall k :: 0 <= k < |manifest| ==> manifest[k].id != id
    ensures r.Some? ==> exists k :: 0 <= k < |manifest| && manifest[k] == r.value
                          && r.value.id == id && forall j :: 0 <= j < k ==> manifest[j].id != id
  {
    if manifest == [] then None
    else if manifest[0].id == id then Some(manifest[0])
    else
      var r := FindById(manifest[1..], id);
      assert r.Some? ==> exists k :: 0 <= k < |manifest| && manifest[k] == r.value
                          && r.value.id == id && forall j :: 0 <= j < k ==> manifest[j].id != id by {
        if r.Some? {
          var k :| 0 <= k < |manifest| - 1 && manifest[1..][k] == r.value
                   && forall j :: 0 <= j < k ==> manifest[1..][j].id != id;
          assert manifest[k + 1] == r.value;
          assert forall j :: 0 <= j < k + 1 ==> manifest[j].id != id by {
            forall j | 0 <= j < k + 1 ensures manifest[j].id != id {
              if j > 0 { assert manifest[j] == manifest[1..][j - 1]; }
            }
          }
        }
      }
      r
  }

  // ---------------------------------------------------------------------------
  // Sidebar groups (app.js:74-80)
  // ---------------------------------------------------------------------------

  /** The filtered lessons the sidebar lists: all of them, or with "hide
      completed" set only those whose progress is not done. */
  function Visible(filtered: seq<Lesson>, progress: Progress, hideComplete: bool): seq<Lesson>
  {
    Filter(filtered, (item: Lesson) => !(hideComplete && IsDone(progress, item.id)))
  }

  /** The group for category `c`. */
  function InCategory(items: seq<Lesson>, c: string): seq<Lesson>
  {
    Filter(items, (item: Lesson) => GroupKey(item) == c)
  }

  /** The group for `c` holds exactly the items filed under key `c`. */
  lemma InCategoryMembers(items: seq<Lesson>, c: string)
    ensures forall y :: y in InCategory(items, c) <==> y in items && GroupKey(y) == c
  {
    FilterMembers(items, (item: Lesson) => GroupKey(item) == c);
  }

  /** A lesson without a category is filed in the group "undefined", beside
      any lesson whose category is the text "undefined", and not in the group
      "" that the search treats it like. */
  lemma MissingCategoryGroup(items: seq<Lesson>, x: Lesson, y: Lesson)
    requires x in items && x.category.None?
    requires y in items && y.category == Some("undefined")
    ensures x in InCategory(items, "undefined") && y in InCategory(items, "undefined")
    ensures x !in InCategory(items, "")
    ensures SearchCategory(x) == ""
  {
    InCategoryMembers(items, "undefined");
    InCategoryMembers(items, "");
  }

  /** The categories of `items` in order of first appearance: the order in
      which the loop creates the group keys. */
  function Categories(items: seq<Lesson>): seq<string>
  {
    if items == [] then []
    else
      var cs := Categories(items[..|items| - 1]);
      var c := GroupKey(items[|items| - 1]);
      if c in cs then cs else cs + [c]
  }

  predicate Distinct(cs: seq<string>)
  {
    forall i, j :: 0 <= i < j < |cs| ==> cs[i] != cs[j]
  }

  /** The groups listed one after another, in the order of `cats`. */
  function ConcatGroups(cats: seq<string>, items: seq<Lesson>): seq<Lesson>
  {
    if cats == [] then [] else InCategory(items, cats[0]) + ConcatGroups(cats[1..], items)
  }

  /** What one more loop iteration sees: the visible items and their
      categories grow by the new item exactly when it is not hidden. */
  lemma VisibleSnoc(items: seq<Lesson>, x: Lesson, progress: Progress, hideComplete: bool)
    ensures Visible(items + [x], progress, hideComplete)
            == Visible(items, progress, hideComplete)
               + (if hideComplete && IsDone(progress, x.id) then [] else [x])
  {
    FilterSnoc(items, x, (item: Lesson) => !(hideComplete && IsDone(progress, item.id)));
  }

  lemma CategoriesSnoc(items: seq<Lesson>, x: Lesson)
    ensures Categories(items + [x])
            == if GroupKey(x) in Categories(items) then Categories(items) else Categories(items) + [GroupKey(x)]
  {
    assert (items + [x])[..|items|] == items;
  }

  /** `groups` and `order` are the grouping of `items`: `order` lists their
      categories by first appearance, the keys of `groups` are exactly those
      categories, and each group holds the items of its category in order. */
  ghost predicate IsGrouping(groups: map<string, seq<Lesson>>, order: seq<string>, items: seq<Lesson>)
  {
    && order == Categories(items)
    && (forall c :: c in groups <==> c in order)
    && (forall c :: c in groups ==> groups[c] == InCategory(items, c))
  }

  /** One step of the grouping loop keeps the grouping: the item is appended
      to its category's group, which is created (and its key listed) first
      when missing. */
  lemma GroupingStep(groups: map<string, seq<Lesson>>, order: seq<string>, items: seq<Lesson>, x: Lesson)
    requires IsGrouping(groups, order, items)
    ensures IsGrouping(
              groups[GroupKey(x) := (if GroupKey(x) in groups then groups[GroupKey(x)] else []) + [x]],
              if GroupKey(x) in groups then order else order + [GroupKey(x)],
              items + [x])
  {
    var k := GroupKey(x);
    var groups' := groups[k := (if k in groups then groups[k] else []) + [x]];
    CategoriesSnoc(items, x);
    if k !in groups {
      CategoriesCover(items);
      NoItemInAbsentCategory(items, k);
    }
    forall c | c in groups' ensures groups'[c] == InCategory(items + [x], c) {
      InCategorySnoc(items, x, c);
    }
  }

  /** Each category is listed once, and exactly the categories of the items are. */
  lemma {:induction false} CategoriesSpec(items: seq<Lesson>)
    ensures Distinct(Categories(items))
    ensures forall c :: c in Categories(items) <==> exists x :: x in items && GroupKey(x) == c
  {
    if items != [] {
      var init := items[..|items| - 1];
      CategoriesSpec(init);
      assert items == init + [items[|items| - 1]];
      forall c ensures c in Categories(items) <==> exists x :: x in items && GroupKey(x) == c {
        if c in Categories(init) {
          var x :| x in init && GroupKey(x) == c;
          assert x in items;
        }
        if exists x :: x in items && GroupKey(x) == c {
          var x :| x in items && GroupKey(x) == c;
          if x != items[|items| - 1] { assert x in init; }
        }
      }
    }
  }

  /** Every item's key is among the categories. */
  lemma CategoriesCover(items: seq<Lesson>)
    ensures forall y :: y in items ==> GroupKey(y) in Categories(items)
  {
    CategoriesSpec(items);
  }

  /** One step of the recursion, for keys given as the first key and the rest. */
  lemma ConcatGroupsCons(c: string, cats: seq<string>, items: seq<Lesson>)
    ensures ConcatGroups([c] + cats, items) == InCategory(items, c) + ConcatGroups(cats, items)
  {
    assert ([c] + cats)[0] == c && ([c] + cats)[1..] == cats;
  }

  lemma {:induction false} ConcatGroupsSnocCategory(cats: seq<string>, c: string, items: seq<Lesson>)
    ensures ConcatGroups(cats + [c], items) == ConcatGroups(cats, items) + InCategory(items, c)
  {
    if cats == [] {
      assert [] + [c] == [c] + [];
      ConcatGroupsCons(c, [], items);
    } else {
      var first, rest := cats[0], cats[1..];
      assert cats == [first] + rest;
      assert cats + [c] == [first] + (rest + [c]);
      ConcatGroupsSnocCategory(rest, c, items);
      ConcatGroupsCons(first, rest + [c], items);
      ConcatGroupsCons(first, rest, items);
      var g, mid, last := InCategory(items, first), ConcatGroups(rest, items), InCategory(items, c);
      assert g + (mid + last) == (g + mid) + last;
    }
  }


  lemma InCategorySnoc(items: seq<Lesson>, x: Lesson, c: string)
    ensures InCategory(items + [x], c) == InCategory(items, c) + (if GroupKey(x) == c then [x] else [])
  {
    FilterSnoc(items, x, (item: Lesson) => GroupKey(item) == c);
  }

  lemma DistinctTail(cats: seq<string>)
    requires cats != [] && Distinct(cats)
    ensures Distinct(cats[1..]) && cats[0] !in cats[1..]
  {
    forall j | 0 <= j < |cats| - 1 ensures cats[1..][j] != cats[0] {
      assert cats[1..][j] == cats[j + 1];
    }
  }

  lemma {:induction false} ConcatGroupsSnocItem(cats: seq<string>, items: seq<Lesson>, x: Lesson)
    requires Distinct(cats)
    ensures multiset(ConcatGroups(cats, items + [x]))
            == multiset(ConcatGroups(cats, items)) + (if GroupKey(x) in cats then multiset{x} else multiset{})
  {
    if cats != [] {
      var c, rest := cats[0], cats[1..];
      DistinctTail(cats);
      ConcatGroupsSnocItem(rest, items, x);
      InCategorySnoc(items, x, c);
      assert cats == [c] + rest;
      var g, g' := InCategory(items, c), InCategory(items + [x], c);
      var h, h' := ConcatGroups(rest, items), ConcatGroups(rest, items + [x]);
      assert ConcatGroups(cats, items + [x]) == g' + h';
      assert ConcatGroups(cats, items) == g + h;
      assert multiset(g' + h') == multiset(g') + multiset(h');
      assert multiset(g + h) == multiset(g) + multiset(h);
      if GroupKey(x) == c {
        assert multiset(g') == multiset(g) + multiset{x};
      } else {
        assert g' == g;
      }
    }
  }

  lemma {:induction false} NoItemInAbsentCategory(items: seq<Lesson>, c: string)
    requires forall x :: x in items ==> GroupKey(x) != c
    ensures InCategory(items, c) == []
  {
    if items != [] {
      assert items[0] in items;
      NoItemInAbsentCategory(items[1..], c);
    }
  }

  /** Grouping loses nothing and duplicates nothing: the groups, in category
      order, hold exactly the items, each as often as it occurs. */
  lemma {:induction false} GroupsPartition(items: seq<Lesson>)
    ensures multiset(ConcatGroups(Categories(items), items)) == multiset(items)
  {
    if items != [] {
      var init, x := items[..|items| - 1], items[|items| - 1];
      var cats := Categories(init);
      assert items == init + [x];
      GroupsPartition(init);
      CategoriesSpec(init);
      CategoriesSnoc(init, x);
      ConcatGroupsSnocItem(cats, init, x);
      if GroupKey(x) !in cats {
        NewCategoryGroup(init, x);
      }
    }
  }

  /** A lesson of a category not seen before gets a group of its own, placed last. */
  lemma NewCategoryGroup(init: seq<Lesson>, x: Lesson)
    requires forall y :: y in init ==> GroupKey(y) in Categories(init)
    requires GroupKey(x) !in Categories(init)
    ensures multiset(ConcatGroups(Categories(init) + [GroupKey(x)], init + [x]))
            == multiset(ConcatGroups(Categories(init), init + [x])) + multiset{x}
  {
    var cats, c, items := Categories(init), GroupKey(x), init + [x];
    ConcatGroupsSnocCategory(cats, c, items);
    NoItemInAbsentCategory(init, c);
    InCategorySnoc(init, x, c);
    assert InCategory(items, c) == [x];
  }


  /** The sidebar lists exactly the filtered lessons that are not hidden as
      completed, and each group keeps their order in `filtered`. */
  lemma VisibleSpec(filtered: seq<Lesson>, progress: Progress, hideComplete: bool, c: string)
    ensures forall x :: x in Visible(filtered, progress, hideComplete)
                        <==> x in filtered && !(hideComplete && IsDone(progress, x.id))
    ensures IsSubsequence(InCategory(Visible(filtered, progress, hideComplete), c), filtered)
  {
    var p := (item: Lesson) => !(hideComplete && IsDone(progress, item.id));
    var q := (item: Lesson) => GroupKey(item) == c;
    FilterMembers(filtered, p);
    var pq := (item: Lesson) => p(item) && q(item);
    FilterFilter(filtered, p, q, pq);
    FilterSpec(filtered, pq);
  }

  // ---------------------------------------------------------------------------
  // Completion (app.js:106-109)
  // ---------------------------------------------------------------------------

  /** `Object.values(state.progress).filter(p => p.done)`, as the ids holding them. */
  function DoneIds(progress: Progress): set<string>
  {
    set id | id in progress && progress[id].done
  }

  function DoneCount(progress: Progress): nat
  {
    |DoneIds(progress)|
  }

  /** `Math.round(done / total * 100)`: a whole percentage, or JavaScript's
      NaN (0 / 0) or Infinity (a positive count over 0). */
  datatype Percent = Whole(value: int) | NaN | Infinity

  /** `p` is `100 * done / total` rounded to the nearest integer, halves up. */
  predicate IsRoundedPercent(p: int, done: nat, total: nat)
  {
    -(total as int) < 2 * total * p - 200 * done <= total
  }

  function CompletionPercent(done: nat, total: nat): (r: Percent)
    ensures total == 0 ==> r == if done == 0 then NaN else Infinity
    ensures total > 0 ==> r.Whole? && IsRoundedPercent(r.value, done, total)
  {
    if total == 0 then (if done == 0 then NaN else Infinity)
    else
      var n, d := 200 * done + total, 2 * total;
      var p := n / d;
      assert p * d <= n < p * d + d;
      Whole(p)
  }

  lemma MulCancel(m: int, a: int, b: int)
    requires m > 0 && m * a < m * b
    ensures a < b
  {
  }

  /** The rounding is determined: only one integer is within half of the exact value. */
  lemma RoundedPercentUnique(p: int, p': int, done: nat, total: nat)
    requires IsRoundedPercent(p, done, total) && IsRoundedPercent(p', done, total)
    ensures p == p'
  {
    var m := 2 * total;
    assert m > 0;
    assert m * (p - p') == (2 * total * p - 200 * done) - (2 * total * p' - 200 * done);
    MulCancel(m, p - p', 1);
    MulCancel(m, -1, p - p');
  }

  /** With no more done entries than lessons the percentage lies in 0..100;
      none done gives 0 and all done gives 100. */
  lemma CompletionBounds(done: nat, total: nat)
    requires 0 < total && done <= total
    ensures 0 <= CompletionPercent(done, total).value <= 100
    ensures done == 0 ==> CompletionPercent(done, total) == Whole(0)
    ensures done == total ==> CompletionPercent(done, total) == Whole(100)
  {
    var p := CompletionPercent(done, total).value;
    var m := 2 * total;
    assert m * p > 200 * done - total >= m * -1;
    MulCancel(m, -1, p);
    assert m * p <= 200 * done + total < m * 101;
    MulCancel(m, p, 101);
    if done == 0 {
      assert IsRoundedPercent(0, done, total);
      RoundedPercentUnique(p, 0, done, total);
    }
    if done == total {
      assert IsRoundedPercent(100, done, total);
      RoundedPercentUnique(p, 100, done, total);
    }
  }

  /** Marking lesson `id` done adds one to the count unless it was done already. */
  lemma DoneCountMarkDone(progress: Progress, id: string)
    ensures DoneCount(progress[id := ProgressEntry(true, true)])
            == DoneCount(progress) + (if IsDone(progress, id) then 0 else 1)
  {
    var before, after := DoneIds(progress), DoneIds(progress[id := ProgressEntry(true, true)]);
    assert after == before + {id} by {
      forall k ensures k in after <==> k in before || k == id {
        assert k in after <==> k == id || IsDone(progress, k);
      }
    }
    if IsDone(progress, id) {
      assert before + {id} == before;
    } else {
      assert id !in before;
    }
  }

  /** Opening a lesson keeps its done flag, so the count does not move. */
  lemma DoneCountOpen(progress: Progress, id: string)
    ensures DoneCount(progress[id := ProgressEntry(true, IsDone(progress, id))]) == DoneCount(progress)
  {
    assert DoneIds(progress[id := ProgressEntry(true, IsDone(progress, id))]) == DoneIds(progress);
  }

  lemma {:induction false} IdSetSize(manifest: seq<Lesson>)
    ensures |IdSet(manifest)| <= |manifest|
  {
    if manifest != [] {
      var init := manifest[..|manifest| - 1];
      IdSetSize(init);
      assert manifest == init + [manifest[|manifest| - 1]];
      assert IdSet(manifest) == IdSet(init) + {manifest[|manifest| - 1].id};
    }
  }

  lemma SubsetCardinality<T>(a: set<T>, b: set<T>)
    requires a <= b
    ensures |a| <= |b|
  {
    if a != {} {
      var x :| x in a;
      SubsetCardinality(a - {x}, b - {x});
    }
  }

  /** The count never exceeds the number of progress entries. */
  lemma DoneCountBound(progress: Progress)
    ensures DoneCount(progress) <= |progress|
  {
    SubsetCardinality(DoneIds(progress), progress.Keys);
  }

  /** While every progress key names a lesson of the manifest, the bar stays
      within 0..100 percent. */
  lemma CompletionWithinRange(manifest: seq<Lesson>, progress: Progress)
    requires manifest != [] && progress.Keys <= IdSet(manifest)
    ensures 0 <= CompletionPercent(DoneCount(progress), |manifest|).value <= 100
  {
    SubsetCardinality(DoneIds(progress), IdSet(manifest));
    IdSetSize(manifest);
    CompletionBounds(DoneCount(progress), |manifest|);
  }
}
