/**
 The category-grouped view of the list: the category headers
 (`Array.from(new Set(timers.map(t => t.category)))`), each header's count
 (`timers.filter(t => t.category === category).length`), the rows shown under an
 expanded header, and the expansion flags toggled by tapping a header.
 */
module CategoryView {
  import opened TimerModel

  predicate Distinct(cs: seq<string>) {
    forall i, j :: 0 <= i < j < |cs| ==> cs[i] != cs[j]
  }

  /** The distinct categories in the order a `Set` collects them: first occurrence first. */
  function UniqueCategories(ts: seq<Timer>): (cs: seq<string>)
    ensures Distinct(cs)
    ensures forall c :: c in cs <==> exists i :: 0 <= i < |ts| && ts[i].category == c
  {
    if ts == [] then []
    else
      var seen := UniqueCategories(ts[..|ts| - 1]);
      var c := ts[|ts| - 1].category;
      assert forall i :: 0 <= i < |ts| - 1 ==> ts[..|ts| - 1][i] == ts[i];
      if c in seen then seen else seen + [c]
  }

  /**
   First-seen order: the headers of every prefix of the list are a prefix of the
   headers of the whole list, so a category never moves ahead of one seen earlier.
   */
  lemma {:induction false} UniqueCategoriesPrefix(ts: seq<Timer>, k: nat)
    requires k <= |ts|
    ensures UniqueCategories(ts[..k]) <= UniqueCategories(ts)
    decreases |ts|
  {
    if k < |ts| {
      var init := ts[..|ts| - 1];
      assert ts[..k] == init[..k];
      UniqueCategoriesPrefix(init, k);
    } else {
      assert ts[..k] == ts;
    }
  }

  /** The rows listed under a header: the records of that category, in list order. */
  function InCategory(ts: seq<Timer>, category: string): (r: seq<Timer>)
    ensures |r| <= |ts|
    ensures forall t :: t in r <==> t in ts && t.category == category
  {
    if ts == [] then []
    else
      var rest := InCategory(ts[..|ts| - 1], category);
      assert ts == ts[..|ts| - 1] + [ts[|ts| - 1]];
      if ts[|ts| - 1].category == category then rest + [ts[|ts| - 1]] else rest
  }

  /** Filtering distributes over concatenation, so the rows keep list order and multiplicity. */
  lemma {:induction false} InCategoryConcat(a: seq<Timer>, b: seq<Timer>, category: string)
    ensures InCategory(a + b, category) == InCategory(a, category) + InCategory(b, category)
    decreases |b|
  {
    if b == [] {
      assert a + b == a;
    } else {
      var b' := b[..|b| - 1];
      var t := b[|b| - 1];
      assert (a + b)[..|a + b| - 1] == a + b';
      assert (a + b)[|a + b| - 1] == t;
      InCategoryConcat(a, b', category);
      if t.category == category {
        assert InCategory(a, category) + InCategory(b', category) + [t] == InCategory(a, category) + (InCategory(b', category) + [t]);
      }
    }
  }

  /** The number shown in a category header: positive exactly when some record carries the category. */
  function CountFor(ts: seq<Timer>, category: string): (n: nat)
    ensures n <= |ts|
    ensures n == 0 <==> forall i :: 0 <= i < |ts| ==> ts[i].category != category
  {
    var r := InCategory(ts, category);
    assert forall i :: 0 <= i < |ts| && ts[i].category == category ==> ts[i] in r;
    assert |r| > 0 ==> r[0] in r;
    |r|
  }

  lemma CountForSnoc(ts: seq<Timer>, t: Timer, category: string)
    ensures CountFor(ts + [t], category) == CountFor(ts, category) + (if t.category == category then 1 else 0)
  {
    assert (ts + [t])[..|ts|] == ts;
  }

  /** A category has a header exactly when at least one record carries it. */
  lemma {:induction false} HeaderIffCounted(ts: seq<Timer>, category: string)
    ensures category in UniqueCategories(ts) <==> CountFor(ts, category) > 0
  {
    var r := InCategory(ts, category);
    if category in UniqueCategories(ts) {
      var i :| 0 <= i < |ts| && ts[i].category == category;
      assert ts[i] in ts;
      assert ts[i] in r;
    }
    if |r| > 0 {
      assert r[0] in ts;
      var i :| 0 <= i < |ts| && ts[i] == r[0];
    }
  }

  /** The sum of the counts of the given headers. */
  function SumCounts(ts: seq<Timer>, cs: seq<string>): nat {
    if cs == [] then 0 else SumCounts(ts, cs[..|cs| - 1]) + CountFor(ts, cs[|cs| - 1])
  }

  lemma {:induction false} SumCountsSnoc(ts: seq<Timer>, t: Timer, cs: seq<string>)
    requires Distinct(cs)
    ensures SumCounts(ts + [t], cs) == SumCounts(ts, cs) + (if t.category in cs then 1 else 0)
  {
    if cs != [] {
      var init := cs[..|cs| - 1];
      assert cs == init + [cs[|cs| - 1]];
      SumCountsSnoc(ts, t, init);
      CountForSnoc(ts, t, cs[|cs| - 1]);
    }
  }

  /** The header counts partition the list: together they count every record once. */
  lemma {:induction false} CountsPartitionList(ts: seq<Timer>)
    ensures SumCounts(ts, UniqueCategories(ts)) == |ts|
  {
    if ts != [] {
      var init := ts[..|ts| - 1];
      var t := ts[|ts| - 1];
      assert ts == init + [t];
      var seen := UniqueCategories(init);
      CountsPartitionList(init);
      SumCountsSnoc(init, t, seen);
      if t.category !in seen {
        var cs := seen + [t.category];
        assert cs[..|cs| - 1] == seen;
        HeaderIffCounted(init, t.category);
        CountForSnoc(init, t, t.category);
      }
    }
  }

  /**
   The property names every plain object `{}` inherits from `Object.prototype`.
   Reading one of them from the flags object before it has been stored gives an
   inherited function (or the prototype itself), which is truthy.
   */
  const InheritedNames: set<string> := {
    "constructor", "hasOwnProperty", "isPrototypeOf", "propertyIsEnumerable",
    "toLocaleString", "toString", "valueOf", "__proto__",
    "__defineGetter__", "__defineSetter__", "__lookupGetter__", "__lookupSetter__"
  }

  /**
   `expandedCategories[category]` read as a condition: a stored flag decides; a
   missing key reads as `undefined` (collapsed) unless the name is inherited.
   */
  predicate IsExpanded(expanded: map<string, bool>, category: string) {
    if category in expanded then expanded[category] else category in InheritedNames
  }

  /** `toggleCategoryExpansion(category)`: flips that key and keeps every other key. */
  function ToggleExpansion(expanded: map<string, bool>, category: string): (r: map<string, bool>)
    ensures category in r && IsExpanded(r, category) == !IsExpanded(expanded, category)
    ensures forall c :: c != category ==> (c in r <==> c in expanded)
    ensures forall c :: c != category && c in expanded ==> r[c] == expanded[c]
  {
    expanded[category := !IsExpanded(expanded, category)]
  }

  /**
   Before its first tap a header is collapsed, unless its name is inherited from
   `Object.prototype`: such a header starts expanded and the first tap collapses it.
   */
  lemma FirstToggle(category: string)
    ensures category !in InheritedNames ==> !IsExpanded(map[], category) && IsExpanded(ToggleExpansion(map[], category), category)
    ensures category in InheritedNames ==> IsExpanded(map[], category) && !IsExpanded(ToggleExpansion(map[], category), category)
  {
  }

  /** Toggling a header twice leaves every header as expanded as it was. */
  lemma ToggleTwice(expanded: map<string, bool>, category: string, c: string)
    ensures IsExpanded(ToggleExpansion(ToggleExpansion(expanded, category), category), c) == IsExpanded(expanded, c)
  {
  }

  /** The rows rendered under a header: the category's records when expanded, none otherwise. */
  function VisibleRows(ts: seq<Timer>, expanded: map<string, bool>, category: string): (r: seq<Timer>)
    ensures IsExpanded(expanded, category) ==> r == InCategory(ts, category) && |r| == CountFor(ts, category)
    ensures !IsExpanded(expanded, category) ==> r == []
    ensures forall t :: t in r ==> t in ts && t.category == category
  {
    if IsExpanded(expanded, category) then InCategory(ts, category) else []
  }
}
