/**
 Deployment windows of the title audit: half-open intervals, possibly unbounded,
 validated by one comparison of neighbours after sorting.
 */
module DeploymentWindows {
  import opened Options
  import opened Text
  import opened Lists

  datatype Window = Window(name: string, start: Option<int>, end: Option<int>)

  predicate Contains(w: Window, t: int) {
    && (w.start.Some? ==> w.start.value <= t)
    && (w.end.Some? ==> t < w.end.value)
  }

  datatype Error =
    | NoWindows
    | InvalidName(name: string)
    | ReservedOrDuplicate(name: string)
    | EmptyRange(name: string)
    | Overlap(previous: string, current: string)

  predicate IsAlnum(c: char) { IsAlpha(c) || IsDigit(c) }

  predicate ValidName(name: string) {
    && 1 <= |name| <= 64
    && IsAlnum(name[0])
    && forall i :: 0 <= i < |name| ==> IsAlnum(name[i]) || name[i] == '.' || name[i] == '_' || name[i] == '-'
  }

  predicate NonEmpty(w: Window) {
    w.start.Some? && w.end.Some? ==> w.start.value < w.end.value
  }

  // ---------------------------------------------------------------- sorting

  /** Unbounded starts first, then by start, then by name. */
  predicate KeyLeq(a: Window, b: Window) {
    match (a.start, b.start)
    case (None, None) => StringLeq(a.name, b.name)
    case (None, Some(_)) => true
    case (Some(_), None) => false
    case (Some(x), Some(y)) => x < y || (x == y && StringLeq(a.name, b.name))
  }

  function SortWindows(ws: seq<Window>): seq<Window> { Sort(ws, KeyLeq) }

  /** What the neighbour comparison needs of the order: starts do not decrease. */
  predicate StartLeq(a: Window, b: Window) {
    a.start.None? || (b.start.Some? && a.start.value <= b.start.value)
  }

  ghost predicate Ordered(ws: seq<Window>) {
    forall i, j :: 0 <= i < j < |ws| ==> StartLeq(ws[i], ws[j])
  }

  lemma KeyLeqOrders()
    ensures TotalPreorder(KeyLeq)
  {
    forall a: Window, b: Window ensures KeyLeq(a, b) || KeyLeq(b, a) {
      StringLeqTotal(a.name, b.name);
    }
    forall a: Window, b: Window, c: Window | KeyLeq(a, b) && KeyLeq(b, c) ensures KeyLeq(a, c) {
      if StringLeq(a.name, b.name) && StringLeq(b.name, c.name) {
        StringLeqTransitive(a.name, b.name, c.name);
      }
    }
  }

  lemma SortOrders(ws: seq<Window>)
    ensures Ordered(SortWindows(ws)) && multiset(SortWindows(ws)) == multiset(ws)
  {
    KeyLeqOrders();
    SortSorts(ws, KeyLeq);
    var sorted := SortWindows(ws);
    forall i, j | 0 <= i < j < |sorted| ensures StartLeq(sorted[i], sorted[j]) {
      assert KeyLeq(sorted[i], sorted[j]);
    }
  }

  // ---------------------------------------------------------------- disjointness

  ghost predicate Disjoint(a: Window, b: Window) {
    forall t :: !(Contains(a, t) && Contains(b, t))
  }

  ghost predicate PairwiseDisjoint(ws: seq<Window>) {
    forall i, j :: 0 <= i < j < |ws| ==> Disjoint(ws[i], ws[j])
  }

  /** `a` ends before `b` starts. */
  predicate Before(a: Window, b: Window) {
    a.end.Some? && b.start.Some? && a.end.value <= b.start.value
  }

  /** For windows in order, having no instant in common is the neighbour test. */
  lemma DisjointIffBefore(a: Window, b: Window)
    requires NonEmpty(a) && NonEmpty(b) && StartLeq(a, b)
    ensures Disjoint(a, b) <==> Before(a, b)
  {
    if !Before(a, b) {
      var t :=
        if b.start.Some? then b.start.value
        else if a.end.Some? && b.end.Some? then (if a.end.value < b.end.value then a.end.value else b.end.value) - 1
        else if a.end.Some? then a.end.value - 1
        else if b.end.Some? then b.end.value - 1
        else 0;
      assert Contains(a, t) && Contains(b, t);
    }
  }

  lemma {:induction false} NeighboursSuffice(ws: seq<Window>, i: nat, j: nat)
    requires forall k :: 0 <= k < |ws| ==> NonEmpty(ws[k])
    requires forall k :: 0 <= k < |ws| - 1 ==> Before(ws[k], ws[k + 1])
    requires i < j < |ws|
    ensures Before(ws[i], ws[j])
    decreases j
  {
    if i + 1 < j {
      NeighboursSuffice(ws, i, j - 1);
      assert Before(ws[j - 1], ws[j - 1 + 1]);
    }
  }

  lemma {:induction false} DistinctCounts(ws: seq<Window>, w: Window)
    requires DistinctNames(ws)
    ensures multiset(ws)[w] <= 1
    decreases |ws|
  {
    if ws != [] {
      DistinctCounts(ws[1..], w);
      assert ws == [ws[0]] + ws[1..];
      if ws[0] == w {
        assert w !in ws[1..];
      }
    }
  }

  /** Disjointness of a document with distinct names carries over to its sorted list. */
  lemma DisjointAfterReordering(a: seq<Window>, b: seq<Window>)
    requires multiset(a) == multiset(b) && PairwiseDisjoint(a) && DistinctNames(a)
    ensures PairwiseDisjoint(b)
  {
    forall i, j | 0 <= i < j < |b| ensures Disjoint(b[i], b[j]) {
      assert b[i] in multiset(b) && b[j] in multiset(b);
      assert b[i] in a && b[j] in a;
      var x :| 0 <= x < |a| && a[x] == b[i];
      var y :| 0 <= y < |a| && a[y] == b[j];
      if x == y {
        RepeatCounts(b, i, j);
        DistinctCounts(a, a[x]);
      }
      assert x < y ==> Disjoint(a[x], a[y]);
      assert y < x ==> Disjoint(a[y], a[x]);
    }
  }

  predicate DistinctNames(ws: seq<Window>) {
    forall i, j :: 0 <= i < j < |ws| ==> ws[i].name != ws[j].name
  }

  // ---------------------------------------------------------------- validation

  /** What each item must satisfy on its own. */
  predicate ItemValid(w: Window) {
    ValidName(w.name) && w.name != "unassigned" && NonEmpty(w)
  }

  /** The documents worth accepting: valid, distinctly named windows without a common instant. */
  ghost predicate Acceptable(items: seq<Window>) {
    && items != []
    && (forall i :: 0 <= i < |items| ==> ItemValid(items[i]))
    && DistinctNames(items)
    && PairwiseDisjoint(items)
  }

  predicate LetterOrDigit(c: char) { 'a' <= c <= 'z' || 'A' <= c <= 'Z' || '0' <= c <= '9' }

  /** One to sixty-four letters, digits, dots, underscores and hyphens, a letter or digit first. */
  predicate ProperName(name: string) {
    && name != "" && |name| <= 64 && LetterOrDigit(name[0])
    && forall i :: 0 <= i < |name| ==> LetterOrDigit(name[i]) || name[i] in {'.', '_', '-'}
  }

  lemma ValidNameIff(name: string)
    ensures ValidName(name) <==> ProperName(name)
  {
  }

  /** Item `i` and those before it raise no complaint of their own, up to the stage given. */
  predicate FineUpTo(items: seq<Window>, i: nat) {
    && i <= |items|
    && (forall k :: 0 <= k < i ==>
          && ProperName(items[k].name) && items[k].name != "unassigned"
          && !(items[k].start.Some? && items[k].end.Some? && items[k].start.value >= items[k].end.value))
    && (forall k, l :: 0 <= k < l < i ==> items[k].name != items[l].name)
  }

  /** What each refusal says about the document. */
  ghost predicate Explains(items: seq<Window>, e: Error) {
    match e
    case NoWindows => items == []
    case InvalidName(n) => exists i :: 0 <= i < |items| && FineUpTo(items, i) && items[i].name == n && !ProperName(n)
    case ReservedOrDuplicate(n) =>
      exists i :: 0 <= i < |items| && FineUpTo(items, i) && items[i].name == n && ProperName(n)
                  && (n == "unassigned" || exists k :: 0 <= k < i && items[k].name == n)
    case EmptyRange(n) =>
      exists i :: 0 <= i < |items| && FineUpTo(items, i) && items[i].name == n && ProperName(n)
                  && items[i].start.Some? && items[i].end.Some? && items[i].start.value >= items[i].end.value
    case Overlap(p, c) =>
      FineUpTo(items, |items|)
      && exists a: Window, b: Window, t :: a in items && b in items && a.name == p && b.name == c && p != c
                                           && Contains(a, t) && Contains(b, t)
  }

  /** Accepted documents, written out. */
  lemma AcceptableIff(items: seq<Window>)
    ensures Acceptable(items)
            <==> && items != [] && FineUpTo(items, |items|)
                 && forall i, j, t :: 0 <= i < j < |items| ==> !(Contains(items[i], t) && Contains(items[j], t))
  {
    if Acceptable(items) {
      forall i, j, t | 0 <= i < j < |items| ensures !(Contains(items[i], t) && Contains(items[j], t)) {
        assert Disjoint(items[i], items[j]);
      }
    }
    FineIffValid(items);
  }

  /** Two windows that fail the neighbour test have an instant in common. */
  lemma OverlapExplained(items: seq<Window>, windows: seq<Window>, i: nat)
    requires FineUpTo(items, |items|) && multiset(windows) == multiset(items) && Ordered(windows)
    requires i + 1 < |windows| && NonEmpty(windows[i]) && NonEmpty(windows[i + 1]) && !Before(windows[i], windows[i + 1])
    ensures Explains(items, Overlap(windows[i].name, windows[i + 1].name))
  {
    var a, b := windows[i], windows[i + 1];
    DisjointIffBefore(a, b);
    var t :| Contains(a, t) && Contains(b, t);
    assert a in multiset(windows) && b in multiset(windows);
    assert a in items && b in items;
    if a.name == b.name {
      SameNameSameWindow(items, a, b);
      RepeatCounts(windows, i, i + 1);
      DistinctCounts(items, a);
      assert false;
    }
  }

  lemma SameNameSameWindow(items: seq<Window>, a: Window, b: Window)
    requires DistinctNames(items) && a in items && b in items && a.name == b.name
    ensures a == b
  {
    var x :| 0 <= x < |items| && items[x] == a;
    var y :| 0 <= y < |items| && items[y] == b;
  }

  /** The order of the result: unbounded starts first, then by start, then by name. */
  lemma SortedMeans(items: seq<Window>, i: nat, j: nat)
    requires i < j < |SortWindows(items)|
    ensures
      var a, b := SortWindows(items)[i], SortWindows(items)[j];
      && (b.start.None? ==> a.start.None?)
      && (a.start.Some? && b.start.Some? ==> a.start.value <= b.start.value)
      && (a.start == b.start ==>
            (|a.name| <= |b.name| && b.name[..|a.name|] == a.name)
            || exists k: nat :: k < |a.name| && k < |b.name| && a.name[..k] == b.name[..k] && a.name[k] < b.name[k])
  {
    KeyLeqOrders();
    SortSorts(items, KeyLeq);
    var a, b := SortWindows(items)[i], SortWindows(items)[j];
    assert KeyLeq(a, b);
    StringLeqMeans(a.name, b.name);
    if k: nat :| SmallerAt(a.name, b.name, k) {
      assert k < |a.name| && k < |b.name| && a.name[..k] == b.name[..k] && a.name[k] < b.name[k];
    }
  }

  /** The first item at fault, if any. */
  method CheckItems(items: seq<Window>) returns (fault: Option<Error>)
    ensures fault.None? <==> FineUpTo(items, |items|)
    ensures fault.Some? ==> !fault.value.NoWindows? && !fault.value.Overlap? && Explains(items, fault.value)
  {
    var names: set<string> := {};
    for i := 0 to |items|
      invariant forall n :: n in names <==> exists k :: 0 <= k < i && items[k].name == n
      invariant FineUpTo(items, i)
    {
      var w := items[i];
      ValidNameIff(w.name);
      if !ValidName(w.name) {
        return Some(InvalidName(w.name));
      }
      if w.name == "unassigned" || w.name in names {
        return Some(ReservedOrDuplicate(w.name));
      }
      names := names + {w.name};
      if !NonEmpty(w) {
        return Some(EmptyRange(w.name));
      }
    }
    fault := None;
  }

  /** The first neighbours that overlap, if any. */
  method CheckNeighbours(windows: seq<Window>) returns (fault: Option<nat>)
    ensures fault.None? ==> forall k :: 0 <= k < |windows| - 1 ==> Before(windows[k], windows[k + 1])
    ensures fault.Some? ==> fault.value + 1 < |windows| && !Before(windows[fault.value], windows[fault.value + 1])
  {
    var i := 0;
    while i + 1 < |windows|
      invariant forall k :: 0 <= k < i && k < |windows| - 1 ==> Before(windows[k], windows[k + 1])
    {
      var previous, current := windows[i], windows[i + 1];
      if previous.end.None? || current.start.None? || current.start.value < previous.end.value {
        return Some(i);
      }
      i := i + 1;
    }
    fault := None;
  }

  /** Comparing neighbours after sorting accepts exactly the pairwise disjoint documents. */
  method ParseDeploymentWindows(items: seq<Window>) returns (r: Result<seq<Window>, Error>)
    ensures r.Ok? <==> Acceptable(items)
    ensures r.Ok? ==> r.value == SortWindows(items) && multiset(r.value) == multiset(items) && PairwiseDisjoint(r.value)
    ensures r.Err? ==> Explains(items, r.error)
  {
    if items == [] {
      return Err(NoWindows);
    }
    var fault := CheckItems(items);
    FineIffValid(items);
    if fault.Some? {
      return Err(fault.value);
    }
    var windows := SortWindows(items);
    SortOrders(items);
    SortedKeepsItems(items, windows);
    var overlap := CheckNeighbours(windows);
    if overlap.Some? {
      var i := overlap.value;
      OverlapExplained(items, windows, i);
      OverlapRefuses(items, windows, i);
      return Err(Overlap(windows[i].name, windows[i + 1].name));
    }
    NeighboursMakeDisjoint(windows);
    DistinctAfterSorting(items, windows);
    return Ok(windows);
  }

  lemma FineIffValid(items: seq<Window>)
    ensures FineUpTo(items, |items|) <==> (forall i :: 0 <= i < |items| ==> ItemValid(items[i])) && DistinctNames(items)
  {
    forall i | 0 <= i < |items| ensures ValidName(items[i].name) <==> ProperName(items[i].name) {
      ValidNameIff(items[i].name);
    }
  }

  lemma OverlapRefuses(items: seq<Window>, windows: seq<Window>, i: nat)
    requires multiset(windows) == multiset(items) && Ordered(windows) && DistinctNames(items)
    requires i + 1 < |windows| && NonEmpty(windows[i]) && NonEmpty(windows[i + 1]) && !Before(windows[i], windows[i + 1])
    ensures !PairwiseDisjoint(items)
  {
    if PairwiseDisjoint(items) {
      DisjointAfterReordering(items, windows);
      DisjointIffBefore(windows[i], windows[i + 1]);
    }
  }

  lemma SortedKeepsItems(items: seq<Window>, windows: seq<Window>)
    requires multiset(items) == multiset(windows) && forall i :: 0 <= i < |items| ==> ItemValid(items[i])
    ensures |windows| == |items| && forall i :: 0 <= i < |windows| ==> NonEmpty(windows[i])
  {
    assert |multiset(items)| == |items| && |multiset(windows)| == |windows|;
    forall i | 0 <= i < |windows| ensures NonEmpty(windows[i]) {
      assert windows[i] in multiset(windows);
      assert windows[i] in items;
    }
  }

  lemma NeighboursMakeDisjoint(ws: seq<Window>)
    requires forall k :: 0 <= k < |ws| ==> NonEmpty(ws[k])
    requires forall k :: 0 <= k < |ws| - 1 ==> Before(ws[k], ws[k + 1])
    ensures PairwiseDisjoint(ws)
  {
    forall i, j | 0 <= i < j < |ws| ensures Disjoint(ws[i], ws[j]) {
      NeighboursSuffice(ws, i, j);
    }
  }

  /** Disjointness carries back from the sorted list to the document. */
  lemma DistinctAfterSorting(items: seq<Window>, windows: seq<Window>)
    requires multiset(items) == multiset(windows) && DistinctNames(items) && PairwiseDisjoint(windows)
    ensures PairwiseDisjoint(items)
  {
    forall i, j | 0 <= i < j < |items| ensures Disjoint(items[i], items[j]) {
      assert items[i] in multiset(items) && items[j] in multiset(items);
      assert items[i] in windows && items[j] in windows;
      var x :| 0 <= x < |windows| && windows[x] == items[i];
      var y :| 0 <= y < |windows| && windows[y] == items[j];
      assert x != y;
      assert x < y ==> Disjoint(windows[x], windows[y]);
      assert y < x ==> Disjoint(windows[y], windows[x]);
    }
  }

  // ---------------------------------------------------------------- lookup

  function Matches(t: int, ws: seq<Window>): seq<string> {
    if ws == [] then [] else (if Contains(ws[0], t) then [ws[0].name] else []) + Matches(t, ws[1..])
  }

  /** The audit's lookup: an error when several windows match. */
  function WindowFor(t: int, ws: seq<Window>): Result<string, seq<string>> {
    var matches := Matches(t, ws);
    if |matches| > 1 then Err(matches) else Ok(if matches != [] then matches[0] else "unassigned")
  }

  /** On accepted windows the lookup never fails and names the one window containing the instant, if any. */
  lemma {:induction false} WindowForExact(t: int, ws: seq<Window>)
    requires PairwiseDisjoint(ws)
    ensures WindowFor(t, ws).Ok?
    ensures forall i :: 0 <= i < |ws| && Contains(ws[i], t) ==> WindowFor(t, ws) == Ok(ws[i].name)
    ensures (forall i :: 0 <= i < |ws| ==> !Contains(ws[i], t)) ==> Matches(t, ws) == []
    decreases |ws|
  {
    if ws != [] {
      WindowForExact(t, ws[1..]);
      if Contains(ws[0], t) {
        forall i | 0 <= i < |ws[1..]| ensures !Contains(ws[1..][i], t) {
          assert Disjoint(ws[0], ws[i + 1]);
        }
      } else {
        assert Matches(t, ws) == Matches(t, ws[1..]);
        forall i | 0 <= i < |ws| && Contains(ws[i], t) ensures WindowFor(t, ws) == Ok(ws[i].name) {
          assert ws[i] == ws[1..][i - 1];
        }
      }
    }
  }

  /** How many windows contain the instant. */
  function Holding(t: int, ws: seq<Window>): nat {
    if ws == [] then 0 else (if Contains(ws[0], t) then 1 else 0) + Holding(t, ws[1..])
  }

  /** On any windows, the lookup fails exactly when two of them contain the instant, and names only windows that do. */
  lemma {:induction false} WindowForCounts(t: int, ws: seq<Window>)
    ensures WindowFor(t, ws).Err? <==> Holding(t, ws) >= 2
    ensures |Matches(t, ws)| == Holding(t, ws)
    ensures forall n :: n in Matches(t, ws) ==> exists i :: 0 <= i < |ws| && ws[i].name == n && Contains(ws[i], t)
    decreases |ws|
  {
    if ws != [] {
      WindowForCounts(t, ws[1..]);
      forall n | n in Matches(t, ws) ensures exists i :: 0 <= i < |ws| && ws[i].name == n && Contains(ws[i], t) {
        if n in Matches(t, ws[1..]) {
          var i :| 0 <= i < |ws[1..]| && ws[1..][i].name == n && Contains(ws[1..][i], t);
          assert ws[i + 1].name == n && Contains(ws[i + 1], t);
        } else {
          assert ws[0].name == n && Contains(ws[0], t);
        }
      }
    }
  }
}
