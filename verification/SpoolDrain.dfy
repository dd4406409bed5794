/**
 One pass of one worker over the spool: reclaim, list, sort, truncate, then
 claim, read, index and finish each file, stopping at the first failure.
 */
module SpoolDrain {
  import opened Text
  import opened Lists
  import opened SearchSpool

  const BATCH: nat := 100

  // ---------------------------------------------------------------- file names

  /** Java month rebuilds carry JMS priority 1; their files start with "l-". */
  function Priority(n: Name): nat {
    if |n| >= 2 && n[..2] == "l-" then 1 else 0
  }

  /** `Path::extension() == "json"`: a non-empty stem in front of ".json". */
  predicate IsJson(n: Name) {
    |n| > 5 && n[|n| - 5..] == ".json"
  }

  /** The sort key (priority, name). */
  predicate KeyLeq(a: Name, b: Name) {
    Priority(a) < Priority(b) || (Priority(a) == Priority(b) && StringLeq(a, b))
  }

  ghost predicate Sorted(order: seq<Name>) {
    forall i, j :: 0 <= i < j < |order| ==> KeyLeq(order[i], order[j])
  }

  predicate Distinct(order: seq<Name>) {
    forall i, j :: 0 <= i < j < |order| ==> order[i] != order[j]
  }

  /** The listing in (priority, name) order. */
  function SortNames(listing: seq<Name>): seq<Name> { Sort(listing, KeyLeq) }

  lemma KeyLeqOrders()
    ensures TotalPreorder(KeyLeq)
  {
    forall a: Name, b: Name ensures KeyLeq(a, b) || KeyLeq(b, a) {
      StringLeqTotal(a, b);
    }
    forall a: Name, b: Name, c: Name | KeyLeq(a, b) && KeyLeq(b, c) ensures KeyLeq(a, c) {
      if Priority(a) == Priority(b) == Priority(c) {
        StringLeqTransitive(a, b, c);
      }
    }
  }

  lemma SortNamesSorts(listing: seq<Name>)
    ensures Sorted(SortNames(listing)) && multiset(SortNames(listing)) == multiset(listing)
  {
    KeyLeqOrders();
    SortSorts(listing, KeyLeq);
  }

  function First(order: seq<Name>, n: nat): seq<Name> {
    if |order| <= n then order else order[..n]
  }

  // ---------------------------------------------------------------- the pass as a function

  predicate Disjoint(d: Dirs) {
    d.pending.Keys !! d.processing.Keys && d.pending.Keys !! d.failed.Keys && d.processing.Keys !! d.failed.Keys
  }

  /** Those of the files `names` of `processing` that are stale are handed back to `pending`. */
  function ReclaimNames(d: Dirs, names: set<Name>, now: int): Dirs {
    d.(pending := d.pending + map n | n in d.processing && n in names && Stale(now, d.processing[n]) :: d.processing[n],
       processing := map n | n in d.processing && !(n in names && Stale(now, d.processing[n])) :: d.processing[n])
  }

  function ReclaimAll(d: Dirs, now: int): Dirs {
    ReclaimNames(d, d.processing.Keys, now)
  }

  lemma ReclaimNothing(d: Dirs, now: int)
    ensures ReclaimNames(d, {}, now) == d
  {
    assert ReclaimNames(d, {}, now).pending == d.pending && ReclaimNames(d, {}, now).processing == d.processing;
  }

  lemma ReclaimOneMore(d: Dirs, names: set<Name>, now: int, n: Name)
    requires Disjoint(d) && n in d.processing && n !in names
    ensures n in ReclaimNames(d, names, now).processing
    ensures ReclaimNames(d, names, now).processing[n] == d.processing[n]
    ensures ReclaimNames(d, names + {n}, now)
         == if Stale(now, d.processing[n]) then ReturnFile(ReclaimNames(d, names, now), n) else ReclaimNames(d, names, now)
  {
    if Stale(now, d.processing[n]) {
      ReclaimStale(d, names, now, n);
    } else {
      ReclaimFresh(d, names, now, n);
    }
  }

  lemma ReclaimStale(d: Dirs, names: set<Name>, now: int, n: Name)
    requires Disjoint(d) && n in d.processing && n !in names && Stale(now, d.processing[n])
    ensures n in ReclaimNames(d, names, now).processing
    ensures ReclaimNames(d, names, now).processing[n] == d.processing[n]
    ensures ReclaimNames(d, names + {n}, now) == ReturnFile(ReclaimNames(d, names, now), n)
  {
    var d1 := ReclaimNames(d, names, now);
    var d2 := ReclaimNames(d, names + {n}, now);
    assert d2.pending == d1.pending[n := d.processing[n]];
    assert d2.processing == d1.processing - {n};
  }

  lemma ReclaimFresh(d: Dirs, names: set<Name>, now: int, n: Name)
    requires Disjoint(d) && n in d.processing && n !in names && !Stale(now, d.processing[n])
    ensures n in ReclaimNames(d, names, now).processing
    ensures ReclaimNames(d, names, now).processing[n] == d.processing[n]
    ensures ReclaimNames(d, names + {n}, now) == ReclaimNames(d, names, now)
  {
    var d1 := ReclaimNames(d, names, now);
    var d2 := ReclaimNames(d, names + {n}, now);
    assert d2.pending == d1.pending && d2.processing == d1.processing;
  }

  /** Exactly the claimed files modified more than ten minutes, in nanoseconds, before `now` change place. */
  lemma ReclaimExact(d: Dirs, now: int, n: Name)
    requires Disjoint(d)
    ensures
      var d' := ReclaimAll(d, now);
      var oldClaim := n in d.processing && d.processing[n].mtime < now - 600_000_000_000;
      && (n in d'.processing <==> n in d.processing && !oldClaim)
      && (n in d'.pending <==> n in d.pending || oldClaim)
      && (n in d'.processing ==> d'.processing[n] == d.processing[n])
      && (n in d'.pending ==> d'.pending[n] == if oldClaim then d.processing[n] else d.pending[n])
      && d'.failed == d.failed
  {
  }

  /** One iteration on a pending file; the flag says whether the pass goes on. */
  function DrainOne(d: Dirs, n: Name, ok: bool): (Dirs, bool)
    requires n in d.pending
  {
    var c := ClaimFile(d, n);
    if d.pending[n].payload.Garbage? then (QuarantineFile(c, n), true)
    else if ok then (RemoveFile(c, n), true)
    else (ReturnFile(c, n), false)
  }

  /** Work through `order`; a file that is not pending any more is skipped. */
  function Drain(d: Dirs, order: seq<Name>, index: Name -> bool): (Dirs, bool)
    decreases |order|
  {
    if order == [] then (d, true)
    else if order[0] !in d.pending then Drain(d, order[1..], index)
    else
      var (d', goOn) := DrainOne(d, order[0], index(order[0]));
      if goOn then Drain(d', order[1..], index) else (d', false)
  }

  /** `order` lists the ".json" names of `pending`, each once, by (priority, name). */
  ghost predicate IsOrder(order: seq<Name>, d: Dirs) {
    Sorted(order) && Distinct(order) && (forall n :: n in order <==> n in d.pending && IsJson(n))
  }

  lemma {:induction false} SetOrderExists(names: set<Name>)
    ensures exists o: seq<Name> :: Sorted(o) && Distinct(o) && (forall n :: n in o <==> n in names)
    decreases |names|
  {
    if names == {} {
      assert Sorted([]) && Distinct([]);
    } else {
      var n :| n in names;
      SetOrderExists(names - {n});
      var o: seq<Name> :| Sorted(o) && Distinct(o) && (forall x :: x in o <==> x in names - {n});
      SortedListing([n] + o);
      assert forall x :: x in SortNames([n] + o) <==> x in names;
    }
  }

  /** Sorting a listing without repeats keeps exactly its names. */
  lemma SortedListing(listing: seq<Name>)
    requires Distinct(listing)
    ensures Sorted(SortNames(listing)) && Distinct(SortNames(listing))
    ensures forall n :: n in SortNames(listing) <==> n in listing
  {
    SortNamesSorts(listing);
    var o := SortNames(listing);
    forall n ensures n in o <==> n in listing {
      assert n in multiset(o) <==> n in multiset(listing);
    }
    forall i, j | 0 <= i < j < |o| ensures o[i] != o[j] {
      if o[i] == o[j] {
        RepeatCounts(o, i, j);
        DistinctCounts(listing, o[i]);
      }
    }
  }

  lemma {:induction false} DistinctCounts(o: seq<Name>, n: Name)
    requires Distinct(o)
    ensures multiset(o)[n] <= 1
    decreases |o|
  {
    if o != [] {
      DistinctCounts(o[1..], n);
      assert o == [o[0]] + o[1..];
      if o[0] == n {
        assert n !in o[1..];
      }
    }
  }

  lemma {:induction false} OrderUnique(a: seq<Name>, b: seq<Name>)
    requires Sorted(a) && Distinct(a) && Sorted(b) && Distinct(b)
    requires forall n :: n in a <==> n in b
    ensures a == b
    decreases |a|
  {
    assert b != [] ==> b[0] in a;
    if a != [] {
      assert a[0] in b && b[0] in a;
      if a[0] != b[0] {
        var i :| 0 <= i < |b| && b[i] == a[0];
        var j :| 0 <= j < |a| && a[j] == b[0];
        assert KeyLeq(a[0], a[j]) && KeyLeq(b[0], b[i]);
        StringLeqAntisymmetric(a[0], b[0]);
      }
      forall n ensures n in a[1..] <==> n in b[1..] {
        TailMembers(a, n);
        TailMembers(b, n);
      }
      OrderUnique(a[1..], b[1..]);
      assert a == [a[0]] + a[1..] && b == [b[0]] + b[1..];
    }
  }

  lemma TailMembers(a: seq<Name>, n: Name)
    requires a != [] && Distinct(a)
    ensures n in a[1..] <==> n in a && n != a[0]
  {
    if n in a && n != a[0] {
      var i :| 0 <= i < |a| && a[i] == n;
      assert a[1..][i - 1] == n;
    }
  }

  /** The one sorted order of the pending job files. */
  ghost function OrderOf(d: Dirs): (order: seq<Name>)
    ensures IsOrder(order, d)
  {
    var names := set n | n in d.pending && IsJson(n);
    SetOrderExists(names);
    var o: seq<Name> :| Sorted(o) && Distinct(o) && (forall n :: n in o <==> n in names);
    o
  }

  ghost function Pass(d: Dirs, now: int, index: Name -> bool): (Dirs, bool) {
    var d1 := ReclaimAll(d, now);
    Drain(d1, First(OrderOf(d1), BATCH), index)
  }

  // ---------------------------------------------------------------- the pass as code

  class Spool {
    var pending: map<Name, File>
    var processing: map<Name, File>
    var failed: map<Name, File>

    ghost function View(): Dirs reads this { Dirs(pending, processing, failed) }

    constructor (pending: map<Name, File>, processing: map<Name, File>, failed: map<Name, File>)
      ensures View() == Dirs(pending, processing, failed)
    {
      this.pending, this.processing, this.failed := pending, processing, failed;
    }

    /** A directory listing: every name once, in no particular order. */
    method ReadDir(directory: map<Name, File>) returns (names: seq<Name>)
      ensures Distinct(names) && forall n :: n in names <==> n in directory
    {
      names := [];
      var rest := directory.Keys;
      while rest != {}
        invariant rest <= directory.Keys
        invariant Distinct(names) && forall n :: n in names <==> n in directory && n !in rest
        decreases |rest|
      {
        var n :| n in rest;
        names := names + [n];
        rest := rest - {n};
      }
    }

    method ReclaimStaleQueueJobs(now: int)
      modifies this
      requires Disjoint(View())
      ensures View() == ReclaimAll(old(View()), now)
    {
      ghost var d0 := View();
      var entries := ReadDir(processing);
      ghost var seen := {};
      ReclaimNothing(d0, now);
      for i := 0 to |entries|
        invariant forall n :: n in seen <==> n in entries[..i]
        invariant View() == ReclaimNames(d0, seen, now)
      {
        var n := entries[i];
        ReclaimOneMore(d0, seen, now, n);
        if Stale(now, processing[n]) {
          ReturnToPending(n);
        }
        assert entries[..i + 1] == entries[..i] + [n];
        seen := seen + {n};
      }
      assert entries[..|entries|] == entries;
      assert seen == d0.processing.Keys;
    }

    method ReturnToPending(n: Name)
      modifies this
      requires n in processing
      ensures View() == ReturnFile(old(View()), n)
    {
      pending, processing := pending[n := processing[n]], processing - {n};
    }

    /** Removes the file of a finished job, or hands a failed one back and reports the error. */
    method FinishQueueJob(n: Name, ok: bool) returns (goOn: bool)
      modifies this
      requires n in processing
      ensures goOn == ok
      ensures View() == if ok then RemoveFile(old(View()), n) else ReturnFile(old(View()), n)
    {
      if ok {
        processing := processing - {n};
      } else {
        ReturnToPending(n);
      }
      return ok;
    }

    method DrainQueue(configured: bool, now: int, index: Name -> bool) returns (ok: bool)
      modifies this
      requires Disjoint(View())
      ensures !configured ==> ok && View() == old(View())
      ensures configured ==> (View(), ok) == Pass(old(View()), now, index)
    {
      if !configured {
        return true;
      }
      ReclaimStaleQueueJobs(now);
      ghost var d1 := View();
      var order := SortedJobs();
      OrderUnique(order, OrderOf(d1));
      ok := DrainBatch(First(order, BATCH), index);
    }

    /** Lists `pending`, keeps the ".json" names and sorts them. */
    method SortedJobs() returns (order: seq<Name>)
      ensures IsOrder(order, View())
    {
      var listing := ReadDir(pending);
      var names := [];
      for i := 0 to |listing|
        invariant Distinct(names)
        invariant forall n :: n in names <==> n in listing[..i] && IsJson(n)
      {
        assert listing[..i + 1] == listing[..i] + [listing[i]];
        if IsJson(listing[i]) {
          assert listing[i] !in names;
          names := names + [listing[i]];
        }
      }
      assert listing[..|listing|] == listing;
      order := SortNames(names);
      SortedListing(names);
    }

    method DrainBatch(batch: seq<Name>, index: Name -> bool) returns (ok: bool)
      modifies this
      ensures (View(), ok) == Drain(old(View()), batch, index)
    {
      ghost var d1 := View();
      assert batch[0..] == batch;
      for i := 0 to |batch|
        invariant Drain(d1, batch, index) == Drain(View(), batch[i..], index)
      {
        var n := batch[i];
        assert batch[i..][0] == n && batch[i..][1..] == batch[i + 1..];
        if n !in pending {
          continue;
        }
        pending, processing := pending - {n}, processing[n := pending[n]];
        if processing[n].payload.Garbage? {
          failed, processing := failed[n := processing[n]], processing - {n};
          continue;
        }
        var goOn := FinishQueueJob(n, index(n));
        if !goOn {
          return false;
        }
      }
      return true;
    }
  }

  // ---------------------------------------------------------------- what a pass does

  /** Does the pass stop at `n`? */
  predicate Fails(d: Dirs, n: Name, index: Name -> bool) {
    n in d.pending && d.pending[n].payload.Readable? && !index(n)
  }

  /** The position of the first file whose indexing fails, or the length. */
  function FirstFailure(d: Dirs, order: seq<Name>, index: Name -> bool): (k: nat)
    ensures k <= |order|
    ensures k < |order| ==> Fails(d, order[k], index)
    ensures forall i :: 0 <= i < k ==> !Fails(d, order[i], index)
  {
    if order == [] || Fails(d, order[0], index) then 0 else 1 + FirstFailure(d, order[1..], index)
  }

  /** `d` after the files `names` were dealt with: gone if readable, quarantined if not. */
  function Settled(d: Dirs, names: seq<Name>): Dirs {
    d.(pending := map n | n in d.pending && n !in names :: d.pending[n],
       failed := d.failed + map n | n in d.pending && n in names && d.pending[n].payload.Garbage? :: d.pending[n])
  }

  /**
   The failing job stays pending, all earlier ones are removed or quarantined,
   later ones and everything else are untouched.
   */
  lemma {:induction false} DrainExact(d: Dirs, order: seq<Name>, index: Name -> bool)
    requires Disjoint(d) && Distinct(order) && forall n :: n in order ==> n in d.pending
    ensures
      var k := FirstFailure(d, order, index);
      Drain(d, order, index) == (Settled(d, order[..k]), k == |order|)
    decreases |order|
  {
    if order == [] {
      SettledNothing(d);
    } else if Fails(d, order[0], index) {
      DrainStops(d, order, index);
    } else {
      var d' := DrainOne(d, order[0], index(order[0])).0;
      DrainGoesOn(d, order, index);
      DrainExact(d', order[1..], index);
      FirstFailureFrame(d, d', order[1..], index);
      SettledOneMore(d, order, FirstFailure(d, order[1..], index), index);
    }
  }

  lemma SettledOneMore(d: Dirs, order: seq<Name>, k: nat, index: Name -> bool)
    requires Disjoint(d) && Distinct(order) && order != [] && order[0] in d.pending && k < |order|
    requires DrainOne(d, order[0], index(order[0])).1
    ensures Settled(DrainOne(d, order[0], index(order[0])).0, order[1..][..k]) == Settled(d, order[..k + 1])
  {
    var rest := order[1..][..k];
    assert order[..k + 1] == [order[0]] + rest;
    forall m | m in rest ensures m != order[0] {
      assert m in order[1..];
      TailMembers(order, m);
    }
    SettledCons(d, order[0], rest, index(order[0]));
  }

  lemma DrainStops(d: Dirs, order: seq<Name>, index: Name -> bool)
    requires Disjoint(d) && order != [] && order[0] in d.pending && Fails(d, order[0], index)
    ensures FirstFailure(d, order, index) == 0 && Drain(d, order, index) == (Settled(d, order[..0]), false)
  {
    DrainOneFacts(d, order[0], index(order[0]));
    SettledNothing(d);
    assert order[..0] == [];
  }

  lemma DrainGoesOn(d: Dirs, order: seq<Name>, index: Name -> bool)
    requires Disjoint(d) && Distinct(order) && forall n :: n in order ==> n in d.pending
    requires order != [] && !Fails(d, order[0], index)
    ensures DrainOne(d, order[0], index(order[0])).1
    ensures
      var d' := DrainOne(d, order[0], index(order[0])).0;
      && Disjoint(d') && Drain(d, order, index) == Drain(d', order[1..], index)
      && (forall m :: m in order[1..] ==> m != order[0] && m in d'.pending && m in d.pending && d'.pending[m] == d.pending[m])
  {
    var d' := DrainOne(d, order[0], index(order[0])).0;
    DrainOneFacts(d, order[0], index(order[0]));
    forall m | m in order[1..] ensures m != order[0] && m in d'.pending && d'.pending[m] == d.pending[m] {
      TailMembers(order, m);
    }
  }

  lemma DrainOneFacts(d: Dirs, n: Name, ok: bool)
    requires Disjoint(d) && n in d.pending
    ensures
      var (d', goOn) := DrainOne(d, n, ok);
      && goOn == (ok || d.pending[n].payload.Garbage?)
      && (goOn ==> Disjoint(d') && d'.processing == d.processing && d'.pending == d.pending - {n})
      && (!goOn ==> d' == d)
  {
    var (d', goOn) := DrainOne(d, n, ok);
    assert d'.processing == d.processing;
    if goOn {
      assert d'.pending == d.pending - {n};
    } else {
      assert d'.pending == d.pending;
    }
  }

  lemma SettledNothing(d: Dirs)
    ensures Settled(d, []) == d
  {
    assert Settled(d, []).pending == d.pending && Settled(d, []).failed == d.failed;
  }

  lemma SettledCons(d: Dirs, n: Name, rest: seq<Name>, ok: bool)
    requires Disjoint(d) && n in d.pending && n !in rest && DrainOne(d, n, ok).1
    ensures Settled(DrainOne(d, n, ok).0, rest) == Settled(d, [n] + rest)
  {
    DrainOneFacts(d, n, ok);
    var d' := DrainOne(d, n, ok).0;
    var d1 := Settled(d', rest);
    var d2 := Settled(d, [n] + rest);
    assert forall m :: m in [n] + rest <==> m == n || m in rest;
    assert d1.processing == d2.processing;
    assert d1.pending == d2.pending;
    SettledFailed(d, n, rest, ok);
  }

  lemma SettledFailed(d: Dirs, n: Name, rest: seq<Name>, ok: bool)
    requires Disjoint(d) && n in d.pending && n !in rest && DrainOne(d, n, ok).1
    ensures Settled(DrainOne(d, n, ok).0, rest).failed == Settled(d, [n] + rest).failed
  {
    var d' := DrainOne(d, n, ok).0;
    DrainOneFacts(d, n, ok);
    assert d'.failed == if d.pending[n].payload.Garbage? then d.failed[n := d.pending[n]] else d.failed;
    assert forall m :: m in [n] + rest <==> m == n || m in rest;
    var f1, f2 := Settled(d', rest).failed, Settled(d, [n] + rest).failed;
    forall m
      ensures m in f1 <==> m in f2
      ensures m in f1 ==> f1[m] == f2[m]
    {
    }
  }

  lemma {:induction false} FirstFailureFrame(d: Dirs, d': Dirs, order: seq<Name>, index: Name -> bool)
    requires forall n :: n in order ==> (n in d.pending <==> n in d'.pending)
    requires forall n :: n in order && n in d.pending ==> d.pending[n] == d'.pending[n]
    ensures FirstFailure(d, order, index) == FirstFailure(d', order, index)
    decreases |order|
  {
    if order != [] {
      assert order[0] in order;
      FirstFailureFrame(d, d', order[1..], index);
    }
  }

  /** The same, for the whole pass on a spool with distinct directories. */
  lemma PassExact(d: Dirs, now: int, index: Name -> bool)
    requires Disjoint(d)
    ensures
      var d1 := ReclaimAll(d, now);
      var batch := First(OrderOf(d1), BATCH);
      var k := FirstFailure(d1, batch, index);
      Pass(d, now, index) == (Settled(d1, batch[..k]), k == |batch|)
  {
    var d1 := ReclaimAll(d, now);
    DrainExact(d1, First(OrderOf(d1), BATCH), index);
  }

  /** The listing holds exactly the pending files with a non-empty stem and ".json", each once. */
  lemma ListingExact(d: Dirs, n: Name)
    ensures n in OrderOf(d) <==> n in d.pending && exists stem: string :: stem != "" && n == stem + ".json"
    ensures forall i, j :: 0 <= i < j < |OrderOf(d)| ==> OrderOf(d)[i] != OrderOf(d)[j]
  {
    if IsJson(n) {
      assert n == n[..|n| - 5] + ".json";
    }
    if stem: string :| stem != "" && n == stem + ".json" {
      assert n[|n| - 5..] == ".json";
    }
  }

  /**
   The order of work, on the names themselves: files without the "l-" prefix
   come before files with it, and among files of one kind the earlier name is a
   prefix of the later or smaller at their first difference.
   */
  lemma OrderByKindThenName(d: Dirs, i: nat, j: nat)
    requires i < j < |OrderOf(d)|
    ensures
      var a, b := OrderOf(d)[i], OrderOf(d)[j];
      var low, high := |a| >= 2 && a[0] == 'l' && a[1] == '-', |b| >= 2 && b[0] == 'l' && b[1] == '-';
      && (low ==> high)
      && (low == high ==>
            (|a| <= |b| && b[..|a|] == a) || exists k: nat :: k < |a| && k < |b| && a[..k] == b[..k] && a[k] < b[k])
  {
    var a, b := OrderOf(d)[i], OrderOf(d)[j];
    assert KeyLeq(a, b);
    PrefixOfTwo(a);
    PrefixOfTwo(b);
    StringLeqMeans(a, b);
    if k: nat :| SmallerAt(a, b, k) {
      assert k < |a| && k < |b| && a[..k] == b[..k] && a[k] < b[k];
    }
  }

  lemma PrefixOfTwo(n: Name)
    ensures Priority(n) == if |n| >= 2 && n[0] == 'l' && n[1] == '-' then 1 else 0
  {
    if |n| >= 2 {
      assert n[..2] == [n[0], n[1]];
    }
  }

  /** At most one hundred files are worked on, the first ones of that order. */
  lemma BatchIsPrefix(d: Dirs)
    ensures
      var batch, order := First(OrderOf(d), BATCH), OrderOf(d);
      |batch| == (if |order| <= 100 then |order| else 100) && batch == order[..|batch|]
  {
  }

  /** A month file, named with the "l-" prefix, waits for every pending live job, whose names do not start so. */
  lemma MonthsWaitForLiveJobs(d: Dirs, month: nat, rest: string, stem: string)
    requires month < |First(OrderOf(d), BATCH)| && First(OrderOf(d), BATCH)[month] == "l-" + rest
    requires stem != "" && stem + ".json" in d.pending
    requires forall x: string :: stem + ".json" != "l-" + x
    ensures stem + ".json" in First(OrderOf(d), BATCH)[..month]
  {
    var order, live := OrderOf(d), stem + ".json";
    BatchIsPrefix(d);
    ListingExact(d, live);
    var i :| 0 <= i < |order| && order[i] == live;
    NoPrefix(live);
    LiveBeforeMonth(d, month, i);
    assert First(order, BATCH)[..month][i] == live;
  }

  lemma NoPrefix(n: Name)
    requires forall x: string :: n != "l-" + x
    ensures !(|n| >= 2 && n[0] == 'l' && n[1] == '-')
  {
    assert n == n[..0] + n[0..];
    var tail := if |n| >= 2 then n[2..] else "";
    assert "l-" + tail != n;
  }

  lemma LiveBeforeMonth(d: Dirs, month: nat, live: nat)
    requires month < |OrderOf(d)| && live < |OrderOf(d)|
    requires |OrderOf(d)[month]| >= 2 && OrderOf(d)[month][0] == 'l' && OrderOf(d)[month][1] == '-'
    requires |OrderOf(d)[live]| >= 2 && !(OrderOf(d)[live][0] == 'l' && OrderOf(d)[live][1] == '-')
    ensures live < month
  {
    if month < live {
      OrderByKindThenName(d, month, live);
    }
  }

  // ---------------------------------------------------------------- draining a backlog

  ghost function Backlog(d: Dirs): set<Name> {
    set n | n in d.pending && IsJson(n)
  }

  lemma {:induction false} DistinctSize(order: seq<Name>, names: set<Name>)
    requires Distinct(order) && forall n :: n in order <==> n in names
    ensures |order| == |names|
    decreases |order|
  {
    if order == [] {
      assert names == {};
    } else {
      forall n ensures n in order[1..] <==> n in names - {order[0]} {
        TailMembers(order, n);
      }
      DistinctSize(order[1..], names - {order[0]});
      assert order[0] in names;
    }
  }

  /** A pass without failures takes exactly the first hundred jobs off the backlog it finds. */
  lemma SuccessfulPassShrinksBacklog(d: Dirs, now: int, index: Name -> bool)
    requires Disjoint(d) && forall n :: index(n)
    ensures
      var (d', ok) := Pass(d, now, index);
      var d1 := ReclaimAll(d, now);
      && ok && Disjoint(d') && d'.processing == d1.processing
      && |Backlog(d')| == if |Backlog(d1)| <= BATCH then 0 else |Backlog(d1)| - BATCH
  {
    var d1 := ReclaimAll(d, now);
    PassExact(d, now, index);
    var order := OrderOf(d1);
    var batch := First(order, BATCH);
    assert FirstFailure(d1, batch, index) == |batch| && batch[..|batch|] == batch;
    SettledShrinks(d1, order, batch);
  }

  lemma SettledShrinks(d: Dirs, order: seq<Name>, batch: seq<Name>)
    requires Disjoint(d) && IsOrder(order, d) && batch == First(order, BATCH)
    ensures Disjoint(Settled(d, batch)) && Settled(d, batch).processing == d.processing
    ensures |Backlog(Settled(d, batch))| == if |Backlog(d)| <= BATCH then 0 else |Backlog(d)| - BATCH
  {
    DistinctSize(order, Backlog(d));
    DistinctSize(batch, Taken(batch));
    SettledBacklog(d, batch);
    assert forall n :: n in batch ==> n in order;
    assert Taken(batch) <= Backlog(d);
  }

  ghost function Taken(batch: seq<Name>): set<Name> { set n | n in batch }

  lemma SettledBacklog(d: Dirs, batch: seq<Name>)
    requires Disjoint(d) && forall n :: n in batch ==> n in d.pending
    ensures Disjoint(Settled(d, batch)) && Settled(d, batch).processing == d.processing
    ensures Backlog(Settled(d, batch)) == Backlog(d) - Taken(batch)
  {
  }

  /** The spool after `passes` passes, the i-th one at time `clock(i)`. */
  ghost function AfterPasses(d: Dirs, passes: nat, clock: nat -> int, index: Name -> bool): Dirs {
    if passes == 0 then d
    else Pass(AfterPasses(d, passes - 1, clock, index), clock(passes - 1), index).0
  }

  lemma NothingToReclaim(d: Dirs, now: int)
    requires d.processing == map[]
    ensures ReclaimAll(d, now) == d
  {
    assert ReclaimAll(d, now).pending == d.pending && ReclaimAll(d, now).processing == d.processing;
  }

  lemma {:induction false} BacklogAfterPasses(d: Dirs, passes: nat, clock: nat -> int, index: Name -> bool)
    requires Disjoint(d) && d.processing == map[] && forall n :: index(n)
    ensures
      var d' := AfterPasses(d, passes, clock, index);
      && Disjoint(d') && d'.processing == map[]
      && |Backlog(d')| == if |Backlog(d)| <= BATCH * passes then 0 else |Backlog(d)| - BATCH * passes
  {
    if passes > 0 {
      BacklogAfterPasses(d, passes - 1, clock, index);
      NothingToReclaim(AfterPasses(d, passes - 1, clock, index), clock(passes - 1));
      SuccessfulPassShrinksBacklog(AfterPasses(d, passes - 1, clock, index), clock(passes - 1), index);
    }
  }

  /** When every job succeeds, n waiting jobs are gone after k passes exactly if k >= ceil(n / 100). */
  lemma BacklogEmptyIff(d: Dirs, passes: nat, clock: nat -> int, index: Name -> bool)
    requires Disjoint(d) && d.processing == map[] && forall n :: index(n)
    ensures Backlog(AfterPasses(d, passes, clock, index)) == {} <==> (|Backlog(d)| + BATCH - 1) / BATCH <= passes
  {
    BacklogAfterPasses(d, passes, clock, index);
  }

  // ---------------------------------------------------------------- the pass is a run

  function OneSteps(d: Dirs, w: Worker, n: Name, ok: bool): seq<Step>
    requires n in d.pending
  {
    if d.pending[n].payload.Garbage? then [Claim(w, n), ReadFails(w, false), Quarantine(w)]
    else [Claim(w, n), ReadJob(w), IndexReturns(w, ok)] + (if ok then [FinishOk(w)] else [FinishErr(w)])
  }

  function DrainSteps(d: Dirs, w: Worker, order: seq<Name>, index: Name -> bool): seq<Step>
    decreases |order|
  {
    if order == [] then []
    else if order[0] !in d.pending then DrainSteps(d, w, order[1..], index)
    else
      var (d', goOn) := DrainOne(d, order[0], index(order[0]));
      OneSteps(d, w, order[0], index(order[0])) + (if goOn then DrainSteps(d', w, order[1..], index) else [])
  }

  lemma OneIsRun(s: State, w: Worker, n: Name, ok: bool)
    requires PhaseOf(s, w).Idle? && n in s.dirs.pending
    ensures
      var steps := OneSteps(s.dirs, w, n, ok);
      && ValidRun(s, steps)
      && Exec(s, steps).dirs == DrainOne(s.dirs, n, ok).0
      && PhaseOf(Exec(s, steps), w).Idle?
  {
    var s1 := Apply(s, Claim(w, n));
    if s.dirs.pending[n].payload.Garbage? {
      var s2 := Apply(s1, ReadFails(w, false));
      var s3 := Apply(s2, Quarantine(w));
      RunCons(s2, Quarantine(w), [], s3);
      RunCons(s1, ReadFails(w, false), [Quarantine(w)], s3);
      RunCons(s, Claim(w, n), [ReadFails(w, false)] + [Quarantine(w)], s3);
      assert [Claim(w, n)] + ([ReadFails(w, false)] + [Quarantine(w)]) == OneSteps(s.dirs, w, n, ok);
    } else {
      var last := if ok then FinishOk(w) else FinishErr(w);
      var s2 := Apply(s1, ReadJob(w));
      var s3 := Apply(s2, IndexReturns(w, ok));
      var s4 := Apply(s3, last);
      RunCons(s3, last, [], s4);
      RunCons(s2, IndexReturns(w, ok), [last], s4);
      RunCons(s1, ReadJob(w), [IndexReturns(w, ok)] + [last], s4);
      RunCons(s, Claim(w, n), [ReadJob(w)] + ([IndexReturns(w, ok)] + [last]), s4);
      assert [Claim(w, n)] + ([ReadJob(w)] + ([IndexReturns(w, ok)] + [last])) == OneSteps(s.dirs, w, n, ok);
    }
  }

  /** No job of these steps was handed back after an indexing error. */
  predicate NoErrors(steps: seq<Step>) { forall k :: 0 <= k < |steps| ==> !steps[k].FinishErr? }

  lemma NoErrorsAppend(a: seq<Step>, b: seq<Step>)
    ensures NoErrors(a + b) <==> NoErrors(a) && NoErrors(b)
  {
    if NoErrors(a + b) {
      forall k | 0 <= k < |a| ensures !a[k].FinishErr? {
        assert (a + b)[k] == a[k];
      }
      forall k | 0 <= k < |b| ensures !b[k].FinishErr? {
        assert (a + b)[|a| + k] == b[k];
      }
    }
  }

  lemma OneStepsErrors(d: Dirs, w: Worker, n: Name, ok: bool)
    requires n in d.pending
    ensures NoErrors(OneSteps(d, w, n, ok)) <==> DrainOne(d, n, ok).1
  {
    var steps := OneSteps(d, w, n, ok);
    if !DrainOne(d, n, ok).1 {
      assert steps[3].FinishErr?;
    }
  }

  /** Working through a listing is a run of the step system; it stops early exactly when an error is handed back. */
  lemma {:induction false} DrainIsRun(s: State, w: Worker, order: seq<Name>, index: Name -> bool)
    requires PhaseOf(s, w).Idle?
    ensures
      var steps := DrainSteps(s.dirs, w, order, index);
      && ValidRun(s, steps)
      && (Exec(s, steps).dirs, NoErrors(steps)) == Drain(s.dirs, order, index)
      && PhaseOf(Exec(s, steps), w).Idle?
    decreases |order|
  {
    if order != [] {
      if order[0] !in s.dirs.pending {
        DrainIsRun(s, w, order[1..], index);
      } else {
        var n := order[0];
        var first := OneSteps(s.dirs, w, n, index(n));
        OneIsRun(s, w, n, index(n));
        OneStepsErrors(s.dirs, w, n, index(n));
        var s1 := Exec(s, first);
        var (d', goOn) := DrainOne(s.dirs, n, index(n));
        if goOn {
          DrainIsRun(s1, w, order[1..], index);
          RunAppend(s, first, DrainSteps(d', w, order[1..], index));
          NoErrorsAppend(first, DrainSteps(d', w, order[1..], index));
        } else {
          assert first + [] == first;
        }
      }
    }
  }

  function Reclaims(names: seq<Name>): seq<Step> {
    if names == [] then [] else Reclaims(names[..|names| - 1]) + [Reclaim(names[|names| - 1])]
  }

  lemma {:induction false} ReclaimsHaveNoErrors(names: seq<Name>)
    ensures NoErrors(Reclaims(names))
    decreases |names|
  {
    if names != [] {
      ReclaimsHaveNoErrors(names[..|names| - 1]);
    }
  }

  /** `stale` lists the stale ones of `names`, each once. */
  ghost predicate ListsStale(stale: seq<Name>, d: Dirs, names: set<Name>, now: int) {
    && Distinct(stale)
    && forall n :: n in stale <==> n in names && n in d.processing && Stale(now, d.processing[n])
  }

  /** Handing the stale files back is a run, one reclaim a file. */
  lemma {:induction false} ReclaimIsRun(s: State, names: set<Name>) returns (stale: seq<Name>)
    requires Disjoint(s.dirs) && names <= s.dirs.processing.Keys
    ensures ListsStale(stale, s.dirs, names, s.now) && ValidRun(s, Reclaims(stale))
    ensures Exec(s, Reclaims(stale)) == s.(dirs := ReclaimNames(s.dirs, names, s.now))
    decreases names
  {
    if names == {} {
      stale := [];
      ReclaimNothing(s.dirs, s.now);
    } else {
      var n :| n in names;
      var rest := names - {n};
      stale := ReclaimIsRun(s, rest);
      ReclaimOneMore(s.dirs, rest, s.now, n);
      assert rest + {n} == names;
      if Stale(s.now, s.dirs.processing[n]) {
        ReclaimLast(s, rest, n, stale);
        stale := stale + [n];
      }
    }
  }

  lemma ReclaimLast(s: State, rest: set<Name>, n: Name, stale: seq<Name>)
    requires Disjoint(s.dirs) && n in s.dirs.processing && n !in rest && Stale(s.now, s.dirs.processing[n])
    requires ValidRun(s, Reclaims(stale)) && Exec(s, Reclaims(stale)) == s.(dirs := ReclaimNames(s.dirs, rest, s.now))
    ensures ValidRun(s, Reclaims(stale + [n]))
    ensures Exec(s, Reclaims(stale + [n])) == s.(dirs := ReclaimNames(s.dirs, rest + {n}, s.now))
  {
    ReclaimOneMore(s.dirs, rest, s.now, n);
    var s1 := s.(dirs := ReclaimNames(s.dirs, rest, s.now));
    var s2 := Apply(s1, Reclaim(n));
    assert ValidRun(s2, []) && Exec(s2, []) == s2;
    RunCons(s1, Reclaim(n), [], s2);
    assert [Reclaim(n)] + [] == [Reclaim(n)];
    RunAppend(s, Reclaims(stale), [Reclaim(n)]);
    assert (stale + [n])[..|stale|] == stale;
  }

  /** The steps of a whole pass: the reclaims, then the work on the first hundred jobs. */
  ghost function PassSteps(s: State, w: Worker, stale: seq<Name>, index: Name -> bool): seq<Step> {
    var d1 := ReclaimAll(s.dirs, s.now);
    Reclaims(stale) + DrainSteps(d1, w, First(OrderOf(d1), BATCH), index)
  }

  /**
   A whole pass of an idle worker is a run of the step system, with the same
   directories at the end and success exactly when no job is handed back, so
   every law about runs applies to it.
   */
  lemma PassIsRun(s: State, w: Worker, index: Name -> bool) returns (stale: seq<Name>)
    requires Disjoint(s.dirs) && PhaseOf(s, w).Idle?
    ensures ListsStale(stale, s.dirs, s.dirs.processing.Keys, s.now)
    ensures
      var steps := PassSteps(s, w, stale, index);
      && ValidRun(s, steps)
      && (Exec(s, steps).dirs, NoErrors(steps)) == Pass(s.dirs, s.now, index)
      && PhaseOf(Exec(s, steps), w).Idle?
  {
    stale := ReclaimIsRun(s, s.dirs.processing.Keys);
    var d1 := ReclaimAll(s.dirs, s.now);
    var s1 := s.(dirs := d1);
    var batch := First(OrderOf(d1), BATCH);
    DrainIsRun(s1, w, batch, index);
    RunAppend(s, Reclaims(stale), DrainSteps(d1, w, batch, index));
    ReclaimsHaveNoErrors(stale);
    NoErrorsAppend(Reclaims(stale), DrainSteps(d1, w, batch, index));
  }
}
