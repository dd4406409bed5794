/**
 Which months a full reindex enumerates, which instants their bounds cover, and
 what the index looks like once every enumerated month job has succeeded.
 */
module ReindexMonths {
  import opened Options
  import opened SearchIndex

  datatype YearMonth = YearMonth(year: int, month: int)
  {
    predicate Valid() { 1 <= month <= 12 }

    /** Months counted from year 0; consecutive months have consecutive numbers. */
    function Number(): int { 12 * year + month - 1 }
  }

  const EPOCH_MONTH := YearMonth(1970, 1)

  function Previous(m: YearMonth): YearMonth {
    if m.month == 1 then YearMonth(m.year - 1, 12) else YearMonth(m.year, m.month - 1)
  }

  function Next(m: YearMonth): YearMonth {
    if m.month == 12 then YearMonth(m.year + 1, 1) else YearMonth(m.year, m.month + 1)
  }

  lemma PreviousCountsDown(m: YearMonth)
    requires m.Valid()
    ensures Previous(m).Valid() && Previous(m).Number() == m.Number() - 1 && Next(Previous(m)) == m
    ensures Next(m).Valid() && Next(m).Number() == m.Number() + 1 && Previous(Next(m)) == m
  {
  }

  lemma NumberInjective(a: YearMonth, b: YearMonth)
    requires a.Valid() && b.Valid() && a.Number() == b.Number()
    ensures a == b
  {
  }

  /** The loop's test: not before the first month. */
  predicate NotBefore(m: YearMonth, first: YearMonth) {
    m.year > first.year || (m.year == first.year && m.month >= first.month)
  }

  /** How many months lie from `now` back to `first`, both included. */
  function Span(now: YearMonth, first: YearMonth): nat {
    if now.Number() < first.Number() then 0 else now.Number() - first.Number() + 1
  }

  /**
   The months from `now` back to `first`, each exactly one before the other,
   none left out, and after them the epoch sentinel.
   */
  method AllReindexMonths(now: YearMonth, first: YearMonth) returns (months: seq<YearMonth>)
    requires now.Valid() && first.Valid()
    ensures |months| == Span(now, first) + 1
    ensures forall i :: 0 <= i < Span(now, first) ==> months[i].Valid() && months[i].Number() == now.Number() - i
    ensures months[Span(now, first)] == EPOCH_MONTH
  {
    var month := now;
    months := [];
    while NotBefore(month, first)
      invariant month.Valid() && month.Number() == now.Number() - |months|
      invariant |months| <= Span(now, first)
      invariant forall i :: 0 <= i < |months| ==> months[i].Valid() && months[i].Number() == now.Number() - i
      decreases month.Number() - first.Number()
    {
      months := months + [month];
      month := Previous(month);
    }
    months := months + [EPOCH_MONTH];
  }

  /** What `AllReindexMonths` returns, as a predicate for the laws below. */
  ghost predicate IsEnumeration(months: seq<YearMonth>, now: YearMonth, first: YearMonth) {
    && now.Valid() && first.Valid()
    && |months| == Span(now, first) + 1
    && (forall i :: 0 <= i < Span(now, first) ==> months[i].Valid() && months[i].Number() == now.Number() - i)
    && months[Span(now, first)] == EPOCH_MONTH
  }

  /** Before the sentinel: exactly the months in the span, strictly descending. */
  lemma EnumeratesExactly(months: seq<YearMonth>, now: YearMonth, first: YearMonth, m: YearMonth)
    requires IsEnumeration(months, now, first) && m.Valid()
    ensures m in months[..Span(now, first)] <==> first.Number() <= m.Number() <= now.Number()
    ensures forall i, j :: 0 <= i < j < Span(now, first) ==> months[j].Number() < months[i].Number()
  {
    if first.Number() <= m.Number() <= now.Number() {
      var i := now.Number() - m.Number();
      NumberInjective(months[i], m);
      assert months[..Span(now, first)][i] == m;
    }
  }

  /** The list repeats a month exactly when the span already contains January 1970. */
  lemma SentinelRepeatsIff(months: seq<YearMonth>, now: YearMonth, first: YearMonth)
    requires IsEnumeration(months, now, first)
    ensures (exists i, j :: 0 <= i < j < |months| && months[i] == months[j])
            <==> first.Number() <= EPOCH_MONTH.Number() <= now.Number()
  {
    EnumeratesExactly(months, now, first, EPOCH_MONTH);
    if first.Number() <= EPOCH_MONTH.Number() <= now.Number() {
      var i :| 0 <= i < Span(now, first) && months[..Span(now, first)][i] == EPOCH_MONTH;
      assert months[i] == months[Span(now, first)];
    }
  }

  // ---------------------------------------------------------------- month bounds

  /**
   A zone gives the instant of a month's local midnight, or nothing when that
   midnight does not exist or is ambiguous.
   */
  type Zone = YearMonth -> Option<int>

  /** The half-open bounds of a month; both midnights must be unambiguous. */
  function MonthBounds(zone: Zone, m: YearMonth): Option<(int, int)> {
    match zone(m)
    case None => None
    case Some(start) =>
      match zone(Next(m))
      case None => None
      case Some(end) => Some((start, end))
  }

  /** Every month has a start, and later months start later. */
  ghost predicate Regular(zone: Zone) {
    && (forall m: YearMonth :: m.Valid() ==> zone(m).Some?)
    && (forall m: YearMonth, n: YearMonth ::
          m.Valid() && n.Valid() && m.Number() < n.Number() ==> zone(m).value < zone(n).value)
  }

  predicate Within(zone: Zone, m: YearMonth, instant: int) {
    MonthBounds(zone, m).Some? && MonthBounds(zone, m).value.0 <= instant < MonthBounds(zone, m).value.1
  }

  lemma {:induction false} SomeMonthHas(zone: Zone, first: YearMonth, now: YearMonth, instant: int)
    returns (m: YearMonth)
    requires Regular(zone) && first.Valid() && now.Valid()
    requires zone(first).value <= instant < zone(Next(now)).value
    ensures m.Valid() && first.Number() <= m.Number() <= now.Number() && Within(zone, m, instant)
    decreases now.Number() - first.Number()
  {
    PreviousCountsDown(now);
    PreviousCountsDown(first);
    if instant < zone(Next(first)).value {
      m := first;
      if now.Number() < first.Number() {
        if Next(now).Number() < first.Number() {
        } else {
          NumberInjective(Next(now), first);
        }
        assert false;
      }
    } else {
      if Next(first).Number() > now.Number() {
        if Next(first).Number() > Next(now).Number() {
        } else {
          NumberInjective(Next(first), Next(now));
        }
        assert false;
      }
      m := SomeMonthHas(zone, Next(first), now, instant);
    }
  }

  lemma MonthsDoNotOverlap(zone: Zone, m: YearMonth, n: YearMonth, instant: int)
    requires Regular(zone) && m.Valid() && n.Valid() && Within(zone, m, instant) && Within(zone, n, instant)
    ensures m == n
  {
    PreviousCountsDown(m);
    PreviousCountsDown(n);
    if m.Number() < n.Number() {
      if Next(m).Number() == n.Number() {
        NumberInjective(Next(m), n);
      }
      assert false;
    } else if n.Number() < m.Number() {
      if Next(n).Number() == m.Number() {
        NumberInjective(Next(n), m);
      }
      assert false;
    } else {
      NumberInjective(m, n);
    }
  }

  /** Every instant from the first month's start to the end of the current month has exactly one place in the list. */
  lemma EachInstantHasOneMonth(zone: Zone, months: seq<YearMonth>, now: YearMonth, first: YearMonth, instant: int)
    requires Regular(zone) && IsEnumeration(months, now, first)
    requires zone(first).value <= instant < zone(Next(now)).value
    ensures exists i :: 0 <= i < Span(now, first) && Within(zone, months[i], instant)
    ensures forall i, j | 0 <= i < Span(now, first) && 0 <= j < Span(now, first) ::
              (Within(zone, months[i], instant) && Within(zone, months[j], instant)) ==> i == j
  {
    var m := SomeMonthHas(zone, first, now, instant);
    EnumeratesExactly(months, now, first, m);
    var i :| 0 <= i < Span(now, first) && months[..Span(now, first)][i] == m;
    assert Within(zone, months[i], instant);
    forall i, j | 0 <= i < Span(now, first) && 0 <= j < Span(now, first)
                  && Within(zone, months[i], instant) && Within(zone, months[j], instant)
      ensures i == j
    {
      MonthsDoNotOverlap(zone, months[i], months[j], instant);
    }
  }

  /**
   The sentinel month reaches messages dated at the epoch exactly when January
   1970 starts at or before the epoch there: not in zones west of UTC.
   */
  lemma SentinelReachesEpochIff(zone: Zone)
    requires Regular(zone) && zone(YearMonth(1970, 2)).value > 0
    ensures Within(zone, EPOCH_MONTH, 0) <==> zone(EPOCH_MONTH).value <= 0
  {
    assert EPOCH_MONTH.Valid() && YearMonth(1970, 2).Valid() && Next(EPOCH_MONTH) == YearMonth(1970, 2);
  }

  /** A zone five hours west of UTC, with months of equal length, in milliseconds. */
  function WestZone(m: YearMonth): Option<int> {
    Some((m.Number() - EPOCH_MONTH.Number()) * 2_678_400_000 + 18_000_000)
  }

  /** There the sentinel month starts after the epoch and misses it. */
  lemma SentinelMissesEpochInTheWest()
    ensures
      var zone: Zone := (m: YearMonth) => WestZone(m);
      Regular(zone) && zone(YearMonth(1970, 2)).value > 0 && zone(EPOCH_MONTH).value > 0 && !Within(zone, EPOCH_MONTH, 0)
  {
    var zone: Zone := (m: YearMonth) => WestZone(m);
    assert Regular(zone);
    SentinelReachesEpochIff(zone);
  }

  // ---------------------------------------------------------------- the whole reindex

  /** The documents a month job settles; a month without bounds fails before any request. */
  function JobScope(db: Db, zone: Zone, m: YearMonth): set<Id> {
    match MonthBounds(zone, m)
    case None => {}
    case Some((start, end)) => MonthScope(db, start, end)
  }

  method ReindexMonth(index: Index, x: Texts, db: Db, zone: Zone, m: YearMonth) returns (ok: bool)
    modifies index
    requires db.Valid()
    ensures ok ==> MonthBounds(zone, m).Some?
    ensures ok ==> index.docs == Settle(old(index.docs), x, db, JobScope(db, zone, m))
    ensures !ok ==> exists done ::
              done <= JobScope(db, zone, m) && index.docs == Settle(old(index.docs), x, db, done)
  {
    match MonthBounds(zone, m)
    case None =>
      SettleNothing(index.docs, x, db);
      return false;
    case Some((start, end)) =>
      ok := index.ReindexBetween(x, db, start, end);
  }

  /** The index after the jobs of all `months` have succeeded, in that order. */
  function Reindexed(docs: map<Id, Doc>, x: Texts, db: Db, zone: Zone, months: seq<YearMonth>): map<Id, Doc>
    decreases |months|
  {
    if months == [] then docs
    else Reindexed(Settle(docs, x, db, JobScope(db, zone, months[0])), x, db, zone, months[1..])
  }

  /** A document some month is responsible for ends up right, whatever the other months do. */
  lemma {:induction false} ReindexedAgrees(docs: map<Id, Doc>, x: Texts, db: Db, zone: Zone, months: seq<YearMonth>, id: Id)
    requires Agrees(docs, x, db, id) || exists i :: 0 <= i < |months| && id in JobScope(db, zone, months[i])
    ensures Agrees(Reindexed(docs, x, db, zone, months), x, db, id)
    decreases |months|
  {
    if months != [] {
      var next := Settle(docs, x, db, JobScope(db, zone, months[0]));
      SettleLookup(docs, x, db, JobScope(db, zone, months[0]), id);
      if !Agrees(next, x, db, id) {
        var i :| 0 <= i < |months| && id in JobScope(db, zone, months[i]);
        assert i > 0 && months[1..][i - 1] == months[i];
      }
      ReindexedAgrees(next, x, db, zone, months[1..], id);
    }
  }

  /** A document that is neither a topic nor a comment of the database survives every reindex. */
  lemma {:induction false} OrphansSurvive(docs: map<Id, Doc>, x: Texts, db: Db, zone: Zone, months: seq<YearMonth>, id: Id)
    requires id !in db.topics && id !in db.comments
    ensures Lookup(Reindexed(docs, x, db, zone, months), id) == Lookup(docs, id)
    decreases |months|
  {
    if months != [] {
      SettleLookup(docs, x, db, JobScope(db, zone, months[0]), id);
      OrphansSurvive(Settle(docs, x, db, JobScope(db, zone, months[0])), x, db, zone, months[1..], id);
    }
  }

  /** The topic a document belongs to. */
  function TopicOf(db: Db, id: Id): Id {
    if id in db.comments then db.comments[id].topic else id
  }

  /**
   A completed full reindex leaves the index equal to the searchable projection
   on every topic posted from the first month to the end of the current one and
   on all its comments, no matter what the index held before. Epoch-dated topics
   are included exactly as far as the sentinel month reaches them.
   */
  lemma FullReindexReconciles(
      docs: map<Id, Doc>, x: Texts, db: Db, zone: Zone, months: seq<YearMonth>, now: YearMonth, first: YearMonth, id: Id)
    requires Regular(zone) && IsEnumeration(months, now, first)
    requires id in db.topics || id in db.comments
    requires TopicOf(db, id) in db.topics
    requires
      var posted := db.topics[TopicOf(db, id)].postdate;
      zone(first).value <= posted < zone(Next(now)).value || (posted == 0 && Within(zone, EPOCH_MONTH, 0))
    ensures Agrees(Reindexed(docs, x, db, zone, months), x, db, id)
  {
    var posted := db.topics[TopicOf(db, id)].postdate;
    if zone(first).value <= posted < zone(Next(now)).value {
      EachInstantHasOneMonth(zone, months, now, first, posted);
    } else {
      assert Within(zone, months[Span(now, first)], posted);
    }
    var i :| 0 <= i < |months| && Within(zone, months[i], posted);
    var bounds := MonthBounds(zone, months[i]).value;
    assert Within(zone, months[i], posted);
    assert bounds.0 <= posted;
    assert posted < bounds.1;
    assert TopicOf(db, id) in TopicsBetween(db, bounds.0, bounds.1);
    assert id in MonthScope(db, bounds.0, bounds.1);
    assert id in JobScope(db, zone, months[i]);
    ReindexedAgrees(docs, x, db, zone, months, id);
  }
}
