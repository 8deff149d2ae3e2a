/** The account report: rows added up from daily buckets and the quota ledger,
    put in order, totalled per period and handed out page by page. */
module AccountPeriods {
  import opened Wrappers
  import opened Strings
  import opened AccountRows

  const MAX_ROWS := 10000

  datatype Day = Day(agent: string, profile: string, day: string, bucket: Counts)

  /** An empty agent or profile does not filter. `selected` says which periods
      the range touches; `whole` asks for every row instead of a page. */
  datatype Query = Query(
    agent: string, profile: string, yearly: bool, selected: string -> bool,
    offset: int, limit: int, whole: bool)

  function Prefix(s: string, n: nat): string { if |s| <= n then s else s[..n] }

  function KeyOf(d: Day, q: Query): Key { Key(Prefix(d.day, if q.yearly then 4 else 7), d.agent, d.profile) }

  predicate Wanted(k: Key, q: Query) {
    (q.agent == "" || k.agent == q.agent) && (q.profile == "" || k.profile == q.profile) && q.selected(k.period)
  }

  /** The daily buckets the query asks for, each with its row's key. */
  function Selected(days: seq<Day>, q: Query): seq<Item<Key>> {
    if days == [] then []
    else
      var init, d := Selected(days[..|days| - 1], q), days[|days| - 1];
      if Wanted(KeyOf(d, q), q) then init + [Item(KeyOf(d, q), d.bucket)] else init
  }

  // ---- The rows ----

  ghost predicate IsShown(k: Key, days: seq<Day>, ledger: map<Key, Stats>, q: Query) {
    HasKey(Selected(days, q), k) || (k in ledger && Wanted(k, q))
  }

  function RowOf(k: Key, days: seq<Day>, ledger: map<Key, Stats>, q: Query): Row {
    Row(k, SumAt(Selected(days, q), k), if k in ledger && Wanted(k, q) then ledger[k] else NO_STATS)
  }

  lemma {:induction false} NothingAtAbsentKey<K(!new)>(items: seq<Item<K>>, k: K)
    requires !HasKey(items, k)
    ensures SumAt(items, k) == ZERO
  {
    if items != [] {
      assert items[|items| - 1].key != k;
      assert !HasKey(items[..|items| - 1], k) by {
        assert forall i :: 0 <= i < |items| - 1 ==> items[..|items| - 1][i] == items[i];
      }
      NothingAtAbsentKey(items[..|items| - 1], k);
    }
  }

  lemma HasKeyStep<K(!new)>(items: seq<Item<K>>, it: Item<K>)
    ensures forall k :: HasKey(items + [it], k) <==> HasKey(items, k) || k == it.key
    ensures forall k ::
      SumAt(items + [it], k) == if k == it.key then SumAt(items, k).Plus(it.counts) else SumAt(items, k)
  {
    var more := items + [it];
    assert more[..|more| - 1] == items;
    forall k ensures HasKey(more, k) <==> HasKey(items, k) || k == it.key {
      if HasKey(items, k) {
        var i :| 0 <= i < |items| && items[i].key == k;
        assert more[i].key == k;
      }
      assert more[|items|].key == it.key;
    }
  }

  method AddDays(days: seq<Day>, q: Query) returns (rows: map<Key, Row>)
    ensures forall k :: k in rows <==> HasKey(Selected(days, q), k)
    ensures forall k :: k in rows ==> rows[k] == Row(k, SumAt(Selected(days, q), k), NO_STATS)
  {
    rows := map[];
    for i := 0 to |days|
      invariant forall k :: k in rows <==> HasKey(Selected(days[..i], q), k)
      invariant forall k :: k in rows ==> rows[k] == Row(k, SumAt(Selected(days[..i], q), k), NO_STATS)
    {
      assert days[..i + 1][..i] == days[..i];
      var k := KeyOf(days[i], q);
      if Wanted(k, q) {
        ghost var items := Selected(days[..i], q);
        HasKeyStep(items, Item(k, days[i].bucket));
        if k !in rows {
          NothingAtAbsentKey(items, k);
        }
        var counts := if k in rows then rows[k].counts else ZERO;
        rows := rows[k := Row(k, counts.Plus(days[i].bucket), NO_STATS)];
      }
    }
    assert days[..|days|] == days;
  }

  method AddLedger(rows: map<Key, Row>, ledger: map<Key, Stats>, q: Query) returns (r: map<Key, Row>)
    requires forall k :: k in rows ==> rows[k].key == k
    ensures forall k :: k in r <==> k in rows || (k in ledger && Wanted(k, q))
    ensures forall k :: k in r ==>
      r[k] == Row(k, if k in rows then rows[k].counts else ZERO,
                  if k in ledger && Wanted(k, q) then ledger[k] else if k in rows then rows[k].stats else NO_STATS)
  {
    r := rows;
    var left := ledger.Keys;
    while left != {}
      invariant left <= ledger.Keys
      invariant forall k :: k in r <==> k in rows || (k in ledger && k !in left && Wanted(k, q))
      invariant forall k :: k in r ==>
        r[k] == Row(k, if k in rows then rows[k].counts else ZERO,
                    if k in ledger && k !in left && Wanted(k, q) then ledger[k]
                    else if k in rows then rows[k].stats else NO_STATS)
    {
      var k :| k in left;
      if Wanted(k, q) {
        r := r[k := Row(k, if k in r then r[k].counts else ZERO, ledger[k])];
      }
      left := left - {k};
    }
  }

  /** These are the rows the query asks for, in the report's order. Only one
      sequence is. */
  ghost predicate IsReport(rows: seq<Row>, days: seq<Day>, ledger: map<Key, Stats>, q: Query) {
    && DistinctKeys(rows)
    && SortedBy(rows, InOrder)
    && (forall r :: r in rows <==> IsShown(r.key, days, ledger, q) && r == RowOf(r.key, days, ledger, q))
  }

  lemma ReportIsUnique(a: seq<Row>, b: seq<Row>, days: seq<Day>, ledger: map<Key, Stats>, q: Query)
    requires IsReport(a, days, ledger, q) && IsReport(b, days, ledger, q)
    ensures a == b
  {
    OrderIsUnique(a, b);
  }

  /** The order of the report: latest period first, inside it the most tokens
      first, then by agent and profile. */
  lemma ReportOrder(rows: seq<Row>, days: seq<Day>, ledger: map<Key, Stats>, q: Query, i: nat, j: nat)
    requires IsReport(rows, days, ledger, q) && i < j < |rows|
    ensures StrLe(rows[j].key.period, rows[i].key.period)
    ensures var a, b := rows[i].counts, rows[j].counts;
      rows[i].key.period == rows[j].key.period ==>
        a.input + a.cacheRead + a.cacheCreation + a.output >= b.input + b.cacheRead + b.cacheCreation + b.output
    ensures var a, b := rows[i], rows[j];
      a.key.period == b.key.period && a.counts.Total() == b.counts.Total() ==>
        StrLe(a.key.agent, b.key.agent) && (a.key.agent == b.key.agent ==> StrLe(a.key.profile, b.key.profile))
  {
  }

  /** A daily bucket counts for its month, or its year, exactly when no filter
      excludes its agent or profile and the range touches that period. */
  lemma WhatABucketCountsFor(days: seq<Day>, d: Day, q: Query)
    ensures var period := if q.yearly then (if |d.day| > 4 then d.day[..4] else d.day)
                          else (if |d.day| > 7 then d.day[..7] else d.day);
      Selected(days + [d], q) == Selected(days, q) +
        if (q.agent != "" && d.agent != q.agent) || (q.profile != "" && d.profile != q.profile) || !q.selected(period)
        then [] else [Item(Key(period, d.agent, d.profile), d.bucket)]
  {
    assert (days + [d])[..|days|] == days;
  }

  // ---- Conservation ----

  function KeysOf(rows: seq<Row>): (r: seq<Key>)
    ensures |r| == |rows| && forall i :: 0 <= i < |rows| ==> r[i] == rows[i].key
  {
    seq(|rows|, i requires 0 <= i < |rows| => rows[i].key)
  }

  function PeriodItems(rows: seq<Row>): (r: seq<Item<string>>)
    ensures |r| == |rows| && forall i :: 0 <= i < |rows| ==> r[i] == Item(rows[i].key.period, rows[i].counts)
  {
    seq(|rows|, i requires 0 <= i < |rows| => Item(rows[i].key.period, rows[i].counts))
  }

  lemma {:induction false} RowsAreSums(rows: seq<Row>, items: seq<Item<Key>>)
    requires forall r :: r in rows ==> r.counts == SumAt(items, r.key)
    ensures SumAll(PeriodItems(rows)) == SumOver(KeysOf(rows), items)
  {
    if rows != [] {
      var init := rows[..|rows| - 1];
      RowsAreSums(init, items);
      assert PeriodItems(rows)[..|rows| - 1] == PeriodItems(init);
      assert KeysOf(rows)[..|rows| - 1] == KeysOf(init);
    }
  }

  /** The rows together count every selected bucket once, and so do the totals
      of all periods, in whatever order the periods are taken. */
  lemma NothingIsLost(rows: seq<Row>, periods: seq<string>, days: seq<Day>, ledger: map<Key, Stats>, q: Query)
    requires IsReport(rows, days, ledger, q)
    requires Distinct(periods) && forall r :: r in rows ==> r.key.period in periods
    ensures SumAll(PeriodItems(rows)) == SumAll(Selected(days, q))
    ensures SumOver(periods, PeriodItems(rows)) == SumAll(Selected(days, q))
  {
    var items := Selected(days, q);
    hide Selected, SumAt, SumAll, SumOver, InOrder, Wanted;
    RowsAreSums(rows, items);
    forall i | 0 <= i < |items| ensures items[i].key in KeysOf(rows) {
      var row := RowOf(items[i].key, days, ledger, q);
      assert HasKey(items, row.key) && row in rows;
      var j :| 0 <= j < |rows| && rows[j] == row;
      assert KeysOf(rows)[j] == row.key;
    }
    SumsAreConserved(KeysOf(rows), items);
    SumsAreConserved(periods, PeriodItems(rows));
  }

  // ---- Pages ----

  function PageAt(rows: seq<Row>, offset: nat, limit: nat): seq<Row> {
    var from := if offset <= |rows| then offset else |rows|;
    var to := if from + limit <= |rows| then from + limit else |rows|;
    rows[from..to]
  }

  function NextOffset(rows: seq<Row>, offset: nat, limit: nat): Option<nat> {
    var next := offset + |PageAt(rows, offset, limit)|;
    if next < |rows| then Some(next) else None
  }

  /** Every page a caller sees who starts at `offset` and follows `next_offset`. */
  function Follow(rows: seq<Row>, offset: nat, limit: nat): seq<seq<Row>>
    requires limit > 0
    decreases |rows| - offset
  {
    var next := NextOffset(rows, offset, limit);
    [PageAt(rows, offset, limit)] + if next.None? then [] else Follow(rows, next.value, limit)
  }

  function Flat(pages: seq<seq<Row>>): seq<Row> {
    if pages == [] then [] else pages[0] + Flat(pages[1..])
  }

  /** Following the offsets stops and shows every row from there on once, in
      order; every page but the last is full. */
  lemma {:induction false} PagesCoverTheRows(rows: seq<Row>, offset: nat, limit: nat)
    requires limit > 0 && offset <= |rows|
    ensures Flat(Follow(rows, offset, limit)) == rows[offset..]
    ensures forall i :: 0 <= i < |Follow(rows, offset, limit)| - 1 ==> |Follow(rows, offset, limit)[i]| == limit
    decreases |rows| - offset
  {
    var next := NextOffset(rows, offset, limit);
    if next.Some? {
      PagesCoverTheRows(rows, next.value, limit);
    }
  }

  // ---- The report ----

  datatype PeriodTotal = PeriodTotal(total: int, calls: int, turns: int)

  function TotalOf(c: Counts): PeriodTotal { PeriodTotal(c.Total(), c.calls, c.turns) }

  method TotalPerPeriod(rows: seq<Row>) returns (totals: map<string, PeriodTotal>)
    ensures forall p :: p in totals <==> HasKey(PeriodItems(rows), p)
    ensures forall p :: p in totals ==> totals[p] == TotalOf(SumAt(PeriodItems(rows), p))
  {
    totals := map[];
    for i := 0 to |rows|
      invariant forall p :: p in totals <==> HasKey(PeriodItems(rows[..i]), p)
      invariant forall p :: p in totals ==> totals[p] == TotalOf(SumAt(PeriodItems(rows[..i]), p))
    {
      ghost var items := PeriodItems(rows[..i]);
      var p, c := rows[i].key.period, rows[i].counts;
      assert PeriodItems(rows[..i + 1]) == items + [Item(p, c)];
      HasKeyStep(items, Item(p, c));
      if p !in totals {
        NothingAtAbsentKey(items, p);
      }
      var entry := if p in totals then totals[p] else PeriodTotal(0, 0, 0);
      totals := totals[p := PeriodTotal(entry.total + c.Total(), entry.calls + c.calls, entry.turns + c.turns)];
    }
    assert rows[..|rows|] == rows;
  }

  datatype Reply =
    | Report(page: seq<Row>, totalCount: nat, next: Option<nat>, totals: map<string, PeriodTotal>)
    | InvalidPage
    | RangeTooLarge

  method Account(days: seq<Day>, ledger: map<Key, Stats>, q: Query) returns (reply: Reply, ordered: seq<Row>)
    ensures reply.InvalidPage? <==> q.offset < 0 || q.limit < 1 || q.limit > 200
    ensures !reply.InvalidPage? ==> IsReport(ordered, days, ledger, q)
    ensures !reply.InvalidPage? ==> (reply.RangeTooLarge? <==> |ordered| > 10000)
    ensures reply.Report? ==>
      && reply.totalCount == |ordered|
      && reply.page == (if q.whole then ordered else PageAt(ordered, q.offset, q.limit))
      && reply.next == (if q.whole then None else NextOffset(ordered, q.offset, q.limit))
      && (forall p :: p in reply.totals <==> exists r :: r in ordered && r.key.period == p)
      && (forall p :: p in reply.totals ==> reply.totals[p] == TotalOf(SumAt(PeriodItems(ordered), p)))
  {
    ordered := [];
    if q.offset < 0 || q.limit < 1 || q.limit > 200 {
      return InvalidPage, [];
    }
    var fromDays := AddDays(days, q);
    var cells := AddLedger(fromDays, ledger, q);
    var keys := Elements(cells.Keys);
    var rows := seq(|keys|, i requires 0 <= i < |keys| => assert keys[i] in keys; cells[keys[i]]);
    ordered := Ordered(rows);
    ListedRowsAreReport(rows, keys, cells, fromDays, days, ledger, q);
    if |rows| > MAX_ROWS {
      return RangeTooLarge, ordered;
    }
    var totals := TotalPerPeriod(ordered);
    var page := if q.whole then ordered else PageAt(ordered, q.offset, q.limit);
    reply := Report(page, |ordered|, if q.whole then None else NextOffset(ordered, q.offset, q.limit), totals);
    PeriodsOfRows(ordered);
  }

  lemma PeriodsOfRows(rows: seq<Row>)
    ensures forall p :: HasKey(PeriodItems(rows), p) <==> exists r :: r in rows && r.key.period == p
  {
  }

  lemma PermutedKeysAreDistinct(a: seq<Row>, b: seq<Row>)
    requires multiset(a) == multiset(b) && DistinctKeys(a)
    ensures DistinctKeys(b)
  {
    SameElements(a, b);
    forall i, j | 0 <= i < j < |b| ensures b[i].key != b[j].key {
      assert b[i] in a && b[j] in a;
      OncePerKey(a, b[i]);
      TwiceIsTwo(b, i, j);
    }
  }

  lemma TwiceIsTwo(b: seq<Row>, i: nat, j: nat)
    requires i < j < |b|
    ensures b[i] == b[j] ==> multiset(b)[b[i]] >= 2
  {
    var rest := b[..i] + b[i + 1..];
    assert b == b[..i] + [b[i]] + b[i + 1..];
    assert multiset(b) == multiset(rest) + multiset{b[i]};
    assert b[j] == rest[j - 1];
  }

  lemma OncePerKey(a: seq<Row>, r: Row)
    requires DistinctKeys(a) && r in a
    ensures multiset(a)[r] == 1 && forall s :: s in a && s.key == r.key ==> s == r
  {
    var i :| 0 <= i < |a| && a[i] == r;
    var rest := a[..i] + a[i + 1..];
    assert a == a[..i] + [a[i]] + a[i + 1..];
    assert multiset(a) == multiset(rest) + multiset{r};
    assert r !in rest;
  }

  lemma ListedRowsAreReport(rows: seq<Row>, keys: seq<Key>, cells: map<Key, Row>, fromDays: map<Key, Row>,
                            days: seq<Day>, ledger: map<Key, Stats>, q: Query)
    requires Enumerates(keys, cells.Keys) && |rows| == |keys|
    requires forall i :: 0 <= i < |keys| ==> keys[i] in cells && rows[i] == cells[keys[i]]
    requires forall k :: k in fromDays <==> HasKey(Selected(days, q), k)
    requires forall k :: k in fromDays ==> fromDays[k] == Row(k, SumAt(Selected(days, q), k), NO_STATS)
    requires forall k :: k in cells <==> k in fromDays || (k in ledger && Wanted(k, q))
    requires forall k :: k in cells ==>
      cells[k] == Row(k, if k in fromDays then fromDays[k].counts else ZERO,
                      if k in ledger && Wanted(k, q) then ledger[k]
                      else if k in fromDays then fromDays[k].stats else NO_STATS)
    ensures IsReport(Ordered(rows), days, ledger, q)
  {
    TwoPassesAreOneOrder(rows);
    SameElements(rows, Ordered(rows));
    PermutedKeysAreDistinct(rows, Ordered(rows));
    hide Ordered, InOrder, SortedBy, Selected, HasKey, Wanted;
    forall r ensures r in rows <==> IsShown(r.key, days, ledger, q) && r == RowOf(r.key, days, ledger, q) {
      if !HasKey(Selected(days, q), r.key) {
        NothingAtAbsentKey(Selected(days, q), r.key);
      }
      if r.key in cells && r == cells[r.key] {
        var i :| 0 <= i < |keys| && keys[i] == r.key;
        assert rows[i] == r;
      }
    }
  }
}
