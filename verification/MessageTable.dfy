/** The capped message table: what a batch, a patch and the prune do to it, and
    why pruning batch by batch equals pruning once at the end. */
module MessageTable {
  import opened Wrappers

  const MAX_ROWS: nat := 500
  const MAX_APPEND_ROWS: nat := 1000

  /** Everything in a row but its key and its place in the log. */
  datatype Body = Body(status: string, reason: Option<string>, deliveredAt: Option<int>, rest: string)

  datatype Row = Row(createdAt: int, seqNo: nat, body: Body)

  type Table = map<string, Row>

  /** One row handed to `append`, after normalization. */
  datatype Input = Unusable | Usable(uid: string, createdAt: int, body: Body)

  // ---- append: duplicates inside a batch ----

  /** A Python dict keyed by uid: a repeated uid keeps its first position and
      its last value. */
  datatype Batch = Batch(order: seq<string>, rows: map<string, Input>)

  function Clean(rows: seq<Input>): (b: Batch)
    ensures Distinct(b.order) && forall u :: u in b.order <==> u in b.rows
    ensures forall u :: u in b.rows ==> b.rows[u].Usable? && b.rows[u].uid == u && b.rows[u] in rows
  {
    if rows == [] then Batch([], map[])
    else
      var b, row := Clean(rows[..|rows| - 1]), rows[|rows| - 1];
      if row.Unusable? then b
      else Batch(if row.uid in b.rows then b.order else b.order + [row.uid], b.rows[row.uid := row])
  }

  function Capped(rows: seq<Input>): seq<Input> {
    if |rows| > MAX_APPEND_ROWS then rows[|rows| - MAX_APPEND_ROWS..] else rows
  }

  // ---- append: upsert, then prune ----

  /** `INSERT .. ON CONFLICT(uid) DO UPDATE`: an existing row keeps its place. */
  function Upsert(t: Table, input: Input, seqNo: nat): Table
    requires input.Usable?
  {
    t[input.uid := Row(input.createdAt, if input.uid in t then t[input.uid].seqNo else seqNo, input.body)]
  }

  /** The batch's rows in order, numbered from `counter + 1` on. */
  function UpsertAll(t: Table, b: Batch, counter: nat): Table
    requires forall u :: u in b.order ==> u in b.rows && b.rows[u].Usable? && b.rows[u].uid == u
    decreases |b.order|
  {
    if b.order == [] then t
    else
      var u := b.order[|b.order| - 1];
      Upsert(UpsertAll(t, b.(order := b.order[..|b.order| - 1]), counter), b.rows[u], counter + |b.order|)
  }

  /** ORDER BY created_at, seq. */
  predicate Earlier(a: Row, b: Row) {
    a.createdAt < b.createdAt || (a.createdAt == b.createdAt && a.seqNo < b.seqNo)
  }

  function Later(t: Table, u: string): set<string>
    requires u in t
  {
    set v | v in t && Earlier(t[u], t[v])
  }

  /** The rows a `DELETE .. NOT IN (.. ORDER BY .. DESC LIMIT k)` leaves: those
      with fewer than k later ones. */
  function Newest(t: Table, k: nat): Table {
    map u | u in t && |Later(t, u)| < k :: t[u]
  }

  // ---- update ----

  /** A patch writes the fields it names; one that names none, or no uid, is skipped. */
  datatype Patch = Patch(
    uid: string, status: Option<string>, reason: Option<Option<string>>, deliveredAt: Option<Option<int>>)
  {
    predicate Writes() { uid != "" && (status.Some? || reason.Some? || deliveredAt.Some?) }
  }

  function PatchBody(b: Body, p: Patch): Body {
    Body(if p.status.Some? then p.status.value else b.status,
         if p.reason.Some? then p.reason.value else b.reason,
         if p.deliveredAt.Some? then p.deliveredAt.value else b.deliveredAt,
         b.rest)
  }

  function PatchOne(t: Table, p: Patch): Table {
    if p.Writes() && p.uid in t then t[p.uid := t[p.uid].(body := PatchBody(t[p.uid].body, p))] else t
  }

  function Patched(t: Table, patches: seq<Patch>): Table {
    if patches == [] then t else PatchOne(Patched(t, patches[..|patches| - 1]), patches[|patches| - 1])
  }

  /** Patches move no row: they keep the keys, creation times and numbers. */
  ghost predicate SamePlaces(t: Table, u: Table) {
    t.Keys == u.Keys && forall k :: k in t ==> SameKey(t[k], u[k])
  }

  ghost predicate SameKey(a: Row, b: Row) { a.createdAt == b.createdAt && a.seqNo == b.seqNo }

  lemma {:induction false} PatchesMoveNothing(t: Table, patches: seq<Patch>)
    ensures SamePlaces(t, Patched(t, patches))
  {
    if patches != [] {
      PatchesMoveNothing(t, patches[..|patches| - 1]);
    }
  }

  /** What a field holds after writes some of which leave it alone. */
  function Latest<T>(was: T, writes: seq<Option<T>>): (r: T)
    ensures forall i :: 0 <= i < |writes| && writes[i].Some? && (forall j :: i < j < |writes| ==> writes[j].None?) ==>
      r == writes[i].value
    ensures (forall i :: 0 <= i < |writes| ==> writes[i].None?) ==> r == was
  {
    if writes == [] then was
    else if writes[|writes| - 1].Some? then writes[|writes| - 1].value
    else Latest(was, writes[..|writes| - 1])
  }

  /** What each patch writes into one field of the row `u`. */
  function Column<T>(patches: seq<Patch>, u: string, field: Patch -> Option<T>): (r: seq<Option<T>>)
    ensures |r| == |patches| && forall i :: 0 <= i < |r| ==>
      r[i] == if patches[i].uid == u then field(patches[i]) else None
  {
    seq(|patches|, i requires 0 <= i < |patches| => if patches[i].uid == u then field(patches[i]) else None)
  }

  function Status(p: Patch): Option<string> { p.status }

  function Reason(p: Patch): Option<Option<string>> { p.reason }

  function Delivery(p: Patch): Option<Option<int>> { p.deliveredAt }

  lemma ColumnStep<T>(was: T, patches: seq<Patch>, u: string, field: Patch -> Option<T>)
    requires patches != []
    ensures var last := patches[|patches| - 1];
      Latest(was, Column(patches, u, field)) ==
        if last.uid == u && field(last).Some? then field(last).value
          else Latest(was, Column(patches[..|patches| - 1], u, field))
  {
    assert Column(patches, u, field)[..|patches| - 1] == Column(patches[..|patches| - 1], u, field);
  }

  /** Each field of a row is what the last patch naming it says, or as it was. */
  lemma {:induction false} LastPatchWins(t: Table, patches: seq<Patch>, u: string)
    requires u in t && u != ""
    ensures u in Patched(t, patches)
    ensures var was, now := t[u].body, Patched(t, patches)[u].body;
      && now.status == Latest(was.status, Column(patches, u, Status))
      && now.reason == Latest(was.reason, Column(patches, u, Reason))
      && now.deliveredAt == Latest(was.deliveredAt, Column(patches, u, Delivery))
      && now.rest == was.rest
  {
    if patches != [] {
      var was := t[u].body;
      LastPatchWins(t, patches[..|patches| - 1], u);
      ColumnStep(was.status, patches, u, Status);
      ColumnStep(was.reason, patches, u, Reason);
      ColumnStep(was.deliveredAt, patches, u, Delivery);
      hide Latest, Column;
    }
  }

  // ---- Insertion numbers ----

  ghost predicate DistinctSeqs(t: Table) {
    forall u, v :: u in t && v in t && u != v ==> t[u].seqNo != t[v].seqNo
  }

  /** Numbers are distinct, start at 1, and none is above the counter. */
  ghost predicate Numbered(t: Table, counter: nat) {
    && (forall u :: u in t ==> 1 <= t[u].seqNo <= counter)
    && DistinctSeqs(t)
  }

  ghost predicate IsMaxSeq(t: Table, n: nat) {
    && (forall u :: u in t ==> t[u].seqNo <= n)
    && (if t == map[] then n == 0 else exists u :: u in t && t[u].seqNo == n)
  }

  /** `_read_max_seq`: a failed read answers 0 as well. */
  ghost predicate Seeded(t: Table, readOk: bool, n: nat) {
    if readOk then IsMaxSeq(t, n) else n == 0
  }

  // ---- The newest k rows ----

  /** These are the keys of the k greatest rows of `t`, or all of them. */
  ghost predicate TopKeys(keys: set<string>, t: Table, k: nat) {
    && keys <= t.Keys
    && |keys| <= k
    && (|keys| == k || keys == t.Keys)
    && forall u, v :: u in t.Keys - keys && v in keys ==> Earlier(t[u], t[v])
  }

  /** `top` holds the k greatest rows of `t`, or all of them. */
  ghost predicate IsTop(top: Table, t: Table, k: nat) {
    && TopKeys(top.Keys, t, k)
    && forall u :: u in top ==> top[u] == t[u]
  }

  lemma {:induction false} LatestExists(t: Table) returns (m: string)
    requires t != map[] && DistinctSeqs(t)
    ensures m in t && forall u :: u in t && u != m ==> Earlier(t[u], t[m])
    decreases t.Keys
  {
    var x :| x in t;
    var rest := t - {x};
    if rest == map[] {
      m := x;
      assert forall u :: u in t && u != m ==> u in rest;
    } else {
      var y := LatestExists(rest);
      m := if Earlier(t[x], t[y]) then y else x;
      assert forall u :: u in t && u != x ==> u in rest;
    }
  }

  lemma LaterWithout(t: Table, m: string, u: string)
    requires m in t && u in t && u != m && Earlier(t[u], t[m])
    ensures u in t - {m} && Later(t, u) == Later(t - {m}, u) + {m} && |Later(t, u)| == |Later(t - {m}, u)| + 1
  {
  }

  lemma NewestStep(t: Table, k: nat, m: string)
    requires k > 0 && m in t && forall u :: u in t && u != m ==> Earlier(t[u], t[m])
    ensures Newest(t, k) == Newest(t - {m}, k - 1)[m := t[m]]
  {
    var rest := t - {m};
    assert Later(t, m) == {};
    forall u | u in t && u != m ensures u in Newest(t, k) <==> u in Newest(rest, k - 1) {
      LaterWithout(t, m, u);
    }
  }

  lemma TopExtends(keys: set<string>, t: Table, k: nat, m: string)
    requires k > 0 && m in t && TopKeys(keys, t - {m}, k - 1)
    requires forall u :: u in t && u != m ==> Earlier(t[u], t[m])
    ensures TopKeys(keys + {m}, t, k)
  {
    assert m !in keys && |keys + {m}| == |keys| + 1;
    forall u, v | u in t.Keys - (keys + {m}) && v in keys + {m} ensures Earlier(t[u], t[v]) {
      if v != m {
        assert u in (t - {m}).Keys - keys;
      }
    }
  }

  lemma NoneOrAll(t: Table, k: nat)
    requires t == map[] || k == 0
    ensures Newest(t, k) == map[] && TopKeys({}, t, k)
  {
  }

  lemma FewerDistinct(t: Table, m: string)
    requires DistinctSeqs(t)
    ensures DistinctSeqs(t - {m})
  {
  }

  /** Pruning keeps the newest k rows. */
  lemma {:induction false} NewestIsTop(t: Table, k: nat)
    requires DistinctSeqs(t)
    ensures IsTop(Newest(t, k), t, k)
    decreases t.Keys
  {
    hide Newest, Earlier, TopKeys;
    if t != map[] && k > 0 {
      var m := LatestExists(t);
      var rest := t - {m};
      FewerDistinct(t, m);
      NewestIsTop(rest, k - 1);
      NewestStep(t, k, m);
      TopExtends(Newest(rest, k - 1).Keys, t, k, m);
      assert Newest(t, k).Keys == Newest(rest, k - 1).Keys + {m};
    } else {
      NoneOrAll(t, k);
      assert Newest(t, k).Keys == {};
    }
  }

  /** In plain terms: at most k rows stay, unchanged, a dropped row is older than
      each that stays or as old and inserted before it, and none is dropped
      while there is room. */
  lemma PruneDropsTheOldest(t: Table, k: nat, dropped: string, kept: string)
    requires DistinctSeqs(t) && dropped in t && dropped !in Newest(t, k)
    ensures |Newest(t, k).Keys| == k && k < |t.Keys|
    ensures kept in Newest(t, k) ==>
      && kept in t && Newest(t, k)[kept] == t[kept]
      && (t[dropped].createdAt < t[kept].createdAt
          || (t[dropped].createdAt == t[kept].createdAt && t[dropped].seqNo < t[kept].seqNo))
  {
    NewestIsTop(t, k);
    var keys := Newest(t, k).Keys;
    assert |keys + {dropped}| == |keys| + 1;
    SubsetSize(keys + {dropped}, t.Keys);
    hide Newest;
    assert dropped in t.Keys - keys;
  }

  /** A batch over a thousand rows is cut to its last thousand. */
  lemma CappedKeepsTheLast(rows: seq<Input>)
    ensures |rows| <= 1000 ==> Capped(rows) == rows
    ensures |rows| > 1000 ==> |Capped(rows)| == 1000 && rows == rows[..|rows| - 1000] + Capped(rows)
  {
  }

  // ---- What a batch does ----

  ghost predicate BatchOk(b: Batch) {
    && Distinct(b.order)
    && forall u :: u in b.order ==> u in b.rows && b.rows[u].Usable? && b.rows[u].uid == u
  }

  /** Rows of the batch get its values, known rows keep their number, new rows
      are numbered in order, everything else stays. */
  ghost predicate Effect(t: Table, b: Batch, counter: nat, r: Table) {
    && (forall u :: u in r <==> u in t || u in b.order)
    && (forall u :: u in t ==> r[u].seqNo == t[u].seqNo && (u !in b.order ==> r[u] == t[u]))
    && (forall u :: u in b.order && u in b.rows && b.rows[u].Usable? ==>
      r[u].createdAt == b.rows[u].createdAt && r[u].body == b.rows[u].body)
    && (forall k :: 0 <= k < |b.order| && b.order[k] !in t ==> r[b.order[k]].seqNo == counter + k + 1)
  }

  lemma {:induction false} UpsertAllEffect(t: Table, b: Batch, counter: nat)
    requires BatchOk(b)
    ensures Effect(t, b, counter, UpsertAll(t, b, counter))
    decreases |b.order|
  {
    if b.order != [] {
      var init := b.(order := b.order[..|b.order| - 1]);
      var u := b.order[|b.order| - 1];
      UpsertAllEffect(t, init, counter);
      assert u !in init.order;
      assert forall v :: v in b.order <==> v in init.order || v == u;
      assert forall k :: 0 <= k < |init.order| ==> init.order[k] == b.order[k];
    }
  }

  lemma EffectKeepsNumbered(t: Table, b: Batch, counter: nat, r: Table)
    requires Effect(t, b, counter, r) && Numbered(t, counter)
    ensures Numbered(r, counter + |b.order|)
  {
  }

  /** Each uid is new, or its row is still in the table and sent again with the
      same creation time. */
  ghost predicate FreshOrKept(t: Table, all: Table, b: Batch) {
    forall u :: u in b.order ==>
      u !in all || (u in t && u in b.rows && b.rows[u].Usable? && b.rows[u].createdAt == t[u].createdAt)
  }

  /** `grown` and `allGrown` are `t` and `all` after the same batch. */
  ghost predicate Alike(t: Table, all: Table, grown: Table, allGrown: Table) {
    && t.Keys <= all.Keys && t.Keys <= grown.Keys <= allGrown.Keys
    && (forall u :: u in allGrown && u !in grown <==> u in all && u !in t)
    && (forall u :: u in grown ==> allGrown[u] == grown[u])
    && (forall u :: u in all && u !in t ==> u in allGrown && allGrown[u] == all[u])
    && (forall u :: u in t ==> SameKey(grown[u], t[u]))
  }

  lemma SameRows(t: Table, all: Table, b: Batch, counter: nat, grown: Table, allGrown: Table)
    requires BatchOk(b) && FreshOrKept(t, all, b) && IsTop(t, all, MAX_ROWS)
    requires Effect(t, b, counter, grown) && Effect(all, b, counter, allGrown)
    ensures Alike(t, all, grown, allGrown)
  {
    forall u | u in grown ensures u in allGrown && allGrown[u] == grown[u] {
      if u in b.order {
        var k :| 0 <= k < |b.order| && b.order[k] == u;
      }
    }
  }

  /** Pruning a grown table prunes the grown unbounded log as well. */
  lemma PruneRefines(t: Table, all: Table, grown: Table, allGrown: Table, keys: set<string>, k: nat)
    requires IsTop(t, all, k) && TopKeys(keys, grown, k) && Alike(t, all, grown, allGrown)
    ensures TopKeys(keys, allGrown, k)
  {
    if all.Keys == t.Keys {
      assert allGrown.Keys == grown.Keys;
    } else {
      SubsetSize(t.Keys, grown.Keys);
      assert |keys| == k;
    }
    forall u, v | u in allGrown.Keys - keys && v in keys ensures Earlier(allGrown[u], allGrown[v]) {
      if u in grown {
        assert u in grown.Keys - keys;
      } else {
        assert u in all.Keys - t.Keys;
        if v !in t {
          // v is new and was kept, so some older row of the table had to go.
          var w := Displaced(t.Keys, keys, v);
          assert w in grown.Keys - keys;
          assert Earlier(all[u], all[w]) && Earlier(grown[w], grown[v]);
        }
      }
    }
  }

  lemma Displaced(was: set<string>, keys: set<string>, v: string) returns (w: string)
    requires |was| == |keys| && v in keys && v !in was
    ensures w in was && w !in keys
  {
    assert |keys - {v}| == |keys| - 1;
    if was <= keys {
      SubsetSize(was, keys - {v});
    }
    w :| w in was && w !in keys;
  }

  lemma FewerNumbered(t: Table, u: Table, counter: nat)
    requires Numbered(t, counter) && u.Keys <= t.Keys && forall k :: k in u ==> u[k].seqNo == t[k].seqNo
    ensures Numbered(u, counter)
  {
  }

  lemma PrunedIsTop(pruned: Table, grown: Table, allGrown: Table, k: nat)
    requires IsTop(pruned, grown, k) && TopKeys(pruned.Keys, allGrown, k)
    requires grown.Keys <= allGrown.Keys && forall u :: u in grown ==> allGrown[u] == grown[u]
    ensures IsTop(pruned, allGrown, k)
  {
  }

  lemma GrownRefines(t: Table, all: Table, grown: Table, allGrown: Table, next: nat)
    requires IsTop(t, all, MAX_ROWS) && Alike(t, all, grown, allGrown) && Numbered(grown, next)
    ensures IsTop(Newest(grown, MAX_ROWS), allGrown, MAX_ROWS) && Numbered(Newest(grown, MAX_ROWS), next)
  {
    NewestIsTop(grown, MAX_ROWS);
    var after := Newest(grown, MAX_ROWS);
    hide Newest, Earlier, Later;
    PruneRefines(t, all, grown, allGrown, after.Keys, MAX_ROWS);
    PrunedIsTop(after, grown, allGrown, MAX_ROWS);
    FewerNumbered(grown, after, next);
  }

  /** One batch: the capped table stays the newest rows of the log that forgets
      nothing, and numbers stay distinct. */
  lemma BatchRefines(t: Table, all: Table, counter: nat, b: Batch)
    requires IsTop(t, all, MAX_ROWS) && Numbered(t, counter)
    requires BatchOk(b) && FreshOrKept(t, all, b)
    ensures var after := Newest(UpsertAll(t, b, counter), MAX_ROWS);
      && IsTop(after, UpsertAll(all, b, counter), MAX_ROWS)
      && Numbered(after, counter + |b.order|)
  {
    hide UpsertAll, Newest, IsTop, TopKeys, Effect, Numbered, Alike, FreshOrKept, Later, Earlier, Distinct;
    var grown, allGrown := UpsertAll(t, b, counter), UpsertAll(all, b, counter);
    UpsertAllEffect(t, b, counter);
    UpsertAllEffect(all, b, counter);
    EffectKeepsNumbered(t, b, counter, grown);
    SameRows(t, all, b, counter, grown, allGrown);
    GrownRefines(t, all, grown, allGrown, counter + |b.order|);
  }

  // ---- Duplicates inside a batch ----

  predicate Names(row: Input, u: string) { row.Usable? && row.uid == u }

  ghost predicate FirstAt(rows: seq<Input>, u: string, i: nat) {
    i < |rows| && Names(rows[i], u) && forall j :: 0 <= j < i ==> !Names(rows[j], u)
  }

  ghost predicate LastAt(rows: seq<Input>, u: string, i: nat) {
    i < |rows| && Names(rows[i], u) && forall j :: i < j < |rows| ==> !Names(rows[j], u)
  }

  ghost predicate Precedes(order: seq<string>, u: string, v: string) {
    exists p, q :: 0 <= p < q < |order| && order[p] == u && order[q] == v
  }

  lemma {:induction false} NamedIsCleaned(rows: seq<Input>, u: string, i: nat)
    requires i < |rows| && Names(rows[i], u)
    ensures u in Clean(rows).rows
  {
    if i < |rows| - 1 {
      NamedIsCleaned(rows[..|rows| - 1], u, i);
    }
  }

  lemma UnnamedIsNotCleaned(rows: seq<Input>, u: string)
    requires forall i :: 0 <= i < |rows| ==> !Names(rows[i], u)
    ensures u !in Clean(rows).order
  {
  }

  lemma PrecedesFurther(order: seq<string>, more: seq<string>, u: string, v: string)
    requires Precedes(order, u, v)
    ensures Precedes(order + more, u, v)
  {
    var p, q :| 0 <= p < q < |order| && order[p] == u && order[q] == v;
    assert (order + more)[p] == u && (order + more)[q] == v;
  }

  lemma PrecedesNewcomer(order: seq<string>, u: string, v: string)
    requires u in order
    ensures Precedes(order + [v], u, v)
  {
    var p :| 0 <= p < |order| && order[p] == u;
    assert (order + [v])[p] == u && (order + [v])[|order|] == v;
  }

  /** The batch's row for `u` is the last one handed in. */
  lemma {:induction false} LastValueWins(rows: seq<Input>, u: string, i: nat)
    requires LastAt(rows, u, i)
    ensures u in Clean(rows).order && Clean(rows).rows[u] == rows[i]
  {
    if i < |rows| - 1 {
      LastValueWins(rows[..|rows| - 1], u, i);
    }
  }

  /** The batch writes its uids in the order in which each was first handed in. */
  lemma {:induction false} FirstPositionStays(rows: seq<Input>, u: string, i: nat, v: string, j: nat)
    requires FirstAt(rows, u, i) && FirstAt(rows, v, j) && i < j
    ensures Precedes(Clean(rows).order, u, v)
  {
    var init, last := rows[..|rows| - 1], rows[|rows| - 1];
    var before := Clean(init).order;
    if j < |rows| - 1 {
      FirstPositionStays(init, u, i, v, j);
      assert Clean(rows).order == before || Clean(rows).order == before + [last.uid];
      hide Clean, Precedes;
      if last.Usable? {
        PrecedesFurther(before, [last.uid], u, v);
      }
    } else {
      NamedIsCleaned(init, u, i);
      UnnamedIsNotCleaned(init, v);
      assert Clean(rows).order == before + [v];
      hide Clean, Precedes;
      PrecedesNewcomer(before, u, v);
    }
  }
}
