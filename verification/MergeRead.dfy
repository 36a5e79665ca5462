/** Merge-on-read: one resolve per tier, a cross-tier latest-wins union, the exclusion set, the
    parent fold of a forked branch, and the snapshot scan behind the anti-join.
  */
module MergeRead {
  import opened Base
  import opened Log
  import R = Resolve

  /** One row of a tier's two-arm resolve.  A tombstone's columns are never emitted. */
  datatype ResolvedRow = ResolvedRow(row: Uuid, cols: Option<Payload>, micros: int, isDelete: bool)

  datatype OutRow = OutRow(row: Uuid, cols: Payload)

  // ---------------------------------------------------------------- two-arm resolve

  /** The delete-visible clause over `LEFT JOIN latest`: a tombstone wins only if strictly later. */
  predicate DeleteVisible(latest: seq<Event>, d: Event) {
    forall l :: l in latest && l.row == d.row ==> PosLess(l, d)
  }

  function ColsOf(latest: seq<Event>, r: Uuid): Option<Payload> {
    if latest == [] then None
    else if latest[0].row == r && latest[0].Upsert? then Some(latest[0].cols)
    else ColsOf(latest[1..], r)
  }

  function UpsertArm(latest: seq<Event>, deletes: seq<Event>): (out: seq<ResolvedRow>)
  {
    if latest == [] then []
    else (if latest[0].Upsert? && R.Unshadowed(deletes, latest[0])
          then [ResolvedRow(latest[0].row, Some(latest[0].cols), latest[0].micros, false)] else [])
         + UpsertArm(latest[1..], deletes)
  }

  function DeleteArm(deletes: seq<Event>, latest: seq<Event>): seq<ResolvedRow> {
    if deletes == [] then []
    else (if DeleteVisible(latest, deletes[0])
          then [ResolvedRow(deletes[0].row, ColsOf(latest, deletes[0].row), deletes[0].micros, true)] else [])
         + DeleteArm(deletes[1..], latest)
  }

  /** The shared final `SELECT`: visible upserts `UNION ALL` winning tombstones. */
  function TwoArm(latest: seq<Event>, deletes: seq<Event>): seq<ResolvedRow> {
    UpsertArm(latest, deletes) + DeleteArm(deletes, latest)
  }

  predicate HasRow(out: seq<ResolvedRow>, r: Uuid) {
    exists o :: o in out && o.row == r
  }

  ghost predicate OnePerRow(out: seq<ResolvedRow>) {
    forall i, j :: 0 <= i < j < |out| ==> out[i].row != out[j].row
  }

  /** `o` carries the last event of its row in `s`. */
  ghost predicate Carries(o: ResolvedRow, s: set<Event>) {
    && o.row in Rows(s)
    && var w := Winner(s, o.row);
       o.isDelete == w.Delete? && o.micros == w.micros && (w.Upsert? ==> o.cols == Some(w.cols))
  }

  /** `out` is the resolve of `s`: one row per touched `row_uuid`, carrying its last event. */
  ghost predicate ResolvesTo(out: seq<ResolvedRow>, s: set<Event>) {
    && OnePerRow(out)
    && (forall o :: o in out ==> Carries(o, s))
    && (forall r :: r in Rows(s) ==> HasRow(out, r))
  }

  lemma {:induction false} InUpsertArm(latest: seq<Event>, deletes: seq<Event>, o: ResolvedRow)
    ensures o in UpsertArm(latest, deletes) <==>
            exists l :: l in latest && l.Upsert? && R.Unshadowed(deletes, l)
                        && o == ResolvedRow(l.row, Some(l.cols), l.micros, false)
  {
    if latest != [] { InUpsertArm(latest[1..], deletes, o); }
  }

  lemma {:induction false} InDeleteArm(deletes: seq<Event>, latest: seq<Event>, o: ResolvedRow)
    ensures o in DeleteArm(deletes, latest) <==>
            exists d :: d in deletes && DeleteVisible(latest, d) && o == ResolvedRow(d.row, ColsOf(latest, d.row), d.micros, true)
  {
    if deletes != [] { InDeleteArm(deletes[1..], latest, o); }
  }

  lemma {:induction false} UpsertArmOnePerRow(latest: seq<Event>, deletes: seq<Event>)
    requires R.OnePerRow(latest)
    ensures OnePerRow(UpsertArm(latest, deletes))
  {
    if latest != [] {
      UpsertArmOnePerRow(latest[1..], deletes);
      forall o | o in UpsertArm(latest[1..], deletes) ensures o.row != latest[0].row {
        InUpsertArm(latest[1..], deletes, o);
      }
    }
  }

  lemma {:induction false} DeleteArmOnePerRow(deletes: seq<Event>, latest: seq<Event>)
    requires R.OnePerRow(deletes)
    ensures OnePerRow(DeleteArm(deletes, latest))
  {
    if deletes != [] {
      DeleteArmOnePerRow(deletes[1..], latest);
      forall o | o in DeleteArm(deletes[1..], latest) ensures o.row != deletes[0].row {
        InDeleteArm(deletes[1..], latest, o);
      }
    }
  }

  /** A tier's source rows: the upserts and tombstones of `s`. */
  ghost predicate Sources(ups: seq<Event>, dels: seq<Event>, s: set<Event>) {
    && (forall e :: e in ups <==> e in s && e.Upsert?)
    && (forall e :: e in dels <==> e in s && e.Delete?)
  }

  lemma VisibleUpsertWins(ups: seq<Event>, dels: seq<Event>, s: set<Event>, latest: seq<Event>, deletes: seq<Event>, l: Event)
    requires Sources(ups, dels, s) && R.DistinctOn(ups, latest) && R.DistinctOn(dels, deletes)
    requires l in latest && R.Unshadowed(deletes, l)
    ensures Latest(s, l)
  {
    forall f | f in s && f.row == l.row ensures Leq(f, l) {
      R.BestUnshadowedIsLast(ups, dels, deletes, l, f);
    }
  }

  lemma VisibleDeleteWins(ups: seq<Event>, dels: seq<Event>, s: set<Event>, latest: seq<Event>, deletes: seq<Event>, d: Event)
    requires Sources(ups, dels, s) && R.DistinctOn(ups, latest) && R.DistinctOn(dels, deletes)
    requires d in deletes && DeleteVisible(latest, d)
    ensures Latest(s, d)
  {
    forall f | f in s && f.row == d.row ensures Leq(f, d) {
      if f.Upsert? {
        assert f in ups;
        var l :| l in latest && l.row == f.row;
      } else {
        assert f in dels;
      }
    }
  }

  lemma {:induction false} ColsOfFinds(latest: seq<Event>, r: Uuid)
    requires forall l :: l in latest ==> l.Upsert?
    ensures ColsOf(latest, r).None? <==> forall l :: l in latest ==> l.row != r
    ensures ColsOf(latest, r).Some? ==> exists l :: l in latest && l.row == r && ColsOf(latest, r) == Some(l.cols)
  {
    if latest != [] {
      ColsOfFinds(latest[1..], r);
      assert latest[0] in latest && forall l :: l in latest ==> l == latest[0] || l in latest[1..];
    }
  }

  /** These are the columns of the row's last upsert. */
  ghost predicate LastColumns(ups: seq<Event>, r: Uuid, cols: Payload) {
    exists u :: u in ups && u.row == r && u.Upsert? && u.cols == cols && forall v :: v in ups && v.row == r ==> R.LexGeq(u, v)
  }

  lemma ColsOfLast(ups: seq<Event>, latest: seq<Event>, r: Uuid)
    requires R.DistinctOn(ups, latest) && forall u :: u in ups ==> u.Upsert?
    ensures ColsOf(latest, r).None? <==> forall u :: u in ups ==> u.row != r
    ensures ColsOf(latest, r).Some? ==> LastColumns(ups, r, ColsOf(latest, r).value)
  {
    ColsOfFinds(latest, r);
    if ColsOf(latest, r).Some? {
      var l :| l in latest && l.row == r && ColsOf(latest, r) == Some(l.cols);
      forall v | v in ups && v.row == r ensures R.LexGeq(l, v) { assert !PosLess(l, v); }
      assert l in ups;
    } else {
      forall u | u in ups ensures u.row != r { assert R.HasRow(latest, u.row); }
    }
  }

  lemma TombstoneOf(latest: seq<Event>, deletes: seq<Event>, o: ResolvedRow)
    requires o in TwoArm(latest, deletes) && o.isDelete
    ensures o.cols == ColsOf(latest, o.row)
  {
    InUpsertArm(latest, deletes, o);
    InDeleteArm(deletes, latest, o);
  }

  /** A tombstone's row still carries the columns of its entity's last upsert, if there was one. */
  lemma TombstoneColumns(ups: seq<Event>, latest: seq<Event>, deletes: seq<Event>, o: ResolvedRow)
    requires R.DistinctOn(ups, latest) && (forall u :: u in ups ==> u.Upsert?) && o in TwoArm(latest, deletes) && o.isDelete
    ensures o.cols.None? <==> forall u :: u in ups ==> u.row != o.row
    ensures o.cols.Some? ==> LastColumns(ups, o.row, o.cols.value)
  {
    TombstoneOf(latest, deletes, o);
    ColsOfLast(ups, latest, o.row);
  }

  /** The two arms are mutually exclusive and exhaustive per `row_uuid`. */
  lemma OneArmApplies(ups: seq<Event>, dels: seq<Event>, s: set<Event>, latest: seq<Event>, deletes: seq<Event>, r: Uuid)
    requires Sources(ups, dels, s) && R.DistinctOn(ups, latest) && R.DistinctOn(dels, deletes) && r in Rows(s)
    ensures HasRow(UpsertArm(latest, deletes), r) <==> !HasRow(DeleteArm(deletes, latest), r)
  {
    var e :| e in s && e.row == r;
    var up, down := UpsertArm(latest, deletes), DeleteArm(deletes, latest);
    assert R.HasRow(latest, r) || R.HasRow(deletes, r) by { assert e in ups || e in dels; }
    if R.HasRow(latest, r) {
      var l :| l in latest && l.row == r;
      var o := ResolvedRow(l.row, Some(l.cols), l.micros, false);
      InUpsertArm(latest, deletes, o);
      if R.Unshadowed(deletes, l) {
        forall q | q in down ensures q.row != r {
          InDeleteArm(deletes, latest, q);
        }
      } else {
        var d :| d in deletes && d.row == l.row && !R.LexGeq(l, d);
        forall k | k in latest && k.row == d.row ensures PosLess(k, d) { assert k == l; }
        InDeleteArm(deletes, latest, ResolvedRow(d.row, ColsOf(latest, d.row), d.micros, true));
        forall q | q in up ensures q.row != r { InUpsertArm(latest, deletes, q); }
      }
    } else {
      var d :| d in deletes && d.row == r;
      InDeleteArm(deletes, latest, ResolvedRow(d.row, ColsOf(latest, d.row), d.micros, true));
      forall q | q in up ensures q.row != r { InUpsertArm(latest, deletes, q); }
    }
  }

  /** Each tier's query returns every touched row exactly once, carrying its last event, for
      every way the engine may break ties inside `latest` and `deletes`. */
  lemma TwoArmResolves(ups: seq<Event>, dels: seq<Event>, s: set<Event>, latest: seq<Event>, deletes: seq<Event>)
    requires Coherent(s) && Sources(ups, dels, s) && R.DistinctOn(ups, latest) && R.DistinctOn(dels, deletes)
    ensures ResolvesTo(TwoArm(latest, deletes), s)
  {
    var up, down := UpsertArm(latest, deletes), DeleteArm(deletes, latest);
    forall o | o in up ensures Carries(o, s) {
      InUpsertArm(latest, deletes, o);
      var l :| l in latest && l.Upsert? && R.Unshadowed(deletes, l) && o == ResolvedRow(l.row, Some(l.cols), l.micros, false);
      VisibleUpsertWins(ups, dels, s, latest, deletes, l);
      WinnerUnique(s, l);
    }
    forall o | o in down ensures Carries(o, s) {
      InDeleteArm(deletes, latest, o);
      var d :| d in deletes && DeleteVisible(latest, d) && o == ResolvedRow(d.row, ColsOf(latest, d.row), d.micros, true);
      VisibleDeleteWins(ups, dels, s, latest, deletes, d);
      assert d in dels;
      WinnerUnique(s, d);
    }
    forall r | r in Rows(s) ensures HasRow(up + down, r) {
      OneArmApplies(ups, dels, s, latest, deletes, r);
    }
    UpsertArmOnePerRow(latest, deletes);
    DeleteArmOnePerRow(deletes, latest);
    forall o, q | o in up && q in down ensures o.row != q.row {
      OneArmApplies(ups, dels, s, latest, deletes, o.row);
    }
    assert TwoArm(latest, deletes) == up + down;
  }

  // ---------------------------------------------------------------- cross-tier union

  /** Row `i` is the first of those with the greatest `commit_micros` of its `row_uuid`. */
  predicate FirstBest(batch: seq<ResolvedRow>, i: nat)
    requires i < |batch|
  {
    forall j :: 0 <= j < |batch| && batch[j].row == batch[i].row ==>
      batch[j].micros < batch[i].micros || (batch[j].micros == batch[i].micros && i <= j)
  }

  /** The first-best rows among the first `n`, in batch order. */
  function KeepBest(batch: seq<ResolvedRow>, n: nat): (out: seq<ResolvedRow>)
    requires n <= |batch|
  {
    if n == 0 then []
    else KeepBest(batch, n - 1) + (if FirstBest(batch, n - 1) then [batch[n - 1]] else [])
  }

  function Deduped(batch: seq<ResolvedRow>): seq<ResolvedRow> {
    KeepBest(batch, |batch|)
  }

  /** `best` after scanning the first `n` rows: per `row_uuid`, the first row of greatest `commit_micros`. */
  ghost predicate BestSoFar(batch: seq<ResolvedRow>, n: nat, best: map<Uuid, (nat, int)>)
    requires n <= |batch|
  {
    && (forall i :: 0 <= i < n ==> batch[i].row in best)
    && (forall r :: r in best ==>
          && best[r].0 < n && batch[best[r].0].row == r && best[r].1 == batch[best[r].0].micros
          && forall j :: 0 <= j < n && batch[j].row == r ==>
               batch[j].micros < best[r].1 || (batch[j].micros == best[r].1 && best[r].0 <= j))
  }

  method BestPositions(batch: seq<ResolvedRow>) returns (best: map<Uuid, (nat, int)>)
    ensures BestSoFar(batch, |batch|, best)
  {
    best := map[];
    for i := 0 to |batch|
      invariant BestSoFar(batch, i, best)
    {
      var row, ts := batch[i].row, batch[i].micros;
      if row in best {
        if ts > best[row].1 { best := best[row := (i, ts)]; }
      } else {
        best := best[row := (i, ts)];
      }
    }
  }

  method MarkKept(batch: seq<ResolvedRow>, best: map<Uuid, (nat, int)>) returns (mask: seq<bool>)
    requires BestSoFar(batch, |batch|, best)
    ensures |mask| == |batch|
    ensures forall i :: 0 <= i < |batch| ==> (mask[i] <==> best[batch[i].row].0 == i)
  {
    var keep := new bool[|batch|](_ => false);
    var todo := best.Keys;
    while todo != {}
      invariant todo <= best.Keys
      invariant forall i :: 0 <= i < |batch| ==> (keep[i] <==> batch[i].row !in todo && best[batch[i].row].0 == i)
      decreases |todo|
    {
      var r :| r in todo;
      keep[best[r].0] := true;
      todo := todo - {r};
    }
    mask := keep[..];
  }

  /** `dedup_by_row_uuid`: a hash map of best positions, then a keep mask over the batch. */
  method DedupByRowUuid(batch: seq<ResolvedRow>) returns (out: seq<ResolvedRow>)
    ensures out == Deduped(batch)
  {
    var best := BestPositions(batch);
    var keep := MarkKept(batch, best);
    out := [];
    for i := 0 to |batch|
      invariant out == KeepBest(batch, i)
    {
      KeptIsFirstBest(batch, best, i);
      if keep[i] { out := out + [batch[i]]; }
    }
  }

  lemma KeptIsFirstBest(batch: seq<ResolvedRow>, best: map<Uuid, (nat, int)>, i: nat)
    requires BestSoFar(batch, |batch|, best) && i < |batch|
    ensures best[batch[i].row].0 == i <==> FirstBest(batch, i)
  {
  }

  lemma FirstBestUnique(batch: seq<ResolvedRow>, i: nat, j: nat)
    requires i < |batch| && j < |batch| && i != j && FirstBest(batch, i) && FirstBest(batch, j)
    ensures batch[i].row != batch[j].row
  {
  }

  lemma {:induction false} InKeepBest(batch: seq<ResolvedRow>, n: nat, o: ResolvedRow)
    requires n <= |batch|
    ensures o in KeepBest(batch, n) <==> exists i :: 0 <= i < n && batch[i] == o && FirstBest(batch, i)
  {
    if n > 0 { InKeepBest(batch, n - 1, o); }
  }

  lemma {:induction false} KeepBestOnePerRow(batch: seq<ResolvedRow>, n: nat)
    requires n <= |batch|
    ensures OnePerRow(KeepBest(batch, n))
  {
    if n > 0 {
      KeepBestOnePerRow(batch, n - 1);
      forall o | o in KeepBest(batch, n - 1) && FirstBest(batch, n - 1) ensures o.row != batch[n - 1].row {
        InKeepBest(batch, n - 1, o);
        var i :| 0 <= i < n - 1 && batch[i] == o && FirstBest(batch, i);
        FirstBestUnique(batch, i, n - 1);
      }
    }
  }

  lemma {:induction false} FirstBestExists(batch: seq<ResolvedRow>, r: Uuid)
    requires HasRow(batch, r)
    ensures HasRow(Deduped(batch), r)
  {
    var o :| o in batch && o.row == r;
    var i :| 0 <= i < |batch| && batch[i] == o;
    var k: nat := i;
    var n: nat := 0;
    while n < |batch|
      invariant n <= |batch| && k < |batch| && batch[k].row == r
      invariant forall j :: 0 <= j < n && batch[j].row == r ==>
        batch[j].micros < batch[k].micros || (batch[j].micros == batch[k].micros && k <= j)
    {
      if batch[n].row == r && (batch[n].micros > batch[k].micros || (batch[n].micros == batch[k].micros && n < k)) { k := n; }
      n := n + 1;
    }
    InKeepBest(batch, |batch|, batch[k]);
  }

  /** No cold version of a row is stamped later than the hot version that supersedes it. */
  ghost predicate FenceMonotone(hot: seq<ResolvedRow>, cold: seq<ResolvedRow>) {
    forall h, c :: h in hot && c in cold && h.row == c.row ==> c.micros <= h.micros
  }

  lemma HotRowKept(hot: seq<ResolvedRow>, cold: seq<ResolvedRow>, o: ResolvedRow)
    requires OnePerRow(hot) && FenceMonotone(hot, cold) && o in Deduped(hot + cold) && HasRow(hot, o.row)
    ensures o in hot
  {
    InKeepBest(hot + cold, |hot + cold|, o);
    var i :| 0 <= i < |hot + cold| && (hot + cold)[i] == o && FirstBest(hot + cold, i);
    var h :| h in hot && h.row == o.row;
    var k :| 0 <= k < |hot| && hot[k] == h;
    assert (hot + cold)[k] == h;
  }

  /** The `commit_micros` union picks the commit-order winner exactly when no superseded cold
      version carries a later `commit_micros` than the hot version of the same row. */
  lemma UnionLatestExact(hot: seq<ResolvedRow>, cold: seq<ResolvedRow>, h: set<Event>, c: set<Event>)
    requires ResolvesTo(hot, h) && ResolvesTo(cold, c) && Coherent(h + c)
    requires forall a, b :: a in c && b in h && a.row == b.row ==> PosLess(a, b)
    ensures ResolvesTo(Deduped(hot + cold), h + c) <==> FenceMonotone(hot, cold)
  {
    var out := Deduped(hot + cold);
    if FenceMonotone(hot, cold) { UnionLatestResolves(hot, cold, h, c); }
    if ResolvesTo(out, h + c) {
      forall a, b | a in hot && b in cold && a.row == b.row ensures b.micros <= a.micros {
        WinnerSplit(h + c, c, h, a.row);
        FirstBestExists(hot + cold, a.row);
        var o :| o in out && o.row == a.row;
        InKeepBest(hot + cold, |hot + cold|, o);
        var i :| 0 <= i < |hot + cold| && (hot + cold)[i] == o && FirstBest(hot + cold, i);
        var j :| 0 <= j < |cold| && cold[j] == b;
        assert (hot + cold)[|hot| + j] == b;
        assert Carries(o, h + c) && Carries(a, h);
      }
    }
  }

  lemma UnionLatestResolves(hot: seq<ResolvedRow>, cold: seq<ResolvedRow>, h: set<Event>, c: set<Event>)
    requires ResolvesTo(hot, h) && ResolvesTo(cold, c) && Coherent(h + c) && FenceMonotone(hot, cold)
    requires forall a, b :: a in c && b in h && a.row == b.row ==> PosLess(a, b)
    ensures ResolvesTo(Deduped(hot + cold), h + c)
  {
    var out := Deduped(hot + cold);
    forall o | o in out ensures Carries(o, h + c) {
      InKeepBest(hot + cold, |hot + cold|, o);
      assert o in hot || o in cold;
      assert o.row in Rows(h + c);
      WinnerSplit(h + c, c, h, o.row);
      if o.row in Rows(h) {
        HotRowKept(hot, cold, o);
        assert Carries(o, h);
      } else {
        assert o !in hot;
        assert Carries(o, c);
      }
    }
    forall r | r in Rows(h + c) ensures HasRow(out, r) {
      assert r in Rows(h) || r in Rows(c);
      assert HasRow(hot + cold, r) by {
        if r in Rows(h) { var x :| x in hot && x.row == r; assert x in hot + cold; }
        else { var x :| x in cold && x.row == r; assert x in hot + cold; }
      }
      FirstBestExists(hot + cold, r);
    }
    KeepBestOnePerRow(hot + cold, |hot + cold|);
  }

  /** `commit_micros` never runs backwards along the commit order. */
  ghost predicate ClockFollowsCommits(s: set<Event>) {
    forall a, b :: a in s && b in s && a.commitSeq < b.commitSeq ==> a.micros <= b.micros
  }

  lemma TimesImplyFenceMonotone(hot: seq<ResolvedRow>, cold: seq<ResolvedRow>, h: set<Event>, c: set<Event>)
    requires ResolvesTo(hot, h) && ResolvesTo(cold, c)
    requires forall a, b :: a in c && b in h && a.row == b.row ==> a.micros <= b.micros
    ensures FenceMonotone(hot, cold)
  {
    forall a, b | a in hot && b in cold && a.row == b.row ensures b.micros <= a.micros {
      assert Carries(a, h) && Carries(b, c);
      assert Winner(h, a.row) in h && Winner(c, b.row) in c;
    }
  }

  /** A clock that never inverts the commit order gives the fence condition wherever the fence lies. */
  lemma ClockImpliesFenceMonotone(hot: seq<ResolvedRow>, cold: seq<ResolvedRow>, h: set<Event>, c: set<Event>)
    requires ResolvesTo(hot, h) && ResolvesTo(cold, c) && ClockFollowsCommits(h + c)
    requires forall a, b :: a in c && b in h ==> a.commitSeq < b.commitSeq
    ensures FenceMonotone(hot, cold)
  {
    assert forall a, b :: a in c && b in h ==> a in h + c && b in h + c;
    TimesImplyFenceMonotone(hot, cold, h, c);
  }

  lemma LaterTimestampKept(hot: seq<ResolvedRow>, cold: seq<ResolvedRow>, a: ResolvedRow, b: ResolvedRow)
    requires OnePerRow(hot) && OnePerRow(cold) && a in hot && b in cold && a.row == b.row && a.micros < b.micros
    ensures b in Deduped(hot + cold)
  {
    var batch := hot + cold;
    var k :| 0 <= k < |cold| && cold[k] == b;
    var i := |hot| + k;
    assert batch[i] == b;
    var m :| 0 <= m < |hot| && hot[m] == a;
    forall j | 0 <= j < |batch| && batch[j].row == batch[i].row ensures batch[j].micros < batch[i].micros || j == i {
      if j < |hot| { assert hot[j] == batch[j] && j == m; } else { assert cold[j - |hot|] == batch[j]; }
    }
    assert FirstBest(batch, i);
    InKeepBest(batch, |batch|, b);
  }

  lemma ResolvedOne(out: seq<ResolvedRow>, e: Event) returns (o: ResolvedRow)
    requires ResolvesTo(out, {e})
    ensures o in out && o.row == e.row && o.micros == e.micros && Carries(o, {e})
  {
    assert e.row in Rows({e}) && HasRow(out, e.row);
    o :| o in out && o.row == e.row;
    assert Carries(o, {e}) && Winner({e}, e.row) == e;
  }

  /** A clock step backwards between two commits of a row, with the fence between them: the union
      keeps the older version, whatever the two events say. */
  lemma ClockStepServesStaleVersion(older: Event, newer: Event, hot: seq<ResolvedRow>, cold: seq<ResolvedRow>)
    requires older.row == newer.row && PosLess(older, newer) && older.micros > newer.micros
    requires ResolvesTo(hot, {newer}) && ResolvesTo(cold, {older})
    ensures !ResolvesTo(Deduped(hot + cold), {newer} + {older})
    ensures exists o :: o in Deduped(hot + cold) && Carries(o, {older})
  {
    var a := ResolvedOne(hot, newer);
    var b := ResolvedOne(cold, older);
    assert Coherent({newer} + {older});
    UnionLatestExact(hot, cold, {newer}, {older});
    LaterTimestampKept(hot, cold, a, b);
  }
}
