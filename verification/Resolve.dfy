/** Resolution of an auditable store from its upsert, delete and commit logs.

    The five CTEs are given their relational meaning over row sequences.  Where SQL leaves a
    choice (which of several equally ranked rows `DISTINCT ON` or `ROW_NUMBER()` keeps) the
    choice is a parameter, so the theorems hold for every execution the engine may pick.
  */
module Resolve {
  import opened Base
  import opened Log

  datatype LogRow =
    | UpsertRow(row: Uuid, tx: Uuid, writeSeq: int, cols: Payload)
    | DeleteRow(row: Uuid, tx: Uuid, writeSeq: int)

  datatype CommitRow = CommitRow(tx: Uuid, branch: Uuid, micros: int, commitSeq: int)

  /** The upsert, delete and commit log tables of one store. */
  datatype Store = Store(upserts: seq<LogRow>, deletes: seq<LogRow>, commits: seq<CommitRow>) {
    ghost predicate Valid() {
      && (forall u :: u in upserts ==> u.UpsertRow?)
      && (forall d :: d in deletes ==> d.DeleteRow?)
    }
  }

  /** `rowFilter` is a filter that reads the entity column only. */
  datatype Spec = Spec(
    rowFilter: Option<set<Uuid>>,
    since: Option<int>,
    until: Option<int>,
    branch: Option<Uuid>,
    openTx: Option<Uuid>)

  datatype TxPos = TxPos(tx: Uuid, commitSeq: int)

  const OPEN_TX_SEQ_NUM_SENTINEL: int := 0x7FFF_FFFF_FFFF_FFFF

  predicate TxSelected(spec: Spec, c: CommitRow) {
    && (spec.branch.Some? ==> c.branch == spec.branch.value)
    && (spec.since.Some? ==> c.micros > spec.since.value)
    && (spec.until.Some? ==> c.micros <= spec.until.value)
  }

  /** CTE `commit_tx_log_filtered`, with the synthetic row of the open transaction. */
  function FilteredTxs(spec: Spec, commits: seq<CommitRow>): seq<TxPos> {
    CommittedTxs(spec, commits) +
    (if spec.openTx.Some? then [TxPos(spec.openTx.value, OPEN_TX_SEQ_NUM_SENTINEL)] else [])
  }

  function CommittedTxs(spec: Spec, commits: seq<CommitRow>): seq<TxPos> {
    if commits == [] then []
    else (if TxSelected(spec, commits[0]) then [TxPos(commits[0].tx, commits[0].commitSeq)] else [])
         + CommittedTxs(spec, commits[1..])
  }

  function ToEvent(l: LogRow, t: TxPos): Event {
    match l
    case UpsertRow(r, _, w, c) => Upsert(r, t.commitSeq, w, 0, c)
    case DeleteRow(r, _, w) => Delete(r, t.commitSeq, w, 0)
  }

  function JoinOne(l: LogRow, txs: seq<TxPos>): seq<Event> {
    if txs == [] then []
    else (if l.tx == txs[0].tx then [ToEvent(l, txs[0])] else []) + JoinOne(l, txs[1..])
  }

  /** `log INNER JOIN commit_tx_log_filtered USING (tx_uuid)`. */
  function Join(log: seq<LogRow>, txs: seq<TxPos>): seq<Event> {
    if log == [] then [] else JoinOne(log[0], txs) + Join(log[1..], txs)
  }

  /** `DISTINCT ON (row) … ORDER BY row, commit_seq_num DESC, write_seq_num DESC`: one row per
      entity, none of whose siblings is at a later position. */
  ghost predicate DistinctOn(rows: seq<Event>, out: seq<Event>) {
    && (forall e :: e in out ==> e in rows)
    && (forall e, f :: e in out && f in rows && f.row == e.row ==> !PosLess(e, f))
    && (forall f :: f in rows ==> HasRow(out, f.row))
    && OnePerRow(out)
  }

  ghost predicate HasRow(out: seq<Event>, r: Uuid) {
    exists e :: e in out && e.row == r
  }

  ghost predicate OnePerRow(out: seq<Event>) {
    forall i, j :: 0 <= i < j < |out| ==> out[i].row != out[j].row
  }

  ghost function Ahead(rows: seq<Event>, rank: seq<nat>, i: nat): set<nat>
    requires |rank| == |rows| && i < |rows|
  {
    set j: nat | j < |rows| && rows[j].row == rows[i].row && rank[j] < rank[i]
  }

  /** `ROW_NUMBER() OVER (PARTITION BY row ORDER BY commit_seq_num DESC, write_seq_num DESC)`. */
  ghost predicate RowNumber(rows: seq<Event>, rank: seq<nat>) {
    && |rank| == |rows|
    && (forall i :: 0 <= i < |rows| ==> rank[i] == 1 + |Ahead(rows, rank, i)|)
    && (forall i, j :: 0 <= i < |rows| && 0 <= j < |rows| && i != j && rows[i].row == rows[j].row ==> rank[i] != rank[j])
    && (forall i, j :: 0 <= i < |rows| && 0 <= j < |rows| && SortsBefore(rows, i, j) ==> rank[i] < rank[j])
  }

  predicate SortsBefore(rows: seq<Event>, i: nat, j: nat)
    requires i < |rows| && j < |rows|
  {
    rows[i].row == rows[j].row && PosLess(rows[j], rows[i])
  }

  /** `WHERE row_rank = 1`. */
  function RankOne(rows: seq<Event>, rank: seq<nat>): seq<Event>
    requires |rank| == |rows|
  {
    if rows == [] then [] else (if rank[0] == 1 then [rows[0]] else []) + RankOne(rows[1..], rank[1..])
  }

  /** Composite `>=` on `(commit_seq_num, write_seq_num)`, spelled out as the kernel emits it. */
  predicate LexGeq(a: Event, b: Event) {
    a.commitSeq > b.commitSeq || (a.commitSeq == b.commitSeq && a.writeSeq >= b.writeSeq)
  }

  /** The tombstone-shadow clause over `LEFT JOIN committed_deletes`. */
  predicate Unshadowed(cd: seq<Event>, u: Event) {
    forall d :: d in cd && d.row == u.row ==> LexGeq(u, d)
  }

  predicate PassesFilter(spec: Spec, r: Uuid) {
    spec.rowFilter.Some? ==> r in spec.rowFilter.value
  }

  function Upserts(spec: Spec, st: Store): seq<Event> { Join(st.upserts, FilteredTxs(spec, st.commits)) }

  function Deletes(spec: Spec, st: Store): seq<Event> { Join(st.deletes, FilteredTxs(spec, st.commits)) }

  /** The rows `upserts_ranked` ranks: shadow-filtered first, then filtered by entity. */
  function RankedInput(spec: Spec, st: Store, cd: seq<Event>): seq<Event> {
    Filter(Upserts(spec, st), (u: Event) => Unshadowed(cd, u) && PassesFilter(spec, u.row))
  }

  /** Any execution of the query: a choice of `committed_deletes` and of ranks. */
  ghost predicate Execution(spec: Spec, st: Store, cd: seq<Event>, rank: seq<nat>) {
    DistinctOn(Deletes(spec, st), cd) && RowNumber(RankedInput(spec, st, cd), rank)
  }

  /** CTE `latest_upserts`. */
  function LatestUpserts(spec: Spec, st: Store, cd: seq<Event>, rank: seq<nat>): seq<Event>
    requires |rank| == |RankedInput(spec, st, cd)|
  {
    RankOne(RankedInput(spec, st, cd), rank)
  }

  /** CTE `effective_deletes`. */
  function EffectiveDeletes(cd: seq<Event>, latest: seq<Event>): set<Uuid> {
    (set d | d in cd :: d.row) - (set u | u in latest :: u.row)
  }

  /** What a log row becomes at a commit position. */
  function EventAt(l: LogRow, commitSeq: int): Event {
    if l.UpsertRow? then Upsert(l.row, commitSeq, l.writeSeq, 0, l.cols) else Delete(l.row, commitSeq, l.writeSeq, 0)
  }

  /** What the read is asked for, without the joins: the writes of every commit on the branch and in
      the window, and the open transaction's own, placed after every commit. */
  ghost function Selected(spec: Spec, st: Store): set<Event> { Committed(spec, st) + Own(spec, st) }

  ghost function Committed(spec: Spec, st: Store): set<Event> {
    set l, c | l in st.upserts + st.deletes && c in st.commits && c.tx == l.tx
               && (spec.branch.Some? ==> c.branch == spec.branch.value)
               && (spec.since.Some? ==> spec.since.value < c.micros) && (spec.until.Some? ==> c.micros <= spec.until.value)
             :: EventAt(l, c.commitSeq)
  }

  ghost function Own(spec: Spec, st: Store): set<Event> {
    if spec.openTx.Some? then OwnWrites(st, spec.openTx.value) else {}
  }

  /** What a transaction wrote, at the sentinel position. */
  ghost function OwnWrites(st: Store, tx: Uuid): set<Event> {
    set l | l in st.upserts + st.deletes && l.tx == tx :: EventAt(l, OPEN_TX_SEQ_NUM_SENTINEL)
  }

  /** The events the joins produce. */
  ghost function Joined(spec: Spec, st: Store): set<Event> {
    (set e | e in Upserts(spec, st)) + (set e | e in Deletes(spec, st))
  }

  ghost function Restrict(spec: Spec, m: map<Uuid, Payload>): map<Uuid, Payload> {
    map r | r in m && (spec.rowFilter.None? || r in spec.rowFilter.value) :: m[r]
  }

  /** `rows` holds exactly the entries of `m`, each row once. */
  ghost predicate IsTable(rows: seq<Event>, m: map<Uuid, Payload>) {
    && OnePerRow(rows)
    && (forall e :: e in rows ==> e.Upsert? && e.row in m && m[e.row] == e.cols)
    && (forall r :: r in m ==> HasRow(rows, r))
  }

  // ---------------------------------------------------------------- joins

  lemma {:induction false} InJoinOne(l: LogRow, txs: seq<TxPos>, e: Event)
    ensures e in JoinOne(l, txs) <==> exists t :: t in txs && t.tx == l.tx && e == ToEvent(l, t)
  {
    if txs != [] { InJoinOne(l, txs[1..], e); }
  }

  lemma {:induction false} InJoin(log: seq<LogRow>, txs: seq<TxPos>, e: Event)
    ensures e in Join(log, txs) <==> exists l, t :: l in log && t in txs && t.tx == l.tx && e == ToEvent(l, t)
  {
    if log != [] {
      InJoinOne(log[0], txs, e);
      InJoin(log[1..], txs, e);
    }
  }

  lemma {:induction false} InCommittedTxs(spec: Spec, commits: seq<CommitRow>, t: TxPos)
    ensures t in CommittedTxs(spec, commits) <==>
            exists c :: c in commits && TxSelected(spec, c) && t == TxPos(c.tx, c.commitSeq)
  {
    if commits != [] { InCommittedTxs(spec, commits[1..], t); }
  }

  lemma InFiltered(spec: Spec, commits: seq<CommitRow>, t: TxPos)
    ensures t in FilteredTxs(spec, commits) <==>
            ((spec.openTx == Some(t.tx) && t.commitSeq == OPEN_TX_SEQ_NUM_SENTINEL)
             || exists c :: c in commits && TxSelected(spec, c) && t == TxPos(c.tx, c.commitSeq))
  {
    InCommittedTxs(spec, commits, t);
  }

  lemma JoinedSelected(spec: Spec, st: Store, e: Event)
    requires e in Joined(spec, st)
    ensures e in Selected(spec, st)
  {
    var txs := FilteredTxs(spec, st.commits);
    InJoin(st.upserts, txs, e);
    InJoin(st.deletes, txs, e);
    var l, t :| l in st.upserts + st.deletes && t in txs && t.tx == l.tx && e == ToEvent(l, t);
    InFiltered(spec, st.commits, t);
    if spec.openTx == Some(t.tx) && t.commitSeq == OPEN_TX_SEQ_NUM_SENTINEL {
      assert e in Own(spec, st);
    } else {
      var c :| c in st.commits && TxSelected(spec, c) && t == TxPos(c.tx, c.commitSeq);
      assert e == EventAt(l, c.commitSeq) && e in Committed(spec, st);
    }
  }

  lemma JoinedRow(spec: Spec, st: Store, l: LogRow, t: TxPos)
    requires l in st.upserts + st.deletes && t in FilteredTxs(spec, st.commits) && t.tx == l.tx
    ensures EventAt(l, t.commitSeq) in Joined(spec, st)
  {
    InJoin(st.upserts, FilteredTxs(spec, st.commits), ToEvent(l, t));
    InJoin(st.deletes, FilteredTxs(spec, st.commits), ToEvent(l, t));
  }

  lemma SelectedJoined(spec: Spec, st: Store, e: Event)
    requires e in Selected(spec, st)
    ensures e in Joined(spec, st)
  {
    if e in Own(spec, st) {
      var l :| l in st.upserts + st.deletes && l.tx == spec.openTx.value && e == EventAt(l, OPEN_TX_SEQ_NUM_SENTINEL);
      JoinedRow(spec, st, l, TxPos(l.tx, OPEN_TX_SEQ_NUM_SENTINEL));
    } else {
      var l, c :| l in st.upserts + st.deletes && c in st.commits && c.tx == l.tx && TxSelected(spec, c) && e == EventAt(l, c.commitSeq);
      InFiltered(spec, st.commits, TxPos(c.tx, c.commitSeq));
      JoinedRow(spec, st, l, TxPos(c.tx, c.commitSeq));
    }
  }

  /** The joins produce exactly the events asked for. */
  lemma JoinsSelect(spec: Spec, st: Store)
    ensures Joined(spec, st) == Selected(spec, st)
  {
    forall e | e in Joined(spec, st) ensures e in Selected(spec, st) { JoinedSelected(spec, st, e); }
    forall e | e in Selected(spec, st) ensures e in Joined(spec, st) { SelectedJoined(spec, st, e); }
  }

  lemma JoinKinds(spec: Spec, st: Store)
    requires st.Valid()
    ensures forall e :: e in Upserts(spec, st) ==> e.Upsert?
    ensures forall e :: e in Deletes(spec, st) ==> e.Delete?
    ensures Selected(spec, st) == Joined(spec, st)
  {
    JoinsSelect(spec, st);
    forall e | e in Upserts(spec, st) ensures e.Upsert? { InJoin(st.upserts, FilteredTxs(spec, st.commits), e); }
    forall e | e in Deletes(spec, st) ensures e.Delete? { InJoin(st.deletes, FilteredTxs(spec, st.commits), e); }
  }

  // ---------------------------------------------------------------- latest per partition

  lemma {:induction false} InRankOne(rows: seq<Event>, rank: seq<nat>, e: Event)
    requires |rank| == |rows|
    ensures e in RankOne(rows, rank) <==> exists i :: 0 <= i < |rows| && rows[i] == e && rank[i] == 1
  {
    if rows != [] {
      InRankOne(rows[1..], rank[1..], e);
      if e in RankOne(rows[1..], rank[1..]) {
        var i :| 0 <= i < |rows[1..]| && rows[1..][i] == e && rank[1..][i] == 1;
        assert rows[i + 1] == e && rank[i + 1] == 1;
      }
      if exists i :: 0 <= i < |rows| && rows[i] == e && rank[i] == 1 {
        var i :| 0 <= i < |rows| && rows[i] == e && rank[i] == 1;
        if i > 0 { assert rows[1..][i - 1] == e && rank[1..][i - 1] == 1; }
      }
    }
  }

  /** Distinct rows keep their order in a filter, so rank-one rows of distinct partitions stay distinct. */
  lemma {:induction false} RankOneOnePerRow(rows: seq<Event>, rank: seq<nat>)
    requires |rank| == |rows|
    requires forall i, j :: 0 <= i < j < |rows| && rank[i] == 1 && rank[j] == 1 ==> rows[i].row != rows[j].row
    ensures OnePerRow(RankOne(rows, rank))
  {
    if rows != [] {
      RankOneOnePerRow(rows[1..], rank[1..]);
      forall e | e in RankOne(rows[1..], rank[1..]) ensures rank[0] == 1 ==> e.row != rows[0].row {
        InRankOne(rows[1..], rank[1..], e);
        var i :| 0 <= i < |rows[1..]| && rows[1..][i] == e && rank[1..][i] == 1;
        assert rows[i + 1] == e && rank[i + 1] == 1;
      }
    }
  }

  lemma RankOneExists(rows: seq<Event>, rank: seq<nat>, i: nat) returns (k: nat)
    requires RowNumber(rows, rank) && i < |rows|
    ensures k < |rows| && rows[k].row == rows[i].row && rank[k] == 1
    decreases rank[i]
  {
    if Ahead(rows, rank, i) == {} {
      k := i;
    } else {
      var j :| j in Ahead(rows, rank, i);
      k := RankOneExists(rows, rank, j);
    }
  }

  /** The `ROW_NUMBER` form of latest-wins is a `DISTINCT ON` form. */
  lemma RowNumberIsDistinctOn(rows: seq<Event>, rank: seq<nat>)
    requires RowNumber(rows, rank)
    ensures DistinctOn(rows, RankOne(rows, rank))
  {
    var out := RankOne(rows, rank);
    forall e | e in out ensures e in rows && forall f :: f in rows && f.row == e.row ==> !PosLess(e, f) {
      InRankOne(rows, rank, e);
      var i :| 0 <= i < |rows| && rows[i] == e && rank[i] == 1;
      forall f | f in rows && f.row == e.row ensures !PosLess(e, f) {
        var j :| 0 <= j < |rows| && rows[j] == f;
        assert Ahead(rows, rank, i) == {};
        assert j !in Ahead(rows, rank, i);
        assert !SortsBefore(rows, j, i);
      }
    }
    forall f | f in rows ensures HasRow(out, f.row) {
      var i :| 0 <= i < |rows| && rows[i] == f;
      var k := RankOneExists(rows, rank, i);
      InRankOne(rows, rank, rows[k]);
    }
    RankOneOnePerRow(rows, rank);
  }

  /** With one version per position, every execution of either form keeps the same rows. */
  lemma LatestFormsAgree(rows: seq<Event>, rank: seq<nat>, out: seq<Event>)
    requires forall e :: e in rows ==> e.Upsert?
    requires Coherent(set e | e in rows) && RowNumber(rows, rank) && DistinctOn(rows, out)
    ensures forall e :: e in out <==> e in RankOne(rows, rank)
  {
    RowNumberIsDistinctOn(rows, rank);
    forall e ensures e in out ==> e in RankOne(rows, rank) { DistinctOnKeepsSame(rows, out, RankOne(rows, rank), e); }
    forall e ensures e in RankOne(rows, rank) ==> e in out { DistinctOnKeepsSame(rows, RankOne(rows, rank), out, e); }
  }

  lemma DistinctOnKeepsSame(rows: seq<Event>, a: seq<Event>, b: seq<Event>, e: Event)
    requires forall e :: e in rows ==> e.Upsert?
    requires Coherent(set e | e in rows) && DistinctOn(rows, a) && DistinctOn(rows, b)
    ensures e in a ==> e in b
  {
    if e in a {
      assert HasRow(b, e.row);
      var f :| f in b && f.row == e.row;
      assert !PosLess(e, f) && !PosLess(f, e);
    }
  }

  // ---------------------------------------------------------------- the resolver

  /** The best unshadowed upsert of an entity follows everything else logged for it. */
  lemma BestUnshadowedIsLast(ups: seq<Event>, dels: seq<Event>, cd: seq<Event>, u: Event, f: Event)
    requires DistinctOn(dels, cd) && u.Upsert? && Unshadowed(cd, u)
    requires f in ups || (f in dels && f.Delete?)
    requires f in ups && Unshadowed(cd, f) ==> !PosLess(u, f) && f.Upsert?
    requires f.row == u.row
    ensures Leq(f, u)
  {
    if f in dels && f.Delete? {
      var d :| d in cd && d.row == f.row;
    }
  }

  /** A row of `latest_upserts` is the last event of its entity among the selected events. */
  lemma LatestUpsertWins(spec: Spec, st: Store, cd: seq<Event>, rank: seq<nat>, u: Event)
    requires st.Valid() && Execution(spec, st, cd, rank)
    requires u in LatestUpserts(spec, st, cd, rank)
    ensures u.Upsert? && PassesFilter(spec, u.row) && Latest(Selected(spec, st), u)
  {
    JoinKinds(spec, st);
    RowNumberIsDistinctOn(RankedInput(spec, st, cd), rank);
    assert u in RankedInput(spec, st, cd);
    forall f | f in Selected(spec, st) && f.row == u.row ensures Leq(f, u) {
      if f in Upserts(spec, st) && Unshadowed(cd, f) { assert f in RankedInput(spec, st, cd); }
      BestUnshadowedIsLast(Upserts(spec, st), Deletes(spec, st), cd, u, f);
    }
  }

  /** An entity whose last selected event is an upsert is not filtered out by the shadow clause. */
  lemma WinningUpsertIsRanked(spec: Spec, st: Store, cd: seq<Event>, rank: seq<nat>, w: Event)
    requires st.Valid() && Execution(spec, st, cd, rank)
    requires Latest(Selected(spec, st), w) && w.Upsert? && PassesFilter(spec, w.row)
    ensures HasRow(LatestUpserts(spec, st, cd, rank), w.row)
  {
    JoinKinds(spec, st);
    forall d | d in cd && d.row == w.row ensures LexGeq(w, d) { assert d in Selected(spec, st); }
    assert w in RankedInput(spec, st, cd);
    RowNumberIsDistinctOn(RankedInput(spec, st, cd), rank);
  }

  lemma LatestUpsertsIsView(spec: Spec, st: Store, cd: seq<Event>, rank: seq<nat>)
    requires st.Valid() && Execution(spec, st, cd, rank) && Coherent(Selected(spec, st))
    ensures IsTable(LatestUpserts(spec, st, cd, rank), Restrict(spec, View(Selected(spec, st))))
  {
    var s := Selected(spec, st);
    var latest := LatestUpserts(spec, st, cd, rank);
    forall u | u in latest ensures u.Upsert? && u.row in Restrict(spec, View(s)) && View(s)[u.row] == u.cols {
      LatestUpsertWins(spec, st, cd, rank, u);
      WinnerUnique(s, u);
    }
    forall r | r in Restrict(spec, View(s)) ensures HasRow(latest, r) {
      WinningUpsertIsRanked(spec, st, cd, rank, Winner(s, r));
    }
    RowNumberIsDistinctOn(RankedInput(spec, st, cd), rank);
  }

  /** The CTE pipeline yields exactly the sequential replay of the selected events. */
  lemma ResolveIsReplay(spec: Spec, st: Store, cd: seq<Event>, rank: seq<nat>, es: seq<Event>)
    requires st.Valid() && Execution(spec, st, cd, rank)
    requires Coherent(Selected(spec, st)) && History(es, Selected(spec, st))
    ensures IsTable(LatestUpserts(spec, st, cd, rank), Restrict(spec, Replay(es)))
  {
    ReplayIsView(es, Selected(spec, st));
    LatestUpsertsIsView(spec, st, cd, rank);
  }

  lemma TombstonedIsCommittedDelete(spec: Spec, st: Store, cd: seq<Event>, r: Uuid)
    requires st.Valid() && DistinctOn(Deletes(spec, st), cd)
    requires r in Rows(Selected(spec, st)) && Winner(Selected(spec, st), r).Delete?
    ensures HasRow(cd, r)
  {
    JoinKinds(spec, st);
    assert Winner(Selected(spec, st), r) in Deletes(spec, st);
  }

  /** Inside the filter, `effective_deletes` is exactly the tombstoned entities; outside it,
      every entity with any selected tombstone is reported, live or not. */
  lemma EffectiveDeletesMeaning(spec: Spec, st: Store, cd: seq<Event>, rank: seq<nat>, r: Uuid)
    requires st.Valid() && Execution(spec, st, cd, rank) && Coherent(Selected(spec, st))
    ensures PassesFilter(spec, r) ==>
              (r in EffectiveDeletes(cd, LatestUpserts(spec, st, cd, rank))
               <==> r in Rows(Selected(spec, st)) && Winner(Selected(spec, st), r).Delete?)
    ensures !PassesFilter(spec, r) ==>
              (r in EffectiveDeletes(cd, LatestUpserts(spec, st, cd, rank)) <==> HasRow(Deletes(spec, st), r))
  {
    var s := Selected(spec, st);
    var latest := LatestUpserts(spec, st, cd, rank);
    JoinKinds(spec, st);
    LatestUpsertsIsView(spec, st, cd, rank);
    InEffectiveDeletes(cd, latest, r);
    assert HasRow(cd, r) <==> HasRow(Deletes(spec, st), r);
    if PassesFilter(spec, r) {
      assert HasRow(latest, r) <==> r in View(s);
      if r in Rows(s) && Winner(s, r).Delete? { TombstonedIsCommittedDelete(spec, st, cd, r); }
      if HasRow(cd, r) { var d :| d in cd && d.row == r; assert d in s; }
    } else {
      assert !HasRow(latest, r);
    }
  }

  lemma InEffectiveDeletes(cd: seq<Event>, latest: seq<Event>, r: Uuid)
    ensures r in EffectiveDeletes(cd, latest) <==> HasRow(cd, r) && !HasRow(latest, r)
  {
  }

  /** With no row filter the two result CTEs partition the touched entities into live and deleted. */
  lemma ResultsPartitionTouched(spec: Spec, st: Store, cd: seq<Event>, rank: seq<nat>, r: Uuid)
    requires st.Valid() && Execution(spec, st, cd, rank) && Coherent(Selected(spec, st)) && spec.rowFilter.None?
    ensures HasRow(LatestUpserts(spec, st, cd, rank), r) <==> r in View(Selected(spec, st))
    ensures r in EffectiveDeletes(cd, LatestUpserts(spec, st, cd, rank))
            <==> r in Rows(Selected(spec, st)) && !HasRow(LatestUpserts(spec, st, cd, rank), r)
  {
    LatestUpsertsIsView(spec, st, cd, rank);
    EffectiveDeletesMeaning(spec, st, cd, rank, r);
    assert r in View(Selected(spec, st)) ==> r in Restrict(spec, View(Selected(spec, st)));
  }

  ghost predicate IsDeleted(s: set<Event>, r: Uuid) { r in Rows(s) && Winner(s, r).Delete? }

  lemma ReportedIffDeleted(spec: Spec, st: Store, cd: seq<Event>, rank: seq<nat>, r: Uuid)
    requires st.Valid() && Execution(spec, st, cd, rank) && Coherent(Selected(spec, st))
    ensures (r in EffectiveDeletes(cd, LatestUpserts(spec, st, cd, rank)) <==> IsDeleted(Selected(spec, st), r))
       <==> (HasRow(Deletes(spec, st), r) && !PassesFilter(spec, r) ==> r !in View(Selected(spec, st)))
  {
    var s := Selected(spec, st);
    EffectiveDeletesMeaning(spec, st, cd, rank, r);
    JoinKinds(spec, st);
    if IsDeleted(s, r) { assert Winner(s, r) in Deletes(spec, st); }
    if HasRow(Deletes(spec, st), r) {
      var d :| d in Deletes(spec, st) && d.row == r;
      assert d in s;
    }
  }

  /** With an entity filter, `effective_deletes` is the tombstoned entities, no more and no fewer,
      exactly when no entity outside the filter is live after an earlier tombstone. */
  lemma FilteredDeletesExact(spec: Spec, st: Store, cd: seq<Event>, rank: seq<nat>)
    requires st.Valid() && Execution(spec, st, cd, rank) && Coherent(Selected(spec, st))
    ensures (forall r :: r in EffectiveDeletes(cd, LatestUpserts(spec, st, cd, rank)) <==> IsDeleted(Selected(spec, st), r))
       <==> (forall d :: d in Deletes(spec, st) && !PassesFilter(spec, d.row) ==> d.row !in View(Selected(spec, st)))
  {
    forall r
      ensures (r in EffectiveDeletes(cd, LatestUpserts(spec, st, cd, rank)) <==> IsDeleted(Selected(spec, st), r))
         <==> (HasRow(Deletes(spec, st), r) && !PassesFilter(spec, r) ==> r !in View(Selected(spec, st)))
    {
      ReportedIffDeleted(spec, st, cd, rank, r);
    }
    assert forall d :: d in Deletes(spec, st) ==> HasRow(Deletes(spec, st), d.row);
  }

  lemma SameWinner(spec: Spec, st: Store, u: Event, v: Event)
    requires st.Valid() && Coherent(Selected(spec, st)) && u in Upserts(spec, st) && v in Upserts(spec, st)
    requires u.row == v.row && !PosLess(u, v) && !PosLess(v, u)
    ensures u == v
  {
    JoinKinds(spec, st);
    assert u in Selected(spec, st) && v in Selected(spec, st) && SamePos(u, v);
  }

  lemma LatestIsRankedFirst(spec: Spec, st: Store, cd: seq<Event>, rank: seq<nat>, all: seq<Event>, u: Event)
    requires st.Valid() && Execution(spec, st, cd, rank) && Coherent(Selected(spec, st)) && DistinctOn(Upserts(spec, st), all)
    requires u in LatestUpserts(spec, st, cd, rank)
    ensures u in all && Unshadowed(cd, u) && PassesFilter(spec, u.row)
  {
    JoinKinds(spec, st);
    RowNumberIsDistinctOn(RankedInput(spec, st, cd), rank);
    LatestUpsertWins(spec, st, cd, rank, u);
    assert u in RankedInput(spec, st, cd) && HasRow(all, u.row);
    var v :| v in all && v.row == u.row;
    assert v in Selected(spec, st);
    SameWinner(spec, st, u, v);
  }

  lemma UnshadowedFirstIsLatest(spec: Spec, st: Store, cd: seq<Event>, rank: seq<nat>, all: seq<Event>, u: Event)
    requires st.Valid() && Execution(spec, st, cd, rank) && Coherent(Selected(spec, st)) && DistinctOn(Upserts(spec, st), all)
    requires u in all && Unshadowed(cd, u) && PassesFilter(spec, u.row)
    ensures u in LatestUpserts(spec, st, cd, rank)
  {
    RowNumberIsDistinctOn(RankedInput(spec, st, cd), rank);
    assert u in RankedInput(spec, st, cd) && HasRow(LatestUpserts(spec, st, cd, rank), u.row);
    var v :| v in LatestUpserts(spec, st, cd, rank) && v.row == u.row;
    assert v in RankedInput(spec, st, cd);
    SameWinner(spec, st, u, v);
  }

  /** Filtering shadowed upserts before ranking keeps the same rows as ranking first and
      dropping the winners a tombstone shadows (the read path's order). */
  lemma ShadowCommutesWithRank(spec: Spec, st: Store, cd: seq<Event>, rank: seq<nat>, allRank: seq<nat>)
    requires st.Valid() && Execution(spec, st, cd, rank) && Coherent(Selected(spec, st))
    requires RowNumber(Upserts(spec, st), allRank)
    ensures forall u :: u in LatestUpserts(spec, st, cd, rank) <==>
                        u in RankOne(Upserts(spec, st), allRank) && Unshadowed(cd, u) && PassesFilter(spec, u.row)
  {
    var all := RankOne(Upserts(spec, st), allRank);
    RowNumberIsDistinctOn(Upserts(spec, st), allRank);
    forall u | u in LatestUpserts(spec, st, cd, rank) ensures u in all && Unshadowed(cd, u) && PassesFilter(spec, u.row) {
      LatestIsRankedFirst(spec, st, cd, rank, all, u);
    }
    forall u | u in all && Unshadowed(cd, u) && PassesFilter(spec, u.row) ensures u in LatestUpserts(spec, st, cd, rank) {
      UnshadowedFirstIsLatest(spec, st, cd, rank, all, u);
    }
  }

  // ---------------------------------------------------------------- executions exist

  /** A total order within each entity: by position, latest first, then by place in the input. */
  predicate Comes(rows: seq<Event>, j: nat, i: nat)
    requires i < |rows| && j < |rows|
  {
    rows[j].row == rows[i].row && (PosLess(rows[i], rows[j]) || (SamePos(rows[i], rows[j]) && j < i))
  }

  ghost function Earlier(rows: seq<Event>, i: nat): set<nat>
    requires i < |rows|
  {
    set j: nat | j < |rows| && Comes(rows, j, i)
  }

  ghost function Ranks(rows: seq<Event>): seq<nat> {
    seq(|rows|, i requires 0 <= i < |rows| => 1 + |Earlier(rows, i)|)
  }

  lemma Fewer(a: set<nat>, b: set<nat>)
    requires a < b
    ensures |a| < |b|
  {
    assert b == a + (b - a) && a * (b - a) == {};
  }

  lemma RanksFollowOrder(rows: seq<Event>, i: nat, j: nat)
    requires i < |rows| && j < |rows| && rows[i].row == rows[j].row
    ensures Ranks(rows)[j] < Ranks(rows)[i] <==> Comes(rows, j, i)
    ensures i != j ==> Ranks(rows)[i] != Ranks(rows)[j]
  {
    if Comes(rows, j, i) { assert j in Earlier(rows, i) && j !in Earlier(rows, j); Fewer(Earlier(rows, j), Earlier(rows, i)); }
    if Comes(rows, i, j) { assert i in Earlier(rows, j) && i !in Earlier(rows, i); Fewer(Earlier(rows, i), Earlier(rows, j)); }
  }

  lemma AheadIsEarlier(rows: seq<Event>, i: nat)
    requires i < |rows|
    ensures Ahead(rows, Ranks(rows), i) == Earlier(rows, i)
  {
    forall j: nat ensures j in Ahead(rows, Ranks(rows), i) <==> j in Earlier(rows, i) {
      if j < |rows| && rows[j].row == rows[i].row { RanksFollowOrder(rows, i, j); }
    }
  }

  lemma RanksNumberRows(rows: seq<Event>)
    ensures RowNumber(rows, Ranks(rows))
  {
    var rank := Ranks(rows);
    forall i, j | 0 <= i < |rows| && 0 <= j < |rows| && i != j && rows[i].row == rows[j].row ensures rank[i] != rank[j] {
      RanksFollowOrder(rows, i, j);
    }
    forall i, j | 0 <= i < |rows| && 0 <= j < |rows| && SortsBefore(rows, i, j) ensures rank[i] < rank[j] {
      RanksFollowOrder(rows, j, i);
    }
    forall i | 0 <= i < |rows| ensures rank[i] == 1 + |Ahead(rows, rank, i)| { AheadIsEarlier(rows, i); }
  }

  /** Every store has an execution, so the theorems about all of them are not empty. */
  lemma ExecutionExists(spec: Spec, st: Store)
    ensures exists cd, rank :: Execution(spec, st, cd, rank)
  {
    var deletes := Deletes(spec, st);
    RanksNumberRows(deletes);
    RowNumberIsDistinctOn(deletes, Ranks(deletes));
    var cd := RankOne(deletes, Ranks(deletes));
    RanksNumberRows(RankedInput(spec, st, cd));
    assert Execution(spec, st, cd, Ranks(RankedInput(spec, st, cd)));
  }

  /** The entity is reported deleted though it is live. */
  ghost predicate Misleads(spec: Spec, st: Store, cd: seq<Event>, rank: seq<nat>, r: Uuid) {
    && st.Valid() && Execution(spec, st, cd, rank) && Coherent(Selected(spec, st))
    && r in EffectiveDeletes(cd, LatestUpserts(spec, st, cd, rank)) && r in View(Selected(spec, st))
  }

  /** Every entity tombstoned, left out by the filter and live misleads, in every execution. */
  lemma LiveOutsideFilterMisleads(spec: Spec, st: Store, cd: seq<Event>, rank: seq<nat>, d: Event)
    requires st.Valid() && Execution(spec, st, cd, rank) && Coherent(Selected(spec, st))
    requires d in Deletes(spec, st) && !PassesFilter(spec, d.row) && d.row in View(Selected(spec, st))
    ensures Misleads(spec, st, cd, rank, d.row)
  {
    EffectiveDeletesMeaning(spec, st, cd, rank, d.row);
  }

  /** One such store: a row deleted and written again later, and a filter that leaves it out. */
  lemma FilteredDeletesCanMislead(spec: Spec, st: Store, cd: seq<Event>, rank: seq<nat>)
    requires spec == Spec(Some({}), None, None, None, None)
    requires st == Store([UpsertRow("a", "t2", 1, [])], [DeleteRow("a", "t1", 1)], [CommitRow("t1", "b", 1, 1), CommitRow("t2", "b", 2, 2)])
    requires Execution(spec, st, cd, rank)
    ensures Misleads(spec, st, cd, rank, "a")
  {
    ExampleJoins(spec, st);
    ExampleMisleads(spec, st, cd, rank);
  }

  lemma ExampleMisleads(spec: Spec, st: Store, cd: seq<Event>, rank: seq<nat>)
    requires st.Valid() && Execution(spec, st, cd, rank) && !PassesFilter(spec, "a")
    requires Upserts(spec, st) == [Upsert("a", 2, 1, 0, [])] && Deletes(spec, st) == [Delete("a", 1, 1, 0)]
    ensures Misleads(spec, st, cd, rank, "a")
  {
    ExampleLive(spec, st);
    LiveOutsideFilterMisleads(spec, st, cd, rank, Delete("a", 1, 1, 0));
  }

  lemma ExampleLive(spec: Spec, st: Store)
    requires Upserts(spec, st) == [Upsert("a", 2, 1, 0, [])] && Deletes(spec, st) == [Delete("a", 1, 1, 0)]
    ensures Coherent(Selected(spec, st)) && "a" in View(Selected(spec, st))
  {
    var up, del := Upsert("a", 2, 1, 0, []), Delete("a", 1, 1, 0);
    JoinsSelect(spec, st);
    assert Selected(spec, st) == {up, del};
    assert Latest({up, del}, up);
    assert "a" in Rows({up, del}) by { assert up in {up, del}; }
  }

  lemma ExampleJoins(spec: Spec, st: Store)
    requires spec == Spec(Some({}), None, None, None, None)
    requires st == Store([UpsertRow("a", "t2", 1, [])], [DeleteRow("a", "t1", 1)], [CommitRow("t1", "b", 1, 1), CommitRow("t2", "b", 2, 2)])
    ensures Upserts(spec, st) == [Upsert("a", 2, 1, 0, [])] && Deletes(spec, st) == [Delete("a", 1, 1, 0)]
  {
    var txs := FilteredTxs(spec, st.commits);
    assert st.commits[1..][1..] == [];
    assert CommittedTxs(spec, st.commits[1..]) == [TxPos("t2", 2)];
    assert txs == [TxPos("t1", 1), TxPos("t2", 2)];
    assert txs[1..] == [TxPos("t2", 2)] && txs[1..][1..] == [];
    assert JoinOne(st.upserts[0], txs[1..]) == [Upsert("a", 2, 1, 0, [])];
    assert JoinOne(st.deletes[0], txs[1..]) == [];
  }

  // ---------------------------------------------------------------- the open transaction

  lemma CommittedBelowSentinel(spec: Spec, st: Store, e: Event)
    requires forall c :: c in st.commits ==> c.commitSeq < OPEN_TX_SEQ_NUM_SENTINEL
    requires e in Committed(spec, st)
    ensures e.commitSeq < OPEN_TX_SEQ_NUM_SENTINEL
  {
  }

  lemma OwnWritesFollow(spec: Spec, st: Store, tx: Uuid)
    requires forall c :: c in st.commits ==> c.commitSeq < OPEN_TX_SEQ_NUM_SENTINEL
    ensures forall l, h :: l in Committed(spec, st) && h in OwnWrites(st, tx) ==> PosLess(l, h)
  {
    forall l | l in Committed(spec, st) ensures l.commitSeq < OPEN_TX_SEQ_NUM_SENTINEL { CommittedBelowSentinel(spec, st, l); }
    forall h | h in OwnWrites(st, tx) ensures h.commitSeq == OPEN_TX_SEQ_NUM_SENTINEL { }
  }

  /** Read-your-own-writes: resolving with an open transaction is replaying the selected
      committed events and then that transaction's own writes, in write order. */
  lemma OpenTxIsReplayThenOwnWrites(
    spec: Spec, st: Store, tx: Uuid, cd: seq<Event>, rank: seq<nat>, committed: seq<Event>, own: seq<Event>)
    requires st.Valid() && spec.openTx == Some(tx) && Execution(spec, st, cd, rank)
    requires forall c :: c in st.commits ==> c.commitSeq < OPEN_TX_SEQ_NUM_SENTINEL
    requires Coherent(Selected(spec, st))
    requires History(committed, Committed(spec, st)) && History(own, OwnWrites(st, tx))
    ensures IsTable(LatestUpserts(spec, st, cd, rank), Restrict(spec, Replay(committed + own)))
  {
    OwnWritesFollow(spec, st, tx);
    HistoriesChain(committed, own, Committed(spec, st), OwnWrites(st, tx));
    ResolveIsReplay(spec, st, cd, rank, committed + own);
  }

  /** The row version is this log row's, written by the reader's own open transaction or committed on
      the asked branch and within the asked window, at the position it carries. */
  ghost predicate WrittenVisibly(spec: Spec, st: Store, l: LogRow, u: Event) {
    && l.UpsertRow? && u == Upsert(l.row, u.commitSeq, l.writeSeq, 0, l.cols)
    && (|| (spec.openTx == Some(l.tx) && u.commitSeq == OPEN_TX_SEQ_NUM_SENTINEL)
        || exists c :: c in st.commits && c.tx == l.tx && c.commitSeq == u.commitSeq
                       && (spec.branch.Some? ==> c.branch == spec.branch.value)
                       && (spec.since.Some? ==> spec.since.value < c.micros) && (spec.until.Some? ==> c.micros <= spec.until.value))
  }

  lemma VisibleAt(spec: Spec, st: Store, l: LogRow, c: CommitRow)
    requires st.Valid() && l in st.upserts + st.deletes && c in st.commits && c.tx == l.tx && TxSelected(spec, c)
    requires EventAt(l, c.commitSeq).Upsert?
    ensures l in st.upserts && WrittenVisibly(spec, st, l, EventAt(l, c.commitSeq))
  {
  }

  lemma SelectedUpsertIsVisible(spec: Spec, st: Store, u: Event)
    requires st.Valid() && u in Selected(spec, st) && u.Upsert?
    ensures exists l :: l in st.upserts && WrittenVisibly(spec, st, l, u)
  {
    if u in Own(spec, st) {
      var l :| l in st.upserts + st.deletes && l.tx == spec.openTx.value && u == EventAt(l, OPEN_TX_SEQ_NUM_SENTINEL);
      assert l in st.upserts && WrittenVisibly(spec, st, l, u);
    } else {
      var l, c :| l in st.upserts + st.deletes && c in st.commits && c.tx == l.tx && TxSelected(spec, c) && u == EventAt(l, c.commitSeq);
      VisibleAt(spec, st, l, c);
    }
  }

  /** Every served row version was written by a selected committed transaction or by the
      reader's own open one; nothing of any other uncommitted transaction appears. */
  lemma ServedRowsAreVisible(spec: Spec, st: Store, cd: seq<Event>, rank: seq<nat>, u: Event)
    requires st.Valid() && Execution(spec, st, cd, rank)
    requires u in LatestUpserts(spec, st, cd, rank)
    ensures exists l :: l in st.upserts && WrittenVisibly(spec, st, l, u)
  {
    LatestUpsertWins(spec, st, cd, rank, u);
    SelectedUpsertIsVisible(spec, st, u);
  }
}
