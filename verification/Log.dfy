/** The committed history of one table and its meaning.

    A table is an append-only log of upserts and tombstones, each carrying the commit-order
    position of its transaction and its own ordinal inside that transaction.  `Replay` is the
    reference semantics every read path is measured against: apply the events one by one, in
    commit order, an upsert after a tombstone at the same position.
  */
module Log {

  type Uuid = string

  /** The user columns of one row version. */
  type Payload = seq<string>

  datatype Event =
    | Upsert(row: Uuid, commitSeq: int, writeSeq: int, micros: int, cols: Payload)
    | Delete(row: Uuid, commitSeq: int, writeSeq: int, micros: int)

  /** Strictly earlier position `(commit_seq_num, write_seq_num)`. */
  predicate PosLess(a: Event, b: Event) {
    a.commitSeq < b.commitSeq || (a.commitSeq == b.commitSeq && a.writeSeq < b.writeSeq)
  }

  predicate SamePos(a: Event, b: Event) {
    a.commitSeq == b.commitSeq && a.writeSeq == b.writeSeq
  }

  /** Replay order: by position, a tombstone before an upsert at the same position. */
  predicate Leq(a: Event, b: Event) {
    PosLess(a, b) || (SamePos(a, b) && (a.Delete? || b.Upsert?))
  }

  function Apply(state: map<Uuid, Payload>, e: Event): map<Uuid, Payload> {
    match e
    case Upsert(r, _, _, _, c) => state[r := c]
    case Delete(r, _, _, _) => state - {r}
  }

  /** The reference semantics: the table after applying `es` from left to right. */
  function Replay(es: seq<Event>): map<Uuid, Payload> {
    if es == [] then map[] else Apply(Replay(es[..|es| - 1]), es[|es| - 1])
  }

  ghost predicate InOrder(es: seq<Event>) {
    forall i, j :: 0 <= i < j < |es| ==> Leq(es[i], es[j])
  }

  /** `es` lists exactly the events of `s`, in commit order. */
  ghost predicate History(es: seq<Event>, s: set<Event>) {
    InOrder(es) && forall e :: e in es <==> e in s
  }

  /** A position names one version: a row has at most one upsert and one tombstone there. */
  ghost predicate Coherent(s: set<Event>) {
    forall a, b :: a in s && b in s && a.row == b.row && SamePos(a, b) && a.Upsert? == b.Upsert? ==> a == b
  }

  /** `e` is the last event of its row. */
  ghost predicate Latest(s: set<Event>, e: Event) {
    e in s && forall f :: f in s && f.row == e.row ==> Leq(f, e)
  }

  function Rows(s: set<Event>): set<Uuid> {
    set e | e in s :: e.row
  }

  /** The live rows of `s`: those whose last event is an upsert, with that upsert's columns. */
  ghost function View(s: set<Event>): map<Uuid, Payload> {
    map r | r in Rows(s) && Winner(s, r).Upsert? :: Winner(s, r).cols
  }

  ghost function Winner(s: set<Event>, r: Uuid): (e: Event)
    requires r in Rows(s)
    ensures Latest(s, e) && e.row == r
  {
    LatestExists(s, r);
    var e :| Latest(s, e) && e.row == r;
    e
  }

  lemma LatestExists(s: set<Event>, r: Uuid)
    requires r in Rows(s)
    ensures exists e :: Latest(s, e) && e.row == r
  {
    var own := set e | e in s && e.row == r;
    var e0 :| e0 in s && e0.row == r;
    assert e0 in own;
    var m := MaxOf(own);
    assert Latest(s, m);
  }

  lemma MaxOf(s: set<Event>) returns (m: Event)
    requires s != {}
    ensures m in s && forall f :: f in s ==> Leq(f, m)
  {
    var x :| x in s;
    if s == {x} {
      m := x;
    } else {
      var rest := s - {x};
      assert s == rest + {x};
      var m0 := MaxOf(rest);
      m := if Leq(m0, x) then x else m0;
      forall f | f in s ensures Leq(f, m) {
        if f != x { assert f in rest; }
      }
    }
  }

  lemma WinnerUnique(s: set<Event>, e: Event)
    requires Coherent(s) && Latest(s, e)
    ensures e.row in Rows(s) && Winner(s, e.row) == e
  {
  }

  lemma ReplayRow(es: seq<Event>, s: set<Event>, r: Uuid)
    requires History(es, s) && Coherent(s) && r in Rows(s)
    ensures r in Replay(es) <==> Winner(s, r).Upsert?
    ensures Winner(s, r).Upsert? ==> Replay(es)[r] == Winner(s, r).cols
  {
    var e := Winner(s, r);
    var i :| 0 <= i < |es| && es[i] == e;
    var k := LastIndex(es, r, i);
    assert Leq(es[i], es[k]) && Leq(es[k], e);
    ReplayAt(es, r, k);
  }

  /** Commit-order replay computes exactly the live rows. */
  lemma {:induction false} ReplayIsView(es: seq<Event>, s: set<Event>)
    requires History(es, s) && Coherent(s)
    ensures Replay(es) == View(s)
  {
    forall r ensures (r in Replay(es) <==> r in View(s)) && (r in View(s) ==> Replay(es)[r] == View(s)[r]) {
      if r in Rows(s) { ReplayRow(es, s, r); } else { ReplayUntouched(es, r); }
    }
  }

  lemma {:induction false} LastIndex(es: seq<Event>, r: Uuid, i: nat) returns (k: nat)
    requires i < |es| && es[i].row == r
    ensures i <= k < |es| && es[k].row == r && forall j :: k < j < |es| ==> es[j].row != r
  {
    k := |es| - 1;
    while es[k].row != r
      invariant i <= k < |es|
      invariant forall j :: k < j < |es| ==> es[j].row != r
      decreases k
    {
      k := k - 1;
    }
  }

  lemma {:induction false} ReplayUntouched(es: seq<Event>, r: Uuid)
    requires forall e :: e in es ==> e.row != r
    ensures r !in Replay(es)
  {
    if es != [] { ReplayUntouched(es[..|es| - 1], r); }
  }

  lemma {:induction false} ReplayAt(es: seq<Event>, r: Uuid, k: nat)
    requires k < |es| && es[k].row == r && forall j :: k < j < |es| ==> es[j].row != r
    ensures r in Replay(es) <==> es[k].Upsert?
    ensures es[k].Upsert? ==> Replay(es)[r] == es[k].cols
  {
    if k < |es| - 1 { ReplayAt(es[..|es| - 1], r, k); }
  }

  /** Listings of two histories, one wholly after the other, chain. */
  lemma HistoriesChain(older: seq<Event>, newer: seq<Event>, lo: set<Event>, hi: set<Event>)
    requires History(older, lo) && History(newer, hi)
    requires forall l, h :: l in lo && h in hi ==> PosLess(l, h)
    ensures History(older + newer, lo + hi)
  {
    var es := older + newer;
    forall i, j | 0 <= i < j < |es| ensures Leq(es[i], es[j]) {
      if i < |older| <= j { assert older[i] in older && newer[j - |older|] in newer; }
    }
  }

  /** Newer events shadow older ones row by row. */
  ghost function Overlay(older: map<Uuid, Payload>, newer: map<Uuid, Payload>, touched: set<Uuid>): map<Uuid, Payload> {
    (older - touched) + newer
  }

  /** Splitting a history anywhere in commit order and shadowing by row loses nothing. */
  lemma ViewSplit(s: set<Event>, lo: set<Event>, hi: set<Event>)
    requires Coherent(s) && s == lo + hi
    requires forall l, h :: l in lo && h in hi && l.row == h.row ==> PosLess(l, h)
    ensures View(s) == Overlay(View(lo), View(hi), Rows(hi))
  {
    forall r
      ensures r in View(s) <==> r in Overlay(View(lo), View(hi), Rows(hi))
      ensures r in View(s) ==> View(s)[r] == Overlay(View(lo), View(hi), Rows(hi))[r]
    {
      if r in Rows(s) { WinnerSplit(s, lo, hi, r); }
    }
  }

  lemma WinnerSplit(s: set<Event>, lo: set<Event>, hi: set<Event>, r: Uuid)
    requires Coherent(s) && s == lo + hi && r in Rows(s)
    requires forall l, h :: l in lo && h in hi && l.row == h.row ==> PosLess(l, h)
    ensures r in Rows(hi) ==> Winner(s, r) == Winner(hi, r)
    ensures r !in Rows(hi) ==> r in Rows(lo) && Winner(s, r) == Winner(lo, r)
  {
    if r in Rows(hi) {
      var e := Winner(hi, r);
      assert Latest(s, e);
      WinnerUnique(s, e);
    } else {
      var e := Winner(s, r);
      assert e in lo;
      assert Latest(lo, e);
      WinnerUnique(lo, e);
    }
  }

  /** Every finite set of events has a commit-order listing. */
  lemma HistoryExists(s: set<Event>) returns (es: seq<Event>)
    ensures History(es, s)
  {
    if s == {} {
      es := [];
    } else {
      var m := MaxOf(s);
      var rest := HistoryExists(s - {m});
      es := rest + [m];
      forall e ensures e in es <==> e in s { assert e in es <==> e in rest || e == m; }
    }
  }
}
