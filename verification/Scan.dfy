/** The pushed-down scan: what the client packs into a read request, what the server makes of the
    packed keys, and why re-applying the predicate to the answer gives exactly the filtered table.
  */
module Scan {
  import opened Base
  import opened Literals
  import opened SeekRewrite

  // ---------------------------------------------------------------- server side: key batches

  function Names(fields: Schema): seq<string> {
    seq(|fields|, i requires 0 <= i < |fields| => fields[i].0)
  }

  predicate NoNulls(column: seq<Scalar>) {
    forall v :: v in column ==> !v.NullV?
  }

  /** Exactly the declared key columns, in declared order, with the declared types and no nulls. */
  predicate ValidKeyBatch(b: Batch, schema: Schema, pks: seq<string>) {
    && Names(b.fields) == pks && |b.columns| == |pks|
    && (forall i :: 0 <= i < |pks| ==> FieldType(schema, pks[i]) == Some(b.fields[i].1))
    && (forall c :: c in b.columns ==> NoNulls(c))
  }

  /** The batch has exactly the key columns, in order, each of its declared type and without nulls. */
  ghost predicate IsKeyBatch(b: Batch, schema: Schema, pks: seq<string>) {
    && |b.fields| == |b.columns| == |pks|
    && forall i :: 0 <= i < |pks| ==>
         b.fields[i].0 == pks[i] && DeclaredAs(schema, pks[i], b.fields[i].1) && forall r :: 0 <= r < |b.columns[i]| ==> !b.columns[i][r].NullV?
  }

  lemma ValidIsKeyBatch(b: Batch, schema: Schema, pks: seq<string>)
    ensures ValidKeyBatch(b, schema, pks) <==> IsKeyBatch(b, schema, pks)
  {
    forall i | 0 <= i < |pks| && i < |b.fields| ensures FieldType(schema, pks[i]) == Some(b.fields[i].1) <==> DeclaredAs(schema, pks[i], b.fields[i].1) {
      FieldTypeDeclared(schema, pks[i], b.fields[i].1);
    }
    if IsKeyBatch(b, schema, pks) {
      assert Names(b.fields) == pks;
    }
    if ValidKeyBatch(b, schema, pks) {
      forall i | 0 <= i < |pks| ensures b.fields[i].0 == pks[i] && NoNulls(b.columns[i]) {
        assert Names(b.fields)[i] == b.fields[i].0 && b.columns[i] in b.columns;
      }
    }
  }

  predicate Rectangular(b: Batch) {
    forall c :: c in b.columns ==> |c| == b.Rows()
  }

  function Displays(t: seq<Scalar>): seq<string> {
    seq(|t|, i requires 0 <= i < |t| => Show(t[i]))
  }

  /** One identity per batch row; `id` hashes the displayed key values of this table. */
  function RowUuids(b: Batch, id: seq<string> -> string): seq<string>
    requires Rectangular(b)
  {
    seq(b.Rows(), i requires 0 <= i < b.Rows() => id(Displays(Tuple(b, i))))
  }

  /** The identities of a whole payload, batch after batch. */
  function AllUuids(payload: seq<Batch>, id: seq<string> -> string): seq<string>
    requires forall b :: b in payload ==> Rectangular(b)
  {
    if payload == [] then []
    else AllUuids(payload[..|payload| - 1], id) + RowUuids(payload[|payload| - 1], id)
  }

  function TotalRows(payload: seq<Batch>): nat {
    if payload == [] then 0 else TotalRows(payload[..|payload| - 1]) + payload[|payload| - 1].Rows()
  }

  /** `s` displays row `i` column by column. */
  ghost predicate ShowsRow(b: Batch, i: nat, s: seq<string>) {
    |s| == |b.columns| && forall j :: 0 <= j < |b.columns| ==> i < |b.columns[j]| && s[j] == Show(b.columns[j][i])
  }

  ghost predicate IsIdentity(x: string, b: Batch, i: nat, id: seq<string> -> string) {
    exists s :: ShowsRow(b, i, s) && x == id(s)
  }

  /** One identity per payload row, in order, each the hash of that row's own displayed columns. */
  ghost predicate Identifies(ids: seq<string>, payload: seq<Batch>, id: seq<string> -> string) {
    && |ids| == TotalRows(payload)
    && forall k :: 0 <= k < |payload| ==> IdentifiesAt(ids, TotalRows(payload[..k]), payload[k], id)
  }

  ghost predicate IdentifiesAt(ids: seq<string>, from: nat, b: Batch, id: seq<string> -> string) {
    from + b.Rows() <= |ids| && IdentifiesBatch(ids[from..from + b.Rows()], b, id)
  }

  ghost predicate IdentifiesBatch(ids: seq<string>, b: Batch, id: seq<string> -> string) {
    |ids| == b.Rows() && forall i :: 0 <= i < |ids| ==> IsIdentity(ids[i], b, i, id)
  }

  lemma RowUuidsIdentify(b: Batch, id: seq<string> -> string)
    requires Rectangular(b)
    ensures IdentifiesBatch(RowUuids(b, id), b, id)
  {
    forall i | 0 <= i < b.Rows() ensures IsIdentity(RowUuids(b, id)[i], b, i, id) {
      forall j | 0 <= j < |b.columns| ensures i < |b.columns[j]| { assert b.columns[j] in b.columns; }
      assert ShowsRow(b, i, Displays(Tuple(b, i)));
    }
  }

  lemma IdentifiesMore(front: seq<string>, last: seq<string>, from: nat, b: Batch, id: seq<string> -> string)
    ensures IdentifiesAt(front, from, b, id) ==> IdentifiesAt(front + last, from, b, id)
    ensures IdentifiesBatch(last, b, id) ==> IdentifiesAt(front + last, |front|, b, id)
  {
    if IdentifiesAt(front, from, b, id) { assert (front + last)[from..from + b.Rows()] == front[from..from + b.Rows()]; }
    if IdentifiesBatch(last, b, id) { assert (front + last)[|front|..|front| + b.Rows()] == last; }
  }

  lemma IdentifiesSnoc(front: seq<string>, last: seq<string>, payload: seq<Batch>, b: Batch, id: seq<string> -> string)
    requires Identifies(front, payload, id) && IdentifiesBatch(last, b, id)
    ensures Identifies(front + last, payload + [b], id)
  {
    var more := payload + [b];
    assert more[..|payload|] == payload;
    forall k | 0 <= k < |more| ensures IdentifiesAt(front + last, TotalRows(more[..k]), more[k], id) {
      IdentifiesMore(front, last, TotalRows(more[..k]), more[k], id);
      if k < |payload| { assert more[..k] == payload[..k] && IdentifiesAt(front, TotalRows(payload[..k]), payload[k], id); }
    }
  }

  lemma {:induction false} AllUuidsIdentify(payload: seq<Batch>, id: seq<string> -> string)
    requires forall b :: b in payload ==> Rectangular(b)
    ensures Identifies(AllUuids(payload, id), payload, id)
  {
    if payload != [] {
      var n := |payload| - 1;
      AllUuidsIdentify(payload[..n], id);
      RowUuidsIdentify(payload[n], id);
      IdentifiesSnoc(AllUuids(payload[..n], id), RowUuids(payload[n], id), payload[..n], payload[n], id);
      assert payload == payload[..n] + [payload[n]];
    }
  }

  /** Key tuples of the same types, without nulls or floats, display alike only if they are equal, so
      the hash is taken of lists that tell the keys apart. */
  lemma DisplaysTellApart(t: seq<Scalar>, u: seq<Scalar>)
    requires |t| == |u| && forall i :: 0 <= i < |t| ==> TypeOf(t[i]) == TypeOf(u[i]) && (IsNumber(t[i]) || t[i].StrV?) && !u[i].NullV?
    ensures Displays(t) == Displays(u) <==> t == u
  {
    if Displays(t) == Displays(u) {
      forall i | 0 <= i < |t| ensures t[i] == u[i] {
        assert Displays(t)[i] == Displays(u)[i];
        if IsNumber(t[i]) { ShowInjective(t[i], u[i]); }
      }
    }
  }

  /** Every batch with rows is valid. */
  predicate Valid(payload: seq<Batch>, schema: Schema, pks: seq<string>) {
    forall b :: b in payload && b.Rows() > 0 ==> ValidKeyBatch(b, schema, pks)
  }

  ghost predicate AreKeys(payload: seq<Batch>, schema: Schema, pks: seq<string>) {
    forall b :: b in payload && b.Rows() > 0 ==> IsKeyBatch(b, schema, pks)
  }

  /** What the validation accepts: batches of exactly the key columns, typed as declared and without nulls. */
  lemma ValidIsKeys(payload: seq<Batch>, schema: Schema, pks: seq<string>)
    ensures Valid(payload, schema, pks) <==> AreKeys(payload, schema, pks)
  {
    forall b ensures ValidKeyBatch(b, schema, pks) <==> IsKeyBatch(b, schema, pks) { ValidIsKeyBatch(b, schema, pks); }
  }

  predicate NoRows(payload: seq<Batch>) { forall b :: b in payload ==> b.Rows() == 0 }

  lemma NoRowsSplit(front: seq<Batch>, b: Batch)
    ensures NoRows(front + [b]) <==> NoRows(front) && b.Rows() == 0
  {
    if NoRows(front + [b]) {
      assert b in front + [b];
      forall c | c in front ensures c.Rows() == 0 { assert c in front + [b]; }
    }
  }

  lemma {:induction false} AllUuidsEmpty(payload: seq<Batch>, id: seq<string> -> string)
    requires forall b :: b in payload ==> Rectangular(b)
    ensures AllUuids(payload, id) == [] <==> NoRows(payload)
  {
    if payload != [] {
      var n := |payload| - 1;
      AllUuidsEmpty(payload[..n], id);
      assert payload == payload[..n] + [payload[n]];
      NoRowsSplit(payload[..n], payload[n]);
    }
  }

  /** `row_uuids_from_pk_ipc`: validate each non-empty batch, flatten, and reject a payload that
      nets no rows. */
  method RowUuidsFromPk(payload: seq<Batch>, schema: Schema, pks: seq<string>, id: seq<string> -> string)
    returns (r: Result<seq<string>>)
    requires forall b :: b in payload ==> Rectangular(b)
    ensures r.Ok? <==> Valid(payload, schema, pks) && exists b :: b in payload && b.Rows() > 0
    ensures r.Ok? ==> r.value == AllUuids(payload, id) && Identifies(r.value, payload, id)
  {
    var out: seq<string> := [];
    for i := 0 to |payload|
      invariant Valid(payload[..i], schema, pks)
      invariant out == AllUuids(payload[..i], id)
    {
      assert payload[..i + 1][..i] == payload[..i] && payload[..i + 1][i] == payload[i];
      if payload[i].Rows() == 0 { continue; }
      if !ValidKeyBatch(payload[i], schema, pks) { return Err("invalid key batch"); }
      out := out + RowUuids(payload[i], id);
    }
    assert payload[..|payload|] == payload;
    AllUuidsEmpty(payload, id);
    AllUuidsIdentify(payload, id);
    if out == [] { return Err("no rows"); }
    return Ok(out);
  }

  /** The server accepts the batch as a key payload and derives this row's identity from it. */
  ghost predicate NamedBy(b: Batch, id: seq<string> -> string, schema: Schema, pks: seq<string>, row: Row) {
    && Rectangular(b) && b.Rows() > 0 && Valid([b], schema, pks)
    && exists s :: ShowsKey(row, pks, s) && id(s) in AllUuids([b], id)
  }

  /** `s` displays the row's own key columns, one by one. */
  ghost predicate ShowsKey(row: Row, pks: seq<string>, s: seq<string>) {
    |s| == |pks| && forall j :: 0 <= j < |pks| ==> pks[j] in row && s[j] == Show(row[pks[j]])
  }

  lemma SeekBatchShape(filters: seq<Expr>, schema: Schema, keys: seq<string>)
    requires SeekBatch(filters, schema, keys).Some?
    ensures var b := SeekBatch(filters, schema, keys).value;
            Rectangular(b) && b.Rows() > 0 && ValidKeyBatch(b, schema, keys)
  {
    var conjuncts, multi := Conjuncts(filters), |keys| == 1;
    var b := SeekBatch(filters, schema, keys).value;
    forall i | 0 <= i < |keys|
      ensures |b.columns[i]| > 0 && NoNulls(b.columns[i]) && (!multi ==> |b.columns[i]| == 1)
    {
      SeekColumnShape(conjuncts, schema, keys[i], multi);
    }
    assert Names(b.fields) == keys;
  }

  lemma SeekColumnShape(conjuncts: seq<Expr>, schema: Schema, key: string, multi: bool)
    requires SeekColumn(conjuncts, schema, key, multi).Some?
    ensures var c := SeekColumn(conjuncts, schema, key, multi).value.1;
            |c| > 0 && NoNulls(c) && (!multi ==> |c| == 1)
  {
    PkLiteralsNonEmpty(conjuncts, key, multi);
    if !multi { SingleLiteral(conjuncts, key); }
  }

  lemma {:induction false} PkLiteralsNonEmpty(conjuncts: seq<Expr>, pk: string, multi: bool)
    requires PkLiterals(conjuncts, pk, multi).Some?
    ensures PkLiterals(conjuncts, pk, multi).value != []
  {
    if PinOf(conjuncts[0], pk, multi).Skip? { PkLiteralsNonEmpty(conjuncts[1..], pk, multi); }
  }

  /** The server never rejects a key batch the client built, and derives from it the identity of
      every row the client's filters accept. */
  lemma ClientKeysAccepted(en: Engine, filters: seq<Expr>, schema: Schema, pks: seq<string>, id: seq<string> -> string, row: Row)
    requires SeekBatch(filters, schema, pks).Some?
    requires RowOf(schema, row) && HoldAll(en, filters, row) && TextSafe(en, filters, schema, pks)
    ensures NamedBy(SeekBatch(filters, schema, pks).value, id, schema, pks, row)
  {
    var b := SeekBatch(filters, schema, pks).value;
    SeekBatchShape(filters, schema, pks);
    SeekNeverUnderReturns(en, filters, schema, pks, row);
    var i: nat :| (forall c :: c in b.columns ==> i < |c|) && Tuple(b, i) == KeyOf(row, pks);
    assert b.columns[0] in b.columns;
    KeyShown(b, id, pks, row, i);
  }

  lemma KeyShown(b: Batch, id: seq<string> -> string, pks: seq<string>, row: Row, i: nat)
    requires Rectangular(b) && i < b.Rows() && (forall k :: k in pks ==> k in row)
    requires (forall c :: c in b.columns ==> i < |c|) && Tuple(b, i) == KeyOf(row, pks)
    ensures exists s :: ShowsKey(row, pks, s) && id(s) in AllUuids([b], id)
  {
    assert RowUuids(b, id)[i] == id(Displays(KeyOf(row, pks)));
    assert ShowsKey(row, pks, Displays(KeyOf(row, pks)));
    assert AllUuids([b], id) == AllUuids([], id) + RowUuids(b, id) by { assert [b][..0] == []; }
  }

  // ---------------------------------------------------------------- client side: the request

  /** The portable fragment pushed to both engines. */
  predicate IsTranslatable(e: Expr) {
    match e
    case Column(_) => true
    case Literal(_) => true
    case Binary(l, op, r) => !op.Foreign? && IsTranslatable(l) && IsTranslatable(r)
    case InList(x, list, _) => IsTranslatable(x) && forall i :: 0 <= i < |list| ==> IsTranslatable(list[i])
    case Unary(_, x) => IsTranslatable(x)
    case Like(x, p) => IsTranslatable(x) && IsTranslatable(p)
    case Between(x, lo, hi) => IsTranslatable(x) && IsTranslatable(lo) && IsTranslatable(hi)
    case Opaque(_) => false
  }

  /** The expression and everything inside it. */
  ghost function Parts(e: Expr): set<Expr>
    decreases e, 1, 0
  {
    {e} +
    match e
    case Binary(l, _, r) => Parts(l) + Parts(r)
    case InList(x, list, _) => Parts(x) + PartsOfAll(e, list)
    case Unary(_, x) => Parts(x)
    case Like(x, p) => Parts(x) + Parts(p)
    case Between(x, lo, hi) => Parts(x) + Parts(lo) + Parts(hi)
    case _ => {}
  }

  ghost function PartsOfAll(parent: Expr, items: seq<Expr>): set<Expr>
    requires forall i :: 0 <= i < |items| ==> items[i] < parent
    decreases parent, 0, |items|
  {
    if items == [] then {} else Parts(items[0]) + PartsOfAll(parent, items[1..])
  }

  ghost predicate IsForeign(e: Expr) { e.Opaque? || (e.Binary? && e.op.Foreign?) }

  ghost predicate NoneForeign(parts: set<Expr>) { forall p :: p in parts ==> !IsForeign(p) }

  lemma NoneForeignUnion(a: set<Expr>, b: set<Expr>)
    ensures NoneForeign(a + b) <==> NoneForeign(a) && NoneForeign(b)
  {
  }

  lemma {:induction false} AllTranslatable(parent: Expr, items: seq<Expr>)
    requires forall i :: 0 <= i < |items| ==> items[i] < parent
    ensures NoneForeign(PartsOfAll(parent, items)) <==> forall i :: 0 <= i < |items| ==> IsTranslatable(items[i])
    decreases parent, 0, |items|
  {
    if items != [] {
      TranslatableExact(items[0]);
      AllTranslatable(parent, items[1..]);
      NoneForeignUnion(Parts(items[0]), PartsOfAll(parent, items[1..]));
      assert forall i :: 1 <= i < |items| ==> items[i] == items[1..][i - 1];
    }
  }

  /** An expression is sent exactly when nothing in it is opaque or uses an operator of one engine only. */
  lemma {:induction false} TranslatableExact(e: Expr)
    ensures IsTranslatable(e) <==> NoneForeign(Parts(e))
    decreases e, 1, 0
  {
    assert NoneForeign({e}) <==> !IsForeign(e);
    match e
    case Column(_) =>
    case Literal(_) =>
    case Opaque(_) => NoneForeignUnion({e}, {});
    case Binary(l, _, r) =>
      TranslatableExact(l);
      TranslatableExact(r);
      NoneForeignUnion(Parts(l), Parts(r));
      NoneForeignUnion({e}, Parts(l) + Parts(r));
    case Unary(_, x) =>
      TranslatableExact(x);
      NoneForeignUnion({e}, Parts(x));
    case Like(x, p) =>
      TranslatableExact(x);
      TranslatableExact(p);
      NoneForeignUnion(Parts(x), Parts(p));
      NoneForeignUnion({e}, Parts(x) + Parts(p));
    case Between(x, lo, hi) =>
      TranslatableExact(x);
      TranslatableExact(lo);
      TranslatableExact(hi);
      NoneForeignUnion(Parts(x), Parts(lo));
      NoneForeignUnion(Parts(x) + Parts(lo), Parts(hi));
      NoneForeignUnion({e}, Parts(x) + Parts(lo) + Parts(hi));
    case InList(x, list, _) =>
      TranslatableExact(x);
      AllTranslatable(e, list);
      NoneForeignUnion(Parts(x), PartsOfAll(e, list));
      NoneForeignUnion({e}, Parts(x) + PartsOfAll(e, list));
  }

  /** One conjunct is a consumable equality shape on a seeked column. */
  predicate IsSeekedEquality(e: Expr, seeked: seq<string>) {
    match e
    case Binary(_, Eq, _) => exists c :: c in seeked && EqLiteralFor(e, c).Some?
    case Binary(_, Or, _) => exists c :: c in seeked && AllEqLiterals(Split(e, Or), c).Some?
    case InList(Column(c), list, false) => list != [] && c in seeked && AllLiterals(list).Some?
    case _ => false
  }

  predicate AllConjunctsSeeked(filters: seq<Expr>, seeked: seq<string>) {
    Conjuncts(filters) != [] && forall c :: c in Conjuncts(filters) ==> IsSeekedEquality(c, seeked)
  }

  /** The wire request.  `filter == []` is no filter. */
  datatype Request = Request(ids: Option<Batch>, indexes: Option<Batch>, filter: seq<Expr>)

  function AddColumns(acc: seq<string>, columns: seq<string>): seq<string>
    decreases |columns|
  {
    if columns == [] then acc
    else AddColumns(if columns[0] in acc then acc else acc + [columns[0]], columns[1..])
  }

  /** The union of the key columns of every index the filters bind completely. */
  function IndexColumns(acc: seq<string>, filters: seq<Expr>, schema: Schema, indexes: seq<seq<string>>): seq<string>
    decreases |indexes|
  {
    if indexes == [] then acc
    else IndexColumns(if SeekBatch(filters, schema, indexes[0]).Some? then AddColumns(acc, indexes[0]) else acc,
                      filters, schema, indexes[1..])
  }

  /** The columns some structured seek consumed. */
  function SeekedColumns(ids: Option<Batch>, pks: seq<string>, seek: Option<Batch>, columns: seq<string>): seq<string> {
    (if ids.Some? then pks else []) + (if seek.Some? then columns else [])
  }

  /** The filters that make it into the pushed WHERE fragment: portable ones the unparser can print. */
  function WhereFragment(filters: seq<Expr>, prints: Expr -> bool): seq<Expr> {
    Filter(filters, e => IsTranslatable(e) && prints(e))
  }

  /** The request a scan sends for these filters. */
  function RequestFor(filters: seq<Expr>, schema: Schema, pks: seq<string>, indexes: seq<seq<string>>, prints: Expr -> bool): Request {
    var columns := IndexColumns([], filters, schema, indexes);
    var ids, seek := SeekBatch(filters, schema, pks), SeekBatch(filters, schema, columns);
    Request(ids, seek, if AllConjunctsSeeked(filters, SeekedColumns(ids, pks, seek, columns)) then [] else WhereFragment(filters, prints))
  }

  method CollectIndexColumns(filters: seq<Expr>, schema: Schema, indexes: seq<seq<string>>) returns (columns: seq<string>)
    ensures columns == IndexColumns([], filters, schema, indexes)
  {
    columns := [];
    for i := 0 to |indexes|
      invariant IndexColumns([], filters, schema, indexes) == IndexColumns(columns, filters, schema, indexes[i..])
    {
      assert indexes[i..][1..] == indexes[i + 1..];
      var bound := BuildSeekBatch(filters, schema, indexes[i]);
      if bound.Some? {
        ghost var before := columns;
        for j := 0 to |indexes[i]|
          invariant AddColumns(before, indexes[i]) == AddColumns(columns, indexes[i][j..])
        {
          assert indexes[i][j..][1..] == indexes[i][j + 1..];
          if indexes[i][j] !in columns { columns := columns + [indexes[i][j]]; }
        }
      }
    }
  }

  // ---------------------------------------------------------------- what the request holds

  /** The conjunct pins the column: an equality, an OR of equalities on it, or a non-empty IN list of literals. */
  ghost predicate PinsColumn(e: Expr, c: string) { exists vs :: Lists(e, c, true, vs) }

  /** The column is in a batch that was sent. */
  ghost predicate IsSent(req: Request, c: string) {
    || (req.ids.Some? && c in Names(req.ids.value.fields))
    || (req.indexes.Some? && c in Names(req.indexes.value.fields))
  }

  /** The key columns of every index the filters bind completely, each once. */
  ghost predicate IsUnion(columns: seq<string>, filters: seq<Expr>, schema: Schema, indexes: seq<seq<string>>) {
    && NoRepeats(columns)
    && forall c :: c in columns <==> exists ix :: ix in indexes && SeekBatch(filters, schema, ix).Some? && c in ix
  }

  /** The request carries the key batch, the batch over the union of fully bound indexes, and no filter
      exactly when each conjunct pins a sent column, else the portable filters. */
  ghost predicate Sends(req: Request, filters: seq<Expr>, schema: Schema, pks: seq<string>, indexes: seq<seq<string>>, prints: Expr -> bool) {
    && req.ids == SeekBatch(filters, schema, pks)
    && (exists columns :: IsUnion(columns, filters, schema, indexes) && req.indexes == SeekBatch(filters, schema, columns))
    && if Conjuncts(filters) != [] && forall e :: e in Conjuncts(filters) ==> exists c :: IsSent(req, c) && PinsColumn(e, c)
       then req.filter == []
       else forall f :: f in req.filter <==> f in filters && IsTranslatable(f) && prints(f)
  }

  lemma SeekedIsPinned(e: Expr, seeked: seq<string>)
    ensures IsSeekedEquality(e, seeked) <==> exists c :: c in seeked && PinsColumn(e, c)
  {
    forall c ensures PinOf(e, c, true).Values? <==> PinsColumn(e, c) {
      forall vs ensures PinOf(e, c, true) == Values(vs) <==> Lists(e, c, true, vs) { PinOfLists(e, c, true, vs); }
      if PinOf(e, c, true).Values? { assert Lists(e, c, true, PinOf(e, c, true).vs); }
    }
  }

  ghost predicate NoRepeats(s: seq<string>) { forall i, j :: 0 <= i < j < |s| ==> s[i] != s[j] }

  lemma AddOne(acc: seq<string>, c: string)
    requires NoRepeats(acc)
    ensures var r := if c in acc then acc else acc + [c];
            NoRepeats(r) && forall x :: x in r <==> x in acc || x == c
  {
  }

  lemma {:induction false} AddColumnsIs(acc: seq<string>, columns: seq<string>)
    requires NoRepeats(acc)
    ensures NoRepeats(AddColumns(acc, columns))
    ensures forall c :: c in AddColumns(acc, columns) <==> c in acc || c in columns
    decreases |columns|
  {
    if columns != [] {
      AddOne(acc, columns[0]);
      AddColumnsIs(if columns[0] in acc then acc else acc + [columns[0]], columns[1..]);
      assert forall c :: c in columns <==> c == columns[0] || c in columns[1..];
    }
  }

  ghost predicate Bound(filters: seq<Expr>, schema: Schema, indexes: seq<seq<string>>, c: string) {
    exists ix :: ix in indexes && SeekBatch(filters, schema, ix).Some? && c in ix
  }

  lemma {:induction false} IndexColumnsIs(acc: seq<string>, filters: seq<Expr>, schema: Schema, indexes: seq<seq<string>>)
    requires NoRepeats(acc)
    ensures NoRepeats(IndexColumns(acc, filters, schema, indexes))
    ensures forall c :: c in IndexColumns(acc, filters, schema, indexes) <==> c in acc || Bound(filters, schema, indexes, c)
    decreases |indexes|
  {
    if indexes != [] {
      var bound := SeekBatch(filters, schema, indexes[0]).Some?;
      AddColumnsIs(acc, indexes[0]);
      IndexColumnsIs(if bound then AddColumns(acc, indexes[0]) else acc, filters, schema, indexes[1..]);
      forall c ensures Bound(filters, schema, indexes, c) <==> (bound && c in indexes[0]) || Bound(filters, schema, indexes[1..], c) {
        BoundSplit(filters, schema, indexes, c);
      }
    }
  }

  lemma BoundSplit(filters: seq<Expr>, schema: Schema, indexes: seq<seq<string>>, c: string)
    requires indexes != []
    ensures Bound(filters, schema, indexes, c)
            <==> (SeekBatch(filters, schema, indexes[0]).Some? && c in indexes[0]) || Bound(filters, schema, indexes[1..], c)
  {
    if Bound(filters, schema, indexes, c) {
      var ix :| ix in indexes && SeekBatch(filters, schema, ix).Some? && c in ix;
      assert ix == indexes[0] || ix in indexes[1..];
    }
    if Bound(filters, schema, indexes[1..], c) {
      var ix :| ix in indexes[1..] && SeekBatch(filters, schema, ix).Some? && c in ix;
      assert ix in indexes;
    }
  }

  lemma UnionIs(filters: seq<Expr>, schema: Schema, indexes: seq<seq<string>>)
    ensures IsUnion(IndexColumns([], filters, schema, indexes), filters, schema, indexes)
  {
    var columns := IndexColumns([], filters, schema, indexes);
    IndexColumnsIs([], filters, schema, indexes);
    forall c ensures c in columns <==> exists ix :: ix in indexes && SeekBatch(filters, schema, ix).Some? && c in ix {
      assert c in columns <==> Bound(filters, schema, indexes, c);
    }
  }

  lemma StrippedExactly(filters: seq<Expr>, schema: Schema, pks: seq<string>, columns: seq<string>, req: Request)
    requires req.ids == SeekBatch(filters, schema, pks) && req.indexes == SeekBatch(filters, schema, columns)
    ensures AllConjunctsSeeked(filters, SeekedColumns(req.ids, pks, req.indexes, columns))
       <==> Conjuncts(filters) != [] && forall e :: e in Conjuncts(filters) ==> exists c :: IsSent(req, c) && PinsColumn(e, c)
  {
    var seeked := SeekedColumns(req.ids, pks, req.indexes, columns);
    if req.ids.Some? { SeekBatchNames(filters, schema, pks); }
    if req.indexes.Some? { SeekBatchNames(filters, schema, columns); }
    assert forall c :: c in seeked <==> IsSent(req, c);
    forall e ensures IsSeekedEquality(e, seeked) <==> exists c :: IsSent(req, c) && PinsColumn(e, c) { SeekedIsPinned(e, seeked); }
  }

  lemma RequestSends(filters: seq<Expr>, schema: Schema, pks: seq<string>, indexes: seq<seq<string>>, prints: Expr -> bool)
    ensures Sends(RequestFor(filters, schema, pks, indexes, prints), filters, schema, pks, indexes, prints)
  {
    var columns := IndexColumns([], filters, schema, indexes);
    UnionIs(filters, schema, indexes);
    StrippedExactly(filters, schema, pks, columns, RequestFor(filters, schema, pks, indexes, prints));
  }

  /** `PencaTableProvider::scan` up to the request it sends. */
  method BuildRequest(filters: seq<Expr>, schema: Schema, pks: seq<string>, indexes: seq<seq<string>>, prints: Expr -> bool)
    returns (req: Request)
    ensures req == RequestFor(filters, schema, pks, indexes, prints)
    ensures Sends(req, filters, schema, pks, indexes, prints)
  {
    RequestSends(filters, schema, pks, indexes, prints);
    var ids := BuildSeekBatch(filters, schema, pks);
    var columns := CollectIndexColumns(filters, schema, indexes);
    var seek := BuildSeekBatch(filters, schema, columns);
    var seeked := SeekedColumns(ids, pks, seek, columns);
    req := Request(ids, seek, if AllConjunctsSeeked(filters, seeked) then [] else WhereFragment(filters, prints));
  }

  // ---------------------------------------------------------------- the answer

  /** A row the server must return: it passes the packed keys, the packed index seek and the filter. */
  ghost predicate Wanted(en: Engine, id: seq<string> -> string, schema: Schema, pks: seq<string>, req: Request, row: Row) {
    && (req.ids.Some? ==> NamedBy(req.ids.value, id, schema, pks, row))
    && (req.indexes.Some? ==> SoughtBy(req.indexes.value, row))
    && HoldAll(en, req.filter, row)
  }

  /** The row's index key is one of the batch's tuples. */
  ghost predicate SoughtBy(b: Batch, row: Row) {
    (forall k :: k in Names(b.fields) ==> k in row) && HasTuple(b, KeyOf(row, Names(b.fields)))
  }

  /** The rows selected by a mask, in table order. */
  function Masked(table: seq<Row>, mask: seq<bool>): seq<Row>
    requires |mask| == |table|
  {
    if table == [] then [] else (if mask[0] then [table[0]] else []) + Masked(table[1..], mask[1..])
  }

  lemma {:induction false} MaskedFilter(table: seq<Row>, mask: seq<bool>, p: Row -> bool)
    requires |mask| == |table| && forall i :: 0 <= i < |table| && p(table[i]) ==> mask[i]
    ensures Filter(Masked(table, mask), p) == Filter(table, p)
  {
    if table != [] {
      MaskedFilter(table[1..], mask[1..], p);
      if mask[0] {
        assert Masked(table, mask) == [table[0]] + Masked(table[1..], mask[1..]);
        assert Masked(table, mask)[1..] == Masked(table[1..], mask[1..]);
      } else {
        assert Masked(table, mask) == Masked(table[1..], mask[1..]);
      }
    }
  }

  lemma SeekBatchNames(filters: seq<Expr>, schema: Schema, keys: seq<string>)
    requires SeekBatch(filters, schema, keys).Some?
    ensures Names(SeekBatch(filters, schema, keys).value.fields) == keys
  {
  }

  /** Every row the whole predicate accepts is one the server must return. */
  lemma AcceptedIsWanted(en: Engine, id: seq<string> -> string, schema: Schema, pks: seq<string>, columns: seq<string>,
                         filters: seq<Expr>, req: Request, row: Row)
    requires req.ids == SeekBatch(filters, schema, pks) && req.indexes == SeekBatch(filters, schema, columns)
    requires forall f :: f in req.filter ==> f in filters
    requires RowOf(schema, row) && HoldAll(en, filters, row)
    requires TextSafe(en, filters, schema, pks) && TextSafe(en, filters, schema, columns)
    ensures Wanted(en, id, schema, pks, req, row)
  {
    if req.ids.Some? { ClientKeysAccepted(en, filters, schema, pks, id, row); }
    if req.indexes.Some? {
      SeekBatchNames(filters, schema, columns);
      SeekNeverUnderReturns(en, filters, schema, columns, row);
    }
  }

  /** Sending the packed keys, the packed index seek and the possibly stripped filter, and then
      applying the whole predicate to whatever superset of the wanted rows comes back, gives
      exactly the rows of the table that satisfy the predicate.  `all` is the whole predicate;
      only its translatable filters reach the scan. */
  lemma PushdownIsExact(en: Engine, id: seq<string> -> string, schema: Schema, pks: seq<string>, indexes: seq<seq<string>>,
                        all: seq<Expr>, prints: Expr -> bool, table: seq<Row>, mask: seq<bool>)
    requires var filters := Filter(all, IsTranslatable);
             TextSafe(en, filters, schema, pks) && TextSafe(en, filters, schema, IndexColumns([], filters, schema, indexes))
    requires forall row :: row in table ==> RowOf(schema, row)
    requires var req := RequestFor(Filter(all, IsTranslatable), schema, pks, indexes, prints);
             |mask| == |table| && forall i :: 0 <= i < |table| && Wanted(en, id, schema, pks, req, table[i]) ==> mask[i]
    ensures Filter(Masked(table, mask), (row: Row) => HoldAll(en, all, row)) == Filter(table, (row: Row) => HoldAll(en, all, row))
  {
    var filters := Filter(all, IsTranslatable);
    var columns := IndexColumns([], filters, schema, indexes);
    forall i | 0 <= i < |table| && HoldAll(en, all, table[i]) ensures mask[i] {
      assert table[i] in table;
      AcceptedIsWanted(en, id, schema, pks, columns, filters, RequestFor(filters, schema, pks, indexes, prints), table[i]);
    }
    MaskedFilter(table, mask, (row: Row) => HoldAll(en, all, row));
  }
}
