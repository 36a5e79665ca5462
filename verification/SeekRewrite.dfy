/** Scan-time rewrite of a filter conjunction into point-lookup seeks.

    Too large a seek is trimmed by the filter the engine keeps; too small a seek would silently
    lose rows.  The theorems say the second never happens.
  */
module SeekRewrite {
  import opened Base
  import opened Literals

  // ---------------------------------------------------------------- expressions

  /** `Portable` operators parse the same on both engines; `Foreign` ones are never pushed down. */
  datatype Op = Eq | And | Or | Portable(code: nat) | Foreign(code: nat)

  /** `Unary` is IS [NOT] NULL/TRUE/FALSE, NOT and negation; `Opaque` anything not listed (CASE,
      CAST, function calls). */
  datatype Expr =
    | Column(name: string)
    | Literal(v: Scalar)
    | Binary(left: Expr, op: Op, right: Expr)
    | InList(expr: Expr, list: seq<Expr>, negated: bool)
    | Unary(kind: nat, inner: Expr)
    | Like(subject: Expr, pattern: Expr)
    | Between(operand: Expr, low: Expr, high: Expr)
    | Opaque(id: nat)

  type Row = map<string, Scalar>

  /** An expression's value on a row: data, a truth value, or NULL / UNKNOWN. */
  datatype Value = Data(s: Scalar) | Truth(b: bool) | Unknown

  /** The engine: how it compares text with numbers and floats with anything, and what every
      expression the rewrite does not look into evaluates to. */
  datatype Engine = Engine(co: Coercion, floatEq: (Scalar, Scalar) -> bool, other: (Expr, Row) -> Value)

  function FromScalar(s: Scalar): Value { if s.NullV? then Unknown else Data(s) }

  function EqValue(en: Engine, a: Value, b: Value): Value {
    if a.Unknown? || b.Unknown? then Unknown
    else if a.Data? && b.Data? then
      Truth(if a.s.FloatV? || b.s.FloatV? then en.floatEq(a.s, b.s) else SqlEq(en.co, a.s, b.s))
    else Truth(a == b)
  }

  function AndValue(a: Value, b: Value): Value {
    if a == Truth(false) || b == Truth(false) then Truth(false)
    else if a == Truth(true) && b == Truth(true) then Truth(true)
    else Unknown
  }

  function OrValue(a: Value, b: Value): Value {
    if a == Truth(true) || b == Truth(true) then Truth(true)
    else if a == Truth(false) && b == Truth(false) then Truth(false)
    else Unknown
  }

  /** Three-valued evaluation. */
  function Eval(en: Engine, e: Expr, row: Row): Value
    decreases e, 1, 0
  {
    match e
    case Column(c) => if c in row then FromScalar(row[c]) else Unknown
    case Literal(v) => FromScalar(v)
    case Binary(l, Eq, r) => EqValue(en, Eval(en, l, row), Eval(en, r, row))
    case Binary(l, And, r) => AndValue(Eval(en, l, row), Eval(en, r, row))
    case Binary(l, Or, r) => OrValue(Eval(en, l, row), Eval(en, r, row))
    case InList(x, list, false) => EvalIn(en, e, Eval(en, x, row), list, row)
    case _ => en.other(e, row)
  }

  function EvalIn(en: Engine, parent: Expr, v: Value, items: seq<Expr>, row: Row): Value
    requires forall i :: 0 <= i < |items| ==> items[i] < parent
    decreases parent, 0, |items|
  {
    if items == [] then Truth(false)
    else OrValue(EqValue(en, v, Eval(en, items[0], row)), EvalIn(en, parent, v, items[1..], row))
  }

  predicate Holds(en: Engine, e: Expr, row: Row) { Eval(en, e, row) == Truth(true) }

  predicate HoldAll(en: Engine, filters: seq<Expr>, row: Row) {
    forall f :: f in filters ==> Holds(en, f, row)
  }

  /** Flatten a tree of one associative operator. */
  function Split(e: Expr, op: Op): (parts: seq<Expr>)
    ensures |parts| > 0
  {
    if e.Binary? && e.op == op then Split(e.left, op) + Split(e.right, op) else [e]
  }

  function Conjuncts(filters: seq<Expr>): seq<Expr> {
    if filters == [] then [] else Split(filters[0], And) + Conjuncts(filters[1..])
  }

  lemma {:induction false} SplitAnd(en: Engine, e: Expr, row: Row)
    ensures Holds(en, e, row) <==> HoldAll(en, Split(e, And), row)
  {
    if e.Binary? && e.op == And {
      SplitAnd(en, e.left, row);
      SplitAnd(en, e.right, row);
    }
  }

  lemma {:induction false} SplitOr(en: Engine, e: Expr, row: Row)
    ensures Holds(en, e, row) <==> exists d :: d in Split(e, Or) && Holds(en, d, row)
  {
    if e.Binary? && e.op == Or {
      SplitOr(en, e.left, row);
      SplitOr(en, e.right, row);
    }
  }

  lemma {:induction false} ConjunctsHold(en: Engine, filters: seq<Expr>, row: Row)
    ensures HoldAll(en, filters, row) <==> HoldAll(en, Conjuncts(filters), row)
  {
    if filters != [] {
      SplitAnd(en, filters[0], row);
      ConjunctsHold(en, filters[1..], row);
      assert filters == [filters[0]] + filters[1..];
    }
  }

  /** `v = item` is TRUE on this row. */
  predicate Hits(en: Engine, v: Value, item: Expr, row: Row) { EqValue(en, v, Eval(en, item, row)) == Truth(true) }

  lemma {:induction false} InHolds(en: Engine, parent: Expr, v: Value, items: seq<Expr>, row: Row)
    requires forall i :: 0 <= i < |items| ==> items[i] < parent
    ensures EvalIn(en, parent, v, items, row) == Truth(true) <==> exists i :: i in items && Hits(en, v, i, row)
  {
    if items != [] {
      InHolds(en, parent, v, items[1..], row);
      if Hits(en, v, items[0], row) {
        assert EvalIn(en, parent, v, items, row) == Truth(true);
      } else {
        assert forall i :: i in items && Hits(en, v, i, row) ==> i in items[1..];
      }
    }
  }

  /** A comparison with NULL is unknown; membership in an empty list is false, for NULL too. */
  lemma NullsNeverHold(en: Engine, l: Expr, r: Expr, row: Row)
    ensures Eval(en, l, row).Unknown? || Eval(en, r, row).Unknown? ==> Eval(en, Binary(l, Eq, r), row) == Unknown
    ensures Eval(en, InList(l, [], false), row) == Truth(false)
  {
  }

  // ---------------------------------------------------------------- extraction

  /** The literal of a bare `column = literal` on the named column, in either orientation. */
  function EqLiteralFor(e: Expr, pk: string): Option<Scalar> {
    match e
    case Binary(Column(c), Eq, Literal(v)) => if c == pk then Some(v) else None
    case Binary(Literal(v), Eq, Column(c)) => if c == pk then Some(v) else None
    case _ => None
  }

  /** All of `es` are equalities on `pk`: their literals, else `None`. */
  function AllEqLiterals(es: seq<Expr>, pk: string): (r: Option<seq<Scalar>>)
    ensures r.Some? ==> |r.value| == |es|
  {
    if es == [] then Some([])
    else match (EqLiteralFor(es[0], pk), AllEqLiterals(es[1..], pk))
      case (Some(v), Some(rest)) => Some([v] + rest)
      case _ => None
  }

  function AllLiterals(items: seq<Expr>): (r: Option<seq<Scalar>>)
    ensures r.Some? ==> |r.value| == |items|
  {
    if items == [] then Some([])
    else match (items[0], AllLiterals(items[1..]))
      case (Literal(v), Some(rest)) => Some([v] + rest)
      case _ => None
  }

  /** What one conjunct does to the search: nothing, give up, or pin the column. */
  datatype Pin = Skip | Abort | Values(vs: seq<Scalar>)

  function PinOf(e: Expr, pk: string, multi: bool): Pin {
    match e
    case Binary(_, Eq, _) => (match EqLiteralFor(e, pk) case Some(v) => Values([v]) case None => Skip)
    case Binary(_, Or, _) =>
      if !multi then Skip
      else (match AllEqLiterals(Split(e, Or), pk) case Some(vs) => Values(vs) case None => Skip)
    case InList(Column(c), list, false) =>
      if !multi || c != pk || list == [] then Skip
      else (match AllLiterals(list) case Some(vs) => Values(vs) case None => Abort)
    case _ => Skip
  }

  /** The first conjunct that decides. */
  function PkLiterals(conjuncts: seq<Expr>, pk: string, multi: bool): Option<seq<Scalar>> {
    if conjuncts == [] then None
    else match PinOf(conjuncts[0], pk, multi)
      case Skip => PkLiterals(conjuncts[1..], pk, multi)
      case Abort => None
      case Values(vs) => Some(vs)
  }

  /** `pk_literals`: the loop with its `continue`s and early returns. */
  method FindPkLiterals(conjuncts: seq<Expr>, pk: string, multi: bool) returns (r: Option<seq<Scalar>>)
    ensures r == PkLiterals(conjuncts, pk, multi)
  {
    for i := 0 to |conjuncts|
      invariant PkLiterals(conjuncts, pk, multi) == PkLiterals(conjuncts[i..], pk, multi)
    {
      match PinOf(conjuncts[i], pk, multi) {
        case Skip => continue;
        case Abort => return None;
        case Values(vs) => return Some(vs);
      }
    }
    return None;
  }

  function CastAll(vs: seq<Scalar>, t: DataType): (r: Option<seq<Scalar>>)
    ensures r.Some? ==> |r.value| == |vs| && forall i :: 0 <= i < |vs| ==> LosslessCast(vs[i], t) == Some(r.value[i])
  {
    if vs == [] then Some([])
    else match (LosslessCast(vs[0], t), CastAll(vs[1..], t))
      case (Some(v), Some(rest)) => Some([v] + rest)
      case _ => None
  }

  type Schema = seq<(string, DataType)>

  function FieldType(schema: Schema, name: string): Option<DataType> {
    if schema == [] then None else if schema[0].0 == name then Some(schema[0].1) else FieldType(schema[1..], name)
  }

  /** A typed record batch, column by column. */
  datatype Batch = Batch(fields: Schema, columns: seq<seq<Scalar>>) {
    function Rows(): nat { if columns == [] then 0 else |columns[0]| }
  }

  /** One key column of the seek: its declared type and the values it is pinned to. */
  function SeekColumn(conjuncts: seq<Expr>, schema: Schema, key: string, multi: bool): Option<(DataType, seq<Scalar>)> {
    match FieldType(schema, key)
    case None => None
    case Some(t) =>
      if t.Float? then None
      else match PkLiterals(conjuncts, key, multi)
        case None => None
        case Some(vs) => (match CastAll(vs, t) case None => None case Some(cs) => Some((t, cs)))
  }

  /** Every key column yields a seek column. */
  predicate Pinned(conjuncts: seq<Expr>, schema: Schema, keys: seq<string>, multi: bool) {
    forall k :: k in keys ==> SeekColumn(conjuncts, schema, k, multi).Some?
  }

  function SeekFields(conjuncts: seq<Expr>, schema: Schema, keys: seq<string>, multi: bool): Batch
    requires Pinned(conjuncts, schema, keys, multi)
  {
    Batch(seq(|keys|, i requires 0 <= i < |keys| => (keys[i], SeekColumn(conjuncts, schema, keys[i], multi).value.0)),
          seq(|keys|, i requires 0 <= i < |keys| => SeekColumn(conjuncts, schema, keys[i], multi).value.1))
  }

  /** What `build_seek_batch` returns. */
  function SeekBatch(filters: seq<Expr>, schema: Schema, keys: seq<string>): Option<Batch> {
    if keys != [] && Pinned(Conjuncts(filters), schema, keys, |keys| == 1)
    then Some(SeekFields(Conjuncts(filters), schema, keys, |keys| == 1)) else None
  }

  /** `build_seek_batch`: one pass over the key columns, giving up at the first that is not pinned. */
  method BuildSeekBatch(filters: seq<Expr>, schema: Schema, keys: seq<string>) returns (r: Option<Batch>)
    ensures r == SeekBatch(filters, schema, keys)
  {
    if keys == [] { return None; }
    var conjuncts := Conjuncts(filters);
    var multi := |keys| == 1;
    var fields: Schema, columns: seq<seq<Scalar>> := [], [];
    for i := 0 to |keys|
      invariant |fields| == |columns| == i
      invariant forall j :: 0 <= j < i ==> SeekColumn(conjuncts, schema, keys[j], multi) == Some((fields[j].1, columns[j])) && fields[j].0 == keys[j]
    {
      var declared := FieldType(schema, keys[i]);
      if declared.None? || declared.value.Float? { return None; }
      var literals := FindPkLiterals(conjuncts, keys[i], multi);
      if literals.None? { return None; }
      var values := CastAll(literals.value, declared.value);
      if values.None? { return None; }
      columns := columns + [values.value];
      fields := fields + [(keys[i], declared.value)];
    }
    assert Pinned(conjuncts, schema, keys, multi);
    r := Some(Batch(fields, columns));
    assert fields == SeekFields(conjuncts, schema, keys, multi).fields;
    assert columns == SeekFields(conjuncts, schema, keys, multi).columns;
  }

  /** Row `i` of a batch. */
  function Tuple(b: Batch, i: nat): seq<Scalar>
    requires forall c :: c in b.columns ==> i < |c|
  {
    seq(|b.columns|, j requires 0 <= j < |b.columns| => b.columns[j][i])
  }

  /** `t` is one of the batch's rows. */
  ghost predicate HasTuple(b: Batch, t: seq<Scalar>) {
    exists i: nat :: (forall c :: c in b.columns ==> i < |c|) && Tuple(b, i) == t
  }

  function KeyOf(row: Row, keys: seq<string>): seq<Scalar>
    requires forall k :: k in keys ==> k in row
  {
    seq(|keys|, i requires 0 <= i < |keys| => row[keys[i]])
  }

  /** The row has every schema column, each null or of its declared type. */
  ghost predicate RowOf(schema: Schema, row: Row) {
    forall k :: FieldType(schema, k).Some? ==> k in row && TypeOf(row[k]) == FieldType(schema, k).value
  }

  /** No text key column is pinned to a number, or the engine compares such pairs as text. */
  ghost predicate TextSafe(en: Engine, filters: seq<Expr>, schema: Schema, keys: seq<string>) {
    forall k, v :: k in keys && FieldType(schema, k) == Some(Utf8) && v in PinnedTo(filters, k, |keys| == 1)
      ==> !ParsesColumn(en.co, v, Utf8)
  }

  function PinnedTo(filters: seq<Expr>, key: string, multi: bool): seq<Scalar> {
    var vs := PkLiterals(Conjuncts(filters), key, multi);
    if vs.Some? then vs.value else []
  }

  // ---------------------------------------------------------------- what is extracted

  /** `es` joined by the operator, left to right. */
  ghost function Chain(es: seq<Expr>, op: Op): Expr
    requires es != []
  {
    if |es| == 1 then es[0] else Binary(Chain(es[..|es| - 1], op), op, es[|es| - 1])
  }

  /** Flattening undoes joining, keeping the order. */
  lemma {:induction false} SplitUndoesChain(es: seq<Expr>, op: Op)
    requires es != [] && forall e :: e in es ==> !(e.Binary? && e.op == op)
    ensures Split(Chain(es, op), op) == es
  {
    if |es| == 1 {
      assert es[0] in es;
    } else {
      var n := |es| - 1;
      SplitUndoesChain(es[..n], op);
      assert es[n] in es && es[..n] + [es[n]] == es;
    }
  }

  /** No nesting of the operator is left. */
  lemma {:induction false} SplitIsFlat(e: Expr, op: Op, part: Expr)
    requires part in Split(e, op)
    ensures !(part.Binary? && part.op == op)
  {
    if e.Binary? && e.op == op {
      if part in Split(e.left, op) { SplitIsFlat(e.left, op, part); } else { SplitIsFlat(e.right, op, part); }
    }
  }

  /** `column = v`, either way round. */
  ghost predicate Equates(e: Expr, column: string, v: Scalar) {
    e == Binary(Column(column), Eq, Literal(v)) || e == Binary(Literal(v), Eq, Column(column))
  }

  /** The conjunct lists exactly these values for the column: one equality or, where several values
      are allowed, an OR of equalities or a non-empty IN list. */
  ghost predicate Lists(e: Expr, column: string, multi: bool, vs: seq<Scalar>) {
    || (|vs| == 1 && Equates(e, column, vs[0]))
    || (multi && e.Binary? && e.op == Or && EquateAll(Split(e, Or), column, vs))
    || (multi && e.InList? && e.expr == Column(column) && !e.negated && vs != [] && AreLiterals(e.list, vs))
  }

  ghost predicate EquateAll(es: seq<Expr>, column: string, vs: seq<Scalar>) {
    |es| == |vs| && forall i :: 0 <= i < |vs| ==> Equates(es[i], column, vs[i])
  }

  ghost predicate AreLiterals(items: seq<Expr>, vs: seq<Scalar>) {
    |items| == |vs| && forall i :: 0 <= i < |vs| ==> items[i] == Literal(vs[i])
  }

  /** An IN list on the column with an element that is no literal ends the search. */
  ghost predicate Blocks(e: Expr, column: string, multi: bool) {
    multi && e.InList? && e.expr == Column(column) && !e.negated && exists i :: i in e.list && !i.Literal?
  }

  ghost predicate Ignored(e: Expr, column: string, multi: bool) {
    !Blocks(e, column, multi) && forall vs :: !Lists(e, column, multi, vs)
  }

  /** The first conjunct that is not ignored lists these values. */
  ghost predicate FirstLists(conjuncts: seq<Expr>, column: string, multi: bool, vs: seq<Scalar>) {
    exists i :: 0 <= i < |conjuncts| && Lists(conjuncts[i], column, multi, vs) && forall j :: 0 <= j < i ==> Ignored(conjuncts[j], column, multi)
  }

  lemma EqLiteralEquates(e: Expr, column: string, v: Scalar)
    ensures EqLiteralFor(e, column) == Some(v) <==> Equates(e, column, v)
  {
  }

  lemma {:induction false} AllEqLiteralsList(es: seq<Expr>, column: string, vs: seq<Scalar>)
    ensures AllEqLiterals(es, column) == Some(vs) <==> EquateAll(es, column, vs)
  {
    if es != [] && vs != [] {
      AllEqLiteralsList(es[1..], column, vs[1..]);
      EqLiteralEquates(es[0], column, vs[0]);
      assert vs == [vs[0]] + vs[1..];
      assert EquateAll(es, column, vs) <==> Equates(es[0], column, vs[0]) && EquateAll(es[1..], column, vs[1..]) by {
        if Equates(es[0], column, vs[0]) && EquateAll(es[1..], column, vs[1..]) {
          forall i | 0 <= i < |vs| ensures Equates(es[i], column, vs[i]) {
            if i > 0 { assert es[i] == es[1..][i - 1] && vs[i] == vs[1..][i - 1]; }
          }
        }
      }
    }
  }

  lemma {:induction false} AllLiteralsList(items: seq<Expr>, vs: seq<Scalar>)
    ensures AllLiterals(items) == Some(vs) <==> AreLiterals(items, vs)
    ensures AllLiterals(items).None? <==> exists i :: i in items && !i.Literal?
  {
    if items != [] {
      AllLiteralsList(items[1..], if vs == [] then [] else vs[1..]);
      assert items == [items[0]] + items[1..];
      assert AllLiterals(items).Some? <==> items[0].Literal? && AllLiterals(items[1..]).Some?;
      if vs != [] {
        assert vs == [vs[0]] + vs[1..];
        assert AreLiterals(items, vs) <==> items[0] == Literal(vs[0]) && AreLiterals(items[1..], vs[1..]) by {
          if items[0] == Literal(vs[0]) && AreLiterals(items[1..], vs[1..]) {
            forall i | 0 <= i < |vs| ensures items[i] == Literal(vs[i]) {
              if i > 0 { assert items[i] == items[1..][i - 1] && vs[i] == vs[1..][i - 1]; }
            }
          }
        }
      }
    }
  }

  lemma PinOfLists(e: Expr, column: string, multi: bool, vs: seq<Scalar>)
    ensures PinOf(e, column, multi) == Values(vs) <==> Lists(e, column, multi, vs)
    ensures PinOf(e, column, multi) == Abort <==> Blocks(e, column, multi)
  {
    if |vs| == 1 { EqLiteralEquates(e, column, vs[0]); }
    if e.Binary? && e.op == Or { AllEqLiteralsList(Split(e, Or), column, vs); }
    if e.InList? { AllLiteralsList(e.list, vs); }
  }

  /** What is extracted: the values of the first conjunct that lists any, unless a blocking one comes before. */
  lemma {:induction false} PkLiteralsExact(conjuncts: seq<Expr>, column: string, multi: bool, vs: seq<Scalar>)
    ensures PkLiterals(conjuncts, column, multi) == Some(vs) <==> FirstLists(conjuncts, column, multi, vs)
  {
    if conjuncts != [] {
      var e, rest := conjuncts[0], conjuncts[1..];
      forall ws ensures PinOf(e, column, multi) == Values(ws) <==> Lists(e, column, multi, ws)
                ensures PinOf(e, column, multi) == Abort <==> Blocks(e, column, multi)
      {
        PinOfLists(e, column, multi, ws);
      }
      PkLiteralsExact(rest, column, multi, vs);
      FirstListsSplit(conjuncts, column, multi, vs);
      if PinOf(e, column, multi).Values? { assert Lists(e, column, multi, PinOf(e, column, multi).vs); }
      assert Ignored(e, column, multi) <==> PinOf(e, column, multi).Skip?;
    }
  }

  lemma FirstListsSplit(conjuncts: seq<Expr>, column: string, multi: bool, vs: seq<Scalar>)
    requires conjuncts != []
    ensures FirstLists(conjuncts, column, multi, vs)
            <==> Lists(conjuncts[0], column, multi, vs) || (Ignored(conjuncts[0], column, multi) && FirstLists(conjuncts[1..], column, multi, vs))
  {
    var rest := conjuncts[1..];
    if FirstLists(conjuncts, column, multi, vs) {
      var i :| 0 <= i < |conjuncts| && Lists(conjuncts[i], column, multi, vs) && forall j :: 0 <= j < i ==> Ignored(conjuncts[j], column, multi);
      if i > 0 {
        assert Lists(rest[i - 1], column, multi, vs) && forall j :: 0 <= j < i - 1 ==> rest[j] == conjuncts[j + 1];
        assert FirstLists(rest, column, multi, vs);
      }
    }
    if Ignored(conjuncts[0], column, multi) && FirstLists(rest, column, multi, vs) {
      var i :| 0 <= i < |rest| && Lists(rest[i], column, multi, vs) && forall j :: 0 <= j < i ==> Ignored(rest[j], column, multi);
      assert Lists(conjuncts[i + 1], column, multi, vs) && forall j :: 0 < j < i + 1 ==> conjuncts[j] == rest[j - 1];
    }
  }

  /** The schema's first column of that name has that type. */
  ghost predicate DeclaredAs(schema: Schema, name: string, t: DataType) {
    exists i :: 0 <= i < |schema| && schema[i] == (name, t) && forall j :: 0 <= j < i ==> schema[j].0 != name
  }

  lemma {:induction false} FieldTypeDeclared(schema: Schema, name: string, t: DataType)
    ensures FieldType(schema, name) == Some(t) <==> DeclaredAs(schema, name, t)
  {
    if schema != [] {
      FieldTypeDeclared(schema[1..], name, t);
      if DeclaredAs(schema, name, t) && schema[0].0 != name {
        var i :| 0 <= i < |schema| && schema[i] == (name, t) && forall j :: 0 <= j < i ==> schema[j].0 != name;
        assert schema[1..][i - 1] == (name, t) && forall j :: 0 <= j < i - 1 ==> schema[1..][j] == schema[j + 1];
      }
      if DeclaredAs(schema[1..], name, t) && schema[0].0 != name {
        var i :| 0 <= i < |schema[1..]| && schema[1..][i] == (name, t) && forall j :: 0 <= j < i ==> schema[1..][j].0 != name;
        assert schema[i + 1] == (name, t) && forall j :: 0 < j < i + 1 ==> schema[j] == schema[1..][j - 1];
      }
    }
  }

  /** The filters pin the column, of a declared type other than float, to these values of that type,
      each the lossless cast of a listed literal. */
  ghost predicate Pins(filters: seq<Expr>, schema: Schema, column: string, multi: bool, t: DataType, cs: seq<Scalar>) {
    DeclaredAs(schema, column, t) && !t.Float?
    && exists vs :: FirstLists(Conjuncts(filters), column, multi, vs) && CastTo(vs, t, cs)
  }

  ghost predicate IsPinned(filters: seq<Expr>, schema: Schema, column: string, multi: bool) {
    exists t, cs :: Pins(filters, schema, column, multi, t, cs)
  }

  ghost predicate CastTo(vs: seq<Scalar>, t: DataType, cs: seq<Scalar>) {
    |cs| == |vs| && forall i :: 0 <= i < |vs| ==> LosslessCast(vs[i], t) == Some(cs[i])
  }

  lemma {:induction false} CastAllCasts(vs: seq<Scalar>, t: DataType, cs: seq<Scalar>)
    ensures CastAll(vs, t) == Some(cs) <==> CastTo(vs, t, cs)
  {
    if vs != [] && cs != [] {
      CastAllCasts(vs[1..], t, cs[1..]);
      assert cs == [cs[0]] + cs[1..];
      if CastTo(vs, t, cs) {
        assert forall i :: 0 <= i < |vs| - 1 ==> vs[1..][i] == vs[i + 1] && cs[1..][i] == cs[i + 1];
      }
    }
  }

  lemma SeekColumnPins(filters: seq<Expr>, schema: Schema, column: string, multi: bool, t: DataType, cs: seq<Scalar>)
    ensures SeekColumn(Conjuncts(filters), schema, column, multi) == Some((t, cs)) <==> Pins(filters, schema, column, multi, t, cs)
  {
    var found := PkLiterals(Conjuncts(filters), column, multi);
    FieldTypeDeclared(schema, column, t);
    forall vs ensures found == Some(vs) <==> FirstLists(Conjuncts(filters), column, multi, vs) {
      PkLiteralsExact(Conjuncts(filters), column, multi, vs);
    }
    if found.Some? { CastAllCasts(found.value, t, cs); }
  }

  /** A seek batch is built exactly when every key column is pinned, and holds just the pinned values
      under the declared types. */
  lemma SeekBatchExact(filters: seq<Expr>, schema: Schema, keys: seq<string>)
    ensures SeekBatch(filters, schema, keys).Some?
            <==> keys != [] && forall k :: k in keys ==> IsPinned(filters, schema, k, |keys| == 1)
    ensures SeekBatch(filters, schema, keys).Some? ==>
              var b := SeekBatch(filters, schema, keys).value;
              |b.fields| == |b.columns| == |keys|
              && forall i :: 0 <= i < |keys| ==> b.fields[i].0 == keys[i] && Pins(filters, schema, keys[i], |keys| == 1, b.fields[i].1, b.columns[i])
  {
    var conjuncts, multi := Conjuncts(filters), |keys| == 1;
    forall k, t, cs ensures SeekColumn(conjuncts, schema, k, multi) == Some((t, cs)) <==> Pins(filters, schema, k, multi, t, cs) {
      SeekColumnPins(filters, schema, k, multi, t, cs);
    }
    forall k ensures SeekColumn(conjuncts, schema, k, multi).Some? <==> IsPinned(filters, schema, k, multi) {
      var r := SeekColumn(conjuncts, schema, k, multi);
      if r.Some? { assert Pins(filters, schema, k, multi, r.value.0, r.value.1); }
    }
    if SeekBatch(filters, schema, keys).Some? {
      forall i | 0 <= i < |keys|
        ensures var b := SeekBatch(filters, schema, keys).value; Pins(filters, schema, keys[i], multi, b.fields[i].1, b.columns[i])
      {
        assert keys[i] in keys;
      }
    }
  }

  // ---------------------------------------------------------------- no row is lost

  lemma {:induction false} AllEqLiteralsIn(es: seq<Expr>, pk: string, d: Expr)
    requires AllEqLiterals(es, pk).Some? && d in es
    ensures EqLiteralFor(d, pk).Some? && EqLiteralFor(d, pk).value in AllEqLiterals(es, pk).value
  {
    if d != es[0] { AllEqLiteralsIn(es[1..], pk, d); }
  }

  lemma {:induction false} AllLiteralsIn(items: seq<Expr>, i: Expr)
    requires AllLiterals(items).Some? && i in items
    ensures i.Literal? && i.v in AllLiterals(items).value
  {
    if i != items[0] { AllLiteralsIn(items[1..], i); }
  }

  /** The column's value on this row equals the literal, in the engine's sense. */
  predicate Matches(en: Engine, row: Row, pk: string, v: Scalar) {
    pk in row && EqValue(en, FromScalar(row[pk]), FromScalar(v)) == Truth(true)
  }

  lemma EqSymmetric(en: Engine, a: Value, b: Value)
    requires !(a.Data? && a.s.FloatV?) && !(b.Data? && b.s.FloatV?)
    ensures EqValue(en, a, b) == EqValue(en, b, a)
  {
  }

  lemma EqLiteralHolds(en: Engine, e: Expr, pk: string, row: Row)
    requires EqLiteralFor(e, pk).Some? && Holds(en, e, row) && pk in row
    requires !row[pk].FloatV? && !EqLiteralFor(e, pk).value.FloatV?
    ensures Matches(en, row, pk, EqLiteralFor(e, pk).value)
  {
    var v := EqLiteralFor(e, pk).value;
    assert Eval(en, Column(pk), row) == FromScalar(row[pk]) && Eval(en, Literal(v), row) == FromScalar(v);
    EqSymmetric(en, FromScalar(row[pk]), FromScalar(v));
  }

  /** A conjunct that pins a column and holds on a row pins it to a value the row's column equals. */
  lemma PinHolds(en: Engine, e: Expr, pk: string, multi: bool, row: Row)
    requires PinOf(e, pk, multi).Values? && Holds(en, e, row) && pk in row && !row[pk].FloatV?
    requires forall v :: v in PinOf(e, pk, multi).vs ==> !v.FloatV?
    ensures exists v :: v in PinOf(e, pk, multi).vs && Matches(en, row, pk, v)
  {
    if e.Binary? && e.op == Eq {
      EqLiteralHolds(en, e, pk, row);
    } else if e.Binary? {
      SplitOr(en, e, row);
      var d :| d in Split(e, Or) && Holds(en, d, row);
      AllEqLiteralsIn(Split(e, Or), pk, d);
      EqLiteralHolds(en, d, pk, row);
    } else {
      InHolds(en, e, Eval(en, e.expr, row), e.list, row);
      var i :| i in e.list && Hits(en, Eval(en, e.expr, row), i, row);
      AllLiteralsIn(e.list, i);
    }
  }

  lemma {:induction false} PkLiteralsHold(en: Engine, conjuncts: seq<Expr>, pk: string, multi: bool, row: Row)
    requires HoldAll(en, conjuncts, row) && PkLiterals(conjuncts, pk, multi).Some? && pk in row && !row[pk].FloatV?
    requires forall v :: v in PkLiterals(conjuncts, pk, multi).value ==> !v.FloatV?
    ensures exists v :: v in PkLiterals(conjuncts, pk, multi).value && Matches(en, row, pk, v)
  {
    if PinOf(conjuncts[0], pk, multi).Skip? {
      PkLiteralsHold(en, conjuncts[1..], pk, multi, row);
    } else {
      PinHolds(en, conjuncts[0], pk, multi, row);
    }
  }

  lemma MatchIsCast(en: Engine, vs: seq<Scalar>, t: DataType, row: Row, key: string, v: Scalar)
    requires CastAll(vs, t).Some? && v in vs && Matches(en, row, key, v)
    requires TypeOf(row[key]) == t && !t.Float? && !ParsesColumn(en.co, v, t)
    ensures row[key] in CastAll(vs, t).value
  {
    CastAllHas(vs, t, v);
    LosslessCastIsUnique(en.co, v, t, row[key]);
  }

  /** On a row where every filter is TRUE, the key column's value is among the seek column's values. */
  lemma SeekColumnCovers(en: Engine, filters: seq<Expr>, schema: Schema, keys: seq<string>, key: string, row: Row)
    requires key in keys && RowOf(schema, row) && HoldAll(en, filters, row) && TextSafe(en, filters, schema, keys)
    requires SeekColumn(Conjuncts(filters), schema, key, |keys| == 1).Some?
    ensures key in row && row[key] in SeekColumn(Conjuncts(filters), schema, key, |keys| == 1).value.1
  {
    var conjuncts, multi := Conjuncts(filters), |keys| == 1;
    var vs := PkLiterals(conjuncts, key, multi).value;
    ConjunctsHold(en, filters, row);
    forall v | v in vs ensures !v.FloatV? { var i :| 0 <= i < |vs| && vs[i] == v; }
    PkLiteralsHold(en, conjuncts, key, multi, row);
    var v :| v in vs && Matches(en, row, key, v);
    MatchIsCast(en, vs, FieldType(schema, key).value, row, key, v);
  }

  lemma CastAllHas(vs: seq<Scalar>, t: DataType, v: Scalar)
    requires CastAll(vs, t).Some? && v in vs
    ensures LosslessCast(v, t).Some? && LosslessCast(v, t).value in CastAll(vs, t).value
  {
    var i :| 0 <= i < |vs| && vs[i] == v;
    assert CastAll(vs, t).value[i] == LosslessCast(v, t).value;
  }

  lemma {:induction false} SingleLiteral(conjuncts: seq<Expr>, pk: string)
    requires PkLiterals(conjuncts, pk, false).Some?
    ensures |PkLiterals(conjuncts, pk, false).value| == 1
  {
    if PinOf(conjuncts[0], pk, false).Skip? { SingleLiteral(conjuncts[1..], pk); }
  }

  /** Whenever a seek batch is built, every row on which all filters are TRUE has its key in the batch. */
  lemma SeekNeverUnderReturns(en: Engine, filters: seq<Expr>, schema: Schema, keys: seq<string>, row: Row)
    requires SeekBatch(filters, schema, keys).Some?
    requires RowOf(schema, row) && HoldAll(en, filters, row) && TextSafe(en, filters, schema, keys)
    ensures (forall k :: k in keys ==> k in row) && HasTuple(SeekBatch(filters, schema, keys).value, KeyOf(row, keys))
  {
    var conjuncts, multi := Conjuncts(filters), |keys| == 1;
    var b := SeekBatch(filters, schema, keys).value;
    forall k | k in keys ensures k in row && row[k] in SeekColumn(conjuncts, schema, k, multi).value.1 {
      SeekColumnCovers(en, filters, schema, keys, k, row);
    }
    if multi {
      assert b.columns == [SeekColumn(conjuncts, schema, keys[0], multi).value.1];
      var i :| 0 <= i < |b.columns[0]| && b.columns[0][i] == row[keys[0]];
      assert Tuple(b, i) == KeyOf(row, keys);
    } else {
      forall j | 0 <= j < |keys| ensures |b.columns[j]| == 1 && b.columns[j][0] == row[keys[j]] {
        SingleLiteral(conjuncts, keys[j]);
        assert row[keys[j]] in b.columns[j];
      }
      assert Tuple(b, 0) == KeyOf(row, keys);
    }
  }

  // ---------------------------------------------------------------- where a row is lost

  function PinnedBy(key: string, l: Scalar): seq<Expr> { [Binary(Column(key), Eq, Literal(l))] }

  lemma PointBatch(key: string, l: Scalar, schema: Schema)
    requires SeekBatch(PinnedBy(key, l), schema, [key]).Some?
    ensures FieldType(schema, key).Some? && !FieldType(schema, key).value.Float?
    ensures LosslessCast(l, FieldType(schema, key).value).Some?
    ensures PkLiterals(Conjuncts(PinnedBy(key, l)), key, true) == Some([l])
    ensures SeekBatch(PinnedBy(key, l), schema, [key]).value.columns == [[LosslessCast(l, FieldType(schema, key).value).value]]
  {
    var e := PinnedBy(key, l)[0];
    assert Conjuncts(PinnedBy(key, l)) == [e];
    assert PinOf(e, key, true) == Values([l]);
    assert key in [key];
    var t := FieldType(schema, key).value;
    CastAllHas([l], t, l);
    assert CastAll([l], t).value == [LosslessCast(l, t).value];
    assert SeekColumn([e], schema, key, true) == Some((t, CastAll([l], t).value));
    assert SeekBatch(PinnedBy(key, l), schema, [key]).value.columns == [CastAll([l], t).value];
  }

  /** A row of the schema that holds `v` under the key and nothing else. */
  function RowWith(schema: Schema, key: string, v: Scalar): Row {
    map i | 0 <= i < |schema| :: schema[i].0 := if schema[i].0 == key then v else NullV(TypeIn(schema, schema[i].0))
  }

  function TypeIn(schema: Schema, name: string): DataType {
    match FieldType(schema, name)
    case Some(t) => t
    case None => Utf8
  }

  lemma {:induction false} FieldListed(schema: Schema, name: string)
    requires FieldType(schema, name).Some?
    ensures exists i :: 0 <= i < |schema| && schema[i].0 == name
  {
    if schema[0].0 != name {
      FieldListed(schema[1..], name);
      var i :| 0 <= i < |schema[1..]| && schema[1..][i].0 == name;
      assert schema[i + 1].0 == name;
    }
  }

  lemma RowWithFits(schema: Schema, key: string, v: Scalar)
    requires FieldType(schema, key) == Some(TypeOf(v))
    ensures RowOf(schema, RowWith(schema, key, v)) && key in RowWith(schema, key, v) && RowWith(schema, key, v)[key] == v
  {
    forall k | FieldType(schema, k).Some? ensures k in RowWith(schema, key, v) { FieldListed(schema, k); }
  }

  ghost predicate LosesRow(en: Engine, filters: seq<Expr>, schema: Schema, key: string, row: Row) {
    && SeekBatch(filters, schema, [key]).Some? && RowOf(schema, row) && key in row
    && HoldAll(en, filters, row) && !HasTuple(SeekBatch(filters, schema, [key]).value, [row[key]])
  }

  lemma TupleOfOne(b: Batch, c: Scalar, v: Scalar)
    requires b.columns == [[c]] && HasTuple(b, [v])
    ensures v == c
  {
    var i: nat :| (forall c :: c in b.columns ==> i < |c|) && Tuple(b, i) == [v];
    assert [c] in b.columns && Tuple(b, i)[0] == b.columns[0][i];
  }

  lemma PinnedHolds(en: Engine, key: string, l: Scalar, row: Row)
    requires key in row && row[key].StrV? && IsNumber(l) && SqlEq(en.co, row[key], l)
    ensures HoldAll(en, PinnedBy(key, l), row)
  {
    assert Eval(en, Column(key), row) == Data(row[key]) && Eval(en, Literal(l), row) == Data(l);
    assert Eval(en, PinnedBy(key, l)[0], row) == Truth(true);
  }

  /** A text key pinned to a number, on an engine that compares by parsing the column: the row that
      spells the number another way satisfies the filter, and its key is not in the batch. */
  lemma ParsedKeyIsLost(en: Engine, key: string, l: Scalar, schema: Schema)
    requires FieldType(schema, key) == Some(Utf8) && ParsesColumn(en.co, l, Utf8) && SeekBatch(PinnedBy(key, l), schema, [key]).Some?
    ensures LosesRow(en, PinnedBy(key, l), schema, key, RowWith(schema, key, OtherSpelling(l)))
  {
    var v := OtherSpelling(l);
    var b := SeekBatch(PinnedBy(key, l), schema, [key]).value;
    PointBatch(key, l, schema);
    RowWithFits(schema, key, v);
    ParsedColumnIsAmbiguous(en.co, l);
    PinnedHolds(en, key, l, RowWith(schema, key, v));
    if HasTuple(b, [v]) { TupleOfOne(b, LosslessCast(l, Utf8).value, v); }
  }

  /** A point filter on one key loses some row of the schema exactly when the engine parses its column. */
  lemma PointSeekExact(en: Engine, key: string, l: Scalar, schema: Schema)
    requires SeekBatch(PinnedBy(key, l), schema, [key]).Some?
    ensures (exists row :: LosesRow(en, PinnedBy(key, l), schema, key, row)) <==> ParsesColumn(en.co, l, TypeIn(schema, key))
  {
    PointBatch(key, l, schema);
    if ParsesColumn(en.co, l, FieldType(schema, key).value) {
      ParsedKeyIsLost(en, key, l, schema);
    } else {
      forall row | RowOf(schema, row) && HoldAll(en, PinnedBy(key, l), row)
        ensures key in row && HasTuple(SeekBatch(PinnedBy(key, l), schema, [key]).value, [row[key]])
      {
        SeekNeverUnderReturns(en, PinnedBy(key, l), schema, [key], row);
        assert KeyOf(row, [key]) == [row[key]];
      }
    }
  }
}
