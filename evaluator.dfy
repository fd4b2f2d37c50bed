/**
 * The row evaluator: whether a row satisfies a restriction expression.  A row
 * gives the value of each (possibly subscripted) column, null when it has none,
 * and a decoder that reads a collection column's value as its elements.
 */
module Evaluator {
  import opened Wrappers
  import opened Values
  import opened Terms
  import opened Restrictions
  import opened ValueSets
  import opened LikeMatcher

  /** A deserialized collection cell. */
  datatype Collection =
    | ListCell(elems: seq<Bytes>)
    | SetCell(elems: seq<Bytes>)
    | MapCell(entries: seq<(Bytes, Bytes)>)
    | NotCollection

  /**
   * A row as the evaluator sees it: the values of its columns (a missing entry
   * is null) and the deserializer of a collection column's value.
   */
  datatype Row = Row(cells: map<ColumnValue, Bytes>, deserialize: (ColumnType, Bytes) -> Collection)

  function CellValue(row: Row, cv: ColumnValue): Option<Bytes> {
    if cv in row.cells then Some(row.cells[cv]) else None
  }

  function CellValues(row: Row, cvs: seq<ColumnValue>): (r: seq<Option<Bytes>>)
    ensures |r| == |cvs| && forall i :: 0 <= i < |cvs| ==> r[i] == CellValue(row, cvs[i])
  {
    seq(|cvs|, i requires 0 <= i < |cvs| => CellValue(row, cvs[i]))
  }

  // ---------------------------------------------------------------------------
  // equal
  // ---------------------------------------------------------------------------

  /** equal(bytes_opt, column_value): nothing equals null, and a null column equals nothing. */
  predicate EqualValue(rhs: Option<Bytes>, cv: ColumnValue, row: Row) {
    rhs.Some? && CellValue(row, cv).Some? && Compare(CellValue(row, cv).value, rhs.value) == 0
  }

  lemma EqualValueMeaning(rhs: Option<Bytes>, cv: ColumnValue, row: Row)
    ensures EqualValue(rhs, cv, row) <==> rhs.Some? && CellValue(row, cv) == rhs
  {
  }

  /** equal(term, columns): the columns' values equal the term's (a tuple, for several columns). */
  function EqualTerm(t: Term, cvs: seq<ColumnValue>, row: Row, o: Options): (r: Result<bool>)
    ensures |cvs| == 0 ==> r == Err(LogicError)
    ensures |cvs| > 1 && r.Ok? ==>
      GetTuple(t, o).Ok? && GetTuple(t, o).value.Some? && |GetTuple(t, o).value.value| == |cvs| &&
      (r.value <==> forall i :: 0 <= i < |cvs| ==> EqualValue(GetTuple(t, o).value.value[i], cvs[i], row))
    ensures |cvs| > 1 && GetTuple(t, o) == Ok(None) ==> r == Err(InvalidRequest)
    ensures |cvs| >= 1 && GetTuple(t, o).Err? ==> r == Err(GetTuple(t, o).error)
    ensures |cvs| > 1 && GetTuple(t, o).Ok? && GetTuple(t, o).value.Some? ==>
      r == (if |GetTuple(t, o).value.value| != |cvs| then Err(InvalidRequest)
            else Ok(forall i :: 0 <= i < |cvs| ==> EqualValue(GetTuple(t, o).value.value[i], cvs[i], row)))
    ensures |cvs| == 1 && GetTuple(t, o).Ok? && GetTuple(t, o).value.Some? && |GetTuple(t, o).value.value| == 1 ==>
      r == Ok(EqualValue(GetTuple(t, o).value.value[0], cvs[0], row))
    ensures |cvs| == 1 && GetTuple(t, o) == Ok(None) ==>
      r == (match BindAndGet(t, o) case Ok(v) => Ok(EqualValue(v, cvs[0], row)) case Err(x) => Err(x))
    ensures r == Ok(true) ==> forall i :: 0 <= i < |cvs| ==> CellValue(row, cvs[i]).Some?
  {
    if |cvs| > 1 then
      var multi :- GetTuple(t, o);
      if multi.None? then Err(InvalidRequest)
      else if |multi.value| != |cvs| then Err(InvalidRequest)
      else Ok(forall i :: 0 <= i < |cvs| ==> EqualValue(multi.value[i], cvs[i], row))
    else if |cvs| == 1 then
      var tup :- GetTuple(t, o);
      if tup.Some? && |tup.value| == 1 then Ok(EqualValue(tup.value[0], cvs[0], row))
      else
        var v :- BindAndGet(t, o);
        Ok(EqualValue(v, cvs[0], row))
    else Err(LogicError)
  }

  // ---------------------------------------------------------------------------
  // limits
  // ---------------------------------------------------------------------------

  /** The verdict of a comparison operator given the three-way comparison of the two sides. */
  function LimitsByOrder(cmp: int, op: Operator): bool {
    if cmp < 0 then op == LT || op == LTE || op == NEQ
    else if cmp > 0 then op == GT || op == GTE || op == NEQ
    else op == LTE || op == GTE || op == EQ
  }

  /** limits(lhs, op, rhs, type): whether lhs stands in relation op to rhs; op must be a comparison. */
  function LimitsValue(lhs: Bytes, op: Operator, rhs: Bytes): (r: Result<bool>)
    ensures r.Ok? <==> IsCompare(op)
  {
    if !IsCompare(op) then Err(LogicError) else Ok(LimitsByOrder(Compare(lhs, rhs), op))
  }

  /** Each comparison operator means its relation. */
  lemma LimitsMeaning(lhs: Bytes, op: Operator, rhs: Bytes)
    requires IsCompare(op)
    ensures LimitsValue(lhs, op, rhs) == Ok(match op
      case LT => Less(lhs, rhs)
      case LTE => Less(lhs, rhs) || lhs == rhs
      case GT => Less(rhs, lhs)
      case GTE => Less(rhs, lhs) || lhs == rhs
      case EQ => lhs == rhs
      case _ => lhs != rhs)
  {
    CompareAntisymmetric(lhs, rhs);
  }

  /**
   * The lexicographic three-way comparison of two tuples of equal size: the
   * comparison of the first unequal components, 0 when there is none.  A null
   * component reached on the way is undefined behaviour in the source.
   */
  function TupleCompare(l: seq<Option<Bytes>>, r: seq<Option<Bytes>>): (c: Result<int>)
    requires |l| == |r|
    ensures c.Ok? ==> -1 <= c.value <= 1
    ensures c == Ok(0) ==> l == r && forall i :: 0 <= i < |l| ==> l[i].Some?
  {
    if l == [] then Ok(0)
    else if l[0].None? || r[0].None? then Err(LogicError)
    else
      var cmp := Compare(l[0].value, r[0].value);
      if cmp != 0 then Ok(cmp)
      else
        var rest := TupleCompare(l[1..], r[1..]);
        assert rest == Ok(0) ==> l == [l[0]] + l[1..] && r == [r[0]] + r[1..];
        rest
  }

  /** A non-zero tuple comparison is the comparison of the first component at which the tuples differ. */
  lemma {:induction false} TupleCompareFirstDifference(l: seq<Option<Bytes>>, r: seq<Option<Bytes>>)
    requires |l| == |r| && TupleCompare(l, r).Ok? && TupleCompare(l, r).value != 0
    ensures exists i :: (0 <= i < |l| && l[..i] == r[..i] && l[i].Some? && r[i].Some? &&
                         TupleCompare(l, r).value == Compare(l[i].value, r[i].value))
  {
    if Compare(l[0].value, r[0].value) == 0 {
      TupleCompareFirstDifference(l[1..], r[1..]);
      var i :| 0 <= i < |l[1..]| && l[1..][..i] == r[1..][..i] && l[1..][i].Some? && r[1..][i].Some? &&
        TupleCompare(l[1..], r[1..]).value == Compare(l[1..][i].value, r[1..][i].value);
      assert l[0] == r[0];
      assert l[..i + 1] == [l[0]] + l[1..][..i];
      assert r[..i + 1] == [r[0]] + r[1..][..i];
    } else {
      assert l[..0] == r[..0];
    }
  }

  /** The multi-column verdict of a slice operator: strict order decides, equal tuples satisfy only <= and >=. */
  function TupleLimits(op: Operator, l: seq<Option<Bytes>>, r: seq<Option<Bytes>>): Result<bool>
    requires IsSlice(op) && |l| == |r|
  {
    var cmp :- TupleCompare(l, r);
    if cmp < 0 then Ok(op == LT || op == LTE)
    else if cmp > 0 then Ok(op == GT || op == GTE)
    else Ok(op == LTE || op == GTE)
  }

  /** The loop of the multi-column limits: compares component by component and stops at the first difference. */
  method MultiColumnLimits(op: Operator, l: seq<Option<Bytes>>, r: seq<Option<Bytes>>) returns (res: Result<bool>)
    requires IsSlice(op) && |l| == |r|
    ensures res == TupleLimits(op, l, r)
  {
    var i := 0;
    while i < |r|
      invariant 0 <= i <= |r|
      invariant TupleLimits(op, l, r) == TupleLimits(op, l[i..], r[i..])
    {
      if l[i].None? || r[i].None? {
        return Err(LogicError);
      }
      var cmp := Compare(l[i].value, r[i].value);
      if cmp < 0 {
        return Ok(op == LT || op == LTE);
      } else if cmp > 0 {
        return Ok(op == GT || op == GTE);
      }
      assert l[i..][1..] == l[i + 1..] && r[i..][1..] == r[i + 1..];
      i := i + 1;
    }
    return Ok(op == LTE || op == GTE);
  }

  /** limits(binary_operator): a slice of the columns' values against the right-hand side. */
  function LimitsAtom(op: Operator, cvs: seq<ColumnValue>, rhs: Term, row: Row, o: Options): (r: Result<bool>)
    ensures !IsSlice(op) ==> r == Err(LogicError)
    ensures IsSlice(op) && |cvs| == 0 ==> r == Err(LogicError)
    // Several columns: the right side must be a tuple of the same size, compared lexicographically.
    ensures IsSlice(op) && |cvs| > 1 && GetTuple(rhs, o).Err? ==> r == Err(GetTuple(rhs, o).error)
    ensures IsSlice(op) && |cvs| > 1 && GetTuple(rhs, o).Ok? &&
            (GetTuple(rhs, o).value.None? || |GetTuple(rhs, o).value.value| != |cvs|) ==>
      r == Err(InvalidRequest)
    ensures IsSlice(op) && |cvs| > 1 && GetTuple(rhs, o).Ok? && GetTuple(rhs, o).value.Some? &&
            |GetTuple(rhs, o).value.value| == |cvs| ==>
      r == TupleLimits(op, CellValues(row, cvs), GetTuple(rhs, o).value.value)
    // One column: a null right side is false; otherwise the value comparison, a null column reading as empty.
    ensures IsSlice(op) && |cvs| == 1 && GetTuple(rhs, o) == Ok(None) && BindAndGet(rhs, o) == Ok(None) ==> r == Ok(false)
    ensures IsSlice(op) && |cvs| == 1 && GetTuple(rhs, o) == Ok(None) && BindAndGet(rhs, o).Ok? &&
            BindAndGet(rhs, o).value.Some? ==>
      r == LimitsValue(if CellValue(row, cvs[0]).Some? then CellValue(row, cvs[0]).value else [], op,
                       BindAndGet(rhs, o).value.value)
    ensures IsSlice(op) && |cvs| == 1 && GetTuple(rhs, o).Ok? && GetTuple(rhs, o).value.Some? &&
            |GetTuple(rhs, o).value.value| == 1 ==>
      r == (match GetTuple(rhs, o).value.value[0]
            case None => Ok(false)
            case Some(x) => LimitsValue(if CellValue(row, cvs[0]).Some? then CellValue(row, cvs[0]).value else [], op, x))
  {
    if !IsSlice(op) then Err(LogicError)
    else if |cvs| > 1 then
      var multi :- GetTuple(rhs, o);
      if multi.None? then Err(InvalidRequest)
      else if |multi.value| != |cvs| then Err(InvalidRequest)
      else TupleLimits(op, CellValues(row, cvs), multi.value)
    else if |cvs| == 1 then
      // A null column value compares as the empty value.
      var lhs := if CellValue(row, cvs[0]).Some? then CellValue(row, cvs[0]).value else [];
      var tup :- GetTuple(rhs, o);
      var rhsValue :- if tup.Some? && |tup.value| == 1 then Ok(tup.value[0]) else BindAndGet(rhs, o);
      if rhsValue.None? then Ok(false) else LimitsValue(lhs, op, rhsValue.value)
    else Err(LogicError)
  }

  /** A one-column slice against a non-null value holds exactly when the column's value stands in the operator's relation to it. */
  lemma LimitsAtomMeaning(op: Operator, cv: ColumnValue, rhs: Term, row: Row, o: Options)
    requires IsSlice(op) && GetTuple(rhs, o) == Ok(None)
    requires BindAndGet(rhs, o).Ok? && BindAndGet(rhs, o).value.Some? && CellValue(row, cv).Some?
    ensures var c, x := CellValue(row, cv).value, BindAndGet(rhs, o).value.value;
      LimitsAtom(op, [cv], rhs, row, o) == Ok(match op
        case LT => Less(c, x)
        case LTE => Less(c, x) || c == x
        case GT => Less(x, c)
        case _ => Less(x, c) || c == x)
  {
    LimitsMeaning(CellValue(row, cv).value, op, BindAndGet(rhs, o).value.value);
  }

  // ---------------------------------------------------------------------------
  // contains, contains_key, like, is_one_of
  // ---------------------------------------------------------------------------

  /** Whether a list or set holds v as an element, or a map holds it as a value. */
  predicate Holds(c: Collection, v: Bytes) {
    match c
    case ListCell(es) => v in es
    case SetCell(es) => v in es
    case MapCell(es) => exists k :: 0 <= k < |es| && es[k].1 == v
    case NotCollection => false
  }

  /** contains(collection, value): a list or set element, or a map value, equals value; null is always contained. */
  function CollectionHas(c: Collection, value: Option<Bytes>): (r: Result<bool>)
    ensures value.None? ==> r == Ok(true)
    ensures value.Some? ==> (r.Ok? <==> !c.NotCollection?)
    ensures value.Some? && r.Ok? ==> (r.value <==> Holds(c, value.value))
  {
    if value.None? then Ok(true)
    else
      match c
      case ListCell(es) => Ok(exists k :: 0 <= k < |es| && Compare(es[k], value.value) == 0)
      case SetCell(es) => Ok(exists k :: 0 <= k < |es| && Compare(es[k], value.value) == 0)
      case MapCell(es) => Ok(exists k :: 0 <= k < |es| && Compare(es[k].1, value.value) == 0)
      case NotCollection => Err(LogicError)
  }

  /** contains(value, columns): a single, unsubscripted collection column contains value; a null collection holds nothing. */
  function CollectionContains(value: Option<Bytes>, cvs: seq<ColumnValue>, row: Row): (r: Result<bool>)
    ensures |cvs| != 1 ==> r == Err(UnsupportedOperation)
    ensures |cvs| == 1 && cvs[0].sub.Some? ==> r == Err(UnsupportedOperation)
    ensures |cvs| == 1 && cvs[0].sub.None? && CellValue(row, cvs[0]).None? ==> r == Ok(false)
    ensures |cvs| == 1 && cvs[0].sub.None? && CellValue(row, cvs[0]).Some? && value.None? ==> r == Ok(true)
    ensures |cvs| == 1 && cvs[0].sub.None? && CellValue(row, cvs[0]).Some? && value.Some? ==>
      r == (if row.deserialize(cvs[0].col.ty, CellValue(row, cvs[0]).value).NotCollection? then Err(LogicError)
            else Ok(Holds(row.deserialize(cvs[0].col.ty, CellValue(row, cvs[0]).value), value.value)))
  {
    if |cvs| != 1 then Err(UnsupportedOperation)
    else if cvs[0].sub.Some? then Err(UnsupportedOperation)
    else
      var collection := CellValue(row, cvs[0]);
      if collection.Some? then CollectionHas(row.deserialize(cvs[0].col.ty, collection.value), value)
      else Ok(false)
  }

  /** contains_key: a single, unsubscripted map column has key among its keys; a null key is always there. */
  function CollectionContainsKey(cvs: seq<ColumnValue>, key: Option<Bytes>, row: Row): (r: Result<bool>)
    ensures |cvs| != 1 ==> r == Err(UnsupportedOperation)
    ensures |cvs| == 1 && cvs[0].sub.Some? ==> r == Err(UnsupportedOperation)
    ensures |cvs| == 1 && cvs[0].sub.None? && key.None? ==> r == Ok(true)
    ensures |cvs| == 1 && key.Some? && r == Ok(true) ==>
      CellValue(row, cvs[0]).Some? && row.deserialize(cvs[0].col.ty, CellValue(row, cvs[0]).value).MapCell?
    ensures |cvs| == 1 && cvs[0].sub.None? && key.Some? && CellValue(row, cvs[0]).None? ==> r == Ok(false)
    ensures |cvs| == 1 && cvs[0].sub.None? && key.Some? && CellValue(row, cvs[0]).Some? ==>
      r == (match row.deserialize(cvs[0].col.ty, CellValue(row, cvs[0]).value)
            case MapCell(es) => Ok(exists k :: 0 <= k < |es| && es[k].0 == key.value)
            case _ => Err(LogicError))
  {
    if |cvs| != 1 then Err(UnsupportedOperation)
    else if cvs[0].sub.Some? then Err(UnsupportedOperation)
    else if key.None? then Ok(true)
    else
      var collection := CellValue(row, cvs[0]);
      if collection.None? then Ok(false)
      else
        match row.deserialize(cvs[0].col.ty, collection.value)
        case MapCell(es) => Ok(exists k :: 0 <= k < |es| && Compare(es[k].0, key.value) == 0)
        case _ => Err(LogicError)
  }

  /** like(column_value, pattern): only string columns; a null pattern or value matches nothing. */
  function LikeValue(cv: ColumnValue, pattern: Option<Bytes>, row: Row): (r: Result<bool>)
    ensures !cv.col.ty.isString ==> r == Err(InvalidRequest)
    ensures r == Ok(true) ==> (pattern.Some? && CellValue(row, cv).Some? &&
                               Like(pattern.value, CellValue(row, cv).value))
    ensures cv.col.ty.isString && (pattern.None? || CellValue(row, cv).None?) ==> r == Ok(false)
    ensures cv.col.ty.isString && pattern.Some? && CellValue(row, cv).Some? ==>
      r == (if pattern.value == [] then Err(LogicError)
            else Ok(Like(pattern.value, CellValue(row, cv).value)))
  {
    if !cv.col.ty.isString then Err(InvalidRequest)
    else
      var value := CellValue(row, cv);
      if pattern.Some? && value.Some? then
        // The matcher asserts a non-empty pattern.
        if pattern.value == [] then Err(LogicError) else Ok(Like(pattern.value, value.value))
      else Ok(false)
  }

  /** boost::equal of columns and patterns under like(): stops at the first column that does not match. */
  function AllLike(cvs: seq<ColumnValue>, patterns: seq<Option<Bytes>>, row: Row): (r: Result<bool>)
    requires |cvs| == |patterns|
    ensures r == Ok(true) <==> forall i :: 0 <= i < |cvs| ==> LikeValue(cvs[i], patterns[i], row) == Ok(true)
    ensures (forall i :: 0 <= i < |cvs| ==> LikeValue(cvs[i], patterns[i], row).Ok?) ==> r.Ok?
  {
    if cvs == [] then Ok(true)
    else
      var first :- LikeValue(cvs[0], patterns[0], row);
      var rest := AllLike(cvs[1..], patterns[1..], row);
      assert forall i :: 1 <= i < |cvs| ==> cvs[i] == cvs[1..][i - 1] && patterns[i] == patterns[1..][i - 1];
      if !first then Ok(false) else rest
  }

  /** On string columns with non-empty patterns, a tuple LIKE holds exactly when every column has a value matching its pattern. */
  lemma AllLikeMeaning(cvs: seq<ColumnValue>, patterns: seq<Option<Bytes>>, row: Row)
    requires |cvs| == |patterns|
    requires forall i :: 0 <= i < |cvs| ==> cvs[i].col.ty.isString && patterns[i].Some? && patterns[i].value != []
    ensures AllLike(cvs, patterns, row) ==
      Ok(forall i :: 0 <= i < |cvs| ==> CellValue(row, cvs[i]).Some? &&
                                         Like(patterns[i].value, CellValue(row, cvs[i]).value))
  {
    assert forall i :: 0 <= i < |cvs| ==> LikeValue(cvs[i], patterns[i], row).Ok?;
  }

  /** like(columns, rhs): one pattern per column; several columns need a tuple literal of the same size. */
  function LikeTerm(cvs: seq<ColumnValue>, rhs: Term, row: Row, o: Options): (r: Result<bool>)
    ensures |cvs| == 0 ==> r == Err(InvalidRequest)
    ensures |cvs| > 1 && !(rhs.Bindable? && rhs.kind == TupleValue) ==> r == Err(InvalidRequest)
    ensures |cvs| == 1 ==> r == (match BindAndGet(rhs, o) case Ok(p) => LikeValue(cvs[0], p, row) case Err(x) => Err(x))
    ensures |cvs| > 1 && rhs.Bindable? && rhs.kind == TupleValue &&
            !(rhs.id in o && o[rhs.id].Items? && |o[rhs.id].elems| == |cvs|) ==>
      r == Err(InvalidRequest)
  {
    if |cvs| > 1 then
      if rhs.Bindable? && rhs.kind == TupleValue then
        var b :- Bind(rhs, o);
        if !b.Items? then Err(InvalidRequest)
        else if |b.elems| != |cvs| then Err(InvalidRequest)
        else AllLike(cvs, b.elems, row)
      else Err(InvalidRequest)
    else if |cvs| == 1 then
      var p :- BindAndGet(rhs, o);
      LikeValue(cvs[0], p, row)
    else Err(InvalidRequest)
  }

  /**
   * A tuple LIKE on several columns, bound to a tuple of their size, is the
   * column-by-column LIKE; on string columns with non-null, non-empty patterns
   * it holds exactly when every column has a value matching its pattern.
   */
  lemma LikeTupleMeaning(cvs: seq<ColumnValue>, rhs: Term, row: Row, o: Options)
    requires |cvs| > 1 && rhs.Bindable? && rhs.kind == TupleValue
    requires rhs.id in o && o[rhs.id].Items? && |o[rhs.id].elems| == |cvs|
    ensures LikeTerm(cvs, rhs, row, o) == AllLike(cvs, o[rhs.id].elems, row)
    ensures (forall i :: 0 <= i < |cvs| ==>
               cvs[i].col.ty.isString && o[rhs.id].elems[i].Some? && o[rhs.id].elems[i].value != []) ==>
      LikeTerm(cvs, rhs, row, o) ==
      Ok(forall i :: 0 <= i < |cvs| ==> CellValue(row, cvs[i]).Some? &&
                                         Like(o[rhs.id].elems[i].value, CellValue(row, cvs[i]).value))
  {
    var patterns := o[rhs.id].elems;
    if forall i :: 0 <= i < |cvs| ==> cvs[i].col.ty.isString && patterns[i].Some? && patterns[i].value != [] {
      AllLikeMeaning(cvs, patterns, row);
    }
  }

  /** any_of over the list elements of equal(element, columns), stopping at the first true. */
  function AnyEqualTerm(items: seq<Term>, cvs: seq<ColumnValue>, row: Row, o: Options): (r: Result<bool>)
    ensures r == Ok(true) ==> exists k :: 0 <= k < |items| && EqualTerm(items[k], cvs, row, o) == Ok(true)
    ensures r == Ok(false) ==> forall k :: 0 <= k < |items| ==> EqualTerm(items[k], cvs, row, o) == Ok(false)
    ensures (forall k :: 0 <= k < |items| ==> EqualTerm(items[k], cvs, row, o).Ok?) ==>
      r == Ok(exists k :: 0 <= k < |items| && EqualTerm(items[k], cvs, row, o) == Ok(true))
  {
    if items == [] then Ok(false)
    else
      var first :- EqualTerm(items[0], cvs, row, o);
      var rest := AnyEqualTerm(items[1..], cvs, row, o);
      assert forall k :: 1 <= k < |items| ==> items[k] == items[1..][k - 1];
      if first then Ok(true) else rest
  }

  /** is_one_of: the columns' values are one of the list's values (or, for a multi-column IN marker, rows). */
  function IsOneOf(cvs: seq<ColumnValue>, rhs: Term, row: Row, o: Options): (r: Result<bool>)
    ensures rhs.ListLiteral? ==> r == AnyEqualTerm(rhs.items, cvs, row, o)
    ensures rhs.Bindable? && rhs.kind != ListMarker && rhs.kind != InMarker ==> r == Err(LogicError)
    ensures rhs.Bindable? && rhs.kind == ListMarker && rhs.id in o && !o[rhs.id].Items? ==> r == Err(LogicError)
    ensures rhs.Bindable? && rhs.kind == ListMarker && r == Ok(true) ==>
      rhs.id in o && o[rhs.id].Items? && |cvs| == 1 && CellValue(row, cvs[0]) in o[rhs.id].elems
    ensures rhs.Bindable? && (rhs.kind == ListMarker || rhs.kind == InMarker) && rhs.id !in o ==> r == Err(InvalidRequest)
    ensures rhs.Bindable? && rhs.kind == ListMarker && rhs.id in o && o[rhs.id].Items? ==>
      r == (if |cvs| != 1 then Err(LogicError)
            else Ok(CellValue(row, cvs[0]).Some? && CellValue(row, cvs[0]) in o[rhs.id].elems))
    ensures rhs.Bindable? && rhs.kind == InMarker && rhs.id in o ==>
      r == Ok(o[rhs.id].Rows? && NoNulls(CellValues(row, cvs)) &&
              exists k :: 0 <= k < |o[rhs.id].rows| && o[rhs.id].rows[k] == CellValues(row, cvs))
  {
    match rhs
    case ListLiteral(items) => AnyEqualTerm(items, cvs, row, o)
    case Bindable(kind, _) =>
      if kind == ListMarker then
        var b :- Bind(rhs, o);
        if b.Items? then
          if |cvs| != 1 then Err(LogicError)
          else Ok(exists k :: 0 <= k < |b.elems| && EqualValue(b.elems[k], cvs[0], row))
        else Err(LogicError)
      else if kind == InMarker then
        var b :- Bind(rhs, o);
        if b.Rows? then
          InRowsMeaning(b.rows, cvs, row);
          Ok(exists k :: 0 <= k < |b.rows| && RowEquals(b.rows[k], cvs, row))
        else Ok(false)
      else Err(LogicError)
  }

  /**
   * `c IN (t1, ..., tn)` with scalar terms: true exactly when the column has a
   * value and some term is bound to that value; null terms match nothing.
   */
  lemma InListLiteralMeaning(cv: ColumnValue, items: seq<Term>, row: Row, o: Options)
    requires forall k :: 0 <= k < |items| ==>
      items[k].Bindable? && items[k].kind == ScalarTerm && items[k].id in o &&
      (o[items[k].id].Scalar? || o[items[k].id].NullValue?)
    ensures IsOneOf([cv], ListLiteral(items), row, o) ==
      Ok(CellValue(row, cv).Some? && exists k :: 0 <= k < |items| && o[items[k].id] == Scalar(CellValue(row, cv).value))
  {
    forall k | 0 <= k < |items|
      ensures EqualTerm(items[k], [cv], row, o) ==
              Ok(CellValue(row, cv).Some? && o[items[k].id] == Scalar(CellValue(row, cv).value))
    {
      EqualValueMeaning(BindAndGet(items[k], o).value, cv, row);
    }
  }

  /** boost::equal of columns and one IN row under equal(): same size and every component equal. */
  predicate RowEquals(el: seq<Option<Bytes>>, cvs: seq<ColumnValue>, row: Row) {
    |el| == |cvs| && forall i :: 0 <= i < |cvs| ==> EqualValue(el[i], cvs[i], row)
  }

  predicate NoNulls(s: seq<Option<Bytes>>) {
    forall i :: 0 <= i < |s| ==> s[i].Some?
  }

  /** A row of an IN list matches exactly when it is the columns' values and none of them is null. */
  lemma InRowsMeaning(rows: seq<seq<Option<Bytes>>>, cvs: seq<ColumnValue>, row: Row)
    ensures (exists k :: 0 <= k < |rows| && RowEquals(rows[k], cvs, row)) <==>
            NoNulls(CellValues(row, cvs)) && (exists k :: 0 <= k < |rows| && rows[k] == CellValues(row, cvs))
  {
    forall k | 0 <= k < |rows| ensures RowEquals(rows[k], cvs, row) ==> rows[k] == CellValues(row, cvs) {
      if RowEquals(rows[k], cvs, row) {
        assert forall i :: 0 <= i < |cvs| ==> rows[k][i] == CellValues(row, cvs)[i];
      }
    }
    forall k | 0 <= k < |rows| && rows[k] == CellValues(row, cvs) && NoNulls(CellValues(row, cvs))
      ensures RowEquals(rows[k], cvs, row)
    {
    }
  }

  // ---------------------------------------------------------------------------
  // is_satisfied_by
  // ---------------------------------------------------------------------------

  /** is_satisfied_by: the verdict of the expression on the row, or the error it raises. */
  function IsSatisfiedBy(e: Expression, row: Row, o: Options): (r: Result<bool>)
    ensures e.BoolConst? ==> r == Ok(e.b)
    ensures e.Conjunction? ==> (r == Ok(true) <==>
      forall k :: 0 <= k < |e.children| ==> IsSatisfiedBy(e.children[k], row, o) == Ok(true))
    decreases e, 1
  {
    match e
    case BoolConst(b) => Ok(b)
    case Conjunction(cs) => AllSatisfied(cs, row, o)
    case Atom(b) => AtomSatisfied(b, row, o)
  }

  /** all_of over the children, stopping at the first false. */
  function AllSatisfied(cs: seq<Expression>, row: Row, o: Options): (r: Result<bool>)
    ensures r == Ok(true) <==> forall k :: 0 <= k < |cs| ==> IsSatisfiedBy(cs[k], row, o) == Ok(true)
    ensures r == Ok(false) ==> exists k :: 0 <= k < |cs| && IsSatisfiedBy(cs[k], row, o) == Ok(false)
    decreases cs, 0
  {
    if cs == [] then Ok(true)
    else
      var first :- IsSatisfiedBy(cs[0], row, o);
      var rest := AllSatisfied(cs[1..], row, o);
      assert forall k :: 1 <= k < |cs| ==> cs[k] == cs[1..][k - 1];
      if !first then Ok(false) else rest
  }

  /** is_satisfied_by on one atom, by operator. */
  function AtomSatisfied(b: BinaryOperator, row: Row, o: Options): (r: Result<bool>)
    ensures b.lhs.TokenLhs? ==> r == Err(UnsupportedOperation)
    ensures b.op == IS_NOT ==> r == Err(UnsupportedOperation)
    ensures b.lhs.Columns? && b.op == NEQ ==>
      r == (match EqualTerm(b.rhs, b.lhs.cvs, row, o) case Ok(v) => Ok(!v) case Err(x) => Err(x))
    ensures b.lhs.Columns? && b.op == EQ ==> r == EqualTerm(b.rhs, b.lhs.cvs, row, o)
    ensures b.lhs.Columns? && IsSlice(b.op) ==> r == LimitsAtom(b.op, b.lhs.cvs, b.rhs, row, o)
    ensures b.lhs.Columns? && b.op == CONTAINS ==>
      r == (match BindAndGet(b.rhs, o) case Ok(v) => CollectionContains(v, b.lhs.cvs, row) case Err(x) => Err(x))
    ensures b.lhs.Columns? && b.op == CONTAINS_KEY ==>
      r == (match BindAndGet(b.rhs, o) case Ok(k) => CollectionContainsKey(b.lhs.cvs, k, row) case Err(x) => Err(x))
    ensures b.lhs.Columns? && b.op == LIKE ==> r == LikeTerm(b.lhs.cvs, b.rhs, row, o)
    ensures b.lhs.Columns? && b.op == IN ==> r == IsOneOf(b.lhs.cvs, b.rhs, row, o)
  {
    match b.lhs
    case TokenLhs => Err(UnsupportedOperation)
    case Columns(cvs) =>
      match b.op
      case EQ => EqualTerm(b.rhs, cvs, row, o)
      case NEQ =>
        var eq :- EqualTerm(b.rhs, cvs, row, o);
        Ok(!eq)
      case LT => LimitsAtom(b.op, cvs, b.rhs, row, o)
      case LTE => LimitsAtom(b.op, cvs, b.rhs, row, o)
      case GT => LimitsAtom(b.op, cvs, b.rhs, row, o)
      case GTE => LimitsAtom(b.op, cvs, b.rhs, row, o)
      case CONTAINS =>
        var v :- BindAndGet(b.rhs, o);
        CollectionContains(v, cvs, row)
      case CONTAINS_KEY =>
        var k :- BindAndGet(b.rhs, o);
        CollectionContainsKey(cvs, k, row)
      case LIKE => LikeTerm(cvs, b.rhs, row, o)
      case IN => IsOneOf(cvs, b.rhs, row, o)
      case IS_NOT => Err(UnsupportedOperation)
  }

  // ---------------------------------------------------------------------------
  // Multi-column bounds
  // ---------------------------------------------------------------------------

  /** matches(op, bound): EQ, GT and GTE give a lower bound; EQ, LT and LTE an upper bound. */
  predicate MatchesBound(op: Operator, bnd: BoundKind)
    ensures MatchesBound(op, bnd) <==> op == EQ || (bnd == Start && (op == GT || op == GTE)) ||
                                        (bnd == End && (op == LT || op == LTE))
  {
    op in (if bnd == Start then [EQ, GT, GTE] else [EQ, LT, LTE])
  }

  /** Whether an atom dictates the bound bnd of a multi-column restriction. */
  predicate DictatesBound(b: BinaryOperator, bnd: BoundKind) {
    MatchesBound(b.op, bnd) && b.lhs.Columns?
  }

  /**
   * first_multicolumn_bound: the tuple on the right of the first atom, depth
   * first, that dictates bnd and has a non-empty tuple; empty when there is none.
   * Binding it to anything but a tuple is undefined behaviour in the source.
   */
  function FirstMulticolumnBound(e: Expression, o: Options, bnd: BoundKind): (r: Result<seq<Option<Bytes>>>)
    ensures r.Ok? && r.value != [] ==>
      exists b :: (b in Atoms(e) && DictatesBound(b, bnd) && b.rhs.Bindable? && b.rhs.id in o && o[b.rhs.id] == Items(r.value))
    ensures (forall b :: b in Atoms(e) ==> !DictatesBound(b, bnd)) ==> r == Ok([])
    decreases e, 1
  {
    match e
    case BoolConst(_) => Ok([])
    case Atom(b) => AtomBound(b, o, bnd)
    case Conjunction(cs) => FirstMulticolumnBoundOf(cs, o, bnd)
  }

  function FirstMulticolumnBoundOf(cs: seq<Expression>, o: Options, bnd: BoundKind): (r: Result<seq<Option<Bytes>>>)
    ensures r.Ok? && r.value != [] ==>
      exists b :: (b in AtomsOfAll(cs) && DictatesBound(b, bnd) && b.rhs.Bindable? && b.rhs.id in o && o[b.rhs.id] == Items(r.value))
    ensures (forall b :: b in AtomsOfAll(cs) ==> !DictatesBound(b, bnd)) ==> r == Ok([])
    decreases cs, 0
  {
    if cs == [] then Ok([])
    else
      var first :- FirstMulticolumnBound(cs[0], o, bnd);
      if first != [] then Ok(first) else FirstMulticolumnBoundOf(cs[1..], o, bnd)
  }

  /** The bound one atom sets: nothing unless it dictates bnd, otherwise the tuple bound to its right-hand side. */
  function AtomBound(b: BinaryOperator, o: Options, bnd: BoundKind): Result<seq<Option<Bytes>>> {
    if !DictatesBound(b, bnd) then Ok([])
    else if b.rhs.ListLiteral? || b.rhs.id !in o || !o[b.rhs.id].Items? then Err(LogicError)
    else Ok(o[b.rhs.id].elems)
  }

  /** An atom settles the bound: it gives a non-empty tuple, or binding its tuple fails. */
  predicate SetsBound(b: BinaryOperator, o: Options, bnd: BoundKind) {
    AtomBound(b, o, bnd) != Ok([])
  }

  /** The reference on a flat list of atoms: the first atom that settles the bound decides it. */
  function FirstAtomBound(bs: seq<BinaryOperator>, o: Options, bnd: BoundKind): Result<seq<Option<Bytes>>> {
    if bs == [] then Ok([])
    else if SetsBound(bs[0], o, bnd) then AtomBound(bs[0], o, bnd)
    else FirstAtomBound(bs[1..], o, bnd)
  }

  lemma {:induction false} FirstAtomBoundAppend(a: seq<BinaryOperator>, b: seq<BinaryOperator>, o: Options, bnd: BoundKind)
    ensures FirstAtomBound(a + b, o, bnd) ==
      if FirstAtomBound(a, o, bnd) != Ok([]) then FirstAtomBound(a, o, bnd) else FirstAtomBound(b, o, bnd)
  {
    if a == [] {
      assert a + b == b;
    } else {
      assert (a + b)[0] == a[0];
      assert (a + b)[1..] == a[1..] + b;
      FirstAtomBoundAppend(a[1..], b, o, bnd);
    }
  }

  /** The depth-first walk of first_multicolumn_bound is the reference on the expression's atoms in order. */
  lemma {:induction false} FirstMulticolumnBoundIsFirstAtom(e: Expression, o: Options, bnd: BoundKind)
    ensures FirstMulticolumnBound(e, o, bnd) == FirstAtomBound(Atoms(e), o, bnd)
    decreases e, 1
  {
    match e
    case BoolConst(_) =>
    case Atom(b) =>
      assert Atoms(e)[1..] == [];
    case Conjunction(cs) => FirstMulticolumnBoundOfIsFirstAtom(cs, o, bnd);
  }

  lemma {:induction false} FirstMulticolumnBoundOfIsFirstAtom(cs: seq<Expression>, o: Options, bnd: BoundKind)
    ensures FirstMulticolumnBoundOf(cs, o, bnd) == FirstAtomBound(AtomsOfAll(cs), o, bnd)
    decreases cs, 0
  {
    if cs != [] {
      FirstMulticolumnBoundIsFirstAtom(cs[0], o, bnd);
      FirstMulticolumnBoundOfIsFirstAtom(cs[1..], o, bnd);
      FirstAtomBoundAppend(Atoms(cs[0]), AtomsOfAll(cs[1..]), o, bnd);
    }
  }

  lemma {:induction false} FirstAtomDecides(bs: seq<BinaryOperator>, o: Options, bnd: BoundKind, k: nat)
    requires k < |bs| && SetsBound(bs[k], o, bnd) && forall j :: 0 <= j < k ==> !SetsBound(bs[j], o, bnd)
    ensures FirstAtomBound(bs, o, bnd) == AtomBound(bs[k], o, bnd)
  {
    if k > 0 {
      assert !SetsBound(bs[0], o, bnd);
      assert forall j :: 0 <= j < k - 1 ==> bs[1..][j] == bs[j + 1];
      FirstAtomDecides(bs[1..], o, bnd, k - 1);
    }
  }

  lemma {:induction false} NoAtomSettles(bs: seq<BinaryOperator>, o: Options, bnd: BoundKind)
    requires forall j :: 0 <= j < |bs| ==> !SetsBound(bs[j], o, bnd)
    ensures FirstAtomBound(bs, o, bnd) == Ok([])
  {
    if bs != [] {
      assert !SetsBound(bs[0], o, bnd);
      assert forall j :: 0 <= j < |bs| - 1 ==> bs[1..][j] == bs[j + 1];
      NoAtomSettles(bs[1..], o, bnd);
    }
  }

  /**
   * first_multicolumn_bound decides by the first atom of the expression, in
   * depth-first order, that settles the bound; with no such atom there is no bound.
   */
  lemma FirstMulticolumnBoundMeaning(e: Expression, o: Options, bnd: BoundKind)
    ensures forall k :: 0 <= k < |Atoms(e)| && SetsBound(Atoms(e)[k], o, bnd) &&
                        (forall j :: 0 <= j < k ==> !SetsBound(Atoms(e)[j], o, bnd)) ==>
      FirstMulticolumnBound(e, o, bnd) == AtomBound(Atoms(e)[k], o, bnd)
    ensures (forall k :: 0 <= k < |Atoms(e)| ==> !SetsBound(Atoms(e)[k], o, bnd)) ==> FirstMulticolumnBound(e, o, bnd) == Ok([])
  {
    FirstMulticolumnBoundIsFirstAtom(e, o, bnd);
    forall k | 0 <= k < |Atoms(e)| && SetsBound(Atoms(e)[k], o, bnd) &&
               (forall j :: 0 <= j < k ==> !SetsBound(Atoms(e)[j], o, bnd))
      ensures FirstMulticolumnBound(e, o, bnd) == AtomBound(Atoms(e)[k], o, bnd)
    {
      FirstAtomDecides(Atoms(e), o, bnd, k);
    }
    if forall k :: 0 <= k < |Atoms(e)| ==> !SetsBound(Atoms(e)[k], o, bnd) {
      NoAtomSettles(Atoms(e), o, bnd);
    }
  }

  // ---------------------------------------------------------------------------
  // possible_lhs_values against is_satisfied_by
  // ---------------------------------------------------------------------------

  /** Every atom of e restricts the single column cv. */
  predicate OnColumn(e: Expression, cv: ColumnValue) {
    forall b :: b in Atoms(e) ==> b.lhs == Columns([cv])
  }

  /**
   * possible_lhs_values over-approximates the rows an expression admits: the
   * value of the column in any row that satisfies the expression is among the
   * expression's possible values.
   */
  lemma {:induction false} PossibleValuesSound(e: Expression, cv: ColumnValue, row: Row, o: Options)
    requires OnColumn(e, cv) && CellValue(row, cv).Some?
    requires PossibleLhsValues(e, o).Ok? && IsSatisfiedBy(e, row, o) == Ok(true)
    ensures Contains(PossibleLhsValues(e, o).value, CellValue(row, cv).value)
    decreases e, 1
  {
    match e
    case BoolConst(_) =>
    case Atom(b) => AtomValuesSound(b, cv, row, o);
    case Conjunction(cs) =>
      var v := CellValue(row, cv).value;
      forall k | 0 <= k < |cs| ensures PossibleLhsValues(cs[k], o).Ok? && Contains(PossibleLhsValues(cs[k], o).value, v) {
        IntersectAllOk(UnboundedValueSet, cs, o, k);
        AtomsOfAllHas(cs, k);
        PossibleValuesSound(cs[k], cv, row, o);
      }
      IntersectAllContains(UnboundedValueSet, cs, o, v);
  }

  lemma {:induction false} AtomsOfAllHas(cs: seq<Expression>, k: nat)
    requires k < |cs|
    ensures forall b :: b in Atoms(cs[k]) ==> b in AtomsOfAll(cs)
  {
    if k > 0 { AtomsOfAllHas(cs[1..], k - 1); }
  }

  lemma AtomValuesSound(b: BinaryOperator, cv: ColumnValue, row: Row, o: Options)
    requires b.lhs == Columns([cv]) && CellValue(row, cv).Some?
    requires AtomValues(b, o).Ok? && AtomSatisfied(b, row, o) == Ok(true)
    ensures Contains(AtomValues(b, o).value, CellValue(row, cv).value)
  {
    var v := CellValue(row, cv).value;
    if b.op == EQ || IsSlice(b.op) {
      // possible_lhs_values bound the right-hand side, so it is no tuple and equal/limits bind it the same way.
      assert GetTuple(b.rhs, o) == Ok(None);
      if IsSlice(b.op) {
        var x := BindAndGet(b.rhs, o).value.value;
        LimitsMeaning(v, b.op, x);
      }
    } else if b.op == IN {
      match b.rhs
      case ListLiteral(items) =>
        var k :| 0 <= k < |items| && EqualTerm(items[k], [cv], row, o) == Ok(true);
        var vs := BindAll(items, o).value;
        assert BindAndGet(items[k], o) == Ok(vs[k]);
        assert GetTuple(items[k], o) == Ok(None);
        assert vs[k] == Some(v);
        assert Some(v) in vs;
      case Bindable(_, _) =>
    }
  }
}
