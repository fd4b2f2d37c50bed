/**
 * The value-set algebra: the set of values a column (or the token) may take
 * under a restriction expression, as a sorted list or an interval, and the
 * intersection that conjunction turns into.
 */
module ValueSets {
  import opened Wrappers
  import opened Values
  import opened Terms
  import opened Restrictions

  // ---------------------------------------------------------------------------
  // Intersection
  // ---------------------------------------------------------------------------

  /** boost::set_intersection on two strictly sorted lists: a merge that keeps the common elements. */
  function CommonElements(a: seq<Bytes>, b: seq<Bytes>): (r: seq<Bytes>)
    requires StrictlySorted(a) && StrictlySorted(b)
    ensures StrictlySorted(r)
    ensures forall v :: v in r <==> v in a && v in b
    decreases |a| + |b|
  {
    if a == [] || b == [] then []
    else
      StrictlySortedTail(a);
      StrictlySortedTail(b);
      assert a == [a[0]] + a[1..] && b == [b[0]] + b[1..];
      LessTrichotomy(a[0], b[0]);
      if Less(a[0], b[0]) then
        assert a[0] !in b by {
          forall y | y in b[1..] ensures y != a[0] { LessTrichotomy(b[0], y); LessTransitive(a[0], b[0], y); }
        }
        CommonElements(a[1..], b)
      else if Less(b[0], a[0]) then
        assert b[0] !in a by {
          forall y | y in a[1..] ensures y != b[0] { LessTrichotomy(a[0], y); LessTransitive(b[0], a[0], y); }
        }
        CommonElements(a, b[1..])
      else
        var rest := CommonElements(a[1..], b[1..]);
        StrictlySortedCons(a[0], rest);
        [a[0]] + rest
  }

  /** The elements of a list that an interval includes, in order. */
  function Filter(i: ValueInterval, s: seq<Bytes>): (r: seq<Bytes>)
    ensures forall v :: v in r <==> v in s && IntervalIncludes(i, Some(v))
    ensures StrictlySorted(s) ==> StrictlySorted(r)
  {
    if s == [] then []
    else
      var rest := Filter(i, s[1..]);
      assert s == [s[0]] + s[1..];
      SortedSublist(s, rest);
      if IntervalIncludes(i, Some(s[0])) then [s[0]] + rest else rest
  }

  /** Keeping the head of a strictly sorted list before a sorted sublist of its tail keeps it sorted. */
  lemma SortedSublist(s: seq<Bytes>, rest: seq<Bytes>)
    requires s != [] && forall v :: v in rest ==> v in s[1..]
    requires StrictlySorted(s[1..]) ==> StrictlySorted(rest)
    ensures StrictlySorted(s) ==> StrictlySorted(rest) && StrictlySorted([s[0]] + rest)
  {
    if StrictlySorted(s) {
      StrictlySortedTail(s);
      StrictlySortedCons(s[0], rest);
    }
  }

  /** std::optional<lower_bound>'s operator<: an absent bound is the smallest. */
  predicate OptLowerLess(a: Option<LowerBound>, b: Option<LowerBound>) {
    match (a, b)
    case (None, Some(_)) => true
    case (Some(x), Some(y)) => LowerLess(x, y)
    case _ => false
  }

  /** The comparator handed to std::min for upper bounds: an absent bound is greater than any value. */
  predicate UpperBefore(x: Option<UpperBound>, y: Option<UpperBound>) {
    if x == y || x.None? then false
    else y.None? || UpperIncludes(y.value, x.value.value)
  }

  /** std::max(a.lb, b.lb): b's bound when a's compares smaller, else a's. */
  function TighterLower(a: Option<LowerBound>, b: Option<LowerBound>): (r: Option<LowerBound>)
    ensures r == a || r == b
    ensures forall v :: BelowOrIn(r, v) <==> BelowOrIn(a, v) && BelowOrIn(b, v)
  {
    TighterLowerMeaning(a, b);
    if OptLowerLess(a, b) then b else a
  }

  lemma TighterLowerMeaning(a: Option<LowerBound>, b: Option<LowerBound>)
    ensures forall v :: BelowOrIn(if OptLowerLess(a, b) then b else a, v) <==> BelowOrIn(a, v) && BelowOrIn(b, v)
  {
    if a.Some? && b.Some? {
      forall v ensures BelowOrIn(if OptLowerLess(a, b) then b else a, v) <==> BelowOrIn(a, v) && BelowOrIn(b, v) {
        if OptLowerLess(a, b) {
          if LowerIncludes(b.value, v) { LowerLessLooser(a.value, b.value, v); }
        } else {
          if LowerIncludes(a.value, v) { LowerNotLessTighter(a.value, b.value, v); }
        }
      }
    }
  }

  /** Whether v satisfies an optional lower bound. */
  predicate BelowOrIn(b: Option<LowerBound>, v: Bytes) {
    b.None? || LowerIncludes(b.value, v)
  }

  /** Whether v satisfies an optional upper bound. */
  predicate AboveOrIn(b: Option<UpperBound>, v: Bytes) {
    b.None? || UpperIncludes(b.value, v)
  }

  /** std::min(a.ub, b.ub, comparator): b's bound when it compares before a's, else a's. */
  function TighterUpper(a: Option<UpperBound>, b: Option<UpperBound>): (r: Option<UpperBound>)
    ensures r == a || r == b
    ensures forall v :: AboveOrIn(r, v) <==> AboveOrIn(a, v) && AboveOrIn(b, v)
  {
    TighterUpperMeaning(a, b);
    if UpperBefore(b, a) then b else a
  }

  lemma TighterUpperMeaning(a: Option<UpperBound>, b: Option<UpperBound>)
    ensures forall v :: AboveOrIn(if UpperBefore(b, a) then b else a, v) <==> AboveOrIn(a, v) && AboveOrIn(b, v)
  {
    if a.Some? && b.Some? {
      forall v ensures AboveOrIn(if UpperBefore(b, a) then b else a, v) <==> AboveOrIn(a, v) && AboveOrIn(b, v) {
        UpperMin(a.value, b.value, v);
      }
    }
  }

  lemma UpperMin(a: UpperBound, b: UpperBound, v: Bytes)
    ensures UpperIncludes(if UpperBefore(Some(b), Some(a)) then b else a, v) <==>
            UpperIncludes(a, v) && UpperIncludes(b, v)
  {
    LessTrichotomy(v, a.value);
    LessTrichotomy(v, b.value);
    LessTrichotomy(a.value, b.value);
    if Less(v, b.value) && Less(b.value, a.value) { LessTransitive(v, b.value, a.value); }
    if Less(v, a.value) && Less(a.value, b.value) { LessTransitive(v, a.value, b.value); }
  }

  /** intersection_visitor: the intersection of two value sets. */
  function Intersect(a: ValueSet, b: ValueSet): (r: ValueSet)
    requires ValidValueSet(a) && ValidValueSet(b)
    ensures ValidValueSet(r)
    ensures forall v :: Contains(r, v) <==> Contains(a, v) && Contains(b, v)
  {
    match (a, b)
    case (ValueList(x), ValueList(y)) => ValueList(CommonElements(x, y))
    case (Interval(i), ValueList(y)) => ValueList(Filter(i, y))
    case (ValueList(x), Interval(i)) => ValueList(Filter(i, x))
    case (Interval(i), Interval(j)) =>
      var r := ValueInterval(TighterLower(i.lb, j.lb), TighterUpper(i.ub, j.ub));
      assert forall k: ValueInterval, v :: IntervalIncludes(k, Some(v)) <==> BelowOrIn(k.lb, v) && AboveOrIn(k.ub, v);
      Interval(r)
  }

  /** A list intersected with anything is a list, and nothing but the intersection of two intervals is an interval. */
  lemma IntersectShape(a: ValueSet, b: ValueSet)
    requires ValidValueSet(a) && ValidValueSet(b)
    ensures Intersect(a, b).Interval? <==> a.Interval? && b.Interval?
  {
  }

  /** Intersecting with the unbounded set changes nothing; intersecting with the empty set leaves nothing. */
  lemma IntersectUnitAndZero(a: ValueSet)
    requires ValidValueSet(a)
    ensures Intersect(UnboundedValueSet, a) == a || (a.ValueList? && Intersect(UnboundedValueSet, a) == ValueList(a.values))
    ensures Intersect(a, EmptyValueSet) == EmptyValueSet
  {
    if a.ValueList? {
      FilterAll(ValueInterval(None, None), a.values);
    }
  }

  lemma {:induction false} FilterAll(i: ValueInterval, s: seq<Bytes>)
    requires i.lb.None? && i.ub.None?
    ensures Filter(i, s) == s
  {
    if s != [] {
      FilterAll(i, s[1..]);
      assert s == [s[0]] + s[1..];
    }
  }

  // ---------------------------------------------------------------------------
  // possible_lhs_values and to_interval
  // ---------------------------------------------------------------------------

  /** get_value_comparator: a subscripted column compares by its values' type, any other by its own (unreversed) type. */
  function ComparatorOf(cv: ColumnValue): TypeRef {
    if cv.sub.Some? then TypeOf(cv.col.ty.elementComparator) else TypeOf(cv.col.ty.comparator)
  }

  /** The non-null values among bound elements, in order. */
  function NonNull(s: seq<Option<Bytes>>): (r: seq<Bytes>)
    ensures forall v :: v in r <==> Some(v) in s
  {
    if s == [] then []
    else
      assert s == [s[0]] + s[1..];
      (if s[0].Some? then [s[0].value] else []) + NonNull(s[1..])
  }

  /** bind_and_get of every term, in order; the first failure is the result. */
  function BindAll(ts: seq<Term>, o: Options): (r: Result<seq<Option<Bytes>>>)
    ensures r.Ok? ==> |r.value| == |ts| && forall k :: 0 <= k < |ts| ==> BindAndGet(ts[k], o) == Ok(r.value[k])
    ensures r.Err? ==> exists k :: 0 <= k < |ts| && BindAndGet(ts[k], o).Err?
  {
    if ts == [] then Ok([])
    else
      var v :- BindAndGet(ts[0], o);
      var rest :- BindAll(ts[1..], o);
      assert forall k :: 1 <= k < |ts| ==> ts[k] == ts[1..][k - 1];
      Ok([v] + rest)
  }

  /** The values an IN list's right-hand side stands for, nulls dropped, sorted and deduplicated. */
  function InValues(rhs: Term, o: Options): (r: Result<ValueSet>)
    ensures r.Ok? ==> r.value.ValueList? && StrictlySorted(r.value.values)
    ensures rhs.ListLiteral? ==> (r.Ok? <==> BindAll(rhs.items, o).Ok?)
    ensures rhs.ListLiteral? && r.Ok? ==>
      forall v :: v in r.value.values <==> Some(v) in BindAll(rhs.items, o).value
    ensures rhs.Bindable? ==> (r.Ok? <==> rhs.kind == ListMarker && rhs.id in o && o[rhs.id].Items?)
    ensures rhs.Bindable? && r.Ok? ==> forall v :: v in r.value.values <==> Some(v) in o[rhs.id].elems
    ensures rhs.Bindable? && r.Err? ==>
      r.error == (if rhs.kind == ListMarker && rhs.id !in o then InvalidRequest else LogicError)
  {
    match rhs
    case Bindable(kind, _) =>
      if kind != ListMarker then Err(LogicError)
      else
        var b :- Bind(rhs, o);
        if b.Items? then Ok(ValueList(SortUnique(NonNull(b.elems)))) else Err(LogicError)
    case ListLiteral(items) =>
      var vs :- BindAll(items, o);
      Ok(ValueList(SortUnique(NonNull(vs))))
  }

  /** The interval a slice atom with the non-null right-hand value val stands for. */
  function SliceInterval(op: Operator, val: Bytes, ty: TypeRef): (r: ValueInterval)
    requires IsSlice(op)
    ensures (op == LT || op == LTE) <==> r.lb.None? && r.ub.Some?
    ensures (op == GT || op == GTE) <==> r.lb.Some? && r.ub.None?
    ensures forall v :: IntervalIncludes(r, Some(v)) <==>
      match op
      case LT => Less(v, val)
      case LTE => Less(v, val) || v == val
      case GT => Less(val, v)
      case _ => Less(val, v) || v == val
  {
    match op
    case LT => ValueInterval(None, Some(UpperBound(val, false, ty)))
    case LTE => ValueInterval(None, Some(UpperBound(val, true, ty)))
    case GT => ValueInterval(Some(LowerBound(val, false, ty)), None)
    case GTE => ValueInterval(Some(LowerBound(val, true, ty)), None)
  }

  /**
   * possible_lhs_values: the set of left-hand values that may satisfy the
   * expression, for an expression whose atoms all share one left-hand side.
   */
  function PossibleLhsValues(e: Expression, o: Options): (r: Result<ValueSet>)
    ensures r.Ok? ==> ValidValueSet(r.value)
    ensures e.BoolConst? ==> r == Ok(if e.b then UnboundedValueSet else EmptyValueSet)
    decreases e, 1
  {
    match e
    case BoolConst(b) => Ok(if b then UnboundedValueSet else EmptyValueSet)
    case Conjunction(cs) => IntersectAll(UnboundedValueSet, cs, o)
    case Atom(b) => AtomValues(b, o)
  }

  /** The left fold of intersection over the children, starting from acc. */
  function IntersectAll(acc: ValueSet, cs: seq<Expression>, o: Options): (r: Result<ValueSet>)
    requires ValidValueSet(acc)
    ensures r.Ok? ==> ValidValueSet(r.value)
    decreases cs, 0
  {
    if cs == [] then Ok(acc)
    else
      var child :- PossibleLhsValues(cs[0], o);
      IntersectAll(Intersect(acc, child), cs[1..], o)
  }

  /** possible_lhs_values on one atom. */
  function AtomValues(b: BinaryOperator, o: Options): (r: Result<ValueSet>)
    ensures r.Ok? ==> ValidValueSet(r.value)
    ensures b.op == EQ ==> r == (match BindAndGet(b.rhs, o)
                                 case Ok(Some(v)) => Ok(ValueList([v]))
                                 case Ok(None) => Ok(EmptyValueSet)
                                 case Err(x) => Err(x))
    ensures b.op == IN ==> r == InValues(b.rhs, o)
    ensures IsSlice(b.op) && BindAndGet(b.rhs, o).Err? ==> r == Err(BindAndGet(b.rhs, o).error)
    ensures IsSlice(b.op) && BindAndGet(b.rhs, o) == Ok(None) ==> r == Ok(EmptyValueSet)
    ensures IsSlice(b.op) && BindAndGet(b.rhs, o).Ok? && BindAndGet(b.rhs, o).value.Some? ==>
      (r.Ok? <==> b.lhs.TokenLhs? || b.lhs.cvs != []) &&
      (r.Ok? ==> r.value == Interval(SliceInterval(b.op, BindAndGet(b.rhs, o).value.value,
                                                   if b.lhs.TokenLhs? then LongType else ComparatorOf(b.lhs.cvs[0]))))
    ensures IsSlice(b.op) && r.Ok? && BindAndGet(b.rhs, o).Ok? && BindAndGet(b.rhs, o).value.Some? ==>
      forall v :: Contains(r.value, v) <==>
        var val := BindAndGet(b.rhs, o).value.value;
        match b.op
        case LT => Less(v, val)
        case LTE => Less(v, val) || v == val
        case GT => Less(val, v)
        case _ => Less(val, v) || v == val
    ensures !IsSlice(b.op) && b.op != EQ && b.op != IN ==> r == Ok(UnboundedValueSet)
  {
    if b.op == EQ then
      var rhs :- BindAndGet(b.rhs, o);
      Ok(if rhs.Some? then ValueList([rhs.value]) else EmptyValueSet)
    else if b.op == IN then InValues(b.rhs, o)
    else if IsSlice(b.op) then
      var val :- BindAndGet(b.rhs, o);
      if val.None? then Ok(EmptyValueSet)
      else if b.lhs.Columns? && b.lhs.cvs == [] then Err(LogicError)
      else
        var ty := if b.lhs.TokenLhs? then LongType else ComparatorOf(b.lhs.cvs[0]);
        Ok(Interval(SliceInterval(b.op, val.value, ty)))
    else Ok(UnboundedValueSet)
  }

  /** to_interval: an interval as is, a single value v as [v, v]; any other list is a logic error. */
  function ToInterval(s: ValueSet): (r: Result<ValueInterval>)
    ensures s.Interval? ==> r == Ok(s.ivl)
    ensures s.ValueList? ==> (r.Ok? <==> |s.values| == 1)
    ensures r.Ok? ==> forall v :: IntervalIncludes(r.value, Some(v)) <==> Contains(s, v)
  {
    match s
    case Interval(i) => Ok(i)
    case ValueList(vs) =>
      if |vs| != 1 then Err(LogicError)
      else Ok(ValueInterval(Some(LowerBound(vs[0], true, NoType)), Some(UpperBound(vs[0], true, NoType))))
  }

  /** Every child's possible values are defined and hold v. */
  predicate AllContain(cs: seq<Expression>, o: Options, v: Bytes) {
    forall k :: 0 <= k < |cs| ==> PossibleLhsValues(cs[k], o).Ok? && Contains(PossibleLhsValues(cs[k], o).value, v)
  }

  lemma AllContainCons(cs: seq<Expression>, o: Options, v: Bytes)
    requires cs != [] && PossibleLhsValues(cs[0], o).Ok?
    ensures AllContain(cs, o, v) <==> Contains(PossibleLhsValues(cs[0], o).value, v) && AllContain(cs[1..], o, v)
  {
    assert forall k :: 1 <= k < |cs| ==> cs[k] == cs[1..][k - 1];
  }

  /** The values of a conjunction lie in every child's values. */
  lemma {:induction false} IntersectAllContains(acc: ValueSet, cs: seq<Expression>, o: Options, v: Bytes)
    requires ValidValueSet(acc) && IntersectAll(acc, cs, o).Ok?
    ensures Contains(IntersectAll(acc, cs, o).value, v) <==> Contains(acc, v) && AllContain(cs, o, v)
    decreases cs
  {
    if cs != [] {
      var child := PossibleLhsValues(cs[0], o).value;
      var next := Intersect(acc, child);
      assert IntersectAll(acc, cs, o) == IntersectAll(next, cs[1..], o);
      IntersectAllContains(next, cs[1..], o, v);
      AllContainCons(cs, o, v);
    }
  }

  lemma {:induction false} IntersectAllOk(acc: ValueSet, cs: seq<Expression>, o: Options, k: nat)
    requires ValidValueSet(acc) && IntersectAll(acc, cs, o).Ok? && k < |cs|
    ensures PossibleLhsValues(cs[k], o).Ok?
    decreases cs
  {
    if k > 0 {
      IntersectAllOk(Intersect(acc, PossibleLhsValues(cs[0], o).value), cs[1..], o, k - 1);
    }
  }
}
