/**
 * The restriction expression model: a WHERE clause is a Boolean constant, a
 * conjunction, or an atom `lhs op rhs` whose left side is a list of columns or
 * the partition token.  Also the value bounds and value sets that restrictions
 * denote, and the generic walks over an expression's atoms.
 */
module Restrictions {
  import opened Wrappers
  import opened Values
  import opened Terms

  datatype Operator = EQ | NEQ | LT | LTE | GT | GTE | IN | CONTAINS | CONTAINS_KEY | LIKE | IS_NOT

  predicate IsSlice(op: Operator) {
    op == LT || op == LTE || op == GT || op == GTE
  }

  predicate IsCompare(op: Operator) {
    IsSlice(op) || op == EQ || op == NEQ
  }

  /** The operators that can only be applied by filtering rows. */
  predicate NeedsFilteringOp(op: Operator) {
    op == CONTAINS || op == CONTAINS_KEY || op == LIKE
  }

  datatype ColumnKind = PartitionKey | ClusteringKey | StaticColumn | RegularColumn

  /**
   * A column's type, as far as restrictions see it: the identity of its
   * comparator (the underlying type's, for a reversed type), that of its
   * collection values' comparator, whether it sorts in reverse, and whether it is
   * a string type.
   */
  datatype ColumnType = ColumnType(comparator: nat, elementComparator: nat, reversed: bool, isString: bool)

  /** A column: its name, its position among the columns of its kind, its kind and type. */
  datatype ColumnDef = ColumnDef(name: string, id: nat, kind: ColumnKind, ty: ColumnType)

  /** A column, optionally subscripted by a term (c or c[sub]). */
  datatype ColumnValue = ColumnValue(col: ColumnDef, sub: Option<Term>)

  datatype Lhs = Columns(cvs: seq<ColumnValue>) | TokenLhs

  datatype BinaryOperator = BinaryOperator(lhs: Lhs, op: Operator, rhs: Term)

  datatype Expression =
    | BoolConst(b: bool)
    | Conjunction(children: seq<Expression>)
    | Atom(bop: BinaryOperator)

  /** The two ends of a range (statements::bound). */
  datatype BoundKind = Start | End

  // ---------------------------------------------------------------------------
  // Restriction objects
  // ---------------------------------------------------------------------------

  /** restriction::op and restriction::target. */
  datatype RestrictionOp = OpEQ | OpSlice | OpIN | OpContains | OpLike
  datatype Target = SingleColumn | MultipleColumns | OnToken

  /** One end of a term_slice: the bound's term and whether it is inclusive. */
  datatype SliceBound = SliceBound(term: Term, inclusive: bool)

  /** term_slice: the optional start and end of a slice restriction. */
  datatype TermSlice = TermSlice(start: Option<SliceBound>, end: Option<SliceBound>) {
    predicate HasBound(b: BoundKind) {
      if b == Start then start.Some? else end.Some?
    }

    /** term_slice::merge: takes over the bounds this slice lacks. */
    function Merge(other: TermSlice): (r: TermSlice)
      ensures forall b :: r.HasBound(b) <==> HasBound(b) || other.HasBound(b)
      ensures start.Some? ==> r.start == start
      ensures start.None? ==> r.start == other.start
      ensures end.Some? ==> r.end == end
      ensures end.None? ==> r.end == other.end
    {
      TermSlice(if start.Some? then start else other.start, if end.Some? then end else other.end)
    }
  }

  /**
   * A restriction built from one relation of the WHERE clause: its operator kind,
   * its target, the columns it restricts (the whole partition key for a token
   * restriction), its expression and, for a slice, its bounds.
   */
  datatype Restriction = Restriction(op: RestrictionOp, target: Target, columns: seq<ColumnDef>,
                                     expression: Expression, slice: TermSlice) {
    predicate IsSlice() { op == OpSlice }
    predicate IsOnToken() { target == OnToken }
    predicate IsMultiColumn() { target == MultipleColumns }
  }

  // ---------------------------------------------------------------------------
  // Walks over the atoms
  // ---------------------------------------------------------------------------

  /** The atoms of an expression, depth first and left to right. */
  function Atoms(e: Expression): seq<BinaryOperator>
    decreases e, 1
  {
    match e
    case BoolConst(_) => []
    case Atom(b) => [b]
    case Conjunction(cs) => AtomsOfAll(cs)
  }

  function AtomsOfAll(cs: seq<Expression>): seq<BinaryOperator>
    decreases cs, 0
  {
    if cs == [] then [] else Atoms(cs[0]) + AtomsOfAll(cs[1..])
  }

  /** The first element of s that f accepts. */
  function FirstMatch(s: seq<BinaryOperator>, f: BinaryOperator -> bool): (r: Option<BinaryOperator>)
    ensures r.Some? ==> r.value in s && f(r.value)
    ensures r.None? <==> forall i :: 0 <= i < |s| ==> !f(s[i])
  {
    if s == [] then None
    else if f(s[0]) then Some(s[0])
    else FirstMatch(s[1..], f)
  }

  function CountMatches(s: seq<BinaryOperator>, f: BinaryOperator -> bool): (n: nat)
    ensures n <= |s|
    ensures n == 0 <==> forall i :: 0 <= i < |s| ==> !f(s[i])
  {
    if s == [] then 0 else (if f(s[0]) then 1 else 0) + CountMatches(s[1..], f)
  }

  /** find_if: the first atom accepted by f, searching children in order. */
  function FindIf(e: Expression, f: BinaryOperator -> bool): (r: Option<BinaryOperator>)
    ensures r == FirstMatch(Atoms(e), f)
    decreases e, 1
  {
    match e
    case BoolConst(_) => None
    case Atom(b) => if f(b) then Some(b) else None
    case Conjunction(cs) => FindIfAll(cs, f)
  }

  function FindIfAll(cs: seq<Expression>, f: BinaryOperator -> bool): (r: Option<BinaryOperator>)
    ensures r == FirstMatch(AtomsOfAll(cs), f)
    decreases cs, 0
  {
    if cs == [] then None
    else
      var found := FindIf(cs[0], f);
      FirstMatchAppend(Atoms(cs[0]), AtomsOfAll(cs[1..]), f);
      if found.Some? then found else FindIfAll(cs[1..], f)
  }

  lemma {:induction false} FirstMatchAppend(a: seq<BinaryOperator>, b: seq<BinaryOperator>, f: BinaryOperator -> bool)
    ensures FirstMatch(a + b, f) == if FirstMatch(a, f).Some? then FirstMatch(a, f) else FirstMatch(b, f)
  {
    if a != [] {
      assert (a + b)[0] == a[0] && (a + b)[1..] == a[1..] + b;
      FirstMatchAppend(a[1..], b, f);
    } else {
      assert a + b == b;
    }
  }

  /** count_if: the number of atoms accepted by f. */
  function CountIf(e: Expression, f: BinaryOperator -> bool): (n: nat)
    ensures n == CountMatches(Atoms(e), f)
    decreases e, 1
  {
    match e
    case BoolConst(_) => 0
    case Atom(b) => if f(b) then 1 else 0
    case Conjunction(cs) => CountIfAll(cs, f)
  }

  function CountIfAll(cs: seq<Expression>, f: BinaryOperator -> bool): (n: nat)
    ensures n == CountMatches(AtomsOfAll(cs), f)
    decreases cs, 0
  {
    if cs == [] then 0
    else
      CountMatchesAppend(Atoms(cs[0]), AtomsOfAll(cs[1..]), f);
      CountIf(cs[0], f) + CountIfAll(cs[1..], f)
  }

  lemma {:induction false} CountMatchesAppend(a: seq<BinaryOperator>, b: seq<BinaryOperator>, f: BinaryOperator -> bool)
    ensures CountMatches(a + b, f) == CountMatches(a, f) + CountMatches(b, f)
  {
    if a != [] {
      assert (a + b)[0] == a[0] && (a + b)[1..] == a[1..] + b;
      CountMatchesAppend(a[1..], b, f);
    } else {
      assert a + b == b;
    }
  }

  /** find_if finds an atom exactly when count_if counts one. */
  lemma FindIfCountIf(e: Expression, f: BinaryOperator -> bool)
    ensures FindIf(e, f).Some? <==> CountIf(e, f) > 0
  {
  }

  /** The atom find_if returns is an atom of the expression that f accepts, and no earlier atom is. */
  lemma FindIfIsFirst(e: Expression, f: BinaryOperator -> bool)
    requires FindIf(e, f).Some?
    ensures exists i :: (0 <= i < |Atoms(e)| && Atoms(e)[i] == FindIf(e, f).value &&
                         f(Atoms(e)[i]) && forall k :: 0 <= k < i ==> !f(Atoms(e)[k]))
  {
    FirstMatchIsFirst(Atoms(e), f);
  }

  lemma {:induction false} FirstMatchIsFirst(s: seq<BinaryOperator>, f: BinaryOperator -> bool)
    requires FirstMatch(s, f).Some?
    ensures exists i :: 0 <= i < |s| && s[i] == FirstMatch(s, f).value && f(s[i]) && forall k :: 0 <= k < i ==> !f(s[k])
  {
    if !f(s[0]) {
      FirstMatchIsFirst(s[1..], f);
      var i :| 0 <= i < |s[1..]| && s[1..][i] == FirstMatch(s[1..], f).value && f(s[1..][i]) &&
        forall k :: 0 <= k < i ==> !f(s[1..][k]);
      assert s[i + 1] == s[1..][i];
      assert forall k :: 0 <= k < i + 1 ==> !f(s[k]) by {
        forall k | 0 <= k < i + 1 ensures !f(s[k]) {
          if k > 0 { assert s[k] == s[1..][k - 1]; }
        }
      }
    }
  }

  predicate HasOperator(op: Operator, b: BinaryOperator) { b.op == op }
  predicate FilteringAtom(b: BinaryOperator) { NeedsFilteringOp(b.op) }
  predicate SliceAtom(b: BinaryOperator) { IsSlice(b.op) }
  predicate TokenAtom(b: BinaryOperator) { b.lhs.TokenLhs? }

  /** find: the first atom with operator op. */
  function Find(e: Expression, op: Operator): (r: Option<BinaryOperator>)
    ensures r.Some? ==> r.value in Atoms(e) && r.value.op == op
    ensures r.None? <==> forall b :: b in Atoms(e) ==> b.op != op
  {
    FindIf(e, b => HasOperator(op, b))
  }

  /** Whether some atom needs filtering (CONTAINS, CONTAINS KEY or LIKE). */
  predicate NeedsFiltering(e: Expression)
    ensures NeedsFiltering(e) <==> exists b :: b in Atoms(e) && NeedsFilteringOp(b.op)
  {
    FindIf(e, FilteringAtom).Some?
  }

  /** Whether some atom is a slice (<, <=, >, >=). */
  predicate HasSlice(e: Expression)
    ensures HasSlice(e) <==> exists b :: b in Atoms(e) && IsSlice(b.op)
  {
    FindIf(e, SliceAtom).Some?
  }

  /** Whether some atom restricts the token. */
  predicate HasToken(e: Expression)
    ensures HasToken(e) <==> exists b :: b in Atoms(e) && b.lhs.TokenLhs?
  {
    FindIf(e, TokenAtom).Some?
  }

  /** The children of a conjunction, or the expression itself. */
  function ExplodeConjunction(e: Expression): (r: seq<Expression>)
    ensures AtomsOfAll(r) == Atoms(e)
  {
    match e
    case Conjunction(cs) => cs
    case _ =>
      assert AtomsOfAll([e][1..]) == [];
      [e]
  }

  /** make_conjunction: the conjunction of a and b, one level deep. */
  function MakeConjunction(a: Expression, b: Expression): (r: Expression)
    ensures r.Conjunction? && r.children == ExplodeConjunction(a) + ExplodeConjunction(b)
    ensures Atoms(r) == Atoms(a) + Atoms(b)
  {
    AtomsOfAllAppend(ExplodeConjunction(a), ExplodeConjunction(b));
    Conjunction(ExplodeConjunction(a) + ExplodeConjunction(b))
  }

  lemma {:induction false} AtomsOfAllAppend(a: seq<Expression>, b: seq<Expression>)
    ensures AtomsOfAll(a + b) == AtomsOfAll(a) + AtomsOfAll(b)
  {
    if a != [] {
      assert (a + b)[0] == a[0] && (a + b)[1..] == a[1..] + b;
      AtomsOfAllAppend(a[1..], b);
    } else {
      assert a + b == b;
    }
  }

  /** Conjoining is associative. */
  lemma MakeConjunctionAssociative(a: Expression, b: Expression, c: Expression)
    ensures MakeConjunction(MakeConjunction(a, b), c) == MakeConjunction(a, MakeConjunction(b, c))
  {
    var ea, eb, ec := ExplodeConjunction(a), ExplodeConjunction(b), ExplodeConjunction(c);
    assert (ea + eb) + ec == ea + (eb + ec);
  }

  /** The empty conjunction is an identity on conjunctions. */
  lemma MakeConjunctionIdentity(a: Expression)
    requires a.Conjunction?
    ensures MakeConjunction(Conjunction([]), a) == a
    ensures MakeConjunction(a, Conjunction([])) == a
  {
    assert [] + a.children == a.children;
    assert a.children + [] == a.children;
  }

  // ---------------------------------------------------------------------------
  // Bounds and value sets
  // ---------------------------------------------------------------------------

  /** The comparator a bound was built with (only its identity matters: bound equality compares it). */
  datatype TypeRef = NoType | LongType | TypeOf(id: nat)

  datatype UpperBound = UpperBound(value: Bytes, inclusive: bool, ty: TypeRef)
  datatype LowerBound = LowerBound(value: Bytes, inclusive: bool, ty: TypeRef)

  predicate UpperIncludes(b: UpperBound, v: Bytes)
    ensures UpperIncludes(b, v) <==> Less(v, b.value) || (v == b.value && b.inclusive)
  {
    var cmp := Compare(v, b.value);
    cmp < 0 || (cmp == 0 && b.inclusive)
  }

  predicate LowerIncludes(b: LowerBound, v: Bytes)
    ensures LowerIncludes(b, v) <==> Less(b.value, v) || (v == b.value && b.inclusive)
  {
    CompareAntisymmetric(v, b.value);
    var cmp := Compare(v, b.value);
    cmp > 0 || (cmp == 0 && b.inclusive)
  }

  /** lower_bound::operator<: a includes b's value and differs from b; the looser bound is the smaller. */
  predicate LowerLess(a: LowerBound, b: LowerBound) {
    LowerIncludes(a, b.value) && a != b
  }

  /** A smaller lower bound includes everything the larger one does. */
  lemma LowerLessLooser(a: LowerBound, b: LowerBound, v: Bytes)
    requires LowerLess(a, b) && LowerIncludes(b, v)
    ensures LowerIncludes(a, v)
  {
    if Less(a.value, b.value) && Less(b.value, v) {
      LessTransitive(a.value, b.value, v);
    }
  }

  /** A lower bound that is not smaller includes nothing the other one excludes. */
  lemma LowerNotLessTighter(a: LowerBound, b: LowerBound, v: Bytes)
    requires !LowerLess(a, b) && LowerIncludes(a, v)
    ensures LowerIncludes(b, v)
  {
    LessTrichotomy(a.value, b.value);
    if Less(b.value, a.value) && Less(a.value, v) {
      LessTransitive(b.value, a.value, v);
    }
  }

  /** An interval of values between two optional bounds. */
  datatype ValueInterval = ValueInterval(lb: Option<LowerBound>, ub: Option<UpperBound>)

  /** value_interval::includes: a null element is never included; each present bound must include it. */
  predicate IntervalIncludes(i: ValueInterval, el: Option<Bytes>) {
    if el.None? then false
    else if i.lb.Some? && !LowerIncludes(i.lb.value, el.value) then false
    else if i.ub.Some? && !UpperIncludes(i.ub.value, el.value) then false
    else true
  }

  /** A set of values: a strictly sorted list of discrete values, or an interval. */
  datatype ValueSet = ValueList(values: seq<Bytes>) | Interval(ivl: ValueInterval)

  const EmptyValueSet: ValueSet := ValueList([])
  const UnboundedValueSet: ValueSet := Interval(ValueInterval(None, None))

  /** The value_list invariant: sorted and deduplicated. */
  predicate ValidValueSet(s: ValueSet) {
    s.ValueList? ==> StrictlySorted(s.values)
  }

  predicate Contains(s: ValueSet, v: Bytes) {
    match s
    case ValueList(vs) => v in vs
    case Interval(i) => IntervalIncludes(i, Some(v))
  }

  /** Null is in no interval; an interval without bounds holds every non-null value. */
  lemma IntervalNull(i: ValueInterval, el: Option<Bytes>)
    ensures !IntervalIncludes(i, None)
    ensures i.lb.None? && i.ub.None? ==> (IntervalIncludes(i, el) <==> el.Some?)
  {
  }

  lemma EmptyAndUnbounded(v: Bytes)
    ensures !Contains(EmptyValueSet, v) && Contains(UnboundedValueSet, v)
  {
  }
}
