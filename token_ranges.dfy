/**
 * Token restrictions: `token(pk) op value` relations, the ring ranges they
 * select, and the token-restriction object that collects them.
 */
module TokenRanges {
  import opened Wrappers
  import opened Values
  import opened Terms
  import opened Restrictions
  import opened ValueSets

  /** A token of the ring: the minimum marker, a key's token, or the maximum marker. */
  datatype Token = MinToken | KeyToken(t: Bytes) | MaxToken

  /** dht::token::from_bytes: the empty value reads as the minimum marker. */
  function TokenFromBytes(b: Bytes): Token {
    if b == [] then MinToken else KeyToken(b)
  }

  predicate TokenLess(a: Token, b: Token) {
    match (a, b)
    case (MinToken, MinToken) => false
    case (MinToken, _) => true
    case (KeyToken(x), KeyToken(y)) => Less(x, y)
    case (KeyToken(_), MaxToken) => true
    case _ => false
  }

  lemma TokenOrder(a: Token, b: Token, c: Token)
    ensures TokenLess(a, b) || a == b || TokenLess(b, a)
    ensures !(TokenLess(a, b) && TokenLess(b, a))
    ensures TokenLess(a, b) && TokenLess(b, c) ==> TokenLess(a, c)
  {
    if a.KeyToken? && b.KeyToken? { LessTrichotomy(a.t, b.t); }
    if a.KeyToken? && b.KeyToken? && c.KeyToken? && TokenLess(a, b) && TokenLess(b, c) {
      LessTransitive(a.t, b.t, c.t);
    }
  }

  /**
   * A position on the ring: before every key of a token (starting_at), at a key
   * with that token, or after every key of the token (ending_at).
   */
  datatype Side = StartingAt | AtKey | EndingAt
  datatype RingPosition = RingPosition(token: Token, side: Side)

  function SideRank(s: Side): int {
    match s
    case StartingAt => 0
    case AtKey => 1
    case EndingAt => 2
  }

  predicate PosLe(a: RingPosition, b: RingPosition) {
    TokenLess(a.token, b.token) || (a.token == b.token && SideRank(a.side) <= SideRank(b.side))
  }

  lemma PosOrder(a: RingPosition, b: RingPosition, c: RingPosition)
    ensures PosLe(a, b) || PosLe(b, a)
    ensures PosLe(a, b) && PosLe(b, a) ==> a == b
    ensures PosLe(a, b) && PosLe(b, c) ==> PosLe(a, c)
  {
    TokenOrder(a.token, b.token, c.token);
    TokenOrder(b.token, c.token, a.token);
    TokenOrder(c.token, a.token, b.token);
  }

  /** A non-wrapping range of ring positions; a present bound is inclusive, an absent one open. */
  datatype TokenRange = TokenRange(start: Option<RingPosition>, end: Option<RingPosition>)

  const EntireRing := TokenRange(None, None)

  predicate InRange(r: TokenRange, p: RingPosition) {
    (r.start.None? || PosLe(r.start.value, p)) && (r.end.None? || PosLe(p, r.end.value))
  }

  /** Whether a key whose token is t falls in one of the ranges. */
  predicate Covers(rs: seq<TokenRange>, t: Token) {
    exists k :: 0 <= k < |rs| && InRange(rs[k], RingPosition(t, AtKey))
  }

  function MaxStart(a: Option<RingPosition>, b: Option<RingPosition>): Option<RingPosition> {
    if a.None? then b else if b.None? then a else if PosLe(a.value, b.value) then b else a
  }

  function MinEnd(a: Option<RingPosition>, b: Option<RingPosition>): Option<RingPosition> {
    if a.None? then b else if b.None? then a else if PosLe(a.value, b.value) then a else b
  }

  /** nonwrapping_range::intersection: the common part of two ranges, None when they do not meet. */
  function Intersection(a: TokenRange, b: TokenRange): (r: Option<TokenRange>)
    ensures forall p :: (r.Some? && InRange(r.value, p)) <==> InRange(a, p) && InRange(b, p)
  {
    var s := MaxStart(a.start, b.start);
    var e := MinEnd(a.end, b.end);
    IntersectionMeaning(a, b);
    if s.Some? && e.Some? && !PosLe(s.value, e.value) then None else Some(TokenRange(s, e))
  }

  lemma IntersectionMeaning(a: TokenRange, b: TokenRange)
    ensures forall p :: InRange(TokenRange(MaxStart(a.start, b.start), MinEnd(a.end, b.end)), p) <==>
                        InRange(a, p) && InRange(b, p)
    ensures var s, e := MaxStart(a.start, b.start), MinEnd(a.end, b.end);
      s.Some? && e.Some? && !PosLe(s.value, e.value) ==> forall p :: !(InRange(a, p) && InRange(b, p))
  {
    forall p ensures InRange(TokenRange(MaxStart(a.start, b.start), MinEnd(a.end, b.end)), p) <==>
                     InRange(a, p) && InRange(b, p) {
      if a.start.Some? && b.start.Some? { PosOrder(a.start.value, b.start.value, p); PosOrder(b.start.value, a.start.value, p); }
      if a.end.Some? && b.end.Some? {
        PosOrder(p, a.end.value, b.end.value); PosOrder(p, b.end.value, a.end.value); PosOrder(a.end.value, b.end.value, p);
      }
    }
    var s, e := MaxStart(a.start, b.start), MinEnd(a.end, b.end);
    if s.Some? && e.Some? && !PosLe(s.value, e.value) {
      forall p | InRange(a, p) && InRange(b, p) ensures false {
        PosOrder(s.value, p, e.value);
      }
    }
  }

  // ---------------------------------------------------------------------------
  // get_token_range
  // ---------------------------------------------------------------------------

  /** The range a token atom with a non-null value selects. */
  function TokenAtomRange(op: Operator, tok: Token): seq<TokenRange> {
    if op == EQ then [TokenRange(Some(RingPosition(tok, StartingAt)), Some(RingPosition(tok, EndingAt)))]
    else if op == GT then [TokenRange(Some(RingPosition(tok, EndingAt)), None)]
    else if op == GTE then [TokenRange(Some(RingPosition(tok, StartingAt)), None)]
    // `token < min` and `token <= min` are read as `token < max` and `token <= max`.
    else if op == LT then [TokenRange(None, Some(RingPosition(if tok == MinToken then MaxToken else tok, StartingAt)))]
    else if op == LTE then [TokenRange(None, Some(RingPosition(if tok == MinToken then MaxToken else tok, EndingAt)))]
    else [EntireRing]
  }

  /** get_token_range on an atom: a null value selects nothing, an atom not on the token everything. */
  function AtomTokenRange(b: BinaryOperator, o: Options): (r: Result<seq<TokenRange>>)
    ensures r.Ok? ==> |r.value| <= 1
    ensures !b.lhs.TokenLhs? ==> r == Ok([EntireRing])
    ensures b.lhs.TokenLhs? && BindAndGet(b.rhs, o) == Ok(None) ==> r == Ok([])
  {
    if b.lhs.TokenLhs? then
      var val :- BindAndGet(b.rhs, o);
      if val.None? then Ok([]) else Ok(TokenAtomRange(b.op, TokenFromBytes(val.value)))
    else Ok([EntireRing])
  }

  /**
   * get_token_range as written.  The fold over a conjunction starts from an
   * empty optional and returns any empty accumulator unchanged, so it never
   * looks at a child and always yields no range.
   */
  function GetTokenRangeAsWritten(e: Expression, o: Options): (r: Result<seq<TokenRange>>)
    ensures e.Conjunction? ==> r == Ok([])
  {
    match e
    case BoolConst(b) => Ok(if b then [EntireRing] else [])
    case Atom(b) => AtomTokenRange(b, o)
    case Conjunction(cs) => Ok(ConjoinAsWritten(None, cs, o))
  }

  function ConjoinAsWritten(acc: Option<TokenRange>, cs: seq<Expression>, o: Options): (r: seq<TokenRange>)
    requires acc.None?
    ensures r == []
  {
    if cs == [] then (if acc.Some? then [acc.value] else []) else ConjoinAsWritten(acc, cs[1..], o)
  }

  /** The as-written fold selects nothing for the empty conjunction, which restricts nothing. */
  lemma EmptyConjunctionSelectsNothing(o: Options)
    ensures GetTokenRangeAsWritten(Conjunction([]), o) == Ok([])
    ensures GetTokenRange(Conjunction([]), o) == Ok([EntireRing])
  {
  }

  /** get_token_range with the fold started from the entire ring: a conjunction selects the intersection. */
  function GetTokenRange(e: Expression, o: Options): (r: Result<seq<TokenRange>>)
    ensures r.Ok? ==> |r.value| <= 1
    decreases e, 1
  {
    match e
    case BoolConst(b) => Ok(if b then [EntireRing] else [])
    case Atom(b) => AtomTokenRange(b, o)
    case Conjunction(cs) =>
      var acc :- Conjoin(Some(EntireRing), cs, o);
      Ok(if acc.Some? then [acc.value] else [])
  }

  /** The accumulate step: an empty accumulator or child range empties the result; otherwise intersect. */
  function Conjoin(acc: Option<TokenRange>, cs: seq<Expression>, o: Options): (r: Result<Option<TokenRange>>)
    decreases cs, 0
  {
    if cs == [] || acc.None? then Ok(acc)
    else
      var child :- GetTokenRange(cs[0], o);
      if child == [] then Conjoin(None, cs[1..], o)
      else Conjoin(Intersection(acc.value, child[0]), cs[1..], o)
  }

  /** A key's token is in a conjunction's range exactly when it is in every child's range. */
  lemma {:induction false} ConjunctionRange(cs: seq<Expression>, o: Options, t: Token)
    requires GetTokenRange(Conjunction(cs), o).Ok?
    ensures Covers(GetTokenRange(Conjunction(cs), o).value, t) <==>
      forall k :: 0 <= k < |cs| ==> GetTokenRange(cs[k], o).Ok? && Covers(GetTokenRange(cs[k], o).value, t)
  {
    ConjoinRange(Some(EntireRing), cs, o, t);
    var r := Conjoin(Some(EntireRing), cs, o).value;
    if r.Some? {
      var rs := [r.value];
      assert rs[0] == r.value;
      assert Covers(rs, t) <==> InRange(rs[0], RingPosition(t, AtKey));
    }
  }

  lemma {:induction false} ConjoinRange(acc: Option<TokenRange>, cs: seq<Expression>, o: Options, t: Token)
    requires Conjoin(acc, cs, o).Ok?
    ensures var r := Conjoin(acc, cs, o).value;
      (r.Some? && InRange(r.value, RingPosition(t, AtKey))) <==>
      (acc.Some? && InRange(acc.value, RingPosition(t, AtKey))) &&
      forall k :: 0 <= k < |cs| ==> GetTokenRange(cs[k], o).Ok? && Covers(GetTokenRange(cs[k], o).value, t)
    decreases cs
  {
    var p := RingPosition(t, AtKey);
    if cs != [] && acc.Some? {
      var child := GetTokenRange(cs[0], o).value;
      var next := if child == [] then None else Intersection(acc.value, child[0]);
      ConjoinRange(next, cs[1..], o, t);
      assert forall k :: 1 <= k < |cs| ==> cs[k] == cs[1..][k - 1];
      assert Covers(child, t) <==> child != [] && InRange(child[0], p);
      if Conjoin(acc, cs, o).value.Some? && InRange(Conjoin(acc, cs, o).value.value, p) {
        forall k | 0 <= k < |cs| ensures GetTokenRange(cs[k], o).Ok? && Covers(GetTokenRange(cs[k], o).value, t) {
        }
      }
    } else if cs != [] {
      ConjoinNone(cs, o);
    }
  }

  lemma {:induction false} ConjoinNone(cs: seq<Expression>, o: Options)
    ensures Conjoin(None, cs, o) == Ok(None)
  {
  }

  /** What a token atom with a key's token on its right selects, operator by operator. */
  lemma TokenAtomMeaning(op: Operator, v: Bytes, k: Bytes)
    requires v != [] && (op == EQ || IsSlice(op))
    ensures Covers(TokenAtomRange(op, TokenFromBytes(v)), KeyToken(k)) <==>
      match op
      case EQ => k == v
      case GT => Less(v, k)
      case GTE => Less(v, k) || k == v
      case LT => Less(k, v)
      case _ => Less(k, v) || k == v
  {
    var rs := TokenAtomRange(op, TokenFromBytes(v));
    assert Covers(rs, KeyToken(k)) <==> InRange(rs[0], RingPosition(KeyToken(k), AtKey));
    LessTrichotomy(k, v);
  }

  /** `token < min` selects every key, like `token < max`. */
  lemma BelowMinimumMeansBelowMaximum(op: Operator, k: Bytes)
    requires op == LT || op == LTE
    ensures Covers(TokenAtomRange(op, TokenFromBytes([])), KeyToken(k))
  {
    assert InRange(TokenAtomRange(op, TokenFromBytes([]))[0], RingPosition(KeyToken(k), AtKey));
  }

  // ---------------------------------------------------------------------------
  // token_restriction::bounds_ranges
  // ---------------------------------------------------------------------------

  /** The bounds' tokens: a missing bound is the ring's end, and a minimum marker at the end means the maximum. */
  function StartToken(i: ValueInterval): Token {
    if i.lb.Some? then TokenFromBytes(i.lb.value.value) else MinToken
  }

  function EndToken(i: ValueInterval): (t: Token)
    ensures t != MinToken
  {
    var t := if i.ub.Some? then TokenFromBytes(i.ub.value.value) else MaxToken;
    if t == MinToken then MaxToken else t
  }

  /** The range an interval of token values selects: empty when it is backwards or a half-open single point. */
  function IntervalRanges(i: ValueInterval): (r: seq<TokenRange>)
    ensures r == [] <==> (TokenLess(EndToken(i), StartToken(i)) ||
      (StartToken(i) == EndToken(i) && !(i.lb.Some? && i.lb.value.inclusive && i.ub.Some? && i.ub.value.inclusive)))
  {
    var s, e := StartToken(i), EndToken(i);
    var includeStart := i.lb.Some? && i.lb.value.inclusive;
    var includeEnd := i.ub.Some? && i.ub.value.inclusive;
    if TokenLess(e, s) || (s == e && (!includeStart || !includeEnd)) then []
    else
      [TokenRange(Some(RingPosition(s, if includeStart then StartingAt else EndingAt)),
                  Some(RingPosition(e, if includeEnd then EndingAt else StartingAt)))]
  }

  /** bounds_ranges: the ring range of the restriction's token interval. */
  function BoundsRanges(e: Expression, o: Options): (r: Result<seq<TokenRange>>)
    ensures r.Ok? ==> |r.value| <= 1
  {
    var values :- PossibleLhsValues(e, o);
    var i :- ToInterval(values);
    Ok(IntervalRanges(i))
  }

  /** A key is in the range exactly when its token satisfies both bounds, each inclusive or not. */
  lemma IntervalRangesMeaning(i: ValueInterval, k: Bytes)
    ensures Covers(IntervalRanges(i), KeyToken(k)) <==>
      (var s := StartToken(i); if i.lb.Some? && i.lb.value.inclusive then !TokenLess(KeyToken(k), s) else TokenLess(s, KeyToken(k))) &&
      (var e := EndToken(i); if i.ub.Some? && i.ub.value.inclusive then !TokenLess(e, KeyToken(k)) else TokenLess(KeyToken(k), e))
  {
    var s, e, t := StartToken(i), EndToken(i), KeyToken(k);
    TokenOrder(s, t, e);
    TokenOrder(t, e, s);
    TokenOrder(e, s, t);
    var rs := IntervalRanges(i);
    if rs != [] {
      assert Covers(rs, t) <==> InRange(rs[0], RingPosition(t, AtKey));
    }
  }

  // ---------------------------------------------------------------------------
  // The token restriction object
  // ---------------------------------------------------------------------------

  datatype TokenKind = TokenEQ | TokenSlice

  /** token_restriction and its EQ and slice kinds: the restricted partition key columns and the expression. */
  class TokenRestriction {
    const kind: TokenKind
    const columns: seq<ColumnDef>
    var expression: Expression
    var slice: TermSlice

    constructor (kind: TokenKind, columns: seq<ColumnDef>, expression: Expression, slice: TermSlice)
      ensures this.kind == kind && this.columns == columns
      ensures this.expression == expression && this.slice == slice
    {
      this.kind := kind;
      this.columns := columns;
      this.expression := expression;
      this.slice := slice;
    }

    /** merge_to: conjoins the new restriction's expression; the object stays the partition key restrictions. */
    method MergeTo(r: Restriction)
      modifies this
      ensures expression == MakeConjunction(old(expression), r.expression)
      ensures Atoms(expression) == Atoms(old(expression)) + Atoms(r.expression)
      ensures slice == old(slice)
    {
      expression := MakeConjunction(expression, r.expression);
    }

    /**
     * merge_with: an EQ token restriction takes no other relation; a slice takes
     * only another token slice that adds a bound it lacks.
     */
    method MergeWith(r: Restriction) returns (out: Outcome)
      modifies this
      ensures kind == TokenEQ ==> out == Fail(InvalidRequest)
      ensures kind == TokenSlice ==> (out == Pass <==>
        r.IsOnToken() && r.IsSlice() && !(old(slice).HasBound(Start) && r.slice.HasBound(Start)) &&
        !(old(slice).HasBound(End) && r.slice.HasBound(End)))
      ensures out.Fail? ==> out.error == InvalidRequest && slice == old(slice)
      ensures out == Pass ==> slice == old(slice).Merge(r.slice)
      ensures expression == old(expression)
    {
      if kind == TokenEQ {
        return Fail(InvalidRequest);
      }
      if !r.IsOnToken() {
        return Fail(InvalidRequest);
      }
      if !r.IsSlice() {
        return Fail(InvalidRequest);
      }
      if slice.HasBound(Start) && r.slice.HasBound(Start) {
        return Fail(InvalidRequest);
      }
      if slice.HasBound(End) && r.slice.HasBound(End) {
        return Fail(InvalidRequest);
      }
      slice := slice.Merge(r.slice);
      return Pass;
    }
  }
}
