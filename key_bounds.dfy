/**
 * The restrictions on the partition key or on the clustering key made of one
 * single-column restriction per column: how relations are merged into them, the
 * keys and key ranges they select, and how much of them can be applied without
 * filtering.
 */
module KeyBounds {
  import opened Wrappers
  import opened Values
  import opened Terms
  import opened Restrictions
  import opened ValueSets
  import opened KeyRanges

  predicate SingleColumnRestriction(r: Restriction) {
    r.target == SingleColumn && |r.columns| == 1
  }

  /** The schema position of a single-column restriction's column. */
  function Position(r: Restriction): nat
    requires SingleColumnRestriction(r)
  {
    r.columns[0].id
  }

  /** The restrictions map: one single-column restriction per column, in schema position order. */
  predicate ByPosition(rs: seq<Restriction>) {
    (forall k :: 0 <= k < |rs| ==> SingleColumnRestriction(rs[k])) &&
    (forall j, k :: 0 <= j < k < |rs| ==> Position(rs[j]) < Position(rs[k]))
  }

  function Positions(rs: seq<Restriction>): set<nat>
    requires ByPosition(rs)
  {
    set k | 0 <= k < |rs| :: Position(rs[k])
  }

  /**
   * Adding a relation on a column that is already restricted: a LIKE restriction
   * takes only LIKE relations; otherwise the relation is conjoined into the
   * column's restriction and its slice bounds are merged in.
   */
  function MergeSameColumn(existing: Restriction, r: Restriction): (m: Result<Restriction>)
    ensures m.Err? <==> existing.op == OpLike && r.op != OpLike
    ensures m.Err? ==> m.error == InvalidRequest
    ensures m.Ok? ==> m.value.op == existing.op && m.value.target == existing.target && m.value.columns == existing.columns
    ensures m.Ok? ==> Atoms(m.value.expression) == Atoms(existing.expression) + Atoms(r.expression)
  {
    if existing.op == OpLike && r.op != OpLike then Err(InvalidRequest)
    else Ok(existing.(expression := MakeConjunction(existing.expression, r.expression),
                      slice := existing.slice.Merge(r.slice)))
  }

  /**
   * What adding r to rs yields: the restrictions map stays ordered, gains r's
   * column, holds r itself when that column was new, and keeps every restriction
   * on another column.
   */
  ghost predicate AddedBy(rs: seq<Restriction>, r: Restriction, out: seq<Restriction>)
    requires ByPosition(rs) && SingleColumnRestriction(r)
  {
    ByPosition(out) && Positions(out) == Positions(rs) + {Position(r)} &&
    (Position(r) !in Positions(rs) ==> |out| == |rs| + 1 && r in out) &&
    (forall x :: x in rs && Position(x) != Position(r) ==> x in out)
  }

  /** single_column_restrictions::add_restriction: a new column is inserted in position order, a known one merged. */
  function AddRestriction(rs: seq<Restriction>, r: Restriction): (res: Result<seq<Restriction>>)
    requires ByPosition(rs) && SingleColumnRestriction(r)
    ensures res.Ok? ==> AddedBy(rs, r, res.value)
    ensures res.Err? ==> res.error == InvalidRequest
    decreases |rs|
  {
    if rs == [] then
      AddToEmpty(r);
      Ok([r])
    else if Position(r) < Position(rs[0]) then
      AddBeforeFirst(rs, r);
      Ok([r] + rs)
    else if Position(r) == Position(rs[0]) then
      var merged :- MergeSameColumn(rs[0], r);
      AddByMerge(rs, r, merged);
      Ok([merged] + rs[1..])
    else
      ByPositionTail(rs);
      var rest :- AddRestriction(rs[1..], r);
      AddAfterFirst(rs, r, rest);
      Ok([rs[0]] + rest)
  }

  lemma AddToEmpty(r: Restriction)
    requires SingleColumnRestriction(r)
    ensures AddedBy([], r, [r])
  {
    assert [r][0] == r;
    assert Positions([r]) == {Position(r)};
  }

  lemma AddBeforeFirst(rs: seq<Restriction>, r: Restriction)
    requires ByPosition(rs) && SingleColumnRestriction(r) && rs != [] && Position(r) < Position(rs[0])
    ensures AddedBy(rs, r, [r] + rs)
  {
    assert forall k :: 0 <= k < |rs| ==> Position(r) < Position(rs[k]) by {
      forall k | 0 < k < |rs| ensures Position(rs[0]) < Position(rs[k]) { }
    }
    ConsByPosition(r, rs);
    PositionsCons(r, rs);
    var out := [r] + rs;
    assert out[0] == r;
    forall x | x in rs ensures x in out {
      var k :| 0 <= k < |rs| && rs[k] == x;
      assert out[k + 1] == x;
    }
  }

  lemma AddByMerge(rs: seq<Restriction>, r: Restriction, merged: Restriction)
    requires ByPosition(rs) && SingleColumnRestriction(r) && rs != [] && Position(r) == Position(rs[0])
    requires merged.target == rs[0].target && merged.columns == rs[0].columns
    ensures AddedBy(rs, r, [merged] + rs[1..])
  {
    var tail := rs[1..];
    assert rs == [rs[0]] + tail;
    PositionsCons(rs[0], tail);
    BelowTail(rs);
    ConsByPosition(merged, tail);
    PositionsCons(merged, tail);
    assert Position(rs[0]) in Positions(rs);
    KeptByMerge(rs, r, merged);
  }

  lemma BelowTail(rs: seq<Restriction>)
    requires ByPosition(rs) && rs != []
    ensures forall k :: 0 <= k < |rs[1..]| ==> Position(rs[0]) < Position(rs[1..][k])
  {
    forall k | 0 <= k < |rs[1..]| ensures Position(rs[0]) < Position(rs[1..][k]) {
      assert rs[1..][k] == rs[k + 1];
    }
  }

  lemma KeptByMerge(rs: seq<Restriction>, r: Restriction, merged: Restriction)
    requires ByPosition(rs) && SingleColumnRestriction(r) && rs != [] && Position(r) == Position(rs[0])
    ensures forall x :: x in rs && Position(x) != Position(r) ==> x in [merged] + rs[1..]
  {
    var out := [merged] + rs[1..];
    forall x | x in rs && Position(x) != Position(r) ensures x in out {
      var k :| 0 <= k < |rs| && rs[k] == x;
      assert k != 0;
      assert out[k] == x;
    }
  }

  lemma AddAfterFirst(rs: seq<Restriction>, r: Restriction, rest: seq<Restriction>)
    requires ByPosition(rs) && SingleColumnRestriction(r) && rs != [] && Position(rs[0]) < Position(r)
    requires ByPosition(rs[1..]) && AddedBy(rs[1..], r, rest)
    ensures AddedBy(rs, r, [rs[0]] + rest)
  {
    AboveFirst(rs, r, rest);
    ConsByPosition(rs[0], rest);
    PositionsAfterFirst(rs, r, rest);
    KeptAfterFirst(rs, r, rest);
    if Position(r) !in Positions(rs) {
      NewColumnAfterFirst(rs, r, rest);
    }
  }

  lemma PositionsAfterFirst(rs: seq<Restriction>, r: Restriction, rest: seq<Restriction>)
    requires ByPosition(rs) && SingleColumnRestriction(r) && rs != [] && ByPosition(rs[1..])
    requires ByPosition(rest) && ByPosition([rs[0]] + rest) && Positions(rest) == Positions(rs[1..]) + {Position(r)}
    ensures Positions([rs[0]] + rest) == Positions(rs) + {Position(r)}
  {
    assert rs == [rs[0]] + rs[1..];
    PositionsCons(rs[0], rs[1..]);
    PositionsCons(rs[0], rest);
  }

  lemma NewColumnAfterFirst(rs: seq<Restriction>, r: Restriction, rest: seq<Restriction>)
    requires ByPosition(rs) && SingleColumnRestriction(r) && rs != [] && ByPosition(rs[1..])
    requires Position(r) !in Positions(rs)
    requires Position(r) !in Positions(rs[1..]) ==> |rest| == |rs[1..]| + 1 && r in rest
    ensures |[rs[0]] + rest| == |rs| + 1 && r in [rs[0]] + rest
  {
    assert Position(r) !in Positions(rs[1..]);
  }

  lemma AboveFirst(rs: seq<Restriction>, r: Restriction, rest: seq<Restriction>)
    requires ByPosition(rs) && SingleColumnRestriction(r) && rs != [] && Position(rs[0]) < Position(r)
    requires ByPosition(rs[1..]) && ByPosition(rest) && Positions(rest) == Positions(rs[1..]) + {Position(r)}
    ensures forall k :: 0 <= k < |rest| ==> Position(rs[0]) < Position(rest[k])
  {
    forall k | 0 <= k < |rest| ensures Position(rs[0]) < Position(rest[k]) {
      assert Position(rest[k]) in Positions(rest);
      if Position(rest[k]) != Position(r) {
        var j :| 0 <= j < |rs[1..]| && Position(rs[1..][j]) == Position(rest[k]);
        assert rs[1..][j] == rs[j + 1];
      }
    }
  }

  lemma KeptAfterFirst(rs: seq<Restriction>, r: Restriction, rest: seq<Restriction>)
    requires ByPosition(rs) && SingleColumnRestriction(r) && rs != []
    requires forall x :: x in rs[1..] && Position(x) != Position(r) ==> x in rest
    ensures forall x :: x in rs && Position(x) != Position(r) ==> x in [rs[0]] + rest
  {
    var out := [rs[0]] + rest;
    assert out[0] == rs[0];
    forall x | x in rs && Position(x) != Position(r) ensures x in out {
      var k :| 0 <= k < |rs| && rs[k] == x;
      if k > 0 {
        assert rs[1..][k - 1] == x;
      }
    }
  }

  lemma ConsByPosition(x: Restriction, rs: seq<Restriction>)
    requires SingleColumnRestriction(x) && ByPosition(rs)
    requires forall k :: 0 <= k < |rs| ==> Position(x) < Position(rs[k])
    ensures ByPosition([x] + rs)
  {
    var s := [x] + rs;
    forall j, k | 0 <= j < k < |s| ensures Position(s[j]) < Position(s[k]) {
      if j > 0 { assert s[j] == rs[j - 1]; }
      assert s[k] == rs[k - 1];
    }
  }

  lemma PositionsCons(x: Restriction, rs: seq<Restriction>)
    requires SingleColumnRestriction(x) && ByPosition([x] + rs)
    ensures ByPosition(rs) && Positions([x] + rs) == {Position(x)} + Positions(rs)
  {
    var s := [x] + rs;
    assert forall k :: 0 <= k < |rs| ==> rs[k] == s[k + 1];
    assert ByPosition(rs) by {
      forall j, k | 0 <= j < k < |rs| ensures Position(rs[j]) < Position(rs[k]) {
        assert rs[j] == s[j + 1] && rs[k] == s[k + 1];
      }
    }
    forall p | p in Positions(s) ensures p in {Position(x)} + Positions(rs) {
      var k :| 0 <= k < |s| && Position(s[k]) == p;
      if k > 0 { assert s[k] == rs[k - 1]; }
    }
    forall p | p in Positions(rs) ensures p in Positions(s) {
      var k :| 0 <= k < |rs| && Position(rs[k]) == p;
      assert s[k + 1] == rs[k];
    }
    assert s[0] == x;
  }

  lemma ByPositionTail(rs: seq<Restriction>)
    requires ByPosition(rs) && rs != []
    ensures ByPosition(rs[1..])
  {
    forall j, k | 0 <= j < k < |rs| - 1 ensures Position(rs[1..][j]) < Position(rs[1..][k]) {
      assert rs[1..][j] == rs[j + 1] && rs[1..][k] == rs[k + 1];
    }
  }

  lemma ByPositionPrefix(rs: seq<Restriction>, n: nat)
    requires ByPosition(rs) && n <= |rs|
    ensures ByPosition(rs[..n])
  {
    var p := rs[..n];
    forall j, k | 0 <= j < k < n ensures Position(p[j]) < Position(p[k]) {
      assert p[j] == rs[j] && p[k] == rs[k];
    }
  }

  /** Adding a column after every restricted one appends it. */
  lemma {:induction false} AddAfterLast(rs: seq<Restriction>, r: Restriction)
    requires ByPosition(rs + [r])
    ensures ByPosition(rs) && SingleColumnRestriction(r) && AddRestriction(rs, r) == Ok(rs + [r])
    decreases |rs|
  {
    var s := rs + [r];
    assert s[|rs|] == r;
    assert rs == s[..|rs|];
    ByPositionPrefix(s, |rs|);
    if rs != [] {
      assert s[0] == rs[0];
      assert Position(rs[0]) < Position(r);
      assert s[1..] == rs[1..] + [r];
      ByPositionTail(s);
      AddAfterLast(rs[1..], r);
      assert [rs[0]] + (rs[1..] + [r]) == rs + [r];
    }
  }

  // ---------------------------------------------------------------------------
  // values_as_keys
  // ---------------------------------------------------------------------------

  /**
   * The value list of every restriction from index i on, appended to acc; None as
   * soon as one list is empty.  A slice, or a restriction whose values are an
   * interval, is a logic error.
   */
  function ValueVector(rs: seq<Restriction>, i: nat, acc: seq<seq<Bytes>>, o: Options): (r: Result<Option<seq<seq<Bytes>>>>)
    requires i <= |rs|
    decreases |rs| - i
  {
    if i == |rs| then Ok(Some(acc))
    else if rs[i].IsSlice() then Err(LogicError)
    else
      var vs :- PossibleLhsValues(rs[i].expression, o);
      if vs.Interval? then Err(LogicError)
      else if vs.values == [] then Ok(None)
      else ValueVector(rs, i + 1, acc + [vs.values], o)
  }

  /** check_cartesian_product_size: a product larger than the configured maximum is a runtime error. */
  function CheckProductSize(size: nat, max: nat): (out: Outcome)
    ensures out.Fail? <==> size > max
    ensures out.Fail? ==> out.error == RuntimeError
  {
    if size > max then Fail(RuntimeError) else Pass
  }

  /** values_as_keys: the keys of every combination of the columns' values. */
  function KeysOf(rs: seq<Restriction>, o: Options, max: nat): Result<seq<Key>> {
    var vv :- ValueVector(rs, 0, [], o);
    if vv.None? then Ok([])
    else
      if CheckProductSize(ProductSize(vv.value), max).Fail? then Err(RuntimeError)
      else Ok(Product(vv.value))
  }

  /** The value lists collected so far are those of the restrictions before index i. */
  predicate ListsOf(rs: seq<Restriction>, vec: seq<seq<Bytes>>, o: Options) {
    |vec| <= |rs| && forall j :: 0 <= j < |vec| ==> PossibleLhsValues(rs[j].expression, o) == Ok(ValueList(vec[j]))
  }

  lemma {:induction false} ValueVectorMeaning(rs: seq<Restriction>, i: nat, acc: seq<seq<Bytes>>, o: Options)
    requires i <= |rs| && |acc| == i && ListsOf(rs, acc, o)
    requires ValueVector(rs, i, acc, o).Ok?
    ensures var r := ValueVector(rs, i, acc, o).value;
      (r.Some? ==> |r.value| == |rs| && ListsOf(rs, r.value, o)) &&
      (r.None? ==> exists j :: 0 <= j < |rs| && PossibleLhsValues(rs[j].expression, o) == Ok(ValueList([])))
    decreases |rs| - i
  {
    if i < |rs| {
      var vs := PossibleLhsValues(rs[i].expression, o).value;
      if vs.values != [] {
        var acc' := acc + [vs.values];
        assert ListsOf(rs, acc', o) by {
          forall j | 0 <= j < |acc'| ensures PossibleLhsValues(rs[j].expression, o) == Ok(ValueList(acc'[j])) {
            if j < i { assert acc'[j] == acc[j]; }
          }
        }
        ValueVectorMeaning(rs, i + 1, acc', o);
      }
    }
  }

  /**
   * A key is selected exactly when each of its components is one of the
   * possible values of the restriction in its position, and there are no more
   * keys than the configured maximum.
   */
  lemma KeysOfMeaning(rs: seq<Restriction>, o: Options, max: nat, key: Key)
    requires KeysOf(rs, o, max).Ok?
    ensures |KeysOf(rs, o, max).value| <= max || KeysOf(rs, o, max).value == []
    ensures key in KeysOf(rs, o, max).value <==> |key| == |rs| && forall j :: 0 <= j < |rs| ==>
      PossibleLhsValues(rs[j].expression, o).Ok? && Contains(PossibleLhsValues(rs[j].expression, o).value, key[j])
  {
    ValueVectorMeaning(rs, 0, [], o);
    var vv := ValueVector(rs, 0, [], o).value;
    if vv.Some? {
      ProductMembership(vv.value, key);
    } else {
      var j :| 0 <= j < |rs| && PossibleLhsValues(rs[j].expression, o) == Ok(ValueList([]));
      if |key| == |rs| {
        assert !Contains(ValueList([]), key[j]);
      }
    }
  }

  // ---------------------------------------------------------------------------
  // compute_bounds
  // ---------------------------------------------------------------------------

  /** An EQ component as written: to_interval first, then the check for a missing lower bound. */
  function EqComponentAsWritten(r: Restriction, o: Options): Result<Bytes> {
    var vs :- PossibleLhsValues(r.expression, o);
    var b :- ToInterval(vs);
    if b.lb.None? then Err(InvalidRequest) else Ok(b.lb.value.value)
  }

  /** An EQ component, a null value (an empty value list) reported as an invalid null key part. */
  function EqComponent(r: Restriction, o: Options): (v: Result<Bytes>)
    ensures PossibleLhsValues(r.expression, o) == Ok(EmptyValueSet) ==> v == Err(InvalidRequest)
    ensures PossibleLhsValues(r.expression, o).Ok? && PossibleLhsValues(r.expression, o).value.ValueList? && v.Ok? ==>
      PossibleLhsValues(r.expression, o).value == ValueList([v.value])
  {
    var vs :- PossibleLhsValues(r.expression, o);
    if vs == EmptyValueSet then Err(InvalidRequest)
    else
      var b :- ToInterval(vs);
      if b.lb.None? then Err(InvalidRequest) else Ok(b.lb.value.value)
  }

  /** `k = null`: the code as written fails with a logic error where an invalid null key part is meant. */
  lemma NullKeyPart(col: ColumnDef, id: nat, o: Options)
    requires id in o && o[id] == NullValue
    ensures var r := Restriction(OpEQ, SingleColumn, [col],
                                 Atom(BinaryOperator(Columns([ColumnValue(col, None)]), EQ, Bindable(ScalarTerm, id))),
                                 TermSlice(None, None));
      EqComponentAsWritten(r, o) == Err(LogicError) && EqComponent(r, o) == Err(InvalidRequest)
  {
  }

  /** As written, an equality whose value binds never reaches the invalid-null check. */
  lemma NullCheckUnreachable(r: Restriction, o: Options)
    requires r.expression.Atom? && r.expression.bop.op == EQ && BindAndGet(r.expression.bop.rhs, o).Ok?
    ensures EqComponentAsWritten(r, o) != Err(InvalidRequest)
  {
  }

  predicate AllEq(rs: seq<Restriction>) {
    forall k :: 0 <= k < |rs| ==> rs[k].op == OpEQ
  }

  /** The EQ components from index i on, appended to acc; the column at index i must be at position i. */
  function EqComponents(rs: seq<Restriction>, i: nat, acc: Key, o: Options): Result<Key>
    requires ByPosition(rs) && i <= |rs| && |acc| == i
    decreases |rs| - i
  {
    if i == |rs| then Ok(acc)
    else if Position(rs[i]) != i then Err(LogicError)
    else
      var v :- EqComponent(rs[i], o);
      EqComponents(rs, i + 1, acc + [v], o)
  }

  /** The slice range of a slice that starts the walk: its bounds as one-component keys. */
  function LeadingSliceRange(b: ValueInterval, reversed: bool): KeyRange {
    var r := Between(if b.lb.Some? then Some(KeyBound([b.lb.value.value], b.lb.value.inclusive)) else None,
                     if b.ub.Some? then Some(KeyBound([b.ub.value.value], b.ub.value.inclusive)) else None);
    if reversed then r.Reverse() else r
  }

  /** The range of the prefix p ended by the slice b: each bound is p and the bound's value, or p itself. */
  function PrefixRange(p: Key, b: ValueInterval, reversed: bool): KeyRange {
    var lo := if b.lb.Some? then KeyBound(p + [b.lb.value.value], b.lb.value.inclusive) else KeyBound(p, true);
    var hi := if b.ub.Some? then KeyBound(p + [b.ub.value.value], b.ub.value.inclusive) else KeyBound(p, true);
    var r := Between(Some(lo), Some(hi));
    if reversed then r.Reverse() else r
  }

  function PrefixRanges(ps: seq<Key>, b: ValueInterval, reversed: bool): (r: seq<KeyRange>)
    ensures |r| == |ps| && forall k :: 0 <= k < |ps| ==> r[k] == PrefixRange(ps[k], b, reversed)
  {
    seq(|ps|, k requires 0 <= k < |ps| => PrefixRange(ps[k], b, reversed))
  }

  function Singulars(ps: seq<Key>): (r: seq<KeyRange>)
    ensures |r| == |ps| && forall k :: 0 <= k < |ps| ==> r[k] == Singular(ps[k])
  {
    seq(|ps|, k requires 0 <= k < |ps| => Singular(ps[k]))
  }

  /**
   * The walk over the restrictions from index i on, having collected one value
   * list per column before i.  It stops at a gap in the positions or at a
   * restriction that needs filtering, and a slice ends it.
   */
  function GeneralBounds(rs: seq<Restriction>, i: nat, vec: seq<seq<Bytes>>, o: Options, max: nat): Result<seq<KeyRange>>
    requires ByPosition(rs) && i <= |rs| && |vec| == i
    decreases |rs| - i
  {
    if i == |rs| || Position(rs[i]) != i || NeedsFiltering(rs[i].expression) then
      if CheckProductSize(ProductSize(vec), max).Fail? then Err(RuntimeError)
      else Ok(Singulars(Product(vec)))
    else if rs[i].IsSlice() then
      var vs :- PossibleLhsValues(rs[i].expression, o);
      var b :- ToInterval(vs);
      var reversed := rs[i].columns[0].ty.reversed;
      if vec == [] then Ok([LeadingSliceRange(b, reversed)])
      else
        if CheckProductSize(ProductSize(vec), max).Fail? then Err(RuntimeError)
        else Ok(PrefixRanges(Product(vec), b, reversed))
    else
      var vs :- PossibleLhsValues(rs[i].expression, o);
      if vs.Interval? then Err(LogicError)
      else if vs.values == [] then Ok([])
      else GeneralBounds(rs, i + 1, vec + [vs.values], o, max)
  }

  /** compute_bounds when every restriction is an equality: the one key of the values in position order. */
  function AllEqBoundsOf(rs: seq<Restriction>, o: Options): Result<seq<KeyRange>>
    requires ByPosition(rs)
  {
    if |rs| == 1 then
      var v :- EqComponent(rs[0], o);
      Ok([Singular([v])])
    else
      var key :- EqComponents(rs, 0, [], o);
      Ok([Singular(key)])
  }

  /** compute_bounds: one singular key when every restriction is an equality, otherwise the walk. */
  function ComputeBoundsOf(rs: seq<Restriction>, o: Options, max: nat): Result<seq<KeyRange>>
    requires ByPosition(rs)
  {
    if AllEq(rs) then AllEqBoundsOf(rs, o) else GeneralBounds(rs, 0, [], o, max)
  }

  /** The singular range of every prefix, in order. */
  method SingularRanges(prefixes: seq<Key>) returns (ranges: seq<KeyRange>)
    ensures ranges == Singulars(prefixes)
  {
    ranges := [];
    var j := 0;
    while j < |prefixes|
      invariant 0 <= j <= |prefixes|
      invariant ranges == Singulars(prefixes[..j])
    {
      ranges := ranges + [Singular(prefixes[j])];
      j := j + 1;
    }
    assert prefixes[..j] == prefixes;
  }

  /** The range of every prefix ended by the slice b, in order. */
  method SliceRanges(prefixes: seq<Key>, b: ValueInterval, reversed: bool) returns (ranges: seq<KeyRange>)
    ensures ranges == PrefixRanges(prefixes, b, reversed)
  {
    ranges := [];
    var j := 0;
    while j < |prefixes|
      invariant 0 <= j <= |prefixes|
      invariant ranges == PrefixRanges(prefixes[..j], b, reversed)
    {
      ranges := ranges + [PrefixRange(prefixes[j], b, reversed)];
      j := j + 1;
    }
    assert prefixes[..j] == prefixes;
  }

  /** A key prefix made of possible values of the leading restrictions, one per component. */
  predicate PrefixOfValues(rs: seq<Restriction>, o: Options, key: Key)
    requires ByPosition(rs)
  {
    |key| <= |rs| && forall j :: 0 <= j < |key| ==>
      PossibleLhsValues(rs[j].expression, o).Ok? &&
      Contains(PossibleLhsValues(rs[j].expression, o).value, key[j])
  }

  lemma {:induction false} EqComponentsSound(rs: seq<Restriction>, i: nat, acc: Key, o: Options)
    requires ByPosition(rs) && i <= |rs| && |acc| == i && EqComponents(rs, i, acc, o).Ok?
    requires forall k :: 0 <= k < |rs| ==> !PossibleLhsValues(rs[k].expression, o).Ok? || PossibleLhsValues(rs[k].expression, o).value.ValueList?
    requires PrefixOfValues(rs, o, acc)
    ensures PrefixOfValues(rs, o, EqComponents(rs, i, acc, o).value) && |EqComponents(rs, i, acc, o).value| == |rs|
    decreases |rs| - i
  {
    if i < |rs| {
      var v := EqComponent(rs[i], o).value;
      assert Contains(PossibleLhsValues(rs[i].expression, o).value, v);
      var acc' := acc + [v];
      assert PrefixOfValues(rs, o, acc') by {
        forall j | 0 <= j < |acc'| ensures PossibleLhsValues(rs[j].expression, o).Ok? &&
                                           Contains(PossibleLhsValues(rs[j].expression, o).value, acc'[j]) {
          if j < i { assert acc'[j] == acc[j]; }
        }
      }
      EqComponentsSound(rs, i + 1, acc', o);
    }
  }

  lemma {:induction false} GeneralBoundsSound(rs: seq<Restriction>, i: nat, vec: seq<seq<Bytes>>, o: Options, max: nat)
    requires ByPosition(rs) && i <= |rs| && |vec| == i && ListsOf(rs, vec, o)
    requires forall j :: 0 <= j < i ==> Position(rs[j]) == j
    requires GeneralBounds(rs, i, vec, o, max).Ok?
    ensures forall x :: x in GeneralBounds(rs, i, vec, o, max).value && x.Singular? ==>
      PrefixOfValues(rs, o, x.key) && forall j :: 0 <= j < |x.key| ==> Position(rs[j]) == j
    decreases |rs| - i
  {
    var r := GeneralBounds(rs, i, vec, o, max).value;
    if i == |rs| || Position(rs[i]) != i || NeedsFiltering(rs[i].expression) {
      forall x | x in r && x.Singular? ensures PrefixOfValues(rs, o, x.key) && forall j :: 0 <= j < |x.key| ==> Position(rs[j]) == j {
        var k :| 0 <= k < |r| && r[k] == x;
        ProductMembership(vec, x.key);
      }
    } else if !rs[i].IsSlice() {
      var vs := PossibleLhsValues(rs[i].expression, o).value;
      if vs.ValueList? && vs.values != [] {
        var vec' := vec + [vs.values];
        assert ListsOf(rs, vec', o) by {
          forall j | 0 <= j < |vec'| ensures PossibleLhsValues(rs[j].expression, o) == Ok(ValueList(vec'[j])) {
            if j < i { assert vec'[j] == vec[j]; }
          }
        }
        GeneralBoundsSound(rs, i + 1, vec', o, max);
      }
    } else {
      forall x | x in r ensures !x.Singular? {
        var k :| 0 <= k < |r| && r[k] == x;
      }
    }
  }

  /**
   * Every singular key compute_bounds returns is made of possible values of the
   * restrictions at positions 0, 1, ...; a result is never larger than the
   * configured cartesian product maximum unless it is a single range.
   */
  lemma ComputeBoundsSound(rs: seq<Restriction>, o: Options, max: nat)
    requires ByPosition(rs) && ComputeBoundsOf(rs, o, max).Ok?
    requires forall k :: 0 <= k < |rs| ==> !PossibleLhsValues(rs[k].expression, o).Ok? || PossibleLhsValues(rs[k].expression, o).value.ValueList?
    ensures forall x :: x in ComputeBoundsOf(rs, o, max).value && x.Singular? ==> PrefixOfValues(rs, o, x.key)
  {
    if AllEq(rs) {
      if |rs| == 1 {
        var v := EqComponent(rs[0], o).value;
        assert ComputeBoundsOf(rs, o, max).value == [Singular([v])];
        assert Contains(PossibleLhsValues(rs[0].expression, o).value, v);
        assert [v][0] == v;
      } else {
        EqComponentsSound(rs, 0, [], o);
      }
    } else {
      GeneralBoundsSound(rs, 0, [], o, max);
    }
  }

  lemma {:induction false} GeneralBoundsSize(rs: seq<Restriction>, i: nat, vec: seq<seq<Bytes>>, o: Options, max: nat)
    requires ByPosition(rs) && i <= |rs| && |vec| == i && GeneralBounds(rs, i, vec, o, max).Ok?
    ensures |GeneralBounds(rs, i, vec, o, max).value| <= max || |GeneralBounds(rs, i, vec, o, max).value| <= 1
    decreases |rs| - i
  {
    if !(i == |rs| || Position(rs[i]) != i || NeedsFiltering(rs[i].expression)) && !rs[i].IsSlice() {
      var vs := PossibleLhsValues(rs[i].expression, o).value;
      if vs.ValueList? && vs.values != [] {
        GeneralBoundsSize(rs, i + 1, vec + [vs.values], o, max);
      }
    }
  }

  /** The cartesian product is checked against the maximum before any range is built. */
  lemma ComputeBoundsSize(rs: seq<Restriction>, o: Options, max: nat)
    requires ByPosition(rs) && ComputeBoundsOf(rs, o, max).Ok?
    ensures |ComputeBoundsOf(rs, o, max).value| <= max || |ComputeBoundsOf(rs, o, max).value| <= 1
  {
    if !AllEq(rs) { GeneralBoundsSize(rs, 0, [], o, max); }
  }

  /** A restriction `c op ?` on column c, the term bound through the options. */
  function Relation(col: ColumnDef, op: Operator, rop: RestrictionOp, id: nat): Restriction {
    Restriction(rop, SingleColumn, [col],
                Atom(BinaryOperator(Columns([ColumnValue(col, None)]), op, Bindable(ScalarTerm, id))),
                TermSlice(None, None))
  }

  /** `c > 123` on the first clustering column selects the keys after 123. */
  lemma SliceExample(col: ColumnDef, max: nat)
    requires col.id == 0 && !col.ty.reversed
    ensures ComputeBoundsOf([Relation(col, GT, OpSlice, 0)], map[0 := Scalar([123])], max)
         == Ok([Between(Some(KeyBound([[123]], false)), None)])
  {
    var r := Relation(col, GT, OpSlice, 0);
    var rs := [r];
    assert rs[0] == r;
    assert !AllEq(rs);
    assert Atoms(r.expression) == [r.expression.bop];
    assert !NeedsFiltering(r.expression);
    assert ByPosition(rs);
    var o := map[0 := Scalar([123])];
    var b := ValueInterval(Some(LowerBound([123], false, ComparatorOf(ColumnValue(col, None)))), None);
    assert PossibleLhsValues(r.expression, o) == Ok(Interval(b));
    assert GeneralBounds(rs, 0, [], o, max) == Ok([LeadingSliceRange(b, false)]);
  }

  lemma ProductOfOne(x: Bytes)
    ensures Product([[x]]) == [[x]]
  {
    var vs: seq<seq<Bytes>> := [[x]];
    var one: seq<Bytes> := [x];
    assert vs[1..] == [] && vs[0] == one && one[1..] == [];
    var none: Key := [];
    assert Product(vs[1..]) == [none];
    var head := seq(1, k requires 0 <= k < 1 => [one[0]] + [none][k]);
    assert [one[0]] + none == one;
    assert |head| == 1 && head[0] == one;
    assert ProductPrefixed(one, [none]) == head + ProductPrefixed([], [none]);
  }

  /** `a = 1 AND b > 2`: the equality prefix with the slice value appended, the end bound the prefix itself. */
  lemma PrefixSliceExample(a: ColumnDef, b: ColumnDef, max: nat)
    requires a.id == 0 && b.id == 1
    ensures var rs := [Relation(a, EQ, OpEQ, 0), Relation(b, GT, OpSlice, 1)];
      var o := map[0 := Scalar([1]), 1 := Scalar([2])];
      var fwd := Between(Some(KeyBound([[1], [2]], false)), Some(KeyBound([[1]], true)));
      max >= 1 ==> ComputeBoundsOf(rs, o, max) == Ok([if b.ty.reversed then fwd.Reverse() else fwd])
  {
    var rs := [Relation(a, EQ, OpEQ, 0), Relation(b, GT, OpSlice, 1)];
    assert !AllEq(rs) by { assert rs[1].op == OpSlice; }
    assert Atoms(rs[0].expression) == [rs[0].expression.bop];
    assert Atoms(rs[1].expression) == [rs[1].expression.bop];
    assert !NeedsFiltering(rs[0].expression) && !NeedsFiltering(rs[1].expression);
    assert ByPosition(rs);
    var o := map[0 := Scalar([1]), 1 := Scalar([2])];
    assert rs[0] == Relation(a, EQ, OpEQ, 0) && rs[1] == Relation(b, GT, OpSlice, 1);
    assert PossibleLhsValues(rs[0].expression, o) == Ok(ValueList([[1]]));
    var ivl := ValueInterval(Some(LowerBound([2], false, ComparatorOf(ColumnValue(b, None)))), None);
    assert PossibleLhsValues(rs[1].expression, o) == Ok(Interval(ivl));
    var vec: seq<seq<Bytes>> := [[[1]]];
    assert [] + [[[1]]] == vec;
    assert Position(rs[0]) == 0 && !rs[0].IsSlice();
    assert GeneralBounds(rs, 0, [], o, max) == GeneralBounds(rs, 1, vec, o, max);
    if max >= 1 {
      ProductOfOne([1]);
      assert ProductSize(vec) == 1;
      assert CheckProductSize(ProductSize(vec), max).Pass?;
      assert Position(rs[1]) == 1 && rs[1].IsSlice();
      assert ToInterval(Interval(ivl)) == Ok(ivl);
      var fwd := Between(Some(KeyBound([[1], [2]], false)), Some(KeyBound([[1]], true)));
      var p: Key := [[1]];
      var two: Bytes := [2];
      assert p + [two] == [[1], [2]];
      assert ivl.lb.value.value == two && ivl.ub.None?;
      assert PrefixRange(p, ivl, b.ty.reversed) == if b.ty.reversed then fwd.Reverse() else fwd;
      assert PrefixRanges([[[1]]], ivl, b.ty.reversed) == [PrefixRange([[1]], ivl, b.ty.reversed)];
      assert GeneralBounds(rs, 1, vec, o, max) == Ok(PrefixRanges(Product(vec), ivl, b.ty.reversed));
    }
  }

  // ---------------------------------------------------------------------------
  // Finishing the bounds
  // ---------------------------------------------------------------------------

  /** bounds_ranges for the partition key: every range must be a single key. */
  function PartitionKeys(rs: seq<KeyRange>): (r: Result<seq<Key>>)
    ensures r.Err? <==> exists k :: 0 <= k < |rs| && !rs[k].Singular?
    ensures r.Err? ==> r.error == InvalidRequest
    ensures r.Ok? ==> |r.value| == |rs| && forall k :: 0 <= k < |rs| ==> rs[k] == Singular(r.value[k])
  {
    if rs == [] then Ok([])
    else if !rs[0].Singular? then Err(InvalidRequest)
    else
      var rest :- PartitionKeys(rs[1..]);
      assert forall k :: 1 <= k < |rs| ==> rs[k] == rs[1..][k - 1];
      Ok([rs[0].key] + rest)
  }

  /** The clustering order of the restricted positions: descending for a reversed column. */
  function Reversals(rs: seq<Restriction>): (rev: seq<bool>)
    requires ByPosition(rs)
    ensures |rev| == |rs| && forall k :: 0 <= k < |rs| ==> rev[k] == rs[k].columns[0].ty.reversed
  {
    seq(|rs|, k requires 0 <= k < |rs| => rs[k].columns[0].ty.reversed)
  }

  /** bounds_ranges for the clustering key: backwards ranges dropped, the rest sorted by start, equal starts merged. */
  function FinishClustering(rev: seq<bool>, rs: seq<KeyRange>): seq<KeyRange> {
    UniqueStarts(SortByStart(rev, Forward(rev, rs)))
  }

  /**
   * The finished ranges start in strictly increasing order, none is backwards,
   * each is one of the computed ranges, and every computed range that is not
   * backwards shares its start with a finished one.
   */
  lemma FinishClusteringMeaning(rev: seq<bool>, rs: seq<KeyRange>)
    ensures var r := FinishClustering(rev, rs);
      (forall k :: 0 <= k < |r| - 1 ==> StartLess(rev, r[k], r[k + 1])) &&
      (forall x :: x in r ==> x in rs && !Backwards(rev, x)) &&
      (forall x :: x in rs && !Backwards(rev, x) ==> exists y :: y in r && SameStart(x, y))
  {
    var sorted := SortByStart(rev, Forward(rev, rs));
    UniqueStartsSorted(rev, sorted);
    forall x | x in sorted ensures x in Forward(rev, rs) {
      assert x in multiset(sorted);
    }
    forall x | x in Forward(rev, rs) ensures x in sorted {
      assert x in multiset(Forward(rev, rs));
    }
  }

  // ---------------------------------------------------------------------------
  // Filtering
  // ---------------------------------------------------------------------------

  /**
   * The number of leading restrictions, from index i at expected position pos,
   * that need no filtering: they are at consecutive positions, use no filtering
   * operator, and a slice does not advance the position.
   */
  function UnfilteredPrefix(rs: seq<Restriction>, i: nat, pos: nat): nat
    requires ByPosition(rs) && i <= |rs|
    decreases |rs| - i
  {
    if i == |rs| || NeedsFiltering(rs[i].expression) || pos != Position(rs[i]) then 0
    else 1 + UnfilteredPrefix(rs, i + 1, if rs[i].IsSlice() then pos else Position(rs[i]) + 1)
  }

  /** The restriction at index j is at position j and needs no filtering. */
  predicate InPlaceUnfiltered(rs: seq<Restriction>, j: nat)
    requires ByPosition(rs) && j < |rs|
  {
    !NeedsFiltering(rs[j].expression) && Position(rs[j]) == j
  }

  /** The n restrictions from index i are in place and need no filtering, a slice only last; the next one is not. */
  predicate UnfilteredShape(rs: seq<Restriction>, i: nat, n: nat)
    requires ByPosition(rs)
  {
    i + n <= |rs| &&
    (forall j :: i <= j < i + n ==> InPlaceUnfiltered(rs, j)) &&
    (forall j :: i <= j < i + n - 1 ==> !rs[j].IsSlice()) &&
    (i + n < |rs| ==> (!InPlaceUnfiltered(rs, i + n) || (n > 0 && rs[i + n - 1].IsSlice())))
  }

  lemma {:induction false} UnfilteredFrom(rs: seq<Restriction>, i: nat)
    requires ByPosition(rs) && i <= |rs|
    ensures UnfilteredShape(rs, i, UnfilteredPrefix(rs, i, i))
    decreases |rs| - i
  {
    if i < |rs| && InPlaceUnfiltered(rs, i) {
      if rs[i].IsSlice() {
        UnfilteredSlice(rs, i);
      } else {
        UnfilteredFrom(rs, i + 1);
        UnfilteredStep(rs, i);
      }
    } else {
      assert UnfilteredPrefix(rs, i, i) == 0;
    }
  }

  lemma UnfilteredSlice(rs: seq<Restriction>, i: nat)
    requires ByPosition(rs) && i < |rs| && InPlaceUnfiltered(rs, i) && rs[i].IsSlice()
    ensures UnfilteredShape(rs, i, UnfilteredPrefix(rs, i, i))
  {
    if i + 1 < |rs| {
      assert Position(rs[i + 1]) > Position(rs[i]);
    }
    assert UnfilteredPrefix(rs, i + 1, i) == 0;
    assert UnfilteredPrefix(rs, i, i) == 1;
  }

  lemma UnfilteredStep(rs: seq<Restriction>, i: nat)
    requires ByPosition(rs) && i < |rs| && InPlaceUnfiltered(rs, i) && !rs[i].IsSlice()
    requires UnfilteredShape(rs, i + 1, UnfilteredPrefix(rs, i + 1, i + 1))
    ensures UnfilteredShape(rs, i, UnfilteredPrefix(rs, i, i))
  {
    var m := UnfilteredPrefix(rs, i + 1, i + 1);
    assert UnfilteredPrefix(rs, i, i) == 1 + m;
  }

  /**
   * The restrictions that need no filtering are the leading ones at positions
   * 0, 1, ... without a filtering operator, a slice only as the last of them;
   * the next restriction breaks one of these rules.
   */
  lemma UnfilteredPrefixMeaning(rs: seq<Restriction>)
    requires ByPosition(rs)
    ensures var n := UnfilteredPrefix(rs, 0, 0);
      n <= |rs| &&
      (forall j :: 0 <= j < n ==> !NeedsFiltering(rs[j].expression) && Position(rs[j]) == j) &&
      (forall j :: 0 <= j < n - 1 ==> !rs[j].IsSlice()) &&
      (n < |rs| ==> NeedsFiltering(rs[n].expression) || Position(rs[n]) != n || (n > 0 && rs[n - 1].IsSlice()))
  {
    UnfilteredFrom(rs, 0);
    var n := UnfilteredPrefix(rs, 0, 0);
    forall j | 0 <= j < n ensures !NeedsFiltering(rs[j].expression) && Position(rs[j]) == j {
      assert InPlaceUnfiltered(rs, j);
    }
    if n < |rs| && !(n > 0 && rs[n - 1].IsSlice()) {
      assert !InPlaceUnfiltered(rs, n);
    }
  }

  /** primary_key_restrictions::prefix_size: the restrictions on the leading columns 0, 1, ... */
  function PrefixSize(rs: seq<Restriction>, i: nat): (n: nat)
    requires ByPosition(rs) && i <= |rs|
    ensures i + n <= |rs| && forall j :: i <= j < i + n ==> Position(rs[j]) == j
    ensures i + n < |rs| ==> Position(rs[i + n]) != i + n
    decreases |rs| - i
  {
    if i == |rs| || Position(rs[i]) != i then 0 else 1 + PrefixSize(rs, i + 1)
  }

  /** The restrictions on the leading key columns 0, 1, ... of rs. */
  function LongestPrefix(rs: seq<Restriction>): (p: seq<Restriction>)
    requires ByPosition(rs)
    ensures ByPosition(p) && p == rs[..PrefixSize(rs, 0)]
  {
    ByPositionPrefix(rs, PrefixSize(rs, 0));
    rs[..PrefixSize(rs, 0)]
  }

  /** bounds_ranges of partition key restrictions rs: the keys of the computed ranges. */
  function PartitionKeysOf(rs: seq<Restriction>, o: Options, max: nat): Result<seq<Key>>
    requires ByPosition(rs)
  {
    var b :- ComputeBoundsOf(rs, o, max);
    PartitionKeys(b)
  }

  /** Every partition key read is made of values the restrictions admit, column by column. */
  lemma PartitionKeysSound(rs: seq<Restriction>, o: Options, max: nat)
    requires ByPosition(rs) && PartitionKeysOf(rs, o, max).Ok?
    requires forall k :: 0 <= k < |rs| ==> !PossibleLhsValues(rs[k].expression, o).Ok? || PossibleLhsValues(rs[k].expression, o).value.ValueList?
    ensures forall key :: key in PartitionKeysOf(rs, o, max).value ==> PrefixOfValues(rs, o, key)
  {
    ComputeBoundsSound(rs, o, max);
    var b := ComputeBoundsOf(rs, o, max).value;
    var keys := PartitionKeysOf(rs, o, max).value;
    forall key | key in keys ensures PrefixOfValues(rs, o, key) {
      var k :| 0 <= k < |keys| && keys[k] == key;
      assert b[k] == Singular(key);
      assert b[k] in b;
    }
  }

  /** bounds_ranges of clustering key restrictions rs: the computed ranges, finished. */
  function ClusteringRangesOf(rs: seq<Restriction>, o: Options, max: nat): Result<seq<KeyRange>>
    requires ByPosition(rs)
  {
    var b :- ComputeBoundsOf(rs, o, max);
    Ok(FinishClustering(Reversals(rs), b))
  }

  // ---------------------------------------------------------------------------
  // The restrictions object
  // ---------------------------------------------------------------------------

  /** The state of a single-column key restrictions object as a value: its restrictions, their kinds, their conjunction. */
  datatype KeyParts = KeyParts(restrictions: seq<Restriction>, ops: set<RestrictionOp>, expression: Expression)

  const NoKeyParts := KeyParts([], {}, Conjunction([]))

  /** The ordering rules of do_merge_with, which allow filtering lifts. */
  predicate OutOfOrderOf(k: KeyParts, allowFiltering: bool, r: Restriction)
    requires ByPosition(k.restrictions) && SingleColumnRestriction(r)
  {
    k.restrictions != [] && !allowFiltering &&
    var last := Position(k.restrictions[|k.restrictions| - 1]);
    ((OpSlice in k.ops && Position(r) > last) || (Position(r) < last && r.IsSlice()))
  }

  /**
   * merge_to on the value: multi-column and token relations are refused, so is
   * one out of order; otherwise the relation's kind is recorded, even when adding
   * it to its column then fails, and an added relation is conjoined.
   */
  function MergeKeyParts(k: KeyParts, allowFiltering: bool, r: Restriction): (res: (Outcome, KeyParts))
    requires ByPosition(k.restrictions) && (r.target == SingleColumn ==> |r.columns| == 1)
    ensures ByPosition(res.1.restrictions)
    ensures res.0.Pass? <==>
      r.target == SingleColumn && !OutOfOrderOf(k, allowFiltering, r) && AddRestriction(k.restrictions, r).Ok?
    ensures res.0.Fail? ==>
      res.0.error == InvalidRequest && res.1.restrictions == k.restrictions && res.1.expression == k.expression
    ensures res.0.Fail? && (r.target != SingleColumn || OutOfOrderOf(k, allowFiltering, r)) ==> res.1 == k
    ensures res.0.Pass? ==>
      AddedBy(k.restrictions, r, res.1.restrictions) && res.1.ops == k.ops + {r.op} &&
      Atoms(res.1.expression) == Atoms(k.expression) + Atoms(r.expression)
  {
    if r.IsMultiColumn() || r.IsOnToken() then (Fail(InvalidRequest), k)
    else if OutOfOrderOf(k, allowFiltering, r) then (Fail(InvalidRequest), k)
    else
      var ops := k.ops + {r.op};
      match AddRestriction(k.restrictions, r)
      case Ok(rs) => (Pass, KeyParts(rs, ops, MakeConjunction(k.expression, r.expression)))
      case Err(e) => (Fail(e), KeyParts(k.restrictions, ops, k.expression))
  }

  /** Merging into no restrictions never fails: the relation becomes the only one. */
  lemma FirstMergePasses(allowFiltering: bool, r: Restriction)
    requires SingleColumnRestriction(r)
    ensures MergeKeyParts(NoKeyParts, allowFiltering, r) == (Pass, KeyParts([r], {r.op}, MakeConjunction(Conjunction([]), r.expression)))
  {
    assert AddRestriction([], r) == Ok([r]);
    assert !OutOfOrderOf(NoKeyParts, allowFiltering, r);
    assert NoKeyParts.ops + {r.op} == {r.op};
  }

  /** contains(op): some restriction's expression has an atom with the operator. */
  predicate ContainsOperatorOf(rs: seq<Restriction>, op: Operator) {
    exists k :: 0 <= k < |rs| && Find(rs[k].expression, op).Some?
  }

  /**
   * needs_filtering: partition key restrictions that leave a column out or hold a
   * CONTAINS or a slice; clustering restrictions beyond their unfiltered prefix.
   */
  predicate KeyNeedsFiltering(k: KeyParts, isPartition: bool, keySize: nat)
    requires ByPosition(k.restrictions)
  {
    if isPartition then k.restrictions != [] && (|k.restrictions| < keySize || OpContains in k.ops || OpSlice in k.ops)
    else UnfilteredPrefix(k.restrictions, 0, 0) < |k.restrictions|
  }

  /**
   * single_column_primary_key_restrictions: the per-column restrictions of the
   * partition key (isPartition) or of the clustering key, the kinds of relation
   * they were built from, and their conjunction.
   */
  class SingleColumnPrimaryKeyRestrictions {
    const isPartition: bool
    const allowFiltering: bool
    var restrictions: seq<Restriction>
    var ops: set<RestrictionOp>
    var expression: Expression

    ghost predicate Valid()
      reads this
    {
      ByPosition(restrictions)
    }

    constructor (isPartition: bool, allowFiltering: bool)
      ensures Valid() && this.isPartition == isPartition && this.allowFiltering == allowFiltering
      ensures restrictions == [] && ops == {} && expression == Conjunction([])
    {
      this.isPartition := isPartition;
      this.allowFiltering := allowFiltering;
      restrictions := [];
      ops := {};
      expression := Conjunction([]);
    }

    /** The ordering rules of do_merge_with, which allow filtering lifts. */
    predicate OutOfOrder(r: Restriction)
      requires Valid() && SingleColumnRestriction(r)
      reads this
    {
      OutOfOrderOf(Parts(), allowFiltering, r)
    }

    /** This object's state as a value. */
    function Parts(): KeyParts
      reads this
    {
      KeyParts(restrictions, ops, expression)
    }

    /**
     * do_merge_with: without allow filtering, no column after a slice-restricted
     * last column and no slice before the last column; then the relation's kind
     * is recorded and the relation added to its column.
     */
    method DoMergeWith(r: Restriction) returns (out: Outcome)
      requires Valid() && SingleColumnRestriction(r)
      modifies this
      ensures Valid() && expression == old(expression)
      ensures old(OutOfOrder(r)) ==> out == Fail(InvalidRequest) && restrictions == old(restrictions) && ops == old(ops)
      ensures !old(OutOfOrder(r)) ==> ops == old(ops) + {r.op}
      ensures !old(OutOfOrder(r)) ==> (match AddRestriction(old(restrictions), r)
                                       case Ok(rs) => out == Pass && restrictions == rs
                                       case Err(e) => out == Fail(e) && restrictions == old(restrictions))
    {
      if OutOfOrder(r) {
        return Fail(InvalidRequest);
      }
      ops := ops + {r.op};
      var added := AddRestriction(restrictions, r);
      if added.Err? {
        return Fail(added.error);
      }
      restrictions := added.value;
      return Pass;
    }

    /** merge_to: multi-column and token relations are refused; the relation is merged and conjoined. */
    method MergeTo(r: Restriction) returns (out: Outcome)
      requires Valid() && (r.target == SingleColumn ==> |r.columns| == 1)
      modifies this
      ensures Valid()
      ensures r.IsMultiColumn() || r.IsOnToken() ==> out == Fail(InvalidRequest)
      ensures out.Fail? ==> out.error == InvalidRequest && restrictions == old(restrictions) && expression == old(expression)
      ensures r.target == SingleColumn ==> (out.Pass? <==> !old(OutOfOrder(r)) && AddRestriction(old(restrictions), r).Ok?)
      ensures out.Pass? ==> restrictions == AddRestriction(old(restrictions), r).value && ops == old(ops) + {r.op}
      ensures out.Pass? ==> expression == MakeConjunction(old(expression), r.expression)
      ensures (out, Parts()) == MergeKeyParts(old(Parts()), allowFiltering, r)
    {
      if r.IsMultiColumn() {
        return Fail(InvalidRequest);
      }
      if r.IsOnToken() {
        return Fail(InvalidRequest);
      }
      out := DoMergeWith(r);
      if out.Pass? {
        expression := MakeConjunction(expression, r.expression);
      }
    }

    predicate IsAllEq()
      reads this
    {
      AllEq(restrictions)
    }

    predicate Empty()
      reads this
    {
      restrictions == []
    }

    /** has_unrestricted_components: fewer restricted columns than the key has. */
    predicate HasUnrestrictedComponents(keySize: nat)
      reads this
    {
      |restrictions| < keySize
    }

    /** contains(op), over this object's restrictions. */
    predicate ContainsOperator(op: Operator)
      reads this
    {
      ContainsOperatorOf(restrictions, op)
    }

    /** values_as_keys: every combination of the columns' values, as keys. */
    method ValuesAsKeys(o: Options, max: nat) returns (r: Result<seq<Key>>)
      requires Valid()
      ensures r == KeysOf(restrictions, o, max)
    {
      var vec: seq<seq<Bytes>> := [];
      var i := 0;
      while i < |restrictions|
        invariant 0 <= i <= |restrictions|
        invariant ValueVector(restrictions, 0, [], o) == ValueVector(restrictions, i, vec, o)
      {
        var e := restrictions[i];
        if e.IsSlice() {
          return Err(LogicError);
        }
        var values := PossibleLhsValues(e.expression, o);
        if values.Err? {
          return Err(values.error);
        }
        if values.value.Interval? {
          return Err(LogicError);
        }
        if values.value.values == [] {
          return Ok([]);
        }
        vec := vec + [values.value.values];
        i := i + 1;
      }
      var check := CheckProductSize(ProductSize(vec), max);
      if check.Fail? {
        return Err(check.error);
      }
      return Ok(Product(vec));
    }

    /** compute_bounds when every restriction is an equality. */
    method AllEqBounds(o: Options) returns (r: Result<seq<KeyRange>>)
      requires Valid()
      ensures r == AllEqBoundsOf(restrictions, o)
    {
      if |restrictions| == 1 {
        var v := EqComponent(restrictions[0], o);
        if v.Err? {
          return Err(v.error);
        }
        return Ok([Singular([v.value])]);
      }
      var components: Key := [];
      var i := 0;
      while i < |restrictions|
        invariant 0 <= i <= |restrictions| && |components| == i
        invariant EqComponents(restrictions, 0, [], o) == EqComponents(restrictions, i, components, o)
      {
        if Position(restrictions[i]) != i {
          return Err(LogicError);
        }
        var v := EqComponent(restrictions[i], o);
        if v.Err? {
          return Err(v.error);
        }
        components := components + [v.value];
        i := i + 1;
      }
      return Ok([Singular(components)]);
    }

    /** compute_bounds. */
    method ComputeBounds(o: Options, max: nat) returns (r: Result<seq<KeyRange>>)
      requires Valid()
      ensures r == ComputeBoundsOf(restrictions, o, max)
    {
      if IsAllEq() {
        r := AllEqBounds(o);
        return;
      }
      var vec: seq<seq<Bytes>> := [];
      var i := 0;
      while i < |restrictions|
        invariant 0 <= i <= |restrictions| && |vec| == i
        invariant GeneralBounds(restrictions, 0, [], o, max) == GeneralBounds(restrictions, i, vec, o, max)
      {
        var e := restrictions[i];
        if Position(e) != i || NeedsFiltering(e.expression) {
          break;
        }
        var values := PossibleLhsValues(e.expression, o);
        if values.Err? {
          return Err(values.error);
        }
        if e.IsSlice() {
          var b := ToInterval(values.value);
          if b.Err? {
            return Err(b.error);
          }
          var reversed := e.columns[0].ty.reversed;
          if vec == [] {
            return Ok([LeadingSliceRange(b.value, reversed)]);
          }
          var check := CheckProductSize(ProductSize(vec), max);
          if check.Fail? {
            return Err(check.error);
          }
          var ranges := SliceRanges(Product(vec), b.value, reversed);
          return Ok(ranges);
        }
        if values.value.Interval? {
          return Err(LogicError);
        }
        if values.value.values == [] {
          return Ok([]);
        }
        vec := vec + [values.value.values];
        i := i + 1;
      }
      var check := CheckProductSize(ProductSize(vec), max);
      if check.Fail? {
        return Err(check.error);
      }
      var ranges := SingularRanges(Product(vec));
      return Ok(ranges);
    }

    /** bounds_ranges of the partition key restrictions: the keys of the singular ranges. */
    method PartitionBoundsRanges(o: Options, max: nat) returns (r: Result<seq<Key>>)
      requires Valid()
      ensures r == PartitionKeysOf(restrictions, o, max)
    {
      var bounds := ComputeBounds(o, max);
      if bounds.Err? {
        return Err(bounds.error);
      }
      var keys: seq<Key> := [];
      var i := 0;
      while i < |bounds.value|
        invariant 0 <= i <= |bounds.value| && |keys| == i
        invariant forall k :: 0 <= k < i ==> bounds.value[k] == Singular(keys[k])
      {
        if !bounds.value[i].Singular? {
          return Err(InvalidRequest);
        }
        keys := keys + [bounds.value[i].key];
        i := i + 1;
      }
      var expected := PartitionKeys(bounds.value);
      assert expected.Ok?;
      assert keys == expected.value;
      return Ok(keys);
    }

    /** bounds_ranges of the clustering key restrictions. */
    method ClusteringBoundsRanges(o: Options, max: nat) returns (r: Result<seq<KeyRange>>)
      requires Valid()
      ensures r == ClusteringRangesOf(restrictions, o, max)
    {
      var bounds := ComputeBounds(o, max);
      if bounds.Err? {
        return Err(bounds.error);
      }
      return Ok(FinishClustering(Reversals(restrictions), bounds.value));
    }

    /** num_prefix_columns_that_need_not_be_filtered; always 0 for the partition key. */
    method NumPrefixColumnsThatNeedNotBeFiltered() returns (n: nat)
      requires Valid()
      ensures n == if isPartition then 0 else UnfilteredPrefix(restrictions, 0, 0)
    {
      if isPartition {
        return 0;
      }
      var position: nat := 0;
      var count: nat := 0;
      while count < |restrictions|
        invariant 0 <= count <= |restrictions|
        invariant UnfilteredPrefix(restrictions, 0, 0) == count + UnfilteredPrefix(restrictions, count, position)
      {
        var e := restrictions[count];
        if NeedsFiltering(e.expression) || position != Position(e) {
          return count;
        }
        if !e.IsSlice() {
          position := Position(e) + 1;
        }
        count := count + 1;
      }
      return count;
    }

    /**
     * needs_filtering: for the clustering key, when some restriction is outside
     * the unfiltered prefix; for the partition key, when it is restricted but not
     * completely, or by CONTAINS or a slice.
     */
    predicate NeedsFilteringKey(keySize: nat)
      requires Valid()
      reads this
    {
      KeyNeedsFiltering(Parts(), isPartition, keySize)
    }

    /** get_longest_prefix_restrictions: the restrictions on the leading columns 0, 1, ... */
    method GetLongestPrefixRestrictions() returns (res: Result<SingleColumnPrimaryKeyRestrictions>)
      requires Valid()
      ensures PrefixSize(restrictions, 0) == |restrictions| ==> res == Ok(this)
      ensures PrefixSize(restrictions, 0) < |restrictions| && res.Ok? ==>
        fresh(res.value) && res.value.Valid() && res.value.restrictions == LongestPrefix(restrictions) &&
        res.value.isPartition == isPartition && res.value.allowFiltering == allowFiltering
      ensures res.Err? ==> res.error == InvalidRequest
    {
      var n := PrefixSize(restrictions, 0);
      if n == |restrictions| {
        return Ok(this);
      }
      var prefix := new SingleColumnPrimaryKeyRestrictions(isPartition, allowFiltering);
      var i := 0;
      while i < n
        invariant 0 <= i <= n
        invariant fresh(prefix) && prefix.Valid() && prefix.restrictions == restrictions[..i]
        invariant prefix.isPartition == isPartition && prefix.allowFiltering == allowFiltering
        modifies prefix
      {
        assert restrictions[..i + 1] == restrictions[..i] + [restrictions[i]];
        ByPositionPrefix(restrictions, i + 1);
        AddAfterLast(restrictions[..i], restrictions[i]);
        var out := prefix.MergeTo(restrictions[i]);
        if out.Fail? {
          return Err(out.error);
        }
        i := i + 1;
      }
      return Ok(prefix);
    }
  }
}
