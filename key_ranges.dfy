/**
 * Ranges over (prefixes of) partition and clustering keys, the cartesian
 * product of per-column value lists, and the order in which clustering ranges
 * are finished: backwards ranges dropped, sorted by start, equal starts merged.
 */
module KeyRanges {
  import opened Wrappers
  import opened Values

  /** A key (prefix): one serialized value per restricted column, in schema position order. */
  type Key = seq<Bytes>

  /** One end of a range: a key prefix and whether the end includes it. */
  datatype KeyBound = KeyBound(key: Key, inclusive: bool)

  /** query::range: the single key (prefix) or the keys between two optional bounds. */
  datatype KeyRange = Singular(key: Key) | Between(start: Option<KeyBound>, end: Option<KeyBound>) {
    /** range::start(): a singular range starts (and ends) inclusively at its key. */
    function Start(): Option<KeyBound> {
      if Singular? then Some(KeyBound(key, true)) else start
    }

    function End(): Option<KeyBound> {
      if Singular? then Some(KeyBound(key, true)) else end
    }

    /** range::reverse, used for a reversed clustering column: the ends change places. */
    function Reverse(): (r: KeyRange)
      ensures r.Start() == End() && r.End() == Start()
      ensures r.Singular? == Singular? && (Between? ==> r == Between(end, start))
    {
      if Singular? then this else Between(end, start)
    }
  }

  // ---------------------------------------------------------------------------
  // Cartesian product
  // ---------------------------------------------------------------------------

  /** cartesian_product_size: the product of the lists' lengths (1 for no list). */
  function ProductSize(vs: seq<seq<Bytes>>): nat {
    if vs == [] then 1 else |vs[0]| * ProductSize(vs[1..])
  }

  /** make_cartesian_product: every choice of one value per list, the first list varying slowest. */
  function Product(vs: seq<seq<Bytes>>): (r: seq<Key>)
    ensures |r| == ProductSize(vs)
  {
    if vs == [] then [[]] else ProductPrefixed(vs[0], Product(vs[1..]))
  }

  /** `[x] + p` for x in xs (outer) and p in ps (inner). */
  function ProductPrefixed(xs: seq<Bytes>, ps: seq<Key>): (r: seq<Key>)
    ensures |r| == |xs| * |ps|
  {
    if xs == [] then [] else
      var head := seq(|ps|, k requires 0 <= k < |ps| => [xs[0]] + ps[k]);
      head + ProductPrefixed(xs[1..], ps)
  }

  lemma {:induction false} ProductPrefixedMembership(xs: seq<Bytes>, ps: seq<Key>, key: Key)
    ensures key in ProductPrefixed(xs, ps) <==> |key| > 0 && key[0] in xs && key[1..] in ps
    decreases |xs|
  {
    if xs != [] {
      ProductPrefixedMembership(xs[1..], ps, key);
      var head := seq(|ps|, k requires 0 <= k < |ps| => [xs[0]] + ps[k]);
      assert key in head <==> |key| > 0 && key[0] == xs[0] && key[1..] in ps by {
        if key in head {
          var k :| 0 <= k < |ps| && head[k] == key;
          assert key[1..] == ps[k];
        }
        if |key| > 0 && key[0] == xs[0] && key[1..] in ps {
          var k :| 0 <= k < |ps| && ps[k] == key[1..];
          assert head[k] == key;
        }
      }
      assert |key| > 0 ==> (key[0] in xs <==> key[0] == xs[0] || key[0] in xs[1..]) by {
        if |key| > 0 && key[0] in xs {
          var k :| 0 <= k < |xs| && xs[k] == key[0];
          if k > 0 { assert xs[1..][k - 1] == key[0]; }
        }
      }
    }
  }

  /** A key is in the product exactly when it picks, position by position, a value of each list. */
  lemma {:induction false} ProductMembership(vs: seq<seq<Bytes>>, key: Key)
    ensures key in Product(vs) <==> |key| == |vs| && forall i :: 0 <= i < |vs| ==> key[i] in vs[i]
    decreases |vs|
  {
    if vs == [] {
      assert Product(vs) == [[]];
    } else {
      ProductPrefixedMembership(vs[0], Product(vs[1..]), key);
      if |key| > 0 {
        ProductMembership(vs[1..], key[1..]);
        if |key| == |vs| && forall i :: 0 <= i < |vs| ==> key[i] in vs[i] {
          assert forall i :: 0 <= i < |vs[1..]| ==> key[1..][i] in vs[1..][i] by {
            forall i | 0 <= i < |vs[1..]| ensures key[1..][i] in vs[1..][i] {
              assert key[1..][i] == key[i + 1] && vs[1..][i] == vs[i + 1];
            }
          }
        }
        if key in Product(vs) {
          forall i | 0 <= i < |vs| ensures key[i] in vs[i] {
            if i > 0 { assert key[1..][i - 1] == key[i] && vs[1..][i - 1] == vs[i]; }
          }
        }
      }
    }
  }

  /** The product is empty exactly when one of the lists is. */
  lemma {:induction false} ProductEmpty(vs: seq<seq<Bytes>>)
    ensures ProductSize(vs) == 0 <==> exists i :: 0 <= i < |vs| && vs[i] == []
    decreases |vs|
  {
    if vs != [] {
      ProductEmpty(vs[1..]);
      if exists i :: 0 <= i < |vs| && vs[i] == [] {
        var i :| 0 <= i < |vs| && vs[i] == [];
        if i > 0 { assert vs[1..][i - 1] == []; }
      }
      if exists i :: 0 <= i < |vs[1..]| && vs[1..][i] == [] {
        var i :| 0 <= i < |vs[1..]| && vs[1..][i] == [];
        assert vs[i + 1] == [];
      }
    }
  }

  // ---------------------------------------------------------------------------
  // Clustering order
  // ---------------------------------------------------------------------------

  /**
   * The order of the component at position i: the column type's order, which is
   * descending for a reversed clustering column.
   */
  predicate ComponentLess(rev: seq<bool>, i: nat, x: Bytes, y: Bytes) {
    if i < |rev| && rev[i] then Less(y, x) else Less(x, y)
  }

  /** Three-way comparison of the components two prefixes have in common, from position i on. */
  function CommonCompare(rev: seq<bool>, a: Key, b: Key, i: nat): (c: int)
    requires i <= |a| && i <= |b|
    ensures -1 <= c <= 1
    ensures c == 0 <==> a[i..Min(|a|, |b|)] == b[i..Min(|a|, |b|)]
    decreases |a| - i
  {
    if i == |a| || i == |b| then 0
    else if a[i] == b[i] then
      var c := CommonCompare(rev, a, b, i + 1);
      assert c == 0 ==> a[i..Min(|a|, |b|)] == [a[i]] + a[i + 1..Min(|a|, |b|)];
      assert c == 0 ==> b[i..Min(|a|, |b|)] == [b[i]] + b[i + 1..Min(|a|, |b|)];
      assert c != 0 ==> a[i..Min(|a|, |b|)][1..] == a[i + 1..Min(|a|, |b|)];
      assert c != 0 ==> b[i..Min(|a|, |b|)][1..] == b[i + 1..Min(|a|, |b|)];
      c
    else
      assert a[i..Min(|a|, |b|)][0] != b[i..Min(|a|, |b|)][0];
      if ComponentLess(rev, i, a[i], b[i]) then -1 else 1
  }

  function Min(x: int, y: int): int { if x < y then x else y }

  /** The comparison is antisymmetric: swapping the prefixes negates it. */
  lemma {:induction false} CommonCompareSwap(rev: seq<bool>, a: Key, b: Key, i: nat)
    requires i <= |a| && i <= |b|
    ensures CommonCompare(rev, a, b, i) == -CommonCompare(rev, b, a, i)
    decreases |a| - i
  {
    if i < |a| && i < |b| {
      if a[i] == b[i] { CommonCompareSwap(rev, a, b, i + 1); }
      else { LessTrichotomy(a[i], b[i]); }
    }
  }

  /** clustering_key_prefix::less_compare: the first differing component decides; a proper prefix comes first. */
  predicate PrefixLess(rev: seq<bool>, a: Key, b: Key) {
    var c := CommonCompare(rev, a, b, 0);
    c < 0 || (c == 0 && |a| < |b|)
  }

  /** The prefix order is a strict total order on prefixes. */
  lemma PrefixLessTotal(rev: seq<bool>, a: Key, b: Key)
    ensures PrefixLess(rev, a, b) || a == b || PrefixLess(rev, b, a)
    ensures !(PrefixLess(rev, a, b) && PrefixLess(rev, b, a))
  {
    CommonCompareSwap(rev, a, b, 0);
    if CommonCompare(rev, a, b, 0) == 0 && |a| == |b| {
      assert a == a[0..|a|] && b == b[0..|b|];
    }
  }

  /**
   * bound_view: a position relative to the keys with a given prefix, before
   * all of them (weight -1) or after all of them (weight 1).  A missing start
   * is before everything and a missing end after everything.
   */
  datatype BoundView = BoundView(prefix: Key, weight: int)

  function StartView(r: KeyRange): BoundView {
    var s := r.Start();
    if s.None? then BoundView([], -1) else BoundView(s.value.key, if s.value.inclusive then -1 else 1)
  }

  function EndView(r: KeyRange): BoundView {
    var e := r.End();
    if e.None? then BoundView([], 1) else BoundView(e.value.key, if e.value.inclusive then 1 else -1)
  }

  /** bound_view::tri_compare: the common components, then the weights, a shorter prefix deciding by its own weight. */
  function ViewCompare(rev: seq<bool>, x: BoundView, y: BoundView): int {
    var c := CommonCompare(rev, x.prefix, y.prefix, 0);
    if c != 0 then c
    else if |x.prefix| == |y.prefix| then x.weight - y.weight
    else if |x.prefix| < |y.prefix| then (if x.weight <= 0 then -1 else 1)
    else (if y.weight <= 0 then 1 else -1)
  }

  /** A range is backwards when its end view comes before its start view. */
  predicate Backwards(rev: seq<bool>, r: KeyRange) {
    ViewCompare(rev, EndView(r), StartView(r)) < 0
  }

  /** A singular range is never backwards, nor one open on either side. */
  lemma NotBackwards(rev: seq<bool>, r: KeyRange)
    requires r.Singular? || r.Start().None? || r.End().None?
    ensures !Backwards(rev, r)
  {
    if r.Singular? {
      assert CommonCompare(rev, r.key, r.key, 0) == 0 by { CommonCompareSwap(rev, r.key, r.key, 0); }
    }
  }

  /** The range's own prefix with a lower then upper bound appended is backwards when the bounds cross. */
  lemma CrossedBoundsBackwards(rev: seq<bool>, p: Key, lo: Bytes, hi: Bytes)
    requires Less(hi, lo) && !(|p| < |rev| && rev[|p|])
    ensures Backwards(rev, Between(Some(KeyBound(p + [lo], true)), Some(KeyBound(p + [hi], true))))
  {
    var a, b := p + [hi], p + [lo];
    CommonPrefix(rev, a, b, p);
    LessTrichotomy(hi, lo);
  }

  lemma {:induction false} CommonPrefix(rev: seq<bool>, a: Key, b: Key, p: Key)
    requires |p| < |a| && |p| < |b| && a[..|p|] == p && b[..|p|] == p
    ensures CommonCompare(rev, a, b, 0) == CommonCompare(rev, a, b, |p|)
  {
    var i := |p|;
    while i > 0
      invariant 0 <= i <= |p|
      invariant CommonCompare(rev, a, b, i) == CommonCompare(rev, a, b, |p|)
    {
      i := i - 1;
      assert a[i] == p[i] == b[i];
    }
  }

  // ---------------------------------------------------------------------------
  // Finishing clustering ranges
  // ---------------------------------------------------------------------------

  /** The ranges that are not backwards, in their order. */
  function Forward(rev: seq<bool>, rs: seq<KeyRange>): (r: seq<KeyRange>)
    ensures forall x :: x in r <==> x in rs && !Backwards(rev, x)
  {
    if rs == [] then []
    else if Backwards(rev, rs[0]) then Forward(rev, rs[1..])
    else [rs[0]] + Forward(rev, rs[1..])
  }

  /** The sort comparator: an unbounded start first, then by the start's prefix. */
  predicate StartLess(rev: seq<bool>, x: KeyRange, y: KeyRange) {
    var a, b := x.Start(), y.Start();
    if a.None? && b.None? then false
    else if a.None? then true
    else if b.None? then false
    else PrefixLess(rev, a.value.key, b.value.key)
  }

  /** The unique predicate: both starts unbounded, or both bounded with equal prefixes. */
  predicate SameStart(x: KeyRange, y: KeyRange) {
    var a, b := x.Start(), y.Start();
    (a.None? && b.None?) || (a.Some? && b.Some? && a.value.key == b.value.key)
  }

  lemma StartOrder(rev: seq<bool>, x: KeyRange, y: KeyRange)
    ensures StartLess(rev, x, y) || SameStart(x, y) || StartLess(rev, y, x)
    ensures !(StartLess(rev, x, y) && StartLess(rev, y, x))
    ensures SameStart(x, y) ==> !StartLess(rev, x, y)
  {
    if x.Start().Some? && y.Start().Some? {
      PrefixLessTotal(rev, x.Start().value.key, y.Start().value.key);
    }
  }

  predicate SortedByStart(rev: seq<bool>, rs: seq<KeyRange>) {
    forall k :: 0 <= k < |rs| - 1 ==> !StartLess(rev, rs[k + 1], rs[k])
  }

  /** Inserts x after the ranges that start before it. */
  function InsertByStart(rev: seq<bool>, x: KeyRange, rs: seq<KeyRange>): (r: seq<KeyRange>)
    requires SortedByStart(rev, rs)
    ensures SortedByStart(rev, r) && multiset(r) == multiset(rs) + multiset{x}
    ensures |r| > 0 && (r[0] == x || (rs != [] && r[0] == rs[0]))
  {
    if rs == [] || !StartLess(rev, rs[0], x) then
      assert rs != [] ==> !StartLess(rev, rs[0], x);
      [x] + rs
    else
      var tail := InsertByStart(rev, x, rs[1..]);
      StartOrder(rev, rs[0], x);
      assert rs == [rs[0]] + rs[1..];
      [rs[0]] + tail
  }

  /** std::sort of the ranges by start; this model is the stable insertion sort. */
  function SortByStart(rev: seq<bool>, rs: seq<KeyRange>): (r: seq<KeyRange>)
    ensures SortedByStart(rev, r) && multiset(r) == multiset(rs)
  {
    if rs == [] then [] else
      assert rs == [rs[0]] + rs[1..];
      InsertByStart(rev, rs[0], SortByStart(rev, rs[1..]))
  }

  /** std::unique with SameStart: of each run of adjacent ranges with the same start only the first stays. */
  function UniqueStarts(rs: seq<KeyRange>): (r: seq<KeyRange>)
    decreases |rs|
    ensures |r| <= |rs| && (rs != [] ==> r != [] && r[0] == rs[0])
    ensures forall x :: x in r ==> x in rs
  {
    if |rs| <= 1 then rs
    else if SameStart(rs[0], rs[1]) then UniqueStarts([rs[0]] + rs[2..])
    else [rs[0]] + UniqueStarts(rs[1..])
  }

  /** After sorting and removing duplicates the starts strictly increase, and no start is lost. */
  lemma {:induction false} UniqueStartsSorted(rev: seq<bool>, rs: seq<KeyRange>)
    requires SortedByStart(rev, rs)
    ensures forall k :: 0 <= k < |UniqueStarts(rs)| - 1 ==> StartLess(rev, UniqueStarts(rs)[k], UniqueStarts(rs)[k + 1])
    ensures forall x :: x in rs ==> exists y :: y in UniqueStarts(rs) && SameStart(x, y)
    decreases |rs|
  {
    if |rs| > 1 {
      var r := UniqueStarts(rs);
      if SameStart(rs[0], rs[1]) {
        var rest := [rs[0]] + rs[2..];
        assert SortedByStart(rev, rest) by {
          forall k | 0 <= k < |rest| - 1 ensures !StartLess(rev, rest[k + 1], rest[k]) {
            if k == 0 {
              StartOrder(rev, rs[0], rs[1]);
              StartOrder(rev, rs[1], rs[2]);
              SameStartLess(rev, rs[0], rs[1], rs[2]);
            } else {
              assert rest[k] == rs[k + 1] && rest[k + 1] == rs[k + 2];
            }
          }
        }
        UniqueStartsSorted(rev, rest);
        forall x | x in rs ensures exists y :: y in r && SameStart(x, y) {
          if x == rs[1] {
            assert r[0] == rs[0] && SameStart(x, rs[0]);
          } else {
            assert x in rest;
          }
        }
      } else {
        var tail := UniqueStarts(rs[1..]);
        assert SortedByStart(rev, rs[1..]) by {
          forall k | 0 <= k < |rs[1..]| - 1 ensures !StartLess(rev, rs[1..][k + 1], rs[1..][k]) {
            assert rs[1..][k] == rs[k + 1] && rs[1..][k + 1] == rs[k + 2];
          }
        }
        UniqueStartsSorted(rev, rs[1..]);
        StartOrder(rev, rs[0], rs[1]);
        assert r == [rs[0]] + tail && tail[0] == rs[1];
        forall k | 0 <= k < |r| - 1 ensures StartLess(rev, r[k], r[k + 1]) {
          if k > 0 { assert r[k] == tail[k - 1] && r[k + 1] == tail[k]; }
        }
        forall x | x in rs ensures exists y :: y in r && SameStart(x, y) {
          if x == rs[0] {
            assert r[0] == x && SameStart(x, x);
          } else {
            assert x in rs[1..];
          }
        }
      }
    } else if |rs| == 1 {
      assert SameStart(rs[0], rs[0]);
    }
  }

  /** Equal starts are interchangeable in the order. */
  lemma SameStartLess(rev: seq<bool>, x: KeyRange, y: KeyRange, z: KeyRange)
    requires SameStart(x, y)
    ensures StartLess(rev, z, x) <==> StartLess(rev, z, y)
  {
  }
}
