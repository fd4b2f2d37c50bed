/**
 * Serialized values.  Every CQL type comparator (abstract_type::compare) and the
 * bytewise operator< that keeps value lists sorted are modelled by one total order
 * on byte strings: lexicographic comparison.
 */
module Values {

  type Bytes = seq<int>

  /** Three-way comparison: negative, zero or positive. */
  function Compare(a: Bytes, b: Bytes): (r: int)
    ensures -1 <= r <= 1
    ensures r == 0 <==> a == b
  {
    if a == [] then (if b == [] then 0 else -1)
    else if b == [] then 1
    else if a[0] < b[0] then -1
    else if a[0] > b[0] then 1
    else
      var r := Compare(a[1..], b[1..]);
      assert r == 0 ==> a == [a[0]] + a[1..] == [b[0]] + b[1..] == b;
      assert a == b ==> a[1..] == b[1..];
      r
  }

  predicate Less(a: Bytes, b: Bytes) {
    Compare(a, b) < 0
  }

  lemma {:induction false} CompareAntisymmetric(a: Bytes, b: Bytes)
    ensures Compare(a, b) == -Compare(b, a)
  {
    if a != [] && b != [] && a[0] == b[0] {
      CompareAntisymmetric(a[1..], b[1..]);
    }
  }

  lemma {:induction false} LessTransitive(a: Bytes, b: Bytes, c: Bytes)
    requires Less(a, b) && Less(b, c)
    ensures Less(a, c)
  {
    if a != [] && b != [] && c != [] && a[0] == b[0] == c[0] {
      LessTransitive(a[1..], b[1..], c[1..]);
    }
  }

  /** Exactly one of a < b, a == b, b < a holds. */
  lemma LessTrichotomy(a: Bytes, b: Bytes)
    ensures Less(a, b) || a == b || Less(b, a)
    ensures !(Less(a, b) && Less(b, a))
  {
    CompareAntisymmetric(a, b);
  }

  /** Strictly increasing: sorted with no duplicates (the value_list invariant). */
  predicate StrictlySorted(s: seq<Bytes>) {
    forall i, j :: 0 <= i < j < |s| ==> Less(s[i], s[j])
  }

  lemma StrictlySortedTail(s: seq<Bytes>)
    requires StrictlySorted(s) && s != []
    ensures StrictlySorted(s[1..])
    ensures forall x :: x in s[1..] ==> Less(s[0], x)
  {
  }

  lemma StrictlySortedCons(x: Bytes, s: seq<Bytes>)
    requires StrictlySorted(s)
    requires forall y :: y in s ==> Less(x, y)
    ensures StrictlySorted([x] + s)
  {
    var t := [x] + s;
    forall i, j | 0 <= i < j < |t| ensures Less(t[i], t[j]) {
      if i == 0 { assert t[j] in s; } else { assert t[i] == s[i - 1] && t[j] == s[j - 1]; }
    }
  }

  /** Inserts x into a strictly sorted list, keeping it strictly sorted. */
  function Insert(x: Bytes, s: seq<Bytes>): (r: seq<Bytes>)
    requires StrictlySorted(s)
    ensures StrictlySorted(r)
    ensures forall y :: y in r <==> y == x || y in s
  {
    if s == [] then [x]
    else if x == s[0] then s
    else if Less(x, s[0]) then
      assert forall y :: y in s ==> Less(x, y) by {
        forall y | y in s ensures Less(x, y) {
          if y != s[0] { StrictlySortedTail(s); LessTransitive(x, s[0], y); }
        }
      }
      StrictlySortedCons(x, s);
      [x] + s
    else
      StrictlySortedTail(s);
      var rest := Insert(x, s[1..]);
      LessTrichotomy(x, s[0]);
      assert s == [s[0]] + s[1..];
      StrictlySortedCons(s[0], rest);
      [s[0]] + rest
  }

  /** boost::unique(boost::sort(values)): the sorted, deduplicated list of the given values. */
  function SortUnique(s: seq<Bytes>): (r: seq<Bytes>)
    ensures StrictlySorted(r)
    ensures forall y :: y in r <==> y in s
  {
    if s == [] then []
    else
      var rest := SortUnique(s[1..]);
      assert s == [s[0]] + s[1..];
      Insert(s[0], rest)
  }
}
