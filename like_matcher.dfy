/**
 * The LIKE matcher: a pattern of code points is compiled into a small
 * nondeterministic automaton, which is then run on a text by tracking the set
 * of states the text may have reached.
 *
 * The meaning of a pattern is given independently of the automaton: the
 * pattern is read into a sequence of elements (a literal, '_', "% then c",
 * trailing '%'), and Consumes says which texts a sequence of elements accepts.
 * The automaton is proved to accept exactly those texts.
 */
module LikeMatcher {

  /** A pattern or text character (a UTF-32 code point). */
  type CodePoint = int

  const Underscore: CodePoint := 95  // '_'
  const Percent: CodePoint := 37     // '%'
  const Backslash: CodePoint := 92   // '\', the escape character

  // ---------------------------------------------------------------------------
  // Pattern elements and their meaning
  // ---------------------------------------------------------------------------

  datatype Elem =
    | Lit(c: CodePoint)     // one character equal to c
    | AnyOne                // '_': one character of any value
    | SkipTo(c: CodePoint)  // '%' followed by c: any characters, then c
    | Rest                  // '%' ending the pattern: any remaining characters

  /** The texts a sequence of pattern elements accepts, the whole text being matched. */
  predicate Consumes(e: seq<Elem>, t: seq<CodePoint>)
    decreases |e|, |t|
  {
    if e == [] then t == []
    else match e[0]
      case Lit(c) => t != [] && t[0] == c && Consumes(e[1..], t[1..])
      case AnyOne => t != [] && Consumes(e[1..], t[1..])
      case SkipTo(c) => t != [] && ((t[0] == c && Consumes(e[1..], t[1..])) || Consumes(e, t[1..]))
      case Rest => true
  }

  /** Index of the first character at or after i that is not '%'. */
  function SkipPercents(p: seq<CodePoint>, i: nat): (j: nat)
    requires i <= |p|
    ensures i <= j <= |p|
    ensures j < |p| ==> p[j] != Percent
    ensures forall k :: i <= k < j ==> p[k] == Percent
    decreases |p| - i
  {
    if i < |p| && p[i] == Percent then SkipPercents(p, i + 1) else i
  }

  /**
   * The elements of the pattern from index i on, read the way the matcher's
   * constructor reads them; `escaping` says that p[i-1] was an escaping '\'.
   */
  function ParseFrom(p: seq<CodePoint>, i: nat, escaping: bool): seq<Elem>
    requires i <= |p|
    decreases |p| - i
  {
    if i == |p| then []
    else
      var ends := i + 1 == |p|;
      if !escaping && p[i] == Backslash && !ends then ParseFrom(p, i + 1, true)
      else if p[i] == Underscore && !escaping then [AnyOne] + ParseFrom(p, i + 1, false)
      else if p[i] == Percent && !escaping then
        var j := SkipPercents(p, i);
        if j == |p| then [Rest]
        else if p[j] == Backslash && j + 1 < |p| then [SkipTo(p[j + 1])] + ParseFrom(p, j + 2, false)
        else [SkipTo(p[j])] + ParseFrom(p, j + 1, false)
      else [Lit(p[i])] + ParseFrom(p, i + 1, false)
  }

  function Parse(p: seq<CodePoint>): seq<Elem> {
    ParseFrom(p, 0, false)
  }

  /** `text LIKE pattern` as the matcher decides it. */
  predicate Like(pattern: seq<CodePoint>, text: seq<CodePoint>) {
    Consumes(Parse(pattern), text)
  }

  /** The rest of a pattern yields no element exactly when nothing is left of it. */
  lemma {:induction false} ParseFromEmpty(p: seq<CodePoint>, i: nat, escaping: bool)
    requires i <= |p|
    requires escaping ==> i < |p|
    ensures ParseFrom(p, i, escaping) == [] <==> i == |p|
    decreases |p| - i
  {
    if i < |p| && !escaping && p[i] == Backslash && i + 1 < |p| {
      ParseFromEmpty(p, i + 1, true);
    }
  }

  // ---------------------------------------------------------------------------
  // What patterns mean
  // ---------------------------------------------------------------------------

  /** A pattern without '%' whose only '\' , if any, is its last character. */
  predicate FixedWidth(p: seq<CodePoint>) {
    forall i :: 0 <= i < |p| ==> p[i] != Percent && (p[i] == Backslash ==> i == |p| - 1)
  }

  /** The text agrees with the pattern position by position, '_' agreeing with anything. */
  predicate AgreesWith(p: seq<CodePoint>, t: seq<CodePoint>)
    requires |t| == |p|
  {
    forall i :: 0 <= i < |p| ==> p[i] == Underscore || t[i] == p[i]
  }

  /** The elements of a fixed-width pattern: AnyOne for '_', a literal for anything else. */
  function FixedElems(q: seq<CodePoint>): (e: seq<Elem>)
    ensures |e| == |q|
  {
    if q == [] then [] else [if q[0] == Underscore then AnyOne else Lit(q[0])] + FixedElems(q[1..])
  }

  lemma {:induction false} ParseFixed(p: seq<CodePoint>, i: nat)
    requires FixedWidth(p) && i <= |p|
    ensures ParseFrom(p, i, false) == FixedElems(p[i..])
    decreases |p| - i
  {
    if i < |p| {
      ParseFixed(p, i + 1);
      assert p[i..][1..] == p[i + 1..];
    }
  }

  /** Fixed-width elements followed by r consume t when t starts with an agreeing text and r consumes the rest. */
  lemma {:induction false} ConsumesFixed(q: seq<CodePoint>, r: seq<Elem>, t: seq<CodePoint>)
    ensures Consumes(FixedElems(q) + r, t) <==>
      |t| >= |q| && AgreesWith(q, t[..|q|]) && Consumes(r, t[|q|..])
  {
    if q != [] {
      var e := FixedElems(q) + r;
      assert e[0] == FixedElems(q)[0] && e[1..] == FixedElems(q[1..]) + r;
      if t != [] {
        ConsumesFixed(q[1..], r, t[1..]);
        if |t| >= |q| {
          assert t[1..][|q| - 1..] == t[|q|..];
          assert t[1..][..|q| - 1] == t[..|q|][1..];
        }
      }
    } else {
      assert FixedElems(q) + r == r && t[|q|..] == t;
    }
  }

  /** A pattern of ordinary characters and '_' matches exactly the texts of its length that agree with it. */
  lemma FixedWidthLike(p: seq<CodePoint>, t: seq<CodePoint>)
    requires FixedWidth(p)
    ensures Like(p, t) <==> |t| == |p| && AgreesWith(p, t)
  {
    ParseFixed(p, 0);
    assert p[0..] == p;
    ConsumesFixed(p, [], t);
    assert FixedElems(p) + [] == FixedElems(p);
  }

  /** With only ordinary characters, LIKE is equality. */
  lemma LiteralLike(p: seq<CodePoint>, t: seq<CodePoint>)
    requires forall i :: 0 <= i < |p| ==> p[i] != Percent && p[i] != Underscore && p[i] != Backslash
    ensures Like(p, t) <==> t == p
  {
    FixedWidthLike(p, t);
    if |t| == |p| && AgreesWith(p, t) {
      assert forall i :: 0 <= i < |p| ==> t[i] == p[i];
    }
  }

  lemma {:induction false} ParseFixedThenPercent(p: seq<CodePoint>, i: nat)
    requires forall k :: 0 <= k < |p| ==> p[k] != Percent && p[k] != Backslash
    requires i <= |p|
    ensures ParseFrom(p + [Percent], i, false) == FixedElems(p[i..]) + [Rest]
    decreases |p| - i
  {
    var P := p + [Percent];
    if i < |p| {
      ParseFixedThenPercent(p, i + 1);
      assert p[i..][1..] == p[i + 1..];
      assert P[i] == p[i];
    } else {
      assert P[i] == Percent;
      assert SkipPercents(P, i) == |P|;
    }
  }

  /** A fixed-width pattern followed by '%' matches the texts that start with an agreeing text. */
  lemma PrefixLike(p: seq<CodePoint>, t: seq<CodePoint>)
    requires forall k :: 0 <= k < |p| ==> p[k] != Percent && p[k] != Backslash
    ensures Like(p + [Percent], t) <==> |t| >= |p| && AgreesWith(p, t[..|p|])
  {
    ParseFixedThenPercent(p, 0);
    assert p[0..] == p;
    ConsumesFixed(p, [Rest], t);
  }

  lemma {:induction false} ConsumesSkipTo(c: CodePoint, t: seq<CodePoint>)
    ensures Consumes([SkipTo(c)], t) <==> t != [] && t[|t| - 1] == c
  {
    if t != [] {
      assert [SkipTo(c)][1..] == [];
      ConsumesSkipTo(c, t[1..]);
    }
  }

  /** '%' followed by one character c other than '%' and '_' matches the texts that end in c. */
  lemma PercentThenLike(c: CodePoint, t: seq<CodePoint>)
    requires c != Percent && c != Underscore
    ensures Like([Percent, c], t) <==> t != [] && t[|t| - 1] == c
  {
    var p := [Percent, c];
    assert SkipPercents(p, 1) == 1;
    assert SkipPercents(p, 0) == 1;
    assert ParseFrom(p, 2, false) == [];
    assert ParseFrom(p, 0, false) == [SkipTo(p[1])] + ParseFrom(p, 2, false);
    assert Parse(p) == [SkipTo(c)];
    assert Like(p, t) == Consumes([SkipTo(c)], t);
    ConsumesSkipTo(c, t);
  }

  /** P from index I on holds the same characters as p from index i on. */
  predicate SameFrom(P: seq<CodePoint>, I: nat, p: seq<CodePoint>, i: nat) {
    I <= |P| && i <= |p| && |P| - I == |p| - i &&
    forall k :: i <= k < |p| ==> P[I + (k - i)] == p[k]
  }

  /** Equal suffixes stay equal as both start indices advance by n. */
  lemma SameFromAdvance(P: seq<CodePoint>, I: nat, p: seq<CodePoint>, i: nat, n: nat)
    requires SameFrom(P, I, p, i) && n <= |p| - i
    ensures SameFrom(P, I + n, p, i + n)
    ensures n < |p| - i ==> P[I + n] == p[i + n]
  {
    forall k | i + n <= k < |p| ensures P[I + n + (k - (i + n))] == p[k] {
      assert I + n + (k - (i + n)) == I + (k - i);
    }
    if n < |p| - i {
      assert P[I + ((i + n) - i)] == p[i + n];
    }
  }

  /** Skipping '%' depends only on the pattern from the index on. */
  lemma {:induction false} SkipPercentsSame(P: seq<CodePoint>, I: nat, p: seq<CodePoint>, i: nat)
    requires SameFrom(P, I, p, i)
    ensures SkipPercents(P, I) - I == SkipPercents(p, i) - i
    decreases |p| - i
  {
    if i < |p| {
      SameFromAdvance(P, I, p, i, 0);
      SameFromAdvance(P, I, p, i, 1);
      SkipPercentsSame(P, I + 1, p, i + 1);
    }
  }

  /** What ParseFrom reads for a '%' run at index i that ends the pattern. */
  lemma PercentRestUnfold(p: seq<CodePoint>, i: nat)
    requires i < |p| && p[i] == Percent && SkipPercents(p, i) == |p|
    ensures ParseFrom(p, i, false) == [Rest]
  {
  }

  /** What ParseFrom reads for a '%' run at index i followed by an escaped character. */
  lemma PercentEscapeUnfold(p: seq<CodePoint>, i: nat, j: nat)
    requires i < |p| && p[i] == Percent && j == SkipPercents(p, i)
    requires j + 1 < |p| && p[j] == Backslash
    ensures ParseFrom(p, i, false) == [SkipTo(p[j + 1])] + ParseFrom(p, j + 2, false)
  {
  }

  /** What ParseFrom reads for a '%' run at index i followed by a plain character. */
  lemma PercentPlainUnfold(p: seq<CodePoint>, i: nat, j: nat)
    requires i < |p| && p[i] == Percent && j == SkipPercents(p, i)
    requires j < |p| && !(p[j] == Backslash && j + 1 < |p|)
    ensures ParseFrom(p, i, false) == [SkipTo(p[j])] + ParseFrom(p, j + 1, false)
  {
  }

  /** Reading a pattern depends only on the pattern from the index on. */
  lemma {:induction false} ParseFromSame(P: seq<CodePoint>, I: nat, p: seq<CodePoint>, i: nat, escaping: bool)
    requires SameFrom(P, I, p, i)
    ensures ParseFrom(P, I, escaping) == ParseFrom(p, i, escaping)
    decreases |p| - i, 1
  {
    if i < |p| {
      SameFromAdvance(P, I, p, i, 0);
      SameFromAdvance(P, I, p, i, 1);
      if !escaping && p[i] == Backslash && i + 1 != |p| {
        ParseFromSame(P, I + 1, p, i + 1, true);
      } else if p[i] == Percent && !escaping {
        ParsePercentSame(P, I, p, i);
      } else {
        ParseFromSame(P, I + 1, p, i + 1, false);
      }
    }
  }

  /** The same, for a '%' run at index i. */
  lemma {:induction false} ParsePercentSame(P: seq<CodePoint>, I: nat, p: seq<CodePoint>, i: nat)
    requires SameFrom(P, I, p, i) && i < |p| && p[i] == Percent
    ensures ParseFrom(P, I, false) == ParseFrom(p, i, false)
    decreases |p| - i, 0
  {
    var j := SkipPercents(p, i);
    if j == |p| {
      PercentRestSame(P, I, p, i);
    } else if p[j] == Backslash && j + 1 < |p| {
      var n := j + 2 - i;
      SameFromAdvance(P, I, p, i, n);
      assert i + n == j + 2;
      ParseFromSame(P, I + n, p, j + 2, false);
      PercentEscapeSame(P, I, p, i, j);
    } else {
      var n := j + 1 - i;
      SameFromAdvance(P, I, p, i, n);
      assert i + n == j + 1;
      ParseFromSame(P, I + n, p, j + 1, false);
      PercentPlainSame(P, I, p, i, j);
    }
  }

  lemma PercentRestSame(P: seq<CodePoint>, I: nat, p: seq<CodePoint>, i: nat)
    requires SameFrom(P, I, p, i) && i < |p| && p[i] == Percent && SkipPercents(p, i) == |p|
    ensures ParseFrom(P, I, false) == ParseFrom(p, i, false)
  {
    SameFromAdvance(P, I, p, i, 0);
    SkipPercentsSame(P, I, p, i);
    PercentRestUnfold(p, i);
    PercentRestUnfold(P, I);
  }

  lemma PercentEscapeSame(P: seq<CodePoint>, I: nat, p: seq<CodePoint>, i: nat, j: nat)
    requires SameFrom(P, I, p, i) && i < |p| && p[i] == Percent && j == SkipPercents(p, i)
    requires j + 1 < |p| && p[j] == Backslash
    requires ParseFrom(P, I + (j + 2 - i), false) == ParseFrom(p, j + 2, false)
    ensures ParseFrom(P, I, false) == ParseFrom(p, i, false)
  {
    SameFromAdvance(P, I, p, i, 0);
    SkipPercentsSame(P, I, p, i);
    var J := I + (j - i);
    assert SkipPercents(P, I) == J;
    SameFromAdvance(P, I, p, i, j - i);
    SameFromAdvance(P, I, p, i, j + 1 - i);
    PercentEscapeUnfold(p, i, j);
    PercentEscapeUnfold(P, I, J);
  }

  lemma PercentPlainSame(P: seq<CodePoint>, I: nat, p: seq<CodePoint>, i: nat, j: nat)
    requires SameFrom(P, I, p, i) && i < |p| && p[i] == Percent && j == SkipPercents(p, i)
    requires j < |p| && !(p[j] == Backslash && j + 1 < |p|)
    requires ParseFrom(P, I + (j + 1 - i), false) == ParseFrom(p, j + 1, false)
    ensures ParseFrom(P, I, false) == ParseFrom(p, i, false)
  {
    SameFromAdvance(P, I, p, i, 0);
    SkipPercentsSame(P, I, p, i);
    var J := I + (j - i);
    assert SkipPercents(P, I) == J;
    SameFromAdvance(P, I, p, i, j - i);
    assert |P| - I == |p| - i;
    PercentPlainUnfold(p, i, j);
    PercentPlainUnfold(P, I, J);
  }

  lemma SkipPercentsShift(x: seq<CodePoint>, p: seq<CodePoint>, i: nat)
    requires i <= |p|
    ensures SkipPercents(x + p, |x| + i) == |x| + SkipPercents(p, i)
  {
    ShiftSame(x, p, i);
    SkipPercentsSame(x + p, |x| + i, p, i);
  }

  /** Reading a pattern's suffix does not depend on what precedes it. */
  lemma ParseFromShift(x: seq<CodePoint>, p: seq<CodePoint>, i: nat, escaping: bool)
    requires i <= |p|
    ensures ParseFrom(x + p, |x| + i, escaping) == ParseFrom(p, i, escaping)
  {
    ShiftSame(x, p, i);
    ParseFromSame(x + p, |x| + i, p, i, escaping);
  }

  lemma ShiftSame(x: seq<CodePoint>, p: seq<CodePoint>, i: nat)
    requires i <= |p|
    ensures SameFrom(x + p, |x| + i, p, i)
  {
    forall k | i <= k < |p| ensures (x + p)[|x| + i + (k - i)] == p[k] {
      assert |x| + i + (k - i) == |x| + k;
    }
  }

  /** A run of '%' matches like a single '%'. */
  lemma GluedPercentsLike(q: seq<CodePoint>, t: seq<CodePoint>)
    ensures Like([Percent, Percent] + q, t) == Like([Percent] + q, t)
  {
    var P := [Percent, Percent] + q;
    assert P == [Percent] + ([Percent] + q);
    assert SkipPercents(P, 0) == SkipPercents(P, 1);
    assert ParseFrom(P, 0, false) == ParseFrom(P, 1, false);
    ParseFromShift([Percent], [Percent] + q, 0, false);
  }

  /** '\' followed by any character matches that character alone. */
  lemma EscapeLike(c: CodePoint, t: seq<CodePoint>)
    ensures Like([Backslash, c], t) <==> t == [c]
  {
    var p := [Backslash, c];
    assert ParseFrom(p, 2, false) == [];
    assert ParseFrom(p, 1, true) == [Lit(c)] + ParseFrom(p, 2, false);
    assert Parse(p) == [Lit(c)];
    assert Like(p, t) == Consumes([Lit(c)], t);
    assert [Lit(c)][1..] == [];
    if t == [c] {
      assert t[1..] == [];
      assert Consumes([], t[1..]);
      assert Consumes([Lit(c)], t);
    }
    if Consumes([Lit(c)], t) {
      assert t != [] && t[0] == c && Consumes([], t[1..]);
      assert t == [t[0]] + t[1..];
    }
  }

  // ---------------------------------------------------------------------------
  // The automaton
  // ---------------------------------------------------------------------------

  datatype MatchType = Fail | Eos | Succ | Skip1 | Match | MatchOrSkip

  /** One automaton state: its kind, the character it expects, whether it accepts, its successor. */
  datatype State = State(kind: MatchType, ch: CodePoint, matchFound: bool, next: nat)

  /** Fixed state positions: the failure state, the end-of-text state, the first pattern state. */
  const IFail: nat := 0
  const IEos: nat := 1
  const MinSize: nat := 2

  const FailState := State(Fail, 0, false, IFail)
  const EosState := State(Eos, 0, true, IFail)

  /** The automaton's shape: the fixed states, at least one pattern state, successors in range. */
  predicate WellFormed(st: seq<State>) {
    |st| > MinSize && st[IFail] == FailState && st[IEos] == EosState &&
    (forall q :: 0 <= q < |st| ==> st[q].next < |st|) &&
    (forall q :: 0 <= q < |st| && st[q].kind == Succ ==> st[q].matchFound) &&
    (forall q :: 0 <= q < |st| && st[q].kind == Fail ==> !st[q].matchFound)
  }

  /** The states the automaton may move to from state q on character c. */
  function Succs(st: seq<State>, q: nat, c: CodePoint): set<nat>
    requires q < |st|
  {
    var s := st[q];
    match s.kind
    case Skip1 => {s.next}
    case Match => if c == s.ch then {s.next} else {IFail}
    case MatchOrSkip => {q} + (if c == s.ch then {s.next} else {})
    case Eos => {IFail}
    case _ => {q}
  }

  /** Whether some run from state q over t ends in an accepting state. */
  predicate AcceptsFrom(st: seq<State>, q: nat, t: seq<CodePoint>)
    requires WellFormed(st) && q < |st|
    decreases |t|
  {
    if t == [] then st[q].matchFound
    else exists r :: r in Succs(st, q, t[0]) && AcceptsFrom(st, r, t[1..])
  }

  /** Whether some run from some state of S over t ends in an accepting state. */
  predicate AcceptsFromSome(st: seq<State>, S: set<nat>, t: seq<CodePoint>)
    requires WellFormed(st) && forall q :: q in S ==> q < |st|
  {
    exists q :: q in S && AcceptsFrom(st, q, t)
  }

  /** The state of element j of e, followed by the next element's state or the end-of-text state. */
  function StateOf(e: seq<Elem>, j: nat): State
    requires j < |e|
  {
    var next := if j == |e| - 1 then IEos else j + 3;
    match e[j]
    case Lit(c) => State(Match, c, false, next)
    case AnyOne => State(Skip1, 0, false, next)
    case SkipTo(c) => State(MatchOrSkip, c, false, next)
    case Rest => State(Succ, 0, true, IFail)
  }

  function Compile(e: seq<Elem>): (st: seq<State>)
    ensures |st| == |e| + MinSize
    ensures e != [] ==> WellFormed(st)
  {
    [FailState, EosState] + seq(|e|, j requires 0 <= j < |e| => StateOf(e, j))
  }

  lemma {:induction false} FailRejects(st: seq<State>, t: seq<CodePoint>)
    requires WellFormed(st)
    ensures !AcceptsFrom(st, IFail, t)
    decreases |t|
  {
    if t != [] {
      assert Succs(st, IFail, t[0]) == {IFail};
      FailRejects(st, t[1..]);
    }
  }

  lemma {:induction false} SuccAccepts(st: seq<State>, q: nat, t: seq<CodePoint>)
    requires WellFormed(st) && q < |st| && st[q].kind == Succ
    ensures AcceptsFrom(st, q, t)
    decreases |t|
  {
    if t != [] {
      assert q in Succs(st, q, t[0]);
      SuccAccepts(st, q, t[1..]);
    }
  }

  lemma EosAcceptsEmpty(st: seq<State>, t: seq<CodePoint>)
    requires WellFormed(st)
    ensures AcceptsFrom(st, IEos, t) <==> t == []
  {
    if t != [] {
      assert Succs(st, IEos, t[0]) == {IFail};
      FailRejects(st, t[1..]);
    }
  }

  /** The successor state of element j accepts what the elements after j consume. */
  lemma NextAccepts(e: seq<Elem>, j: nat, t: seq<CodePoint>)
    requires j < |e| && !e[j].Rest?
    ensures AcceptsFrom(Compile(e), StateOf(e, j).next, t) == Consumes(e[j + 1..], t)
    decreases |t|, 1
  {
    var st := Compile(e);
    if j == |e| - 1 {
      EosAcceptsEmpty(st, t);
      assert e[j + 1..] == [];
    } else {
      StateAccepts(e, j + 1, t);
    }
  }

  /** State 2+j of the compiled automaton accepts exactly what the elements from j on consume. */
  lemma {:induction false} StateAccepts(e: seq<Elem>, j: nat, t: seq<CodePoint>)
    requires j < |e|
    ensures AcceptsFrom(Compile(e), MinSize + j, t) == Consumes(e[j..], t)
    decreases |t|, 0
  {
    var st := Compile(e);
    var q := MinSize + j;
    assert st[q] == StateOf(e, j);
    assert e[j..][0] == e[j] && e[j..][1..] == e[j + 1..];
    if t != [] {
      var c := t[0];
      match e[j]
      case Lit(x) =>
        if c == x {
          assert Succs(st, q, c) == {st[q].next};
          NextAccepts(e, j, t[1..]);
        } else {
          assert Succs(st, q, c) == {IFail};
          FailRejects(st, t[1..]);
        }
      case AnyOne =>
        assert Succs(st, q, c) == {st[q].next};
        NextAccepts(e, j, t[1..]);
      case SkipTo(x) =>
        StateAccepts(e, j, t[1..]);
        if c == x {
          assert Succs(st, q, c) == {q, st[q].next};
          NextAccepts(e, j, t[1..]);
        } else {
          assert Succs(st, q, c) == {q};
        }
      case Rest =>
        SuccAccepts(st, q, t);
    } else if e[j].Rest? {
      SuccAccepts(st, q, t);
    }
  }

  /** The compiled automaton accepts exactly the texts the elements consume. */
  lemma CompileCorrect(e: seq<Elem>, t: seq<CodePoint>)
    requires e != []
    ensures AcceptsFrom(Compile(e), MinSize, t) == Consumes(e, t)
  {
    StateAccepts(e, 0, t);
    assert e[0..] == e;
  }

  /** One step of the set simulation: the successors of S on c accept t exactly when S accepts c::t. */
  lemma StepAccepts(st: seq<State>, S: set<nat>, c: CodePoint, t: seq<CodePoint>, N: set<nat>)
    requires WellFormed(st) && forall q :: q in S ==> q < |st|
    requires forall r :: r in N <==> exists q :: q in S && r in Succs(st, q, c)
    ensures forall r :: r in N ==> r < |st|
    ensures AcceptsFromSome(st, N, t) == AcceptsFromSome(st, S, [c] + t)
  {
    assert ([c] + t)[0] == c && ([c] + t)[1..] == t;
    if AcceptsFromSome(st, N, t) {
      var r :| r in N && AcceptsFrom(st, r, t);
      var q :| q in S && r in Succs(st, q, c);
      assert AcceptsFrom(st, q, [c] + t);
    }
    if AcceptsFromSome(st, S, [c] + t) {
      var q :| q in S && AcceptsFrom(st, q, [c] + t);
      var r :| r in Succs(st, q, c) && AcceptsFrom(st, r, t);
      assert r in N;
    }
  }

  /** Adding the successors of one more state keeps `next` the successor set of the states done. */
  lemma AddSuccs(st: seq<State>, S: set<nat>, todo: set<nat>, next: set<nat>, si: nat, c: CodePoint)
    requires forall q :: q in S ==> q < |st|
    requires todo <= S && si in todo
    requires forall r :: r in next <==> exists q :: q in S - todo && r in Succs(st, q, c)
    ensures forall r :: r in next + Succs(st, si, c) <==> exists q :: q in S - (todo - {si}) && r in Succs(st, q, c)
  {
    forall r | r in next + Succs(st, si, c)
      ensures exists q :: q in S - (todo - {si}) && r in Succs(st, q, c)
    {
      if r !in Succs(st, si, c) {
        var q :| q in S - todo && r in Succs(st, q, c);
        assert q in S - (todo - {si});
      }
    }
  }

  /**
   * What the constructor pushes for the element read at pattern index i, when
   * that element is x and the pattern goes on to pattern index i2: the state
   * of element k of the parse.
   */
  lemma NextElement(p: seq<CodePoint>, e: seq<Elem>, k: nat, i2: nat, x: Elem)
    requires i2 <= |p| && k <= |e| && !x.Rest?
    requires e[k..] == [x] + ParseFrom(p, i2, false)
    ensures k < |e| && e[k + 1..] == ParseFrom(p, i2, false)
    ensures StateOf(e, k) == match x
      case Lit(c) => State(Match, c, false, if i2 == |p| then IEos else k + 3)
      case AnyOne => State(Skip1, 0, false, if i2 == |p| then IEos else k + 3)
      case SkipTo(c) => State(MatchOrSkip, c, false, if i2 == |p| then IEos else k + 3)
      case Rest => State(Succ, 0, true, IFail)
  {
    assert e[k..][0] == x;
    assert e[k + 1..] == e[k..][1..];
    ParseFromEmpty(p, i2, false);
    assert k == |e| - 1 <==> e[k + 1..] == [];
  }

  /** The states compiled so far: the fixed states, then the states of the first |s| - 2 elements. */
  predicate CompiledPrefix(e: seq<Elem>, s: seq<State>) {
    MinSize <= |s| <= |e| + MinSize && s[IFail] == FailState && s[IEos] == EosState &&
    forall j :: 0 <= j < |s| - MinSize ==> s[MinSize + j] == StateOf(e, j)
  }

  lemma PushState(e: seq<Elem>, s: seq<State>, x: State)
    requires CompiledPrefix(e, s) && |s| - MinSize < |e| && x == StateOf(e, |s| - MinSize)
    ensures CompiledPrefix(e, s + [x])
  {
  }

  lemma CompiledWhole(e: seq<Elem>, s: seq<State>)
    requires CompiledPrefix(e, s) && |s| == |e| + MinSize
    ensures s == Compile(e)
  {
  }

  lemma ParseUnderscore(p: seq<CodePoint>, i: nat)
    requires i < |p| && p[i] == Underscore
    ensures ParseFrom(p, i, false) == [AnyOne] + ParseFrom(p, i + 1, false)
  {
  }

  /** A run of '%' ending the pattern is read as the last element, Rest. */
  lemma ParsePercentRest(p: seq<CodePoint>, e: seq<Elem>, k: nat, i: nat)
    requires i < |p| && p[i] == Percent && k <= |e| && e[k..] == ParseFrom(p, i, false)
    requires SkipPercents(p, i) == |p|
    ensures k == |e| - 1 && StateOf(e, k) == State(Succ, 0, true, IFail)
  {
    assert e[k..] == [Rest];
    assert e[k..][0] == e[k];
  }

  /**
   * A run of '%' followed by a (possibly escaped) character c at index `last` is
   * read as SkipTo(c), and the parse goes on after `last`.
   */
  lemma ParsePercentSkip(p: seq<CodePoint>, e: seq<Elem>, k: nat, i: nat)
    requires i < |p| && p[i] == Percent && k <= |e| && e[k..] == ParseFrom(p, i, false)
    requires SkipPercents(p, i) < |p|
    ensures var j := SkipPercents(p, i);
      var last := if p[j] == Backslash && j + 1 < |p| then j + 1 else j;
      k < |e| && e[k + 1..] == ParseFrom(p, last + 1, false) &&
      StateOf(e, k) == State(MatchOrSkip, p[last], false, if last + 1 == |p| then IEos else k + 3)
  {
    var j := SkipPercents(p, i);
    var last := if p[j] == Backslash && j + 1 < |p| then j + 1 else j;
    assert ParseFrom(p, i, false) == [SkipTo(p[last])] + ParseFrom(p, last + 1, false);
    NextElement(p, e, k, last + 1, SkipTo(p[last]));
  }

  lemma ParseLiteral(p: seq<CodePoint>, i: nat, escaping: bool)
    requires i < |p|
    requires !(!escaping && p[i] == Backslash && i + 1 < |p|)
    requires escaping || (p[i] != Underscore && p[i] != Percent)
    ensures ParseFrom(p, i, escaping) == [Lit(p[i])] + ParseFrom(p, i + 1, false)
  {
  }

  /**
   * The constructor's handling of '%' at pattern index start: the run of '%'
   * is skipped; at the end of the pattern it pushes the accepting SUCC state,
   * otherwise one MatchOrSkip state for the (possibly escaped) character after
   * the run.  `last` is the last pattern index consumed.
   */
  method CompilePercent(p: seq<CodePoint>, ghost e: seq<Elem>, s: seq<State>, start: nat)
    returns (s2: seq<State>, last: nat, done: bool)
    requires start < |p| && p[start] == Percent
    requires CompiledPrefix(e, s) && e[|s| - MinSize..] == ParseFrom(p, start, false)
    ensures CompiledPrefix(e, s2) && |s2| == |s| + 1
    ensures done ==> last == |p| && |s2| == |e| + MinSize
    ensures !done ==> start <= last < |p| && e[|s2| - MinSize..] == ParseFrom(p, last + 1, false)
  {
    ghost var k := |s| - MinSize;
    var nextStatePos := |s| + 1;
    var cur := start;
    while cur < |p| && p[cur] == Percent
      invariant start <= cur <= |p|
      invariant SkipPercents(p, cur) == SkipPercents(p, start)
    {
      cur := cur + 1;
    }
    if cur == |p| {
      ParsePercentRest(p, e, k, start);
      PushState(e, s, State(Succ, 0, true, 0));
      return s + [State(Succ, 0, true, 0)], cur, true;
    }
    ParsePercentSkip(p, e, k, start);
    var nextPattern := p[cur];
    var patternEnds := cur + 1 == |p|;
    if nextPattern == Backslash && !patternEnds {
      cur := cur + 1;
      nextPattern := p[cur];
      patternEnds := cur + 1 == |p|;
    }
    PushState(e, s, State(MatchOrSkip, nextPattern, false, if patternEnds then IEos else nextStatePos));
    s2 := s + [State(MatchOrSkip, nextPattern, false, if patternEnds then IEos else nextStatePos)];
    last := cur;
    done := false;
  }

  /** An '_' or a literal character of the pattern becomes one state. */
  method CompileOne(p: seq<CodePoint>, ghost e: seq<Elem>, s: seq<State>, cur: nat, escaping: bool) returns (s2: seq<State>)
    requires cur < |p| && !(!escaping && p[cur] == Backslash && cur + 1 < |p|) && !(!escaping && p[cur] == Percent)
    requires CompiledPrefix(e, s) && e[|s| - MinSize..] == ParseFrom(p, cur, escaping)
    ensures CompiledPrefix(e, s2) && |s2| == |s| + 1 && e[|s2| - MinSize..] == ParseFrom(p, cur + 1, false)
  {
    ghost var k := |s| - MinSize;
    var patternEnds := cur + 1 == |p|;
    var nextStatePos := |s| + 1;
    if p[cur] == Underscore && !escaping {
      ParseUnderscore(p, cur);
      NextElement(p, e, k, cur + 1, AnyOne);
      PushState(e, s, State(Skip1, 0, false, if patternEnds then IEos else nextStatePos));
      s2 := s + [State(Skip1, 0, false, if patternEnds then IEos else nextStatePos)];
    } else {
      ParseLiteral(p, cur, escaping);
      NextElement(p, e, k, cur + 1, Lit(p[cur]));
      PushState(e, s, State(Match, p[cur], false, if patternEnds then IEos else nextStatePos));
      s2 := s + [State(Match, p[cur], false, if patternEnds then IEos else nextStatePos)];
    }
  }

  /**
   * One turn of the compiling loop at p[cur]: a backslash that escapes the
   * next character, a run of '%', or a single '_' or literal.
   */
  method CompileAt(p: seq<CodePoint>, ghost e: seq<Elem>, s: seq<State>, cur: nat, escaping: bool)
    returns (s2: seq<State>, cur2: nat, escaping2: bool)
    requires cur < |p| && CompiledPrefix(e, s) && e[|s| - MinSize..] == ParseFrom(p, cur, escaping)
    ensures cur < cur2 <= |p| && (escaping2 ==> cur2 < |p|)
    ensures CompiledPrefix(e, s2) && e[|s2| - MinSize..] == ParseFrom(p, cur2, escaping2)
  {
    if !escaping && p[cur] == Backslash && cur + 1 < |p| {
      return s, cur + 1, true;
    }
    if p[cur] == Percent && !escaping {
      var last, done;
      s2, last, done := CompilePercent(p, e, s, cur);
      if done {
        assert e[|s2| - MinSize..] == [];
        return s2, |p|, false;
      }
      return s2, last + 1, false;
    }
    s2 := CompileOne(p, e, s, cur, escaping);
    return s2, cur + 1, false;
  }

  /** The compiled form of a pattern. */
  class Matcher {
    /** The pattern the matcher was built from. */
    ghost const pattern: seq<CodePoint>
    var states: seq<State>

    /** Compiles a non-empty pattern. */
    constructor (p: seq<CodePoint>)
      requires |p| > 0
      ensures pattern == p
      ensures states == Compile(Parse(p))
      ensures WellFormed(states)
    {
      ghost var e := Parse(p);
      ParseFromEmpty(p, 0, false);
      var s := [FailState, EosState];
      var escaping := false;
      var cur := 0;
      while cur < |p|
        invariant 0 <= cur <= |p|
        invariant escaping ==> cur < |p|
        invariant CompiledPrefix(e, s)
        invariant e[|s| - MinSize..] == ParseFrom(p, cur, escaping)
        decreases |p| - cur, if escaping then 0 else 1
      {
        s, cur, escaping := CompileAt(p, e, s, cur, escaping);
      }
      ParseFromEmpty(p, cur, escaping);
      CompiledWhole(e, s);
      pattern := p;
      states := s;
    }

    /** The states reachable from some state of `current` on character ch. */
    method Step(current: set<nat>, ch: CodePoint) returns (next: set<nat>)
      requires WellFormed(states) && forall q :: q in current ==> q < |states|
      ensures forall r :: r in next <==> exists q :: q in current && r in Succs(states, q, ch)
    {
      next := {};
      var todo := current;
      while todo != {}
        invariant todo <= current
        invariant forall r :: r in next <==> exists q :: q in current - todo && r in Succs(states, q, ch)
        decreases |todo|
      {
        var si :| si in todo;
        var st := states[si];
        var add: set<nat>;
        match st.kind {
          case Skip1 =>
            add := {st.next};
          case Match =>
            add := {if ch == st.ch then st.next else IFail};
          case MatchOrSkip =>
            add := {si};
            if ch == st.ch {
              add := add + {st.next};
            }
          case Eos =>
            add := {IFail};
          case _ =>
            add := {si};
        }
        assert add == Succs(states, si, ch);
        AddSuccs(states, current, todo, next, si, ch);
        next := next + add;
        todo := todo - {si};
      }
      assert current - todo == current;
    }

    /**
     * One character of the run: the next set of states, and a verdict when the
     * run can stop early (a success state reached, or only the failure state left).
     */
    method Advance(current: set<nat>, ch: CodePoint, ghost rest: seq<CodePoint>) returns (next: set<nat>, stop: bool, verdict: bool)
      requires WellFormed(states) && forall q :: q in current ==> q < |states|
      ensures forall q :: q in next ==> q < |states|
      ensures stop ==> verdict == AcceptsFromSome(states, current, [ch] + rest)
      ensures !stop ==> AcceptsFromSome(states, next, rest) == AcceptsFromSome(states, current, [ch] + rest)
    {
      next := Step(current, ch);
      StepAccepts(states, current, ch, rest, next);
      if exists q :: q in next && states[q].kind == Succ {
        var q :| q in next && states[q].kind == Succ;
        SuccAccepts(states, q, rest);
        return next, true, true;
      }
      if next == {IFail} {
        FailRejects(states, rest);
        return next, true, false;
      }
      return next, false, false;
    }

    /** Runs the compiled pattern on a text: true iff the text matches the whole pattern. */
    method Matches(text: seq<CodePoint>) returns (r: bool)
      requires WellFormed(states) && states == Compile(Parse(pattern))
      ensures r == AcceptsFrom(states, MinSize, text)
      ensures r == Like(pattern, text)
    {
      ghost var e := Parse(pattern);
      assert e != [] by { assert |states| > MinSize; }
      CompileCorrect(e, text);
      var current: set<nat> := {MinSize};
      assert text[0..] == text;
      var i := 0;
      while i < |text|
        invariant 0 <= i <= |text|
        invariant forall q :: q in current ==> q < |states|
        invariant AcceptsFromSome(states, current, text[i..]) == AcceptsFrom(states, MinSize, text)
      {
        var ch := text[i];
        assert text[i..] == [ch] + text[i + 1..];
        var next, stop, verdict := Advance(current, ch, text[i + 1..]);
        if stop {
          return verdict;
        }
        current := next;
        i := i + 1;
      }
      r := exists q :: q in current && states[q].matchFound;
    }
  }
}
