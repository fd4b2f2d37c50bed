/**
 * Right-hand-side terms of relations and the values they take under the query
 * options.  A term is identified by a number; the options give every term its
 * value, for literals their constant and for bind markers the value bound at
 * execution.
 */
module Terms {
  import opened Wrappers
  import opened Values

  /** What a term is, which decides how it may be bound. */
  datatype TermKind =
    | ScalarTerm    // a constant or a single-value marker (constants::value / constants::marker)
    | TupleValue    // a tuple literal, already a terminal (tuples::value)
    | TupleMarker   // a tuple marker or delayed tuple, bound to a tuple (tuples::marker / tuples::delayed_value)
    | ListMarker    // a list marker, such as the marker in `c IN ?` (lists::marker)
    | InMarker      // a marker for a multi-column IN list (tuples::in_marker)

  datatype Term =
    | Bindable(kind: TermKind, id: nat)
    | ListLiteral(items: seq<Term>)  // a list literal of terms, such as (1, ?, 3) (lists::delayed_value)

  /** A bound value: null, one value, the elements of a tuple or list, or the rows of an IN list. */
  datatype Bound =
    | NullValue
    | Scalar(bytes: Bytes)
    | Items(elems: seq<Option<Bytes>>)
    | Rows(rows: seq<seq<Option<Bytes>>>)

  type Options = map<nat, Bound>

  /** term::bind: the terminal a bindable term stands for; a term with no value is an invalid request. */
  function Bind(t: Term, o: Options): (r: Result<Bound>)
    requires t.Bindable?
    ensures r.Ok? <==> t.id in o
    ensures r.Ok? ==> r.value == o[t.id]
  {
    if t.id in o then Ok(o[t.id]) else Err(InvalidRequest)
  }

  /**
   * term::bind_and_get: the serialized value of a term, None for null.  The model
   * has no serialized form for tuples and lists, so binding one this way is an
   * unsupported operation.
   */
  function BindAndGet(t: Term, o: Options): (r: Result<Option<Bytes>>)
    ensures r.Ok? && r.value.Some? ==> t.Bindable? && t.id in o && o[t.id] == Scalar(r.value.value)
    ensures r.Ok? && r.value.None? ==> t.Bindable? && t.id in o && o[t.id] == NullValue
    ensures t.Bindable? && t.id in o && o[t.id].Scalar? ==> r == Ok(Some(o[t.id].bytes))
  {
    match t
    case ListLiteral(_) => Err(UnsupportedOperation)
    case Bindable(_, _) =>
      var b :- Bind(t, o);
      match b
      case NullValue => Ok(None)
      case Scalar(v) => Ok(Some(v))
      case _ => Err(UnsupportedOperation)
  }

  /**
   * get_tuple followed by the cast to a multi-item terminal: the elements of a
   * term that is or binds to a tuple, None otherwise.
   */
  function GetTuple(t: Term, o: Options): (r: Result<Option<seq<Option<Bytes>>>>)
    ensures r.Ok? && r.value.Some? ==>
      t.Bindable? && (t.kind == TupleValue || t.kind == TupleMarker) && t.id in o && o[t.id] == Items(r.value.value)
    ensures !(t.Bindable? && (t.kind == TupleValue || t.kind == TupleMarker)) ==> r == Ok(None)
  {
    match t
    case Bindable(kind, _) =>
      if kind == TupleValue || kind == TupleMarker then
        var b :- Bind(t, o);
        if b.Items? then Ok(Some(b.elems)) else Ok(None)
      else Ok(None)
    case ListLiteral(_) => Ok(None)
  }
}
