/**
 * enum_option: a command-line option holding an enumeration value, read and
 * printed through a fixed mapping from keys (words, numbers) to values.
 * The mapping is a sequence of entries with distinct keys, in the mapping's
 * iteration order.
 */
module EnumOption {

  import opened Wrappers

  type Mapping<K, V> = seq<(K, V)>

  predicate DistinctKeys<K(==), V(==)>(m: Mapping<K, V>) {
    forall i, j :: 0 <= i < j < |m| ==> m[i].0 != m[j].0
  }

  predicate HasKey<K(==), V(==)>(m: Mapping<K, V>, k: K) {
    exists i :: 0 <= i < |m| && m[i].0 == k
  }

  predicate HasValue<K(==), V(==)>(m: Mapping<K, V>, v: V) {
    exists i :: 0 <= i < |m| && m[i].1 == v
  }

  /** The outcome of reading an option: the value, or invalid_option_value with its text. */
  datatype ParseResult<V> = Parsed(value: V) | InvalidOptionValue(text: string)

  /** The text printed for a value no key maps to. */
  const Unknown: string := "?unknown"

  /** Index of the entry with key k (map::find). */
  function FindKey<K(==), V(==)>(m: Mapping<K, V>, k: K): (r: int)
    ensures -1 <= r < |m|
    ensures r >= 0 ==> m[r].0 == k
    ensures r == -1 <==> !HasKey(m, k)
  {
    if m == [] then -1
    else if m[0].0 == k then 0
    else
      var r := FindKey(m[1..], k);
      assert HasKey(m, k) ==> m[0].0 == k || HasKey(m[1..], k) by {
        if HasKey(m, k) {
          var i :| 0 <= i < |m| && m[i].0 == k;
          if i > 0 { assert m[1..][i - 1].0 == k; }
        }
      }
      if r == -1 then -1 else r + 1
  }

  /** Index of the first entry whose value is v (find_if in iteration order). */
  function FindValue<K(==), V(==)>(m: Mapping<K, V>, v: V): (r: int)
    ensures -1 <= r < |m|
    ensures r >= 0 ==> m[r].1 == v && forall i :: 0 <= i < r ==> m[i].1 != v
    ensures r == -1 <==> !HasValue(m, v)
  {
    if m == [] then -1
    else if m[0].1 == v then 0
    else
      var r := FindValue(m[1..], v);
      assert HasValue(m, v) ==> m[0].1 == v || HasValue(m[1..], v) by {
        if HasValue(m, v) {
          var i :| 0 <= i < |m| && m[i].1 == v;
          if i > 0 { assert m[1..][i - 1].1 == v; }
        }
      }
      if r == -1 then -1 else r + 1
  }

  /**
   * What operator>> leaves behind: the value stored in the option together with
   * the stream's failbit, or the invalid_option_value it throws.
   */
  datatype Extraction<V> = Stored(value: V, failbit: bool) | Thrown(text: string)

  /**
   * operator>> as written.  `read` is the stream extraction of a key from the
   * option text (None when the extraction fails), `failed` the key a failed
   * extraction leaves behind (0 for a number, the empty string for a word), and
   * `show` streams a key back to text.  The lookup uses whatever key there is.
   * When it hits after a failed extraction, the value is stored but the stream
   * keeps its failbit; when it misses, the failbit is still set, so reading the
   * error text reads nothing.
   */
  function StreamIn<K(==), V(==)>(m: Mapping<K, V>, read: string -> Option<K>, failed: K, show: K -> string,
                                 input: string): (r: Extraction<V>)
    ensures r.Stored? ==> r.failbit == read(input).None?
    ensures read(input).Some? ==> (r.Stored? <==> HasKey(m, read(input).value))
    ensures read(input).Some? && r.Stored? ==> (read(input).value, r.value) in m
    ensures read(input).Some? && r.Thrown? ==> r.text == show(read(input).value)
    ensures read(input).None? ==> (r.Stored? <==> HasKey(m, failed))
    ensures read(input).None? && r.Stored? ==> (failed, r.value) in m
    ensures read(input).None? && r.Thrown? ==> r.text == ""
  {
    var k := if read(input).Some? then read(input).value else failed;
    var i := FindKey(m, k);
    if i >= 0 then Stored(m[i].1, read(input).None?)
    else if read(input).None? then Thrown("")
    else Thrown(show(k))
  }

  /**
   * Reading an option as the program does, through lexical_cast: a value stored
   * on a clean stream is the result; a stream left failed is refused with the
   * option's own text; an exception thrown by operator>> is reported as is.
   */
  function ParseAsWritten<K(==), V(==)>(m: Mapping<K, V>, read: string -> Option<K>, failed: K, show: K -> string,
                                        input: string): (r: ParseResult<V>)
    ensures r.Parsed? <==> read(input).Some? && HasKey(m, read(input).value)
    ensures r.Parsed? ==> (read(input).value, r.value) in m
    ensures read(input).Some? && !r.Parsed? ==> r == InvalidOptionValue(show(read(input).value))
    ensures read(input).None? && HasKey(m, failed) ==> r == InvalidOptionValue(input)
    ensures read(input).None? && !HasKey(m, failed) ==> r == InvalidOptionValue("")
  {
    match StreamIn(m, read, failed, show, input)
    case Stored(v, failbit) => if failbit then InvalidOptionValue(input) else Parsed(v)
    case Thrown(text) => InvalidOptionValue(text)
  }

  /**
   * operator>> as evidently intended: text that does not read as a key is an
   * invalid option value reporting that text.  A readable key is handled as
   * written.
   */
  function Parse<K(==), V(==)>(m: Mapping<K, V>, read: string -> Option<K>, show: K -> string, input: string): (r: ParseResult<V>)
    ensures r.Parsed? <==> read(input).Some? && HasKey(m, read(input).value)
    ensures r.Parsed? ==> (read(input).value, r.value) in m
    ensures read(input).None? ==> r == InvalidOptionValue(input)
  {
    match read(input)
    case None => InvalidOptionValue(input)
    case Some(k) =>
      var i := FindKey(m, k);
      if i < 0 then InvalidOptionValue(show(k)) else Parsed(m[i].1)
  }

  /**
   * The corrected reading differs from the code as written exactly when the
   * text does not read as a key, the key a failed read leaves is absent, and the
   * text is not empty: then the written code reports an empty text.
   */
  lemma ParseAgrees<K, V>(m: Mapping<K, V>, read: string -> Option<K>, failed: K, show: K -> string, input: string)
    ensures Parse(m, read, show, input) != ParseAsWritten(m, read, failed, show, input) <==>
            read(input).None? && !HasKey(m, failed) && input != ""
  {
  }

  /** operator<<: the first key mapping to v, or "?unknown". */
  function Format<K(==), V(==)>(m: Mapping<K, V>, show: K -> string, v: V): (r: string)
    ensures HasValue(m, v) ==>
      exists i :: 0 <= i < |m| && m[i].1 == v && (forall j :: 0 <= j < i ==> m[j].1 != v) && r == show(m[i].0)
    ensures !HasValue(m, v) ==> r == Unknown
  {
    var i := FindValue(m, v);
    if i < 0 then Unknown else show(m[i].0)
  }

  /** Distinct keys make lookup return the one entry holding the key. */
  lemma FindKeyOfEntry<K, V>(m: Mapping<K, V>, i: int)
    requires DistinctKeys(m) && 0 <= i < |m|
    ensures FindKey(m, m[i].0) == i
  {
  }

  /**
   * Round trip: printing a value of the mapping and reading the text back gives
   * the value, provided reading inverts showing on the mapping's keys.
   */
  lemma ParseFormat<K, V>(m: Mapping<K, V>, read: string -> Option<K>, show: K -> string, v: V)
    requires DistinctKeys(m) && HasValue(m, v)
    requires forall i :: 0 <= i < |m| ==> read(show(m[i].0)) == Some(m[i].0)
    ensures Parse(m, read, show, Format(m, show, v)) == Parsed(v)
  {
    var i := FindValue(m, v);
    assert Format(m, show, v) == show(m[i].0);
    FindKeyOfEntry(m, i);
  }

  /** Reading then printing gives back a key of the same value (one of several for many-to-one maps). */
  lemma FormatParse<K, V>(m: Mapping<K, V>, read: string -> Option<K>, show: K -> string, input: string)
    requires Parse(m, read, show, input).Parsed?
    ensures var v := Parse(m, read, show, input).value;
            exists i :: 0 <= i < |m| && m[i].1 == v && Format(m, show, v) == show(m[i].0)
  {
    var k := read(input).value;
    var v := Parse(m, read, show, input).value;
    var j := FindKey(m, k);
    assert m[j].1 == v;
    assert HasValue(m, v);
  }

  predicate IsSpace(c: char) {
    c == ' ' || c == '\t' || c == '\n' || c == '\r' || c == '\U{C}' || c == '\U{B}'
  }

  /**
   * Reading a word key as lexical_cast does: the stream extraction, which does
   * not skip leading white space, followed by the check that it consumed the
   * whole text.  The whole text when it is a non-empty word, failure otherwise.
   */
  function ReadWord(s: string): (r: Option<string>)
    ensures r.Some? <==> s != [] && forall i :: 0 <= i < |s| ==> !IsSpace(s[i])
    ensures r.Some? ==> r.value == s
  {
    if s != [] && forall i :: 0 <= i < |s| ==> !IsSpace(s[i]) then Some(s) else None
  }

  function ShowWord(s: string): string { s }

  datatype Day = Mo | Tu | We | Th | Fr | Sa | Su

  const Days: Mapping<string, Day> :=
    [("Mon", Mo), ("Tue", Tu), ("Wed", We), ("Thu", Th), ("Fri", Fr), ("Sat", Sa), ("Sun", Su)]

  /** A day name parses to its day. */
  lemma ParseSun()
    ensures Parse(Days, ReadWord, ShowWord, "Sun") == Parsed(Su)
  {
    assert ReadWord("Sun") == Some("Sun");
    assert FindKey(Days[6..], "Sun") == 0;
    assert FindKey(Days[5..], "Sun") == 1 by { assert Days[5..][1..] == Days[6..]; }
    assert FindKey(Days[4..], "Sun") == 2 by { assert Days[4..][1..] == Days[5..]; }
    assert FindKey(Days[3..], "Sun") == 3 by { assert Days[3..][1..] == Days[4..]; }
    assert FindKey(Days[2..], "Sun") == 4 by { assert Days[2..][1..] == Days[3..]; }
    assert FindKey(Days[1..], "Sun") == 5 by { assert Days[1..][1..] == Days[2..]; }
    assert FindKey(Days, "Sun") == 6;
  }

  /** A day prints as its name. */
  lemma FormatMonday()
    ensures Format(Days, ShowWord, Mo) == "Mon"
  {
    assert FindValue(Days, Mo) == 0;
  }

  /** A word that is not a day name is refused with its text. */
  lemma ParseSunday()
    ensures Parse(Days, ReadWord, ShowWord, "Sunday") == InvalidOptionValue("Sunday")
  {
    assert ReadWord("Sunday") == Some("Sunday");
    assert !HasKey(Days, "Sunday") by {
      forall i | 0 <= i < |Days| ensures Days[i].0 != "Sunday" {
        assert |Days[i].0| == 3;
      }
    }
  }

  /** Empty text and text with leading white space do not read as a word. */
  lemma ParseNoWord()
    ensures Parse(Days, ReadWord, ShowWord, "").InvalidOptionValue?
    ensures Parse(Days, ReadWord, ShowWord, " Sun").InvalidOptionValue?
  {
    assert IsSpace(" Sun"[0]);
  }

  /**
   * Unreadable text such as "xx" for a numeric key: as written, it is refused
   * with its own text when the mapping has key 0 (the value is stored but the
   * stream is left failed), and with an empty text otherwise; as intended, it is
   * always refused with its own text.
   */
  lemma UnreadableKeyText<V>(m: Mapping<int, V>, read: string -> Option<int>, show: int -> string)
    requires read("xx") == None
    ensures HasKey(m, 0) ==> StreamIn(m, read, 0, show, "xx").Stored? && StreamIn(m, read, 0, show, "xx").failbit
    ensures HasKey(m, 0) ==> ParseAsWritten(m, read, 0, show, "xx") == InvalidOptionValue("xx")
    ensures !HasKey(m, 0) ==> ParseAsWritten(m, read, 0, show, "xx") == InvalidOptionValue("")
    ensures Parse(m, read, show, "xx") == InvalidOptionValue("xx")
  {
  }
}
