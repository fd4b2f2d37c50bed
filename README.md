# ScyllaDB CQL WHERE restrictions — a Dafny model

This project models the part of ScyllaDB's CQL front end that turns the WHERE
clause of a statement into restrictions and answers questions about them:

- **Restriction expressions.** A restriction is a Boolean constant, a
  conjunction, or an atom `lhs op rhs`. The left side of an atom is a list of
  column values or the partition token.
- **Walks over expressions.** These are `find_if`, `count_if`, `find`,
  `needs_filtering`, `has_slice`, `has_token` and `make_conjunction`.
- **Value sets.** A value set is a sorted list of discrete values or an
  interval. The model covers their intersection, `possible_lhs_values` and
  `to_interval`.
- **The row evaluator.** `is_satisfied_by` covers `equal`, `limits`,
  `contains`, `contains_key`, `like` and `is_one_of`.
- **Token restrictions.** These turn a restriction on the partition token into
  ranges of the token ring (`get_token_range`, `bounds_ranges`). They merge with
  further token relations.
- **Single-column primary-key restrictions.** For the partition key or the
  clustering key, these keep one restriction per column in schema order. They
  compute the cartesian product of the columns' values (`values_as_keys`) and
  the key ranges (`compute_bounds`, `bounds_ranges`). They also report which
  columns still need filtering.
- **The statement restrictions.** These sort the relations into partition-key,
  clustering-key and other-column restrictions, choose a secondary index
  (`score`, `find_idx`) and validate the combination (`process_*`,
  `need_filtering`). They also produce the partition ranges and clustering
  bounds of a query.
- **The LIKE matcher.** This is a small automaton compiled from a pattern and
  run over a text in one pass.
- **enum_option.** A command-line option value is read and printed through a
  fixed key-to-value mapping.

Serialized values are sequences of integers. One total order, lexicographic
comparison, stands for every column type's comparator. Query options map each
right-hand-side term to its bound value. A row is a map from columns to their
optional values, plus the deserialized form of each collection cell. Index
availability is an input: the index manager's answers are passed in as
booleans and as a list of indexes. The stateful objects of the source are
classes:

- `TokenRestriction`;
- `SingleColumnPrimaryKeyRestrictions`;
- `StatementRestrictions`;
- the LIKE `Matcher`.

Their loops are methods proved against specification functions.

## Model

| member | source | states |
|---|---|---|
| Values.Compare | cql3/restrictions/statement_restrictions.cc:731-737 | The three-way comparison standing for a column type's comparator: -1, 0 or 1, and 0 exactly when the values are equal |
| Values.CompareAntisymmetric | cql3/restrictions/statement_restrictions.cc:731-737 | Swapping the operands negates the comparison |
| Values.LessTransitive | cql3/restrictions/restriction.hh:190-191 | The value order is transitive |
| Values.LessTrichotomy | cql3/restrictions/restriction.hh:190-191 | Exactly one of a < b, a == b and b < a holds |
| Values.Insert | cql3/restrictions/restriction.hh:190-191 | Inserting into a strictly sorted list keeps it strictly sorted and adds exactly the new value |
| Values.SortUnique | cql3/restrictions/statement_restrictions.cc:1238-1242 | sort followed by unique gives a strictly sorted list holding exactly the input's values |
| Restrictions.TermSlice.Merge | cql3/restrictions/token_restriction.hh:217 | Each bound of the merged slice is this slice's bound where it has one and the other slice's otherwise, so the result has a bound of a kind exactly when one of the two has one |
| Restrictions.FindIf | cql3/restrictions/restriction.hh:218-232 | find_if is the first atom f accepts, in depth-first, left-to-right order |
| Restrictions.FindIfAll | cql3/restrictions/restriction.hh:224-229 | Over a conjunction's children, the first accepted atom of their concatenated atoms |
| Restrictions.CountIf | cql3/restrictions/restriction.hh:235-245 | count_if is the number of atoms f accepts. A Boolean constant counts 0 and a conjunction sums its children |
| Restrictions.CountIfAll | cql3/restrictions/restriction.hh:239-243 | Over a conjunction's children, the count over their concatenated atoms |
| Restrictions.FindIfCountIf | cql3/restrictions/restriction.hh:218-245 | find_if finds an atom exactly when count_if counts at least one |
| Restrictions.FindIfIsFirst | cql3/restrictions/restriction.hh:218-232 | The atom found is an atom of the expression that f accepts, and f accepts no earlier atom |
| Restrictions.Find | cql3/restrictions/restriction.hh:247-249 | find returns an atom of the expression with the operator, and returns nothing exactly when no atom has it |
| Restrictions.NeedsFiltering | cql3/restrictions/restriction.hh:251-253 | True exactly when some atom uses CONTAINS, CONTAINS KEY or LIKE |
| Restrictions.HasSlice | cql3/restrictions/restriction.hh:255-257 | True exactly when some atom uses <, <=, > or >= |
| Restrictions.HasToken | cql3/restrictions/restriction.hh:259-261 | True exactly when some atom restricts the token |
| Restrictions.ExplodeConjunction | cql3/restrictions/statement_restrictions.cc:645-650 | The children (or the expression itself) have the same atoms as the expression |
| Restrictions.MakeConjunction | cql3/restrictions/statement_restrictions.cc:1174-1178 | The result is a conjunction of a's children (or a) followed by b's (or b), and its atoms are a's followed by b's |
| Restrictions.MakeConjunctionAssociative | cql3/restrictions/restriction.hh:115-117 | Flattening conjunctions is associative |
| Restrictions.MakeConjunctionIdentity | cql3/restrictions/restriction.hh:115-117 | The empty conjunction is a left and right identity on conjunctions |
| Restrictions.UpperIncludes | cql3/restrictions/restriction.hh:140-143 | An upper bound includes v exactly when v is smaller than the bound's value, or equal to it and the bound is inclusive |
| Restrictions.LowerIncludes | cql3/restrictions/restriction.hh:156-159 | A lower bound includes v exactly when v is larger than the bound's value, or equal to it and the bound is inclusive |
| Restrictions.LowerLessLooser | cql3/restrictions/restriction.hh:166-168 | When a < b as lower bounds, a includes every value b includes |
| Restrictions.LowerNotLessTighter | cql3/restrictions/restriction.hh:166-168 | When a is not < b, b includes every value a includes |
| Restrictions.IntervalNull | cql3/restrictions/restriction.hh:176-187 | No interval includes null, and an interval without bounds includes every non-null value |
| Restrictions.EmptyAndUnbounded | cql3/restrictions/statement_restrictions.cc:1097-1098 | The empty value set contains nothing and the unbounded one contains every value |
| Terms.Bind | cql3/restrictions/statement_restrictions.cc:740-754 | A term binds exactly when the options give it a value, and it binds to that value |
| Terms.BindAndGet | cql3/restrictions/statement_restrictions.cc:1221-1223 | A present result is the term's scalar value, an absent one means the term is bound to null, and a scalar term always yields its value |
| Terms.GetTuple | cql3/restrictions/statement_restrictions.cc:740-754 | Only a tuple literal or tuple marker yields elements, and they are its bound tuple. Any other term yields none |
| ValueSets.CommonElements | cql3/restrictions/statement_restrictions.cc:1101-1105 | The intersection of two strictly sorted lists is strictly sorted and holds exactly the values in both |
| ValueSets.Filter | cql3/restrictions/statement_restrictions.cc:1107-1110 | Keeps exactly the list values the interval includes, and keeps the list sorted |
| ValueSets.TighterLower | cql3/restrictions/statement_restrictions.cc:1116-1127 | The chosen lower bound is one of the two, and a value is above it exactly when it is above both (an absent bound is minus infinity) |
| ValueSets.TighterLowerMeaning | cql3/restrictions/statement_restrictions.cc:1118-1120 | Choosing by lower_bound's operator< picks the tighter bound |
| ValueSets.TighterUpper | cql3/restrictions/statement_restrictions.cc:1116-1127 | The chosen upper bound is one of the two, and a value is below it exactly when it is below both (an absent bound is plus infinity) |
| ValueSets.TighterUpperMeaning | cql3/restrictions/statement_restrictions.cc:1121-1125 | Choosing by whether the second bound includes the first's value picks the tighter bound |
| ValueSets.UpperMin | cql3/restrictions/statement_restrictions.cc:1121-1125 | The upper bound chosen includes v exactly when both bounds do |
| ValueSets.Intersect | cql3/restrictions/statement_restrictions.cc:1100-1132 | The intersection of valid value sets is valid and contains exactly the values both contain |
| ValueSets.IntersectShape | cql3/restrictions/statement_restrictions.cc:1100-1128 | The intersection is an interval exactly when both operands are intervals |
| ValueSets.IntersectUnitAndZero | cql3/restrictions/statement_restrictions.cc:1097-1132 | The unbounded set is a left identity and the empty list absorbs |
| ValueSets.NonNull | cql3/restrictions/statement_restrictions.cc:1232-1237 | The values kept are exactly the non-null elements |
| ValueSets.BindAll | cql3/restrictions/statement_restrictions.cc:1228-1231 | Binds every list element in order, and fails exactly when some element's binding fails |
| ValueSets.InValues | cql3/restrictions/statement_restrictions.cc:1224-1244 | The values of an IN atom form a strictly sorted list that holds exactly the non-null values bound to the list literal's items or to the list marker. A marker that is not a list marker, or that binds to something other than a list, is a logic error, and an unbound marker is an invalid request |
| ValueSets.SliceInterval | cql3/restrictions/statement_restrictions.cc:1245-1266 | LT and LTE give only an upper bound and GT and GTE only a lower bound. The interval includes exactly the values in the operator's relation to the right-hand value |
| ValueSets.PossibleLhsValues | cql3/restrictions/statement_restrictions.cc:1209-1219 | The result is a valid value set; true gives the unbounded set and false the empty list |
| ValueSets.IntersectAll | cql3/restrictions/statement_restrictions.cc:1214-1219 | The fold over a conjunction's children yields a valid value set |
| ValueSets.AtomValues | cql3/restrictions/statement_restrictions.cc:1221-1269 | EQ gives the singleton of the bound value or the empty list for null. IN gives InValues. A slice bound to null gives the empty list. Otherwise LT/LTE give only an upper bound and GT/GTE only a lower bound, compared by the token's or the first column's comparator, and the set holds exactly the values in the operator's relation to the bound value. Operators other than EQ, IN and slices give the unbounded set |
| ValueSets.ToInterval | cql3/restrictions/statement_restrictions.cc:1274-1285 | An interval is returned unchanged. A list converts exactly when it has one value, and the interval then holds exactly that value |
| ValueSets.IntersectAllContains | cql3/restrictions/statement_restrictions.cc:1214-1219 | A conjunction's value set contains v exactly when every child's value set does |
| Evaluator.EqualValueMeaning | cql3/restrictions/statement_restrictions.cc:757-766 | equal(bytes_opt) holds exactly when the right side is not null and the column holds that value |
| Evaluator.EqualTerm | cql3/restrictions/statement_restrictions.cc:769-797 | No column is a logic error. Several columns need a tuple of the same size, or the request is invalid, and the verdict is then that every column equals its component. One column compared with a one-element tuple equals that element; otherwise it equals the bound scalar. A true verdict means every column has a value |
| Evaluator.LimitsValue | cql3/restrictions/statement_restrictions.cc:800-812 | Succeeds exactly for comparison operators |
| Evaluator.LimitsMeaning | cql3/restrictions/statement_restrictions.cc:800-812 | Each comparison operator means its relation between the two values: LT is less, LTE less or equal, NEQ unequal, and so on |
| Evaluator.TupleCompare | cql3/restrictions/statement_restrictions.cc:836-853 | A result of 0 means the tuples are equal and contain no nulls |
| Evaluator.TupleCompareFirstDifference | cql3/restrictions/statement_restrictions.cc:836-853 | A non-zero result is the comparison at the first position where the tuples differ |
| Evaluator.MultiColumnLimits | cql3/restrictions/statement_restrictions.cc:821-858 | The component loop returns the lexicographic verdict: strict order decides, and equal tuples satisfy only <= and >= |
| Evaluator.LimitsAtom | cql3/restrictions/statement_restrictions.cc:816-878 | A non-slice operator and an empty column list are logic errors. With several columns, a right side that is not a tuple or has the wrong size is an invalid request, and otherwise the verdict is the lexicographic TupleLimits of the columns' values. With one column, a null right side is false, and otherwise the verdict is LimitsValue of the column's value (null read as empty) against the scalar or the one-element tuple |
| Evaluator.LimitsAtomMeaning | cql3/restrictions/statement_restrictions.cc:859-874 | A one-column slice against a non-null value holds exactly when the column's value is less, less or equal, greater, or greater or equal than it, as the operator says |
| Evaluator.CollectionHas | cql3/restrictions/statement_restrictions.cc:881-906 | Null is always contained. For a non-null value it succeeds exactly on a collection, and the verdict is that a list or set element, or a map value, equals the value |
| Evaluator.CollectionContains | cql3/restrictions/statement_restrictions.cc:909-922 | Only one unsubscripted column is supported. A null cell contains nothing and a null value is always contained. Otherwise the verdict is exactly whether the deserialized collection holds the value, and a non-collection is a logic error |
| Evaluator.CollectionContainsKey | cql3/restrictions/statement_restrictions.cc:925-949 | Only one unsubscripted column is supported, and a null key is always there. For a non-null key, a null cell gives false, a map cell gives exactly whether some entry has the key, and any other cell is a logic error |
| Evaluator.LikeValue | cql3/restrictions/statement_restrictions.cc:997-1004 | Only string columns may be matched. A null pattern or value gives false. Otherwise the verdict is exactly whether the text is LIKE the pattern, and an empty pattern is a logic error |
| Evaluator.AllLike | cql3/restrictions/statement_restrictions.cc:1018-1027 | True exactly when every column matches its pattern, and it succeeds whenever every column's LIKE succeeds |
| Evaluator.AllLikeMeaning | cql3/restrictions/statement_restrictions.cc:1007-1027 | On string columns with non-empty patterns, a tuple LIKE holds exactly when every column has a value matching its pattern |
| Evaluator.LikeTerm | cql3/restrictions/statement_restrictions.cc:1007-1028 | No column is an invalid request. Several columns need a tuple literal bound to as many patterns, or the request is invalid. One column matches its bound pattern |
| Evaluator.LikeTupleMeaning | cql3/restrictions/statement_restrictions.cc:1009-1021 | A tuple LIKE bound to as many patterns as columns is AllLike; on string columns with non-null, non-empty patterns it holds exactly when every column has a value matching its pattern |
| Evaluator.AnyEqualTerm | cql3/restrictions/statement_restrictions.cc:1035-1040 | When every element's equality succeeds, the verdict is exactly whether some element equals the columns. True means some element equals them, and false means none does |
| Evaluator.IsOneOf | cql3/restrictions/statement_restrictions.cc:1031-1058 | A list literal is searched element by element. An unbound marker is an invalid request. A list marker bound to a list needs exactly one column, or it is a logic error, and the verdict is then that the column's non-null value is among the list's values. A list marker bound to anything else is a logic error. An IN marker compares whole rows, and any other term is a logic error |
| Evaluator.InListLiteralMeaning | cql3/restrictions/statement_restrictions.cc:1031-1035 | `c IN (t1, ..., tn)` with scalar terms holds exactly when the column has a value and some term is bound to it |
| Evaluator.InRowsMeaning | cql3/restrictions/statement_restrictions.cc:1045-1054 | Some IN row matches exactly when one row is the columns' values and none of them is null |
| Evaluator.IsSatisfiedBy | cql3/restrictions/statement_restrictions.cc:1134-1170 | A Boolean constant gives its value, and a conjunction is true exactly when all its children are |
| Evaluator.AllSatisfied | cql3/restrictions/statement_restrictions.cc:1137-1141 | True exactly when every child is true, and false only when some child is false |
| Evaluator.AtomSatisfied | cql3/restrictions/statement_restrictions.cc:1142-1169 | A token left side and IS NOT are unsupported. NEQ is the negation of equal. EQ is EqualTerm, the slices are LimitsAtom, CONTAINS and CONTAINS KEY are the collection checks on the bound value, LIKE is LikeTerm and IN is IsOneOf |
| Evaluator.MatchesBound | cql3/restrictions/statement_restrictions.cc:1061-1068 | EQ dictates both bounds, GT and GTE the start, and LT and LTE the end |
| Evaluator.FirstMulticolumnBound | cql3/restrictions/statement_restrictions.cc:1072-1095 | A non-empty result is the tuple of an atom that dictates the bound, and with no such atom the result is empty |
| Evaluator.FirstMulticolumnBoundOf | cql3/restrictions/statement_restrictions.cc:1081-1088 | The same over a conjunction's children |
| Evaluator.FirstAtomBoundAppend | cql3/restrictions/statement_restrictions.cc:1081-1088 | On the atoms a followed by b, the first atom that settles the bound is in a when a has one, and otherwise in b |
| Evaluator.FirstMulticolumnBoundIsFirstAtom | cql3/restrictions/statement_restrictions.cc:1072-1095 | The depth-first walk returns what the first of the expression's atoms, in order, that settles the bound gives: its bound tuple, or a logic error when its marker is not bound to a tuple |
| Evaluator.FirstMulticolumnBoundOfIsFirstAtom | cql3/restrictions/statement_restrictions.cc:1076-1083 | The same over a conjunction's children and their atoms concatenated |
| Evaluator.FirstAtomDecides | cql3/restrictions/statement_restrictions.cc:1076-1083 | When atom k is the first to settle the bound, it decides the result |
| Evaluator.NoAtomSettles | cql3/restrictions/statement_restrictions.cc:1076-1083 | When no atom settles the bound, the result is the empty tuple |
| Evaluator.FirstMulticolumnBoundMeaning | cql3/restrictions/statement_restrictions.cc:1072-1095 | first_multicolumn_bound is exactly the bound of the first atom in depth-first order that matches the bound kind on a column list: the tuple its marker is bound to, or a logic error when that is not a tuple; the empty tuple when no atom matches |
| Evaluator.PossibleValuesSound | cql3/restrictions/statement_restrictions.cc:1209-1272 | The column value of every row that satisfies the expression is among the expression's possible values |
| Evaluator.AtomValuesSound | cql3/restrictions/statement_restrictions.cc:1221-1266 | The same for a single atom on the column |
| TokenRanges.TokenOrder | cql3/restrictions/token_restriction.hh:112-113 | The token order is a strict total order |
| TokenRanges.PosOrder | cql3/restrictions/token_restriction.cc:41 | The ring position order is a total order |
| TokenRanges.Intersection | cql3/restrictions/token_restriction.cc:88 | A position is in the intersection exactly when it is in both ranges |
| TokenRanges.IntersectionMeaning | cql3/restrictions/token_restriction.cc:88 | The later start and the earlier end bound exactly the common positions |
| TokenRanges.AtomTokenRange | cql3/restrictions/token_restriction.cc:44-73 | At most one range. A non-token atom selects the whole ring and a null value nothing |
| TokenRanges.TokenAtomMeaning | cql3/restrictions/token_restriction.cc:51-69 | A key is selected by EQ, GT, GTE, LT or LTE exactly when its token stands in that relation to the value's token |
| TokenRanges.BelowMinimumMeansBelowMaximum | cql3/restrictions/token_restriction.cc:60-69 | `token < min` and `token <= min` select every key |
| TokenRanges.GetTokenRangeAsWritten | cql3/restrictions/token_restriction.cc:36-93 | As written, every conjunction yields no range |
| TokenRanges.ConjoinAsWritten | cql3/restrictions/token_restriction.cc:79-89 | A fold started from the empty optional stays empty |
| TokenRanges.EmptyConjunctionSelectsNothing | cql3/restrictions/token_restriction.cc:38 | As written, the empty conjunction selects nothing, where the corrected fold selects the whole ring |
| TokenRanges.GetTokenRange | cql3/restrictions/token_restriction.cc:36-93 | The corrected get_token_range yields at most one range |
| TokenRanges.ConjunctionRange | cql3/restrictions/token_restriction.cc:77-91 | A key's token is in a conjunction's range exactly when it is in every child's range |
| TokenRanges.ConjoinRange | cql3/restrictions/token_restriction.cc:79-89 | The fold from any accumulator covers a token exactly when the accumulator and every remaining child do |
| TokenRanges.EndToken | cql3/restrictions/token_restriction.hh:95-100 | The end token is never the minimum marker |
| TokenRanges.IntervalRanges | cql3/restrictions/token_restriction.hh:101-127 | The result is empty exactly when start > end, or start == end with a bound exclusive |
| TokenRanges.BoundsRanges | cql3/restrictions/token_restriction.hh:92-128 | bounds_ranges yields at most one range |
| TokenRanges.IntervalRangesMeaning | cql3/restrictions/token_restriction.hh:93-127 | A key is in the range exactly when its token satisfies both bounds, each inclusive or exclusive as given |
| TokenRanges.TokenRestriction.constructor | cql3/restrictions/token_restriction.hh:65-67 | Records the kind, the columns, the expression and the slice |
| TokenRanges.TokenRestriction.MergeTo | cql3/restrictions/token_restriction.hh:130-133 | The expression becomes the conjunction of the old one and the new restriction's, and the slice is unchanged |
| TokenRanges.TokenRestriction.MergeWith | cql3/restrictions/token_restriction.hh:149-222 | EQ always refuses with an invalid request. A slice accepts exactly another token slice that adds no second start or end bound, and then merges it |
| KeyRanges.KeyRange.Reverse | cql3/restrictions/single_column_primary_key_restrictions.hh:265-267 | Start and end change places, and a singular range stays singular |
| KeyRanges.Product | cql3/restrictions/single_column_primary_key_restrictions.hh:302-310 | The cartesian product has the product of the lists' lengths as its size |
| KeyRanges.ProductPrefixed | cql3/restrictions/single_column_primary_key_restrictions.hh:302-310 | Prefixing: one key per value and suffix |
| KeyRanges.ProductPrefixedMembership | cql3/restrictions/single_column_primary_key_restrictions.hh:302-310 | A key is in the prefixed product exactly when its head is one of the values and its tail one of the suffixes |
| KeyRanges.ProductMembership | cql3/restrictions/single_column_primary_key_restrictions.hh:302-310 | A key is in the product exactly when each component is a value of its list |
| KeyRanges.ProductEmpty | cql3/restrictions/single_column_primary_key_restrictions.hh:295-298 | The product is empty exactly when one list is empty |
| KeyRanges.CommonCompare | cql3/restrictions/single_column_primary_key_restrictions.hh:416-427 | 0 exactly when the prefixes agree on their common components |
| KeyRanges.CommonCompareSwap | cql3/restrictions/single_column_primary_key_restrictions.hh:416-427 | The comparison is antisymmetric |
| KeyRanges.PrefixLessTotal | cql3/restrictions/single_column_primary_key_restrictions.hh:416-427 | The prefix order is a strict total order |
| KeyRanges.NotBackwards | cql3/restrictions/single_column_primary_key_restrictions.hh:408-414 | A singular range and a range open on one side are never dropped as backwards |
| KeyRanges.CrossedBoundsBackwards | cql3/restrictions/single_column_primary_key_restrictions.hh:408-414 | A prefix with crossed slice bounds appended is backwards |
| KeyRanges.Forward | cql3/restrictions/single_column_primary_key_restrictions.hh:408-414 | Keeps exactly the ranges that are not backwards |
| KeyRanges.StartOrder | cql3/restrictions/single_column_primary_key_restrictions.hh:416-437 | Ordering by start is a strict total order up to equal starts |
| KeyRanges.InsertByStart | cql3/restrictions/single_column_primary_key_restrictions.hh:416-427 | Insertion keeps the list sorted by start and adds exactly the one range |
| KeyRanges.SortByStart | cql3/restrictions/single_column_primary_key_restrictions.hh:416-427 | The result is sorted by start and is a permutation of the input |
| KeyRanges.UniqueStarts | cql3/restrictions/single_column_primary_key_restrictions.hh:429-437 | unique keeps the first range and removes only ranges, never adds |
| KeyRanges.UniqueStartsSorted | cql3/restrictions/single_column_primary_key_restrictions.hh:416-437 | After sort and unique the starts strictly increase, and every input start is kept |
| KeyRanges.SameStartLess | cql3/restrictions/single_column_primary_key_restrictions.hh:429-437 | Ranges with equal starts are interchangeable in the order |
| KeyBounds.MergeSameColumn | cql3/restrictions/statement_restrictions.cc:623-631 | A LIKE restriction refuses any other kind of relation. Otherwise the relation's atoms are appended and the restriction keeps its kind and column |
| KeyBounds.AddRestriction | cql3/restrictions/single_column_primary_key_restrictions.hh:148-150 | The map stays ordered by position, gains the column, holds the relation itself when the column was new, and keeps every other column's restriction |
| KeyBounds.AddAfterLast | cql3/restrictions/single_column_primary_key_restrictions.hh:148-150 | A column after every restricted one is appended |
| KeyBounds.CheckProductSize | cql3/restrictions/single_column_primary_key_restrictions.hh:73-79 | A runtime error exactly when the size exceeds the maximum |
| KeyBounds.ValueVectorMeaning | cql3/restrictions/single_column_primary_key_restrictions.hh:189-211 | The vector collected holds the value list of every restriction, and stops early exactly when one list is empty |
| KeyBounds.KeysOfMeaning | cql3/restrictions/single_column_primary_key_restrictions.hh:189-211 | values_as_keys holds exactly the keys whose components are values of their columns, and never more than the maximum |
| KeyBounds.EqComponent | cql3/restrictions/single_column_primary_key_restrictions.hh:221-242 | The corrected EQ component: a null value is an invalid request, and a value is the one the list holds |
| KeyBounds.NullKeyPart | cql3/restrictions/single_column_primary_key_restrictions.hh:224-227 | `k = null` as written is a logic error, and the corrected component is an invalid request |
| KeyBounds.NullCheckUnreachable | cql3/restrictions/single_column_primary_key_restrictions.hh:224-227 | As written, no equality that binds ever reaches the invalid-null check |
| KeyBounds.SingularRanges | cql3/restrictions/single_column_primary_key_restrictions.hh:302-310 | The loop builds exactly the singular ranges of the prefixes |
| KeyBounds.SliceRanges | cql3/restrictions/single_column_primary_key_restrictions.hh:274-292 | The loop builds exactly the slice ranges of the prefixes |
| KeyBounds.EqComponentsSound | cql3/restrictions/single_column_primary_key_restrictions.hh:230-241 | The all-EQ key has one component per restriction, each a possible value of its column |
| KeyBounds.GeneralBoundsSound | cql3/restrictions/single_column_primary_key_restrictions.hh:244-310 | Every singular key of the walk is made of possible values of the leading columns |
| KeyBounds.ComputeBoundsSound | cql3/restrictions/single_column_primary_key_restrictions.hh:214-311 | Every singular key compute_bounds returns is made of its columns' possible values |
| KeyBounds.GeneralBoundsSize | cql3/restrictions/single_column_primary_key_restrictions.hh:271-304 | The walk never returns more ranges than the maximum, unless it returns at most one |
| KeyBounds.ComputeBoundsSize | cql3/restrictions/single_column_primary_key_restrictions.hh:214-311 | The cartesian product is checked before it is built |
| KeyBounds.SliceExample | test/boost/statement_restrictions_test.cc:76-84 | `c > 123` gives the single range from 123 exclusive, unbounded above |
| KeyBounds.PrefixSliceExample | cql3/restrictions/single_column_primary_key_restrictions.hh:274-292 | `a = 1 AND b > 2` gives the range from (1, 2) exclusive to the prefix (1) inclusive |
| KeyBounds.PartitionKeys | cql3/restrictions/single_column_primary_key_restrictions.hh:386-402 | A non-singular range is refused as an invalid request. Otherwise the keys of the singular ranges are returned, in order |
| KeyBounds.Reversals | cql3/restrictions/single_column_primary_key_restrictions.hh:265-289 | One flag per restricted column, in order: flag k is whether restriction k's column is stored in reverse order |
| KeyBounds.FinishClusteringMeaning | cql3/restrictions/single_column_primary_key_restrictions.hh:404-439 | The finished ranges have strictly increasing starts. None is backwards, each is a computed range, and every forward computed range shares its start with one of them |
| KeyBounds.UnfilteredFrom | cql3/restrictions/single_column_primary_key_restrictions.hh:451-469 | From any index the counted restrictions are at consecutive positions without filtering, and the next one breaks the rule |
| KeyBounds.UnfilteredPrefixMeaning | cql3/restrictions/single_column_primary_key_restrictions.hh:451-469 | The unfiltered prefix is the leading restrictions at positions 0, 1, ... without a filtering operator, a slice only last |
| KeyBounds.PrefixSize | cql3/restrictions/single_column_primary_key_restrictions.hh:159-172 | Counts the restrictions on consecutive columns from position i, and the next restriction is not at the next position |
| KeyBounds.LongestPrefix | cql3/restrictions/single_column_primary_key_restrictions.hh:159-172 | The prefix restrictions are ordered and are the list's first PrefixSize elements |
| KeyBounds.PartitionKeysSound | cql3/restrictions/single_column_primary_key_restrictions.hh:386-402 | Every partition key read is made of values the restrictions admit, column by column |
| KeyBounds.MergeKeyParts | cql3/restrictions/single_column_primary_key_restrictions.hh:134-187 | merge_to on the value: it passes exactly for an in-order single-column relation that can be added to its column. The kind is recorded whenever the order allows it, and on success the relation is added and conjoined; a failure leaves the restrictions and conjunction as they were |
| KeyBounds.FirstMergePasses | cql3/restrictions/single_column_primary_key_restrictions.hh:174-187 | Merging a relation into no restrictions passes and leaves exactly that relation, its kind and the conjunction of it |
| KeyBounds.SingleColumnPrimaryKeyRestrictions.constructor | cql3/restrictions/single_column_primary_key_restrictions.hh:100-106 | Starts with no restriction, no operator kind and the empty conjunction |
| KeyBounds.SingleColumnPrimaryKeyRestrictions.DoMergeWith | cql3/restrictions/single_column_primary_key_restrictions.hh:134-153 | Without ALLOW FILTERING it refuses a column after a slice-restricted last column and a slice before the last column. Otherwise it records the kind and adds the relation to its column |
| KeyBounds.SingleColumnPrimaryKeyRestrictions.MergeTo | cql3/restrictions/single_column_primary_key_restrictions.hh:174-187 | Multi-column and token relations are refused. A single-column relation passes exactly when it is in order and can be added to its column, and then it is added to its column and conjoined. The new state is MergeKeyParts of the old one |
| KeyBounds.SingleColumnPrimaryKeyRestrictions.ValuesAsKeys | cql3/restrictions/single_column_primary_key_restrictions.hh:189-211 | The loop computes values_as_keys, whose meaning KeysOfMeaning states |
| KeyBounds.SingleColumnPrimaryKeyRestrictions.AllEqBounds | cql3/restrictions/single_column_primary_key_restrictions.hh:221-242 | The loop returns exactly AllEqBoundsOf: one singular range of the key made of every column's EQ value in order, whose soundness EqComponentsSound states, or the first error |
| KeyBounds.SingleColumnPrimaryKeyRestrictions.ComputeBounds | cql3/restrictions/single_column_primary_key_restrictions.hh:214-311 | The loop returns exactly ComputeBoundsOf, whose soundness and size ComputeBoundsSound and ComputeBoundsSize state |
| KeyBounds.SingleColumnPrimaryKeyRestrictions.PartitionBoundsRanges | cql3/restrictions/single_column_primary_key_restrictions.hh:386-402 | Returns the partition keys of the computed ranges |
| KeyBounds.SingleColumnPrimaryKeyRestrictions.ClusteringBoundsRanges | cql3/restrictions/single_column_primary_key_restrictions.hh:404-439 | Returns the computed ranges, finished |
| KeyBounds.SingleColumnPrimaryKeyRestrictions.NumPrefixColumnsThatNeedNotBeFiltered | cql3/restrictions/single_column_primary_key_restrictions.hh:451-469 | The loop counts the unfiltered prefix, and the count is 0 for the partition key |
| KeyBounds.SingleColumnPrimaryKeyRestrictions.GetLongestPrefixRestrictions | cql3/restrictions/single_column_primary_key_restrictions.hh:159-172 | Returns the object itself when every restriction is in the prefix, and otherwise a new one holding exactly the prefix restrictions |
| LikeMatcher.SkipPercents | utils/like_matcher.cc:57-59 | Skips exactly a run of '%' |
| LikeMatcher.ParseFromEmpty | utils/like_matcher.cc:41-76 | The rest of a pattern yields no element exactly when nothing is left of it |
| LikeMatcher.FixedElems | utils/like_matcher.cc:51-78 | One element per character of a fixed-width pattern |
| LikeMatcher.ParseFixed | utils/like_matcher.cc:41-76 | A pattern without '%' reads as its fixed elements |
| LikeMatcher.ConsumesFixed | utils/like_matcher.cc:96-101 | Fixed elements consume exactly an agreeing text of their length |
| LikeMatcher.FixedWidthLike | tests/like_matcher_test.cc:57-65 | A pattern of characters and '_' matches exactly the texts of its length that agree with it |
| LikeMatcher.LiteralLike | tests/like_matcher_test.cc:28-37 | Without special characters, LIKE is equality |
| LikeMatcher.ParseFixedThenPercent | utils/like_matcher.cc:55-63 | A fixed pattern followed by '%' reads as its elements, then Rest |
| LikeMatcher.PrefixLike | tests/like_matcher_test.cc:106-116 | A fixed pattern followed by '%' matches exactly the texts starting with an agreeing text |
| LikeMatcher.ConsumesSkipTo | utils/like_matcher.cc:103-108 | Skipping to c consumes exactly the texts ending in c |
| LikeMatcher.PercentThenLike | utils/like_matcher.cc:64-74 | '%' followed by a character other than '%' and '_' matches exactly the texts ending in it |
| LikeMatcher.SkipPercentsShift | utils/like_matcher.cc:57-59 | Skipping '%' does not depend on what precedes the index |
| LikeMatcher.ParseFromShift | utils/like_matcher.cc:41-76 | Reading a pattern's suffix does not depend on what precedes it |
| LikeMatcher.GluedPercentsLike | tests/like_matcher_test.cc:140-150 | A run of '%' matches like a single '%' |
| LikeMatcher.EscapeLike | tests/like_matcher_test.cc:255-276 | '\' followed by any character matches exactly that character |
| LikeMatcher.Compile | utils/like_matcher.cc:37-82 | The automaton has one state per element plus the fixed states, and is well formed |
| LikeMatcher.FailRejects | utils/like_matcher.cc:114-116 | The failure state accepts nothing |
| LikeMatcher.SuccAccepts | utils/like_matcher.cc:114-122 | A success state accepts every rest of the text |
| LikeMatcher.EosAcceptsEmpty | utils/like_matcher.cc:110-112 | The end-of-text state accepts exactly the empty rest |
| LikeMatcher.NextAccepts | utils/like_matcher.cc:77 | An element's successor state accepts what the later elements consume |
| LikeMatcher.StateAccepts | utils/like_matcher.cc:84-130 | The state of element j accepts exactly what the elements from j on consume |
| LikeMatcher.CompileCorrect | utils/like_matcher.cc:37-130 | The compiled automaton accepts exactly the texts the pattern's elements consume |
| LikeMatcher.StepAccepts | utils/like_matcher.cc:93-117 | One step of the set simulation preserves acceptance |
| LikeMatcher.AddSuccs | utils/like_matcher.cc:93-117 | Each state's successors are added to the next set |
| LikeMatcher.NextElement | utils/like_matcher.cc:44-77 | The state pushed for an element is that element's state |
| LikeMatcher.PushState | utils/like_matcher.cc:77 | Pushing the next element's state extends the compiled prefix |
| LikeMatcher.CompiledWhole | utils/like_matcher.cc:78-82 | A complete compiled prefix is the compiled automaton |
| LikeMatcher.ParseUnderscore | utils/like_matcher.cc:51-54 | '_' reads as AnyOne |
| LikeMatcher.ParsePercentRest | utils/like_matcher.cc:60-63 | '%' runs at the end read as the final Rest element |
| LikeMatcher.ParsePercentSkip | utils/like_matcher.cc:64-74 | '%' runs followed by a character read as SkipTo of that character |
| LikeMatcher.ParseLiteral | utils/like_matcher.cc:76-78 | Any other (or an escaped) character reads as a literal |
| LikeMatcher.CompileOne | utils/like_matcher.cc:51-78 | An '_' or a literal (possibly escaped) character adds the one state of the element it reads |
| LikeMatcher.CompilePercent | utils/like_matcher.cc:55-75 | A run of '%' adds one state: success when it ends the pattern, otherwise match-or-skip of the next (possibly escaped) character, and the loop resumes after that character |
| LikeMatcher.CompileAt | utils/like_matcher.cc:43-81 | One turn of the loop reads at least one character and extends the compiled prefix so that the rest of the elements are those of the rest of the pattern |
| LikeMatcher.Matcher.constructor | utils/like_matcher.cc:37-82 | The constructor loop builds exactly the compiled automaton of the pattern |
| LikeMatcher.Matcher.Step | utils/like_matcher.cc:93-117 | The next set is exactly the successors of the current states on the character |
| LikeMatcher.Matcher.Advance | utils/like_matcher.cc:90-127 | A stop comes with the verdict of the whole run (accept on a success state, reject on the failure state alone); otherwise the next set accepts the rest exactly when the current set accepts the character and the rest |
| LikeMatcher.Matcher.Matches | utils/like_matcher.cc:84-130 | The set simulation with early accept and reject answers exactly whether the text is LIKE the pattern |
| EnumOption.FindKey | utils/enum_option.hh:78 | The index of the entry with the key, -1 exactly when the key is absent |
| EnumOption.FindValue | utils/enum_option.hh:99-104 | The index of the first entry with the value, -1 exactly when none has it |
| EnumOption.StreamIn | utils/enum_option.hh:75-94 | operator>> as written. A readable key stores its value exactly when present, on a clean stream. An unreadable text stores the value of the key the failed read leaves, with failbit still set, and if that key is absent it throws with an empty text |
| EnumOption.ParseAsWritten | utils/enum_option.hh:75-94 | Reading through lexical_cast as written: parses exactly when the text reads as a present key. A missing readable key reports its text. An unreadable text reports itself when the key a failed read leaves is present (the failed stream), and an empty text otherwise |
| EnumOption.Parse | utils/enum_option.hh:75-94 | Corrected: text parses exactly when it reads as a present key, to that key's value. Unreadable text is refused with its own text |
| EnumOption.ParseAgrees | utils/enum_option.hh:76-92 | The corrected and as-written readings differ exactly when the text is non-empty, does not read as a key, and the key a failed read leaves is absent |
| EnumOption.Format | utils/enum_option.hh:97-105 | When an entry has the value, the key of the first such entry is printed, and otherwise "?unknown" |
| EnumOption.FindKeyOfEntry | utils/enum_option.hh:78 | With distinct keys, the lookup of an entry's key finds that entry |
| EnumOption.ParseFormat | tests/enum_option_test.cc:114-123 | Round trip: reading the printed form of a mapped value gives the value back |
| EnumOption.FormatParse | tests/enum_option_test.cc:156-160 | Printing a parsed value gives one of that value's keys, for many-to-one maps too |
| EnumOption.ReadWord | utils/enum_option.hh:76-77 | A word key reads, by the extraction and the check that it consumed the whole text, exactly when the text is non-empty and has no white space |
| EnumOption.ParseSun | tests/enum_option_test.cc:69-70 | "Sun" parses to the day Su |
| EnumOption.FormatMonday | tests/enum_option_test.cc:86-87 | Mo prints as "Mon" |
| EnumOption.ParseSunday | tests/enum_option_test.cc:79-80 | "Sunday" is an invalid option value reported with its own text |
| EnumOption.ParseNoWord | tests/enum_option_test.cc:79-84 | "" and " Sun" are invalid option values |
| EnumOption.UnreadableKeyText | utils/enum_option.hh:76-90 | "xx" for a numeric key, as written: with key 0 present, the value is stored on a failed stream and "xx" is refused; with key 0 absent, an empty text is reported. Corrected, it is always refused as "xx" |
| Planner.Score | cql3/restrictions/statement_restrictions.cc:355-361 | 1 for a global index. 2 for a local one when the partition key is completely restricted by equalities, and 0 otherwise |
| Planner.FirstDependent | cql3/restrictions/statement_restrictions.cc:369-378 | The first index restriction with a column the index depends on |
| Planner.FindIdx | cql3/restrictions/statement_restrictions.cc:363-382 | Nothing is chosen unless an eligible index scores above 0. Otherwise the choice is the first eligible index with the highest score, with the first index restriction it depends on |
| Planner.ConsiderIndex | cql3/restrictions/statement_restrictions.cc:368-380 | An eligible index replaces the choice exactly when its score is strictly higher |
| Planner.NothingChosen | cql3/restrictions/statement_restrictions.cc:363-382 | Nothing is chosen exactly when every eligible index scores 0 |
| Planner.LocalNeedsFullPartitionKey | cql3/restrictions/statement_restrictions.cc:355-361 | A local index is chosen only when the partition key is completely restricted by equalities |
| Planner.GlobalIndexIsUsable | cql3/restrictions/statement_restrictions.cc:363-382 | With an eligible global index something is chosen, and a later index only if it is a usable local one |
| Planner.StatementRestrictions.constructor | cql3/restrictions/statement_restrictions.cc:157-162 | A statement with no relation: every restriction set initial and nothing decided |
| Planner.ColumnPrefix | cql3/restrictions/statement_restrictions.cc:533-534 | prefix_size of a multi-column restriction: from i on, its columns sit at clustering positions i, i+1, ..., and the prefix stops at the first column out of place |
| Planner.ClusteringPrefixSizeOf | cql3/restrictions/statement_restrictions.cc:533-534 | On the contents, for single-column and multi-column clustering restrictions alike: the first n restricted columns are clustering columns 0 .. n-1, and the next one, if any, is not column n |
| Planner.StatementRestrictions.ClusteringPrefixSize | cql3/restrictions/statement_restrictions.cc:533-534 | prefix_size is the number of leading restricted clustering columns: the first n restricted columns are clustering columns 0 .. n-1, and the next restricted column, if any, is not column n |
| Planner.StatementRestrictions.ColumnLists | cql3/restrictions/statement_restrictions.cc:363-382 | One column list per index restriction, in order |
| Planner.StatementRestrictions.EntryCounted | cql3/restrictions/statement_restrictions.cc:524-527 | Every index restriction's columns count towards the indexed column count |
| Planner.StatementRestrictions.WideEntryNeedsFiltering | cql3/restrictions/statement_restrictions.cc:536 | An index restriction on more than one column always needs filtering |
| Planner.StatementRestrictions.NeedFiltering | cql3/restrictions/statement_restrictions.cc:523-541 | The counting loop decides need_filtering exactly |
| Planner.StatementRestrictions.ChooseIndex | cql3/restrictions/statement_restrictions.cc:363-382 | find_idx over this statement's index restrictions, with allow_local from its partition key |
| Planner.PartitionStep | cql3/restrictions/statement_restrictions.cc:57-120 | The first partition-key relation creates a token restriction or the single-column restrictions, which then hold it. A token restriction conjoins further relations and keeps its slice; single-column restrictions refuse a token relation and merge others. Only the partition key changes |
| Planner.ClusteringStep | cql3/restrictions/statement_restrictions.cc:57-129 | The first clustering relation becomes the multi-column restriction or the single-column restrictions. A multi-column restriction refuses any further relation as unsupported, and single-column restrictions refuse a multi-column one. Only the clustering key changes |
| Planner.OtherStep | cql3/restrictions/statement_restrictions.cc:334-337 | The relation is added to the other-column restrictions, or refused as an invalid request with nothing changed |
| Planner.SingleColumnStep | cql3/restrictions/statement_restrictions.cc:318-339 | A partition key slice without a view or ALLOW FILTERING is refused. Otherwise the relation changes only the restrictions of its column's kind |
| Planner.RestrictionStep | cql3/restrictions/statement_restrictions.cc:308-316 | Only a token or partition key column relation changes the partition key, only a multi-column or clustering column relation the clustering key, and only another column's relation the other columns |
| Planner.RelationStep | cql3/restrictions/statement_restrictions.cc:190-214 | IS NOT NULL passes exactly on one known column in a view, and records the column even when refused outside a view. Any other relation is added as a restriction |
| Planner.RelationsStep | cql3/restrictions/statement_restrictions.cc:189-217 | The relations are added in order: the first refused one's error with what was added until then, or all of them added. The not-null columns only grow |
| Planner.RelationsStepUnfold | cql3/restrictions/statement_restrictions.cc:189-217 | Adding the relations from i on is adding relation i, then, unless it is refused, the rest |
| Planner.RelationsStepSplit | cql3/restrictions/statement_restrictions.cc:189-217 | Adding a followed by b is adding a, then, unless a relation of a is refused, adding b |
| Planner.FirstRefusalStops | cql3/restrictions/statement_restrictions.cc:189-217 | When relation i is the first refused one, adding all of them gives exactly what adding it after the earlier ones gives |
| Planner.PartitionKeyRefusal | cql3/restrictions/statement_restrictions.cc:435-459 | process_partition_key_restrictions refuses exactly a partition key that needs filtering without a view, ALLOW FILTERING or an index. Its key-range and secondary-indexing flags are stated exactly |
| Planner.ClusteringColumnsRefusal | cql3/restrictions/statement_restrictions.cc:469-498 | process_clustering_columns_restrictions refuses exactly IN with a selected collection, CONTAINS without an index or filtering, and a gap in filtered restrictions without an index, filtering or a view. It sets secondary indexing exactly when filtered restrictions have an index |
| Planner.PartitionPartRefusal | cql3/restrictions/statement_restrictions.cc:218-253 | The partition key half refuses exactly for process_partition_key_restrictions with the partition index, or for clustering restrictions in an update, delete or select of only static columns. The partition key is appended as an index restriction exactly when it is used or needs filtering |
| Planner.ClusteringPartRefusal | cql3/restrictions/statement_restrictions.cc:255-265 | The clustering key half uses secondary indexing exactly when process_clustering_columns_restrictions did or a key range has a clustering index. It appends the clustering key as an index restriction exactly when it is used or needs filtering, and otherwise refuses CONTAINS as unsupported |
| Planner.OtherColumnsCheck | cql3/restrictions/statement_restrictions.cc:292-301 | Other-column restrictions are refused exactly without an index or ALLOW FILTERING. Otherwise they become an index restriction and set secondary indexing exactly when they have an index |
| Planner.SecondaryIndexSelections | cql3/restrictions/statement_restrictions.cc:543-556 | Refused exactly for IN on the partition key or a static-only selection, as an invalid request |
| Planner.KeyPartsGuarantees | cql3/restrictions/statement_restrictions.cc:226-265 | On success each key part that needs filtering is an index restriction. Without a view or filtering, a filtered partition key has an index and a filtered clustering key without one has no gap. Only inserts restrict the clustering key while selecting only statics, and index restrictions are only appended |
| Planner.ValidationGuarantees | cql3/restrictions/statement_restrictions.cc:218-305 | On success every set that needs filtering and the other columns are index restrictions, other columns without filtering use their index, and a secondary-index query without a view or filtering selects neither IN partitions nor only statics |
| Planner.KeyPartsRefusal | cql3/restrictions/statement_restrictions.cc:226-265 | From no decisions, the key parts refuse exactly for one of the key-part reasons of Refused |
| Planner.KeyPartsIndexing | cql3/restrictions/statement_restrictions.cc:226-265 | From no decisions, accepted key parts use secondary indexing exactly when the partition key, a key range or a filtered clustering key has its index |
| Planner.ValidationRefusal | cql3/restrictions/statement_restrictions.cc:218-305 | From no decisions, the validation refuses exactly for one of the reasons of Refused |
| Planner.PreparationRefusal | cql3/restrictions/statement_restrictions.cc:171-306 | A statement is refused exactly when adding a relation is refused or its restrictions are Refused. A refused relation's error is the result, with nothing decided |
| Planner.FullPartitionKeyQueryAccepted | cql3/restrictions/statement_restrictions.cc:171-306 | A select with an EQ on the whole partition key is accepted: one single-column partition restriction, nothing else, and no filtering or index |
| Planner.PartialPartitionKeyQueryRefused | cql3/restrictions/statement_restrictions.cc:435-459 | The same EQ on half of a two-column partition key is refused as an invalid request |
| Planner.FirstKeyRestriction | cql3/restrictions/statement_restrictions.cc:67-72 | A fresh single-column key restriction set holding exactly one relation, its kind and its conjunction |
| Planner.StatementRestrictions.StartPartition | cql3/restrictions/statement_restrictions.cc:115-119 | An initial partition key becomes a fresh token restriction or a fresh single-column set, exactly as PartitionStep says; nothing else changes |
| Planner.StatementRestrictions.MergePartition | cql3/restrictions/statement_restrictions.cc:57-120 | The contents and outcome are exactly PartitionStep of the old contents, with new objects fresh and the decisions unchanged |
| Planner.StatementRestrictions.MergeClustering | cql3/restrictions/statement_restrictions.cc:57-129 | The contents and outcome are exactly ClusteringStep of the old contents, with new objects fresh and the decisions unchanged |
| Planner.StatementRestrictions.AddOtherColumn | cql3/restrictions/statement_restrictions.cc:334-337 | The contents and outcome are exactly OtherStep of the old contents; nothing else changes |
| Planner.StatementRestrictions.AddSingleColumnRestriction | cql3/restrictions/statement_restrictions.cc:318-339 | The contents and outcome are exactly SingleColumnStep of the old contents, and the decisions are unchanged |
| Planner.StatementRestrictions.AddRestriction | cql3/restrictions/statement_restrictions.cc:308-316 | The contents and outcome are exactly RestrictionStep of the old contents, and the decisions are unchanged |
| Planner.StatementRestrictions.AddRelation | cql3/restrictions/statement_restrictions.cc:190-214 | The contents and outcome are exactly RelationStep of the old contents, and the decisions are unchanged |
| Planner.StatementRestrictions.ProcessPartitionKeyRestrictions | cql3/restrictions/statement_restrictions.cc:435-459 | The outcome and decisions are exactly PartitionKeyCheck of the old ones, whose meaning PartitionKeyRefusal states |
| Planner.StatementRestrictions.ProcessClusteringColumnsRestrictions | cql3/restrictions/statement_restrictions.cc:469-498 | The outcome and decisions are exactly ClusteringColumnsCheck of the old ones, whose meaning ClusteringColumnsRefusal states |
| Planner.StatementRestrictions.CheckClusteringPrefix | cql3/restrictions/statement_restrictions.cc:487-495 | Fails exactly when a restricted column is not at its place in the clustering key |
| Planner.StatementRestrictions.ProcessKeyParts | cql3/restrictions/statement_restrictions.cc:226-265 | The outcome and decisions are exactly KeyPartsCheck of the old ones: the partition key half, then unless it refuses the clustering key half |
| Planner.StatementRestrictions.ProcessPartitionPart | cql3/restrictions/statement_restrictions.cc:218-253 | The outcome and decisions are exactly PartitionPartCheck of the old ones, whose meaning PartitionPartRefusal states |
| Planner.StatementRestrictions.ProcessClusteringPart | cql3/restrictions/statement_restrictions.cc:255-265 | The outcome and decisions are exactly ClusteringPartCheck of the old ones, whose meaning ClusteringPartRefusal states |
| Planner.StatementRestrictions.Process | cql3/restrictions/statement_restrictions.cc:218-305 | The contents stay as they are, and the outcome and decisions are exactly Validation of the old ones, whose meaning ValidationGuarantees and ValidationRefusal state |
| Planner.StatementRestrictions.ProcessOtherColumns | cql3/restrictions/statement_restrictions.cc:292-301 | The outcome and decisions are exactly OtherColumnsCheck of the old ones |
| Planner.StatementRestrictions.ProcessIndexing | cql3/restrictions/statement_restrictions.cc:292-305 | The outcome and decisions are exactly IndexingCheck of the old ones: the other columns, then the selections of a secondary-index query without a view or ALLOW FILTERING |
| Planner.StatementRestrictions.AddRelations | cql3/restrictions/statement_restrictions.cc:189-217 | The contents and outcome are exactly RelationsStep of the old contents, the in-order fold that stops at the first refused relation; the decisions are unchanged |
| Planner.StatementRestrictions.Prepare | cql3/restrictions/statement_restrictions.cc:171-306 | The result is exactly Preparation: the error of a refused statement, or a fresh valid object holding the contents and decisions it computes. PreparationRefusal states when it is refused |
| Planner.StatementRestrictions.Build | cql3/restrictions/statement_restrictions.cc:171-217 | A fresh object with the schema and ALLOW FILTERING, nothing decided, and the relations added as RelationsStep says |
| Planner.StatementRestrictions.GetPartitionKeyRanges | cql3/restrictions/statement_restrictions.cc:500-508 | The whole ring when the partition key is unrestricted or needs filtering. Otherwise the token ranges, or one partition per key |
| Planner.StatementRestrictions.GetClusteringBounds | cql3/restrictions/statement_restrictions.cc:510-521 | The whole partition when unrestricted, the longest prefix's ranges when filtering is needed, and otherwise all ranges |
| Planner.PrefixClusteringBounds | cql3/restrictions/statement_restrictions.cc:514-517 | The ranges of the longest restricted prefix |
| Planner.SingleClusteringBounds | cql3/restrictions/statement_restrictions.cc:510-521 | get_clustering_bounds for single-column clustering restrictions |

## Left out

- Schema, column types and comparators: one lexicographic order on integer sequences stands for every type's comparator and for the byte order of value lists. Reversed types are an order flag per clustering column.
- Row retrieval and deserialization (cells, liveness, collection decoding): a row is given as a map from columns to optional values plus the decoded collections.
- The index manager, `db.find_column_family` and the index lookups of the constructor: index support is passed in as booleans (`IndexSupport`, `hasIndex`) and as a list of indexes with their kind and target column. Index dependence is by column name.
- `get_column_defs_for_filtering` (statement_restrictions.cc:384-433) needs the index manager and is not modelled. Its clustering loop tests the partition-key pointer but dereferences the clustering-key pointer (lines 414-415).
- Token hashing (`dht::token::from_bytes` of a key, `get_token`): a token is the minimum marker, a key's value or the maximum marker, and the empty value reads as the minimum marker.
- `primary_key_restrictions.hh`, `single_column_restrictions.hh`, `multi_column_restriction.hh`, `bound_view`, `cartesian_product.hh` and `operator_type` are not part of this model. Their behaviour is defined in the model as the core uses it. The single-column map is an ordered sequence, `bound_view` a weight plus a prefix, and the cartesian product a recursive function.
- Multi-column clustering restrictions: their ranges are the parameter `multiBounds` of `GetClusteringBounds`. They are taken not to need filtering, and a second multi-column relation is an unsupported operation.
- The size of a token restriction is its number of columns. A token restriction and the initial restrictions are not all-EQ, and a token restriction needs no filtering.
- `std::sort` is modelled as a stable insertion sort. Any sort yields a permutation sorted by start, which is all the lemmas use.
- Failed `assert`s and undefined behaviour are the error `LogicError`. `fail(unimplemented::cause::...)` is `UnsupportedOperation`.
- The IS NOT NULL relation's assertion that its value is the null literal is not modelled. A relation is `IsNotNull` or `Restricting`.
- `has_multiple_contains` is modelled as a count of CONTAINS and CONTAINS KEY atoms over the other-column restrictions.
- The 32-bit counters of `need_filtering` are unbounded integers.
- Static and regular columns are identified by kind and id, assumed distinct within each kind.
- `values()` / `value_for`, `uses_function`, `to_string`, operator<< of restrictions, and the configuration gating of `check_multicolumn_bound` are printing, opaque function terms or configuration.
- Token `values_as_keys` (token_restriction.hh:88-90, always unsupported) is not modelled, because the planner asks a token restriction only for token ranges. Token `has_supporting_index` returns false (token_restriction.hh:77-79) and the constructor does ask it (statement_restrictions.cc:222). The model gives that answer by granting the partition key index only to single-column partition restrictions (`pkIndex` in `PartitionPartCheck`).
- `is_on_collection`, the view-schema conversion constructor of the single-column key restrictions (single_column_primary_key_restrictions.hh:110-124), and the thread-local initial restriction objects, which are a bucket value `PkInitial` / `CkInitial`.
- find_idx returns the chosen index restriction by its position in the list, not the object.
- LIKE works on sequences of code points: UTF-8 decoding is left out.
- LIKE: the behaviour of '%' followed by '_' is a known open question in the matcher (like_matcher.cc:66). No property about it is stated.
- ReadWord: stands for lexical_cast's reading of a word key, which is the stream extraction (it does not skip leading white space, because lexical_cast clears skipws) followed by lexical_cast's check that the whole text was consumed. Any text with white space is refused. The whole-text check is not in enum_option.hh, and numeric extraction is a parameter `read`.
- enum_option `operator==` (enum_option.hh:70-72): an option is represented by its value alone, so equality of options is equality of values.
- Planner.GetClusteringBounds: when the prefix ranges fail, the error is stated only as an invalid request or the error of the specification function; which one is not pinned down.
- Planner.PrefixClusteringBounds: the same weaker error case as GetClusteringBounds.
- Planner.SingleClusteringBounds: the same weaker error case as GetClusteringBounds.
- KeyBounds.SingleColumnPrimaryKeyRestrictions.AllEqBounds: uses the corrected null handling of the third finding below. For an EQ bound to null the source's `to_interval` throws a logic error (single_column_primary_key_restrictions.hh:224-225, statement_restrictions.cc:1277-1279); the model returns the invalid request the null check after it intends.
- KeyBounds.SingleColumnPrimaryKeyRestrictions.ComputeBounds: the same corrected null handling as AllEqBounds, for an all-EQ key with a column bound to null.
- Terms.BindAndGet: the model has no serialized form for collections and tuples, so a list literal, and a marker bound to a tuple or list, give `UnsupportedOperation` where the source would serialize the value.
- Concurrency, futures, logging and the query processor are outside the core.

## Findings

| source | as written | input that shows it | evidently intended | confidence | as-written member | corrected member |
|---|---|---|---|---|---|---|
| cql3/restrictions/token_restriction.cc:79-83 | The conjunction fold starts from an empty optional and returns an empty accumulator unchanged, so every conjunction yields no token range | The empty conjunction, or `token(k) > 1 AND token(k) < 5` | The fold starts from the entire ring and intersects each child's range | not executed | TokenRanges.GetTokenRangeAsWritten | TokenRanges.GetTokenRange |
| utils/enum_option.hh:76-90 | Text that does not extract as a key, when the key the failed extraction leaves (0 for a number) is absent, throws with the error text read from the failed stream, which is empty | "xx" for a numeric key whose map has no key 0: invalid_option_value("") | invalid_option_value("xx") | not executed | EnumOption.UnreadableKeyText | EnumOption.Parse |
| cql3/restrictions/single_column_primary_key_restrictions.hh:224-227 | For `k = null` the value list is empty, and to_interval throws a logic error before the null check is reached | `k = ?` bound to null, on a partition key column | An invalid request "Invalid null value" | not executed | KeyBounds.NullKeyPart | KeyBounds.EqComponent |
