/**
 * The statement-level planner: it routes every WHERE relation to the partition
 * key, clustering key or other-column restrictions, validates the combination
 * (the ALLOW FILTERING gate), scores and picks a secondary index, decides whether
 * rows must be filtered, and computes the partition and clustering ranges to read.
 */
module Planner {
  import opened Wrappers
  import opened Values
  import opened Terms
  import opened Restrictions
  import opened ValueSets
  import opened TokenRanges
  import opened KeyRanges
  import opened KeyBounds

  /** The table facts the planner consults: how many partition key and clustering key columns it has. */
  datatype Schema = Schema(partitionKeySize: nat, clusteringKeySize: nat)

  datatype StatementType = SelectStatement | InsertStatement | UpdateStatement | DeleteStatement

  /** A WHERE relation: IS NOT NULL (on one known column or not), or the restriction any other relation becomes. */
  datatype Relation =
    | IsNotNull(singleColumn: bool, column: Option<ColumnDef>)
    | Restricting(restriction: Restriction)

  /** What converting a relation into a restriction guarantees. */
  predicate WellFormed(r: Restriction) {
    (r.target == SingleColumn ==> |r.columns| == 1) &&
    (r.target == OnToken ==> r.op == OpEQ || r.op == OpSlice)
  }

  /** The partition key restrictions: still initial, a token restriction, or single-column restrictions. */
  datatype PartitionBucket =
    | PkInitial
    | PkToken(token: TokenRestriction)
    | PkSingle(single: SingleColumnPrimaryKeyRestrictions)

  /** The clustering key restrictions: still initial, single-column restrictions, or one multi-column restriction. */
  datatype ClusteringBucket =
    | CkInitial
    | CkSingle(single: SingleColumnPrimaryKeyRestrictions)
    | CkMulti(multi: Restriction)

  /** Which of the three restriction sets an index restriction is. */
  datatype IndexEntry = PartitionEntry | ClusteringEntry | OtherColumnsEntry

  /** has_supporting_index of the three restriction sets, as the index manager answers it. */
  datatype IndexSupport = IndexSupport(partition: bool, clustering: bool, otherColumns: bool)

  /** A secondary index: local or global, on one target column. */
  datatype Index = Index(local: bool, target: string)

  predicate DependsOn(ix: Index, c: ColumnDef) {
    ix.target == c.name
  }

  /** A range of partitions: a range of the token ring, or the one partition of a key. */
  datatype PartitionRange = TokenSpan(range: TokenRange) | SinglePartition(key: Key)

  function TokenSpans(rs: seq<TokenRange>): (r: seq<PartitionRange>)
    ensures |r| == |rs| && forall k :: 0 <= k < |rs| ==> r[k] == TokenSpan(rs[k])
  {
    seq(|rs|, k requires 0 <= k < |rs| => TokenSpan(rs[k]))
  }

  function SinglePartitions(keys: seq<Key>): (r: seq<PartitionRange>)
    ensures |r| == |keys| && forall k :: 0 <= k < |keys| ==> r[k] == SinglePartition(keys[k])
  {
    seq(|keys|, k requires 0 <= k < |keys| => SinglePartition(keys[k]))
  }

  /** The columns of a restrictions map, in position order. */
  function RestrictedColumns(rs: seq<Restriction>): (cs: seq<ColumnDef>)
    requires ByPosition(rs)
    ensures |cs| == |rs| && forall k :: 0 <= k < |rs| ==> cs[k] == rs[k].columns[0]
  {
    seq(|rs|, k requires 0 <= k < |rs| => rs[k].columns[0])
  }

  /** prefix_size of a multi-column restriction: its leading columns at clustering positions 0, 1, ... */
  function ColumnPrefix(cs: seq<ColumnDef>, i: nat): (n: nat)
    requires i <= |cs|
    ensures i + n <= |cs| && forall j :: i <= j < i + n ==> cs[j].id == j
    ensures i + n < |cs| ==> cs[i + n].id != i + n
    decreases |cs| - i
  {
    if i == |cs| || cs[i].id != i then 0 else 1 + ColumnPrefix(cs, i + 1)
  }

  /** A restricted clustering column that is not the clustering column at its place in the list. */
  predicate HasGap(cs: seq<ColumnDef>) {
    exists k :: 0 <= k < |cs| && cs[k].id != k
  }

  predicate ContainsAtom(b: BinaryOperator) {
    b.op == CONTAINS || b.op == CONTAINS_KEY
  }

  /** The number of CONTAINS and CONTAINS KEY relations in rs[i..]. */
  function ContainsCount(rs: seq<Restriction>, i: nat): nat
    requires i <= |rs|
    decreases |rs| - i
  {
    if i == |rs| then 0 else CountIf(rs[i].expression, ContainsAtom) + ContainsCount(rs, i + 1)
  }

  // ---------------------------------------------------------------------------
  // Index scoring and choice
  // ---------------------------------------------------------------------------

  /**
   * score: a global index scores 1; a local index scores 2 when the partition
   * key is completely restricted by equalities (allowLocal), and 0 otherwise.
   */
  function Score(ix: Index, allowLocal: bool): (s: int)
    ensures 0 <= s <= 2
    ensures s == 0 <==> ix.local && !allowLocal
    ensures s == 2 <==> ix.local && allowLocal
  {
    if ix.local then (if allowLocal then 2 else 0) else 1
  }

  predicate DependsOnSome(ix: Index, cs: seq<ColumnDef>) {
    exists c :: 0 <= c < |cs| && DependsOn(ix, cs[c])
  }

  /** An index find_idx can consider: it depends on a column of some index restriction. */
  predicate Eligible(ix: Index, lists: seq<seq<ColumnDef>>) {
    exists e :: 0 <= e < |lists| && DependsOnSome(ix, lists[e])
  }

  /** The first index restriction, from e on, with a column ix depends on; |lists| when there is none. */
  function FirstDependent(ix: Index, lists: seq<seq<ColumnDef>>, e: nat): (r: nat)
    requires e <= |lists|
    ensures e <= r <= |lists|
    ensures r < |lists| ==> DependsOnSome(ix, lists[r])
    ensures forall k :: e <= k < r ==> !DependsOnSome(ix, lists[k])
    decreases |lists| - e
  {
    if e == |lists| || DependsOnSome(ix, lists[e]) then e else FirstDependent(ix, lists, e + 1)
  }

  /** The chosen index and index restriction, by position in their lists. */
  datatype Choice = Choice(index: nat, entry: nat)

  function ChosenScore(indexes: seq<Index>, chosen: Option<Choice>, allowLocal: bool): int {
    match chosen
    case None => 0
    case Some(c) => if c.index < |indexes| then Score(indexes[c.index], allowLocal) else 0
  }

  /**
   * What find_idx has chosen after the indexes before n: nothing while no
   * eligible index scores above 0; otherwise an eligible index with the highest
   * score, the first one with that score, and the first index restriction it
   * depends on.
   */
  predicate BestOf(indexes: seq<Index>, lists: seq<seq<ColumnDef>>, allowLocal: bool, n: nat, chosen: Option<Choice>)
    requires n <= |indexes|
  {
    match chosen
    case None =>
      forall a :: 0 <= a < n && Eligible(indexes[a], lists) ==> Score(indexes[a], allowLocal) <= 0
    case Some(c) =>
      c.index < n &&
      var best := Score(indexes[c.index], allowLocal);
      best > 0 && c.entry == FirstDependent(indexes[c.index], lists, 0) && c.entry < |lists| &&
      (forall a :: 0 <= a < n && Eligible(indexes[a], lists) ==> Score(indexes[a], allowLocal) <= best) &&
      (forall a :: 0 <= a < c.index && Eligible(indexes[a], lists) ==> Score(indexes[a], allowLocal) < best)
  }

  /**
   * find_idx over the indexes and the column lists of the index restrictions: a
   * candidate replaces the choice only when it scores strictly higher.
   */
  method FindIdx(indexes: seq<Index>, lists: seq<seq<ColumnDef>>, allowLocal: bool) returns (chosen: Option<Choice>)
    ensures chosen.Some? ==> chosen.value.index < |indexes| && chosen.value.entry < |lists|
    ensures chosen.Some? ==> Eligible(indexes[chosen.value.index], lists)
    ensures BestOf(indexes, lists, allowLocal, |indexes|, chosen)
  {
    chosen := None;
    var score := 0;
    var i := 0;
    while i < |indexes|
      invariant 0 <= i <= |indexes|
      invariant BestOf(indexes, lists, allowLocal, i, chosen) && score == ChosenScore(indexes, chosen, allowLocal)
    {
      chosen, score := ConsiderIndex(indexes, i, lists, allowLocal, chosen, score);
      i := i + 1;
    }
    if chosen.Some? {
      var c := chosen.value;
      assert DependsOnSome(indexes[c.index], lists[c.entry]);
    }
  }

  /** The loops of find_idx over the index restrictions and their columns, for the index at i. */
  method ConsiderIndex(indexes: seq<Index>, i: nat, lists: seq<seq<ColumnDef>>, allowLocal: bool,
                       chosen0: Option<Choice>, score0: int) returns (chosen: Option<Choice>, score: int)
    requires i < |indexes|
    ensures var ix := indexes[i];
      if Eligible(ix, lists) && Score(ix, allowLocal) > score0
      then chosen == Some(Choice(i, FirstDependent(ix, lists, 0))) && score == Score(ix, allowLocal)
      else chosen == chosen0 && score == score0
  {
    var ix := indexes[i];
    var first := FirstDependent(ix, lists, 0);
    chosen, score := chosen0, score0;
    var e := 0;
    while e < |lists|
      invariant 0 <= e <= |lists|
      invariant if first < e && Score(ix, allowLocal) > score0
        then chosen == Some(Choice(i, first)) && score == Score(ix, allowLocal)
        else chosen == chosen0 && score == score0
    {
      var cs := lists[e];
      var c := 0;
      while c < |cs|
        invariant 0 <= c <= |cs|
        invariant if (first < e || (first == e && exists k :: 0 <= k < c && DependsOn(ix, cs[k]))) && Score(ix, allowLocal) > score0
          then chosen == Some(Choice(i, first)) && score == Score(ix, allowLocal)
          else chosen == chosen0 && score == score0
      {
        if DependsOn(ix, cs[c]) {
          assert DependsOnSome(ix, lists[e]);
          if Score(ix, allowLocal) > score {
            chosen := Some(Choice(i, e));
            score := Score(ix, allowLocal);
          }
        }
        c := c + 1;
      }
      e := e + 1;
    }
    assert Eligible(ix, lists) <==> first < |lists|;
  }

  // ---------------------------------------------------------------------------
  // The statement's restrictions and decisions as values
  // ---------------------------------------------------------------------------

  /** The partition key restrictions as a value: none yet, a token restriction, or single-column key restrictions. */
  datatype PartitionContents =
    | NoPartitionKey
    | TokenContents(kind: TokenKind, columns: seq<ColumnDef>, expression: Expression, slice: TermSlice)
    | PartitionParts(parts: KeyParts)

  /** The clustering key restrictions as a value: none yet, single-column key restrictions, or one multi-column restriction. */
  datatype ClusteringContents =
    | NoClusteringKey
    | ClusteringParts(parts: KeyParts)
    | MultiColumnContents(relation: Restriction)

  /** Every restriction of a statement, and its IS NOT NULL columns. */
  datatype StatementContents = StatementContents(partition: PartitionContents, clustering: ClusteringContents,
                               others: seq<Restriction>, notNull: set<ColumnDef>)

  /** The decisions the validation takes: a key range, secondary indexing, and the index restrictions in order. */
  datatype Flags = Flags(isKeyRange: bool, usesSecondaryIndexing: bool, indexRestrictions: seq<IndexEntry>)

  const NoRestrictions := StatementContents(NoPartitionKey, NoClusteringKey, [], {})
  const NoFlags := Flags(false, false, [])

  /** Every single-column restrictions map is ordered by position. */
  predicate ContentsValid(c: StatementContents) {
    (c.partition.PartitionParts? ==> ByPosition(c.partition.parts.restrictions)) &&
    (c.clustering.ClusteringParts? ==> ByPosition(c.clustering.parts.restrictions)) &&
    ByPosition(c.others)
  }

  // --- what the planner asks the partition key restrictions ---

  function PartitionColumnsOf(c: StatementContents): seq<ColumnDef>
    requires ContentsValid(c)
  {
    match c.partition
    case NoPartitionKey => []
    case TokenContents(_, columns, _, _) => columns
    case PartitionParts(k) => RestrictedColumns(k.restrictions)
  }

  predicate PartitionEmptyOf(c: StatementContents) {
    match c.partition
    case NoPartitionKey => true
    case TokenContents(_, _, _, _) => false
    case PartitionParts(k) => k.restrictions == []
  }

  /** has_unrestricted_components: fewer restricted columns than the partition key has. */
  predicate PartitionUnrestrictedOf(c: StatementContents, schema: Schema)
    requires ContentsValid(c)
  {
    |PartitionColumnsOf(c)| < schema.partitionKeySize
  }

  predicate PartitionAllEqOf(c: StatementContents) {
    c.partition.PartitionParts? && AllEq(c.partition.parts.restrictions)
  }

  predicate PartitionNeedsFilteringOf(c: StatementContents, schema: Schema)
    requires ContentsValid(c)
  {
    c.partition.PartitionParts? && KeyNeedsFiltering(c.partition.parts, true, schema.partitionKeySize)
  }

  /** key_is_in_relation: the partition key is restricted by IN. */
  predicate PartitionInOf(c: StatementContents) {
    c.partition.PartitionParts? && ContainsOperatorOf(c.partition.parts.restrictions, IN)
  }

  // --- what the planner asks the clustering key restrictions ---

  function ClusteringColumnsOf(c: StatementContents): seq<ColumnDef>
    requires ContentsValid(c)
  {
    match c.clustering
    case NoClusteringKey => []
    case ClusteringParts(k) => RestrictedColumns(k.restrictions)
    case MultiColumnContents(m) => m.columns
  }

  predicate ClusteringEmptyOf(c: StatementContents) {
    match c.clustering
    case NoClusteringKey => true
    case ClusteringParts(k) => k.restrictions == []
    case MultiColumnContents(_) => false
  }

  predicate ClusteringUnrestrictedOf(c: StatementContents, schema: Schema)
    requires ContentsValid(c)
  {
    |ClusteringColumnsOf(c)| < schema.clusteringKeySize
  }

  /** prefix_size: the restricted leading clustering columns 0, 1, ... */
  function ClusteringPrefixSizeOf(c: StatementContents): (n: nat)
    requires ContentsValid(c)
    ensures n <= |ClusteringColumnsOf(c)|
    ensures forall j :: 0 <= j < n ==> ClusteringColumnsOf(c)[j].id == j
    ensures n < |ClusteringColumnsOf(c)| ==> ClusteringColumnsOf(c)[n].id != n
  {
    match c.clustering
    case NoClusteringKey => 0
    case ClusteringParts(k) => PrefixSize(k.restrictions, 0)
    case MultiColumnContents(m) => ColumnPrefix(m.columns, 0)
  }

  predicate ClusteringNeedsFilteringOf(c: StatementContents, schema: Schema)
    requires ContentsValid(c)
  {
    c.clustering.ClusteringParts? && KeyNeedsFiltering(c.clustering.parts, false, schema.clusteringKeySize)
  }

  predicate ClusteringInOf(c: StatementContents) {
    match c.clustering
    case NoClusteringKey => false
    case ClusteringParts(k) => ContainsOperatorOf(k.restrictions, IN)
    case MultiColumnContents(m) => m.op == OpIN
  }

  predicate ClusteringContainsOf(c: StatementContents) {
    match c.clustering
    case NoClusteringKey => false
    case ClusteringParts(k) => OpContains in k.ops
    case MultiColumnContents(m) => m.op == OpContains
  }

  // --- adding relations, on the values ---

  /**
   * _partition_key_restrictions->merge_to(r): the first relation creates the
   * token restriction or the key restrictions; a token restriction conjoins any
   * further relation; key restrictions merge it.
   */
  function PartitionStep(c: StatementContents, allowFiltering: bool, r: Restriction): (res: (Outcome, StatementContents))
    requires ContentsValid(c) && WellFormed(r) && !r.IsMultiColumn()
    ensures ContentsValid(res.1)
    ensures res.1.clustering == c.clustering && res.1.others == c.others && res.1.notNull == c.notNull
    ensures res.0.Fail? ==> res.0.error == InvalidRequest && c.partition.PartitionParts?
    ensures c.partition.PartitionParts? && r.IsOnToken() ==> res == (Fail(InvalidRequest), c)
    ensures c.partition.TokenContents? ==>
      res.0 == Pass && res.1.partition.TokenContents? &&
      res.1.partition.slice == c.partition.slice &&
      Atoms(res.1.partition.expression) == Atoms(c.partition.expression) + Atoms(r.expression)
    ensures res.0.Pass? && !c.partition.TokenContents? && !r.IsOnToken() ==>
      res.1.partition.PartitionParts? && Position(r) in Positions(res.1.partition.parts.restrictions)
  {
    match c.partition
    case NoPartitionKey =>
      if r.IsOnToken() then
        (Pass, c.(partition := TokenContents(if r.op == OpEQ then TokenEQ else TokenSlice, r.columns, r.expression, r.slice)))
      else
        FirstMergePasses(allowFiltering, r);
        var (o, k) := MergeKeyParts(NoKeyParts, allowFiltering, r);
        (o, c.(partition := PartitionParts(k)))
    case TokenContents(kind, columns, e, slice) =>
      (Pass, c.(partition := TokenContents(kind, columns, MakeConjunction(e, r.expression), slice)))
    case PartitionParts(k) =>
      var (o, k') := MergeKeyParts(k, allowFiltering, r);
      (o, c.(partition := PartitionParts(k')))
  }

  /**
   * _clustering_columns_restrictions->merge_to(r): the first relation creates the
   * multi-column restriction or the key restrictions; key restrictions merge a
   * further relation; a multi-column restriction takes no further relation.
   */
  function ClusteringStep(c: StatementContents, allowFiltering: bool, r: Restriction): (res: (Outcome, StatementContents))
    requires ContentsValid(c) && WellFormed(r) && !r.IsOnToken()
    ensures ContentsValid(res.1)
    ensures res.1.partition == c.partition && res.1.others == c.others && res.1.notNull == c.notNull
    ensures c.clustering.NoClusteringKey? ==> res.0 == Pass
    ensures c.clustering.MultiColumnContents? ==> res == (Fail(UnsupportedOperation), c)
    ensures c.clustering.ClusteringParts? && r.IsMultiColumn() ==> res == (Fail(InvalidRequest), c)
    ensures res.0.Fail? && !c.clustering.MultiColumnContents? ==> res.0.error == InvalidRequest
    ensures res.0.Pass? && !r.IsMultiColumn() ==>
      res.1.clustering.ClusteringParts? && Position(r) in Positions(res.1.clustering.parts.restrictions)
  {
    match c.clustering
    case NoClusteringKey =>
      if r.IsMultiColumn() then
        (Pass, c.(clustering := MultiColumnContents(r)))
      else
        FirstMergePasses(allowFiltering, r);
        var (o, k) := MergeKeyParts(NoKeyParts, allowFiltering, r);
        (o, c.(clustering := ClusteringParts(k)))
    case ClusteringParts(k) =>
      var (o, k') := MergeKeyParts(k, allowFiltering, r);
      (o, c.(clustering := ClusteringParts(k')))
    case MultiColumnContents(_) =>
      (Fail(UnsupportedOperation), c)
  }

  /** _nonprimary_key_restrictions->add_restriction(r). */
  function OtherStep(c: StatementContents, r: Restriction): (res: (Outcome, StatementContents))
    requires ContentsValid(c) && SingleColumnRestriction(r)
    ensures ContentsValid(res.1)
    ensures res.1.partition == c.partition && res.1.clustering == c.clustering && res.1.notNull == c.notNull
    ensures res.0.Pass? ==> AddedBy(c.others, r, res.1.others)
    ensures res.0.Fail? ==> res == (Fail(InvalidRequest), c)
  {
    match AddRestriction(c.others, r)
    case Ok(rs) => (Pass, c.(others := rs))
    case Err(e) => (Fail(e), c)
  }

  /**
   * add_single_column_restriction: a relation on a partition key column goes to
   * the partition key restrictions, where a slice needs a view or ALLOW
   * FILTERING; one on a clustering column to the clustering restrictions; any
   * other to the other-column restrictions.
   */
  function SingleColumnStep(c: StatementContents, allowFiltering: bool, r: Restriction, forView: bool): (res: (Outcome, StatementContents))
    requires ContentsValid(c) && WellFormed(r) && r.target == SingleColumn
    ensures ContentsValid(res.1) && res.1.notNull == c.notNull
    ensures r.columns[0].kind == PartitionKey && r.IsSlice() && !forView && !allowFiltering ==>
      res == (Fail(InvalidRequest), c)
    ensures r.columns[0].kind != PartitionKey ==> res.1.partition == c.partition
    ensures r.columns[0].kind != ClusteringKey ==> res.1.clustering == c.clustering
    ensures r.columns[0].kind == PartitionKey || r.columns[0].kind == ClusteringKey ==> res.1.others == c.others
    ensures res.0.Fail? ==> res.0.error == InvalidRequest || res.0.error == UnsupportedOperation
  {
    var kind := r.columns[0].kind;
    if kind == PartitionKey then
      if r.IsSlice() && !forView && !allowFiltering then (Fail(InvalidRequest), c)
      else PartitionStep(c, allowFiltering, r)
    else if kind == ClusteringKey then
      ClusteringStep(c, allowFiltering, r)
    else
      OtherStep(c, r)
  }

  /**
   * add_restriction: a multi-column relation restricts the clustering key, a
   * token relation the partition key, and any other relation the restrictions of
   * its column's kind.
   */
  function RestrictionStep(c: StatementContents, allowFiltering: bool, r: Restriction, forView: bool): (res: (Outcome, StatementContents))
    requires ContentsValid(c) && WellFormed(r)
    ensures ContentsValid(res.1) && res.1.notNull == c.notNull
    ensures res.1.partition != c.partition ==>
      r.IsOnToken() || (r.target == SingleColumn && r.columns[0].kind == PartitionKey)
    ensures res.1.clustering != c.clustering ==>
      r.IsMultiColumn() || (r.target == SingleColumn && r.columns[0].kind == ClusteringKey)
    ensures res.1.others != c.others ==>
      r.target == SingleColumn && r.columns[0].kind != PartitionKey && r.columns[0].kind != ClusteringKey
    ensures res.0.Fail? ==> res.0.error == InvalidRequest || res.0.error == UnsupportedOperation
  {
    if r.IsMultiColumn() then ClusteringStep(c, allowFiltering, r)
    else if r.IsOnToken() then PartitionStep(c, allowFiltering, r)
    else SingleColumnStep(c, allowFiltering, r, forView)
  }

  /** What converting the WHERE relations into restrictions guarantees for each of them. */
  predicate RelationsWellFormed(rels: seq<Relation>) {
    forall k :: 0 <= k < |rels| ==> rels[k].Restricting? ==> WellFormed(rels[k].restriction)
  }

  /**
   * One WHERE relation: IS NOT NULL must be on one known column, whose name is
   * recorded, and is only allowed in a materialized view; any other relation is
   * added as a restriction.
   */
  function RelationStep(c: StatementContents, allowFiltering: bool, rel: Relation, forView: bool): (res: (Outcome, StatementContents))
    requires ContentsValid(c) && (rel.Restricting? ==> WellFormed(rel.restriction))
    ensures ContentsValid(res.1)
    ensures rel.IsNotNull? ==>
      (res.0 == Pass <==> rel.singleColumn && rel.column.Some? && forView) && (res.0.Fail? ==> res.0.error == InvalidRequest)
    ensures rel.IsNotNull? ==>
      res.1 == c.(notNull := if rel.singleColumn && rel.column.Some? then c.notNull + {rel.column.value} else c.notNull)
    ensures rel.Restricting? ==> res == RestrictionStep(c, allowFiltering, rel.restriction, forView)
  {
    match rel
    case IsNotNull(single, column) =>
      if !single then (Fail(InvalidRequest), c)
      else if column.None? then (Fail(InvalidRequest), c)
      else
        var c' := c.(notNull := c.notNull + {column.value});
        if !forView then (Fail(InvalidRequest), c') else (Pass, c')
    case Restricting(r) =>
      RestrictionStep(c, allowFiltering, r, forView)
  }

  /** The relations added in order: the first refused one's error and what was added until then, or all of them added. */
  function RelationsStep(c: StatementContents, allowFiltering: bool, rels: seq<Relation>, forView: bool): (res: (Outcome, StatementContents))
    requires ContentsValid(c) && RelationsWellFormed(rels)
    ensures ContentsValid(res.1)
    ensures c.notNull <= res.1.notNull
    ensures res.0.Fail? ==> res.0.error == InvalidRequest || res.0.error == UnsupportedOperation
    decreases |rels|
  {
    if rels == [] then (Pass, c)
    else
      var (o, c') := RelationStep(c, allowFiltering, rels[0], forView);
      if o.Fail? then (o, c')
      else
        assert RelationsWellFormed(rels[1..]) by {
          forall k | 0 <= k < |rels[1..]| ensures rels[1..][k].Restricting? ==> WellFormed(rels[1..][k].restriction) {
            assert rels[1..][k] == rels[k + 1];
          }
        }
        RelationsStep(c', allowFiltering, rels[1..], forView)
  }

  /** Adding rels[i..] is adding rels[i], then, unless it is refused, rels[i + 1..]. */
  lemma RelationsStepUnfold(c: StatementContents, allowFiltering: bool, rels: seq<Relation>, i: nat, forView: bool)
    requires ContentsValid(c) && i < |rels| && RelationsWellFormed(rels[i..])
    ensures rels[i].Restricting? ==> WellFormed(rels[i].restriction)
    ensures RelationsWellFormed(rels[i + 1..])
    ensures RelationsStep(c, allowFiltering, rels[i..], forView) ==
      var (o, c') := RelationStep(c, allowFiltering, rels[i], forView);
      if o.Fail? then (o, c') else RelationsStep(c', allowFiltering, rels[i + 1..], forView)
  {
    assert rels[i..][0] == rels[i];
    assert rels[i..][1..] == rels[i + 1..];
  }

  /** Adding a + b is adding a, then, unless a relation was refused, adding b. */
  lemma {:induction false} RelationsStepSplit(c: StatementContents, allowFiltering: bool, a: seq<Relation>, b: seq<Relation>, forView: bool)
    requires ContentsValid(c) && RelationsWellFormed(a) && RelationsWellFormed(b)
    ensures RelationsWellFormed(a + b)
    ensures RelationsStep(c, allowFiltering, a + b, forView) ==
      var (o, c') := RelationsStep(c, allowFiltering, a, forView);
      if o.Fail? then (o, c') else RelationsStep(c', allowFiltering, b, forView)
    decreases |a|
  {
    assert RelationsWellFormed(a + b) by {
      forall k | 0 <= k < |a + b| ensures (a + b)[k].Restricting? ==> WellFormed((a + b)[k].restriction) {
        if k < |a| {
          assert (a + b)[k] == a[k];
        } else {
          assert (a + b)[k] == b[k - |a|];
        }
      }
    }
    if a != [] {
      assert (a + b)[0] == a[0];
      assert (a + b)[1..] == a[1..] + b;
      var (o, c') := RelationStep(c, allowFiltering, a[0], forView);
      if o.Pass? {
        assert RelationsWellFormed(a[1..]) by {
          forall k | 0 <= k < |a[1..]| ensures a[1..][k].Restricting? ==> WellFormed(a[1..][k].restriction) {
            assert a[1..][k] == a[k + 1];
          }
        }
        RelationsStepSplit(c', allowFiltering, a[1..], b, forView);
      }
    } else {
      assert a + b == b;
    }
  }

  /** The relations stop at the first refused one: its outcome and contents are the result of adding them all. */
  lemma FirstRefusalStops(c: StatementContents, allowFiltering: bool, rels: seq<Relation>, forView: bool, i: nat)
    requires ContentsValid(c) && RelationsWellFormed(rels) && i < |rels|
    requires RelationsWellFormed(rels[..i]) && RelationsStep(c, allowFiltering, rels[..i], forView).0.Pass?
    requires RelationStep(RelationsStep(c, allowFiltering, rels[..i], forView).1, allowFiltering, rels[i], forView).0.Fail?
    ensures RelationsStep(c, allowFiltering, rels, forView) ==
      RelationStep(RelationsStep(c, allowFiltering, rels[..i], forView).1, allowFiltering, rels[i], forView)
  {
    assert RelationsWellFormed(rels[i..]) by {
      forall k | 0 <= k < |rels[i..]| ensures rels[i..][k].Restricting? ==> WellFormed(rels[i..][k].restriction) {
        assert rels[i..][k] == rels[i + k];
      }
    }
    assert rels == rels[..i] + rels[i..];
    RelationsStepSplit(c, allowFiltering, rels[..i], rels[i..], forView);
    assert rels[i..][0] == rels[i];
  }

  // --- the validation, on the values ---

  /** process_partition_key_restrictions on the values. */
  function PartitionKeyCheck(c: StatementContents, schema: Schema, allowFiltering: bool, f: Flags, hasIndex: bool,
                             forView: bool): (Outcome, Flags)
    requires ContentsValid(c)
  {
    var f' := if c.partition.TokenContents? then f.(isKeyRange := true)
              else if PartitionUnrestrictedOf(c, schema) then f.(isKeyRange := true, usesSecondaryIndexing := hasIndex)
              else f;
    if !PartitionNeedsFilteringOf(c, schema) then (Pass, f')
    else if !allowFiltering && !forView && !hasIndex then (Fail(InvalidRequest), f')
    else (Pass, f'.(isKeyRange := true, usesSecondaryIndexing := hasIndex))
  }

  /**
   * process_partition_key_restrictions: a partition key that needs filtering is
   * refused without a view, ALLOW FILTERING or an index; a token restriction, an
   * incomplete partition key and one that needs filtering make a key range; an
   * incomplete partition key, unless it is a token restriction, and one that
   * needs filtering use the index exactly when there is one.
   */
  lemma PartitionKeyRefusal(c: StatementContents, schema: Schema, allowFiltering: bool, f: Flags, hasIndex: bool,
                            forView: bool)
    requires ContentsValid(c)
    ensures var (o, f') := PartitionKeyCheck(c, schema, allowFiltering, f, hasIndex, forView);
      var token := c.partition.TokenContents?;
      var unrestricted := PartitionUnrestrictedOf(c, schema);
      var nf := PartitionNeedsFilteringOf(c, schema);
      (o.Fail? <==> nf && !allowFiltering && !forView && !hasIndex) && (o.Fail? ==> o.error == InvalidRequest) &&
      f'.indexRestrictions == f.indexRestrictions &&
      f'.isKeyRange == (f.isKeyRange || token || unrestricted || (nf && o.Pass?)) &&
      f'.usesSecondaryIndexing == if (nf && o.Pass?) || (!token && unrestricted) then hasIndex else f.usesSecondaryIndexing
  {
  }

  /** The clustering restrictions that process_clustering_columns_restrictions refuses before its filtering check. */
  predicate ClusteringRefusedOf(c: StatementContents, allowFiltering: bool, hasIndex: bool, selectACollection: bool) {
    !ClusteringEmptyOf(c) &&
    ((ClusteringInOf(c) && selectACollection) || (ClusteringContainsOf(c) && !hasIndex && !allowFiltering))
  }

  /** process_clustering_columns_restrictions on the values. */
  function ClusteringColumnsCheck(c: StatementContents, schema: Schema, allowFiltering: bool, f: Flags, hasIndex: bool,
                                  selectACollection: bool, forView: bool): (Outcome, Flags)
    requires ContentsValid(c)
  {
    if ClusteringEmptyOf(c) then (Pass, f)
    else if ClusteringInOf(c) && selectACollection then (Fail(InvalidRequest), f)
    else if ClusteringContainsOf(c) && !hasIndex && !allowFiltering then (Fail(InvalidRequest), f)
    else if !ClusteringNeedsFilteringOf(c, schema) then (Pass, f)
    else if hasIndex then (Pass, f.(usesSecondaryIndexing := true))
    else if !allowFiltering && !forView then (if HasGap(ClusteringColumnsOf(c)) then Fail(InvalidRequest) else Pass, f)
    else (Pass, f)
  }

  /**
   * process_clustering_columns_restrictions: IN with a selected collection and
   * CONTAINS without index or filtering are refused; restrictions that need
   * filtering use the index if there is one, and otherwise, without filtering or
   * a view, must restrict a prefix of the clustering key.
   */
  lemma ClusteringColumnsRefusal(c: StatementContents, schema: Schema, allowFiltering: bool, f: Flags, hasIndex: bool,
                                 selectACollection: bool, forView: bool)
    requires ContentsValid(c)
    ensures var (o, f') := ClusteringColumnsCheck(c, schema, allowFiltering, f, hasIndex, selectACollection, forView);
      var refused := ClusteringRefusedOf(c, allowFiltering, hasIndex, selectACollection);
      var nf := !ClusteringEmptyOf(c) && ClusteringNeedsFilteringOf(c, schema);
      (o.Fail? <==> refused || (nf && !hasIndex && !allowFiltering && !forView && HasGap(ClusteringColumnsOf(c)))) &&
      (o.Fail? ==> o.error == InvalidRequest) &&
      f' == f.(usesSecondaryIndexing := f.usesSecondaryIndexing || (!refused && nf && hasIndex))
  {
  }

  /** The partition key half of the validation on the values. */
  function PartitionPartCheck(c: StatementContents, schema: Schema, allowFiltering: bool, f: Flags, stmt: StatementType,
                              selectsOnlyStatic: bool, forView: bool, support: IndexSupport): (Outcome, Flags)
    requires ContentsValid(c)
  {
    var pkIndex := c.partition.PartitionParts? && support.partition;
    var (o, f') := PartitionKeyCheck(c, schema, allowFiltering, f, pkIndex, forView);
    if o.Fail? then (o, f')
    else
      var f'' := if f'.usesSecondaryIndexing || PartitionNeedsFilteringOf(c, schema)
                 then f'.(indexRestrictions := f'.indexRestrictions + [PartitionEntry]) else f';
      if selectsOnlyStatic && !ClusteringEmptyOf(c) && !stmt.InsertStatement? then (Fail(InvalidRequest), f'')
      else (Pass, f'')
  }

  /**
   * The partition key half of the validation: process_partition_key_restrictions,
   * where a token or initial partition key has no supporting index; the partition
   * key becomes an index restriction when it is used or needs filtering; and
   * clustering restrictions are refused in an update, delete or select of only
   * static columns.
   */
  lemma PartitionPartRefusal(c: StatementContents, schema: Schema, allowFiltering: bool, f: Flags, stmt: StatementType,
                             selectsOnlyStatic: bool, forView: bool, support: IndexSupport)
    requires ContentsValid(c)
    ensures var (o, f') := PartitionPartCheck(c, schema, allowFiltering, f, stmt, selectsOnlyStatic, forView, support);
      var pkIndex := c.partition.PartitionParts? && support.partition;
      var nf := PartitionNeedsFilteringOf(c, schema);
      var refused := nf && !allowFiltering && !forView && !pkIndex;
      (o.Fail? <==> refused || (selectsOnlyStatic && !ClusteringEmptyOf(c) && !stmt.InsertStatement?)) &&
      (o.Fail? ==> o.error == InvalidRequest) &&
      f'.(indexRestrictions := f.indexRestrictions) == PartitionKeyCheck(c, schema, allowFiltering, f, pkIndex, forView).1 &&
      f'.indexRestrictions == f.indexRestrictions + (if !refused && (f'.usesSecondaryIndexing || nf) then [PartitionEntry] else [])
  {
    var pkIndex := c.partition.PartitionParts? && support.partition;
    PartitionKeyRefusal(c, schema, allowFiltering, f, pkIndex, forView);
  }

  /** The clustering key half of the validation on the values. */
  function ClusteringPartCheck(c: StatementContents, schema: Schema, allowFiltering: bool, f: Flags, selectACollection: bool,
                               forView: bool, support: IndexSupport): (Outcome, Flags)
    requires ContentsValid(c)
  {
    var ckIndex := !c.clustering.NoClusteringKey? && support.clustering;
    var (o, f') := ClusteringColumnsCheck(c, schema, allowFiltering, f, ckIndex, selectACollection, forView);
    if o.Fail? then (o, f')
    else
      var f'' := if f'.isKeyRange && ckIndex then f'.(usesSecondaryIndexing := true) else f';
      if f''.usesSecondaryIndexing || ClusteringNeedsFilteringOf(c, schema) then
        (Pass, f''.(indexRestrictions := f''.indexRestrictions + [ClusteringEntry]))
      else if ClusteringContainsOf(c) then (Fail(UnsupportedOperation), f'')
      else (Pass, f'')
  }

  /**
   * The clustering key half of the validation: process_clustering_columns_restrictions,
   * where only restrictions there are can have a supporting index; a key range
   * uses the clustering index; the clustering key becomes an index restriction
   * when it is used or needs filtering; and CONTAINS that is neither is not
   * implemented.
   */
  lemma ClusteringPartRefusal(c: StatementContents, schema: Schema, allowFiltering: bool, f: Flags, selectACollection: bool,
                              forView: bool, support: IndexSupport)
    requires ContentsValid(c)
    ensures var (o, f') := ClusteringPartCheck(c, schema, allowFiltering, f, selectACollection, forView, support);
      var ckIndex := !c.clustering.NoClusteringKey? && support.clustering;
      var (o1, f1) := ClusteringColumnsCheck(c, schema, allowFiltering, f, ckIndex, selectACollection, forView);
      var uses := f1.usesSecondaryIndexing || (o1.Pass? && f.isKeyRange && ckIndex);
      var nf := ClusteringNeedsFilteringOf(c, schema);
      f'.isKeyRange == f.isKeyRange && f'.usesSecondaryIndexing == uses &&
      (o.Fail? <==> o1.Fail? || (!uses && !nf && ClusteringContainsOf(c))) &&
      (o.Fail? ==> o.error == (if o1.Fail? then InvalidRequest else UnsupportedOperation)) &&
      f'.indexRestrictions == f.indexRestrictions + (if o1.Pass? && (uses || nf) then [ClusteringEntry] else [])
  {
    var ckIndex := !c.clustering.NoClusteringKey? && support.clustering;
    ClusteringColumnsRefusal(c, schema, allowFiltering, f, ckIndex, selectACollection, forView);
  }

  /** The partition key and clustering key halves of the validation, in that order. */
  function KeyPartsCheck(c: StatementContents, schema: Schema, allowFiltering: bool, f: Flags, stmt: StatementType,
                         selectsOnlyStatic: bool, selectACollection: bool, forView: bool, support: IndexSupport)
    : (Outcome, Flags)
    requires ContentsValid(c)
  {
    var (o, f') := PartitionPartCheck(c, schema, allowFiltering, f, stmt, selectsOnlyStatic, forView, support);
    if o.Fail? then (o, f')
    else ClusteringPartCheck(c, schema, allowFiltering, f', selectACollection, forView, support)
  }

  /** Restrictions on other columns need their index or ALLOW FILTERING, and become an index restriction. */
  function OtherColumnsCheck(c: StatementContents, allowFiltering: bool, f: Flags, hasIndex: bool): (res: (Outcome, Flags))
    ensures res.0.Fail? <==> c.others != [] && !hasIndex && !allowFiltering
    ensures res.0.Fail? ==> res == (Fail(InvalidRequest), f)
    ensures res.0.Pass? ==>
      res.1 == f.(usesSecondaryIndexing := f.usesSecondaryIndexing || (c.others != [] && hasIndex),
                  indexRestrictions := f.indexRestrictions + (if c.others != [] then [OtherColumnsEntry] else []))
  {
    if c.others == [] then (Pass, f)
    else if hasIndex then
      (Pass, f.(usesSecondaryIndexing := true, indexRestrictions := f.indexRestrictions + [OtherColumnsEntry]))
    else if !allowFiltering then (Fail(InvalidRequest), f)
    else (Pass, f.(indexRestrictions := f.indexRestrictions + [OtherColumnsEntry]))
  }

  /** validate_secondary_index_selections: no IN on the partition key, no static-only selection. */
  function SecondaryIndexSelections(c: StatementContents, selectsOnlyStatic: bool): (out: Outcome)
    ensures out.Fail? <==> PartitionInOf(c) || selectsOnlyStatic
    ensures out.Fail? ==> out.error == InvalidRequest
  {
    if PartitionInOf(c) then Fail(InvalidRequest)
    else if selectsOnlyStatic then Fail(InvalidRequest)
    else Pass
  }

  /**
   * The validation half of the statement_restrictions constructor, once the
   * relations are added: the key parts, the other columns, and the selections a
   * secondary-index query without a view or ALLOW FILTERING may not make.
   */
  function Validation(c: StatementContents, schema: Schema, allowFiltering: bool, f: Flags, stmt: StatementType,
                      selectsOnlyStatic: bool, selectACollection: bool, forView: bool, support: IndexSupport)
    : (Outcome, Flags)
    requires ContentsValid(c)
  {
    var (o, f') := KeyPartsCheck(c, schema, allowFiltering, f, stmt, selectsOnlyStatic, selectACollection, forView, support);
    if o.Fail? then (o, f')
    else IndexingCheck(c, allowFiltering, f', selectsOnlyStatic, forView, support)
  }

  /** The other columns, then the selections a secondary-index query without a view or ALLOW FILTERING may not make. */
  function IndexingCheck(c: StatementContents, allowFiltering: bool, f: Flags, selectsOnlyStatic: bool, forView: bool,
                         support: IndexSupport): (Outcome, Flags)
  {
    var (o, f') := OtherColumnsCheck(c, allowFiltering, f, support.otherColumns);
    if o.Fail? then (o, f')
    else if f'.usesSecondaryIndexing && !(forView || allowFiltering) then (SecondaryIndexSelections(c, selectsOnlyStatic), f')
    else (Pass, f')
  }

  /**
   * What the key parts of the validation guarantee when they accept: each key
   * that needs filtering is an index restriction; a partition key needing
   * filtering without a view or ALLOW FILTERING has an index, and so does a gap
   * in the clustering key; only an insert may restrict the clustering key while
   * selecting only static columns.  Index restrictions are only appended, and
   * secondary indexing needs a supporting index of a key.
   */
  lemma KeyPartsGuarantees(c: StatementContents, schema: Schema, allowFiltering: bool, f: Flags, stmt: StatementType,
                           selectsOnlyStatic: bool, selectACollection: bool, forView: bool, support: IndexSupport)
    requires ContentsValid(c)
    ensures var (o, f') := KeyPartsCheck(c, schema, allowFiltering, f, stmt, selectsOnlyStatic, selectACollection, forView, support);
      (o.Fail? ==> o.error == InvalidRequest || o.error == UnsupportedOperation) &&
      (forall e :: e in f.indexRestrictions ==> e in f'.indexRestrictions) &&
      (o.Pass? && PartitionNeedsFilteringOf(c, schema) ==> PartitionEntry in f'.indexRestrictions) &&
      (o.Pass? && ClusteringNeedsFilteringOf(c, schema) ==> ClusteringEntry in f'.indexRestrictions) &&
      (o.Pass? && !allowFiltering && !forView && PartitionNeedsFilteringOf(c, schema) ==>
        c.partition.PartitionParts? && support.partition) &&
      (o.Pass? && !allowFiltering && !forView && ClusteringNeedsFilteringOf(c, schema) && !support.clustering ==>
        !HasGap(ClusteringColumnsOf(c))) &&
      (o.Pass? && selectsOnlyStatic && !ClusteringEmptyOf(c) ==> stmt.InsertStatement?) &&
      (f'.usesSecondaryIndexing ==> f.usesSecondaryIndexing || support.partition || support.clustering)
  {
    var pkIndex := c.partition.PartitionParts? && support.partition;
    var ckIndex := !c.clustering.NoClusteringKey? && support.clustering;
    PartitionPartRefusal(c, schema, allowFiltering, f, stmt, selectsOnlyStatic, forView, support);
    var (o1, f1) := PartitionPartCheck(c, schema, allowFiltering, f, stmt, selectsOnlyStatic, forView, support);
    PartitionKeyRefusal(c, schema, allowFiltering, f, pkIndex, forView);
    ClusteringPartRefusal(c, schema, allowFiltering, f1, selectACollection, forView, support);
    ClusteringColumnsRefusal(c, schema, allowFiltering, f1, ckIndex, selectACollection, forView);
  }

  /**
   * What an accepted statement guarantees: every restriction set that needs
   * filtering and the other columns are index restrictions; other columns
   * without ALLOW FILTERING use their index; a partition key needing filtering
   * without a view or ALLOW FILTERING has an index; so does a gap in the
   * clustering key; only an insert may restrict the clustering key while selecting
   * only static columns; and a secondary-index query without a view or ALLOW
   * FILTERING selects neither IN partitions nor only static columns.  Secondary
   * indexing needs a supporting index somewhere.
   */
  lemma ValidationGuarantees(c: StatementContents, schema: Schema, allowFiltering: bool, f: Flags, stmt: StatementType,
                             selectsOnlyStatic: bool, selectACollection: bool, forView: bool, support: IndexSupport)
    requires ContentsValid(c)
    ensures var (o, f') := Validation(c, schema, allowFiltering, f, stmt, selectsOnlyStatic, selectACollection, forView, support);
      (o.Fail? ==> o.error == InvalidRequest || o.error == UnsupportedOperation) &&
      (forall e :: e in f.indexRestrictions ==> e in f'.indexRestrictions) &&
      (o.Pass? && PartitionNeedsFilteringOf(c, schema) ==> PartitionEntry in f'.indexRestrictions) &&
      (o.Pass? && ClusteringNeedsFilteringOf(c, schema) ==> ClusteringEntry in f'.indexRestrictions) &&
      (o.Pass? && c.others != [] ==> OtherColumnsEntry in f'.indexRestrictions) &&
      (o.Pass? && !allowFiltering && c.others != [] ==> support.otherColumns && f'.usesSecondaryIndexing) &&
      (o.Pass? && !allowFiltering && !forView && PartitionNeedsFilteringOf(c, schema) ==>
        c.partition.PartitionParts? && support.partition) &&
      (o.Pass? && !allowFiltering && !forView && ClusteringNeedsFilteringOf(c, schema) && !support.clustering ==>
        !HasGap(ClusteringColumnsOf(c))) &&
      (o.Pass? && selectsOnlyStatic && !ClusteringEmptyOf(c) ==> stmt.InsertStatement?) &&
      (o.Pass? && f'.usesSecondaryIndexing && !forView && !allowFiltering ==> !selectsOnlyStatic && !PartitionInOf(c)) &&
      (f'.usesSecondaryIndexing ==> f.usesSecondaryIndexing || support.partition || support.clustering || support.otherColumns)
  {
    KeyPartsGuarantees(c, schema, allowFiltering, f, stmt, selectsOnlyStatic, selectACollection, forView, support);
  }

  /**
   * Why a statement with no decisions taken yet is refused, each check of the
   * validation stated over the restrictions: a partition key needing filtering
   * with nothing to allow it; clustering restrictions when only static columns
   * are selected by an update, delete or select; IN with a selected collection or
   * CONTAINS with nothing to allow it on the clustering key; a clustering key with
   * a gap needing filtering with nothing to allow it; CONTAINS on a clustering
   * key that is not an index restriction; other columns without index or ALLOW
   * FILTERING; and a secondary-index query selecting IN partitions or only static
   * columns without a view or ALLOW FILTERING.
   */
  predicate Refused(c: StatementContents, schema: Schema, allowFiltering: bool, stmt: StatementType, selectsOnlyStatic: bool,
                    selectACollection: bool, forView: bool, support: IndexSupport)
    requires ContentsValid(c)
  {
    var indexing := KeyIndexing(c, schema, support) || (c.others != [] && support.otherColumns);
    KeyPartsRefused(c, schema, allowFiltering, stmt, selectsOnlyStatic, selectACollection, forView, support) ||
    (c.others != [] && !support.otherColumns && !allowFiltering) ||
    (indexing && !forView && !allowFiltering && (PartitionInOf(c) || selectsOnlyStatic))
  }

  /** The key parts' reasons of Refused. */
  predicate KeyPartsRefused(c: StatementContents, schema: Schema, allowFiltering: bool, stmt: StatementType,
                            selectsOnlyStatic: bool, selectACollection: bool, forView: bool, support: IndexSupport)
    requires ContentsValid(c)
  {
    var pnf := PartitionNeedsFilteringOf(c, schema);
    var cnf := ClusteringNeedsFilteringOf(c, schema);
    var pkIndex := c.partition.PartitionParts? && support.partition;
    var ckIndex := !c.clustering.NoClusteringKey? && support.clustering;
    (pnf && !allowFiltering && !forView && !pkIndex) ||
    (selectsOnlyStatic && !ClusteringEmptyOf(c) && !stmt.InsertStatement?) ||
    ClusteringRefusedOf(c, allowFiltering, ckIndex, selectACollection) ||
    (!ClusteringEmptyOf(c) && cnf && !ckIndex && !allowFiltering && !forView && HasGap(ClusteringColumnsOf(c))) ||
    (!PartitionIndexing(c, schema, support) && !KeyRangeIndexing(c, schema, support) && !cnf && ClusteringContainsOf(c))
  }

  /** The partition key uses its index: it needs filtering, or it is partly restricted, and an index supports it. */
  predicate PartitionIndexing(c: StatementContents, schema: Schema, support: IndexSupport)
    requires ContentsValid(c)
  {
    (PartitionNeedsFilteringOf(c, schema) || (!c.partition.TokenContents? && PartitionUnrestrictedOf(c, schema))) &&
    c.partition.PartitionParts? && support.partition
  }

  /** The clustering key's index serves a query that is not on complete partitions. */
  predicate KeyRangeIndexing(c: StatementContents, schema: Schema, support: IndexSupport)
    requires ContentsValid(c)
  {
    (c.partition.TokenContents? || PartitionUnrestrictedOf(c, schema) || PartitionNeedsFilteringOf(c, schema)) &&
    !c.clustering.NoClusteringKey? && support.clustering
  }

  /** Some key part uses a secondary index. */
  predicate KeyIndexing(c: StatementContents, schema: Schema, support: IndexSupport)
    requires ContentsValid(c)
  {
    PartitionIndexing(c, schema, support) || KeyRangeIndexing(c, schema, support) ||
    (!ClusteringEmptyOf(c) && ClusteringNeedsFilteringOf(c, schema) && !c.clustering.NoClusteringKey? && support.clustering)
  }

  /** The key parts, from no decisions, refuse exactly for KeyPartsRefused. */
  lemma KeyPartsRefusal(c: StatementContents, schema: Schema, allowFiltering: bool, stmt: StatementType, selectsOnlyStatic: bool,
                        selectACollection: bool, forView: bool, support: IndexSupport)
    requires ContentsValid(c)
    ensures KeyPartsCheck(c, schema, allowFiltering, NoFlags, stmt, selectsOnlyStatic, selectACollection, forView, support).0.Fail?
      <==> KeyPartsRefused(c, schema, allowFiltering, stmt, selectsOnlyStatic, selectACollection, forView, support)
  {
    var pkIndex := c.partition.PartitionParts? && support.partition;
    var ckIndex := !c.clustering.NoClusteringKey? && support.clustering;
    PartitionPartRefusal(c, schema, allowFiltering, NoFlags, stmt, selectsOnlyStatic, forView, support);
    var (o1, f1) := PartitionPartCheck(c, schema, allowFiltering, NoFlags, stmt, selectsOnlyStatic, forView, support);
    PartitionKeyRefusal(c, schema, allowFiltering, NoFlags, pkIndex, forView);
    ClusteringPartRefusal(c, schema, allowFiltering, f1, selectACollection, forView, support);
    ClusteringColumnsRefusal(c, schema, allowFiltering, f1, ckIndex, selectACollection, forView);
  }

  /** When the key parts accept a statement with no decisions taken yet, they use secondary indexing exactly for KeyIndexing. */
  lemma KeyPartsIndexing(c: StatementContents, schema: Schema, allowFiltering: bool, stmt: StatementType, selectsOnlyStatic: bool,
                         selectACollection: bool, forView: bool, support: IndexSupport)
    requires ContentsValid(c)
    ensures var (o, f) := KeyPartsCheck(c, schema, allowFiltering, NoFlags, stmt, selectsOnlyStatic, selectACollection, forView, support);
      o.Pass? ==> (f.usesSecondaryIndexing <==> KeyIndexing(c, schema, support))
  {
    var pkIndex := c.partition.PartitionParts? && support.partition;
    var ckIndex := !c.clustering.NoClusteringKey? && support.clustering;
    PartitionPartRefusal(c, schema, allowFiltering, NoFlags, stmt, selectsOnlyStatic, forView, support);
    var (o1, f1) := PartitionPartCheck(c, schema, allowFiltering, NoFlags, stmt, selectsOnlyStatic, forView, support);
    PartitionKeyRefusal(c, schema, allowFiltering, NoFlags, pkIndex, forView);
    ClusteringPartRefusal(c, schema, allowFiltering, f1, selectACollection, forView, support);
    ClusteringColumnsRefusal(c, schema, allowFiltering, f1, ckIndex, selectACollection, forView);
  }

  /** The validation, from no decisions, refuses a statement exactly for one of the reasons of Refused. */
  lemma ValidationRefusal(c: StatementContents, schema: Schema, allowFiltering: bool, stmt: StatementType, selectsOnlyStatic: bool,
                          selectACollection: bool, forView: bool, support: IndexSupport)
    requires ContentsValid(c)
    ensures Validation(c, schema, allowFiltering, NoFlags, stmt, selectsOnlyStatic, selectACollection, forView, support).0.Fail?
      <==> Refused(c, schema, allowFiltering, stmt, selectsOnlyStatic, selectACollection, forView, support)
  {
    KeyPartsRefusal(c, schema, allowFiltering, stmt, selectsOnlyStatic, selectACollection, forView, support);
    KeyPartsIndexing(c, schema, allowFiltering, stmt, selectsOnlyStatic, selectACollection, forView, support);
  }

  /**
   * The statement_restrictions constructor on the values: the relations are
   * added in order to empty restrictions, then validated from no decisions.
   */
  function Preparation(schema: Schema, stmt: StatementType, rels: seq<Relation>, selectsOnlyStatic: bool,
                       selectACollection: bool, forView: bool, allowFiltering: bool, support: IndexSupport)
    : (Outcome, StatementContents, Flags)
    requires RelationsWellFormed(rels)
  {
    var (o, c) := RelationsStep(NoRestrictions, allowFiltering, rels, forView);
    if o.Fail? then (o, c, NoFlags)
    else
      var (p, f) := Validation(c, schema, allowFiltering, NoFlags, stmt, selectsOnlyStatic, selectACollection, forView, support);
      (p, c, f)
  }

  /**
   * A statement is refused exactly when adding one of its relations fails, or
   * the added restrictions are Refused; an accepted statement has every
   * guarantee of ValidationGuarantees.
   */
  lemma PreparationRefusal(schema: Schema, stmt: StatementType, rels: seq<Relation>, selectsOnlyStatic: bool,
                           selectACollection: bool, forView: bool, allowFiltering: bool, support: IndexSupport)
    requires RelationsWellFormed(rels)
    ensures var (o, c, f) := Preparation(schema, stmt, rels, selectsOnlyStatic, selectACollection, forView, allowFiltering, support);
      var added := RelationsStep(NoRestrictions, allowFiltering, rels, forView);
      c == added.1 && ContentsValid(c) &&
      (o.Fail? <==>
        added.0.Fail? || Refused(c, schema, allowFiltering, stmt, selectsOnlyStatic, selectACollection, forView, support)) &&
      (added.0.Fail? ==> o == added.0 && f == NoFlags)
  {
    var (o, c) := RelationsStep(NoRestrictions, allowFiltering, rels, forView);
    if o.Pass? {
      ValidationRefusal(c, schema, allowFiltering, stmt, selectsOnlyStatic, selectACollection, forView, support);
    }
  }

  /** The partition key column k, the first of the key, and the relation k = ?. */
  const KeyColumn := ColumnDef("k", 0, PartitionKey, ColumnType(0, 0, false, false))
  const KeyEquals := Restriction(OpEQ, SingleColumn, [KeyColumn],
                                 Atom(BinaryOperator(Columns([ColumnValue(KeyColumn, None)]), EQ, Bindable(ScalarTerm, 0))),
                                 TermSlice(None, None))

  /** SELECT ... WHERE k = ? on a table whose partition key is k alone is accepted, with no index, key range or filtering. */
  lemma FullPartitionKeyQueryAccepted()
    ensures Preparation(Schema(1, 0), SelectStatement, [Restricting(KeyEquals)], false, false, false, false,
                        IndexSupport(false, false, false)) ==
            (Pass, StatementContents(PartitionParts(KeyParts([KeyEquals], {OpEQ}, MakeConjunction(Conjunction([]), KeyEquals.expression))),
                                     NoClusteringKey, [], {}),
             NoFlags)
  {
    var rels := [Restricting(KeyEquals)];
    var c := StatementContents(PartitionParts(KeyParts([KeyEquals], {OpEQ}, MakeConjunction(Conjunction([]), KeyEquals.expression))),
                               NoClusteringKey, [], {});
    FirstMergePasses(false, KeyEquals);
    assert RelationStep(NoRestrictions, false, rels[0], false) == (Pass, c);
    RelationsStepUnfold(NoRestrictions, false, rels, 0, false);
    assert rels[1..] == [];
    assert RelationsStep(NoRestrictions, false, rels, false) == (Pass, c);
    assert !KeyNeedsFiltering(c.partition.parts, true, 1);
    assert ContainsOperatorOf(c.partition.parts.restrictions, IN) ==> Find(KeyEquals.expression, IN).Some?;
  }

  /**
   * SELECT ... WHERE k = ? on a table whose partition key has a second column
   * needs filtering: refused without ALLOW FILTERING or an index.
   */
  lemma PartialPartitionKeyQueryRefused()
    ensures Preparation(Schema(2, 0), SelectStatement, [Restricting(KeyEquals)], false, false, false, false,
                        IndexSupport(false, false, false)) ==
            (Fail(InvalidRequest),
             StatementContents(PartitionParts(KeyParts([KeyEquals], {OpEQ}, MakeConjunction(Conjunction([]), KeyEquals.expression))),
                               NoClusteringKey, [], {}),
             Flags(true, false, []))
  {
    var rels := [Restricting(KeyEquals)];
    var c := StatementContents(PartitionParts(KeyParts([KeyEquals], {OpEQ}, MakeConjunction(Conjunction([]), KeyEquals.expression))),
                               NoClusteringKey, [], {});
    FirstMergePasses(false, KeyEquals);
    assert RelationStep(NoRestrictions, false, rels[0], false) == (Pass, c);
    RelationsStepUnfold(NoRestrictions, false, rels, 0, false);
    assert rels[1..] == [];
    assert RelationsStep(NoRestrictions, false, rels, false) == (Pass, c);
    assert KeyNeedsFiltering(c.partition.parts, true, 2);
  }

  // ---------------------------------------------------------------------------
  // The statement restrictions
  // ---------------------------------------------------------------------------

  /** A fresh set of key restrictions holding one single-column relation: merging into empty restrictions never fails. */
  method FirstKeyRestriction(isPartition: bool, allowFiltering: bool, r: Restriction)
    returns (s: SingleColumnPrimaryKeyRestrictions)
    requires WellFormed(r) && !r.IsMultiColumn() && !r.IsOnToken()
    ensures fresh(s) && s.Valid() && s.isPartition == isPartition && s.allowFiltering == allowFiltering
    ensures (Pass, s.Parts()) == MergeKeyParts(NoKeyParts, allowFiltering, r)
  {
    s := new SingleColumnPrimaryKeyRestrictions(isPartition, allowFiltering);
    var out := s.MergeTo(r);
    FirstMergePasses(allowFiltering, r);
  }

  class StatementRestrictions {
    const schema: Schema
    const allowFiltering: bool
    var partitionKey: PartitionBucket
    var clustering: ClusteringBucket
    var otherColumns: seq<Restriction>
    var notNullColumns: set<ColumnDef>
    var isKeyRange: bool
    var usesSecondaryIndexing: bool
    var indexRestrictions: seq<IndexEntry>
    ghost var Repr: set<object>

    ghost predicate Valid()
      reads this`partitionKey, this`clustering, this`otherColumns, this`Repr, Repr
    {
      this !in Repr &&
      (partitionKey.PkToken? ==> partitionKey.token in Repr) &&
      (partitionKey.PkSingle? ==>
        partitionKey.single in Repr && partitionKey.single.Valid() &&
        partitionKey.single.isPartition && partitionKey.single.allowFiltering == allowFiltering) &&
      (clustering.CkSingle? ==>
        clustering.single in Repr && clustering.single.Valid() &&
        !clustering.single.isPartition && clustering.single.allowFiltering == allowFiltering) &&
      ByPosition(otherColumns)
    }

    /** A statement with no relation yet: every key bucket initial. */
    constructor (schema: Schema, allowFiltering: bool)
      ensures Valid() && fresh(Repr)
      ensures this.schema == schema && this.allowFiltering == allowFiltering
      ensures Contents() == NoRestrictions && FlagsOf() == NoFlags
    {
      this.schema := schema;
      this.allowFiltering := allowFiltering;
      partitionKey := PkInitial;
      clustering := CkInitial;
      otherColumns := [];
      notNullColumns := {};
      isKeyRange := false;
      usesSecondaryIndexing := false;
      indexRestrictions := [];
      Repr := {};
    }

    /** The restrictions this object holds, as a value. */
    function Contents(): (c: StatementContents)
      requires Valid()
      reads this`partitionKey, this`clustering, this`otherColumns, this`notNullColumns, this`Repr, Repr
      ensures ContentsValid(c)
    {
      var partition := match partitionKey
        case PkInitial => NoPartitionKey
        case PkToken(t) => TokenContents(t.kind, t.columns, t.expression, t.slice)
        case PkSingle(s) => PartitionParts(s.Parts());
      var clustering := match clustering
        case CkInitial => NoClusteringKey
        case CkSingle(s) => ClusteringParts(s.Parts())
        case CkMulti(m) => MultiColumnContents(m);
      StatementContents(partition, clustering, otherColumns, notNullColumns)
    }

    /** The decisions the validation has taken, as a value. */
    function FlagsOf(): Flags
      reads this`isKeyRange, this`usesSecondaryIndexing, this`indexRestrictions
    {
      Flags(isKeyRange, usesSecondaryIndexing, indexRestrictions)
    }

    // --- what the planner asks the restrictions ---

    function PartitionKeyColumns(): seq<ColumnDef>
      requires Valid()
      reads this, Repr
    {
      PartitionColumnsOf(Contents())
    }

    predicate PartitionKeyEmpty()
      requires Valid()
      reads this, Repr
    {
      PartitionEmptyOf(Contents())
    }

    predicate PartitionKeyHasUnrestrictedComponents()
      requires Valid()
      reads this, Repr
    {
      PartitionUnrestrictedOf(Contents(), schema)
    }

    predicate PartitionKeyIsAllEq()
      requires Valid()
      reads this, Repr
    {
      PartitionAllEqOf(Contents())
    }

    predicate PartitionKeyNeedsFiltering()
      requires Valid()
      reads this, Repr
    {
      PartitionNeedsFilteringOf(Contents(), schema)
    }

    predicate KeyIsInRelation()
      requires Valid()
      reads this, Repr
    {
      PartitionInOf(Contents())
    }

    /** allow_local_index: the partition key is completely restricted by equalities. */
    predicate AllowLocal()
      requires Valid()
      reads this, Repr
    {
      !PartitionKeyHasUnrestrictedComponents() && PartitionKeyIsAllEq()
    }

    function ClusteringColumns(): seq<ColumnDef>
      requires Valid()
      reads this, Repr
    {
      ClusteringColumnsOf(Contents())
    }

    predicate ClusteringEmpty()
      requires Valid()
      reads this, Repr
    {
      ClusteringEmptyOf(Contents())
    }

    predicate ClusteringHasUnrestrictedComponents()
      requires Valid()
      reads this, Repr
    {
      ClusteringUnrestrictedOf(Contents(), schema)
    }

    /** prefix_size: the number of leading clustering columns 0, 1, ... that are restricted. */
    function ClusteringPrefixSize(): (n: nat)
      requires Valid()
      reads this, Repr
      ensures n <= |ClusteringColumns()|
      ensures forall j :: 0 <= j < n ==> ClusteringColumns()[j].id == j
      ensures n < |ClusteringColumns()| ==> ClusteringColumns()[n].id != n
    {
      ClusteringPrefixSizeOf(Contents())
    }

    predicate ClusteringNeedsFiltering()
      requires Valid()
      reads this, Repr
    {
      ClusteringNeedsFilteringOf(Contents(), schema)
    }

    // --- the index restrictions ---

    function EntryColumns(e: IndexEntry): seq<ColumnDef>
      requires Valid()
      reads this, Repr
    {
      match e
      case PartitionEntry => PartitionKeyColumns()
      case ClusteringEntry => ClusteringColumns()
      case OtherColumnsEntry => RestrictedColumns(otherColumns)
    }

    /** The column lists of es[i..], which find_idx searches. */
    function ColumnLists(es: seq<IndexEntry>, i: nat): (r: seq<seq<ColumnDef>>)
      requires Valid() && i <= |es|
      reads this, Repr
      ensures |r| == |es| - i && forall k :: 0 <= k < |r| ==> r[k] == EntryColumns(es[i + k])
      decreases |es| - i
    {
      if i == |es| then [] else [EntryColumns(es[i])] + ColumnLists(es, i + 1)
    }

    /** The number of restricted columns of es[i..]. */
    function IndexedColumnCount(es: seq<IndexEntry>, i: nat): nat
      requires Valid() && i <= |es|
      reads this, Repr
      decreases |es| - i
    {
      if i == |es| then 0 else |EntryColumns(es[i])| + IndexedColumnCount(es, i + 1)
    }

    /** The restrictions a secondary-index query still has to filter on. */
    function FilteringRestrictionCount(): nat
      requires Valid()
      reads this, Repr
    {
      |otherColumns| +
      if PartitionKeyHasUnrestrictedComponents() || !PartitionKeyIsAllEq() then
        |PartitionKeyColumns()| + |ClusteringColumns()|
      else if ClusteringHasUnrestrictedComponents() then
        |ClusteringColumns()| - ClusteringPrefixSize()
      else 0
    }

    /**
     * need_filtering: more than one indexed column, a clustering restriction
     * without a partition key restriction, several CONTAINS with an index
     * restriction, index restrictions without secondary indexing, or more than
     * one restriction left to filter after an index lookup.
     */
    predicate FilteringNeeded()
      requires Valid()
      reads this, Repr
    {
      var indexed := IndexedColumnCount(indexRestrictions, 0);
      indexed > 1 ||
      (indexed == 0 && PartitionKeyEmpty() && !ClusteringEmpty()) ||
      (indexed != 0 && ContainsCount(otherColumns, 0) > 1) ||
      (indexed != 0 && !usesSecondaryIndexing) ||
      (usesSecondaryIndexing && FilteringRestrictionCount() > 1)
    }

    /** Every index restriction's columns count towards the number of indexed columns. */
    lemma {:induction false} EntryCounted(es: seq<IndexEntry>, i: nat, k: nat)
      requires Valid() && i <= k < |es|
      ensures IndexedColumnCount(es, i) >= |EntryColumns(es[k])|
      decreases k - i
    {
      if i < k {
        EntryCounted(es, i + 1, k);
      }
    }

    /** An index restriction on more than one column always needs filtering. */
    lemma WideEntryNeedsFiltering(k: nat)
      requires Valid() && k < |indexRestrictions| && |EntryColumns(indexRestrictions[k])| > 1
      ensures FilteringNeeded()
    {
      EntryCounted(indexRestrictions, 0, k);
    }

    /** need_filtering, summing the sizes of the index restrictions in a loop. */
    method NeedFiltering() returns (b: bool)
      requires Valid()
      ensures b == FilteringNeeded()
    {
      var indexed: nat := 0;
      var i := 0;
      while i < |indexRestrictions|
        invariant 0 <= i <= |indexRestrictions|
        invariant IndexedColumnCount(indexRestrictions, 0) == indexed + IndexedColumnCount(indexRestrictions, i)
      {
        indexed := indexed + |EntryColumns(indexRestrictions[i])|;
        i := i + 1;
      }
      var filtering := FilteringRestrictionCount();
      b := indexed > 1 ||
           (indexed == 0 && PartitionKeyEmpty() && !ClusteringEmpty()) ||
           (indexed != 0 && ContainsCount(otherColumns, 0) > 1) ||
           (indexed != 0 && !usesSecondaryIndexing) ||
           (usesSecondaryIndexing && filtering > 1);
    }

    /** find_idx over this statement's index restrictions and partition key. */
    method ChooseIndex(indexes: seq<Index>) returns (chosen: Option<Choice>)
      requires Valid()
      ensures chosen.Some? ==> chosen.value.index < |indexes| && chosen.value.entry < |indexRestrictions|
      ensures BestOf(indexes, ColumnLists(indexRestrictions, 0), AllowLocal(), |indexes|, chosen)
    {
      chosen := FindIdx(indexes, ColumnLists(indexRestrictions, 0), AllowLocal());
    }

    // --- adding relations ---

    /** _partition_key_restrictions->merge_to(r), for a token relation or one on a partition key column. */
    method MergePartition(r: Restriction) returns (out: Outcome)
      requires Valid() && WellFormed(r) && !r.IsMultiColumn()
      modifies this, Repr
      ensures Valid() && fresh(Repr - old(Repr))
      ensures clustering == old(clustering) && FlagsOf() == old(FlagsOf())
      ensures old(partitionKey).PkInitial? ==>
        (partitionKey.PkToken? && fresh(partitionKey.token)) || (partitionKey.PkSingle? && fresh(partitionKey.single))
      ensures !old(partitionKey).PkInitial? ==> partitionKey == old(partitionKey)
      ensures (out, Contents()) == PartitionStep(old(Contents()), allowFiltering, r)
    {
      match partitionKey {
        case PkInitial =>
          out := StartPartition(r);
        case PkToken(t) =>
          t.MergeTo(r);
          return Pass;
        case PkSingle(s) =>
          out := s.MergeTo(r);
      }
    }

    /** The first partition-key relation: it creates the token restriction or the single-column key restrictions. */
    method StartPartition(r: Restriction) returns (out: Outcome)
      requires Valid() && WellFormed(r) && !r.IsMultiColumn() && partitionKey.PkInitial?
      modifies this
      ensures Valid() && fresh(Repr - old(Repr))
      ensures clustering == old(clustering) && FlagsOf() == old(FlagsOf())
      ensures (partitionKey.PkToken? && fresh(partitionKey.token)) || (partitionKey.PkSingle? && fresh(partitionKey.single))
      ensures (out, Contents()) == PartitionStep(old(Contents()), allowFiltering, r)
    {
      if r.IsOnToken() {
        var kind := if r.op == OpEQ then TokenEQ else TokenSlice;
        var t := new TokenRestriction(kind, r.columns, r.expression, r.slice);
        partitionKey := PkToken(t);
        Repr := Repr + {t};
        return Pass;
      }
      var s := FirstKeyRestriction(true, allowFiltering, r);
      partitionKey := PkSingle(s);
      Repr := Repr + {s};
      return Pass;
    }

    /** _clustering_columns_restrictions->merge_to(r), for a multi-column relation or one on a clustering column. */
    method MergeClustering(r: Restriction) returns (out: Outcome)
      requires Valid() && WellFormed(r) && !r.IsOnToken()
      modifies this, Repr
      ensures Valid() && fresh(Repr - old(Repr))
      ensures partitionKey == old(partitionKey) && FlagsOf() == old(FlagsOf())
      ensures old(clustering).CkInitial? && !r.IsMultiColumn() ==> clustering.CkSingle? && fresh(clustering.single)
      ensures !old(clustering).CkInitial? ==> clustering == old(clustering)
      ensures (out, Contents()) == ClusteringStep(old(Contents()), allowFiltering, r)
    {
      match clustering {
        case CkInitial =>
          if r.IsMultiColumn() {
            clustering := CkMulti(r);
            return Pass;
          }
          var s := FirstKeyRestriction(false, allowFiltering, r);
          clustering := CkSingle(s);
          Repr := Repr + {s};
          return Pass;
        case CkSingle(s) =>
          out := s.MergeTo(r);
        case CkMulti(_) =>
          return Fail(UnsupportedOperation);
      }
    }

    /** _nonprimary_key_restrictions->add_restriction(r). */
    method AddOtherColumn(r: Restriction) returns (out: Outcome)
      requires Valid() && SingleColumnRestriction(r)
      modifies this
      ensures Valid() && Repr == old(Repr)
      ensures partitionKey == old(partitionKey) && clustering == old(clustering) && FlagsOf() == old(FlagsOf())
      ensures (out, Contents()) == OtherStep(old(Contents()), r)
    {
      var added := KeyBounds.AddRestriction(otherColumns, r);
      if added.Err? {
        return Fail(added.error);
      }
      otherColumns := added.value;
      return Pass;
    }

    /** add_single_column_restriction: the relation goes to the restrictions of its column's kind. */
    method AddSingleColumnRestriction(r: Restriction, forView: bool) returns (out: Outcome)
      requires Valid() && WellFormed(r) && r.target == SingleColumn
      modifies this, Repr
      ensures Valid() && fresh(Repr - old(Repr)) && FlagsOf() == old(FlagsOf())
      ensures (out, Contents()) == SingleColumnStep(old(Contents()), allowFiltering, r, forView)
    {
      var kind := r.columns[0].kind;
      if kind == PartitionKey {
        if r.IsSlice() && !forView && !allowFiltering {
          return Fail(InvalidRequest);
        }
        out := MergePartition(r);
      } else if kind == ClusteringKey {
        out := MergeClustering(r);
      } else {
        out := AddOtherColumn(r);
      }
    }

    /** add_restriction: multi-column relations restrict the clustering key, token relations the partition key. */
    method AddRestriction(r: Restriction, forView: bool) returns (out: Outcome)
      requires Valid() && WellFormed(r)
      modifies this, Repr
      ensures Valid() && fresh(Repr - old(Repr)) && FlagsOf() == old(FlagsOf())
      ensures (out, Contents()) == RestrictionStep(old(Contents()), allowFiltering, r, forView)
    {
      if r.IsMultiColumn() {
        out := MergeClustering(r);
      } else if r.IsOnToken() {
        out := MergePartition(r);
      } else {
        out := AddSingleColumnRestriction(r, forView);
      }
    }

    /** One WHERE relation: IS NOT NULL is one known column's, and only in a materialized view. */
    method AddRelation(rel: Relation, forView: bool) returns (out: Outcome)
      requires Valid() && (rel.Restricting? ==> WellFormed(rel.restriction))
      modifies this, Repr
      ensures Valid() && fresh(Repr - old(Repr)) && FlagsOf() == old(FlagsOf())
      ensures (out, Contents()) == RelationStep(old(Contents()), allowFiltering, rel, forView)
    {
      match rel {
        case IsNotNull(single, column) =>
          if !single {
            return Fail(InvalidRequest);
          }
          if column.None? {
            return Fail(InvalidRequest);
          }
          notNullColumns := notNullColumns + {column.value};
          if !forView {
            return Fail(InvalidRequest);
          }
          return Pass;
        case Restricting(r) =>
          out := AddRestriction(r, forView);
      }
    }

    /** Adds the WHERE relations in order, stopping at the first refused one. */
    method AddRelations(rels: seq<Relation>, forView: bool) returns (out: Outcome)
      requires Valid() && RelationsWellFormed(rels)
      modifies this, Repr
      ensures Valid() && fresh(Repr - old(Repr)) && FlagsOf() == old(FlagsOf())
      ensures (out, Contents()) == RelationsStep(old(Contents()), allowFiltering, rels, forView)
    {
      ghost var goal := RelationsStep(Contents(), allowFiltering, rels, forView);
      var i := 0;
      while i < |rels|
        invariant 0 <= i <= |rels| && RelationsWellFormed(rels[i..])
        invariant Valid() && fresh(Repr - old(Repr)) && FlagsOf() == old(FlagsOf())
        invariant RelationsStep(Contents(), allowFiltering, rels[i..], forView) == goal
      {
        ghost var c := Contents();
        out := AddRelation(rels[i], forView);
        RelationsStepUnfold(c, allowFiltering, rels, i, forView);
        if out.Fail? {
          return;
        }
        i := i + 1;
      }
      assert rels[i..] == [];
      return Pass;
    }

    // --- validation ---

    /** process_partition_key_restrictions. */
    method ProcessPartitionKeyRestrictions(hasIndex: bool, forView: bool) returns (out: Outcome)
      requires Valid()
      modifies this`isKeyRange, this`usesSecondaryIndexing, this`indexRestrictions
      ensures (out, FlagsOf()) == PartitionKeyCheck(old(Contents()), schema, allowFiltering, old(FlagsOf()), hasIndex, forView)
    {
      var c := Contents();
      if partitionKey.PkToken? {
        isKeyRange := true;
      } else if PartitionUnrestrictedOf(c, schema) {
        isKeyRange := true;
        usesSecondaryIndexing := hasIndex;
      }
      if PartitionNeedsFilteringOf(c, schema) {
        if !allowFiltering && !forView && !hasIndex {
          return Fail(InvalidRequest);
        }
        isKeyRange := true;
        usesSecondaryIndexing := hasIndex;
      }
      return Pass;
    }

    /** process_clustering_columns_restrictions. */
    method ProcessClusteringColumnsRestrictions(hasIndex: bool, selectACollection: bool, forView: bool) returns (out: Outcome)
      requires Valid()
      modifies this`isKeyRange, this`usesSecondaryIndexing, this`indexRestrictions
      ensures (out, FlagsOf()) ==
        ClusteringColumnsCheck(old(Contents()), schema, allowFiltering, old(FlagsOf()), hasIndex, selectACollection, forView)
    {
      var c := Contents();
      if ClusteringEmptyOf(c) {
        return Pass;
      }
      if ClusteringInOf(c) && selectACollection {
        return Fail(InvalidRequest);
      }
      if ClusteringContainsOf(c) && !hasIndex && !allowFiltering {
        return Fail(InvalidRequest);
      }
      if ClusteringNeedsFilteringOf(c, schema) {
        if hasIndex {
          usesSecondaryIndexing := true;
        } else if !allowFiltering && !forView {
          out := CheckClusteringPrefix(ClusteringColumnsOf(c));
          return;
        }
      }
      return Pass;
    }

    /** The loop of process_clustering_columns_restrictions pairing restricted and clustering columns. */
    static method CheckClusteringPrefix(cs: seq<ColumnDef>) returns (out: Outcome)
      ensures out.Fail? <==> HasGap(cs)
      ensures out.Fail? ==> out.error == InvalidRequest
    {
      var k := 0;
      while k < |cs|
        invariant 0 <= k <= |cs|
        invariant forall j :: 0 <= j < k ==> cs[j].id == j
      {
        if cs[k].id != k {
          return Fail(InvalidRequest);
        }
        k := k + 1;
      }
      return Pass;
    }

    /** The partition key half of the validation. */
    method ProcessPartitionPart(stmt: StatementType, selectsOnlyStatic: bool, forView: bool, support: IndexSupport)
      returns (out: Outcome)
      requires Valid()
      modifies this`isKeyRange, this`usesSecondaryIndexing, this`indexRestrictions
      ensures (out, FlagsOf()) ==
        PartitionPartCheck(old(Contents()), schema, allowFiltering, old(FlagsOf()), stmt, selectsOnlyStatic, forView, support)
    {
      var c := Contents();
      ghost var f := FlagsOf();
      var pkIndex := partitionKey.PkSingle? && support.partition;
      assert pkIndex == (c.partition.PartitionParts? && support.partition);
      out := ProcessPartitionKeyRestrictions(pkIndex, forView);
      ghost var f' := FlagsOf();
      assert (out, f') == PartitionKeyCheck(c, schema, allowFiltering, f, pkIndex, forView);
      if out.Fail? {
        return;
      }
      if usesSecondaryIndexing || PartitionNeedsFilteringOf(c, schema) {
        indexRestrictions := indexRestrictions + [PartitionEntry];
      }
      if selectsOnlyStatic && !ClusteringEmptyOf(c) {
        if stmt.UpdateStatement? || stmt.DeleteStatement? {
          return Fail(InvalidRequest);
        }
        if stmt.SelectStatement? {
          return Fail(InvalidRequest);
        }
      }
    }

    /** The clustering key half of the validation. */
    method ProcessClusteringPart(selectACollection: bool, forView: bool, support: IndexSupport) returns (out: Outcome)
      requires Valid()
      modifies this`isKeyRange, this`usesSecondaryIndexing, this`indexRestrictions
      ensures (out, FlagsOf()) ==
        ClusteringPartCheck(old(Contents()), schema, allowFiltering, old(FlagsOf()), selectACollection, forView, support)
    {
      var c := Contents();
      var ckIndex := !clustering.CkInitial? && support.clustering;
      out := ProcessClusteringColumnsRestrictions(ckIndex, selectACollection, forView);
      if out.Fail? {
        return;
      }
      if isKeyRange && ckIndex {
        usesSecondaryIndexing := true;
      }
      if usesSecondaryIndexing || ClusteringNeedsFilteringOf(c, schema) {
        indexRestrictions := indexRestrictions + [ClusteringEntry];
      } else if ClusteringContainsOf(c) {
        return Fail(UnsupportedOperation);
      }
    }

    /** The partition key and clustering key halves of the validation, in that order. */
    method ProcessKeyParts(stmt: StatementType, selectsOnlyStatic: bool, selectACollection: bool, forView: bool,
                           support: IndexSupport) returns (out: Outcome)
      requires Valid()
      modifies this`isKeyRange, this`usesSecondaryIndexing, this`indexRestrictions
      ensures (out, FlagsOf()) == KeyPartsCheck(old(Contents()), schema, allowFiltering, old(FlagsOf()), stmt,
                                                selectsOnlyStatic, selectACollection, forView, support)
    {
      ghost var c := Contents();
      ghost var goal := KeyPartsCheck(c, schema, allowFiltering, FlagsOf(), stmt, selectsOnlyStatic, selectACollection,
                                      forView, support);
      out := ProcessPartitionPart(stmt, selectsOnlyStatic, forView, support);
      if out.Fail? {
        assert goal == (out, FlagsOf());
        return;
      }
      assert Valid() && Contents() == c;
      out := ProcessClusteringPart(selectACollection, forView, support);
      assert goal == (out, FlagsOf());
    }

    /** Restrictions on other columns need their index or ALLOW FILTERING, and become an index restriction. */
    method ProcessOtherColumns(hasIndex: bool) returns (out: Outcome)
      requires Valid()
      modifies this`isKeyRange, this`usesSecondaryIndexing, this`indexRestrictions
      ensures (out, FlagsOf()) == OtherColumnsCheck(old(Contents()), allowFiltering, old(FlagsOf()), hasIndex)
    {
      if otherColumns != [] {
        if hasIndex {
          usesSecondaryIndexing := true;
        } else if !allowFiltering {
          return Fail(InvalidRequest);
        }
        indexRestrictions := indexRestrictions + [OtherColumnsEntry];
      }
      return Pass;
    }

    /**
     * The validation half of the statement_restrictions constructor, after the
     * relations are added: key-range and indexing decisions, the index
     * restrictions, and the ALLOW FILTERING gate.
     */
    method Process(stmt: StatementType, selectsOnlyStatic: bool, selectACollection: bool, forView: bool,
                   support: IndexSupport) returns (out: Outcome)
      requires Valid()
      modifies this`isKeyRange, this`usesSecondaryIndexing, this`indexRestrictions
      ensures Valid() && Contents() == old(Contents())
      ensures (out, FlagsOf()) == Validation(old(Contents()), schema, allowFiltering, old(FlagsOf()), stmt,
                                             selectsOnlyStatic, selectACollection, forView, support)
    {
      ghost var c := Contents();
      ghost var goal := Validation(c, schema, allowFiltering, FlagsOf(), stmt, selectsOnlyStatic, selectACollection,
                                   forView, support);
      out := ProcessKeyParts(stmt, selectsOnlyStatic, selectACollection, forView, support);
      assert Valid() && Contents() == c;
      if out.Fail? {
        assert goal == (out, FlagsOf());
        return;
      }
      out := ProcessIndexing(selectsOnlyStatic, forView, support);
      assert Valid() && Contents() == c;
      assert goal == (out, FlagsOf());
    }

    /** The other columns, then validate_secondary_index_selections for a secondary-index query. */
    method ProcessIndexing(selectsOnlyStatic: bool, forView: bool, support: IndexSupport) returns (out: Outcome)
      requires Valid()
      modifies this`isKeyRange, this`usesSecondaryIndexing, this`indexRestrictions
      ensures (out, FlagsOf()) ==
        IndexingCheck(old(Contents()), allowFiltering, old(FlagsOf()), selectsOnlyStatic, forView, support)
    {
      out := ProcessOtherColumns(support.otherColumns);
      if out.Fail? {
        return;
      }
      if usesSecondaryIndexing && !(forView || allowFiltering) {
        out := SecondaryIndexSelections(Contents(), selectsOnlyStatic);
      }
    }

    /**
     * The statement_restrictions constructor: the relations are added in order,
     * then the combination is validated; the index answers are given by the
     * caller.  The statement is prepared exactly when no relation is refused and
     * the validation finds no reason of Refused.
     */
    static method Prepare(schema: Schema, stmt: StatementType, rels: seq<Relation>, selectsOnlyStatic: bool,
                          selectACollection: bool, forView: bool, allowFiltering: bool, support: IndexSupport)
      returns (res: Result<StatementRestrictions>)
      requires RelationsWellFormed(rels)
      ensures var (o, c, f) := Preparation(schema, stmt, rels, selectsOnlyStatic, selectACollection, forView, allowFiltering, support);
        (o.Fail? ==> res == Err(o.error)) &&
        (o.Pass? ==>
          res.Ok? && fresh(res.value) && res.value.Valid() && fresh(res.value.Repr) &&
          res.value.schema == schema && res.value.allowFiltering == allowFiltering &&
          res.value.Contents() == c && res.value.FlagsOf() == f)
    {
      var s, out := Build(schema, rels, forView, allowFiltering);
      ghost var c := s.Contents();
      ghost var f := s.FlagsOf();
      if out.Pass? {
        out := s.Process(stmt, selectsOnlyStatic, selectACollection, forView, support);
        f := s.FlagsOf();
      }
      assert Preparation(schema, stmt, rels, selectsOnlyStatic, selectACollection, forView, allowFiltering, support) == (out, c, f);
      res := if out.Fail? then Err(out.error) else Ok(s);
    }

    /** A statement's restrictions with its relations added in order. */
    static method Build(schema: Schema, rels: seq<Relation>, forView: bool, allowFiltering: bool)
      returns (s: StatementRestrictions, out: Outcome)
      requires RelationsWellFormed(rels)
      ensures fresh(s) && s.Valid() && fresh(s.Repr) && s.schema == schema && s.allowFiltering == allowFiltering
      ensures (out, s.Contents()) == RelationsStep(NoRestrictions, allowFiltering, rels, forView) && s.FlagsOf() == NoFlags
    {
      s := new StatementRestrictions(schema, allowFiltering);
      out := s.AddRelations(rels, forView);
    }

    // --- ranges ---

    /**
     * get_partition_key_ranges: the whole ring when the partition key is not
     * restricted or needs filtering; otherwise the token restriction's ring
     * ranges, or the partitions of the restricted keys.
     */
    method GetPartitionKeyRanges(o: Options, max: nat) returns (r: Result<seq<PartitionRange>>)
      requires Valid()
      ensures PartitionKeyEmpty() || PartitionKeyNeedsFiltering() ==> r == Ok([TokenSpan(EntireRing)])
      ensures partitionKey.PkToken? ==>
        var b := BoundsRanges(partitionKey.token.expression, o);
        r == if b.Err? then Err(b.error) else Ok(TokenSpans(b.value))
      ensures partitionKey.PkSingle? && !PartitionKeyEmpty() && !PartitionKeyNeedsFiltering() ==>
        var keys := PartitionKeysOf(partitionKey.single.restrictions, o, max);
        r == if keys.Err? then Err(keys.error) else Ok(SinglePartitions(keys.value))
    {
      match partitionKey {
        case PkInitial =>
          return Ok([TokenSpan(EntireRing)]);
        case PkToken(t) =>
          var b := BoundsRanges(t.expression, o);
          if b.Err? {
            return Err(b.error);
          }
          return Ok(TokenSpans(b.value));
        case PkSingle(s) =>
          if s.Empty() || PartitionKeyNeedsFiltering() {
            return Ok([TokenSpan(EntireRing)]);
          }
          var keys := s.PartitionBoundsRanges(o, max);
          if keys.Err? {
            return Err(keys.error);
          }
          return Ok(SinglePartitions(keys.value));
      }
    }

    /**
     * get_clustering_bounds: the whole partition when the clustering key is not
     * restricted; the ranges of the longest restricted prefix when the
     * restrictions need filtering; otherwise the ranges of all of them.  The
     * ranges of a multi-column restriction are given as multiBounds.
     */
    method GetClusteringBounds(o: Options, max: nat, multiBounds: seq<KeyRange>) returns (r: Result<seq<KeyRange>>)
      requires Valid()
      ensures ClusteringEmpty() ==> r == Ok([Between(None, None)])
      ensures clustering.CkMulti? ==> r == Ok(multiBounds)
      ensures clustering.CkSingle? && !ClusteringEmpty() && ClusteringNeedsFiltering() && r.Ok? ==>
        r == ClusteringRangesOf(LongestPrefix(clustering.single.restrictions), o, max)
      ensures clustering.CkSingle? && !ClusteringEmpty() && ClusteringNeedsFiltering() && r.Err? ==>
        r.error == InvalidRequest || r == ClusteringRangesOf(LongestPrefix(clustering.single.restrictions), o, max)
      ensures clustering.CkSingle? && !ClusteringEmpty() && !ClusteringNeedsFiltering() ==>
        r == ClusteringRangesOf(clustering.single.restrictions, o, max)
    {
      match clustering {
        case CkInitial =>
          return Ok([Between(None, None)]);
        case CkMulti(_) =>
          return Ok(multiBounds);
        case CkSingle(s) =>
          r := SingleClusteringBounds(s, schema.clusteringKeySize, o, max);
      }
    }
  }

  /** The ranges of the longest prefix of single-column clustering restrictions. */
  method PrefixClusteringBounds(s: SingleColumnPrimaryKeyRestrictions, o: Options, max: nat)
    returns (r: Result<seq<KeyRange>>)
    requires s.Valid()
    ensures r.Ok? ==> r == ClusteringRangesOf(LongestPrefix(s.restrictions), o, max)
    ensures r.Err? ==> r.error == InvalidRequest || r == ClusteringRangesOf(LongestPrefix(s.restrictions), o, max)
  {
    ghost var rs := s.restrictions;
    var prefix := s.GetLongestPrefixRestrictions();
    if prefix.Err? {
      return Err(prefix.error);
    }
    if PrefixSize(rs, 0) == |rs| {
      assert rs[..|rs|] == rs;
      assert LongestPrefix(rs) == rs;
    }
    assert prefix.value.restrictions == LongestPrefix(rs);
    r := prefix.value.ClusteringBoundsRanges(o, max);
  }

  /** get_clustering_bounds for single-column clustering restrictions. */
  method SingleClusteringBounds(s: SingleColumnPrimaryKeyRestrictions, keySize: nat, o: Options, max: nat)
    returns (r: Result<seq<KeyRange>>)
    requires s.Valid()
    ensures s.Empty() ==> r == Ok([Between(None, None)])
    ensures !s.Empty() && s.NeedsFilteringKey(keySize) && r.Ok? ==>
      r == ClusteringRangesOf(LongestPrefix(s.restrictions), o, max)
    ensures !s.Empty() && s.NeedsFilteringKey(keySize) && r.Err? ==>
      r.error == InvalidRequest || r == ClusteringRangesOf(LongestPrefix(s.restrictions), o, max)
    ensures !s.Empty() && !s.NeedsFilteringKey(keySize) ==> r == ClusteringRangesOf(s.restrictions, o, max)
  {
    if s.Empty() {
      return Ok([Between(None, None)]);
    }
    if s.NeedsFilteringKey(keySize) {
      r := PrefixClusteringBounds(s, o, max);
      return;
    }
    r := s.ClusteringBoundsRanges(o, max);
  }

  // ---------------------------------------------------------------------------
  // Properties
  // ---------------------------------------------------------------------------

  /** find_idx chooses nothing exactly when no eligible index scores above 0. */
  lemma NothingChosen(indexes: seq<Index>, lists: seq<seq<ColumnDef>>, allowLocal: bool, chosen: Option<Choice>)
    requires BestOf(indexes, lists, allowLocal, |indexes|, chosen)
    ensures chosen.None? <==> forall a :: 0 <= a < |indexes| && Eligible(indexes[a], lists) ==> Score(indexes[a], allowLocal) == 0
  {
    if chosen.Some? {
      var c := chosen.value;
      assert DependsOnSome(indexes[c.index], lists[c.entry]);
      assert Eligible(indexes[c.index], lists);
    }
  }

  /** A local index is chosen only when the partition key is completely restricted by equalities. */
  lemma LocalNeedsFullPartitionKey(indexes: seq<Index>, lists: seq<seq<ColumnDef>>, allowLocal: bool, chosen: Option<Choice>)
    requires BestOf(indexes, lists, allowLocal, |indexes|, chosen) && chosen.Some?
    ensures indexes[chosen.value.index].local ==> allowLocal
  {
  }

  /** When some eligible index is global, an index is always chosen, and one after it only if it is a usable local index. */
  lemma GlobalIndexIsUsable(indexes: seq<Index>, lists: seq<seq<ColumnDef>>, allowLocal: bool, chosen: Option<Choice>, a: nat)
    requires BestOf(indexes, lists, allowLocal, |indexes|, chosen)
    requires a < |indexes| && !indexes[a].local && Eligible(indexes[a], lists)
    ensures chosen.Some?
    ensures chosen.value.index > a ==> indexes[chosen.value.index].local && allowLocal
  {
    NothingChosen(indexes, lists, allowLocal, chosen);
    assert Score(indexes[a], allowLocal) == 1;
  }
}
