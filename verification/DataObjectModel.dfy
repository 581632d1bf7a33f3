/**
 * The value model that says where a resolved field lives: tables, columns, the joins between
 * tables, and the path of joins from a query's source table to the table owning the field.
 *
 * Tables are objects: two distinct table objects with the same name and alias are different
 * instances, and a field source path compares its first source by identity. Columns and joins,
 * on the other hand, compare their tables structurally (by name and alias).
 */
module DataObjectModel {
  import opened Wrappers

  /** A named relational source with an optional alias. */
  class Table {
    const Name: string
    const Alias: Option<string>

    constructor (name: string, alias: Option<string>)
      ensures Name == name && Alias == alias
    {
      Name := name;
      Alias := alias;
    }
  }

  /** Structural table equality: same name and same alias, whatever the instances. */
  predicate TableEquals(a: Table, b: Table) {
    a.Name == b.Name && a.Alias == b.Alias
  }

  /** The reserved column name that stands for a whole row (an entity) rather than a column. */
  const Wildcard: string := "*"

  /** A column of a table. */
  datatype Column = Column(ColumnSource: Table, Name: string)

  predicate ColumnEquals(a: Column, b: Column) {
    TableEquals(a.ColumnSource, b.ColumnSource) && a.Name == b.Name
  }

  /** Equality of optional columns, where two absent columns are equal. */
  predicate OptionalColumnEquals(a: Option<Column>, b: Option<Column>) {
    match (a, b)
    case (None, None) => true
    case (Some(x), Some(y)) => ColumnEquals(x, y)
    case _ => false
  }

  /** A foreign-key edge from a column of one table to a column of another; it is ordered. */
  datatype SingleJoin = SingleJoin(LeftColumn: Column, RightColumn: Column) {
    function LeftSide(): Table { LeftColumn.ColumnSource }
    function RightSide(): Table { RightColumn.ColumnSource }
  }

  predicate JoinEquals(a: SingleJoin, b: SingleJoin) {
    ColumnEquals(a.LeftColumn, b.LeftColumn) && ColumnEquals(a.RightColumn, b.RightColumn)
  }

  /** A source table and the ordered joins that lead from it to the table owning a field. */
  datatype FieldSourcePath = FieldSourcePath(FirstSource: Table, Joins: seq<SingleJoin>) {
    /** The table the path ends at: the right side of the last join, or the first source. */
    function LastSource(): Table {
      if Joins == [] then FirstSource else Joins[|Joins| - 1].RightSide()
    }
  }

  /** Element-wise join equality of two join sequences of the same length. */
  predicate JoinsEqual(a: seq<SingleJoin>, b: seq<SingleJoin>) {
    |a| == |b| && forall i :: 0 <= i < |a| ==> JoinEquals(a[i], b[i])
  }

  /** Path equality: the very same first source instance and element-wise equal joins. */
  predicate PathEquals(p: FieldSourcePath, q: FieldSourcePath) {
    p.FirstSource == q.FirstSource && JoinsEqual(p.Joins, q.Joins)
  }

  /** The objects a path may be compared with; a path is one kind among several. */
  datatype Object =
    | PathObject(path: FieldSourcePath)
    | TableObject(table: Table)
    | ColumnObject(column: Column)
    | JoinObject(join: SingleJoin)
    | PlainObject

  /** Equality of a path with an arbitrary object. */
  predicate PathEqualsObject(p: FieldSourcePath, o: Object) {
    match o
    case PathObject(q) => PathEquals(p, q)
    case _ => false
  }

  // Hash codes. Only consistency with equality is promised; the combination below is one such
  // function, on unbounded integers.

  function StringHash(s: string): int
    decreases |s|
  {
    if s == [] then 0 else StringHash(s[..|s| - 1]) * 31 + s[|s| - 1] as int
  }

  function AliasHash(alias: Option<string>): int {
    match alias
    case None => 0
    case Some(a) => StringHash(a) + 1
  }

  /** Structural: it reads the name and alias, never the instance. */
  function TableHash(t: Table): int {
    StringHash(t.Name) * 31 + AliasHash(t.Alias)
  }

  function ColumnHash(c: Column): int {
    TableHash(c.ColumnSource) * 31 + StringHash(c.Name)
  }

  function JoinHash(j: SingleJoin): int {
    ColumnHash(j.LeftColumn) * 31 + ColumnHash(j.RightColumn)
  }

  function JoinsHash(joins: seq<SingleJoin>): int
    decreases |joins|
  {
    if joins == [] then 0 else JoinsHash(joins[..|joins| - 1]) * 31 + JoinHash(joins[|joins| - 1])
  }

  function PathHash(p: FieldSourcePath): int {
    TableHash(p.FirstSource) * 31 + JoinsHash(p.Joins)
  }

  // Properties of construction and equality

  /** A path keeps the source instance and the join sequence it was built from. */
  lemma ConstructionKeepsSourceAndJoins(source: Table, joins: seq<SingleJoin>)
    ensures FieldSourcePath(source, joins).FirstSource == source
    ensures FieldSourcePath(source, joins).Joins == joins
  {
  }

  /** Path equality is an equivalence: reflexive, symmetric and transitive. */
  lemma PathEqualityIsEquivalence(p: FieldSourcePath, q: FieldSourcePath, r: FieldSourcePath)
    ensures PathEquals(p, p)
    ensures PathEquals(p, q) ==> PathEquals(q, p)
    ensures PathEquals(p, q) && PathEquals(q, r) ==> PathEquals(p, r)
  {
  }

  /** Two paths built from the same source and structurally equal joins are equal. */
  lemma SameSourceAndJoinsAreEqual(source: Table, joins1: seq<SingleJoin>, joins2: seq<SingleJoin>)
    requires JoinsEqual(joins1, joins2)
    ensures PathEquals(FieldSourcePath(source, joins1), FieldSourcePath(source, joins2))
    ensures PathEqualsObject(FieldSourcePath(source, joins1), PathObject(FieldSourcePath(source, joins2)))
  {
  }

  /** A path is never equal to an object that is not a path. */
  lemma NeverEqualsOtherKind(p: FieldSourcePath, o: Object)
    requires !o.PathObject?
    ensures !PathEqualsObject(p, o)
  {
  }

  /**
   * Paths over distinct source instances are unequal, even when the two tables agree in name
   * and alias and the joins are the same.
   */
  lemma DistinctSourcesAreUnequal(source1: Table, source2: Table, joins: seq<SingleJoin>)
    requires source1 != source2
    ensures !PathEquals(FieldSourcePath(source1, joins), FieldSourcePath(source2, joins))
  {
  }

  /** Join sequences that differ in length, or in one position, make the paths unequal. */
  lemma DifferingJoinsAreUnequal(p: FieldSourcePath, q: FieldSourcePath, i: nat)
    requires |p.Joins| != |q.Joins| || (i < |p.Joins| && i < |q.Joins| && !JoinEquals(p.Joins[i], q.Joins[i]))
    ensures !PathEquals(p, q)
  {
  }

  /** Order matters: a path is not a set of joins. */
  lemma SwappedJoinsAreUnequal(source: Table, a: SingleJoin, b: SingleJoin)
    requires !JoinEquals(a, b)
    ensures !PathEquals(FieldSourcePath(source, [a, b]), FieldSourcePath(source, [b, a]))
  {
    DifferingJoinsAreUnequal(FieldSourcePath(source, [a, b]), FieldSourcePath(source, [b, a]), 0);
  }

  /** A join is an ordered pair: swapping two structurally different columns changes it. */
  lemma JoinEqualityIsOrdered(a: Column, b: Column)
    requires !ColumnEquals(a, b)
    ensures !JoinEquals(SingleJoin(a, b), SingleJoin(b, a))
  {
  }

  // Properties of the hash code

  lemma {:induction false} JoinsHashRespectsEquality(a: seq<SingleJoin>, b: seq<SingleJoin>)
    requires JoinsEqual(a, b)
    ensures JoinsHash(a) == JoinsHash(b)
    decreases |a|
  {
    if a != [] {
      var n := |a| - 1;
      assert JoinsEqual(a[..n], b[..n]) by {
        forall i | 0 <= i < n ensures JoinEquals(a[..n][i], b[..n][i]) {
          assert a[..n][i] == a[i] && b[..n][i] == b[i];
        }
      }
      JoinsHashRespectsEquality(a[..n], b[..n]);
      assert JoinEquals(a[n], b[n]);
    }
  }

  /** Equal paths have equal hash codes. */
  lemma EqualPathsHaveEqualHashes(p: FieldSourcePath, q: FieldSourcePath)
    requires PathEquals(p, q)
    ensures PathHash(p) == PathHash(q)
  {
    JoinsHashRespectsEquality(p.Joins, q.Joins);
  }

  /**
   * The hash does not see source identity: structurally equal but distinct source tables give
   * equal hash codes, although the paths themselves are unequal.
   */
  lemma HashIgnoresSourceIdentity(source1: Table, source2: Table, joins: seq<SingleJoin>)
    requires TableEquals(source1, source2)
    ensures PathHash(FieldSourcePath(source1, joins)) == PathHash(FieldSourcePath(source2, joins))
    ensures source1 != source2 ==> !PathEquals(FieldSourcePath(source1, joins), FieldSourcePath(source2, joins))
  {
  }

  /** A join between two columns of one table, as the path tests build them. */
  function SelfJoin(source: Table, left: string, right: string): SingleJoin {
    SingleJoin(Column(source, left), Column(source, right))
  }

  /**
   * For the join sequences the hash tests use, differing in their second join, the hash codes
   * differ (whatever the source table).
   */
  lemma TestedJoinsHashDifferently(source: Table)
    ensures
      var joins1 := [SelfJoin(source, "s1", "s2"), SelfJoin(source, "s3", "s4")];
      var joins2 := [SelfJoin(source, "s1", "s2"), SelfJoin(source, "s5", "s6")];
      PathHash(FieldSourcePath(source, joins1)) != PathHash(FieldSourcePath(source, joins2))
  {
    var joins1 := [SelfJoin(source, "s1", "s2"), SelfJoin(source, "s3", "s4")];
    var joins2 := [SelfJoin(source, "s1", "s2"), SelfJoin(source, "s5", "s6")];
    assert joins1[..1] == joins2[..1];
    assert StringHash("s3") == StringHash("s") * 31 + '3' as int by { assert "s3"[..1] == "s"; }
    assert StringHash("s4") == StringHash("s") * 31 + '4' as int by { assert "s4"[..1] == "s"; }
    assert StringHash("s5") == StringHash("s") * 31 + '5' as int by { assert "s5"[..1] == "s"; }
    assert StringHash("s6") == StringHash("s") * 31 + '6' as int by { assert "s6"[..1] == "s"; }
    assert JoinHash(joins1[1]) != JoinHash(joins2[1]);
  }
}
