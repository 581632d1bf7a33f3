/**
 * The resolver's documented scenarios, replayed over a concrete mapping provider with the
 * student / student detail / student detail detail mapping.
 */
module StubScenarios {
  import opened Wrappers
  import opened DataObjectModel
  import opened Mapping
  import opened Clauses
  import opened FieldResolving
  import opened JoinedTables
  import opened FieldResolver

  const StudentType := "Rubicon.Data.Linq.UnitTests.Student"
  const StudentDetailType := "Rubicon.Data.Linq.UnitTests.Student_Detail"
  const StudentDetailDetailType := "Rubicon.Data.Linq.UnitTests.Student_Detail_Detail"

  const StudentFirst := MemberId(StudentType, "First")
  const StringLength := MemberId("System.String", "Length")
  const DetailStudent := MemberId(StudentDetailType, "Student")
  const DetailDetailStudentDetail := MemberId(StudentDetailDetailType, "Student_Detail")

  const StubDatabaseInfo := MappingProvider(map[
    StudentFirst := MappedColumn("FirstColumn"),
    DetailStudent := Relation(RelationInfo("studentTable", "Student_Detail_PK", "Student_Detail_to_Student_FK")),
    DetailDetailStudentDetail := Relation(RelationInfo("detailTable", "Student_Detail_Detail_PK", "Student_Detail_Detail_to_Student_Detail_FK"))
  ])

  /** `sd.Student.First` resolves through one join to the first-name column of the student table. */
  lemma ResolveJoin(tables: TableMap, clause: MainFromClause, expected: Table)
    requires clause.Identifier == Parameter("sd", StudentDetailType)
    requires ConsistentWith(StubDatabaseInfo, tables)
    requires Covers(StubDatabaseInfo, SelectFieldAccessPolicy, tables, clause, Access(clause.Identifier, [DetailStudent, StudentFirst]))
    requires expected.Name == "studentTable" && expected.Alias == None
    ensures ResolveSpec(StubDatabaseInfo, SelectFieldAccessPolicy, tables, clause, Access(clause.Identifier, [DetailStudent, StudentFirst])).Success?
    ensures
      var d := ResolveSpec(StubDatabaseInfo, SelectFieldAccessPolicy, tables, clause, Access(clause.Identifier, [DetailStudent, StudentFirst])).value;
      && d.FromClause == clause
      && d.Member == Some(StudentFirst)
      && OptionalColumnEquals(d.Column, Some(Column(expected, "FirstColumn")))
      && PathEquals(d.SourcePath, FieldSourcePath(clause.Source, [
           SingleJoin(Column(clause.Source, "Student_Detail_PK"), Column(expected, "Student_Detail_to_Student_FK"))]))
  {
    var expr := Access(clause.Identifier, [DetailStudent, StudentFirst]);
    AccessRoundTrip(clause.Identifier, [DetailStudent, StudentFirst]);
    ResolveFinalMappedColumn(StubDatabaseInfo, SelectFieldAccessPolicy, tables, clause, expr);
    ResolveJoinPath(StubDatabaseInfo, SelectFieldAccessPolicy, tables, clause, expr);
    var joins := ResolveSpec(StubDatabaseInfo, SelectFieldAccessPolicy, tables, clause, expr).value.SourcePath.Joins;
    assert Hops(StubDatabaseInfo, [DetailStudent, StudentFirst]) == [DetailStudent];
    assert IsHopJoin(StubDatabaseInfo, tables, DetailStudent, joins[0]);
    assert IsRelatedTable(StubDatabaseInfo, DetailStudent, joins[0].RightSide());
  }

  /** `sdd.Student_Detail.Student.First` resolves through two joins, in source-to-leaf order. */
  lemma ResolveDoubleJoin(tables: TableMap, clause: MainFromClause, expectedDetail: Table, expectedStudent: Table)
    requires clause.Identifier == Parameter("sdd", StudentDetailDetailType)
    requires ConsistentWith(StubDatabaseInfo, tables)
    requires Covers(StubDatabaseInfo, SelectFieldAccessPolicy, tables, clause,
                    Access(clause.Identifier, [DetailDetailStudentDetail, DetailStudent, StudentFirst]))
    requires expectedDetail.Name == "detailTable" && expectedDetail.Alias == None
    requires expectedStudent.Name == "studentTable" && expectedStudent.Alias == None
    ensures ResolveSpec(StubDatabaseInfo, SelectFieldAccessPolicy, tables, clause,
                        Access(clause.Identifier, [DetailDetailStudentDetail, DetailStudent, StudentFirst])).Success?
    ensures
      var d := ResolveSpec(StubDatabaseInfo, SelectFieldAccessPolicy, tables, clause,
                           Access(clause.Identifier, [DetailDetailStudentDetail, DetailStudent, StudentFirst])).value;
      var joins := d.SourcePath.Joins;
      && d.FromClause == clause
      && d.Member == Some(StudentFirst)
      && OptionalColumnEquals(d.Column, Some(Column(expectedStudent, "FirstColumn")))
      && d.SourcePath.FirstSource == clause.Source
      && |joins| == 2
      && JoinEquals(joins[0], SingleJoin(Column(clause.Source, "Student_Detail_Detail_PK"),
                                         Column(expectedDetail, "Student_Detail_Detail_to_Student_Detail_FK")))
      && JoinEquals(joins[1], SingleJoin(Column(expectedDetail, "Student_Detail_PK"),
                                         Column(expectedStudent, "Student_Detail_to_Student_FK")))
      && joins[1].LeftSide() == joins[0].RightSide()
  {
    var ms := [DetailDetailStudentDetail, DetailStudent, StudentFirst];
    var expr := Access(clause.Identifier, ms);
    AccessRoundTrip(clause.Identifier, ms);
    ResolveFinalMappedColumn(StubDatabaseInfo, SelectFieldAccessPolicy, tables, clause, expr);
    ResolveJoinPath(StubDatabaseInfo, SelectFieldAccessPolicy, tables, clause, expr);
    var joins := ResolveSpec(StubDatabaseInfo, SelectFieldAccessPolicy, tables, clause, expr).value.SourcePath.Joins;
    var hops := Hops(StubDatabaseInfo, ms);
    assert hops == [DetailDetailStudentDetail, DetailStudent];
    assert IsHopJoin(StubDatabaseInfo, tables, hops[0], joins[0]);
    assert IsHopJoin(StubDatabaseInfo, tables, hops[1], joins[1]);
    assert IsRelatedTable(StubDatabaseInfo, hops[0], joins[0].RightSide());
    assert IsRelatedTable(StubDatabaseInfo, hops[1], joins[1].RightSide());
    assert Connected(joins[0].RightSide(), joins[1..]);
  }

  /** `sd.Student` is an entity field: one join to the student table, whose whole row is the column. */
  lemma ResolveEntityFieldSimple(tables: TableMap, clause: MainFromClause, expectedStudent: Table)
    requires clause.Identifier == Parameter("sd", StudentDetailType)
    requires ConsistentWith(StubDatabaseInfo, tables)
    requires Covers(StubDatabaseInfo, SelectFieldAccessPolicy, tables, clause, Access(clause.Identifier, [DetailStudent]))
    requires expectedStudent.Name == "studentTable" && expectedStudent.Alias == None
    ensures ResolveSpec(StubDatabaseInfo, SelectFieldAccessPolicy, tables, clause, Access(clause.Identifier, [DetailStudent])).Success?
    ensures DescriptorEquals(
      ResolveSpec(StubDatabaseInfo, SelectFieldAccessPolicy, tables, clause, Access(clause.Identifier, [DetailStudent])).value,
      FieldDescriptor(
        Some(DetailStudent), clause,
        FieldSourcePath(clause.Source, [
          SingleJoin(Column(clause.Source, "Student_Detail_PK"), Column(expectedStudent, "Student_Detail_to_Student_FK"))]),
        Some(Column(expectedStudent, Wildcard))))
  {
    var ms := [DetailStudent];
    var expr := Access(clause.Identifier, ms);
    AccessRoundTrip(clause.Identifier, ms);
    ResolveFinalRelation(StubDatabaseInfo, SelectFieldAccessPolicy, tables, clause, expr);
    ResolveJoinPath(StubDatabaseInfo, SelectFieldAccessPolicy, tables, clause, expr);
    var joins := ResolveSpec(StubDatabaseInfo, SelectFieldAccessPolicy, tables, clause, expr).value.SourcePath.Joins;
    assert Hops(StubDatabaseInfo, ms) == ms;
    assert IsHopJoin(StubDatabaseInfo, tables, ms[0], joins[0]);
    assert IsRelatedTable(StubDatabaseInfo, ms[0], joins[0].RightSide());
  }

  /** `sdd.Student_Detail.Student` joins twice and ends at the whole row of the student table. */
  lemma ResolveEntityFieldNested(tables: TableMap, clause: MainFromClause, expectedDetail: Table, expectedStudent: Table)
    requires clause.Identifier == Parameter("sdd", StudentDetailDetailType)
    requires ConsistentWith(StubDatabaseInfo, tables)
    requires Covers(StubDatabaseInfo, SelectFieldAccessPolicy, tables, clause,
                    Access(clause.Identifier, [DetailDetailStudentDetail, DetailStudent]))
    requires expectedDetail.Name == "detailTable" && expectedDetail.Alias == None
    requires expectedStudent.Name == "studentTable" && expectedStudent.Alias == None
    ensures ResolveSpec(StubDatabaseInfo, SelectFieldAccessPolicy, tables, clause,
                        Access(clause.Identifier, [DetailDetailStudentDetail, DetailStudent])).Success?
    ensures DescriptorEquals(
      ResolveSpec(StubDatabaseInfo, SelectFieldAccessPolicy, tables, clause,
                  Access(clause.Identifier, [DetailDetailStudentDetail, DetailStudent])).value,
      FieldDescriptor(
        Some(DetailStudent), clause,
        FieldSourcePath(clause.Source, [
          SingleJoin(Column(clause.Source, "Student_Detail_Detail_PK"), Column(expectedDetail, "Student_Detail_Detail_to_Student_Detail_FK")),
          SingleJoin(Column(expectedDetail, "Student_Detail_PK"), Column(expectedStudent, "Student_Detail_to_Student_FK"))]),
        Some(Column(expectedStudent, Wildcard))))
  {
    var ms := [DetailDetailStudentDetail, DetailStudent];
    var expr := Access(clause.Identifier, ms);
    AccessRoundTrip(clause.Identifier, ms);
    ResolveFinalRelation(StubDatabaseInfo, SelectFieldAccessPolicy, tables, clause, expr);
    ResolveJoinPath(StubDatabaseInfo, SelectFieldAccessPolicy, tables, clause, expr);
    var joins := ResolveSpec(StubDatabaseInfo, SelectFieldAccessPolicy, tables, clause, expr).value.SourcePath.Joins;
    assert Hops(StubDatabaseInfo, ms) == ms;
    assert IsHopJoin(StubDatabaseInfo, tables, ms[0], joins[0]);
    assert IsHopJoin(StubDatabaseInfo, tables, ms[1], joins[1]);
    assert IsRelatedTable(StubDatabaseInfo, ms[0], joins[0].RightSide());
    assert IsRelatedTable(StubDatabaseInfo, ms[1], joins[1].RightSide());
    assert Connected(joins[0].RightSide(), joins[1..]);
  }

  /** `s.First.Length` fails: `First` is a column, not a relation, and the message names it. */
  lemma ResolveJoinInvalidMember(tables: TableMap, clause: MainFromClause)
    requires clause.Identifier == Parameter("s", StudentType)
    requires Covers(StubDatabaseInfo, SelectFieldAccessPolicy, tables, clause, Access(clause.Identifier, [StudentFirst, StringLength]))
    ensures ResolveSpec(StubDatabaseInfo, SelectFieldAccessPolicy, tables, clause, Access(clause.Identifier, [StudentFirst, StringLength]))
         == Failure(NotARelation(StudentFirst))
  {
    var expr := Access(clause.Identifier, [StudentFirst, StringLength]);
    AccessRoundTrip(clause.Identifier, [StudentFirst, StringLength]);
    ResolveFailsAtFirstNonRelation(StubDatabaseInfo, SelectFieldAccessPolicy, tables, clause, expr, 0);
  }

  /**
   * Resolving `sd.Student.First` with two resolvers over one fresh context reuses the student
   * table: both descriptors' first joins lead to the same instance.
   */
  method ResolveUsesContext() returns (table1: Table, table2: Table)
    ensures table1 == table2
    ensures table1.Name == "studentTable" && table1.Alias == None
  {
    var context := new JoinedTableContext();
    var clause := new MainFromClause(Parameter("sd", StudentDetailType), "detailTable");
    var expr := Access(clause.Identifier, [DetailStudent, StudentFirst]);
    AccessRoundTrip(clause.Identifier, [DetailStudent, StudentFirst]);
    var resolver1 := new FromClauseFieldResolver(StubDatabaseInfo, context, SelectFieldAccessPolicy);
    var resolver2 := new FromClauseFieldResolver(StubDatabaseInfo, context, SelectFieldAccessPolicy);
    var r1 := resolver1.ResolveField(clause, expr);
    ghost var afterFirst := context.Tables;
    ResolveFinalMappedColumn(StubDatabaseInfo, SelectFieldAccessPolicy, afterFirst, clause, expr);
    ResolveJoinPath(StubDatabaseInfo, SelectFieldAccessPolicy, afterFirst, clause, expr);
    var r2 := resolver2.ResolveField(clause, expr);
    assert Hops(StubDatabaseInfo, [DetailStudent, StudentFirst]) == [DetailStudent];
    assert IsRelatedTable(StubDatabaseInfo, DetailStudent, r1.value.SourcePath.Joins[0].RightSide());
    table1 := r1.value.SourcePath.Joins[0].RightSide();
    table2 := r2.value.SourcePath.Joins[0].RightSide();
  }
}
