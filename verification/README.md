# Field resolution in the Relinq query model

This project models three pieces of Relinq, a LINQ query parser that turns expression trees into a
query model and SQL-oriented descriptors.

- **Resolving a field access against a main from clause** (`FromClauseFieldResolver.ResolveField`
  with its `JoinedTableContext`). The resolver takes a field expression that is a chain of member
  accesses rooted at the from clause's identifier (`s.First`, `sd.Student.First`,
  `sdd.Student_Detail.Student.First`). It checks that the root parameter has the identifier's name
  and type. It then walks the chain: each relation member becomes one join to the related table,
  and the last member becomes the column. The result is a `FieldDescriptor` holding the member, the
  from clause, the source path and the optional column. Joined tables are cached in the
  `JoinedTableContext` under (source table, relation member), so a second resolution returns the
  same table instances.
- **The field source path** (`FieldSourcePath`): a first source table and an ordered list of
  `SingleJoin`s. Equality compares the first source by identity and the joins structurally. The
  hash code agrees with that equality.
- **The `First`/`FirstOrDefault` node of the query parser** (`FirstExpressionNode`). It lists the
  eight supported `Queryable`/`Enumerable` methods. Its constructor keeps an optional predicate and
  never sets a selector. `Resolve` always fails, after checking its arguments for null.
  `CreateResultOperator` sets the result operator's "default when empty" flag exactly when the
  method name ends in `OrDefault`.

Module layout:

| file | module | holds |
|---|---|---|
| `Wrappers.dfy` | `Wrappers` | `Option` (null) and `Result` (exceptions) |
| `DataObjectModel.dfy` | `DataObjectModel` | `Table` (a class, so it has an identity), `Column`, `SingleJoin`, `FieldSourcePath`, their equalities and the hash code |
| `Mapping.dfy` | `Mapping` | the mapping provider: which member is a column, a relation or unmapped; the access policy |
| `Clauses.dfy` | `Clauses` | `MainFromClause`: identifier and source table |
| `FieldResolving.dfy` | `FieldResolving` | field expressions, descriptors, error messages, and `ResolveSpec`, the specification of resolution over a table cache |
| `JoinedTables.dfy` | `JoinedTables` | `JoinedTableContext`, the mutable table cache |
| `FieldResolver.dfy` | `FieldResolver` | `FromClauseFieldResolver.ResolveField`, the imperative resolver proved against `ResolveSpec` |
| `StubScenarios.dfy` | `StubScenarios` | the test mapping (Student, Student_Detail, Student_Detail_Detail) and the test scenarios as lemmas |
| `FirstExpressionNode.dfy` | `FirstExpressionNode` | the `First` parser node |

The resolver's own implementation file is not part of this model. Its behaviour follows
`FromClauseFieldResolverTest.cs` instead: its messages, its joins and their orientation, and its
caching. The root parameter is checked against the from clause identifier's name and type. The
hash code of a path only has to agree with equality. The test at `FieldSourcePathTest.cs:112-126`
also expects two particular join sequences to hash differently, and the model proves both.

## Model

| member | source | states |
|---|---|---|
| DataObjectModel.Table.constructor | Linq.UnitTests/ParsingTest/FieldResolvingTest/FromClauseFieldResolverTest.cs:77 | a new table has the given name and alias (`new Table("studentTable", "fromIdentifier1")`) |
| DataObjectModel.ConstructionKeepsSourceAndJoins | Linq.UnitTests/DataObjectModelTest/FieldSourcePathTest.cs:11-23 | a path keeps its source instance and its join sequence |
| DataObjectModel.PathEquals | Linq.UnitTests/DataObjectModelTest/FieldSourcePathTest.cs:25-81 | `FieldSourcePath.Equals`: the same first source instance and element-wise equal joins; its properties are the lemmas below |
| DataObjectModel.PathHash | Linq.UnitTests/DataObjectModelTest/FieldSourcePathTest.cs:83-126 | `FieldSourcePath.GetHashCode`: combines the source table's name and alias with the joins in order; its properties are the hash lemmas below |
| DataObjectModel.PathEqualityIsEquivalence | Linq.UnitTests/DataObjectModelTest/FieldSourcePathTest.cs:25-37 | path equality is reflexive, symmetric and transitive |
| DataObjectModel.SameSourceAndJoinsAreEqual | Linq.UnitTests/DataObjectModelTest/FieldSourcePathTest.cs:25-37 | two paths with the same source instance and element-wise equal joins are equal, also when compared as objects |
| DataObjectModel.NeverEqualsOtherKind | Linq.UnitTests/DataObjectModelTest/FieldSourcePathTest.cs:39-50 | a path is never equal to an object that is not a path |
| DataObjectModel.DistinctSourcesAreUnequal | Linq.UnitTests/DataObjectModelTest/FieldSourcePathTest.cs:52-65 | paths over two distinct table instances are unequal, even with equal joins |
| DataObjectModel.DifferingJoinsAreUnequal | Linq.UnitTests/DataObjectModelTest/FieldSourcePathTest.cs:67-81 | join sequences of different length, or differing at one position, make the paths unequal |
| DataObjectModel.SwappedJoinsAreUnequal | Linq.UnitTests/DataObjectModelTest/FieldSourcePathTest.cs:67-81 | swapping two different joins gives an unequal path: join order matters |
| DataObjectModel.JoinEqualityIsOrdered | Linq.UnitTests/ParsingTest/FieldResolvingTest/FromClauseFieldResolverTest.cs:159-163 | a join is an ordered pair: swapping two different columns gives an unequal join |
| DataObjectModel.JoinsHashRespectsEquality | Linq.UnitTests/DataObjectModelTest/FieldSourcePathTest.cs:83-95 | element-wise equal join sequences have equal hash codes |
| DataObjectModel.EqualPathsHaveEqualHashes | Linq.UnitTests/DataObjectModelTest/FieldSourcePathTest.cs:83-95 | equal paths have equal hash codes |
| DataObjectModel.HashIgnoresSourceIdentity | Linq.UnitTests/DataObjectModelTest/FieldSourcePathTest.cs:97-110 | two distinct tables with the same name and alias give equal hash codes, although the paths are unequal |
| DataObjectModel.TestedJoinsHashDifferently | Linq.UnitTests/DataObjectModelTest/FieldSourcePathTest.cs:112-126 | the two join sequences of the test, differing in their second join, hash differently over any source table |
| Clauses.MainFromClause.constructor | Linq.UnitTests/ParsingTest/FieldResolvingTest/FromClauseFieldResolverTest.cs:70-77 | the clause's source table is fresh and aliased by the identifier's name (`new Table("studentTable", "fromIdentifier1")`) |
| FieldResolving.AccessRoundTrip | Linq.UnitTests/ParsingTest/FieldResolvingTest/FromClauseFieldResolverTest.cs:142-147 | building a member-access chain from a parameter and members and then decomposing it gives back the parameter and the members in order |
| FieldResolving.AccessOfDecomposition | Linq.UnitTests/ParsingTest/FieldResolvingTest/FromClauseFieldResolverTest.cs:142-147 | every field expression is rebuilt exactly from its root parameter and its member list |
| FieldResolving.Message | Linq.UnitTests/ParsingTest/FieldResolvingTest/FromClauseFieldResolverTest.cs:42-44 | the resolve exception texts of the tests (also at :55-57 and :169-170), built from the error's names; `MessageNamesItsSubjects` states what they contain |
| FieldResolving.DescriptorEquals | Linq.UnitTests/ParsingTest/FieldResolvingTest/FromClauseFieldResolverTest.cs:248 | the descriptor comparison of `Assert.AreEqual`: same member, same clause instance, equal paths, equal optional columns; used by the entity-field scenarios |
| FieldResolving.MessageNamesItsSubjects | Linq.UnitTests/ParsingTest/FieldResolvingTest/FromClauseFieldResolverTest.cs:41-65 | each error message contains the names it is about: expected and given parameter name, expected and given type, the non-relation member's full name |
| FieldResolving.WalkExtends | Linq.UnitTests/ParsingTest/FieldResolvingTest/FromClauseFieldResolverTest.cs:201-223 | a walk over a covered chain gives the same result over any extension of the table cache |
| FieldResolving.WalkSplit | Linq.UnitTests/ParsingTest/FieldResolvingTest/FromClauseFieldResolverTest.cs:135-166 | walking a chain `p + q` is walking `p` and then walking `q` from where `p` ended, with the joins concatenated |
| FieldResolving.WalkStep | Linq.UnitTests/ParsingTest/FieldResolvingTest/FromClauseFieldResolverTest.cs:107-133 | one relation hop appends exactly one join, from the current table's primary-key column to the cached related table's foreign-key column |
| FieldResolving.WalkStopsAt | Linq.UnitTests/ParsingTest/FieldResolvingTest/FromClauseFieldResolverTest.cs:168-184 | a walk whose next member is not a relation fails with that member |
| FieldResolving.CoveredHop | Linq.UnitTests/ParsingTest/FieldResolvingTest/FromClauseFieldResolverTest.cs:201-223 | in a covered chain, every relation hop is already in the table cache under the table reached so far |
| FieldResolving.HopKeysAreStored | Linq.UnitTests/ParsingTest/FieldResolvingTest/FromClauseFieldResolverTest.cs:201-223 | every (table, member) key a covered walk looks up is in the table cache, and each key's member is a relation |
| FieldResolving.WalkSucceedsIffAllRelations | Linq.UnitTests/ParsingTest/FieldResolvingTest/FromClauseFieldResolverTest.cs:168-184 | a walk succeeds exactly when every member walked is a relation |
| FieldResolving.WalkFailsAtFirstNonRelation | Linq.UnitTests/ParsingTest/FieldResolvingTest/FromClauseFieldResolverTest.cs:168-184 | a failing walk reports the first member that is not a relation |
| FieldResolving.WalkShape | Linq.UnitTests/ParsingTest/FieldResolvingTest/FromClauseFieldResolverTest.cs:135-166 | a successful walk has one join per member, the joins are connected (each starts where the previous ends), the first starts at the source and the last ends at the reached table |
| FieldResolving.WalkFailsOnlyOnNonRelation | Linq.UnitTests/ParsingTest/FieldResolvingTest/FromClauseFieldResolverTest.cs:168-184 | a walk fails only with a not-a-relation error about a member of the chain that is not a relation |
| FieldResolving.ResolveBareIdentifier | Linq.UnitTests/ParsingTest/FieldResolvingTest/FromClauseFieldResolverTest.cs:25-39 | the identifier itself resolves to no member, the clause, the empty path over the clause's table and the `*` column |
| FieldResolving.ResolveNameMismatch | Linq.UnitTests/ParsingTest/FieldResolvingTest/FromClauseFieldResolverTest.cs:41-52 | resolution fails with a name mismatch exactly when the root parameter's name differs from the identifier's, and the message names both |
| FieldResolving.ResolveTypeMismatch | Linq.UnitTests/ParsingTest/FieldResolvingTest/FromClauseFieldResolverTest.cs:54-65 | with matching names, resolution fails with a type mismatch exactly when the root parameter's type differs from the identifier's |
| FieldResolving.ResolveSingleMappedMember | Linq.UnitTests/ParsingTest/FieldResolvingTest/FromClauseFieldResolverTest.cs:67-79 | one mapped member of the identifier resolves to that member, the same clause, no joins, and its column on the clause's aliased table |
| FieldResolving.ResolveSucceedsIff | Linq.UnitTests/ParsingTest/FieldResolvingTest/FromClauseFieldResolverTest.cs:168-199 | resolution succeeds exactly when name and type match, the policy allows the member and every member before the last is a relation |
| FieldResolving.ResolveJoinPath | Linq.UnitTests/ParsingTest/FieldResolvingTest/FromClauseFieldResolverTest.cs:107-166 | a successful resolution's path starts at the clause's table, has one connected join per hop, and every join is the cached related-table join of its member |
| FieldResolving.ResolveFailsAtFirstNonRelation | Linq.UnitTests/ParsingTest/FieldResolvingTest/FromClauseFieldResolverTest.cs:168-184 | when member `k` is the first non-relation before the last, resolution fails naming member `k` |
| FieldResolving.ResolveFinalMappedColumn | Linq.UnitTests/ParsingTest/FieldResolvingTest/FromClauseFieldResolverTest.cs:135-166 | a final mapped member gives that member and its column on the last table of the path |
| FieldResolving.ResolveFinalUnmapped | Linq.UnitTests/ParsingTest/FieldResolvingTest/FromClauseFieldResolverTest.cs:186-199 | a final unmapped member gives that member with no column |
| FieldResolving.ResolveFinalRelation | Linq.UnitTests/ParsingTest/FieldResolvingTest/FromClauseFieldResolverTest.cs:225-282 | a final relation member (an entity field) is joined too, and the column is `*` on the related table |
| FieldResolving.ResolveStable | Linq.UnitTests/ParsingTest/FieldResolvingTest/FromClauseFieldResolverTest.cs:201-223 | once the cache covers an expression, growing the cache does not change its resolution |
| JoinedTables.JoinedTableContext.constructor | Linq.UnitTests/ParsingTest/FieldResolvingTest/FromClauseFieldResolverTest.cs:21 | a new context holds no joined tables |
| JoinedTables.JoinedTableContext.GetJoinedTable | Linq.UnitTests/ParsingTest/FieldResolvingTest/FromClauseFieldResolverTest.cs:201-223 | a cached (source, member) entry is returned unchanged; a relation not yet cached gets a fresh related table, different from every table already stored, which is stored; a non-relation fails and the cache is unchanged; for a relation the key set grows by exactly that key; consistency with the mapping is kept |
| FieldResolver.FromClauseFieldResolver.constructor | Linq.UnitTests/ParsingTest/FieldResolvingTest/FromClauseFieldResolverTest.cs:31-32 | the resolver keeps the mapping provider, context and policy it is given |
| FieldResolver.FromClauseFieldResolver.ResolveField | Linq.UnitTests/ParsingTest/FieldResolvingTest/FromClauseFieldResolverTest.cs:107-133 | the result is `ResolveSpec` over the context after the call; old entries are kept; the new keys are exactly the (table, member) keys the resolution looks up (`ResolveKeys`), each holding its own new related table, shared with no other entry; the context stays consistent and then covers the expression; a covered expression leaves the context unchanged |
| FieldResolver.FromClauseFieldResolver.JoinHops | Linq.UnitTests/ParsingTest/FieldResolvingTest/FromClauseFieldResolverTest.cs:135-166 | following a chain of hops gives the walk over the context afterwards; exactly the walk's keys are added, each with its own new table, shared with no other entry; a covered chain changes nothing |
| FieldResolver.ResolveTwice | Linq.UnitTests/ParsingTest/FieldResolvingTest/FromClauseFieldResolverTest.cs:201-223 | two resolvers sharing a context give the same result twice, with the same table instance on the right side of the first join |
| StubScenarios.ResolveJoin | Linq.UnitTests/ParsingTest/FieldResolvingTest/FromClauseFieldResolverTest.cs:107-133 | `sd.Student.First` resolves to the First column of the related student table, through one join `Student_Detail_PK` to `Student_Detail_to_Student_FK` |
| StubScenarios.ResolveDoubleJoin | Linq.UnitTests/ParsingTest/FieldResolvingTest/FromClauseFieldResolverTest.cs:135-166 | `sdd.Student_Detail.Student.First` resolves through the two joins of the test, in that order and with those columns |
| StubScenarios.ResolveEntityFieldSimple | Linq.UnitTests/ParsingTest/FieldResolvingTest/FromClauseFieldResolverTest.cs:225-249 | `sd.Student` resolves to a descriptor equal to the test's: member Student, the clause, one join `Student_Detail_PK` to `Student_Detail_to_Student_FK`, and the `*` column of the student table |
| StubScenarios.ResolveEntityFieldNested | Linq.UnitTests/ParsingTest/FieldResolvingTest/FromClauseFieldResolverTest.cs:251-282 | `sdd.Student_Detail.Student` resolves to a descriptor equal to the test's: the two joins in order, and the `*` column of the student table |
| StubScenarios.ResolveJoinInvalidMember | Linq.UnitTests/ParsingTest/FieldResolvingTest/FromClauseFieldResolverTest.cs:168-184 | `s.First.Length` fails because `Student.First` is not a relation |
| StubScenarios.ResolveUsesContext | Linq.UnitTests/ParsingTest/FieldResolvingTest/FromClauseFieldResolverTest.cs:201-223 | resolving `sd.Student.First` twice through one context gives the same joined student table instance, named `studentTable` with no alias |
| FirstExpressionNode.SupportedMethods | Relinq/Core/Parsing/Structure/IntermediateModel/FirstExpressionNode.cs:36-46 | the eight supported signatures, in the order of the source's array; `SupportedMethodsAreTheFirstForms` states what they are |
| FirstExpressionNode.SupportedMethodsAreTheFirstForms | Relinq/Core/Parsing/Structure/IntermediateModel/FirstExpressionNode.cs:36-46 | a method is supported exactly when it is First or FirstOrDefault of Queryable or Enumerable, with or without predicate; there are eight, all distinct |
| FirstExpressionNode.NewFirstExpressionNode | Relinq/Core/Parsing/Structure/IntermediateModel/FirstExpressionNode.cs:48-51 | the node keeps the parse info and the optional predicate, and has no selector |
| FirstExpressionNode.Resolve | Relinq/Core/Parsing/Structure/IntermediateModel/FirstExpressionNode.cs:53-61 | resolution always fails: a null input parameter first, then a null expression, otherwise resolve-not-supported |
| FirstExpressionNode.CreateResultOperator | Relinq/Core/Parsing/Structure/IntermediateModel/FirstExpressionNode.cs:63-66 | `FirstOrDefault` gives an operator that returns a default when empty; `First` gives one that does not |
| FirstExpressionNode.ResultOperatorFlagFollowsSuffix | Relinq/Core/Parsing/Structure/IntermediateModel/FirstExpressionNode.cs:63-66 | the default-when-empty flag is set for a method named `prefix + "OrDefault"` and clear for `First` |
| FirstExpressionNode.ResultOperatorOfSupportedMethod | Relinq/Core/Parsing/Structure/IntermediateModel/FirstExpressionNode.cs:63-66 | for a supported method the flag is set exactly when the method is FirstOrDefault |

## Left out

- The resolver's implementation, `FromClauseFieldResolver.cs`, is not part of this model. The resolver is modelled from its tests.
- .NET reflection and expression trees: members are `MemberId` values (declaring type and name), parameters are name/type pairs, and a field expression is a parameter or a member access.
- `StubDatabaseInfo` and `DatabaseInfoUtility` are not part of this model. The mapping provider is a finite map from members to "column", "relation" or "unmapped", filled with the mappings the tests use.
- `SelectFieldAccessPolicy` is modelled as a yes/no hook on the accessed member that accepts everything. The wording of a policy rejection message is the model's own, because no test shows it.
- FieldResolving.MessageNamesItsSubjects: states that each message contains its names. It does not prove the full message strings of the tests equal, although `Message` builds them.
- `MainFromClause.GetFromSource` is not modelled as lazy creation. The clause gets its table, named after the query source and aliased by the identifier, when it is built.
- FieldResolver.FromClauseFieldResolver.ResolveField: takes one field expression. The source also takes a separate "full field expression". Its role is not shown, and every test passes the same expression for both.
- FieldResolver.FromClauseFieldResolver.ResolveField: requires that every table in the context was created from the same mapping provider. In the tests every context is used with one provider, `StubDatabaseInfo`.
- When both the parameter's name and type are wrong, the model reports the name. No test fixes the order.
- The hash code arithmetic is the model's own polynomial over unbounded integers. The source's 32-bit combination and wrap-around are not shown.
- Null table names and null aliases other than "no alias" are not modelled.
- FirstExpressionNode: the `ClauseGenerationContext` and `QueryModel` parameters are not modelled. `GetSupportedMethod` reflection is replaced by explicit signatures. The text of the resolve-not-supported exception is not modelled. How the base class turns the predicate into a where clause is not part of this model.
- The rest of the query model builder (other expression nodes, clause generation, SQL generation) is not part of this model.
