/**
 * The from-clause field resolver: resolves a member-access chain against a main from clause,
 * taking related tables from (and adding them to) a joined-table context that several
 * resolvers may share.
 */
module FieldResolver {
  import opened Wrappers
  import opened DataObjectModel
  import opened Mapping
  import opened Clauses
  import opened FieldResolving
  import opened JoinedTables

  class FromClauseFieldResolver {
    const DatabaseInfo: MappingProvider
    const Context: JoinedTableContext
    const Policy: AccessPolicy

    constructor (databaseInfo: MappingProvider, context: JoinedTableContext, policy: AccessPolicy)
      ensures DatabaseInfo == databaseInfo && Context == context && Policy == policy
    {
      DatabaseInfo := databaseInfo;
      Context := context;
      Policy := policy;
    }

    /**
     * Resolve `fieldExpression` against `clause`. The outcome is the one `ResolveSpec` gives for
     * the joined tables afterwards; the context only gains entries, each a new table, exactly for
     * the keys this resolution looks up, and gains none when it already held all of them.
     */
    method ResolveField(clause: MainFromClause, fieldExpression: FieldExpr) returns (r: Result<FieldDescriptor, ResolveError>)
      requires ConsistentWith(DatabaseInfo, Context.Tables)
      modifies Context
      ensures ConsistentWith(DatabaseInfo, Context.Tables)
      ensures Extends(old(Context.Tables), Context.Tables)
      ensures forall k | k in Context.Tables && k !in old(Context.Tables) :: fresh(Context.Tables[k])
      ensures NewEntriesDistinct(old(Context.Tables), Context.Tables)
      ensures Covers(DatabaseInfo, Policy, Context.Tables, clause, fieldExpression)
      ensures r == ResolveSpec(DatabaseInfo, Policy, Context.Tables, clause, fieldExpression)
      ensures Context.Tables.Keys == old(Context.Tables).Keys + ResolveKeys(DatabaseInfo, Policy, Context.Tables, clause, fieldExpression)
      ensures Covers(DatabaseInfo, Policy, old(Context.Tables), clause, fieldExpression) ==>
        Context.Tables == old(Context.Tables)
    {
      var given := Root(fieldExpression);
      if given.Name != clause.Identifier.Name {
        return Failure(ParameterNameMismatch(clause.Identifier.Name, given.Name));
      }
      if given.TypeName != clause.Identifier.TypeName {
        return Failure(ParameterTypeMismatch(clause.Identifier.TypeName, given.TypeName));
      }
      var members := Members(fieldExpression);
      if members == [] {
        return Success(FieldDescriptor(None, clause, FieldSourcePath(clause.Source, []), Some(Column(clause.Source, Wildcard))));
      }
      var accessed := members[|members| - 1];
      if !Policy.MayResolve(accessed) {
        return Failure(PolicyRejected(accessed));
      }
      var hops := Hops(DatabaseInfo, members);
      var walked := JoinHops(clause.Source, hops);
      match walked
      case Failure(e) =>
        r := Failure(e);
      case Success(trail) =>
        r := Success(FieldDescriptor(Some(accessed), clause, FieldSourcePath(clause.Source, trail.Joins),
                                     ColumnFor(DatabaseInfo, trail.Last, accessed)));
    }

    /**
     * Follow the relation hops `hops` from table `from`, taking each related table from the
     * context (and storing the ones it lacks): the outcome is the walk over the context
     * afterwards, and exactly the keys that walk looks up are added, each with a new table.
     */
    method JoinHops(from: Table, hops: seq<MemberId>) returns (w: Result<Trail, ResolveError>)
      requires ConsistentWith(DatabaseInfo, Context.Tables)
      modifies Context
      ensures ConsistentWith(DatabaseInfo, Context.Tables)
      ensures Extends(old(Context.Tables), Context.Tables)
      ensures forall k | k in Context.Tables && k !in old(Context.Tables) :: fresh(Context.Tables[k])
      ensures NewEntriesDistinct(old(Context.Tables), Context.Tables)
      ensures Covered(DatabaseInfo, Context.Tables, from, hops)
      ensures w == Walk(DatabaseInfo, Context.Tables, from, hops)
      ensures Context.Tables.Keys == old(Context.Tables).Keys + HopKeys(DatabaseInfo, Context.Tables, from, hops)
      ensures Covered(DatabaseInfo, old(Context.Tables), from, hops) ==> Context.Tables == old(Context.Tables)
    {
      ghost var before := Context.Tables;
      var current := from;
      var joins: seq<SingleJoin> := [];
      var i := 0;
      while i < |hops|
        invariant 0 <= i <= |hops|
        invariant ConsistentWith(DatabaseInfo, Context.Tables)
        invariant Extends(before, Context.Tables)
        invariant forall k | k in Context.Tables && k !in before :: fresh(Context.Tables[k])
        invariant NewEntriesDistinct(before, Context.Tables)
        invariant Covered(DatabaseInfo, Context.Tables, from, hops[..i])
        invariant Walk(DatabaseInfo, Context.Tables, from, hops[..i]) == Success(Trail(joins, current))
        invariant Context.Tables.Keys == before.Keys + HopKeys(DatabaseInfo, Context.Tables, from, hops[..i])
      {
        var member := hops[i];
        if !DatabaseInfo.IsRelation(member) {
          assert hops[..i] + hops[i..] == hops;
          WalkStopsAt(DatabaseInfo, Context.Tables, from, hops[..i], hops[i..]);
          w := Failure(NotARelation(member));
          KeepsCoveredContext(before, from, hops);
          return;
        }
        ghost var tables := Context.Tables;
        var lookup := Context.GetJoinedTable(DatabaseInfo, current, member);
        var related := lookup.value;
        var rel := DatabaseInfo.Classify(member).Info;
        HopStep(before, tables, Context.Tables, from, hops[..i], joins, current, member, related);
        assert hops[..i] + [member] == hops[..i + 1];
        joins := joins + [SingleJoin(Column(current, rel.LeftColumnName), Column(related, rel.RightColumnName))];
        current := related;
        i := i + 1;
      }
      assert hops[..i] == hops;
      w := Success(Trail(joins, current));
      KeepsCoveredContext(before, from, hops);
    }

    /**
     * One relation hop over the context: the walk gains the hop's join, the looked-up keys gain
     * the hop's own key and no other, and the entries added so far keep distinct tables.
     */
    lemma HopStep(before: TableMap, older: TableMap, newer: TableMap, from: Table, p: seq<MemberId>,
                  joins: seq<SingleJoin>, current: Table, member: MemberId, related: Table)
      requires Covered(DatabaseInfo, older, from, p)
      requires Walk(DatabaseInfo, older, from, p) == Success(Trail(joins, current))
      requires older.Keys == before.Keys + HopKeys(DatabaseInfo, older, from, p)
      requires NewEntriesDistinct(before, older)
      requires DatabaseInfo.IsRelation(member)
      requires (current, member) in newer && newer[(current, member)] == related
      requires (current, member) in older ==> newer == older
      requires (current, member) !in older ==>
        newer == older[(current, member) := related] && forall k | k in older :: older[k] != related
      ensures Extends(older, newer)
      ensures Covered(DatabaseInfo, newer, from, p + [member])
      ensures
        var rel := DatabaseInfo.Classify(member).Info;
        Walk(DatabaseInfo, newer, from, p + [member])
          == Success(Trail(joins + [SingleJoin(Column(current, rel.LeftColumnName), Column(related, rel.RightColumnName))], related))
      ensures newer.Keys == before.Keys + HopKeys(DatabaseInfo, newer, from, p + [member])
      ensures NewEntriesDistinct(before, newer)
    {
      if (current, member) !in older {
        StoreKeepsDistinct(before, older, (current, member), related);
      }
      assert newer.Keys == older.Keys + {(current, member)};
      WalkExtends(DatabaseInfo, older, newer, from, p);
      WalkStep(DatabaseInfo, newer, from, p, joins, current, member, related);
    }

    /** A context that grew only by the keys of a walk it already covered did not change. */
    lemma KeepsCoveredContext(before: TableMap, from: Table, hops: seq<MemberId>)
      requires Extends(before, Context.Tables)
      requires Covered(DatabaseInfo, Context.Tables, from, hops)
      requires Context.Tables.Keys == before.Keys + HopKeys(DatabaseInfo, Context.Tables, from, hops)
      ensures Covered(DatabaseInfo, before, from, hops) ==> Context.Tables == before
    {
      if Covered(DatabaseInfo, before, from, hops) {
        WalkExtends(DatabaseInfo, before, Context.Tables, from, hops);
        HopKeysAreStored(DatabaseInfo, before, from, hops);
        assert Context.Tables.Keys == before.Keys;
      }
    }
  }

  /**
   * Two resolvers sharing one context, provider and policy resolve the same chain to the very
   * same descriptor: the second resolution reuses the related table instances of the first.
   */
  method ResolveTwice(first: FromClauseFieldResolver, second: FromClauseFieldResolver, clause: MainFromClause, fieldExpression: FieldExpr)
    returns (r1: Result<FieldDescriptor, ResolveError>, r2: Result<FieldDescriptor, ResolveError>)
    requires first.Context == second.Context
    requires first.DatabaseInfo == second.DatabaseInfo && first.Policy == second.Policy
    requires ConsistentWith(first.DatabaseInfo, first.Context.Tables)
    modifies first.Context
    ensures r1 == r2
    ensures r1.Success? && |r1.value.SourcePath.Joins| > 0 ==>
      r1.value.SourcePath.Joins[0].RightSide() == r2.value.SourcePath.Joins[0].RightSide()
  {
    r1 := first.ResolveField(clause, fieldExpression);
    r2 := second.ResolveField(clause, fieldExpression);
  }
}
