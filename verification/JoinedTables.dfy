/**
 * The joined-table context: a memo table, shared by every resolution of one query, that hands
 * out one related-table instance per (originating table, relation member), so that resolving
 * the same relation twice never produces a second table or a duplicate join.
 */
module JoinedTables {
  import opened Wrappers
  import opened DataObjectModel
  import opened Mapping
  import opened FieldResolving

  class JoinedTableContext {
    var Tables: TableMap

    constructor ()
      ensures Tables == map[]
    {
      Tables := map[];
    }

    /**
     * The related table for `relationMember` seen from `source`: the stored instance when there
     * is one; otherwise a new table, named by the provider and without alias, which is stored.
     */
    method GetJoinedTable(info: MappingProvider, source: Table, relationMember: MemberId) returns (r: Result<Table, ResolveError>)
      modifies this
      ensures (source, relationMember) in old(Tables) ==>
        r == Success(old(Tables)[(source, relationMember)]) && Tables == old(Tables)
      ensures (source, relationMember) !in old(Tables) && info.IsRelation(relationMember) ==>
        && r.Success?
        && fresh(r.value)
        && IsRelatedTable(info, relationMember, r.value)
        && Tables == old(Tables)[(source, relationMember) := r.value]
        && (forall k | k in old(Tables) :: old(Tables)[k] != r.value)
      ensures (source, relationMember) !in old(Tables) && !info.IsRelation(relationMember) ==>
        r == Failure(NotARelation(relationMember)) && Tables == old(Tables)
      ensures info.IsRelation(relationMember) ==>
        && r.Success?
        && Tables.Keys == old(Tables).Keys + {(source, relationMember)}
        && Tables[(source, relationMember)] == r.value
      ensures ConsistentWith(info, old(Tables)) ==> ConsistentWith(info, Tables)
    {
      var key := (source, relationMember);
      if key in Tables {
        return Success(Tables[key]);
      }
      match info.Classify(relationMember)
      case Relation(rel) =>
        var related := new Table(rel.RelatedTableName, None);
        Tables := Tables[key := related];
        return Success(related);
      case _ =>
        return Failure(NotARelation(relationMember));
    }
  }
}
