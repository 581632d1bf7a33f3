/**
 * The collaborators the field resolver consults: the mapping provider, which says what each
 * declared member maps to, and the access policy of the clause being resolved.
 * Both are deterministic: the same member always gets the same answer.
 */
module Mapping {

  /** A declared member (property or field), identified by its declaring type and its name. */
  datatype MemberId = MemberId(DeclaringType: string, Name: string) {
    /** The member's full name, as error messages show it. */
    function FullName(): string { DeclaringType + "." + Name }
  }

  /** What the provider says about a relation member: the related table and the two join columns. */
  datatype RelationInfo = RelationInfo(RelatedTableName: string, LeftColumnName: string, RightColumnName: string)

  /** The closed classification of a member. */
  datatype MemberKind =
    | MappedColumn(ColumnName: string)
    | Unmapped
    | Relation(Info: RelationInfo)

  /** The mapping provider, as a deterministic lookup; a member it does not list is unmapped. */
  datatype MappingProvider = MappingProvider(Members: map<MemberId, MemberKind>) {
    function Classify(m: MemberId): MemberKind {
      if m in Members then Members[m] else Unmapped
    }

    predicate IsRelation(m: MemberId) {
      Classify(m).Relation?
    }
  }

  /** The clause-specific access policy, reduced to a yes/no decision per accessed member. */
  datatype AccessPolicy = AccessPolicy(Rejected: set<MemberId>) {
    predicate MayResolve(m: MemberId) {
      m !in Rejected
    }
  }

  /** The policy of a select clause, which lets every member through. */
  const SelectFieldAccessPolicy: AccessPolicy := AccessPolicy({})
}
