/** The part of a main from clause that field resolution needs: its identifier and its source table. */
module Clauses {
  import opened Wrappers
  import opened DataObjectModel

  /** A query parameter (the clause's identifier, or the root of an access chain): name and type. */
  datatype Parameter = Parameter(Name: string, TypeName: string)

  /**
   * A main from clause. Its from source is one table instance for the clause's lifetime, named
   * after the queried table and aliased by the identifier's name.
   */
  class MainFromClause {
    const Identifier: Parameter
    const Source: Table

    /** The source's alias is the identifier's name. */
    predicate Valid() {
      Source.Alias == Some(Identifier.Name)
    }

    constructor (identifier: Parameter, tableName: string)
      ensures Valid()
      ensures Identifier == identifier && Source.Name == tableName && fresh(Source)
    {
      Identifier := identifier;
      Source := new Table(tableName, Some(identifier.Name));
    }
  }
}
