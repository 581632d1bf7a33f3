/**
 * Field resolution as a function: what resolving a member-access chain against a main from
 * clause yields, given the provider, the policy and the joined tables known afterwards.
 *
 * An access chain is rooted at a parameter that must be the clause's identifier (same name,
 * same type). Its members are walked from the root outwards: every member that leads to a
 * further member, and a last member that is itself a relation, must be a relation; each such
 * hop appends one join to the path and moves on to the related table. The last member then
 * decides the column: its mapped column, none when it is unmapped, or the wildcard column of
 * the related table when it is a relation (a whole-entity reference).
 */
module FieldResolving {
  import opened Wrappers
  import opened DataObjectModel
  import opened Mapping
  import opened Clauses

  /** A member-access chain: a parameter, or a member accessed on a shorter chain. */
  datatype FieldExpr =
    | ParameterAccess(Param: Parameter)
    | MemberAccess(Inner: FieldExpr, Member: MemberId)

  /** The parameter a chain is rooted at. */
  function Root(e: FieldExpr): Parameter {
    match e
    case ParameterAccess(p) => p
    case MemberAccess(inner, _) => Root(inner)
  }

  /** The members of a chain, from the one nearest the root to the outermost one. */
  function Members(e: FieldExpr): seq<MemberId> {
    match e
    case ParameterAccess(_) => []
    case MemberAccess(inner, m) => Members(inner) + [m]
  }

  /** The chain that accesses `members`, in order, starting from parameter `p`. */
  function Access(p: Parameter, members: seq<MemberId>): FieldExpr
    decreases |members|
  {
    if members == [] then ParameterAccess(p)
    else MemberAccess(Access(p, members[..|members| - 1]), members[|members| - 1])
  }

  /** Decomposing a chain gives back the parameter and the members it was built from. */
  lemma {:induction false} AccessRoundTrip(p: Parameter, members: seq<MemberId>)
    ensures Root(Access(p, members)) == p
    ensures Members(Access(p, members)) == members
    decreases |members|
  {
    if members != [] {
      AccessRoundTrip(p, members[..|members| - 1]);
    }
  }

  /** Every chain is rebuilt by `Access` from its root and members. */
  lemma {:induction false} AccessOfDecomposition(e: FieldExpr)
    ensures Access(Root(e), Members(e)) == e
  {
    match e
    case ParameterAccess(_) =>
    case MemberAccess(inner, m) =>
      AccessOfDecomposition(inner);
      var ms := Members(e);
      assert ms[..|ms| - 1] == Members(inner);
  }

  /** The result of resolution: accessed member (none for the bare identifier), clause, path, column. */
  datatype FieldDescriptor = FieldDescriptor(
    Member: Option<MemberId>,
    FromClause: MainFromClause,
    SourcePath: FieldSourcePath,
    Column: Option<Column>)

  /** Descriptor equality: all four parts equal, the clause by identity. */
  predicate DescriptorEquals(a: FieldDescriptor, b: FieldDescriptor) {
    && a.Member == b.Member
    && a.FromClause == b.FromClause
    && PathEquals(a.SourcePath, b.SourcePath)
    && OptionalColumnEquals(a.Column, b.Column)
  }

  /** The ways a field access fails to resolve. */
  datatype ResolveError =
    | ParameterNameMismatch(ExpectedName: string, GivenName: string)
    | ParameterTypeMismatch(ExpectedType: string, GivenType: string)
    | NotARelation(Member: MemberId)
    | PolicyRejected(Member: MemberId)

  function Message(e: ResolveError): string {
    match e
    case ParameterNameMismatch(expected, given) =>
      "This from clause can only resolve field accesses for parameters called '" + expected
      + "', but a parameter called '" + given + "' was given."
    case ParameterTypeMismatch(expected, given) =>
      "This from clause can only resolve field accesses for parameters of type '" + expected
      + "', but a parameter of type '" + given + "' was given."
    case NotARelation(m) =>
      "The member '" + m.FullName() + "' does not identify a relation."
    case PolicyRejected(m) =>
      "The member '" + m.FullName() + "' cannot be resolved under this clause's field access policy."
  }

  predicate OccursAt(s: string, t: string, i: nat) {
    i + |t| <= |s| && s[i..i + |t|] == t
  }

  ghost predicate Contains(s: string, t: string) {
    exists i: nat :: OccursAt(s, t, i)
  }

  lemma ContainsMiddle(a: string, t: string, b: string)
    ensures Contains(a + t + b, t)
  {
    assert (a + t + b)[|a|..|a| + |t|] == t;
    assert OccursAt(a + t + b, t, |a|);
  }

  /** Every message names what it is about: both names, both types, or the member. */
  lemma MessageNamesItsSubjects(e: ResolveError)
    ensures e.ParameterNameMismatch? ==> Contains(Message(e), e.ExpectedName) && Contains(Message(e), e.GivenName)
    ensures e.ParameterTypeMismatch? ==> Contains(Message(e), e.ExpectedType) && Contains(Message(e), e.GivenType)
    ensures e.NotARelation? || e.PolicyRejected? ==> Contains(Message(e), e.Member.FullName())
  {
    match e
    case ParameterNameMismatch(expected, given) =>
      var p1 := "This from clause can only resolve field accesses for parameters called '";
      var p2 := "', but a parameter called '";
      var p3 := "' was given.";
      assert Message(e) == p1 + expected + (p2 + given + p3);
      ContainsMiddle(p1, expected, p2 + given + p3);
      assert Message(e) == (p1 + expected + p2) + given + p3;
      ContainsMiddle(p1 + expected + p2, given, p3);
    case ParameterTypeMismatch(expected, given) =>
      var p1 := "This from clause can only resolve field accesses for parameters of type '";
      var p2 := "', but a parameter of type '";
      var p3 := "' was given.";
      assert Message(e) == p1 + expected + (p2 + given + p3);
      ContainsMiddle(p1, expected, p2 + given + p3);
      assert Message(e) == (p1 + expected + p2) + given + p3;
      ContainsMiddle(p1 + expected + p2, given, p3);
    case NotARelation(m) =>
      ContainsMiddle("The member '", m.FullName(), "' does not identify a relation.");
    case PolicyRejected(m) =>
      ContainsMiddle("The member '", m.FullName(), "' cannot be resolved under this clause's field access policy.");
  }

  // The joined-table map: (originating table, relation member) to the related table instance.

  type TableMap = map<(Table, MemberId), Table>

  /** `t` is the related table the provider describes for relation member `m`: its name, no alias. */
  predicate IsRelatedTable(info: MappingProvider, m: MemberId, t: Table) {
    match info.Classify(m)
    case Relation(rel) => t.Name == rel.RelatedTableName && t.Alias == None
    case _ => false
  }

  /** Every entry was created from the provider's description of its relation member. */
  predicate ConsistentWith(info: MappingProvider, tables: TableMap) {
    forall k | k in tables :: IsRelatedTable(info, k.1, tables[k])
  }

  /** `newer` keeps every entry of `older` unchanged. */
  predicate Extends(older: TableMap, newer: TableMap) {
    older.Keys <= newer.Keys && forall k | k in older :: newer[k] == older[k]
  }

  /** Each entry `newer` has beyond `older` holds its own table, shared with no other entry. */
  predicate NewEntriesDistinct(older: TableMap, newer: TableMap) {
    forall k1, k2 | k1 in newer && k2 in newer && k1 !in older && k1 != k2 :: newer[k1] != newer[k2]
  }

  /** Storing a table that no entry holds yet, under a new key, keeps the new entries distinct. */
  lemma StoreKeepsDistinct(before: TableMap, older: TableMap, key: (Table, MemberId), t: Table)
    requires NewEntriesDistinct(before, older)
    requires key !in older
    requires forall k | k in older :: older[k] != t
    ensures NewEntriesDistinct(before, older[key := t])
  {
  }

  // The walk over relation hops

  /** Every relation hop of the walk from `from` along `ms` has its related table in `tables`. */
  predicate Covered(info: MappingProvider, tables: TableMap, from: Table, ms: seq<MemberId>)
    decreases |ms|
  {
    if ms == [] then true
    else if !info.IsRelation(ms[0]) then true
    else (from, ms[0]) in tables && Covered(info, tables, tables[(from, ms[0])], ms[1..])
  }

  /** The joins a walk produced and the table it reached. */
  datatype Trail = Trail(Joins: seq<SingleJoin>, Last: Table)

  function Prepend(joins: seq<SingleJoin>, r: Result<Trail, ResolveError>): Result<Trail, ResolveError> {
    match r
    case Success(t) => Success(Trail(joins + t.Joins, t.Last))
    case Failure(e) => Failure(e)
  }

  /** Walk the hops `ms` from table `from`, one join per relation, failing at a non-relation. */
  function Walk(info: MappingProvider, tables: TableMap, from: Table, ms: seq<MemberId>): Result<Trail, ResolveError>
    requires Covered(info, tables, from, ms)
    decreases |ms|
  {
    if ms == [] then Success(Trail([], from))
    else match info.Classify(ms[0])
      case Relation(rel) =>
        var next := tables[(from, ms[0])];
        var join := SingleJoin(Column(from, rel.LeftColumnName), Column(next, rel.RightColumnName));
        Prepend([join], Walk(info, tables, next, ms[1..]))
      case _ => Failure(NotARelation(ms[0]))
  }

  /** The (table, member) keys a walk along `ms` looks up, up to its first non-relation hop. */
  function HopKeys(info: MappingProvider, tables: TableMap, from: Table, ms: seq<MemberId>): set<(Table, MemberId)>
    requires Covered(info, tables, from, ms)
    decreases |ms|
  {
    if ms == [] || !info.IsRelation(ms[0]) then {}
    else {(from, ms[0])} + HopKeys(info, tables, tables[(from, ms[0])], ms[1..])
  }

  /** The joins lead on from one another, starting at `from`. */
  predicate Connected(from: Table, joins: seq<SingleJoin>)
    decreases |joins|
  {
    joins == [] || (joins[0].LeftSide() == from && Connected(joins[0].RightSide(), joins[1..]))
  }

  /** `j` is the join for relation hop `m`: the provider's two column names, its memoised table. */
  predicate IsHopJoin(info: MappingProvider, tables: TableMap, m: MemberId, j: SingleJoin) {
    match info.Classify(m)
    case Relation(rel) =>
      && j.LeftColumn.Name == rel.LeftColumnName
      && j.RightColumn.Name == rel.RightColumnName
      && (j.LeftSide(), m) in tables
      && tables[(j.LeftSide(), m)] == j.RightSide()
    case _ => false
  }

  /** A walk only grows when entries are added: it is unchanged in any extension of the map. */
  lemma {:induction false} WalkExtends(info: MappingProvider, older: TableMap, newer: TableMap, from: Table, ms: seq<MemberId>)
    requires Extends(older, newer)
    requires Covered(info, older, from, ms)
    ensures Covered(info, newer, from, ms)
    ensures Walk(info, newer, from, ms) == Walk(info, older, from, ms)
    ensures HopKeys(info, newer, from, ms) == HopKeys(info, older, from, ms)
    decreases |ms|
  {
    if ms != [] && info.IsRelation(ms[0]) {
      WalkExtends(info, older, newer, older[(from, ms[0])], ms[1..]);
    }
  }

  /** A walk along `p + q` is the walk along `p` continued along `q` from where `p` ended. */
  lemma {:induction false} WalkSplit(info: MappingProvider, tables: TableMap, from: Table, p: seq<MemberId>, q: seq<MemberId>)
    requires Covered(info, tables, from, p)
    requires Walk(info, tables, from, p).Success?
    ensures var mid := Walk(info, tables, from, p).value;
      && Covered(info, tables, from, p + q) == Covered(info, tables, mid.Last, q)
      && (Covered(info, tables, from, p + q) ==>
            && Walk(info, tables, from, p + q) == Prepend(mid.Joins, Walk(info, tables, mid.Last, q))
            && HopKeys(info, tables, from, p + q) == HopKeys(info, tables, from, p) + HopKeys(info, tables, mid.Last, q))
    decreases |p|
  {
    if p == [] {
      assert p + q == q;
      if Covered(info, tables, from, q) {
        match Walk(info, tables, from, q)
        case Success(t) => assert [] + t.Joins == t.Joins;
        case Failure(_) =>
      }
    } else {
      var next := tables[(from, p[0])];
      assert (p + q)[0] == p[0] && (p + q)[1..] == p[1..] + q;
      WalkSplit(info, tables, next, p[1..], q);
      var rel := info.Classify(p[0]).Info;
      var join := SingleJoin(Column(from, rel.LeftColumnName), Column(next, rel.RightColumnName));
      var mid := Walk(info, tables, next, p[1..]).value;
      if Covered(info, tables, from, p + q) {
        match Walk(info, tables, mid.Last, q)
        case Success(t) => assert [join] + (mid.Joins + t.Joins) == ([join] + mid.Joins) + t.Joins;
        case Failure(_) =>
      }
    }
  }

  /** Extending a walk by one relation hop whose table is stored appends that hop's join. */
  lemma WalkStep(info: MappingProvider, tables: TableMap, from: Table, p: seq<MemberId>, joins: seq<SingleJoin>,
                 current: Table, member: MemberId, related: Table)
    requires Covered(info, tables, from, p)
    requires Walk(info, tables, from, p) == Success(Trail(joins, current))
    requires info.IsRelation(member) && (current, member) in tables && tables[(current, member)] == related
    ensures Covered(info, tables, from, p + [member])
    ensures
      var rel := info.Classify(member).Info;
      Walk(info, tables, from, p + [member])
        == Success(Trail(joins + [SingleJoin(Column(current, rel.LeftColumnName), Column(related, rel.RightColumnName))], related))
    ensures HopKeys(info, tables, from, p + [member]) == HopKeys(info, tables, from, p) + {(current, member)}
  {
    var rel := info.Classify(member).Info;
    var join := SingleJoin(Column(current, rel.LeftColumnName), Column(related, rel.RightColumnName));
    assert [member][1..] == [] && [join] + [] == [join];
    assert Walk(info, tables, related, []) == Success(Trail([], related));
    assert Walk(info, tables, current, [member]) == Success(Trail([join], related));
    assert HopKeys(info, tables, current, [member]) == {(current, member)};
    WalkSplit(info, tables, from, p, [member]);
  }

  /** Continuing a walk at a hop that is not a relation fails there, naming that member. */
  lemma WalkStopsAt(info: MappingProvider, tables: TableMap, from: Table, p: seq<MemberId>, rest: seq<MemberId>)
    requires Covered(info, tables, from, p) && Walk(info, tables, from, p).Success?
    requires rest != [] && !info.IsRelation(rest[0])
    ensures Covered(info, tables, from, p + rest)
    ensures Walk(info, tables, from, p + rest) == Failure(NotARelation(rest[0]))
    ensures HopKeys(info, tables, from, p + rest) == HopKeys(info, tables, from, p)
  {
    WalkSplit(info, tables, from, p, rest);
  }

  /** When a map covers the whole walk, it holds the table of every relation hop along the way. */
  lemma CoveredHop(info: MappingProvider, tables: TableMap, from: Table, ms: seq<MemberId>, i: nat)
    requires Covered(info, tables, from, ms)
    requires i < |ms| && info.IsRelation(ms[i])
    requires Covered(info, tables, from, ms[..i]) && Walk(info, tables, from, ms[..i]).Success?
    ensures (Walk(info, tables, from, ms[..i]).value.Last, ms[i]) in tables
  {
    assert ms[..i] + ms[i..] == ms;
    WalkSplit(info, tables, from, ms[..i], ms[i..]);
  }

  /** Every key a covered walk looks up is stored in the map. */
  lemma {:induction false} HopKeysAreStored(info: MappingProvider, tables: TableMap, from: Table, ms: seq<MemberId>)
    requires Covered(info, tables, from, ms)
    ensures HopKeys(info, tables, from, ms) <= tables.Keys
    ensures forall k | k in HopKeys(info, tables, from, ms) :: info.IsRelation(k.1)
    decreases |ms|
  {
    if ms != [] && info.IsRelation(ms[0]) {
      HopKeysAreStored(info, tables, tables[(from, ms[0])], ms[1..]);
    }
  }

  /** A walk succeeds exactly when every hop is a relation. */
  lemma {:induction false} WalkSucceedsIffAllRelations(info: MappingProvider, tables: TableMap, from: Table, ms: seq<MemberId>)
    requires Covered(info, tables, from, ms)
    ensures Walk(info, tables, from, ms).Success? <==> forall i :: 0 <= i < |ms| ==> info.IsRelation(ms[i])
    decreases |ms|
  {
    if ms != [] && info.IsRelation(ms[0]) {
      WalkSucceedsIffAllRelations(info, tables, tables[(from, ms[0])], ms[1..]);
      if forall i :: 0 <= i < |ms[1..]| ==> info.IsRelation(ms[1..][i]) {
        forall i | 0 <= i < |ms| ensures info.IsRelation(ms[i]) {
          if i > 0 { assert ms[i] == ms[1..][i - 1]; }
        }
      }
    }
  }

  /** A walk fails at its first non-relation hop, naming that member. */
  lemma {:induction false} WalkFailsAtFirstNonRelation(info: MappingProvider, tables: TableMap, from: Table, ms: seq<MemberId>, k: nat)
    requires Covered(info, tables, from, ms)
    requires k < |ms| && !info.IsRelation(ms[k])
    requires forall i :: 0 <= i < k ==> info.IsRelation(ms[i])
    ensures Walk(info, tables, from, ms) == Failure(NotARelation(ms[k]))
    decreases k
  {
    if k > 0 {
      assert info.IsRelation(ms[0]);
      WalkFailsAtFirstNonRelation(info, tables, tables[(from, ms[0])], ms[1..], k - 1);
    }
  }

  /** A successful walk yields one join per hop, chained from `from`, each built from its member. */
  lemma {:induction false} WalkShape(info: MappingProvider, tables: TableMap, from: Table, ms: seq<MemberId>)
    requires Covered(info, tables, from, ms)
    requires Walk(info, tables, from, ms).Success?
    ensures var trail := Walk(info, tables, from, ms).value;
      && |trail.Joins| == |ms|
      && Connected(from, trail.Joins)
      && trail.Last == FieldSourcePath(from, trail.Joins).LastSource()
      && forall i :: 0 <= i < |ms| ==> IsHopJoin(info, tables, ms[i], trail.Joins[i])
    decreases |ms|
  {
    if ms != [] {
      var next := tables[(from, ms[0])];
      WalkShape(info, tables, next, ms[1..]);
      var rest := Walk(info, tables, next, ms[1..]).value;
      var trail := Walk(info, tables, from, ms).value;
      assert trail.Joins[1..] == rest.Joins;
      forall i | 0 <= i < |ms| ensures IsHopJoin(info, tables, ms[i], trail.Joins[i]) {
        if i > 0 {
          assert ms[i] == ms[1..][i - 1];
          assert trail.Joins[i] == rest.Joins[i - 1];
        }
      }
    }
  }

  // Resolution

  /** The hops of a non-empty member list: all members but the last, and the last if it is a relation. */
  function Hops(info: MappingProvider, ms: seq<MemberId>): seq<MemberId>
    requires ms != []
  {
    if info.IsRelation(ms[|ms| - 1]) then ms else ms[..|ms| - 1]
  }

  /** The column the accessed member denotes on the table the walk reached. */
  function ColumnFor(info: MappingProvider, table: Table, accessed: MemberId): Option<Column> {
    match info.Classify(accessed)
    case MappedColumn(name) => Some(Column(table, name))
    case Unmapped => None
    case Relation(_) => Some(Column(table, Wildcard))
  }

  /** The identifier checks pass and there is a permitted member to walk to. */
  predicate Walks(policy: AccessPolicy, clause: MainFromClause, expr: FieldExpr) {
    var ms := Members(expr);
    Root(expr) == clause.Identifier && ms != [] && policy.MayResolve(ms[|ms| - 1])
  }

  /** The joined tables hold every related table the resolution of `expr` walks through. */
  predicate Covers(info: MappingProvider, policy: AccessPolicy, tables: TableMap, clause: MainFromClause, expr: FieldExpr) {
    Walks(policy, clause, expr) ==> Covered(info, tables, clause.Source, Hops(info, Members(expr)))
  }

  /** The joined-table keys the resolution of `expr` looks up: none when it fails before walking. */
  function ResolveKeys(info: MappingProvider, policy: AccessPolicy, tables: TableMap, clause: MainFromClause, expr: FieldExpr): set<(Table, MemberId)>
    requires Covers(info, policy, tables, clause, expr)
  {
    if Walks(policy, clause, expr) then HopKeys(info, tables, clause.Source, Hops(info, Members(expr))) else {}
  }

  /** The outcome of resolving `expr` against `clause`, given the joined tables known afterwards. */
  function ResolveSpec(info: MappingProvider, policy: AccessPolicy, tables: TableMap, clause: MainFromClause, expr: FieldExpr): Result<FieldDescriptor, ResolveError>
    requires Covers(info, policy, tables, clause, expr)
  {
    var given := Root(expr);
    var expected := clause.Identifier;
    if given.Name != expected.Name then Failure(ParameterNameMismatch(expected.Name, given.Name))
    else if given.TypeName != expected.TypeName then Failure(ParameterTypeMismatch(expected.TypeName, given.TypeName))
    else
      var ms := Members(expr);
      if ms == [] then
        Success(FieldDescriptor(None, clause, FieldSourcePath(clause.Source, []), Some(Column(clause.Source, Wildcard))))
      else
        var accessed := ms[|ms| - 1];
        if !policy.MayResolve(accessed) then Failure(PolicyRejected(accessed))
        else match Walk(info, tables, clause.Source, Hops(info, ms))
          case Failure(e) => Failure(e)
          case Success(trail) =>
            Success(FieldDescriptor(Some(accessed), clause, FieldSourcePath(clause.Source, trail.Joins),
                                    ColumnFor(info, trail.Last, accessed)))
  }

  // Properties of resolution

  /** The bare identifier resolves to the whole entity of the clause's source, with no joins. */
  lemma ResolveBareIdentifier(info: MappingProvider, policy: AccessPolicy, tables: TableMap, clause: MainFromClause)
    ensures Covers(info, policy, tables, clause, ParameterAccess(clause.Identifier))
    ensures ResolveSpec(info, policy, tables, clause, ParameterAccess(clause.Identifier))
         == Success(FieldDescriptor(None, clause, FieldSourcePath(clause.Source, []), Some(Column(clause.Source, Wildcard))))
  {
  }

  lemma {:induction false} WalkFailsOnlyOnNonRelation(info: MappingProvider, tables: TableMap, from: Table, ms: seq<MemberId>)
    requires Covered(info, tables, from, ms)
    ensures Walk(info, tables, from, ms).Failure? ==> Walk(info, tables, from, ms).error.NotARelation?
    decreases |ms|
  {
    if ms != [] && info.IsRelation(ms[0]) {
      WalkFailsOnlyOnNonRelation(info, tables, tables[(from, ms[0])], ms[1..]);
    }
  }

  /** Resolution fails with a name mismatch, naming both names, exactly when the root's name differs. */
  lemma ResolveNameMismatch(info: MappingProvider, policy: AccessPolicy, tables: TableMap, clause: MainFromClause, expr: FieldExpr)
    requires Covers(info, policy, tables, clause, expr)
    ensures ResolveSpec(info, policy, tables, clause, expr) == Failure(ParameterNameMismatch(clause.Identifier.Name, Root(expr).Name))
        <==> Root(expr).Name != clause.Identifier.Name
    ensures Root(expr).Name != clause.Identifier.Name ==>
      var message := Message(ResolveSpec(info, policy, tables, clause, expr).error);
      Contains(message, clause.Identifier.Name) && Contains(message, Root(expr).Name)
  {
    if Walks(policy, clause, expr) {
      WalkFailsOnlyOnNonRelation(info, tables, clause.Source, Hops(info, Members(expr)));
    }
    MessageNamesItsSubjects(ParameterNameMismatch(clause.Identifier.Name, Root(expr).Name));
  }

  /** With matching names, resolution fails with a type mismatch exactly when the root's type differs. */
  lemma ResolveTypeMismatch(info: MappingProvider, policy: AccessPolicy, tables: TableMap, clause: MainFromClause, expr: FieldExpr)
    requires Covers(info, policy, tables, clause, expr)
    ensures ResolveSpec(info, policy, tables, clause, expr) == Failure(ParameterTypeMismatch(clause.Identifier.TypeName, Root(expr).TypeName))
        <==> Root(expr).Name == clause.Identifier.Name && Root(expr).TypeName != clause.Identifier.TypeName
    ensures Root(expr).Name == clause.Identifier.Name && Root(expr).TypeName != clause.Identifier.TypeName ==>
      var message := Message(ResolveSpec(info, policy, tables, clause, expr).error);
      Contains(message, clause.Identifier.TypeName) && Contains(message, Root(expr).TypeName)
  {
    if Walks(policy, clause, expr) {
      WalkFailsOnlyOnNonRelation(info, tables, clause.Source, Hops(info, Members(expr)));
    }
    MessageNamesItsSubjects(ParameterTypeMismatch(clause.Identifier.TypeName, Root(expr).TypeName));
  }

  /**
   * A single mapped member resolves to its column on the clause's own source table, whose alias
   * is the identifier's name, with no joins; the descriptor keeps the clause instance.
   */
  lemma ResolveSingleMappedMember(info: MappingProvider, policy: AccessPolicy, tables: TableMap, clause: MainFromClause, m: MemberId)
    requires clause.Valid()
    requires info.Classify(m).MappedColumn? && policy.MayResolve(m)
    ensures Covers(info, policy, tables, clause, MemberAccess(ParameterAccess(clause.Identifier), m))
    ensures
      var r := ResolveSpec(info, policy, tables, clause, MemberAccess(ParameterAccess(clause.Identifier), m));
      && r == Success(FieldDescriptor(Some(m), clause, FieldSourcePath(clause.Source, []),
                                      Some(Column(clause.Source, info.Classify(m).ColumnName))))
      && r.value.Column.value.ColumnSource.Alias == Some(clause.Identifier.Name)
  {
    var expr := MemberAccess(ParameterAccess(clause.Identifier), m);
    assert Root(expr) == clause.Identifier;
    assert Members(expr) == [m];
    assert Hops(info, [m]) == [];
    assert Walk(info, tables, clause.Source, []) == Success(Trail([], clause.Source));
    assert ColumnFor(info, clause.Source, m) == Some(Column(clause.Source, info.Classify(m).ColumnName));
  }

  /** The hops are all relations exactly when every member before the last is one. */
  lemma HopsAreRelationsIff(info: MappingProvider, ms: seq<MemberId>)
    requires ms != []
    ensures (forall i :: 0 <= i < |Hops(info, ms)| ==> info.IsRelation(Hops(info, ms)[i]))
        <==> (forall i :: 0 <= i < |ms| - 1 ==> info.IsRelation(ms[i]))
  {
    var hops := Hops(info, ms);
    assert forall i :: 0 <= i < |hops| ==> hops[i] == ms[i];
  }

  /** Resolution succeeds exactly when the root is the identifier and, past it, the policy lets the
      accessed member through and every member before the last is a relation. */
  lemma ResolveSucceedsIff(info: MappingProvider, policy: AccessPolicy, tables: TableMap, clause: MainFromClause, expr: FieldExpr)
    requires Covers(info, policy, tables, clause, expr)
    ensures
      var ms := Members(expr);
      ResolveSpec(info, policy, tables, clause, expr).Success? <==>
        && Root(expr) == clause.Identifier
        && (ms == [] || (policy.MayResolve(ms[|ms| - 1]) && forall i :: 0 <= i < |ms| - 1 ==> info.IsRelation(ms[i])))
  {
    var ms := Members(expr);
    if Walks(policy, clause, expr) {
      var hops := Hops(info, ms);
      WalkSucceedsIffAllRelations(info, tables, clause.Source, hops);
      HopsAreRelationsIff(info, ms);
      assert ResolveSpec(info, policy, tables, clause, expr).Success?
        <==> Walk(info, tables, clause.Source, hops).Success?;
    }
  }

  /**
   * In a successful resolution each relation hop contributes exactly one join, in source-to-leaf
   * order: the joins are chained from the clause's source, each uses its member's two join column
   * names and leads to that member's related table (named by the provider, with no alias), and the
   * column lies on the last table reached.
   */
  lemma ResolveJoinPath(info: MappingProvider, policy: AccessPolicy, tables: TableMap, clause: MainFromClause, expr: FieldExpr)
    requires Covers(info, policy, tables, clause, expr) && ConsistentWith(info, tables)
    requires ResolveSpec(info, policy, tables, clause, expr).Success?
    requires Members(expr) != []
    ensures
      var d := ResolveSpec(info, policy, tables, clause, expr).value;
      var ms := Members(expr);
      var hops := Hops(info, ms);
      var joins := d.SourcePath.Joins;
      && d.FromClause == clause
      && d.Member == Some(ms[|ms| - 1])
      && d.SourcePath.FirstSource == clause.Source
      && |joins| == |hops|
      && Connected(clause.Source, joins)
      && (forall i :: 0 <= i < |hops| ==> IsHopJoin(info, tables, hops[i], joins[i]))
      && (forall i :: 0 <= i < |hops| ==> IsRelatedTable(info, hops[i], joins[i].RightSide()))
      && d.Column == ColumnFor(info, d.SourcePath.LastSource(), ms[|ms| - 1])
  {
    var ms := Members(expr);
    var hops := Hops(info, ms);
    WalkShape(info, tables, clause.Source, hops);
    var joins := ResolveSpec(info, policy, tables, clause, expr).value.SourcePath.Joins;
    forall i | 0 <= i < |hops| ensures IsRelatedTable(info, hops[i], joins[i].RightSide()) {
      assert IsHopJoin(info, tables, hops[i], joins[i]);
      assert (joins[i].LeftSide(), hops[i]) in tables;
    }
  }

  /** A member before the last that is not a relation makes resolution fail, naming the first such member. */
  lemma ResolveFailsAtFirstNonRelation(info: MappingProvider, policy: AccessPolicy, tables: TableMap, clause: MainFromClause, expr: FieldExpr, k: nat)
    requires Covers(info, policy, tables, clause, expr)
    requires Root(expr) == clause.Identifier
    requires var ms := Members(expr); k < |ms| - 1 && policy.MayResolve(ms[|ms| - 1])
    requires !info.IsRelation(Members(expr)[k])
    requires forall i :: 0 <= i < k ==> info.IsRelation(Members(expr)[i])
    ensures ResolveSpec(info, policy, tables, clause, expr) == Failure(NotARelation(Members(expr)[k]))
    ensures Contains(Message(NotARelation(Members(expr)[k])), Members(expr)[k].FullName())
  {
    var ms := Members(expr);
    var hops := Hops(info, ms);
    assert hops[k] == ms[k];
    WalkFailsAtFirstNonRelation(info, tables, clause.Source, hops, k);
    MessageNamesItsSubjects(NotARelation(ms[k]));
  }

  /** Preconditions shared by the lemmas about the last member: the walk to the last member succeeds. */
  predicate ReachesLast(info: MappingProvider, policy: AccessPolicy, clause: MainFromClause, expr: FieldExpr) {
    var ms := Members(expr);
    && Root(expr) == clause.Identifier
    && ms != []
    && policy.MayResolve(ms[|ms| - 1])
    && forall i :: 0 <= i < |ms| - 1 ==> info.IsRelation(ms[i])
  }

  /** A last member that is a mapped column yields that column on the last table, after one join per earlier member. */
  lemma ResolveFinalMappedColumn(info: MappingProvider, policy: AccessPolicy, tables: TableMap, clause: MainFromClause, expr: FieldExpr)
    requires Covers(info, policy, tables, clause, expr) && ConsistentWith(info, tables)
    requires ReachesLast(info, policy, clause, expr)
    requires info.Classify(Members(expr)[|Members(expr)| - 1]).MappedColumn?
    ensures
      var r := ResolveSpec(info, policy, tables, clause, expr);
      var ms := Members(expr);
      var last := ms[|ms| - 1];
      && r.Success?
      && r.value.Member == Some(last)
      && |r.value.SourcePath.Joins| == |ms| - 1
      && r.value.Column == Some(Column(r.value.SourcePath.LastSource(), info.Classify(last).ColumnName))
  {
    ResolveSucceedsIff(info, policy, tables, clause, expr);
    ResolveJoinPath(info, policy, tables, clause, expr);
  }

  /** A last member that is unmapped yields that member with no column; a single such member has no joins. */
  lemma ResolveFinalUnmapped(info: MappingProvider, policy: AccessPolicy, tables: TableMap, clause: MainFromClause, expr: FieldExpr)
    requires Covers(info, policy, tables, clause, expr) && ConsistentWith(info, tables)
    requires ReachesLast(info, policy, clause, expr)
    requires info.Classify(Members(expr)[|Members(expr)| - 1]).Unmapped?
    ensures
      var r := ResolveSpec(info, policy, tables, clause, expr);
      var ms := Members(expr);
      && r.Success?
      && r.value.Member == Some(ms[|ms| - 1])
      && r.value.SourcePath.FirstSource == clause.Source
      && |r.value.SourcePath.Joins| == |ms| - 1
      && r.value.Column == None
  {
    ResolveSucceedsIff(info, policy, tables, clause, expr);
    ResolveJoinPath(info, policy, tables, clause, expr);
  }

  /**
   * A last member that is a relation is a whole-entity reference: its own join ends the path and
   * the column is the wildcard column of its related table.
   */
  lemma ResolveFinalRelation(info: MappingProvider, policy: AccessPolicy, tables: TableMap, clause: MainFromClause, expr: FieldExpr)
    requires Covers(info, policy, tables, clause, expr) && ConsistentWith(info, tables)
    requires ReachesLast(info, policy, clause, expr)
    requires info.IsRelation(Members(expr)[|Members(expr)| - 1])
    ensures ResolveSpec(info, policy, tables, clause, expr).Success?
    ensures
      var d := ResolveSpec(info, policy, tables, clause, expr).value;
      var ms := Members(expr);
      var last := ms[|ms| - 1];
      var joins := d.SourcePath.Joins;
      && d.Member == Some(last)
      && |joins| == |ms|
      && IsHopJoin(info, tables, last, joins[|joins| - 1])
      && IsRelatedTable(info, last, d.SourcePath.LastSource())
      && d.Column == Some(Column(d.SourcePath.LastSource(), Wildcard))
  {
    ResolveSucceedsIff(info, policy, tables, clause, expr);
    ResolveJoinPath(info, policy, tables, clause, expr);
  }

  /**
   * Once the joined tables cover a resolution, adding entries changes nothing: resolving again
   * gives the very same descriptor, with the same related table instances.
   */
  lemma ResolveStable(info: MappingProvider, policy: AccessPolicy, older: TableMap, newer: TableMap, clause: MainFromClause, expr: FieldExpr)
    requires Extends(older, newer)
    requires Covers(info, policy, older, clause, expr)
    ensures Covers(info, policy, newer, clause, expr)
    ensures ResolveSpec(info, policy, newer, clause, expr) == ResolveSpec(info, policy, older, clause, expr)
  {
    if Walks(policy, clause, expr) {
      WalkExtends(info, older, newer, clause.Source, Hops(info, Members(expr)));
    }
  }
}
