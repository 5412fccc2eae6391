/** The persisted query forest: assemblies of networks, query rows that name an assembly and
    carry the stored Seeding and Pipeline text, and the parent links along which forks grow and
    deletes cascade.

    Rows are kept in an id-keyed store whose counters play the part of the database's
    autoincrement keys. The library query object that a loaded row caches (`Query._query`) is
    transient and held apart from the row, in `QueryObject`, so that the model can say exactly
    which state a fork touches. */
module Queries {
  import opened Wrappers
  import Codec
  import Users

  type QueryId = nat
  type AssemblyId = nat
  type NetworkId = nat

  /** An assembly: the ordered networks a query draws from. */
  datatype Assembly = Assembly(name: Option<string>, owner: Option<Users.UserId>, networks: seq<NetworkId>)

  /** The persisted columns of a query. `seeding` and `pipeline` hold `Codec.Dumps` text. */
  datatype QueryRow = QueryRow(
    assembly: Option<AssemblyId>,
    owner: Option<Users.UserId>,
    public: bool,
    seeding: Option<string>,
    pipeline: Option<string>,
    parent: Option<QueryId>)

  datatype Db = Db(
    assemblies: map<AssemblyId, Assembly>,
    queries: map<QueryId, QueryRow>,
    nextAssembly: nat,
    nextQuery: nat)

  /** Keys lie below the counters, every parent and assembly reference resolves, and a parent
      was stored before its child. The last fact makes the parent links a forest. */
  ghost predicate Valid(db: Db) {
    && (forall a :: a in db.assemblies ==> a < db.nextAssembly)
    && (forall q :: q in db.queries ==> q < db.nextQuery)
    && (forall q :: q in db.queries && db.queries[q].parent.Some? ==>
          db.queries[q].parent.value in db.queries && db.queries[q].parent.value < q)
    && (forall q :: q in db.queries && db.queries[q].assembly.Some? ==>
          db.queries[q].assembly.value in db.assemblies)
  }

  // ---------------------------------------------------------------- stored text

  /** What reading a stored Seeding or Pipeline column yields. */
  datatype Stored = Unset | Loaded(ops: seq<Codec.Op>) | Malformed

  /** `Query.get_seeding` / `Query.get_pipeline`: nothing for an unset or empty column,
      otherwise the decoded list; `Malformed` where decoding would raise. */
  function ReadStored(column: Option<string>): (s: Stored)
    ensures s.Unset? <==> column.None? || column.value == ""
    ensures s.Loaded? ==> column.Some? && Codec.Loads(column.value) == Some(s.ops)
    ensures s.Malformed? ==> column.Some? && Codec.Loads(column.value).None?
  {
    if column.None? || column.value == "" then Unset
    else match Codec.Loads(column.value)
      case Some(ops) => Loaded(ops)
      case None => Malformed
  }

  function GetSeeding(row: QueryRow): Stored {
    ReadStored(row.seeding)
  }

  function GetPipeline(row: QueryRow): Stored {
    ReadStored(row.pipeline)
  }

  /** Text written by `dumps` always reads back as the list it was written from. */
  lemma ReadStoredDumps(ops: seq<Codec.Op>)
    ensures ReadStored(Some(Codec.Dumps(ops))) == Loaded(ops)
  {
    Codec.LoadsDumps(ops);
  }

  /** The operations a loaded column contributes; an unset column contributes none. */
  function OpsOf(s: Stored): seq<Codec.Op>
    requires !s.Malformed?
  {
    if s.Loaded? then s.ops else []
  }

  // ---------------------------------------------------------------- factories

  datatype QueryError = NoAssembly | MalformedSeeding | MalformedPipeline

  /** The owner a factory records: the user, when one is given and logged in. */
  function OwnerOf(user: Option<Users.User>): (o: Option<Users.UserId>)
    ensures o.Some? <==> user.Some? && user.value.authenticated
    ensures o.Some? ==> o.value == user.value.id
  {
    if user.Some? && user.value.authenticated then Some(user.value.id) else None
  }

  /** `Query.network_ids`: the assembly's network ids in assembly order. A row without an
      assembly makes the source raise. */
  function NetworkIds(db: Db, row: QueryRow): (r: Result<seq<NetworkId>, QueryError>)
    ensures r.Failure? <==> row.assembly.None? || row.assembly.value !in db.assemblies
    ensures r.Success? ==> r.value == db.assemblies[row.assembly.value].networks
  {
    if row.assembly.None? || row.assembly.value !in db.assemblies then Failure(NoAssembly)
    else Success(db.assemblies[row.assembly.value].networks)
  }

  /** What a factory returns: the store with the new rows, and their ids. */
  datatype Created = Created(db: Db, query: QueryId, assembly: AssemblyId)

  /** `c` adds exactly one fresh assembly and one fresh query and changes no existing row. */
  ghost predicate Extends(db: Db, c: Created) {
    && c.assembly !in db.assemblies && c.query !in db.queries
    && c.db.assemblies.Keys == db.assemblies.Keys + {c.assembly}
    && c.db.queries.Keys == db.queries.Keys + {c.query}
    && (forall a :: a in db.assemblies ==> c.db.assemblies[a] == db.assemblies[a])
    && (forall q :: q in db.queries ==> c.db.queries[q] == db.queries[q])
  }

  /** `Query.from_networks` (through `Assembly.from_networks` and `Query.from_assembly`): a fresh
      assembly over exactly `networks` and a fresh root query over it, both owned by the user
      when the user is logged in; every existing row is left as it was. */
  function FromNetworks(db: Db, networks: seq<NetworkId>, user: Option<Users.User>): (c: Created)
    requires Valid(db)
    ensures Valid(c.db)
    ensures Extends(db, c)
    ensures NetworkIds(c.db, c.db.queries[c.query]) == Success(networks)
    ensures c.db.assemblies[c.assembly].owner == c.db.queries[c.query].owner == OwnerOf(user)
    ensures c.db.queries[c.query].parent.None? && !c.db.queries[c.query].public
    ensures GetSeeding(c.db.queries[c.query]).Unset? && GetPipeline(c.db.queries[c.query]).Unset?
  {
    var a := db.nextAssembly;
    var q := db.nextQuery;
    var assembly := Assembly(None, OwnerOf(user), networks);
    var row := QueryRow(Some(a), OwnerOf(user), false, None, None, None);
    Created(
      Db(db.assemblies[a := assembly], db.queries[q := row], a + 1, q + 1),
      q, a)
  }

  /** `Query.from_network`: a query over the one network. */
  function FromNetwork(db: Db, network: NetworkId, user: Option<Users.User>): (c: Created)
    requires Valid(db)
    ensures Valid(c.db)
    ensures Extends(db, c)
    ensures NetworkIds(c.db, c.db.queries[c.query]) == Success([network])
  {
    FromNetworks(db, [network], user)
  }

  /** `Query.from_project`: a query over the project's networks, in the project's order. */
  function FromProject(db: Db, project: Users.Project, user: Option<Users.User>): (c: Created)
    requires Valid(db)
    ensures Valid(c.db)
    ensures Extends(db, c)
    ensures NetworkIds(c.db, c.db.queries[c.query]) == Success(project.networks)
  {
    FromNetworks(db, project.networks, user)
  }

  /** The library's query object: network ids, seeding and pipeline, decoded. */
  datatype PyQuery = PyQuery(networkIds: seq<NetworkId>, seeding: seq<Codec.Op>, pipeline: seq<Codec.Op>)

  /** `Query.from_query`: the networks the manager resolved for `pq.networkIds` (passed in as
      `resolved`, since the lookup is a database call) become a fresh query whose stored text
      reads back as exactly `pq`'s seeding and pipeline. */
  function FromQuery(db: Db, resolved: seq<NetworkId>, pq: PyQuery, user: Option<Users.User>): (c: Created)
    requires Valid(db)
    ensures Valid(c.db)
    ensures Extends(db, c)
    ensures NetworkIds(c.db, c.db.queries[c.query]) == Success(resolved)
    ensures GetSeeding(c.db.queries[c.query]) == Loaded(pq.seeding)
    ensures GetPipeline(c.db.queries[c.query]) == Loaded(pq.pipeline)
  {
    var base := FromNetworks(db, resolved, user);
    var row := base.db.queries[base.query].(
      seeding := Some(Codec.Dumps(pq.seeding)),
      pipeline := Some(Codec.Dumps(pq.pipeline)));
    ReadStoredDumps(pq.seeding);
    ReadStoredDumps(pq.pipeline);
    base.(db := base.db.(queries := base.db.queries[base.query := row]))
  }

  /** `Query.from_query_args`: as `FromQuery`, where a missing seeding or pipeline becomes an
      empty one. The stored text is then the encoding of an empty list, which reads back as an
      empty list rather than as unset. */
  function FromQueryArgs(
    db: Db, resolved: seq<NetworkId>, networkIds: seq<NetworkId>,
    seeding: Option<seq<Codec.Op>>, pipeline: Option<seq<Codec.Op>>, user: Option<Users.User>): (c: Created)
    requires Valid(db)
    ensures Valid(c.db)
    ensures Extends(db, c)
    ensures NetworkIds(c.db, c.db.queries[c.query]) == Success(resolved)
    ensures GetSeeding(c.db.queries[c.query]) == Loaded(seeding.GetOr([]))
    ensures GetPipeline(c.db.queries[c.query]) == Loaded(pipeline.GetOr([]))
  {
    FromQuery(db, resolved, PyQuery(networkIds, seeding.GetOr([]), pipeline.GetOr([])), user)
  }

  // ---------------------------------------------------------------- loaded objects and forks

  /** A query row loaded from the store, with the library query object it may have cached. */
  datatype QueryObject = QueryObject(id: QueryId, row: QueryRow, cache: Option<PyQuery>)

  function LoadQuery(db: Db, id: QueryId): QueryObject
    requires id in db.queries
  {
    QueryObject(id, db.queries[id], None)
  }

  /** `Query._get_query`: the cached object if there is one; otherwise one built from the
      network ids and the decoded columns (an unset column giving an empty list), which is
      then cached. Fails as the source raises: no assembly, then undecodable seeding, then
      undecodable pipeline. */
  function ToPyQuery(db: Db, obj: QueryObject): (r: Result<(QueryObject, PyQuery), QueryError>)
    ensures obj.cache.Some? ==> r == Success((obj, obj.cache.value))
    ensures r.Success? ==> r.value.0 == obj.(cache := Some(r.value.1))
    ensures obj.cache.None? ==>
      (r.Success? <==>
        NetworkIds(db, obj.row).Success? && !GetSeeding(obj.row).Malformed? && !GetPipeline(obj.row).Malformed?)
    ensures obj.cache.None? && r.Success? ==>
      r.value.1 == PyQuery(NetworkIds(db, obj.row).value, OpsOf(GetSeeding(obj.row)), OpsOf(GetPipeline(obj.row)))
  {
    if obj.cache.Some? then Success((obj, obj.cache.value))
    else match NetworkIds(db, obj.row)
      case Failure(e) => Failure(e)
      case Success(ids) =>
        var seeding := GetSeeding(obj.row);
        var pipeline := GetPipeline(obj.row);
        if seeding.Malformed? then Failure(MalformedSeeding)
        else if pipeline.Malformed? then Failure(MalformedPipeline)
        else
          var pq := PyQuery(ids, OpsOf(seeding), OpsOf(pipeline));
          Success((obj.(cache := Some(pq)), pq))
  }

  /** A stored row from which the library query object can be built: its assembly is stored
      and neither column is malformed. */
  predicate Loadable(db: Db, row: QueryRow) {
    NetworkIds(db, row).Success? && !GetSeeding(row).Malformed? && !GetPipeline(row).Malformed?
  }

  /** A fork: the parent object as it is afterwards, and the new, not yet stored, child row. */
  datatype Fork = Fork(parent: QueryObject, child: QueryRow)

  /** `Query.build_appended`: appends the step to the CACHED pipeline in place, then makes a
      child of `obj` with the same assembly and owner, the parent's seeding text verbatim, and
      the text of the extended pipeline. The parent's persisted columns are untouched. */
  function BuildAppended(db: Db, obj: QueryObject, step: Codec.Op): (r: Result<Fork, QueryError>)
    ensures r.Success? <==> ToPyQuery(db, obj).Success?
    ensures r.Success? ==>
      var pq := ToPyQuery(db, obj).value.1;
      && r.value.parent.id == obj.id
      && r.value.parent.row == obj.row
      && r.value.parent.cache == Some(pq.(pipeline := pq.pipeline + [step]))
      && r.value.child.parent == Some(obj.id)
      && r.value.child.assembly == obj.row.assembly
      && r.value.child.owner == obj.row.owner
      && r.value.child.seeding == obj.row.seeding
      && GetPipeline(r.value.child) == Loaded(pq.pipeline + [step])
  {
    match ToPyQuery(db, obj)
    case Failure(e) => Failure(e)
    case Success((loaded, pq)) =>
      var extended := pq.(pipeline := pq.pipeline + [step]);
      ReadStoredDumps(extended.pipeline);
      Success(Fork(
        loaded.(cache := Some(extended)),
        QueryRow(obj.row.assembly, obj.row.owner, false, obj.row.seeding,
                 Some(Codec.Dumps(extended.pipeline)), Some(obj.id))))
  }

  /** The seed type the library records for "neighbors of these nodes". */
  const SeedNeighbors := "neighbors"

  /** `Query.add_seed_neighbors`: appends a neighbors seed to the CACHED seeding in place, then
      makes a child with the same assembly and owner, the parent's pipeline text verbatim, and
      the text of the extended seeding. */
  function AddSeedNeighbors(db: Db, obj: QueryObject, nodes: seq<string>): (r: Result<Fork, QueryError>)
    ensures r.Success? <==> ToPyQuery(db, obj).Success?
    ensures r.Success? ==>
      var pq := ToPyQuery(db, obj).value.1;
      var seed := Codec.Op(SeedNeighbors, nodes);
      && r.value.parent.id == obj.id
      && r.value.parent.row == obj.row
      && r.value.parent.cache == Some(pq.(seeding := pq.seeding + [seed]))
      && r.value.child.parent == Some(obj.id)
      && r.value.child.assembly == obj.row.assembly
      && r.value.child.owner == obj.row.owner
      && r.value.child.pipeline == obj.row.pipeline
      && GetSeeding(r.value.child) == Loaded(pq.seeding + [seed])
  {
    match ToPyQuery(db, obj)
    case Failure(e) => Failure(e)
    case Success((loaded, pq)) =>
      var extended := pq.(seeding := pq.seeding + [Codec.Op(SeedNeighbors, nodes)]);
      ReadStoredDumps(extended.seeding);
      Success(Fork(
        loaded.(cache := Some(extended)),
        QueryRow(obj.row.assembly, obj.row.owner, false, Some(Codec.Dumps(extended.seeding)),
                 obj.row.pipeline, Some(obj.id))))
  }

  /** `Query.get_assembly_query`: a child with the same assembly and owner and with neither
      seeding nor pipeline. */
  function GetAssemblyQuery(obj: QueryObject): (child: QueryRow)
    ensures child.parent == Some(obj.id)
    ensures child.assembly == obj.row.assembly && child.owner == obj.row.owner
    ensures GetSeeding(child).Unset? && GetPipeline(child).Unset?
  {
    QueryRow(obj.row.assembly, obj.row.owner, false, None, None, Some(obj.id))
  }

  /** Reading the stored columns of a freshly loaded row and forking it: the child's pipeline
      is the parent's steps (none if unset) followed by exactly the new step, and its seeding
      reads back as the parent's. */
  lemma BuildAppendedFromStore(db: Db, id: QueryId, step: Codec.Op)
    requires id in db.queries && Loadable(db, db.queries[id])
    ensures BuildAppended(db, LoadQuery(db, id), step).Success?
    ensures var child := BuildAppended(db, LoadQuery(db, id), step).value.child;
      && GetPipeline(child) == Loaded(OpsOf(GetPipeline(db.queries[id])) + [step])
      && GetSeeding(child) == GetSeeding(db.queries[id])
  {
  }

  /** Likewise for a neighbors seed: the child's seeding gains exactly that seed at the end and
      its pipeline reads back as the parent's. */
  lemma AddSeedNeighborsFromStore(db: Db, id: QueryId, nodes: seq<string>)
    requires id in db.queries && Loadable(db, db.queries[id])
    ensures AddSeedNeighbors(db, LoadQuery(db, id), nodes).Success?
    ensures var child := AddSeedNeighbors(db, LoadQuery(db, id), nodes).value.child;
      && GetSeeding(child) == Loaded(OpsOf(GetSeeding(db.queries[id])) + [Codec.Op(SeedNeighbors, nodes)])
      && GetPipeline(child) == GetPipeline(db.queries[id])
  {
  }

  /** Because the step is appended to the cached object, a second fork of the same loaded
      object carries the first fork's step too, although the stored row never changed. */
  lemma {:induction false} RepeatedForksAccumulate(db: Db, obj: QueryObject, first: Codec.Op, second: Codec.Op)
    requires obj.cache.Some? || Loadable(db, obj.row)
    ensures var f1 := BuildAppended(db, obj, first).value;
      var f2 := BuildAppended(db, f1.parent, second);
      var pq := ToPyQuery(db, obj).value.1;
      && f2.Success?
      && f2.value.parent.row == obj.row
      && GetPipeline(f2.value.child) == Loaded(pq.pipeline + [first, second])
  {
    var pq := ToPyQuery(db, obj).value.1;
    var f1 := BuildAppended(db, obj, first).value;
    assert f1.parent.cache == Some(pq.(pipeline := pq.pipeline + [first]));
    assert ToPyQuery(db, f1.parent).Success?;
    assert (pq.pipeline + [first]) + [second] == pq.pipeline + [first, second];
  }

  /** Stores a new row under the next id; every existing row keeps its id and contents. */
  function InsertQuery(db: Db, row: QueryRow): (r: (Db, QueryId))
    requires Valid(db)
    requires row.parent.Some? ==> row.parent.value in db.queries
    requires row.assembly.Some? ==> row.assembly.value in db.assemblies
    ensures Valid(r.0)
    ensures r.1 !in db.queries && r.0.queries == db.queries[r.1 := row]
    ensures r.0.assemblies == db.assemblies
  {
    var q := db.nextQuery;
    (db.(queries := db.queries[q := row], nextQuery := q + 1), q)
  }

  // ---------------------------------------------------------------- cascade delete

  /** Whether following parent links from `q` arrives at `target`; every query reaches itself. */
  function Reaches(qs: map<QueryId, QueryRow>, q: QueryId, target: QueryId): bool
    decreases q
  {
    || q == target
    || (q in qs && qs[q].parent.Some? && qs[q].parent.value < q && Reaches(qs, qs[q].parent.value, target))
  }

  /** The rows that deleting `target` leaves: exactly those whose chain does not reach it. */
  function Survivors(qs: map<QueryId, QueryRow>, target: QueryId): map<QueryId, QueryRow> {
    map q | q in qs && !Reaches(qs, q, target) :: qs[q]
  }

  /** The ids a cascade from `target` removes, found in one ascending pass below `bound`: an
      id goes when it is the target or its parent went. Since parents precede children, this
      is exactly the set of rows whose chain reaches the target. */
  method CascadeIds(qs: map<QueryId, QueryRow>, bound: nat, target: QueryId) returns (deleted: set<QueryId>)
    requires forall q :: q in qs && qs[q].parent.Some? ==> qs[q].parent.value in qs && qs[q].parent.value < q
    ensures forall q :: q in deleted <==> q < bound && q in qs && Reaches(qs, q, target)
  {
    deleted := {};
    var i := 0;
    while i < bound
      invariant i <= bound
      invariant forall q :: q in deleted <==> q < i && q in qs && Reaches(qs, q, target)
    {
      if i in qs && (i == target || (qs[i].parent.Some? && qs[i].parent.value in deleted)) {
        deleted := deleted + {i};
      }
      i := i + 1;
    }
  }

  /** Removing every row whose chain reaches the target keeps the store valid: a surviving
      row's parent does not reach the target either. */
  lemma SurvivorsValid(db: Db, target: QueryId)
    requires Valid(db)
    ensures Valid(db.(queries := Survivors(db.queries, target)))
  {
  }

  /** Deleting a query through the `children` cascade: the target's descendants go, other rows
      and all assemblies stay. */
  method DeleteQuery(db: Db, target: QueryId) returns (r: Db)
    requires Valid(db)
    ensures forall q :: q in r.queries <==> q in db.queries && !Reaches(db.queries, q, target)
    ensures forall q :: q in r.queries ==> r.queries[q] == db.queries[q]
    ensures r.queries == Survivors(db.queries, target)
    ensures r.assemblies == db.assemblies
    ensures Valid(r)
  {
    var qs := db.queries;
    var deleted := CascadeIds(qs, db.nextQuery, target);
    r := db.(queries := map q | q in qs && q !in deleted :: qs[q]);
    assert r.queries == Survivors(qs, target);
    SurvivorsValid(db, target);
  }

  /** The scenario of the store's tests: q1 <- q2 <- q3 and an independent q4; deleting q1
      leaves q4 alone. */
  lemma DeleteChainScenario(root: QueryRow)
    requires root.parent.None?
    ensures var qs := map[1 := root, 2 := root.(parent := Some(1)), 3 := root.(parent := Some(2)), 4 := root];
      Survivors(qs, 1) == map[4 := root]
  {
    var qs := map[1 := root, 2 := root.(parent := Some(1)), 3 := root.(parent := Some(2)), 4 := root];
    assert Reaches(qs, 2, 1);
    assert Reaches(qs, 3, 1);
    assert !Reaches(qs, 4, 1);
    assert Survivors(qs, 1).Keys == {4};
  }
}
