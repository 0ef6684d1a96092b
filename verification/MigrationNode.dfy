/**
 The embedded document node as the migration engine sees it: a store of
 collection versions plus the name pointer that `get_collection` follows.

 The node itself is foreign code.  Its calls are modelled by the contract the
 engine relies on, one atomic store transition per call:
   - `AddSchema` registers a root version, or reports that the name exists;
   - `SetMigration` attaches a transform to an edge, and leaves a placeholder
     at the destination when the destination is absent;
   - `PatchCollection` derives a content-addressed version from the active one,
     inactive, adopting a transform already attached to that edge; the derived
     id may depend on every version stored for the collection;
   - `SetActive` moves the active flag and the name pointer in one step.
 */
module MigrationNode {
  import opened Prelude

  type VersionId = string
  type Field = string

  datatype Edge = Edge(source: VersionId, transform: Option<string>)

  datatype Version = Version(
    id: VersionId,
    name: string,
    isActive: bool,
    isPlaceholder: bool,
    fields: set<Field>,
    previous: Option<Edge>)

  /** Every stored version sits under its own id. */
  type VersionTable = m: map<VersionId, Version> | forall id | id in m :: m[id].id == id witness map[]

  datatype Store = Store(versions: VersionTable, names: map<string, VersionId>)

  /** A schema text, as the node reads it: its type name, root version and fields. */
  datatype Sdl = Sdl(name: string, root: VersionId, fields: set<Field>)

  /** A patch text, as the node reads it.  `cid` is the content-derived id of the
      patched version, for the active version it is applied to and the versions
      stored under the collection's name.  An in-place patch
      changes metadata (indexes, embeddings) that no modelled field carries. */
  datatype Patch =
    | NewVersion(cid: map<(VersionId, set<VersionId>), VersionId>, add: set<Field>, drop: set<Field>)
    | InPlace

  /** Lens bytes, identified by the transform id the node derives from them. */
  datatype Lens = Lens(transform: string)

  datatype NodeError = AlreadyExists | Rejected

  function GetCollection(s: Store, name: string): Option<Version>
  {
    if name in s.names && s.names[name] in s.versions then Some(s.versions[s.names[name]]) else None
  }

  function AddSchema(s: Store, sdl: Sdl): Result<Store, NodeError>
  {
    if sdl.name == "" then Err(Rejected)
    else if sdl.name in s.names then Err(AlreadyExists)
    else
      Ok(Store(s.versions[sdl.root := Version(sdl.root, sdl.name, true, false, sdl.fields, None)],
               s.names[sdl.name := sdl.root]))
  }

  function SetMigration(s: Store, source: VersionId, dest: VersionId, lens: Lens): Store
  {
    var edge := Some(Edge(source, Some(lens.transform)));
    var v := if dest in s.versions
             then s.versions[dest].(previous := edge)
             else Version(dest, "", false, true, {}, edge);
    s.(versions := s.versions[dest := v])
  }

  /** The transform already attached to the edge `source -> id`, if any. */
  function AttachedTransform(s: Store, id: VersionId, source: VersionId): Option<string>
  {
    if id in s.versions && s.versions[id].previous.Some? && s.versions[id].previous.value.source == source
    then s.versions[id].previous.value.transform
    else None
  }

  /** The versions stored under a collection's name. */
  function NamedIds(s: Store, name: string): set<VersionId>
  {
    set id | id in s.versions && s.versions[id].name == name
  }

  function PatchCollection(s: Store, name: string, patch: Patch): Result<(Store, Version), NodeError>
  {
    match GetCollection(s, name)
    case None => Err(Rejected)
    case Some(active) =>
      match patch
      case InPlace => Ok((s, active))
      case NewVersion(cid, add, drop) =>
        var key := (active.id, NamedIds(s, name));
        if key !in cid then Err(Rejected)
        else
          var id := cid[key];
          if id in s.versions && !s.versions[id].isPlaceholder then Err(AlreadyExists)
          else
            var v := Version(id, name, false, false, active.fields - drop + add,
                             Some(Edge(active.id, AttachedTransform(s, id, active.id))));
            Ok((s.(versions := s.versions[id := v]), v))
  }

  function SetActive(s: Store, id: VersionId): Result<Store, NodeError>
  {
    if id !in s.versions || s.versions[id].isPlaceholder then Err(Rejected)
    else
      var name := s.versions[id].name;
      var versions := map v | v in s.versions ::
        if s.versions[v].name == name then s.versions[v].(isActive := v == id) else s.versions[v];
      Ok(Store(versions, s.names[name := id]))
  }

  /** The first version of `all` with the given id. */
  function Find(all: seq<Version>, id: VersionId): (r: Option<Version>)
    ensures r.Some? <==> id in ById(all)
    ensures r.Some? ==> r.value == ById(all)[id] && r.value.id == id && r.value in all
  {
    if all == [] then None
    else if all[0].id == id then Some(all[0])
    else Find(all[1..], id)
  }

  /** A listing read as a lookup table; the first entry of an id wins. */
  function ById(all: seq<Version>): VersionTable
  {
    if all == [] then map[] else ById(all[1..])[all[0].id := all[0]]
  }

  lemma {:induction false} ByIdCons(v: Version, all: seq<Version>)
    ensures ById([v] + all) == ById(all)[v.id := v]
  {
    assert ([v] + all)[1..] == all;
  }

  /** `all` lists the versions of `s`, each once. */
  ghost predicate Lists(all: seq<Version>, s: Store)
  {
    && ById(all) == s.versions
    && (forall i, j | 0 <= i < j < |all| :: all[i].id != all[j].id)
  }

  ghost predicate ListsAllBut(all: seq<Version>, versions: VersionTable, todo: set<VersionId>)
  {
    && todo <= versions.Keys
    && ById(all) == versions - todo
    && (forall i | 0 <= i < |all| :: all[i].id !in todo)
    && (forall i, j | 0 <= i < j < |all| :: all[i].id != all[j].id)
  }

  lemma {:induction false} ListOneMore(all: seq<Version>, versions: VersionTable, todo: set<VersionId>, id: VersionId)
    requires ListsAllBut(all, versions, todo) && id in todo
    ensures ListsAllBut([versions[id]] + all, versions, todo - {id})
  {
    ByIdCons(versions[id], all);
    assert versions - (todo - {id}) == (versions - todo)[id := versions[id]];
  }

  lemma {:induction false} ListedIsStored(all: seq<Version>, v: Version)
    requires forall i, j | 0 <= i < j < |all| :: all[i].id != all[j].id
    requires v in all
    ensures v.id in ById(all) && ById(all)[v.id] == v
  {
    if all[0] != v {
      var k :| 0 <= k < |all| && all[k] == v;
      assert all[1..][k - 1] == v;
      ListedIsStored(all[1..], v);
    }
  }

  /** The live node.  `writes` records the store after every completed call that
      may have changed it, so a crash between two calls leaves one of them. */
  class EmbeddedNode {
    var store: Store
    ghost var writes: seq<Store>

    constructor (s: Store)
      ensures store == s && writes == []
    {
      store := s;
      writes := [];
    }

    method CallAddSchema(sdl: Sdl) returns (r: Result<(), NodeError>)
      modifies this
      ensures match AddSchema(old(store), sdl)
              case Ok(s) => r == Ok(()) && store == s && writes == old(writes) + [s]
              case Err(e) => r == Err(e) && store == old(store) && writes == old(writes)
    {
      match AddSchema(store, sdl)
      case Ok(s) => store := s; writes := writes + [s]; r := Ok(());
      case Err(e) => r := Err(e);
    }

    method CallSetMigration(source: VersionId, dest: VersionId, lens: Lens)
      modifies this
      ensures store == SetMigration(old(store), source, dest, lens)
      ensures writes == old(writes) + [store]
    {
      store := SetMigration(store, source, dest, lens);
      writes := writes + [store];
    }

    method CallPatchCollection(name: string, patch: Patch) returns (r: Result<Version, NodeError>)
      modifies this
      ensures match PatchCollection(old(store), name, patch)
              case Ok((s, v)) => r == Ok(v) && store == s && writes == old(writes) + [s]
              case Err(e) => r == Err(e) && store == old(store) && writes == old(writes)
    {
      match PatchCollection(store, name, patch)
      case Ok((s, v)) => store := s; writes := writes + [s]; r := Ok(v);
      case Err(e) => r := Err(e);
    }

    method CallSetActive(id: VersionId) returns (r: Result<(), NodeError>)
      modifies this
      ensures match SetActive(old(store), id)
              case Ok(s) => r == Ok(()) && store == s && writes == old(writes) + [s]
              case Err(e) => r == Err(e) && store == old(store) && writes == old(writes)
    {
      match SetActive(store, id)
      case Ok(s) => store := s; writes := writes + [s]; r := Ok(());
      case Err(e) => r := Err(e);
    }

    /** Lists every version, in an order the engine may not rely on. */
    method GetAllCollectionVersions() returns (all: seq<Version>)
      ensures Lists(all, store)
    {
      all := [];
      var todo := store.versions.Keys;
      while todo != {}
        invariant ListsAllBut(all, store.versions, todo)
        decreases |todo|
      {
        var id :| id in todo;
        ListOneMore(all, store.versions, todo, id);
        all, todo := [store.versions[id]] + all, todo - {id};
      }
    }
  }
}
