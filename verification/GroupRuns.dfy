/** What the project group handlers do to the table, and what every sequence of calls keeps. */
module GroupRuns {
  import opened Graph
  import opened Paths
  import opened GroupTree
  import opened GroupLookup

  datatype Request = Request(name: string, parent: Parent, visibility: Visibility)

  predicate IsLetter(c: char) {
    'a' <= c <= 'z' || 'A' <= c <= 'Z'
  }

  predicate IsLetterOrDigit(c: char) {
    IsLetter(c) || '0' <= c <= '9'
  }

  /** A letter, then letters, digits and dashes, at least one of them; no dash at the end and no
      two dashes in a row. */
  predicate MatchesNameRegexp(s: string) {
    && |s| >= 2 && IsLetter(s[0]) && IsLetterOrDigit(s[|s| - 1])
    && (forall i :: 0 <= i < |s| ==> IsLetterOrDigit(s[i]) || s[i] == '-')
    && forall i :: 0 < i < |s| ==> s[i] != '-' || s[i - 1] != '-'
  }

  predicate ValidName(isUuid: string -> bool, s: string) {
    !isUuid(s) && MatchesNameRegexp(s)
  }

  lemma ValidNamesArePlain(isUuid: string -> bool, s: string)
    requires ValidName(isUuid, s)
    ensures PlainName(s)
  {
  }

  /** Root groups have no name, all others a valid one. */
  predicate ValidRequest(isUuid: string -> bool, req: Request) {
    && !req.parent.kind.Other? && req.parent.id != ""
    && (if req.parent.kind.ProjectGroup? then ValidName(isUuid, req.name) else req.name == "")
    && !req.visibility.Invalid?
  }

  ghost predicate Taken(db: DB, parentID: string, name: string) {
    exists g :: NamedGroup(db, parentID, name, g)
  }

  // ---------------------------------------------------------------- the single calls

  ghost predicate CanCreate(db: DB, isUuid: string -> bool, req: Request) {
    && ValidRequest(isUuid, req) && req.parent.kind.ProjectGroup?
    && var parent := ByRef(db, req.parent.id);
       parent.Found? && HasPath(db, parent.id) && !Taken(db, parent.id, req.name)
  }

  ghost function Created(db: DB, newID: string, req: Request): DB
    requires ByRef(db, req.parent.id).Found?
  {
    db.(groups := db.groups[newID := Group(req.name, Parent(ProjectGroup, ByRef(db, req.parent.id).id), req.visibility)])
  }

  /** A group may move anywhere except into itself or below itself. */
  ghost predicate CanMove(db: DB, id: string, p: string, name: string) {
    && id in db.groups && HasPath(db, db.groups[id].parent.id) && HasPath(db, p)
    && ((name == db.groups[id].name && p == db.groups[id].parent.id) || (!Taken(db, p, name) && !Under(db, p, id)))
  }

  ghost predicate CanUpdate(db: DB, isUuid: string -> bool, ref: string, req: Request) {
    && ValidRequest(isUuid, req) && ByRef(db, ref).Found? && ByRef(db, ref).id in db.groups
    && var g := db.groups[ByRef(db, ref).id];
       && g.parent.kind == req.parent.kind
       && if g.parent.kind.ProjectGroup? then
            ByRef(db, req.parent.id).Found? && CanMove(db, ByRef(db, ref).id, ByRef(db, req.parent.id).id, req.name)
          else
            g.parent == req.parent && HasOwner(db, g.parent)
  }

  ghost function NewParent(db: DB, req: Request): Parent {
    if req.parent.kind.ProjectGroup? && ByRef(db, req.parent.id).Found?
    then Parent(ProjectGroup, ByRef(db, req.parent.id).id) else req.parent
  }

  ghost function Updated(db: DB, ref: string, req: Request): DB
    requires ByRef(db, ref).Found?
  {
    db.(groups := db.groups[ByRef(db, ref).id := Group(req.name, NewParent(db, req), req.visibility)])
  }

  ghost predicate CanDelete(db: DB, ref: string) {
    && ByRef(db, ref).Found? && ByRef(db, ref).id in db.groups
    && db.groups[ByRef(db, ref).id].parent.kind.ProjectGroup?
  }

  /** The group goes, its subgroups stay where they are. */
  function WithoutGroup(db: DB, id: string): DB {
    db.(groups := db.groups - {id})
  }

  /** The owner goes, its groups stay where they are. */
  function WithoutOwner(db: DB, owner: Parent): DB {
    if owner.kind.Org? then db.(orgs := db.orgs - {owner.id})
    else if owner.kind.User? then db.(users := db.users - {owner.id})
    else db
  }

  /** A new organization or user comes with its root group. */
  ghost function WithOwner(db: DB, kind: Kind, ownerID: string, name: string, rootID: string, visibility: Visibility): DB {
    var owned := db.(groups := db.groups[rootID := Group("", Parent(kind, ownerID), visibility)]);
    if kind.Org? then owned.(orgs := db.orgs[ownerID := name]) else owned.(users := db.users[ownerID := name])
  }

  // ---------------------------------------------------------------- sequences of calls

  datatype Call =
    | Create(newID: string, req: Request)
    | Update(ref: string, req: Request)
    | Delete(ref: string)
    | AddOwner(kind: Kind, ownerID: string, name: string, rootID: string, visibility: Visibility)
    | RemoveOwner(kind: Kind, ownerID: string)

  /** Generated ids are new. */
  ghost predicate IDsAreNew(db: DB, call: Call) {
    match call
    case Create(newID, _) => Fresh(db, newID)
    case AddOwner(_, ownerID, _, rootID, _) => Fresh(db, ownerID) && Fresh(db, rootID) && ownerID != rootID
    case _ => true
  }

  ghost predicate CanAddOwner(db: DB, isUuid: string -> bool, kind: Kind, name: string) {
    && ValidName(isUuid, name)
    && ((kind.Org? && name !in db.orgs.Values) || (kind.User? && name !in db.users.Values))
  }

  /** The table after a call; a refused call changes nothing. */
  ghost function Next(db: DB, isUuid: string -> bool, call: Call): DB {
    match call
    case Create(newID, req) => if CanCreate(db, isUuid, req) then Created(db, newID, req) else db
    case Update(ref, req) => if CanUpdate(db, isUuid, ref, req) then Updated(db, ref, req) else db
    case Delete(ref) => if CanDelete(db, ref) then WithoutGroup(db, ByRef(db, ref).id) else db
    case AddOwner(kind, ownerID, name, rootID, visibility) =>
      if CanAddOwner(db, isUuid, kind, name) then WithOwner(db, kind, ownerID, name, rootID, visibility) else db
    case RemoveOwner(kind, ownerID) => WithoutOwner(db, Parent(kind, ownerID))
  }

  ghost predicate IsRun(dbs: seq<DB>, calls: seq<Call>, isUuid: string -> bool) {
    && |dbs| == |calls| + 1
    && forall i :: 0 <= i < |calls| ==> IDsAreNew(dbs[i], calls[i]) && dbs[i + 1] == Next(dbs[i], isUuid, calls[i])
  }

  lemma CreateStaysGood(db: DB, newID: string, p: string, name: string, visibility: Visibility)
    requires Good(db) && Fresh(db, newID) && p in db.groups && PlainName(name) && !Taken(db, p, name)
    ensures Good(db.(groups := db.groups[newID := Group(name, Parent(ProjectGroup, p), visibility)]))
  {
    hide Acyclic;
    var db' := db.(groups := db.groups[newID := Group(name, Parent(ProjectGroup, p), visibility)]);
    assert SiblingsApart(db') by {
      hide GroupShape, IDsApart, OwnersNamed;
      OnlyOneNew(db, db', newID);
    }
    assert Acyclic(ParentGraph(db')) by {
      hide GroupShape, IDsApart, OwnersNamed, SiblingsApart;
      OneNodeChanged(ParentGraph(db), ParentGraph(db'), newID, db.groups.Keys);
    }
    forall a | a in db'.groups ensures GroupShape(db', db'.groups[a]) {
      if a != newID { assert GroupShape(db, db.groups[a]); }
    }
  }

  /** Changing one row keeps siblings apart when no other row has its new place. */
  lemma OnlyOneNew(db: DB, db': DB, id: string)
    requires SiblingsApart(db) && id in db'.groups
    requires forall a :: a in db'.groups && a != id ==> a in db.groups && db'.groups[a] == db.groups[a]
    requires forall g :: NamedGroup(db, db'.groups[id].parent.id, db'.groups[id].name, g) ==> g == id
    ensures SiblingsApart(db')
  {
    assert forall g, p, n :: g != id && NamedGroup(db', p, n, g) ==> NamedGroup(db, p, n, g);
    forall a, b | a in db'.groups && NamedGroup(db', db'.groups[a].parent.id, db'.groups[a].name, b) ensures a == b {
      assert NamedGroup(db', db'.groups[a].parent.id, db'.groups[a].name, a);
    }
  }

  /** A move that is accepted makes no cycle: all that lies above the new parent stays above it. */
  lemma MoveStaysAcyclic(db: DB, id: string, p: string, db': DB)
    requires Acyclic(ParentGraph(db)) && id in db.groups && HasPath(db, p) && !Under(db, p, id)
    requires db'.groups.Keys == db.groups.Keys && db'.groups[id].parent == Parent(ProjectGroup, p)
    requires forall a :: a in db.groups && a != id ==> db'.groups[a] == db.groups[a]
    ensures Acyclic(ParentGraph(db'))
  {
    hide Acyclic, Reaches;
    var h :| Rooted(db, p, h);
    UnderMeansInHierarchy(db, p, h, id);
    HierarchyIsClosed(db, p, h);
    forall v | v in db.groups && v != id ensures ParentGraph(db')[v] == ParentGraph(db)[v] { }
    assert p in h;
    OneNodeChanged(ParentGraph(db), ParentGraph(db'), id, Elements(h));
  }

  lemma SameParentsSameGraph(db: DB, db': DB)
    requires db.groups.Keys == db'.groups.Keys && forall a :: a in db.groups ==> db.groups[a].parent == db'.groups[a].parent
    ensures ParentGraph(db) == ParentGraph(db')
  {
    forall v | v in db.groups ensures ParentGraph(db')[v] == ParentGraph(db)[v] { }
  }

  lemma MoveStaysGood(db: DB, id: string, p: string, name: string, visibility: Visibility)
    requires Good(db) && PlainName(name) && CanMove(db, id, p, name)
    requires db.groups[id].parent.kind.ProjectGroup?
    ensures Good(db.(groups := db.groups[id := Group(name, Parent(ProjectGroup, p), visibility)]))
  {
    hide Acyclic, HasPath, Under;
    var db' := db.(groups := db.groups[id := Group(name, Parent(ProjectGroup, p), visibility)]);
    var kept := name == db.groups[id].name && p == db.groups[id].parent.id;
    assert p in db.groups by { PathMeansStored(db, p); }
    assert SiblingsApart(db') by {
      hide GroupShape, IDsApart, OwnersNamed;
      OnlyOneNew(db, db', id);
    }
    assert Acyclic(ParentGraph(db')) by {
      hide GroupShape, IDsApart, OwnersNamed, SiblingsApart;
      if kept {
        SameParentsSameGraph(db, db');
      } else {
        MoveStaysAcyclic(db, id, p, db');
      }
    }
    forall a | a in db'.groups ensures GroupShape(db', db'.groups[a]) {
      assert GroupShape(db, db.groups[a]);
    }
  }

  lemma PathMeansStored(db: DB, p: string)
    requires HasPath(db, p)
    ensures p in db.groups
  {
    var h :| Rooted(db, p, h);
    assert h[|h| - 1] in db.groups;
  }

  lemma DeleteStaysGood(db: DB, id: string)
    requires Good(db) && id in db.groups
    ensures Good(WithoutGroup(db, id))
  {
    hide Acyclic;
    var db' := WithoutGroup(db, id);
    assert Acyclic(ParentGraph(db')) by {
      hide GroupShape, IDsApart, OwnersNamed, SiblingsApart;
      OneNodeChanged(ParentGraph(db), ParentGraph(db'), id, {});
    }
    assert SiblingsApart(db') by {
      forall a, b | a in db'.groups && NamedGroup(db', db'.groups[a].parent.id, db'.groups[a].name, b) ensures a == b {
        assert NamedGroup(db, db.groups[a].parent.id, db.groups[a].name, b);
      }
    }
    forall a | a in db'.groups ensures GroupShape(db', db'.groups[a]) {
      assert GroupShape(db, db.groups[a]);
    }
  }

  lemma NewNameIsApart(owners: map<string, string>, id: string, name: string)
    requires OwnersNamed(owners) && PlainName(name) && name !in owners.Values && id !in owners
    ensures OwnersNamed(owners[id := name])
  {
    assert forall o :: o in owners ==> owners[o] in owners.Values;
  }

  lemma OwnerKeepsShapes(db: DB, kind: Kind, ownerID: string, name: string, rootID: string, visibility: Visibility)
    requires Fresh(db, ownerID) && Fresh(db, rootID) && ownerID != rootID && (kind.Org? || kind.User?)
    requires forall a :: a in db.groups ==> GroupShape(db, db.groups[a])
    ensures var db' := WithOwner(db, kind, ownerID, name, rootID, visibility);
            forall a :: a in db'.groups ==> GroupShape(db', db'.groups[a])
  {
    var db' := WithOwner(db, kind, ownerID, name, rootID, visibility);
    forall a | a in db'.groups ensures GroupShape(db', db'.groups[a]) {
      if a != rootID { assert GroupShape(db, db.groups[a]); }
    }
  }

  lemma OwnerKeepsIDs(db: DB, kind: Kind, ownerID: string, name: string, rootID: string, visibility: Visibility)
    requires IDsApart(db) && OwnersNamed(db.orgs) && OwnersNamed(db.users)
    requires Fresh(db, ownerID) && Fresh(db, rootID) && ownerID != rootID && PlainName(name)
    requires (kind.Org? && name !in db.orgs.Values) || (kind.User? && name !in db.users.Values)
    ensures var db' := WithOwner(db, kind, ownerID, name, rootID, visibility);
            IDsApart(db') && OwnersNamed(db'.orgs) && OwnersNamed(db'.users)
  {
    hide OwnersNamed;
    if kind.Org? { NewNameIsApart(db.orgs, ownerID, name); } else { NewNameIsApart(db.users, ownerID, name); }
  }

  lemma OwnerKeepsTree(db: DB, kind: Kind, ownerID: string, name: string, rootID: string, visibility: Visibility)
    requires SiblingsApart(db) && Acyclic(ParentGraph(db))
    requires Fresh(db, ownerID) && Fresh(db, rootID) && (kind.Org? || kind.User?)
    ensures var db' := WithOwner(db, kind, ownerID, name, rootID, visibility);
            SiblingsApart(db') && Acyclic(ParentGraph(db'))
  {
    hide Acyclic, SiblingsApart;
    var db' := WithOwner(db, kind, ownerID, name, rootID, visibility);
    OneNodeChanged(ParentGraph(db), ParentGraph(db'), rootID, {});
    OnlyOneNew(db, db', rootID);
  }

  lemma OwnerStaysGood(db: DB, kind: Kind, ownerID: string, name: string, rootID: string, visibility: Visibility)
    requires Good(db) && Fresh(db, ownerID) && Fresh(db, rootID) && ownerID != rootID && PlainName(name)
    requires (kind.Org? && name !in db.orgs.Values) || (kind.User? && name !in db.users.Values)
    ensures Good(WithOwner(db, kind, ownerID, name, rootID, visibility))
  {
    hide Acyclic, SiblingsApart, IDsApart, OwnersNamed, GroupShape, Fresh, WithOwner;
    OwnerKeepsTree(db, kind, ownerID, name, rootID, visibility);
    OwnerKeepsIDs(db, kind, ownerID, name, rootID, visibility);
    OwnerKeepsShapes(db, kind, ownerID, name, rootID, visibility);
  }

  lemma RemoveOwnerStaysGood(db: DB, orgs: map<string, string>, users: map<string, string>)
    requires Good(db) && orgs.Keys <= db.orgs.Keys && users.Keys <= db.users.Keys
    requires (forall o :: o in orgs ==> orgs[o] == db.orgs[o]) && (forall u :: u in users ==> users[u] == db.users[u])
    ensures Good(DB(orgs, users, db.groups))
  {
    hide Acyclic;
    var db' := DB(orgs, users, db.groups);
    SameParentsSameGraph(db, db');
    forall a, b | a in db'.groups && NamedGroup(db', db'.groups[a].parent.id, db'.groups[a].name, b) ensures a == b {
      assert NamedGroup(db, db.groups[a].parent.id, db.groups[a].name, b);
    }
    forall a | a in db'.groups ensures GroupShape(db', db'.groups[a]) {
      assert GroupShape(db, db.groups[a]);
    }
  }

  lemma UpdateStaysGood(db: DB, isUuid: string -> bool, ref: string, req: Request)
    requires Good(db) && CanUpdate(db, isUuid, ref, req)
    ensures Good(Updated(db, ref, req))
  {
    hide Good, ByRef, ValidName, HasPath, Under, Taken;
    var id := ByRef(db, ref).id;
    if req.parent.kind.ProjectGroup? {
      ValidNamesArePlain(isUuid, req.name);
      MoveStaysGood(db, id, ByRef(db, req.parent.id).id, req.name, req.visibility);
    } else {
      RootStaysGood(db, id, req.visibility);
      RootHasNoName(db, id);
    }
  }

  lemma RootHasNoName(db: DB, id: string)
    requires Good(db) && id in db.groups && !db.groups[id].parent.kind.ProjectGroup?
    ensures db.groups[id].name == ""
  {
    assert GroupShape(db, db.groups[id]);
  }

  lemma RootStaysGood(db: DB, id: string, visibility: Visibility)
    requires Good(db) && id in db.groups
    ensures Good(db.(groups := db.groups[id := Group(db.groups[id].name, db.groups[id].parent, visibility)]))
  {
    hide Acyclic;
    var db' := db.(groups := db.groups[id := Group(db.groups[id].name, db.groups[id].parent, visibility)]);
    SameParentsSameGraph(db, db');
    OnlyOneNew(db, db', id);
    forall a | a in db'.groups ensures GroupShape(db', db'.groups[a]) {
      assert GroupShape(db, db.groups[a]);
    }
  }

  /** Every call keeps the table good: parents never cycle and siblings have different names. */
  lemma NextStaysGood(db: DB, isUuid: string -> bool, call: Call)
    requires Good(db) && IDsAreNew(db, call)
    ensures Good(Next(db, isUuid, call))
  {
    hide Good, Fresh, ByRef, ValidName, HasPath, PlainName, CanUpdate;
    match call
    case Create(newID, req) =>
      if CanCreate(db, isUuid, req) {
        ValidNamesArePlain(isUuid, req.name);
        PathMeansStored(db, ByRef(db, req.parent.id).id);
        CreateStaysGood(db, newID, ByRef(db, req.parent.id).id, req.name, req.visibility);
      }
    case Update(ref, req) =>
      if CanUpdate(db, isUuid, ref, req) { UpdateStaysGood(db, isUuid, ref, req); }
    case Delete(ref) =>
      if CanDelete(db, ref) { DeleteStaysGood(db, ByRef(db, ref).id); }
    case AddOwner(kind, ownerID, name, rootID, visibility) =>
      if CanAddOwner(db, isUuid, kind, name) {
        ValidNamesArePlain(isUuid, name);
        OwnerStaysGood(db, kind, ownerID, name, rootID, visibility);
      }
    case RemoveOwner(kind, ownerID) =>
      RemoveOwnerStaysGood(db, Next(db, isUuid, call).orgs, Next(db, isUuid, call).users);
  }

  lemma EmptyIsGood()
    ensures Good(DB(map[], map[], map[]))
  {
    var db := DB(map[], map[], map[]);
    assert ParentGraph(db) == map[];
  }

  /** Over every sequence of calls the groups form a forest with distinct sibling names. */
  lemma {:induction false} TreeStaysGood(dbs: seq<DB>, calls: seq<Call>, isUuid: string -> bool, i: nat)
    requires IsRun(dbs, calls, isUuid) && Good(dbs[0]) && i < |dbs|
    ensures Good(dbs[i])
  {
    hide Good, Next, IDsAreNew;
    if i > 0 {
      TreeStaysGood(dbs, calls, isUuid, i - 1);
      assert IDsAreNew(dbs[i - 1], calls[i - 1]) && dbs[i - 1 + 1] == Next(dbs[i - 1], isUuid, calls[i - 1]);
      NextStaysGood(dbs[i - 1], isUuid, calls[i - 1]);
    }
  }

  // ---------------------------------------------------------------- what a move does

  /** A rooted group that does not lie below `id` keeps its path. */
  lemma OthersKeepTheirPath(db: DB, id: string, p: string, name: string, visibility: Visibility, x: string, h: seq<string>)
    requires Good(db) && CanMove(db, id, p, name) && db.groups[id].parent.kind.ProjectGroup?
    requires Rooted(db, x, h) && !Under(db, x, id)
    ensures var db' := db.(groups := db.groups[id := Group(name, Parent(ProjectGroup, p), visibility)]);
            Rooted(db', x, h) && Parts(db', h) == Parts(db, h)
  {
    hide Good, Under;
    UnderMeansInHierarchy(db, x, h, id);
  }

  /** A group that lies below `id` gets the path of the new place, followed by the names it had below `id`. */
  lemma SubtreeMovesAlong(db: DB, id: string, p: string, hp: seq<string>, name: string, visibility: Visibility,
                          x: string, h: seq<string>, k: nat)
    requires Good(db) && CanMove(db, id, p, name) && db.groups[id].parent.kind.ProjectGroup?
    requires !Under(db, p, id) && Rooted(db, p, hp)
    requires Rooted(db, x, h) && k < |h| && h[k] == id
    ensures var db' := db.(groups := db.groups[id := Group(name, Parent(ProjectGroup, p), visibility)]);
            && Rooted(db', x, hp + h[k..])
            && Parts(db', hp + h[k..]) == Parts(db, hp) + [name] + Parts(db, h)[k + 2..]
  {
    hide Good, Under, HasPath, Taken;
    var db' := db.(groups := db.groups[id := Group(name, Parent(ProjectGroup, p), visibility)]);
    var e := hp + h[k..];
    UnderMeansInHierarchy(db, p, hp, id);
    forall i | k < i < |h| ensures h[i] != id && db.groups[h[i]].parent == Parent(ProjectGroup, h[i - 1]) {
      Link(db, x, h, i);
      NoRepeat(db, x, h, k, i);
    }
    forall i | 0 <= i < |e| - 1 ensures db'.groups[e[i + 1]].parent == Parent(ProjectGroup, e[i]) {
      if i + 1 < |hp| {
        Link(db, p, hp, i + 1);
      } else if i + 1 > |hp| {
        assert e[i + 1] == h[k + i + 1 - |hp|] && e[i] == h[k + i - |hp|];
      }
    }
    assert Parts(db', e) == Parts(db, hp) + [name] + Parts(db, h)[k + 2..];
  }

  lemma NoRepeat(db: DB, x: string, h: seq<string>, i: nat, j: nat)
    requires Hierarchy(db, x, h) && i < j < |h|
    ensures h[i] != h[j]
  {
    if h[i] == h[j] {
      assert Hierarchy(db, h[i], h[..i + 1]);
      assert Hierarchy(db, h[j], h[..j + 1]);
      HierarchyUnique(db, h[i], h[..i + 1], h[..j + 1]);
    }
  }

  // ---------------------------------------------------------------- orphans

  /** Deleting a group takes the path from the group itself and from every group below it, and from
      no other group. */
  lemma PathsAfterDelete(db: DB, id: string, x: string)
    ensures HasPath(WithoutGroup(db, id), x) <==> HasPath(db, x) && !Under(db, x, id)
  {
    hide Under;
    var db' := WithoutGroup(db, id);
    if HasPath(db', x) {
      var h :| Rooted(db', x, h);
      assert Rooted(db, x, h) && id !in h;
      UnderMeansInHierarchy(db, x, h, id);
    }
    if HasPath(db, x) && !Under(db, x, id) {
      var h :| Rooted(db, x, h);
      UnderMeansInHierarchy(db, x, h, id);
      assert Rooted(db', x, h);
    }
  }

  ghost predicate HasSubgroup(db: DB, id: string) {
    exists c :: c in db.groups && db.groups[c].parent == Parent(ProjectGroup, id)
  }

  /** What a caller can check before: the deletion of a group with a path takes the path of some
      other group exactly when the group has a subgroup. */
  lemma DeleteOrphansSubgroups(db: DB, id: string)
    requires HasPath(db, id)
    ensures (forall x :: x != id && HasPath(db, x) ==> HasPath(WithoutGroup(db, id), x)) <==> !HasSubgroup(db, id)
  {
    hide Under, HasPath;
    forall c | c in db.groups && db.groups[c].parent == Parent(ProjectGroup, id)
      ensures c != id && HasPath(db, c) && !HasPath(WithoutGroup(db, id), c)
    {
      ChildIsUnder(db, id, c);
      PathsAfterDelete(db, id, c);
    }
    forall x | x != id && HasPath(db, x) && !HasPath(WithoutGroup(db, id), x) ensures HasSubgroup(db, id) {
      PathsAfterDelete(db, id, x);
      UnderHasSubgroup(db, x, id);
    }
  }

  lemma ChildIsUnder(db: DB, id: string, c: string)
    requires HasPath(db, id) && c in db.groups && db.groups[c].parent == Parent(ProjectGroup, id)
    ensures c != id && HasPath(db, c) && Under(db, c, id)
  {
    hide Under;
    var h :| Rooted(db, id, h);
    RootedMore(db, id, h, c);
    var e := h + [c];
    NoRepeat(db, c, e, |h| - 1, |h|);
    UnderMeansInHierarchy(db, c, e, id);
    assert e[|h| - 1] == id;
  }

  lemma UnderHasSubgroup(db: DB, x: string, id: string)
    requires x != id && HasPath(db, x) && Under(db, x, id)
    ensures HasSubgroup(db, id)
  {
    hide Under;
    var h :| Rooted(db, x, h);
    UnderMeansInHierarchy(db, x, h, id);
    var k: nat :| k < |h| && h[k] == id;
    Link(db, x, h, k + 1);
  }

  /** The hierarchy of the group starts at a root group of this owner. */
  ghost predicate OwnedBy(db: DB, x: string, owner: Parent) {
    exists h :: Hierarchy(db, x, h) && db.groups[h[0]].parent == owner
  }

  /** Deleting an owner takes the path from all its groups, and from no other group. */
  lemma PathsAfterRemoveOwner(db: DB, owner: Parent, x: string)
    requires owner.kind.Org? || owner.kind.User?
    ensures HasPath(WithoutOwner(db, owner), x) <==> HasPath(db, x) && !OwnedBy(db, x, owner)
  {
    var db' := WithoutOwner(db, owner);
    if HasPath(db', x) {
      var h :| Rooted(db', x, h);
      assert Rooted(db, x, h);
      forall k | Hierarchy(db, x, k) ensures k == h { HierarchyUnique(db, x, h, k); }
    }
    if HasPath(db, x) && !OwnedBy(db, x, owner) {
      var h :| Rooted(db, x, h);
      assert Rooted(db', x, h);
    }
  }

  ghost predicate HasRootGroup(db: DB, owner: Parent) {
    exists r :: r in db.groups && db.groups[r].parent == owner
  }

  /** The deletion of a stored owner takes the path of some group exactly when the owner has a root group. */
  lemma RemoveOwnerOrphansGroups(db: DB, owner: Parent)
    requires HasOwner(db, owner)
    ensures (forall x :: HasPath(db, x) ==> HasPath(WithoutOwner(db, owner), x)) <==> !HasRootGroup(db, owner)
  {
    hide HasPath, WithoutOwner, OwnedBy;
    forall r | r in db.groups && db.groups[r].parent == owner ensures HasPath(db, r) && !HasPath(WithoutOwner(db, owner), r) {
      RootOfOwnerIsOwned(db, owner, r);
      PathsAfterRemoveOwner(db, owner, r);
    }
    forall x | HasPath(db, x) && !HasPath(WithoutOwner(db, owner), x) ensures HasRootGroup(db, owner) {
      PathsAfterRemoveOwner(db, owner, x);
      OwnedHasRoot(db, x, owner);
    }
  }

  /** Every stored owner has a root group: the one it was created with. */
  ghost predicate OwnersRooted(db: DB) {
    forall owner :: HasOwner(db, owner) ==> HasRootGroup(db, owner)
  }

  lemma RootsStay(db: DB, isUuid: string -> bool, call: Call)
    requires OwnersRooted(db) && IDsAreNew(db, call)
    ensures OwnersRooted(Next(db, isUuid, call))
  {
    hide ByRef, ValidName, HasPath, CanMove, Taken;
    var db' := Next(db, isUuid, call);
    forall owner | HasOwner(db', owner) ensures HasRootGroup(db', owner) {
      if HasOwner(db, owner) {
        var r :| r in db.groups && db.groups[r].parent == owner;
        assert r in db'.groups && db'.groups[r].parent == owner;
      } else {
        assert call.AddOwner? && db'.groups[call.rootID].parent == owner;
      }
    }
  }

  /** So, in every table that calls have led to, deleting an owner leaves groups without a path. */
  lemma {:induction false} RemoveOwnerAlwaysOrphans(dbs: seq<DB>, calls: seq<Call>, isUuid: string -> bool, i: nat)
    requires IsRun(dbs, calls, isUuid) && OwnersRooted(dbs[0]) && i < |dbs|
    ensures OwnersRooted(dbs[i])
    ensures forall owner :: HasOwner(dbs[i], owner) ==> exists x :: HasPath(dbs[i], x) && !HasPath(WithoutOwner(dbs[i], owner), x)
  {
    hide OwnersRooted, Next, IDsAreNew, HasPath, HasRootGroup, WithoutOwner, HasOwner;
    if i > 0 {
      RemoveOwnerAlwaysOrphans(dbs, calls, isUuid, i - 1);
      assert IDsAreNew(dbs[i - 1], calls[i - 1]) && dbs[i - 1 + 1] == Next(dbs[i - 1], isUuid, calls[i - 1]);
      RootsStay(dbs[i - 1], isUuid, calls[i - 1]);
    }
    forall owner | HasOwner(dbs[i], owner) ensures exists x :: HasPath(dbs[i], x) && !HasPath(WithoutOwner(dbs[i], owner), x) {
      RootedOwner(dbs[i], owner);
      RemoveOwnerOrphansGroups(dbs[i], owner);
    }
  }

  lemma RootedOwner(db: DB, owner: Parent)
    requires OwnersRooted(db) && HasOwner(db, owner)
    ensures HasRootGroup(db, owner)
  {
  }

  lemma RootOfOwnerIsOwned(db: DB, owner: Parent, r: string)
    requires HasOwner(db, owner) && r in db.groups && db.groups[r].parent == owner
    ensures HasPath(db, r) && OwnedBy(db, r, owner)
  {
    assert Rooted(db, r, [r]);
  }

  lemma OwnedHasRoot(db: DB, x: string, owner: Parent)
    requires OwnedBy(db, x, owner)
    ensures HasRootGroup(db, owner)
  {
  }

  /** A table with an organization, its root group, a group and a subgroup. */
  function Nested(): DB {
    DB(map["o" := "acme"], map[],
       map["r" := Group("", Parent(Org, "o"), Public),
           "g" := Group("tools", Parent(ProjectGroup, "r"), Public),
           "s" := Group("build", Parent(ProjectGroup, "g"), Public)])
  }

  lemma NestedTree()
    ensures Acyclic(ParentGraph(Nested()))
  {
    hide Acyclic;
    var g := ParentGraph(Nested());
    assert g.Keys == {"r", "g", "s"};
    assert g["r"] == {};
    assert g["g"] == {"r"};
    assert g["s"] == {"g"};
    LevellingMeansAcyclic(g, map["r" := 0, "g" := 1, "s" := 2]);
  }

  lemma NestedRows()
    ensures forall a :: a in Nested().groups ==> GroupShape(Nested(), Nested().groups[a])
    ensures SiblingsApart(Nested())
  {
  }

  lemma NestedIsGood()
    ensures Good(Nested())
  {
    hide Acyclic, GroupShape, SiblingsApart;
    NestedTree();
    NestedRows();
  }

  /** Deleting the group in the middle is accepted, and leaves the subgroup stored without a path. */
  lemma DeleteLeavesOrphan(isUuid: string -> bool)
    ensures Good(Nested()) && CanDelete(Nested(), "g") && HasPath(Nested(), "s")
    ensures var db' := Next(Nested(), isUuid, Delete("g"));
            "s" in db'.groups && !HasPath(db', "s")
  {
    hide Good, Under;
    var db := Nested();
    NestedIsGood();
    PlainRef("g");
    assert ByRef(db, "g") == Found("g");
    assert Rooted(db, "s", ["r", "g", "s"]);
    UnderMeansInHierarchy(db, "s", ["r", "g", "s"], "g");
    assert ["r", "g", "s"][1] == "g";
    PathsAfterDelete(db, "g", "s");
  }

  /** A group whose path is lost, because a group or owner above it was deleted, never gets one
      again: the handlers neither move such a group nor bring the missing row back. */
  lemma LostPathStaysLost(db: DB, isUuid: string -> bool, call: Call, x: string)
    requires Good(db) && IDsAreNew(db, call) && x in db.groups && !HasPath(db, x)
    ensures !HasPath(Next(db, isUuid, call), x)
  {
    if HasPath(Next(db, isUuid, call), x) {
      var h :| Rooted(Next(db, isUuid, call), x, h);
      PathWasThere(db, isUuid, call, x, h);
      assert false;
    }
  }

  /** Over every sequence of calls, an orphan stays without a path for as long as it is stored. */
  lemma {:induction false} OrphansStayOrphans(dbs: seq<DB>, calls: seq<Call>, isUuid: string -> bool, i: nat, j: nat, x: string)
    requires IsRun(dbs, calls, isUuid) && Good(dbs[0]) && i <= j < |dbs|
    requires forall k :: i <= k <= j ==> x in dbs[k].groups
    requires !HasPath(dbs[i], x)
    ensures !HasPath(dbs[j], x)
    decreases j - i
  {
    hide Good, Next, IDsAreNew, HasPath;
    if i < j {
      OrphansStayOrphans(dbs, calls, isUuid, i, j - 1, x);
      TreeStaysGood(dbs, calls, isUuid, j - 1);
      assert IDsAreNew(dbs[j - 1], calls[j - 1]) && dbs[j - 1 + 1] == Next(dbs[j - 1], isUuid, calls[j - 1]);
      assert x in dbs[j - 1].groups;
      LostPathStaysLost(dbs[j - 1], isUuid, calls[j - 1], x);
    }
  }

  lemma PathWasThere(db: DB, isUuid: string -> bool, call: Call, x: string, h: seq<string>)
    requires Good(db) && IDsAreNew(db, call) && x in db.groups && Rooted(Next(db, isUuid, call), x, h)
    ensures HasPath(db, x)
  {
    hide Good, ByRef, ValidName, HasPath, Under, Taken, PlainName;
    match call
    case Create(newID, req) => NewRowsAreNotAbove(db, Next(db, isUuid, call), newID, newID, x, h);
    case AddOwner(kind, ownerID, name, rootID, visibility) =>
      NewRowsAreNotAbove(db, Next(db, isUuid, call), rootID, ownerID, x, h);
    case Update(ref, req) =>
      if CanUpdate(db, isUuid, ref, req) {
        PathBeforeUpdate(db, isUuid, ref, req, x, h);
      } else {
        RootedHasPath(db, x, h);
      }
    case Delete(ref) => RootedInMore(db, Next(db, isUuid, call), x, h);
    case RemoveOwner(kind, ownerID) => RootedInMore(db, Next(db, isUuid, call), x, h);
  }

  lemma RootedHasPath(db: DB, x: string, h: seq<string>)
    requires Rooted(db, x, h)
    ensures HasPath(db, x)
  {
  }

  ghost predicate Includes(db: DB, db': DB) {
    && (forall a :: a in db'.groups ==> a in db.groups && db.groups[a] == db'.groups[a])
    && db'.orgs.Keys <= db.orgs.Keys && db'.users.Keys <= db.users.Keys
  }

  lemma RootedInMore(db: DB, db': DB, x: string, h: seq<string>)
    requires Includes(db, db') && Rooted(db', x, h)
    ensures HasPath(db, x)
  {
    assert Rooted(db, x, h);
  }

  /** A row with a new id cannot lie above a group that was there before. */
  lemma NewRowsAreNotAbove(db: DB, db': DB, newID: string, newOwner: string, x: string, h: seq<string>)
    requires Fresh(db, newID) && Fresh(db, newOwner) && x in db.groups && Rooted(db', x, h)
    requires forall a :: a in db'.groups && a != newID ==> a in db.groups && db.groups[a] == db'.groups[a]
    requires db'.orgs.Keys <= db.orgs.Keys + {newOwner} && db'.users.Keys <= db.users.Keys + {newOwner}
    ensures HasPath(db, x)
  {
    var i: nat := |h|;
    while i > 0
      invariant i <= |h| && forall k :: i <= k < |h| ==> h[k] in db.groups && h[k] != newID
    {
      if i < |h| { Link(db', x, h, i); }
      i := i - 1;
    }
    forall k | 0 <= k < |h| - 1 ensures db.groups[h[k + 1]].parent == Parent(ProjectGroup, h[k]) {
      Link(db', x, h, k + 1);
    }
    assert Rooted(db, x, h);
  }

  lemma PathBeforeUpdate(db: DB, isUuid: string -> bool, ref: string, req: Request, x: string, h: seq<string>)
    requires Good(db) && CanUpdate(db, isUuid, ref, req) && Rooted(Updated(db, ref, req), x, h)
    ensures HasPath(db, x)
  {
    hide Good, ByRef, ValidName, Under, Taken;
    var id, db' := ByRef(db, ref).id, Updated(db, ref, req);
    if id in h && req.parent.kind.ProjectGroup? {
      var k: nat :| k < |h| && h[k] == id;
      var above :| Rooted(db, db.groups[id].parent.id, above);
      RootedMore(db, db.groups[id].parent.id, above, id);
      RejoinBelow(db, db', id, above + [id], x, h, k);
    } else {
      assert Rooted(db, x, h);
    }
  }

  /** What lies below `id` is joined to a hierarchy of `id` in the other table. */
  lemma {:induction false} RejoinBelow(db: DB, db': DB, id: string, hid: seq<string>, x: string, h: seq<string>, k: nat)
    requires Rooted(db, id, hid) && Hierarchy(db', x, h) && k < |h| && h[k] == id
    requires forall a :: a in db'.groups && a != id ==> a in db.groups && db.groups[a] == db'.groups[a]
    ensures HasPath(db, x)
    decreases |h|
  {
    if k == |h| - 1 {
      assert x == id;
    } else {
      NoRepeat(db', x, h, k, |h| - 1);
      Link(db', x, h, |h| - 1);
      var p := h[|h| - 2];
      assert Hierarchy(db', p, h[..|h| - 1]);
      RejoinBelow(db, db', id, hid, p, h[..|h| - 1], k);
      var hp :| Rooted(db, p, hp);
      RootedMore(db, p, hp, x);
    }
  }
}
