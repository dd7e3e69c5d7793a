/** The project group handlers of the config store, and the lookups they use. */
module GroupActions {
  import opened RunTypes
  import opened Graph
  import opened Paths
  import opened GroupTree
  import opened GroupLookup
  import opened GroupRuns

  class ConfigStore {
    var orgs: map<string, string>
    var users: map<string, string>
    var groups: map<string, Group>
    const isUuid: string -> bool

    constructor (isUuid: string -> bool)
      ensures Db() == DB(map[], map[], map[]) && Good(Db()) && this.isUuid == isUuid
    {
      EmptyIsGood();
      orgs, users, groups := map[], map[], map[];
      this.isUuid := isUuid;
    }

    ghost function Db(): DB
      reads this
    {
      DB(orgs, users, groups)
    }

    // ---------------------------------------------------------------- lookups

    /** More than one row would be an error; in a good table there is at most one. */
    method GetProjectGroupByName(parentID: string, name: string) returns (r: Lookup)
      requires Good(Db())
      ensures r == ByName(Db(), parentID, name)
      ensures r.Found? ==> r.id in groups && groups[r.id].parent.id == parentID && groups[r.id].name == name
      ensures r.NotFound? <==> forall g :: g in groups ==> groups[g].parent.id != parentID || groups[g].name != name
      ensures !r.LookupFailed?
    {
      var rows := set g | g in groups && groups[g].parent.id == parentID && groups[g].name == name;
      AtMostOneRow(Db(), parentID, name, rows);
      if |rows| > 1 {
        return LookupFailed;
      }
      assert forall g :: g in groups && groups[g].parent.id == parentID && groups[g].name == name ==> g in rows;
      if |rows| == 0 {
        return NotFound;
      }
      var g :| g in rows;
      return Found(g);
    }

    static method GetOwnerByName(owners: map<string, string>, name: string) returns (r: Lookup)
      requires OwnersNamed(owners)
      ensures r == OwnerByName(owners, name)
    {
      var rows := set o | o in owners && owners[o] == name;
      assert forall o :: o in owners && owners[o] == name ==> o in rows;
      if rows == {} {
        return NotFound;
      }
      var o :| o in rows;
      OwnerIsNamed(owners, name, o);
      return Found(o);
    }

    method GetProjectGroupByPath(ref: string) returns (r: Lookup)
      requires Good(Db())
      ensures r == ByPath(Db(), ref)
    {
      var parts := Split(ref);
      if |parts| < 2 {
        return LookupFailed;
      }
      var owner: Lookup;
      if parts[0] == "org" {
        owner := GetOwnerByName(orgs, parts[1]);
      } else if parts[0] == "user" {
        owner := GetOwnerByName(users, parts[1]);
      } else {
        return LookupFailed;
      }
      if !owner.Found? {
        return LookupFailed;
      }
      r := WalkDown(owner.id, [""] + parts[2..]);
    }

    /** The loop over the names of a path, starting with the empty name of the root group. */
    method WalkDown(ownerID: string, names: seq<string>) returns (r: Lookup)
      requires Good(Db()) && |names| >= 1
      ensures r == Walk(Db(), ownerID, names)
    {
      hide *;
      var parentID := ownerID;
      r := NotFound;
      assert names[0..] == names;
      for i := 0 to |names|
        invariant i < |names| ==> Walk(Db(), ownerID, names) == Walk(Db(), parentID, names[i..])
        invariant i == |names| ==> r == Walk(Db(), ownerID, names)
      {
        r := GetProjectGroupByName(parentID, names[i]);
        WalkStep(Db(), parentID, names[i..]);
        assert names[i..][0] == names[i] && names[i..][1..] == names[i + 1..];
        if !r.Found? {
          return;
        }
        parentID := r.id;
      }
    }

    method GetProjectGroup(ref: string) returns (r: Lookup)
      requires Good(Db())
      ensures r == ByRef(Db(), ref)
    {
      match ParsePathRef(ref) {
        case RefError => r := LookupFailed;
        case RefID => r := if ref in groups then Found(ref) else NotFound;
        case RefPath => r := GetProjectGroupByPath(ref);
      }
    }

    /** Climbs to the root group. The loop ends because the good table has no cycle of parents;
        without a row for some parent there is no hierarchy. */
    method GetProjectGroupHierarchy(id: string) returns (h: Option<seq<string>>)
      requires Good(Db()) && id in groups
      ensures h.Some? ==> Hierarchy(Db(), id, h.value)
      ensures h.None? ==> forall k :: !Hierarchy(Db(), id, k)
    {
      hide Good, ByRef;
      var elements := [id];
      var cur := id;
      while groups[cur].parent.kind.ProjectGroup?
        invariant Climb(Db(), id, elements) && elements[0] == cur
        invariant |elements| <= |groups|
        decreases |groups| - |elements|
      {
        var r := GetProjectGroup(groups[cur].parent.id);
        ParentRefIsID(Db(), cur);
        if !r.Found? {
          NoHierarchyAbove(Db(), id, elements);
          return None;
        }
        ClimbHigher(Db(), id, elements, r.id);
        elements := [r.id] + elements;
        cur := r.id;
      }
      return Some(elements);
    }

    /** The path of a group; an error when something above the group is missing. */
    method GetProjectGroupPath(id: string) returns (p: Option<string>)
      requires Good(Db()) && id in groups
      ensures p.Some? <==> HasPath(Db(), id)
      ensures p.Some? ==> forall h :: Rooted(Db(), id, h) ==> p.value == Joined(Parts(Db(), h))
    {
      hide Good, Joined;
      var r := GetProjectGroupHierarchy(id);
      if r.None? {
        return None;
      }
      var h := r.value;
      var owner := groups[h[0]].parent;
      OneHierarchy(Db(), id, h);
      p := GetOwnerPath(owner);
      if p.None? {
        return;
      }
      var path := p.value;
      StartOfPath(Db(), id, h);
      for i := 0 to |h|
        invariant path == Joined(Parts(Db(), h)[..if i == 0 then 2 else i + 1])
      {
        MoreOfPath(Db(), id, h, i);
        path := JoinName(path, groups[h[i]].name);
      }
      assert Parts(Db(), h)[..|h| + 1] == Parts(Db(), h);
      return Some(path);
    }

    /** The path of a parent: an owner or a group. */
    method GetPath(parent: Parent) returns (p: Option<string>)
      requires Good(Db())
      ensures p.Some? <==> if parent.kind.ProjectGroup? then ByRef(Db(), parent.id).Found? && HasPath(Db(), ByRef(Db(), parent.id).id)
                           else HasOwner(Db(), parent)
      ensures p.Some? && parent.kind.ProjectGroup? ==>
                forall h :: Rooted(Db(), ByRef(Db(), parent.id).id, h) ==> p.value == Joined(Parts(Db(), h))
      ensures p.Some? && !parent.kind.ProjectGroup? ==> p.value == Joined(OwnerParts(Db(), parent))
    {
      hide Good, Joined, Parts, ByRef;
      if parent.kind.ProjectGroup? {
        var r := GetProjectGroup(parent.id);
        if !r.Found? {
          return None;
        }
        FoundIsStored(Db(), parent.id);
        p := GetProjectGroupPath(r.id);
      } else {
        p := GetOwnerPath(parent);
      }
    }

    /** The path of an organization or user. */
    method GetOwnerPath(owner: Parent) returns (p: Option<string>)
      requires Good(Db())
      ensures p.Some? <==> HasOwner(Db(), owner)
      ensures p.Some? ==> p.value == Joined(OwnerParts(Db(), owner))
      ensures p == if owner.kind == Org && owner.id in orgs then Some("org" + "/" + orgs[owner.id])
                   else if owner.kind == User && owner.id in users then Some("user" + "/" + users[owner.id]) else None
    {
      match owner.kind {
        case Org =>
          if owner.id !in orgs {
            return None;
          }
          TwoParts("org", orgs[owner.id]);
          NamesAreNotEmpty(orgs, owner.id);
          return Some(JoinName("org", orgs[owner.id]));
        case User =>
          if owner.id !in users {
            return None;
          }
          TwoParts("user", users[owner.id]);
          NamesAreNotEmpty(users, owner.id);
          return Some(JoinName("user", users[owner.id]));
        case _ =>
          return None;
      }
    }

    // ---------------------------------------------------------------- handlers

    method CreateProjectGroup(newID: string, req: Request) returns (ok: bool)
      requires Good(Db()) && Fresh(Db(), newID)
      modifies this`groups
      ensures ok <==> CanCreate(old(Db()), isUuid, req)
      ensures Db() == Next(old(Db()), isUuid, Create(newID, req)) && Good(Db())
      ensures if !ok then groups == old(groups) else
                && groups.Keys == old(groups).Keys + {newID} && (forall g :: g in old(groups) ==> groups[g] == old(groups)[g])
                && groups[newID].name == req.name && groups[newID].visibility == req.visibility
                && groups[newID].parent.kind == ProjectGroup && groups[newID].parent.id in old(groups)
                && ('/' !in req.parent.id && '%' !in req.parent.id ==> groups[newID].parent.id == req.parent.id)
    {
      hide Good, ByRef, ByName, ValidRequest, HasPath;
      NextStaysGood(Db(), isUuid, Create(newID, req));
      PlainFound(Db(), req.parent.id);
      if !ValidRequest(isUuid, req) {
        return false;
      }
      if !req.parent.kind.ProjectGroup? {
        return false;
      }
      var parent := GetProjectGroup(req.parent.id);
      if !parent.Found? {
        return false;
      }
      FoundIsStored(Db(), req.parent.id);
      var groupPath := GetProjectGroupPath(parent.id);
      if groupPath.None? {
        return false;
      }
      var duplicate := GetProjectGroupByName(parent.id, req.name);
      ByNameIsTaken(Db(), parent.id, req.name);
      if !duplicate.NotFound? {
        return false;
      }
      groups := groups[newID := Group(req.name, Parent(ProjectGroup, parent.id), req.visibility)];
      return true;
    }

    /** The string test on the two paths decides exactly whether the move is one into the group itself or
        below it, so that the accepted calls are those of CanUpdate. */
    method UpdateProjectGroup(ref: string, req: Request) returns (ok: bool)
      requires Good(Db())
      modifies this`groups
      ensures ok <==> CanUpdate(old(Db()), isUuid, ref, req)
      ensures Db() == Next(old(Db()), isUuid, Update(ref, req)) && Good(Db())
      ensures if !ok then groups == old(groups) else
                exists id :: id in old(groups) && ('/' !in ref && '%' !in ref ==> id == ref)
                  && groups.Keys == old(groups).Keys && (forall g :: g in old(groups) && g != id ==> groups[g] == old(groups)[g])
                  && groups[id].name == req.name && groups[id].visibility == req.visibility
                  && groups[id].parent.kind == old(groups)[id].parent.kind == req.parent.kind
                  && (if req.parent.kind == ProjectGroup then groups[id].parent.id in old(groups)
                      else groups[id].parent == old(groups)[id].parent && groups[id].name == "")
                  && ('/' !in req.parent.id && '%' !in req.parent.id ==> groups[id].parent.id == req.parent.id)
    {
      hide Good, ByRef, ByName, ValidRequest, HasPath, CanMove;
      NextStaysGood(Db(), isUuid, Update(ref, req));
      PlainFound(Db(), ref);
      PlainFound(Db(), req.parent.id);
      if !ValidRequest(isUuid, req) {
        return false;
      }
      var found := GetProjectGroup(ref);
      if !found.Found? {
        return false;
      }
      FoundIsStored(Db(), ref);
      var id := found.id;
      var group := groups[id];
      if group.parent.kind != req.parent.kind {
        return false;
      }
      var parent := req.parent;
      var name := req.name;
      RequestNames(isUuid, req);
      match group.parent.kind {
        case ProjectGroup =>
          var to := GetProjectGroup(req.parent.id);
          if !to.Found? {
            return false;
          }
          FoundIsStored(Db(), req.parent.id);
          parent := Parent(ProjectGroup, to.id);
        case _ =>
          if group.parent.id != req.parent.id {
            return false;
          }
          name := "";
      }
      ok := PathsAllowUpdate(id, parent, name);
      if !ok {
        return;
      }
      groups := groups[id := Group(name, parent, req.visibility)];
    }

    /** The part of the update that looks at the paths. */
    method PathsAllowUpdate(id: string, parent: Parent, name: string) returns (ok: bool)
      requires Good(Db()) && id in groups && groups[id].parent.kind == parent.kind && '/' !in name
      requires if parent.kind.ProjectGroup? then name != "" && parent.id in groups else name == "" && parent == groups[id].parent
      ensures ok <==> if parent.kind.ProjectGroup? then CanMove(Db(), id, parent.id, name) else HasOwner(Db(), parent)
    {
      hide Good, Joined, Parts, ByName, ByRef, HasPath, Under, CanMove, PlainID, Taken;
      ghost var db := Db();
      var group := groups[id];
      ShapeOfGood(db, id);
      ParentRefIsID(db, id);
      if parent.id in groups { StoredRefIsID(db, parent.id); }
      if group.parent.id !in groups { NotStoredNoPath(db, group.parent.id); }
      MoveMeans(db, id, parent.id, name);
      var curParentPath := GetPath(group.parent);
      if curParentPath.None? {
        return false;
      }
      var curPath := JoinName(curParentPath.value, group.name);
      var parentPath := GetPath(parent);
      if parentPath.None? {
        return false;
      }
      var newPath := JoinName(parentPath.value, name);
      if group.name != name || group.parent.id != parent.id {
        var duplicate := GetProjectGroupByName(parent.id, name);
        ByNameIsTaken(db, parent.id, name);
        if !duplicate.NotFound? {
          return false;
        }
        PrefixTestDecides(db, id, parent.id, name, curParentPath.value, parentPath.value);
        if curPath + "/" <= newPath {
          return false;
        }
      }
      return true;
    }

    method DeleteProjectGroup(ref: string) returns (ok: bool)
      requires Good(Db())
      modifies this`groups
      ensures ok <==> CanDelete(old(Db()), ref)
      ensures Db() == Next(old(Db()), isUuid, Delete(ref)) && Good(Db())
      ensures if !ok then groups == old(groups) else
                exists id :: id in old(groups) && old(groups)[id].parent.kind == ProjectGroup && groups == old(groups) - {id}
                  && ('/' !in ref && '%' !in ref ==> id == ref)
    {
      hide Good, ByRef;
      NextStaysGood(Db(), isUuid, Delete(ref));
      PlainFound(Db(), ref);
      var found := GetProjectGroup(ref);
      if !found.Found? {
        return false;
      }
      FoundIsStored(Db(), ref);
      ShapeOfGood(Db(), found.id);
      if groups[found.id].parent.kind.Org? || groups[found.id].parent.kind.User? {
        return false;
      }
      groups := groups - {found.id};
      return true;
    }
  }

  // ---------------------------------------------------------------- lemmas of the lookups

  lemma AtMostOneRow(db: DB, parentID: string, name: string, rows: set<string>)
    requires SiblingsApart(db) && forall g :: g in rows <==> NamedGroup(db, parentID, name, g)
    ensures |rows| <= 1
    ensures forall g :: g in rows ==> ByName(db, parentID, name) == Found(g)
    ensures rows == {} ==> ByName(db, parentID, name) == NotFound
  {
    if g :| g in rows {
      assert rows == {g};
    }
  }

  lemma OwnerIsNamed(owners: map<string, string>, name: string, o: string)
    requires OwnersNamed(owners) && o in owners && owners[o] == name
    ensures OwnerByName(owners, name) == Found(o)
  {
  }

  lemma ByNameIsTaken(db: DB, parentID: string, name: string)
    ensures ByName(db, parentID, name).NotFound? <==> !Taken(db, parentID, name)
  {
  }

  /** The stored id of a parent is always read as an id, never as a path. */
  lemma ParentRefIsID(db: DB, g: string)
    requires Good(db) && g in db.groups
    ensures ByRef(db, db.groups[g].parent.id) ==
            if db.groups[g].parent.id in db.groups then Found(db.groups[g].parent.id) else NotFound
  {
    hide Acyclic, SiblingsApart, IDsApart, OwnersNamed;
    assert GroupShape(db, db.groups[g]);
    PlainRef(db.groups[g].parent.id);
  }

  lemma StoredRefIsID(db: DB, g: string)
    requires Good(db) && g in db.groups
    ensures ByRef(db, g) == Found(g)
  {
    PlainRef(g);
  }

  lemma ShapeOfGood(db: DB, g: string)
    requires Good(db) && g in db.groups
    ensures !db.groups[g].parent.kind.Other?
    ensures if db.groups[g].parent.kind.ProjectGroup? then PlainName(db.groups[g].name) else db.groups[g].name == ""
  {
    assert GroupShape(db, db.groups[g]);
  }

  lemma ClimbHigher(db: DB, id: string, e: seq<string>, above: string)
    requires Good(db) && Climb(db, id, e) && above in db.groups && db.groups[e[0]].parent == Parent(ProjectGroup, above)
    ensures Climb(db, id, [above] + e) && |[above] + e| <= |db.groups|
  {
    var e' := [above] + e;
    forall i | 0 <= i < |e'| - 1 ensures db.groups[e'[i + 1]].parent == Parent(ProjectGroup, e'[i]) {
      if i > 0 { Link(db, id, e, i); }
    }
    ClimbIsBounded(db, id, e');
  }

  lemma NoHierarchyAbove(db: DB, id: string, e: seq<string>)
    requires Climb(db, id, e) && db.groups[e[0]].parent.kind.ProjectGroup? && db.groups[e[0]].parent.id !in db.groups
    ensures forall k :: !Hierarchy(db, id, k)
  {
    forall k ensures !Hierarchy(db, id, k) {
      if Hierarchy(db, id, k) {
        ClimbWithinHierarchy(db, id, e, k);
        ClimbsAgree(db, id, e, k);
        if |e| < |k| { Link(db, id, k, |k| - |e|); }
      }
    }
  }

  lemma OneHierarchy(db: DB, id: string, h: seq<string>)
    requires Hierarchy(db, id, h)
    ensures HasPath(db, id) <==> HasOwner(db, db.groups[h[0]].parent)
    ensures forall k :: Rooted(db, id, k) ==> k == h
  {
    forall k | Rooted(db, id, k) ensures k == h { HierarchyUnique(db, id, h, k); }
    if HasOwner(db, db.groups[h[0]].parent) { assert Rooted(db, id, h); }
  }

  lemma NotStoredNoPath(db: DB, id: string)
    requires id !in db.groups
    ensures !HasPath(db, id)
  {
    if HasPath(db, id) { PathMeansStored(db, id); }
  }

  lemma TwoParts(word: string, name: string)
    ensures Joined([word, name]) == word + "/" + name
  {
    assert [word, name][..1] == [word];
  }

  lemma NamesAreNotEmpty(owners: map<string, string>, id: string)
    requires OwnersNamed(owners) && id in owners
    ensures owners[id] != ""
  {
  }

  lemma StartOfPath(db: DB, id: string, h: seq<string>)
    requires Rooted(db, id, h)
    ensures Parts(db, h)[..2] == OwnerParts(db, db.groups[h[0]].parent)
  {
  }

  /** One more round of the loop: the root group adds nothing, every other group its name. */
  lemma MoreOfPath(db: DB, id: string, h: seq<string>, i: nat)
    requires Good(db) && Rooted(db, id, h) && i < |h|
    ensures JoinName(Joined(Parts(db, h)[..if i == 0 then 2 else i + 1]), db.groups[h[i]].name)
            == Joined(Parts(db, h)[..i + 2])
  {
    hide Acyclic, SiblingsApart, IDsApart, OwnersNamed, Joined;
    assert GroupShape(db, db.groups[h[i]]);
    if i > 0 {
      Link(db, id, h, i);
      OneMorePart(Parts(db, h), i + 1);
      assert Parts(db, h)[i + 1] == db.groups[h[i]].name;
    }
  }

  lemma OneMorePart(parts: seq<string>, n: nat)
    requires 1 <= n < |parts|
    ensures Joined(parts[..n + 1]) == Joined(parts[..n]) + "/" + parts[n]
  {
    assert parts[..n + 1][..n] == parts[..n];
  }

  lemma RequestNames(isUuid: string -> bool, req: Request)
    requires ValidRequest(isUuid, req)
    ensures '/' !in req.name && (req.name == "" <==> !req.parent.kind.ProjectGroup?)
  {
    if req.parent.kind.ProjectGroup? { ValidNamesArePlain(isUuid, req.name); }
  }

  lemma MoveMeans(db: DB, id: string, p: string, name: string)
    requires id in db.groups
    ensures CanMove(db, id, p, name) <==>
            && HasPath(db, db.groups[id].parent.id) && HasPath(db, p)
            && ((name == db.groups[id].name && p == db.groups[id].parent.id) || (!Taken(db, p, name) && !Under(db, p, id)))
  {
  }

  /** What the two strings of the update are, and what comparing them means. */
  lemma PrefixTestDecides(db: DB, id: string, p: string, name: string, curParentPath: string, parentPath: string)
    requires Good(db) && id in db.groups && db.groups[id].parent.kind.ProjectGroup? && p in db.groups
    requires HasPath(db, db.groups[id].parent.id) && HasPath(db, p) && name != "" && '/' !in name
    requires forall h :: Rooted(db, db.groups[id].parent.id, h) ==> curParentPath == Joined(Parts(db, h))
    requires forall h :: Rooted(db, p, h) ==> parentPath == Joined(Parts(db, h))
    ensures JoinName(curParentPath, db.groups[id].name) + "/" <= JoinName(parentPath, name) <==> Under(db, p, id)
  {
    hide Good, Joined, Parts, Under;
    var q := db.groups[id].parent.id;
    var hq :| Rooted(db, q, hq);
    var hp :| Rooted(db, p, hp);
    RootedMore(db, q, hq, id);
    ShapeOfGood(db, id);
    OneMorePart(Parts(db, hq) + [db.groups[id].name], |Parts(db, hq)|);
    assert (Parts(db, hq) + [db.groups[id].name])[..|Parts(db, hq)|] == Parts(db, hq);
    OneMorePart(Parts(db, hp) + [name], |Parts(db, hp)|);
    assert (Parts(db, hp) + [name])[..|Parts(db, hp)|] == Parts(db, hp);
    TakeAll(Parts(db, hq) + [db.groups[id].name]);
    TakeAll(Parts(db, hp) + [name]);
    PrefixTestIsExact(db, id, hq + [id], p, hp, name);
  }

  lemma TakeAll(s: seq<string>)
    ensures s[..|s|] == s
  {
  }
}
