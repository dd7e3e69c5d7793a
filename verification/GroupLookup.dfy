/** Finding a project group by a reference: its id or its path. */
module GroupLookup {
  import opened Paths
  import opened Graph
  import opened GroupTree

  datatype Lookup = Found(id: string) | NotFound | LookupFailed

  /** The group with this parent and name; in a good table there is at most one. */
  ghost function ByName(db: DB, parentID: string, name: string): Lookup {
    if exists g :: NamedGroup(db, parentID, name, g) then
      var g :| NamedGroup(db, parentID, name, g);
      Found(g)
    else NotFound
  }

  /** Goes down from one parent by names. */
  ghost function Walk(db: DB, parentID: string, names: seq<string>): Lookup
    requires |names| >= 1
    decreases |names|
  {
    var first := ByName(db, parentID, names[0]);
    if |names| == 1 || !first.Found? then first else Walk(db, first.id, names[1..])
  }

  /** The id of the organization or user with this name. */
  ghost function OwnerByName(owners: map<string, string>, name: string): Lookup {
    if exists id :: id in owners && owners[id] == name then
      var id :| id in owners && owners[id] == name;
      Found(id)
    else NotFound
  }

  ghost function OwnersOf(db: DB, word: string): map<string, string> {
    if word == "org" then db.orgs else if word == "user" then db.users else map[]
  }

  /** The root group of the owner has the empty name. An unknown owner is an error, an unknown
      group is not. */
  ghost function ByPath(db: DB, ref: string): Lookup {
    var parts := Split(ref);
    if |parts| < 2 then LookupFailed
    else
      var owner := OwnerByName(OwnersOf(db, parts[0]), parts[1]);
      if !owner.Found? then LookupFailed else Walk(db, owner.id, [""] + parts[2..])
  }

  ghost function ByRef(db: DB, ref: string): Lookup {
    match ParsePathRef(ref)
    case RefError => LookupFailed
    case RefID => if ref in db.groups then Found(ref) else NotFound
    case RefPath => ByPath(db, ref)
  }

  /** A reference without slash and percent sign is an id. */
  lemma PlainFound(db: DB, ref: string)
    ensures '/' !in ref && '%' !in ref ==> ByRef(db, ref) == if ref in db.groups then Found(ref) else NotFound
  {
    if '/' !in ref && '%' !in ref { PlainRef(ref); }
  }

  lemma FoundIsStored(db: DB, ref: string)
    requires ByRef(db, ref).Found?
    ensures ByRef(db, ref).id in db.groups
  {
    if ParsePathRef(ref) == RefPath {
      var parts := Split(ref);
      WalkIsStored(db, OwnerByName(OwnersOf(db, parts[0]), parts[1]).id, [""] + parts[2..]);
    }
  }

  lemma {:induction false} WalkIsStored(db: DB, parentID: string, names: seq<string>)
    requires |names| >= 1 && Walk(db, parentID, names).Found?
    ensures Walk(db, parentID, names).id in db.groups
    decreases |names|
  {
    if |names| > 1 { WalkIsStored(db, ByName(db, parentID, names[0]).id, names[1..]); }
  }

  // ---------------------------------------------------------------- paths find their groups

  /** Going down by names from a rooted group ends at a group exactly when the names continue its path. */
  lemma {:induction false} WalkFollowsNames(db: DB, p: string, hp: seq<string>, names: seq<string>, id: string)
    requires Good(db) && Rooted(db, p, hp) && |names| >= 1
    ensures Walk(db, p, names) == Found(id) <==> IsPathOf(db, Parts(db, hp) + names, id)
    decreases |names|
  {
    hide Good, ByName, Walk, Parts;
    WalkStep(db, p, names);
    if ByName(db, p, names[0]).Found? {
      var g := ByName(db, p, names[0]).id;
      ChildNamed(db, p, hp, names[0], g);
      assert names == [names[0]] + names[1..];
      if |names| == 1 {
        ChildIsLast(db, p, hp, names[0], g, id);
      } else {
        WalkFollowsNames(db, g, hp + [g], names[1..], id);
        assert Parts(db, hp + [g]) + names[1..] == Parts(db, hp) + names;
      }
    } else {
      forall h | Rooted(db, id, h) ensures Parts(db, h) != Parts(db, hp) + names {
        if Parts(db, h) == Parts(db, hp) + names { NextOnPath(db, p, hp, id, h, names); }
      }
    }
  }

  lemma WalkStep(db: DB, p: string, names: seq<string>)
    requires |names| >= 1
    ensures Walk(db, p, names) ==
            var first := ByName(db, p, names[0]);
            if |names| == 1 || !first.Found? then first else Walk(db, first.id, names[1..])
    ensures ByName(db, p, names[0]).Found? || ByName(db, p, names[0]).NotFound?
  {
  }

  /** A group named below a group is its child: root groups lie below owners only. */
  lemma ChildNamed(db: DB, p: string, hp: seq<string>, name: string, g: string)
    requires Good(db) && Rooted(db, p, hp) && ByName(db, p, name) == Found(g)
    ensures Rooted(db, g, hp + [g]) && Parts(db, hp + [g]) == Parts(db, hp) + [name]
  {
    assert GroupShape(db, db.groups[g]);
    RootedMore(db, p, hp, g);
  }

  lemma ChildIsLast(db: DB, p: string, hp: seq<string>, name: string, g: string, id: string)
    requires Good(db) && Rooted(db, p, hp)
    requires Rooted(db, g, hp + [g]) && Parts(db, hp + [g]) == Parts(db, hp) + [name]
    ensures g == id <==> IsPathOf(db, Parts(db, hp) + [name], id)
  {
    hide Good, Parts;
    forall h | Rooted(db, id, h) && Parts(db, h) == Parts(db, hp) + [name] ensures g == id {
      PathsAreUnique(db, id, h, g, hp + [g]);
    }
  }

  /** A hierarchy whose path continues that of `p` passes through `p` and a child with the next name. */
  lemma NextOnPath(db: DB, p: string, hp: seq<string>, id: string, h: seq<string>, names: seq<string>)
    requires Good(db) && Rooted(db, p, hp) && Rooted(db, id, h) && |names| >= 1 && Parts(db, h) == Parts(db, hp) + names
    ensures ByName(db, p, names[0]).Found?
  {
    hide Good, ByName;
    var n := |hp|;
    RootedPrefix(db, id, h, n);
    assert Parts(db, h)[..n + 1] == Parts(db, hp);
    PathsAreUnique(db, h[n - 1], h[..n], p, hp);
    Link(db, id, h, n);
    assert Parts(db, h)[n + 1] == names[0] == db.groups[h[n]].name;
    IsNamed(db, p, names[0], h[n]);
  }

  lemma IsNamed(db: DB, p: string, name: string, g: string)
    requires Good(db) && NamedGroup(db, p, name, g)
    ensures ByName(db, p, name) == Found(g)
  {
  }

  /** The reference by path finds a group exactly when it is the path of that group. */
  lemma PathFindsItsGroup(db: DB, ref: string, id: string)
    requires Good(db) && '/' in ref && '%' !in ref
    ensures ByRef(db, ref) == Found(id) <==> exists h :: Rooted(db, id, h) && Joined(Parts(db, h)) == ref
  {
    hide Good, Joined, Parts, Split, ByPath;
    PlainRef(ref);
    JoinedOfSplit(ref);
    PathOfParts(db, ref, id);
    forall h | Rooted(db, id, h) ensures Joined(Parts(db, h)) == ref <==> Parts(db, h) == Split(ref) {
      PartsAreSlashFree(db, id, h);
      SplitOfJoined(Parts(db, h));
    }
  }

  lemma PathOfParts(db: DB, ref: string, id: string)
    requires Good(db)
    ensures ByPath(db, ref) == Found(id) <==> IsPathOf(db, Split(ref), id)
  {
    hide Good, Joined, Split, Walk, Parts;
    var parts := Split(ref);
    forall h | Rooted(db, id, h) && Parts(db, h) == parts ensures ByPath(db, ref) == Found(id) {
      OwnerOnPath(db, id, h);
      WalkFromOwner(db, parts, id);
    }
    if ByPath(db, ref) == Found(id) {
      WalkFromOwner(db, parts, id);
    }
  }

  lemma OwnerOnPath(db: DB, id: string, h: seq<string>)
    requires Good(db) && Rooted(db, id, h)
    ensures |Parts(db, h)| >= 2
    ensures var owners := OwnersOf(db, Parts(db, h)[0]);
            OwnerByName(owners, Parts(db, h)[1]) == Found(db.groups[h[0]].parent.id)
  {
    hide Acyclic, SiblingsApart, IDsApart, GroupShape;
    var o := db.groups[h[0]].parent;
    assert Parts(db, h)[0] == OwnerParts(db, o)[0] && Parts(db, h)[1] == OwnerParts(db, o)[1];
    assert "org"[0] != "user"[0];
  }

  /** The walk from an owner, starting at its root group. */
  lemma WalkFromOwner(db: DB, parts: seq<string>, id: string)
    requires Good(db) && |parts| >= 2 && OwnerByName(OwnersOf(db, parts[0]), parts[1]).Found?
    ensures Walk(db, OwnerByName(OwnersOf(db, parts[0]), parts[1]).id, [""] + parts[2..]) == Found(id)
            <==> IsPathOf(db, parts, id)
  {
    hide Good, Walk, ByName;
    var o := OwnerByName(OwnersOf(db, parts[0]), parts[1]).id;
    var names := [""] + parts[2..];
    assert names[1..] == parts[2..];
    WalkStep(db, o, names);
    if ByName(db, o, "").Found? {
      var root := ByName(db, o, "").id;
      RootOfOwner(db, parts[0], parts[1], root);
      if |parts| == 2 {
        assert parts == [parts[0], parts[1]];
        forall h | Rooted(db, id, h) && Parts(db, h) == parts ensures id == root {
          PathsAreUnique(db, id, h, root, [root]);
        }
      } else {
        WalkFollowsNames(db, root, [root], parts[2..], id);
        assert parts == [parts[0], parts[1]] + parts[2..];
      }
    } else {
      forall h | Rooted(db, id, h) ensures Parts(db, h) != parts {
        if Parts(db, h) == parts { RootIsNamed(db, id, h); }
      }
    }
  }

  lemma RootOfOwner(db: DB, word: string, name: string, root: string)
    requires Good(db) && OwnerByName(OwnersOf(db, word), name).Found?
    requires ByName(db, OwnerByName(OwnersOf(db, word), name).id, "") == Found(root)
    ensures Rooted(db, root, [root]) && Parts(db, [root]) == [word, name]
  {
    hide Acyclic, SiblingsApart;
    assert GroupShape(db, db.groups[root]);
  }

  lemma RootIsNamed(db: DB, id: string, h: seq<string>)
    requires Good(db) && Rooted(db, id, h)
    ensures OwnerByName(OwnersOf(db, Parts(db, h)[0]), Parts(db, h)[1]).Found?
    ensures ByName(db, OwnerByName(OwnersOf(db, Parts(db, h)[0]), Parts(db, h)[1]).id, "").Found?
  {
    hide Acyclic, IDsApart, Parts, OwnerByName, ByName;
    OwnerOnPath(db, id, h);
    assert GroupShape(db, db.groups[h[0]]);
    IsNamed(db, db.groups[h[0]].parent.id, "", h[0]);
  }
}
