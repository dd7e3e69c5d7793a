/** The tree of project groups: which group tables are good, what a path is, and what it means
    to be inside a group. The handlers that change the table are in module GroupActions. */
module GroupTree {
  import opened Graph
  import opened Paths

  datatype Kind = ProjectGroup | Org | User | Other

  datatype Parent = Parent(kind: Kind, id: string)

  datatype Visibility = Public | Private | Invalid

  datatype Group = Group(name: string, parent: Parent, visibility: Visibility)

  /** Organization and user names by id, and the project groups by id. */
  datatype DB = DB(orgs: map<string, string>, users: map<string, string>, groups: map<string, Group>)

  // ---------------------------------------------------------------- good tables

  ghost predicate PlainName(s: string) {
    s != "" && '/' !in s && '%' !in s
  }

  ghost predicate PlainID(s: string) {
    '/' !in s && '%' !in s
  }

  ghost predicate NamedGroup(db: DB, parentID: string, name: string, g: string) {
    g in db.groups && db.groups[g].parent.id == parentID && db.groups[g].name == name
  }

  ghost predicate SiblingsApart(db: DB) {
    forall a, b :: a in db.groups && NamedGroup(db, db.groups[a].parent.id, db.groups[a].name, b) ==> a == b
  }

  ghost predicate GroupShape(db: DB, g: Group) {
    && (g.parent.kind.ProjectGroup? ==> PlainName(g.name) && g.parent.id !in db.orgs && g.parent.id !in db.users)
    && (g.parent.kind.Org? ==> g.name == "" && g.parent.id !in db.users && g.parent.id !in db.groups)
    && (g.parent.kind.User? ==> g.name == "" && g.parent.id !in db.orgs && g.parent.id !in db.groups)
    && !g.parent.kind.Other?
    && PlainID(g.parent.id)
  }

  ghost predicate OwnersNamed(owners: map<string, string>) {
    && (forall id :: id in owners ==> PlainName(owners[id]))
    && (forall a, b :: a in owners && b in owners && owners[a] == owners[b] ==> a == b)
  }

  /** An edge leads from a group to its parent group, as long as that one is still there. */
  ghost function ParentGraph(db: DB): Graph<string> {
    map a | a in db.groups :: set b | b in db.groups && db.groups[a].parent == Parent(ProjectGroup, b)
  }

  ghost predicate IDsApart(db: DB) {
    && db.orgs.Keys !! db.users.Keys && db.orgs.Keys !! db.groups.Keys && db.users.Keys !! db.groups.Keys
    && forall a :: a in db.groups ==> PlainID(a)
  }

  ghost predicate Good(db: DB) {
    && IDsApart(db)
    && OwnersNamed(db.orgs) && OwnersNamed(db.users)
    && (forall a :: a in db.groups ==> GroupShape(db, db.groups[a]))
    && SiblingsApart(db)
    && Acyclic(ParentGraph(db))
  }

  /** A newly generated id occurs nowhere in the tables, also not as the parent of an orphan. */
  ghost predicate Fresh(db: DB, id: string) {
    && PlainID(id) && id !in db.orgs && id !in db.users && id !in db.groups
    && forall a :: a in db.groups ==> db.groups[a].parent.id != id
  }

  // ---------------------------------------------------------------- hierarchies

  /** `e` leads down to `id`, each group being the parent of the next one. */
  ghost predicate Climb(db: DB, id: string, e: seq<string>) {
    && |e| >= 1 && e[|e| - 1] == id
    && (forall i :: 0 <= i < |e| ==> e[i] in db.groups)
    && (forall i :: 0 <= i < |e| - 1 ==> db.groups[e[i + 1]].parent == Parent(ProjectGroup, e[i]))
  }

  lemma Link(db: DB, id: string, e: seq<string>, i: nat)
    requires Climb(db, id, e) && 0 < i < |e|
    ensures db.groups[e[i]].parent == Parent(ProjectGroup, e[i - 1])
  {
    assert db.groups[e[i - 1 + 1]].parent == Parent(ProjectGroup, e[i - 1]);
  }

  /** The hierarchy of a group starts at a root group. */
  ghost predicate Hierarchy(db: DB, id: string, h: seq<string>) {
    Climb(db, id, h) && !db.groups[h[0]].parent.kind.ProjectGroup?
  }

  ghost predicate HasOwner(db: DB, p: Parent) {
    (p.kind.Org? && p.id in db.orgs) || (p.kind.User? && p.id in db.users)
  }

  ghost predicate Rooted(db: DB, id: string, h: seq<string>) {
    Hierarchy(db, id, h) && HasOwner(db, db.groups[h[0]].parent)
  }

  ghost predicate HasPath(db: DB, id: string) {
    exists h :: Rooted(db, id, h)
  }

  function OwnerParts(db: DB, p: Parent): seq<string>
    requires HasOwner(db, p)
  {
    if p.kind.Org? then ["org", db.orgs[p.id]] else ["user", db.users[p.id]]
  }

  function NamesBelow(db: DB, h: seq<string>): seq<string>
    requires |h| >= 1 && forall i :: 0 <= i < |h| ==> h[i] in db.groups
  {
    seq(|h| - 1, i requires 0 <= i < |h| - 1 => db.groups[h[i + 1]].name)
  }

  /** The parts of the path of a hierarchy: its owner, then the names below the root group. */
  function Parts(db: DB, h: seq<string>): (parts: seq<string>)
    requires |h| >= 1 && (forall i :: 0 <= i < |h| ==> h[i] in db.groups) && HasOwner(db, db.groups[h[0]].parent)
    ensures |parts| == |h| + 1
  {
    OwnerParts(db, db.groups[h[0]].parent) + NamesBelow(db, h)
  }

  ghost predicate IsPathOf(db: DB, parts: seq<string>, id: string) {
    exists h :: Rooted(db, id, h) && Parts(db, h) == parts
  }

  lemma RootedPrefix(db: DB, id: string, h: seq<string>, n: nat)
    requires Rooted(db, id, h) && 0 < n <= |h|
    ensures Rooted(db, h[n - 1], h[..n]) && Parts(db, h[..n]) == Parts(db, h)[..n + 1]
  {
  }

  lemma RootedMore(db: DB, id: string, h: seq<string>, child: string)
    requires Rooted(db, id, h) && child in db.groups && db.groups[child].parent == Parent(ProjectGroup, id)
    ensures Rooted(db, child, h + [child]) && Parts(db, h + [child]) == Parts(db, h) + [db.groups[child].name]
  {
    var e := h + [child];
    forall i | 0 <= i < |e| - 1 ensures db.groups[e[i + 1]].parent == Parent(ProjectGroup, e[i]) {
      if i + 1 < |h| { assert e[i + 1] == h[i + 1] && e[i] == h[i]; }
    }
  }

  lemma RootedAbove(db: DB, id: string, h: seq<string>)
    requires Rooted(db, id, h) && |h| >= 2
    ensures db.groups[id].parent.kind.ProjectGroup? && Rooted(db, db.groups[id].parent.id, h[..|h| - 1])
  {
    Link(db, id, h, |h| - 1);
    RootedPrefix(db, id, h, |h| - 1);
  }

  lemma PartsAreSlashFree(db: DB, id: string, h: seq<string>)
    requires Good(db) && Rooted(db, id, h)
    ensures SlashFree(Parts(db, h))
  {
    hide Acyclic, SiblingsApart, IDsApart;
    forall i | 0 <= i < |Parts(db, h)| ensures '/' !in Parts(db, h)[i] {
      if i >= 2 {
        Link(db, id, h, i - 1);
        assert Parts(db, h)[i] == db.groups[h[i - 1]].name;
        assert GroupShape(db, db.groups[h[i - 1]]);
      }
    }
  }

  /** Two climbs from the same group agree as far as the shorter one goes. */
  lemma {:induction false} ClimbsAgree(db: DB, id: string, e: seq<string>, k: seq<string>)
    requires Climb(db, id, e) && Climb(db, id, k) && |e| <= |k|
    ensures e == k[|k| - |e|..]
    decreases |e|
  {
    if |e| > 1 {
      Link(db, id, e, |e| - 1);
      Link(db, id, k, |k| - 1);
      ClimbsAgree(db, e[|e| - 2], e[..|e| - 1], k[..|k| - 1]);
      assert e == e[..|e| - 1] + [id];
      assert k[|k| - |e|..] == k[..|k| - 1][|k| - |e|..] + [id];
    }
  }

  /** A climb never gets longer than a hierarchy. */
  lemma ClimbWithinHierarchy(db: DB, id: string, e: seq<string>, h: seq<string>)
    requires Climb(db, id, e) && Hierarchy(db, id, h)
    ensures |e| <= |h|
  {
    if |e| > |h| {
      ClimbsAgree(db, id, h, e);
      Link(db, id, e, |e| - |h|);
      assert false;
    }
  }

  lemma HierarchyUnique(db: DB, id: string, h: seq<string>, k: seq<string>)
    requires Hierarchy(db, id, h) && Hierarchy(db, id, k)
    ensures h == k
  {
    ClimbWithinHierarchy(db, id, h, k);
    ClimbWithinHierarchy(db, id, k, h);
    ClimbsAgree(db, id, h, k);
  }

  /** In a good table no climb is longer than the number of groups: following parents ends. */
  lemma ClimbIsBounded(db: DB, id: string, e: seq<string>)
    requires Acyclic(ParentGraph(db)) && Climb(db, id, e)
    ensures |e| <= |db.groups|
  {
    if |e| > |db.groups.Keys| {
      var g := ParentGraph(db);
      var p := Upwards(db, id, e);
      var i, j := Pigeonhole(p, db.groups.Keys);
      RepeatedNode(g, p, i, j);
      assert false;
    }
  }

  /** A climb read upwards is a path of the parent graph. */
  lemma Upwards(db: DB, id: string, e: seq<string>) returns (p: seq<string>)
    requires Climb(db, id, e)
    ensures |p| == |e| && IsPath(ParentGraph(db), p) && p[0] == id && p[|p| - 1] == e[0]
    ensures forall i :: 0 <= i < |p| ==> p[i] in db.groups
  {
    p := seq(|e|, i requires 0 <= i < |e| => e[|e| - 1 - i]);
    forall i | 0 <= i < |p| - 1 ensures p[i + 1] in ParentGraph(db)[p[i]] {
      var k := |e| - 2 - i;
      assert p[i] == e[k + 1] && p[i + 1] == e[k];
      Link(db, id, e, k + 1);
    }
  }

  // ---------------------------------------------------------------- inside a group

  /** `p` is the group `id` or lies below it. */
  ghost predicate Under(db: DB, p: string, id: string) {
    p == id || Reaches(ParentGraph(db), p, id)
  }

  lemma HierarchyIsClosed(db: DB, p: string, h: seq<string>)
    requires Hierarchy(db, p, h)
    ensures forall v :: v in Elements(h) ==> v in ParentGraph(db) && ParentGraph(db)[v] <= Elements(h)
  {
    forall v | v in Elements(h) ensures v in ParentGraph(db) && ParentGraph(db)[v] <= Elements(h) {
      var i: nat :| i < |h| && h[i] == v;
      if i > 0 { Link(db, p, h, i); }
    }
  }

  /** What a group lies in is exactly what its hierarchy lists. */
  lemma UnderMeansInHierarchy(db: DB, p: string, h: seq<string>, id: string)
    requires Hierarchy(db, p, h)
    ensures Under(db, p, id) <==> id in h
  {
    var g := ParentGraph(db);
    if p != id && Reaches(g, p, id) {
      HierarchyIsClosed(db, p, h);
      var path :| |path| >= 2 && PathFromTo(g, path, p, id);
      ClosedSetCatchesPath(g, Elements(h), path);
    }
    if id in h && p != id {
      var i: nat :| i < |h| && h[i] == id;
      assert Climb(db, p, h[i..]) by {
        var e := h[i..];
        forall k | 0 <= k < |e| - 1 ensures db.groups[e[k + 1]].parent == Parent(ProjectGroup, e[k]) {
          assert e[k + 1] == h[i + k + 1] && e[k] == h[i + k];
        }
      }
      var path := Upwards(db, p, h[i..]);
      assert |path| >= 2 && PathFromTo(g, path, p, id);
    }
  }

  lemma SameRoot(db: DB, a: string, ha: seq<string>, b: string, hb: seq<string>)
    requires Good(db) && Rooted(db, a, ha) && Rooted(db, b, hb) && |ha| == |hb| == 1 && Parts(db, ha) == Parts(db, hb)
    ensures a == b && ha == hb
  {
    hide Acyclic, IDsApart;
    var oa, ob := db.groups[a].parent, db.groups[b].parent;
    assert Parts(db, ha)[0] == OwnerParts(db, oa)[0] && Parts(db, hb)[0] == OwnerParts(db, ob)[0];
    assert Parts(db, ha)[1] == OwnerParts(db, oa)[1] && Parts(db, hb)[1] == OwnerParts(db, ob)[1];
    assert "org"[0] != "user"[0];
    assert oa == ob;
    assert GroupShape(db, db.groups[a]) && GroupShape(db, db.groups[b]);
    assert NamedGroup(db, oa.id, "", b);
  }

  /** The same path leads to the same group: a path names at most one group. */
  lemma {:induction false} PathsAreUnique(db: DB, a: string, ha: seq<string>, b: string, hb: seq<string>)
    requires Good(db) && Rooted(db, a, ha) && Rooted(db, b, hb) && Parts(db, ha) == Parts(db, hb)
    ensures ha == hb && a == b
    decreases |ha|
  {
    hide Acyclic, IDsApart, OwnersNamed, GroupShape;
    assert |ha| == |hb|;
    if |ha| == 1 {
      SameRoot(db, a, ha, b, hb);
    } else {
      var n := |ha| - 1;
      RootedAbove(db, a, ha);
      RootedAbove(db, b, hb);
      RootedPrefix(db, a, ha, n);
      RootedPrefix(db, b, hb, n);
      PathsAreUnique(db, ha[n - 1], ha[..n], hb[n - 1], hb[..n]);
      assert Parts(db, ha)[n + 1] == db.groups[a].name && Parts(db, hb)[n + 1] == db.groups[b].name;
      Link(db, a, ha, n);
      Link(db, b, hb, n);
      assert NamedGroup(db, ha[n - 1], db.groups[a].name, b);
      assert ha == ha[..n] + [a] && hb == hb[..n] + [b];
    }
  }

  /** The test made before a move, on the paths as strings, rejects exactly the moves of a group
      into itself or into a group below it. */
  lemma PrefixTestIsExact(db: DB, id: string, hid: seq<string>, p: string, hp: seq<string>, name: string)
    requires Good(db) && Rooted(db, id, hid) && Rooted(db, p, hp) && '/' !in name
    ensures Joined(Parts(db, hid)) + "/" <= Joined(Parts(db, hp) + [name]) <==> Under(db, p, id)
  {
    hide Good, Joined, Parts, Under;
    var a, b := Parts(db, hid), Parts(db, hp);
    PartsAreSlashFree(db, id, hid);
    PartsAreSlashFree(db, p, hp);
    PrefixMeansAncestor(a, b + [name]);
    ProperPrefixOfMore(a, b, name);
    UnderMeansInHierarchy(db, p, hp, id);
    if a <= b {
      RootedPrefix(db, p, hp, |hid|);
      assert Parts(db, hp[..|hid|]) == a;
      PathsAreUnique(db, id, hid, hp[|hid| - 1], hp[..|hid|]);
      assert hp[|hid| - 1] in hp;
    }
    if id in hp {
      var i: nat :| i < |hp| && hp[i] == id;
      RootedPrefix(db, p, hp, i + 1);
      HierarchyUnique(db, id, hid, hp[..i + 1]);
    }
  }

  lemma ProperPrefixOfMore(a: seq<string>, b: seq<string>, name: string)
    ensures a < b + [name] <==> a <= b
  {
    if a < b + [name] { assert a == (b + [name])[..|a|] == b[..|a|]; }
    if a <= b { assert a == b[..|a|] == (b + [name])[..|a|]; }
  }
}
