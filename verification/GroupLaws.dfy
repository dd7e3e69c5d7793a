/** What the project group handlers accept and write, in plain terms. */
module GroupLaws {
  import opened Graph
  import opened Paths
  import opened GroupTree
  import opened GroupLookup
  import opened GroupRuns

  // ---------------------------------------------------------------- names

  ghost predicate Alphanumeric(s: string) {
    forall i :: 0 <= i < |s| ==> 'a' <= s[i] <= 'z' || 'A' <= s[i] <= 'Z' || '0' <= s[i] <= '9'
  }

  /** A repeated part of the regular expression: an optional dash and at least one letter or digit. */
  ghost predicate Part(s: string) {
    |s| >= 1 && if s[0] == '-' then |s| >= 2 && Alphanumeric(s[1..]) else Alphanumeric(s)
  }

  function Flat(parts: seq<string>): string {
    if parts == [] then "" else parts[0] + Flat(parts[1..])
  }

  /** A string that matches ([-]?[a-zA-Z0-9]+)+ looks like this. */
  ghost predicate Dashed(s: string) {
    && |s| >= 1 && IsLetterOrDigit(s[|s| - 1])
    && (forall i :: 0 <= i < |s| ==> IsLetterOrDigit(s[i]) || s[i] == '-')
    && forall i :: 0 < i < |s| ==> s[i] != '-' || s[i - 1] != '-'
  }

  lemma {:induction false} PartsAreDashed(parts: seq<string>)
    requires |parts| >= 1 && forall i :: 0 <= i < |parts| ==> Part(parts[i])
    ensures Dashed(Flat(parts))
  {
    var p, rest := parts[0], parts[1..];
    assert Dashed(p) by {
      forall i | 0 <= i < |p| ensures IsLetterOrDigit(p[i]) || p[i] == '-' {
        if p[0] == '-' && i > 0 { assert p[i] == p[1..][i - 1]; }
      }
      assert p[0] == '-' ==> p[|p| - 1] == p[1..][|p| - 2];
      forall i | 0 < i < |p| ensures p[i] != '-' {
        if p[0] == '-' { assert p[i] == p[1..][i - 1]; }
      }
    }
    if rest == [] {
      assert p + "" == p;
    } else {
      PartsAreDashed(rest);
      BothDashed(p, Flat(rest));
    }
  }

  lemma BothDashed(a: string, b: string)
    requires Dashed(a) && Dashed(b)
    ensures Dashed(a + b)
  {
  }

  lemma {:induction false} DashedHasParts(s: string) returns (parts: seq<string>)
    requires Dashed(s)
    ensures |parts| >= 1 && (forall i :: 0 <= i < |parts| ==> Part(parts[i])) && Flat(parts) == s
    decreases |s|
  {
    var n := if s[0] == '-' then 2 else 1;
    if s[0] == '-' {
      assert |s| >= 2 && IsLetterOrDigit(s[1]);
      assert s[..2][1..] == [s[1]];
    }
    assert Part(s[..n]);
    assert s == s[..n] + s[n..];
    if n == |s| {
      parts := [s];
      assert s[..n] == s && Flat([s][1..]) == "";
    } else {
      var rest := DashedHasParts(s[n..]);
      parts := [s[..n]] + rest;
      assert parts[1..] == rest;
    }
  }

  /** A name is valid exactly when it is no uuid and matches [a-zA-Z][a-zA-Z0-9]*([-]?[a-zA-Z0-9]+)+ as a whole. */
  lemma ValidNameMeans(isUuid: string -> bool, s: string)
    ensures ValidName(isUuid, s) <==>
            !isUuid(s)
            && exists head: string, parts: seq<string> ::
                 && |head| >= 1 && ('a' <= head[0] <= 'z' || 'A' <= head[0] <= 'Z') && Alphanumeric(head)
                 && |parts| >= 1 && (forall i :: 0 <= i < |parts| ==> Part(parts[i])) && s == head + Flat(parts)
  {
    if MatchesNameRegexp(s) {
      var head, rest := s[..1], s[1..];
      assert Dashed(rest);
      var parts := DashedHasParts(rest);
      assert s == head + Flat(parts) && Alphanumeric(head);
    }
    if head: string, parts: seq<string> :|
      && |head| >= 1 && ('a' <= head[0] <= 'z' || 'A' <= head[0] <= 'Z') && Alphanumeric(head)
      && |parts| >= 1 && (forall i :: 0 <= i < |parts| ==> Part(parts[i])) && s == head + Flat(parts)
    {
      PartsAreDashed(parts);
      BothDashed(head, Flat(parts));
      assert s[0] == head[0] && |s| >= 2;
    }
  }

  // ---------------------------------------------------------------- which requests are accepted

  lemma TakenMeans(db: DB, parentID: string, name: string)
    ensures Taken(db, parentID, name) <==> exists g :: g in db.groups && db.groups[g].parent.id == parentID && db.groups[g].name == name
  {
    if g :| g in db.groups && db.groups[g].parent.id == parentID && db.groups[g].name == name { assert NamedGroup(db, parentID, name, g); }
  }

  /** A group is created below a stored group that has a path, under a valid name that no group there has. */
  lemma CreateMeans(db: DB, isUuid: string -> bool, req: Request)
    requires '/' !in req.parent.id && '%' !in req.parent.id
    ensures CanCreate(db, isUuid, req) <==>
            && req.parent.kind == ProjectGroup && req.parent.id != "" && req.parent.id in db.groups && HasPath(db, req.parent.id)
            && ValidName(isUuid, req.name) && req.visibility in {Public, Private}
            && forall g :: g in db.groups ==> db.groups[g].parent.id != req.parent.id || db.groups[g].name != req.name
  {
    hide HasPath, ValidName;
    PlainFound(db, req.parent.id);
    TakenMeans(db, req.parent.id, req.name);
  }

  /** A group that is not a root group is renamed or moved: to a place that has a path and is not inside the group,
      and where no group has the name; unless name and parent stay the same. */
  lemma UpdateMeans(db: DB, isUuid: string -> bool, ref: string, req: Request)
    requires '/' !in ref && '%' !in ref && '/' !in req.parent.id && '%' !in req.parent.id
    requires ref in db.groups && db.groups[ref].parent.kind == ProjectGroup
    ensures CanUpdate(db, isUuid, ref, req) <==>
            && req.parent.kind == ProjectGroup && req.parent.id != "" && req.parent.id in db.groups
            && ValidName(isUuid, req.name) && req.visibility in {Public, Private}
            && HasPath(db, db.groups[ref].parent.id) && HasPath(db, req.parent.id)
            && (|| (req.name == db.groups[ref].name && req.parent.id == db.groups[ref].parent.id)
                || (&& (forall g :: g in db.groups ==> db.groups[g].parent.id != req.parent.id || db.groups[g].name != req.name)
                    && req.parent.id != ref && !Reaches(ParentGraph(db), req.parent.id, ref)))
  {
    hide HasPath, ValidName, Reaches;
    PlainFound(db, ref);
    PlainFound(db, req.parent.id);
    TakenMeans(db, req.parent.id, req.name);
  }

  /** Of a root group only the visibility is updated. */
  lemma UpdateRootMeans(db: DB, isUuid: string -> bool, ref: string, req: Request)
    requires '/' !in ref && '%' !in ref && ref in db.groups && db.groups[ref].parent.kind in {Org, User}
    ensures CanUpdate(db, isUuid, ref, req) <==>
            && req.parent == db.groups[ref].parent && req.parent.id != "" && req.name == "" && req.visibility in {Public, Private}
            && (if req.parent.kind == Org then req.parent.id in db.orgs else req.parent.id in db.users)
  {
    PlainFound(db, ref);
  }

  /** Any group but a root group is deleted. */
  lemma DeleteMeans(db: DB, ref: string)
    requires '/' !in ref && '%' !in ref
    ensures CanDelete(db, ref) <==> ref in db.groups && db.groups[ref].parent.kind == ProjectGroup
  {
    PlainFound(db, ref);
  }

  /** An escaped slash makes a reference a path as a plain one does; an escape that is no hexadecimal number is an error. */
  lemma {:induction false} EscapedRef(a: string, b: string, c: char, d: char)
    requires '%' !in a && '%' !in b
    ensures var r := ParsePathRef(a + ['%', c, d] + b);
            if (c in "0123456789abcdef" || c in "ABCDEF") && (d in "0123456789abcdef" || d in "ABCDEF") then
              r == if '/' in a || '/' in b || (c == '2' && (d == 'f' || d == 'F')) then RefPath else RefID
            else r == RefError
  {
    var ref := a + ['%', c, d] + b;
    if a == "" {
      assert ref[0] == '%' && ref[1] == c && ref[2] == d && ref[3..] == b;
      PlainRef(b);
      HexDigits(c);
      HexDigits(d);
    } else {
      assert ref[0] == a[0] && ref[1..] == a[1..] + ['%', c, d] + b;
      assert a == [a[0]] + a[1..];
      EscapedRef(a[1..], b, c, d);
    }
  }

  lemma HexDigits(c: char)
    ensures IsHexDigit(c) <==> c in "0123456789abcdef" || c in "ABCDEF"
  {
    var lower, upper := "0123456789abcdef", "ABCDEF";
    if '0' <= c <= '9' { assert lower[c as int - '0' as int] == c; }
    if 'a' <= c <= 'f' { assert lower[c as int - 'a' as int + 10] == c; }
    if 'A' <= c <= 'F' { assert upper[c as int - 'A' as int] == c; }
  }

  /** A path that names no owner is an error; below a stored owner, a name that is not there is just not found. */
  lemma PathErrors(db: DB, ref: string)
    ensures var parts := Split(ref);
            ByPath(db, ref).LookupFailed? <==>
            || |parts| < 2
            || (parts[0] != "org" && parts[0] != "user")
            || (parts[0] == "org" && forall o :: o in db.orgs ==> db.orgs[o] != parts[1])
            || (parts[0] == "user" && forall u :: u in db.users ==> db.users[u] != parts[1])
  {
    var parts := Split(ref);
    assert "org"[0] != "user"[0];
    if |parts| >= 2 {
      var owner := OwnerByName(OwnersOf(db, parts[0]), parts[1]);
      if owner.Found? { WalkNeverFails(db, owner.id, [""] + parts[2..]); }
    }
  }

  lemma {:induction false} WalkNeverFails(db: DB, parentID: string, names: seq<string>)
    requires |names| >= 1
    ensures !Walk(db, parentID, names).LookupFailed?
    decreases |names|
  {
    if |names| > 1 && ByName(db, parentID, names[0]).Found? { WalkNeverFails(db, ByName(db, parentID, names[0]).id, names[1..]); }
  }

  // ---------------------------------------------------------------- paths

  /** The path of a root group is that of its owner; below, it is the path of the parent with the name added. */
  lemma PathMeans(db: DB, id: string, h: seq<string>)
    requires Good(db) && Rooted(db, id, h)
    ensures id in db.groups && HasOwner(db, db.groups[h[0]].parent)
    ensures |h| == 1 ==>
              var o := db.groups[id].parent;
              Joined(Parts(db, h)) == if o.kind == Org then "org" + "/" + db.orgs[o.id] else "user" + "/" + db.users[o.id]
    ensures |h| > 1 ==>
              && db.groups[id].parent.kind == ProjectGroup && db.groups[id].parent.id == h[|h| - 2]
              && Rooted(db, h[|h| - 2], h[..|h| - 1])
              && Joined(Parts(db, h)) == Joined(Parts(db, h[..|h| - 1])) + "/" + db.groups[id].name
  {
    var n := |h|;
    if n == 1 {
      assert Parts(db, h)[..1] == [Parts(db, h)[0]];
    } else {
      RootedPrefix(db, id, h, n - 1);
      Link(db, id, h, n - 1);
      assert Parts(db, h)[..|Parts(db, h)| - 1] == Parts(db, h[..n - 1]);
    }
  }
}
