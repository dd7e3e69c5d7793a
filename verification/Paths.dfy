/** Slash separated paths and the references that may be ids or paths. */
module Paths {

  /** The parts of a string between its slashes; there is always at least one. */
  function Split(s: string): (parts: seq<string>)
    ensures |parts| >= 1
  {
    if s == "" then [""]
    else if s[0] == '/' then [""] + Split(s[1..])
    else var rest := Split(s[1..]); [[s[0]] + rest[0]] + rest[1..]
  }

  function Joined(parts: seq<string>): string
    requires |parts| >= 1
  {
    if |parts| == 1 then parts[0] else Joined(parts[..|parts| - 1]) + "/" + parts[|parts| - 1]
  }

  /** Joining one more name to a clean path; an empty name adds nothing. */
  function JoinName(path: string, name: string): string {
    if name == "" then path else path + "/" + name
  }

  ghost predicate SlashFree(parts: seq<string>) {
    forall i :: 0 <= i < |parts| ==> '/' !in parts[i]
  }

  lemma {:induction false} SplitAtSlash(x: string, y: string)
    ensures Split(x + "/" + y) == Split(x) + Split(y)
  {
    var s := x + "/" + y;
    if x == "" {
      assert s[1..] == y;
    } else {
      assert s[0] == x[0] && s[1..] == x[1..] + "/" + y;
      SplitAtSlash(x[1..], y);
    }
  }

  lemma {:induction false} SplitOneName(s: string)
    requires '/' !in s
    ensures Split(s) == [s]
  {
    if s != "" {
      assert s[0] in s;
      assert forall c :: c in s[1..] ==> c in s;
      SplitOneName(s[1..]);
      assert [s[0]] + s[1..] == s;
    }
  }

  /** Splitting undoes joining as long as no part has a slash of its own. */
  lemma {:induction false} SplitOfJoined(parts: seq<string>)
    requires |parts| >= 1 && SlashFree(parts)
    ensures Split(Joined(parts)) == parts
  {
    var init, last := parts[..|parts| - 1], parts[|parts| - 1];
    SplitOneName(last);
    if |parts| > 1 {
      SplitOfJoined(init);
      SplitAtSlash(Joined(init), last);
    }
    assert parts == init + [last];
  }

  lemma {:induction false} JoinedOfConcat(a: seq<string>, b: seq<string>)
    requires |a| >= 1 && |b| >= 1
    ensures Joined(a + b) == Joined(a) + "/" + Joined(b)
  {
    var init, last := b[..|b| - 1], b[|b| - 1];
    if |b| == 1 {
      assert a + b == a + [last] && (a + [last])[..|a|] == a;
    } else {
      JoinedOfConcat(a, init);
      assert (a + b)[..|a + b| - 1] == a + init && (a + b)[|a + b| - 1] == last;
      Regroup(Joined(a) + "/", Joined(init), "/" + last);
      assert (Joined(a) + "/" + Joined(init)) + "/" + last == (Joined(a) + "/" + Joined(init)) + ("/" + last);
      assert Joined(b) == Joined(init) + ("/" + last);
    }
  }

  lemma Regroup(x: string, y: string, z: string)
    ensures (x + y) + z == x + (y + z)
  {
  }

  /** Joining undoes splitting, for every string. */
  lemma {:induction false} JoinedOfSplit(s: string)
    ensures Joined(Split(s)) == s && SlashFree(Split(s))
    decreases |s|
  {
    if '/' in s {
      var k := FirstSlash(s);
      var x, y := s[..k], s[k + 1..];
      assert s == x + "/" + y;
      SplitAtSlash(x, y);
      SplitOneName(x);
      JoinedOfSplit(y);
      JoinedOfConcat([x], Split(y));
    } else {
      SplitOneName(s);
    }
  }

  lemma FirstSlash(s: string) returns (k: nat)
    requires '/' in s
    ensures k < |s| && s[k] == '/' && '/' !in s[..k]
  {
    k := 0;
    while s[k] != '/'
      invariant k < |s| && '/' in s[k..] && '/' !in s[..k]
      decreases |s| - k
    {
      k := k + 1;
    }
  }

  /** "Starts with this path and a slash" says exactly that the parts are a proper prefix. */
  lemma PrefixMeansAncestor(a: seq<string>, b: seq<string>)
    requires |a| >= 1 && |b| >= 1 && SlashFree(a) && SlashFree(b)
    ensures Joined(a) + "/" <= Joined(b) <==> a < b
  {
    hide Joined, Split;
    if Joined(a) + "/" <= Joined(b) {
      var rest := Joined(b)[|Joined(a) + "/"|..];
      assert Joined(b) == Joined(a) + "/" + rest;
      SplitAtSlash(Joined(a), rest);
      SplitOfJoined(a);
      SplitOfJoined(b);
      assert b == a + Split(rest);
    }
    if a < b {
      assert b == a + b[|a|..];
      JoinedOfConcat(a, b[|a|..]);
    }
  }

  // ---------------------------------------------------------------- references

  datatype RefType = RefID | RefPath | RefError

  predicate IsHexDigit(c: char) {
    '0' <= c <= '9' || 'a' <= c <= 'f' || 'A' <= c <= 'F'
  }

  /** A reference is percent-decoded; if the result has a slash it is a path, otherwise an id. */
  function ParsePathRef(ref: string): RefType {
    if ref == "" then RefID
    else if ref[0] != '%' then WithChar(ref[0] == '/', ParsePathRef(ref[1..]))
    else if |ref| < 3 || !IsHexDigit(ref[1]) || !IsHexDigit(ref[2]) then RefError
    else WithChar(ref[1] == '2' && ref[2] in "fF", ParsePathRef(ref[3..]))
  }

  function WithChar(slash: bool, rest: RefType): RefType {
    if slash && rest.RefID? then RefPath else rest
  }

  lemma {:induction false} PlainRef(ref: string)
    requires '%' !in ref
    ensures ParsePathRef(ref) == if '/' in ref then RefPath else RefID
  {
    if ref != "" {
      assert ref == [ref[0]] + ref[1..];
      PlainRef(ref[1..]);
    }
  }
}
