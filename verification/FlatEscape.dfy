/** Storage keys as file paths (internal/objectstorage/posixflat.go): '/' and '%' are
    percent-encoded (section 2.1 of RFC 3986), a '/' follows every 8th character, and a key
    whose length is a multiple of 8 ends in the file marker ".f" instead. */
module FlatEscape {
  import opened Runes
  import opened RunTypes

  // ---------------------------------------------------------------- escape

  predicate ShouldEscape(c: Rune) {
    c == SLASH || c == PERCENT
  }

  function HexDigit(d: nat): Byte
    requires d < 16
  {
    if d < 10 then 0x30 + d else 0x41 + (d - 10)
  }

  function Unit(c: Rune): (u: seq<Byte>)
    ensures |u| >= 1 && u[0] != SLASH
  {
    if ShouldEscape(c) then [PERCENT, HexDigit(c / 16), HexDigit(c % 16)] else Utf8(c)
  }

  function HexFrom(k: seq<Rune>, m: nat): nat
    decreases |k| - m
  {
    if m >= |k| then 0 else (if ShouldEscape(k[m]) then 1 else 0) + HexFrom(k, m + 1)
  }

  function Split(m: nat): seq<Byte> {
    if m % SPLIT_LENGTH == 0 then [SLASH] else []
  }

  /** What the filling loop writes: a '/' after every 8th character, the last one included. */
  function BodyFrom(k: seq<Rune>, m: nat): seq<Byte>
    decreases |k| - m
  {
    if m >= |k| then [] else
    Unit(k[m]) + Split(m + 1) + BodyFrom(k, m + 1)
  }

  /** What follows the character that ends at position `m` of a key of length `n`. */
  function Separator(n: nat, m: nat): seq<Byte> {
    if m % SPLIT_LENGTH == 0 && m == n then [DOT, LOWER_F] else Split(m)
  }

  function EscapedFrom(k: seq<Rune>, m: nat): seq<Byte>
    decreases |k| - m
  {
    if m >= |k| then [] else Unit(k[m]) + Separator(|k|, m + 1) + EscapedFrom(k, m + 1)
  }

  function Escaped(k: seq<Rune>): seq<Byte> {
    EscapedFrom(k, 0)
  }

  predicate HasFileMarker(k: seq<Rune>) {
    |k| > 0 && |k| % SPLIT_LENGTH == 0
  }

  lemma SplitCount(m: nat)
    ensures |Split(m + 1)| == (m + 1) / SPLIT_LENGTH - m / SPLIT_LENGTH
  {
  }

  lemma UnitLength(c: Rune)
    ensures |Unit(c)| == |Utf8(c)| + if ShouldEscape(c) then 2 else 0
  {
  }

  lemma {:induction false} BodyLength(k: seq<Rune>, m: nat)
    requires m <= |k|
    ensures |BodyFrom(k, m)| == |EncodeFrom(k, m)| + 2 * HexFrom(k, m) + (|k| / SPLIT_LENGTH - m / SPLIT_LENGTH)
    decreases |k| - m
  {
    hide Utf8, Unit, Split, ShouldEscape;
    if m < |k| {
      BodyLength(k, m + 1);
      SplitCount(m);
      UnitLength(k[m]);
    }
  }

  lemma {:induction false} BodyAndEscaped(k: seq<Rune>, m: nat)
    requires m <= |k|
    ensures !HasFileMarker(k) ==> EscapedFrom(k, m) == BodyFrom(k, m)
    ensures HasFileMarker(k) && m < |k| ==>
              var body := BodyFrom(k, m);
              |body| > 0 && EscapedFrom(k, m) == body[..|body| - 1] + [DOT, LOWER_F]
    decreases |k| - m
  {
    if m < |k| {
      BodyAndEscaped(k, m + 1);
      if HasFileMarker(k) && m + 1 < |k| {
        var head := Unit(k[m]) + Split(m + 1);
        var rest := BodyFrom(k, m + 1);
        assert (head + rest)[..|head + rest| - 1] == head + rest[..|rest| - 1];
      }
    }
  }

  lemma NoSplit(m: nat)
    requires 0 < m < SPLIT_LENGTH
    ensures Split(m) == []
  {
  }

  lemma PlainUnit(c: Rune)
    requires !ShouldEscape(c)
    ensures Unit(c) == Utf8(c)
  {
  }

  lemma {:induction false} PlainBody(k: seq<Rune>, m: nat)
    requires m <= |k| < SPLIT_LENGTH && HexFrom(k, m) == 0
    ensures BodyFrom(k, m) == EncodeFrom(k, m)
    decreases |k| - m
  {
    hide Utf8, Unit, Split, ShouldEscape;
    if m < |k| {
      PlainBody(k, m + 1);
      PlainUnit(k[m]);
      NoSplit(m + 1);
    }
  }

  /** The counting loop of escape, over any bytes. */
  method CountEscapes(s: seq<Byte>) returns (nc: nat, sepCount: nat, hexCount: nat)
    ensures var k := RunesOf(s); nc == |k| && sepCount == |k| / SPLIT_LENGTH && hexCount == HexFrom(k, 0)
  {
    hide DecodeAt, Reads, RunesFrom;
    ghost var k := RunesOf(s);
    nc, sepCount, hexCount := 0, 0, 0;
    var i := 0;
    ReadsStart(s);
    while i < |s|
      invariant i <= |s| && nc <= |k| && Reads(s, i, k, nc)
      invariant sepCount == nc / SPLIT_LENGTH && hexCount + HexFrom(k, nc) == HexFrom(k, 0)
      decreases |s| - i
    {
      ReadsStep(s, i, k, nc);
      var (c, width) := DecodeAt(s, i);
      nc := nc + 1;
      if ShouldEscape(c) {
        hexCount := hexCount + 1;
      }
      if nc % SPLIT_LENGTH == 0 {
        sepCount := sepCount + 1;
      }
      i := i + width;
    }
    ReadsEnd(s, k, nc);
  }

  method CopyInto(t: array<Byte>, j: nat, u: seq<Byte>)
    requires j + |u| <= t.Length
    modifies t
    ensures t[..] == old(t[..j]) + u + old(t[j + |u|..])
  {
    for i := 0 to |u|
      invariant t[..] == old(t[..j]) + u[..i] + old(t[j + i..])
    {
      t[j + i] := u[i];
      assert u[..i + 1] == u[..i] + [u[i]];
    }
    assert u[..|u|] == u;
  }

  /** Writes one character at position `j`, escaped if it has to be. */
  method WriteUnit(t: array<Byte>, j: nat, c: Rune) returns (j': nat)
    requires j + |Unit(c)| <= t.Length
    modifies t
    ensures j' == j + |Unit(c)| && t[..j'] == old(t[..j]) + Unit(c)
  {
    if ShouldEscape(c) {
      t[j], t[j + 1], t[j + 2] := PERCENT, HexDigit(c / 16), HexDigit(c % 16);
      j' := j + 3;
    } else {
      CopyInto(t, j, Utf8(c));
      j' := j + |Utf8(c)|;
    }
  }

  /** Writes one character and the '/' behind every 8th one. */
  method WriteSplitUnit(t: array<Byte>, j: nat, c: Rune, nc: nat) returns (j': nat)
    requires j + |Unit(c)| + |Split(nc)| <= t.Length
    modifies t
    ensures j' == j + |Unit(c)| + |Split(nc)| && t[..j'] == old(t[..j]) + (Unit(c) + Split(nc))
  {
    j' := WriteUnit(t, j, c);
    if nc % SPLIT_LENGTH == 0 {
      ghost var before := t[..j'];
      t[j'] := SLASH;
      j' := j' + 1;
      assert t[..j'] == before + [SLASH];
    }
  }

  lemma BodyStep(k: seq<Rune>, nc: nat, before: seq<Byte>, body: seq<Byte>)
    requires nc < |k| && before + BodyFrom(k, nc) == body
    ensures |before| + |Unit(k[nc])| + |Split(nc + 1)| <= |body|
    ensures before + (Unit(k[nc]) + Split(nc + 1)) + BodyFrom(k, nc + 1) == body
  {
    assert before + (Unit(k[nc]) + Split(nc + 1) + BodyFrom(k, nc + 1)) == body;
  }

  /** The filling loop of escape. It comes to an end exactly when the buffer has room for the whole
      body; otherwise one of its writes is out of range. */
  method FillEscaped(s: seq<Byte>, t: array<Byte>) returns (ok: bool, j: nat)
    modifies t
    ensures ok <==> |BodyFrom(RunesOf(s), 0)| <= t.Length
    ensures ok ==> j == |BodyFrom(RunesOf(s), 0)| && t[..j] == BodyFrom(RunesOf(s), 0)
  {
    hide DecodeAt, Utf8, Unit, Split, Reads, RunesFrom;
    ghost var k := RunesOf(s);
    j := 0;
    var nc, i := 0, 0;
    ghost var body := BodyFrom(k, 0);
    ReadsStart(s);
    while i < |s|
      invariant i <= |s| && nc <= |k| && Reads(s, i, k, nc)
      invariant j <= t.Length && t[..j] + BodyFrom(k, nc) == body
      decreases |s| - i
    {
      ReadsStep(s, i, k, nc);
      BodyStep(k, nc, t[..j], body);
      var (c, width) := DecodeAt(s, i);
      nc := nc + 1;
      if j + |Unit(c)| + |Split(nc)| > t.Length {
        return false, j;
      }
      j := WriteSplitUnit(t, j, c, nc);
      i := i + width;
    }
    ReadsEnd(s, k, nc);
    assert t[..j] + [] == t[..j];
    ok := true;
  }

  ghost predicate NeedsEscape(k: seq<Rune>) {
    exists i :: 0 <= i < |k| && ShouldEscape(k[i])
  }

  lemma {:induction false} HexCounts(k: seq<Rune>, m: nat)
    requires m <= |k|
    ensures HexFrom(k, m) > 0 <==> exists i :: m <= i < |k| && ShouldEscape(k[i])
    decreases |k| - m
  {
    if m < |k| { HexCounts(k, m + 1); }
  }

  // ---------------------------------------------------------------- what is written, in plain terms

  /** The bytes that one rune contributes: "%2F" for a slash, "%25" for a percent sign, its own otherwise. A '%'
      is written for these two only. */
  lemma UnitMeans(c: Rune)
    ensures Unit(c) == if c == 0x2F then [0x25, 0x32, 0x46] else if c == 0x25 then [0x25, 0x32, 0x35] else Utf8(c)
    ensures 0x25 in Unit(c) <==> c == 0x2F || c == 0x25
    ensures 0x2F !in Unit(c)
  {
  }

  /** What follows it: nothing, a slash after every 8th rune, or the file marker ".f" when that is the last one. */
  lemma SeparatorMeans(n: nat, m: nat)
    ensures Separator(n, m) == if m % 8 != 0 then [] else if m == n then [0x2E, 0x66] else [0x2F]
  {
  }

  function Concat(pieces: seq<seq<Byte>>): seq<Byte> {
    if pieces == [] then [] else pieces[0] + Concat(pieces[1..])
  }

  lemma {:induction false} PiecesFrom(k: seq<Rune>, m: nat) returns (pieces: seq<seq<Byte>>)
    requires m <= |k|
    ensures |pieces| == |k| - m && Concat(pieces) == EscapedFrom(k, m)
    ensures forall j :: 0 <= j < |pieces| ==> pieces[j] == Unit(k[m + j]) + Separator(|k|, m + j + 1)
    decreases |k| - m
  {
    hide Unit, Separator;
    if m == |k| {
      pieces := [];
    } else {
      var rest := PiecesFrom(k, m + 1);
      pieces := [Unit(k[m]) + Separator(|k|, m + 1)] + rest;
      assert pieces[1..] == rest;
    }
  }

  /** The escaped key is put together from one piece per rune. */
  lemma EscapedMeans(k: seq<Rune>) returns (pieces: seq<seq<Byte>>)
    ensures |pieces| == |k| && Concat(pieces) == Escaped(k)
    ensures forall j :: 0 <= j < |k| ==>
              pieces[j] == (if k[j] == 0x2F then [0x25, 0x32, 0x46] else if k[j] == 0x25 then [0x25, 0x32, 0x35] else Utf8(k[j]))
                           + (if (j + 1) % 8 != 0 then [] else if j + 1 == |k| then [0x2E, 0x66] else [0x2F])
  {
    pieces := PiecesFrom(k, 0);
    forall j | 0 <= j < |k|
      ensures pieces[j] == (if k[j] == 0x2F then [0x25, 0x32, 0x46] else if k[j] == 0x25 then [0x25, 0x32, 0x35] else Utf8(k[j]))
                           + (if (j + 1) % 8 != 0 then [] else if j + 1 == |k| then [0x2E, 0x66] else [0x2F])
    {
      hide Unit, Separator, Utf8;
      UnitMeans(k[j]);
      SeparatorMeans(|k|, j + 1);
    }
  }

  /** The runes below 0x80 are the bytes below 0x80. */
  lemma {:induction false} PlainBytes(s: seq<Byte>, i: nat, c: Byte)
    requires i <= |s| && c < 0x80
    ensures c in RunesFrom(s, i) <==> c in s[i..]
    ensures |RunesFrom(s, i)| <= |s| - i
    decreases |s| - i
  {
    if i < |s| {
      var (r, width) := DecodeAt(s, i);
      hide DecodeAt;
      PlainBytes(s, i + width, c);
      assert s[i..] == s[i..i + width] + s[i + width..];
      OneRune(s, i, c);
    }
  }

  lemma OneRune(s: seq<Byte>, i: nat, c: Byte)
    requires i < |s| && c < 0x80
    ensures var (r, width) := DecodeAt(s, i); c in s[i..i + width] <==> r == c
  {
    var (r, width) := DecodeAt(s, i);
    var u := s[i..i + width];
    assert u[0] == s[i];
    if c in u {
      var j :| 0 <= j < |u| && u[j] == c;
      assert u[j] == s[i + j];
    }
  }

  lemma NeedsEscapeMeans(s: seq<Byte>)
    ensures NeedsEscape(RunesOf(s)) <==> 0x2F in s || 0x25 in s
    ensures |RunesOf(s)| <= |s|
  {
    hide RunesFrom;
    var k := RunesOf(s);
    PlainBytes(s, 0, 0x2F);
    PlainBytes(s, 0, 0x25);
    assert s[0..] == s;
    assert forall x :: x in k <==> exists i :: 0 <= i < |k| && k[i] == x;
    assert NeedsEscape(k) <==> 0x2F in k || 0x25 in k;
  }

  /** Escaping any bytes; without a result, a write was out of range. That happens exactly when some byte
      is invalid and the key does not stay as it is: it has at least 8 runes, or one to escape. For
      valid bytes the computed buffer is filled exactly, with one piece per rune. */
  method Escape(s: seq<Byte>) returns (e: Option<seq<Byte>>, ghost pieces: seq<seq<Byte>>)
    ensures e.None? <==> InvalidFrom(s, 0) > 0 && (|RunesOf(s)| >= 8 || 0x2F in s || 0x25 in s)
    ensures e.Some? ==> e.value == if InvalidFrom(s, 0) == 0 then Escaped(RunesOf(s)) else s
    ensures |RunesOf(s)| < 8 && 0x2F !in s && 0x25 !in s ==> e == Some(s)
    ensures InvalidFrom(s, 0) == 0 ==>
              var k := RunesOf(s);
              && e == Some(Concat(pieces)) && |pieces| == |k|
              && forall j :: 0 <= j < |k| ==>
                   pieces[j] == (if k[j] == 0x2F then [0x25, 0x32, 0x46] else if k[j] == 0x25 then [0x25, 0x32, 0x35] else Utf8(k[j]))
                                + (if (j + 1) % 8 != 0 then [] else if j + 1 == |k| then [0x2E, 0x66] else [0x2F])
  {
    hide RunesOf, InvalidFrom, Escaped, Utf8, Concat;
    NeedsEscapeMeans(s);
    pieces := EscapedMeans(RunesOf(s));
    e := EscapeBytes(s);
  }

  method EscapeBytes(s: seq<Byte>) returns (e: Option<seq<Byte>>)
    ensures e.None? <==> InvalidFrom(s, 0) > 0 && (|RunesOf(s)| >= SPLIT_LENGTH || NeedsEscape(RunesOf(s)))
    ensures e.Some? ==> e.value == if InvalidFrom(s, 0) == 0 then Escaped(RunesOf(s)) else s
    ensures |RunesOf(s)| < SPLIT_LENGTH && !NeedsEscape(RunesOf(s)) ==> e == Some(s)
  {
    hide EscapedFrom, BodyFrom, EncodeFrom, Reads, RunesFrom, RunesOf, InvalidFrom;
    ghost var k := RunesOf(s);
    var nc, sepCount, hexCount := CountEscapes(s);
    BodyAndEscaped(k, 0);
    BodyLength(k, 0);
    HexCounts(k, 0);
    ReadsStart(s);
    EncodedLength(s, 0, k, 0);
    assert s[0..] == s;
    if sepCount == 0 && hexCount == 0 {
      PlainBody(k, 0);
      return Some(s);
    }
    var hasFileMarker := nc % SPLIT_LENGTH == 0;
    var l := |s| + sepCount + 2 * hexCount;
    if hasFileMarker {
      l := l + 1;
    }
    var t := new Byte[l];
    var ok, j := FillEscaped(s, t);
    if !ok {
      return None;
    }
    ghost var body := BodyFrom(k, 0);
    if hasFileMarker {
      assert k != [];
      t[j - 1], t[j] := DOT, LOWER_F;
      assert t[..] == body[..|body| - 1] + [DOT, LOWER_F];
    } else {
      assert t[..] == t[..j];
    }
    return Some(t[..]);
  }

  /** Two bytes that the loop of escape does not survive: an invalid one and a slash. */
  lemma EscapeOutOfRange()
    ensures var s: seq<Byte> := [0xFF, SLASH];
            InvalidFrom(s, 0) > 0 && NeedsEscape(RunesOf(s))
  {
    var s: seq<Byte> := [0xFF, SLASH];
    assert DecodeAt(s, 0) == (RUNE_ERROR, 1) && DecodeAt(s, 1) == (SLASH, 1);
    assert RunesFrom(s, 2) == [];
    assert RunesFrom(s, 1) == [SLASH];
    assert RunesOf(s) == [RUNE_ERROR, SLASH];
    assert ShouldEscape(RunesOf(s)[1]);
  }

  // ---------------------------------------------------------------- one to one, and prefix free

  /** Units form a prefix code: the bytes decide which character comes next. */
  lemma UnitDecides(a: Rune, b: Rune, x: seq<Byte>, y: seq<Byte>)
    requires Unit(a) + x <= Unit(b) + y
    ensures a == b && x <= y
  {
    var s, t := Unit(a) + x, Unit(b) + y;
    assert forall i :: 0 <= i < |s| ==> s[i] == t[i];
    assert s[0] == Unit(a)[0] && t[0] == Unit(b)[0];
    if ShouldEscape(a) && ShouldEscape(b) {
      assert s[2] == Unit(a)[2] && t[2] == Unit(b)[2];
    } else if !ShouldEscape(a) && !ShouldEscape(b) {
      assert t[..|Utf8(b)|] == Utf8(b);
      assert t[..|Utf8(a)|] == s[..|Utf8(a)|] == Utf8(a);
      DecodeUtf8(t, 0, a);
      DecodeUtf8(t, 0, b);
    }
    assert x == s[|Unit(a)|..] && y == t[|Unit(a)|..];
  }

  /** If one rest continues the other, then so it does after the separators. */
  lemma SeparatorsAgree(n: nat, n': nat, m: nat, x: seq<Byte>, y: seq<Byte>)
    requires m <= n && m <= n' && Separator(n, m) + x <= Separator(n', m) + y
    ensures x <= y && Separator(n, m) == Separator(n', m)
  {
    var s, t := Separator(n, m) + x, Separator(n', m) + y;
    if m % SPLIT_LENGTH == 0 {
      assert s[0] == Separator(n, m)[0] && t[0] == Separator(n', m)[0] && s[0] == t[0];
    }
    assert x == s[|Separator(n, m)|..] && y == t[|Separator(n, m)|..];
  }

  /** One step into two keys that agree so far, when one escaped rest (with `tail`) starts the other. */
  lemma StepInto(a: seq<Rune>, b: seq<Rune>, m: nat, tail: seq<Byte>)
    requires m < |a| && m < |b| && a[..m] == b[..m]
    requires EscapedFrom(a, m) + tail <= EscapedFrom(b, m)
    ensures a[..m + 1] == b[..m + 1]
    ensures EscapedFrom(a, m + 1) + tail <= EscapedFrom(b, m + 1)
    ensures Separator(|a|, m + 1) == Separator(|b|, m + 1) && a[m] == b[m]
  {
    hide *;
    EscapedStep(a, m);
    EscapedStep(b, m);
    StepBytes(a[m], b[m], |a|, |b|, m + 1, EscapedFrom(a, m + 1), tail, EscapedFrom(b, m + 1));
    assert a[..m + 1] == a[..m] + [a[m]] && b[..m + 1] == b[..m] + [b[m]];
  }

  lemma EscapedStep(k: seq<Rune>, m: nat)
    requires m < |k|
    ensures EscapedFrom(k, m) == Unit(k[m]) + Separator(|k|, m + 1) + EscapedFrom(k, m + 1)
  {
  }

  lemma StepBytes(a: Rune, b: Rune, n: nat, n': nat, m: nat, x: seq<Byte>, tail: seq<Byte>, y: seq<Byte>)
    requires m <= n && m <= n'
    requires Unit(a) + Separator(n, m) + x + tail <= Unit(b) + Separator(n', m) + y
    ensures a == b && Separator(n, m) == Separator(n', m) && x + tail <= y
  {
    Regroup(Unit(a), Separator(n, m), x, tail);
    Regroup(Unit(b), Separator(n', m), y, []);
    assert y + [] == y;
    UnitDecides(a, b, Separator(n, m) + (x + tail), Separator(n', m) + y);
    SeparatorsAgree(n, n', m, x + tail, y);
  }

  lemma FirstByte(b: seq<Rune>, m: nat)
    requires m < |b|
    ensures |EscapedFrom(b, m)| > 0 && EscapedFrom(b, m)[0] != SLASH
  {
  }

  lemma Regroup(u: seq<Byte>, v: seq<Byte>, x: seq<Byte>, tail: seq<Byte>)
    ensures u + v + x + tail == u + (v + (x + tail)) && (tail == [] ==> u + v + x + tail == u + v + x)
  {
  }

  lemma {:induction false} EscapedInjectiveFrom(a: seq<Rune>, b: seq<Rune>, m: nat)
    requires m <= |a| && m <= |b| && a[..m] == b[..m] && EscapedFrom(a, m) == EscapedFrom(b, m)
    ensures a == b
    decreases |a| - m
  {
    var x, y := EscapedFrom(a, m), EscapedFrom(b, m);
    assert x + [] == x;
    if m < |a| && m < |b| {
      StepInto(a, b, m, []);
      StepInto(b, a, m, []);
      SamePrefixes(EscapedFrom(a, m + 1), EscapedFrom(b, m + 1));
      EscapedInjectiveFrom(a, b, m + 1);
    } else {
      assert (m < |a| ==> |x| > 0) && (m < |b| ==> |y| > 0);
      assert a == a[..m] && b == b[..m];
    }
  }

  lemma SamePrefixes(x: seq<Byte>, y: seq<Byte>)
    requires x + [] <= y && y + [] <= x
    ensures x == y
  {
    assert x + [] == x && y + [] == y;
  }

  /** Different keys are stored in different files. */
  lemma EscapedIsInjective(a: seq<Rune>, b: seq<Rune>)
    requires Escaped(a) == Escaped(b)
    ensures a == b
  {
    EscapedInjectiveFrom(a, b, 0);
  }

  lemma {:induction false} NoDirectoryFrom(a: seq<Rune>, b: seq<Rune>, m: nat)
    requires m <= |a| && m <= |b| && a[..m] == b[..m]
    ensures !(EscapedFrom(a, m) + [SLASH] <= EscapedFrom(b, m))
    decreases |a| - m
  {
    if m < |b| {
      FirstByte(b, m);
      if m == |a| {
        assert (EscapedFrom(a, m) + [SLASH])[0] == SLASH;
      } else if EscapedFrom(a, m) + [SLASH] <= EscapedFrom(b, m) {
        StepInto(a, b, m, [SLASH]);
        NoDirectoryFrom(a, b, m + 1);
      }
    }
  }

  /** The file of one key is never a directory on the way to the file of another. */
  lemma NoFileIsADirectory(a: seq<Rune>, b: seq<Rune>)
    ensures !(Escaped(a) + [SLASH] <= Escaped(b))
  {
    NoDirectoryFrom(a, b, 0);
  }
}
