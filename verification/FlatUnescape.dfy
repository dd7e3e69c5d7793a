/** The way back (`unescape` in internal/objectstorage/posixflat.go), for any string of bytes. */
module FlatUnescape {
  import opened Runes
  import opened FlatEscape

  // ---------------------------------------------------------------- unescape

  predicate IsHex(c: Byte) {
    0x30 <= c <= 0x39 || 0x61 <= c <= 0x66 || 0x41 <= c <= 0x46
  }

  function Unhex(c: Byte): (d: Byte)
    ensures d < 16
  {
    if 0x30 <= c <= 0x39 then c - 0x30
    else if 0x61 <= c <= 0x66 then c - 0x61 + 10
    else if 0x41 <= c <= 0x46 then c - 0x41 + 10
    else 0
  }

  datatype Token = Percent(value: Byte) | Slash | Plain(bytes: seq<Byte>)

  datatype ScanError = BadUtf8 | BadPercent(text: seq<Byte>) | MisplacedSlash

  datatype Result<+T> = Ok(value: T) | Err(error: ScanError)

  function Prepend(done: seq<Token>, r: Result<seq<Token>>): (p: Result<seq<Token>>)
    ensures p.Ok? <==> r.Ok?
    ensures r.Ok? ==> p.value == done + r.value
  {
    if done == [] then r else if r.Ok? then Ok(done + r.value) else r
  }

  predicate GoodPercent(s: seq<Byte>, i: nat) {
    i + 2 < |s| && IsHex(s[i + 1]) && IsHex(s[i + 2])
  }

  /** The token at position `i` when `nc` characters came before, and where the next one starts. */
  function Step(s: seq<Byte>, i: nat, nc: nat): (r: Result<(Token, nat, nat)>)
    requires i < |s|
    ensures r.Ok? ==> var (x, i', nc') := r.value;
                      && i < i' <= |s| && nc' == nc + CharsOf(x)
                      && |BytesOf(x)| + 2 * PercentsOf(x) + SlashesOf(x) == i' - i
                      && (x.Plain? ==> x.bytes == s[i..i'])
  {
    var (r, width) := DecodeAt(s, i);
    if r == RUNE_ERROR then Err(BadUtf8)
    else if r == PERCENT then
      if !GoodPercent(s, i) then Err(BadPercent(if |s| - i > 3 then s[i..i + 3] else s[i..]))
      else Ok((Percent(Unhex(s[i + 1]) * 16 + Unhex(s[i + 2])), i + 3, nc + 1))
    else if r == SLASH then
      if nc % SPLIT_LENGTH != 0 then Err(MisplacedSlash) else Ok((Slash, i + 1, nc))
    else Ok((Plain(s[i..i + width]), i + width, nc + 1))
  }

  /** The tokens from position `i` on. */
  function Scan(s: seq<Byte>, i: nat, nc: nat): Result<seq<Token>>
    decreases |s| - i
  {
    if i >= |s| then Ok([]) else
    match Step(s, i, nc)
    case Err(e) => Err(e)
    case Ok((x, i', nc')) => Prepend([x], Scan(s, i', nc'))
  }

  function BytesOf(x: Token): seq<Byte> {
    match x case Percent(v) => [v] case Slash => [] case Plain(bytes) => bytes
  }

  /** Separators are not characters. */
  function CharsOf(x: Token): nat { if x.Slash? then 0 else 1 }

  function PercentsOf(x: Token): nat { if x.Percent? then 1 else 0 }

  function SlashesOf(x: Token): nat { if x.Slash? then 1 else 0 }

  function Output(ts: seq<Token>): seq<Byte> {
    if ts == [] then [] else BytesOf(ts[0]) + Output(ts[1..])
  }

  function Chars(ts: seq<Token>): nat {
    if ts == [] then 0 else CharsOf(ts[0]) + Chars(ts[1..])
  }

  function Percents(ts: seq<Token>): nat {
    if ts == [] then 0 else PercentsOf(ts[0]) + Percents(ts[1..])
  }

  function Slashes(ts: seq<Token>): nat {
    if ts == [] then 0 else SlashesOf(ts[0]) + Slashes(ts[1..])
  }

  predicate EndsWithMarker(s: seq<Byte>) {
    |s| >= 2 && s[|s| - 2] == DOT && s[|s| - 1] == LOWER_F
  }

  predicate IsMarked(s: seq<Byte>, nc: nat) {
    nc > SPLIT_LENGTH && nc % SPLIT_LENGTH == 2 && EndsWithMarker(s)
  }

  function Unmarked(s: seq<Byte>, nc: nat): seq<Byte> {
    if IsMarked(s, nc) then s[..|s| - 2] else s
  }

  /** What unescape returns: the decoded bytes and whether a file marker was removed. */
  function Unescaped(s: seq<Byte>): Result<(seq<Byte>, bool)> {
    match Scan(s, 0, 0)
    case Err(e) => Err(e)
    case Ok(ts) =>
      var s' := Unmarked(s, Chars(ts));
      match Scan(s', 0, 0)
      case Err(e) => Err(e)
      case Ok(ts') => Ok((Output(ts'), IsMarked(s, Chars(ts))))
  }

  lemma {:induction false} OutputAppend(ts: seq<Token>, x: Token)
    ensures Output(ts + [x]) == Output(ts) + BytesOf(x)
  {
    hide BytesOf;
    if ts == [] {
      assert [] + [x] == [x] && [x][1..] == [];
    } else {
      OutputAppend(ts[1..], x);
      assert (ts + [x])[1..] == ts[1..] + [x] && (ts + [x])[0] == ts[0];
      assert BytesOf(ts[0]) + (Output(ts[1..]) + BytesOf(x)) == BytesOf(ts[0]) + Output(ts[1..]) + BytesOf(x);
    }
  }

  lemma {:induction false} CountsAppend(ts: seq<Token>, x: Token)
    ensures Chars(ts + [x]) == Chars(ts) + CharsOf(x)
    ensures Percents(ts + [x]) == Percents(ts) + PercentsOf(x)
    ensures Slashes(ts + [x]) == Slashes(ts) + SlashesOf(x)
  {
    hide CharsOf, PercentsOf, SlashesOf;
    if ts == [] {
      assert [] + [x] == [x] && [x][1..] == [];
    } else {
      CountsAppend(ts[1..], x);
      assert (ts + [x])[1..] == ts[1..] + [x] && (ts + [x])[0] == ts[0];
    }
  }

  lemma PrependTwice(done: seq<Token>, x: Token, r: Result<seq<Token>>)
    ensures Prepend(done, Prepend([x], r)) == Prepend(done + [x], r)
  {
    if r.Ok? { assert done + ([x] + r.value) == done + [x] + r.value; }
  }

  /** Splitting the first token off a scan that succeeds. */
  lemma ScanStep(s: seq<Byte>, i: nat, nc: nat)
    requires i < |s| && Scan(s, i, nc).Ok?
    ensures Step(s, i, nc).Ok?
    ensures var (x, i', nc') := Step(s, i, nc).value;
            && Scan(s, i', nc').Ok? && Scan(s, i, nc).value == [x] + Scan(s, i', nc').value
            && Output(Scan(s, i, nc).value) == BytesOf(x) + Output(Scan(s, i', nc').value)
            && Chars(Scan(s, i, nc).value) == CharsOf(x) + Chars(Scan(s, i', nc').value)
            && Percents(Scan(s, i, nc).value) == PercentsOf(x) + Percents(Scan(s, i', nc').value)
            && Slashes(Scan(s, i, nc).value) == SlashesOf(x) + Slashes(Scan(s, i', nc').value)
  {
    var (x, i', nc') := Step(s, i, nc).value;
    var rest := Scan(s, i', nc').value;
    assert ([x] + rest)[1..] == rest;
  }

  /** A token takes three bytes for one, one for none, or its own bytes. */
  lemma {:induction false} ScanLength(s: seq<Byte>, i: nat, nc: nat)
    requires i <= |s| && Scan(s, i, nc).Ok?
    ensures var ts := Scan(s, i, nc).value;
            |Output(ts)| + 2 * Percents(ts) + Slashes(ts) == |s| - i && Chars(ts) <= |s| - i
    decreases |s| - i
  {
    if i < |s| {
      ScanStep(s, i, nc);
      var (_, i', nc') := Step(s, i, nc).value;
      ScanLength(s, i', nc');
    }
  }

  lemma SliceJoin(s: seq<Byte>, i: nat, j: nat)
    requires i <= j <= |s|
    ensures s[i..] == s[i..j] + s[j..]
  {
  }

  lemma {:induction false} PlainScan(s: seq<Byte>, i: nat, nc: nat)
    requires i <= |s| && Scan(s, i, nc).Ok?
    requires Percents(Scan(s, i, nc).value) == 0 && Slashes(Scan(s, i, nc).value) == 0
    ensures Output(Scan(s, i, nc).value) == s[i..]
    decreases |s| - i
  {
    hide DecodeAt, Step;
    if i == |s| {
      assert Scan(s, i, nc) == Ok([]);
    } else {
      hide Scan, Output, Percents, Slashes;
      ScanStep(s, i, nc);
      var (_, i', nc') := Step(s, i, nc).value;
      PlainScan(s, i', nc');
      SliceJoin(s, i, i');
    }
  }

  lemma Cut(s: seq<Byte>, s': seq<Byte>, i: nat, i': nat)
    requires s' <= s && i <= i' <= |s'|
    ensures s[i..i'] == s'[i..i']
  {
  }

  /** Bytes that cannot continue a character may as well be the end of the string. */
  lemma DecodeBeforeMarker(s: seq<Byte>, i: nat)
    requires EndsWithMarker(s) && i < |s| - 2
    ensures DecodeAt(s[..|s| - 2], i) == DecodeAt(s, i)
  {
  }

  lemma StepBeforeMarker(s: seq<Byte>, i: nat, nc: nat)
    requires EndsWithMarker(s) && i < |s| - 2 && Step(s, i, nc).Ok?
    ensures Step(s[..|s| - 2], i, nc) == Step(s, i, nc) && Step(s, i, nc).value.1 <= |s| - 2
  {
    var s' := s[..|s| - 2];
    DecodeBeforeMarker(s, i);
    var (_, width) := DecodeAt(s, i);
    Cut(s, s', i, i + width);
  }

  const MARKER_TOKENS := [Plain([DOT]), Plain([LOWER_F])]

  lemma ScanMarker(s: seq<Byte>, nc: nat)
    requires EndsWithMarker(s)
    ensures Scan(s, |s| - 2, nc) == Ok(MARKER_TOKENS)
  {
    var i := |s| - 2;
    assert s[i + 1..i + 2] == [LOWER_F] && s[i..i + 1] == [DOT];
    assert Step(s, i, nc) == Ok((Plain([DOT]), i + 1, nc + 1));
    assert Step(s, i + 1, nc + 1) == Ok((Plain([LOWER_F]), i + 2, nc + 2));
    var last := Scan(s, i + 2, nc + 2);
    assert last == Ok([]);
    assert Scan(s, i + 1, nc + 1) == Prepend([Plain([LOWER_F])], last);
    assert [Plain([LOWER_F])] + [] == [Plain([LOWER_F])];
    assert Scan(s, i, nc) == Prepend([Plain([DOT])], Scan(s, i + 1, nc + 1));
    assert [Plain([DOT])] + [Plain([LOWER_F])] == MARKER_TOKENS;
  }

  /** The file marker is always two tokens of its own: cutting it off cuts off these two. */
  lemma {:induction false} ScanWithoutMarker(s: seq<Byte>, i: nat, nc: nat)
    requires EndsWithMarker(s) && i <= |s| - 2 && Scan(s, i, nc).Ok?
    ensures Scan(s[..|s| - 2], i, nc).Ok?
    ensures Scan(s, i, nc).value == Scan(s[..|s| - 2], i, nc).value + MARKER_TOKENS
    decreases |s| - i
  {
    if i == |s| - 2 {
      ScanMarker(s, nc);
    } else {
      ScanStep(s, i, nc);
      StepBeforeMarker(s, i, nc);
      var (x, i', nc') := Step(s, i, nc).value;
      ScanWithoutMarker(s, i', nc');
      var rest := Scan(s[..|s| - 2], i', nc').value;
      assert [x] + (rest + MARKER_TOKENS) == [x] + rest + MARKER_TOKENS;
    }
  }

  /** Removing the marker removes two characters and nothing else. */
  lemma UnmarkedScan(s: seq<Byte>)
    requires Scan(s, 0, 0).Ok?
    ensures var ts := Scan(s, 0, 0).value;
            var un := Scan(Unmarked(s, Chars(ts)), 0, 0);
            && Chars(ts) <= |s|
            && un.Ok? && Percents(un.value) == Percents(ts) && Slashes(un.value) == Slashes(ts)
            && Output(ts) == Output(un.value) + if IsMarked(s, Chars(ts)) then [DOT, LOWER_F] else []
  {
    var ts := Scan(s, 0, 0).value;
    ScanLength(s, 0, 0);
    if IsMarked(s, Chars(ts)) {
      ScanWithoutMarker(s, 0, 0);
      MarkerCounts(Scan(s[..|s| - 2], 0, 0).value);
    }
  }

  lemma MarkerCounts(un: seq<Token>)
    ensures var ts := un + MARKER_TOKENS;
            && Percents(un) == Percents(ts) && Slashes(un) == Slashes(ts)
            && Output(ts) == Output(un) + [DOT, LOWER_F]
  {
    var x, y := MARKER_TOKENS[0], MARKER_TOKENS[1];
    assert un + MARKER_TOKENS == un + [x] + [y];
    CountsAppend(un, x);
    CountsAppend(un + [x], y);
    OutputAppend(un, x);
    OutputAppend(un + [x], y);
  }

  /** `done` are the tokens before position `i`, and the three counters count them. */
  ghost predicate Counted(s: seq<Byte>, i: nat, done: seq<Token>, n: nat, ns: nat, nc: nat) {
    && i <= |s| && Scan(s, 0, 0) == Prepend(done, Scan(s, i, nc))
    && n == Percents(done) && ns == Slashes(done) && nc == Chars(done)
  }

  lemma CountedStep(s: seq<Byte>, i: nat, done: seq<Token>, n: nat, ns: nat, nc: nat)
    requires Counted(s, i, done, n, ns, nc) && i < |s| && Step(s, i, nc).Ok?
    ensures var (x, i', nc') := Step(s, i, nc).value;
            Counted(s, i', done + [x], n + PercentsOf(x), ns + SlashesOf(x), nc')
  {
    var (x, i', nc') := Step(s, i, nc).value;
    PrependTwice(done, x, Scan(s, i', nc'));
    CountsAppend(done, x);
  }

  /** One turn of the counting loop: `d` and `ds` say whether the token is a percent or a slash. */
  method CountToken(s: seq<Byte>, i: nat, nc: nat) returns (r: Result<(nat, nat)>, i': nat, nc': nat)
    requires i < |s|
    ensures Step(s, i, nc).Err? ==> r == Err(Step(s, i, nc).error)
    ensures Step(s, i, nc).Ok? ==>
              var x := Step(s, i, nc).value.0;
              r == Ok((PercentsOf(x), SlashesOf(x))) && Step(s, i, nc).value == (x, i', nc')
  {
    var (c, width) := DecodeAt(s, i);
    i', nc' := i, nc;
    if c == RUNE_ERROR {
      r := Err(BadUtf8);
    } else if c == PERCENT {
      if i + 2 >= |s| || !IsHex(s[i + 1]) || !IsHex(s[i + 2]) {
        var text := s[i..];
        if |text| > 3 {
          text := text[..3];
          assert text == s[i..i + 3];
        }
        return Err(BadPercent(text)), i, nc;
      }
      r, i', nc' := Ok((1, 0)), i + 3, nc + 1;
    } else if c == SLASH {
      if nc % SPLIT_LENGTH != 0 {
        return Err(MisplacedSlash), i, nc;
      }
      r, i' := Ok((0, 1)), i + 1;
    } else {
      r, i', nc' := Ok((0, 0)), i + width, nc + 1;
    }
  }

  /** The counting loop of unescape: percent tokens, slashes, characters. */
  method CountTokens(s: seq<Byte>) returns (r: Result<(nat, nat, nat)>)
    ensures Scan(s, 0, 0).Err? ==> r == Err(Scan(s, 0, 0).error)
    ensures Scan(s, 0, 0).Ok? ==> var ts := Scan(s, 0, 0).value; r == Ok((Percents(ts), Slashes(ts), Chars(ts)))
  {
    var n, ns, nc, i := 0, 0, 0, 0;
    ghost var done: seq<Token> := [];
    while i < |s|
      invariant Counted(s, i, done, n, ns, nc)
      decreases |s| - i
    {
      var step, i', nc' := CountToken(s, i, nc);
      if step.Err? {
        return Err(step.error);
      }
      CountedStep(s, i, done, n, ns, nc);
      done := done + [Step(s, i, nc).value.0];
      n, ns, nc, i := n + step.value.0, ns + step.value.1, nc', i';
    }
    assert done + [] == done;
    return Ok((n, ns, nc));
  }

  /** The filling loop of unescape, on a buffer of exactly the decoded size. */
  method FillUnescaped(s: seq<Byte>, t: array<Byte>)
    requires Scan(s, 0, 0).Ok? && t.Length == |Output(Scan(s, 0, 0).value)|
    modifies t
    ensures t[..] == Output(Scan(s, 0, 0).value)
  {
    ghost var all := Output(Scan(s, 0, 0).value);
    var i: nat, j: nat := 0, 0;
    ghost var nc: nat := 0;
    while i < |s|
      invariant i <= |s| && Scan(s, i, nc).Ok?
      invariant j <= t.Length && t[..j] + Output(Scan(s, i, nc).value) == all
      decreases |s| - i
    {
      ScanStep(s, i, nc);
      ghost var (x, i', nc') := Step(s, i, nc).value;
      PartFits(t[..j], BytesOf(x), Output(Scan(s, i', nc').value), all);
      i, j := CopyToken(s, i, t, j, nc);
      nc := nc';
    }
    assert t[..j] + [] == t[..j] == t[..];
  }

  lemma PartFits(done: seq<Byte>, part: seq<Byte>, rest: seq<Byte>, all: seq<Byte>)
    requires done + (part + rest) == all
    ensures |done| + |part| <= |all| && done + part + rest == all
  {
    assert done + part + rest == done + (part + rest);
  }

  /** One turn of the filling loop: decodes the token at `i` into the buffer at `j`. */
  method CopyToken(s: seq<Byte>, i: nat, t: array<Byte>, j: nat, ghost nc: nat) returns (i': nat, j': nat)
    requires i < |s| && Step(s, i, nc).Ok?
    requires j + |BytesOf(Step(s, i, nc).value.0)| <= t.Length
    modifies t
    ensures i' == Step(s, i, nc).value.1
    ensures j' == j + |BytesOf(Step(s, i, nc).value.0)|
    ensures t[..j'] == old(t[..j]) + BytesOf(Step(s, i, nc).value.0)
  {
    var (c, width) := DecodeAt(s, i);
    if c == PERCENT {
      t[j] := Unhex(s[i + 1]) * 16 + Unhex(s[i + 2]);
      i', j' := i + 3, j + 1;
    } else if c == SLASH {
      i', j' := i + 1, j;
    } else {
      CopyInto(t, j, s[i..i + width]);
      i', j' := i + width, j + width;
    }
  }

  /** Again the buffer has exactly the computed size. The second scan cannot meet an error. */
  method Unescape(s: seq<Byte>) returns (r: Result<(seq<Byte>, bool)>)
    ensures r == Unescaped(s)
  {
    var counts := CountTokens(s);
    if counts.Err? {
      return Err(counts.error);
    }
    var (n, ns, nc) := counts.value;
    var hasFileMarker := false;
    var s' := s;
    if nc > SPLIT_LENGTH && nc % SPLIT_LENGTH == 2 && s[|s| - 2..] == [DOT, LOWER_F] {
      hasFileMarker := true;
      s' := s[..|s| - 2];
    }
    UnmarkedScan(s);
    assert s' == Unmarked(s, nc) && hasFileMarker == IsMarked(s, nc);
    if n == 0 && ns == 0 {
      PlainScan(s', 0, 0);
      return Ok((s', hasFileMarker));
    }
    ScanLength(s', 0, 0);
    var t := new Byte[|s'| - n * 2 - ns];
    FillUnescaped(s', t);
    return Ok((t[..], hasFileMarker));
  }

  // ---------------------------------------------------------------- what is read, in plain terms

  const UPPER_DIGITS := "0123456789ABCDEF"
  const LOWER_DIGITS := "0123456789abcdef"

  /** A percent sign stands for one byte, given by two hexadecimal digits with letters in either case. */
  lemma PercentMeans(a: Byte, b: Byte, x: nat, y: nat)
    requires x < 16 && (a == UPPER_DIGITS[x] as int || a == LOWER_DIGITS[x] as int)
    requires y < 16 && (b == UPPER_DIGITS[y] as int || b == LOWER_DIGITS[y] as int)
    ensures Unescaped([0x25, a, b]) == Ok(([16 * x + y], false))
  {
    DigitMeans(a, x);
    DigitMeans(b, y);
    var s := [0x25, a, b];
    OneStep(s, Percent(16 * x + y));
  }

  lemma DigitMeans(a: Byte, x: nat)
    requires x < 16 && (a == UPPER_DIGITS[x] as int || a == LOWER_DIGITS[x] as int)
    ensures IsHex(a) && Unhex(a) == x
  {
  }

  lemma OneStep(s: seq<Byte>, x: Token)
    requires |s| == 3 && !x.Slash? && Step(s, 0, 0) == Ok((x, 3, 1))
    ensures Unescaped(s) == Ok((BytesOf(x), false))
  {
    hide Step;
    assert Scan(s, 3, 1) == Ok([]);
    assert Prepend([x], Ok([])).value == [x] + [] == [x];
    assert Scan(s, 0, 0) == Prepend([x], Scan(s, 3, 1)) == Ok([x]);
    assert [x][1..] == [] && Chars([x]) == CharsOf(x) + Chars([]) == 1;
    assert Output([x]) == BytesOf(x) + Output([]) == BytesOf(x);
    assert !IsMarked(s, 1);
  }

  /** Anything else after a percent sign is an error. */
  lemma BadPercentMeans(a: Byte, b: Byte)
    requires forall x :: 0 <= x < 16 ==> a != UPPER_DIGITS[x] as int && a != LOWER_DIGITS[x] as int
    ensures Unescaped([0x25, a, b]) == Err(BadPercent([0x25, a, b]))
    ensures Unescaped([0x25, b, a]) == Err(BadPercent([0x25, b, a]))
    ensures Unescaped([0x25, b]) == Err(BadPercent([0x25, b])) && Unescaped([0x25]) == Err(BadPercent([0x25]))
  {
    if IsHex(a) { var x := HexIsDigit(a); }
    assert [0x25, a, b][0..3] == [0x25, a, b] && [0x25, b, a][0..3] == [0x25, b, a];
    assert [0x25, b][0..] == [0x25, b] && [0x25][0..] == [0x25];
  }

  lemma HexIsDigit(a: Byte) returns (x: nat)
    requires IsHex(a)
    ensures x < 16 && (a == UPPER_DIGITS[x] as int || a == LOWER_DIGITS[x] as int)
  {
    x := if a <= 0x39 then a - 0x30 else if a <= 0x46 then a - 0x37 else a - 0x57;
  }

  /** What goes wrong behind plain runes goes wrong for the whole. */
  lemma {:induction false} ErrorBehind(s: seq<Byte>, i: nat, nc: nat, k: seq<Rune>, m: nat, rest: seq<Byte>)
    requires i <= |s| && m <= |k| && s[i..] == EncodeFrom(k, m) + rest && |rest| <= |s|
    requires forall j :: 0 <= j < |k| ==> k[j] != 0x25 && k[j] != 0x2F && k[j] != 0xFFFD
    requires Scan(s, |s| - |rest|, nc + |k| - m).Err?
    ensures Scan(s, i, nc) == Scan(s, |s| - |rest|, nc + |k| - m)
    decreases |k| - m
  {
    hide DecodeAt, Utf8, Scan;
    if m < |k| {
      var u := Utf8(k[m]);
      assert u + EncodeFrom(k, m + 1) + rest == u + (EncodeFrom(k, m + 1) + rest);
      hide EncodeFrom;
      FrontPart(s, i, u, EncodeFrom(k, m + 1) + rest);
      DecodeUtf8(s, i, k[m]);
      ErrorBehind(s, i + |u|, nc + 1, k, m + 1, rest);
      PlainStep(s, i, nc, k[m]);
    } else {
      assert s[i..] == rest;
    }
  }

  lemma FrontPart(s: seq<Byte>, i: nat, u: seq<Byte>, v: seq<Byte>)
    requires i <= |s| && s[i..] == u + v
    ensures At(s, i, u) && i + |u| <= |s| && s[i + |u|..] == v
  {
    assert s[i..i + |u|] == s[i..][..|u|] && s[i + |u|..] == s[i..][|u|..];
  }

  lemma PlainStep(s: seq<Byte>, i: nat, nc: nat, c: Rune)
    requires At(s, i, Utf8(c)) && i < |s| && DecodeAt(s, i) == (c, |Utf8(c)|) && c != 0x25 && c != 0x2F && c != 0xFFFD
    requires Scan(s, i + |Utf8(c)|, nc + 1).Err?
    ensures Scan(s, i, nc) == Scan(s, i + |Utf8(c)|, nc + 1)
  {
    hide DecodeAt, Utf8;
  }

  /** A slash is accepted behind every 8th rune only. */
  lemma SlashMeans(k: seq<Rune>, rest: seq<Byte>)
    requires forall j :: 0 <= j < |k| ==> k[j] != 0x25 && k[j] != 0x2F && k[j] != 0xFFFD
    requires |k| % 8 != 0
    ensures Unescaped(Encode(k) + [0x2F] + rest) == Err(MisplacedSlash)
  {
    var s := Encode(k) + [0x2F] + rest;
    var tail := [0x2F] + rest;
    assert s == Encode(k) + tail && s[0..] == s;
    assert s[|s| - |tail|] == 0x2F;
    assert Step(s, |s| - |tail|, |k|) == Err(MisplacedSlash);
    ErrorBehind(s, 0, 0, k, 0, tail);
  }
}
