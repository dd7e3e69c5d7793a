/** What `unescape` makes of escaped keys: the round trip and its exact condition. */
module FlatKeys {
  import opened Runes
  import opened FlatEscape
  import opened FlatUnescape

  // ---------------------------------------------------------------- round trip

  function TokensOf(c: Rune): Token {
    if ShouldEscape(c) then Percent(c) else Plain(Utf8(c))
  }

  /** The tokens of the separator that `Separator` writes. */
  function SeparatorTokens(n: nat, m: nat): seq<Token> {
    if m % SPLIT_LENGTH == 0 && m == n then MARKER_TOKENS
    else if m % SPLIT_LENGTH == 0 then [Slash] else []
  }

  function TokensFrom(k: seq<Rune>, m: nat): seq<Token>
    decreases |k| - m
  {
    if m >= |k| then [] else [TokensOf(k[m])] + (SeparatorTokens(|k|, m + 1) + TokensFrom(k, m + 1))
  }

  /** What unescape makes of a character that escape wrote. */
  lemma StepOverUnit(s: seq<Byte>, i: nat, nc: nat, c: Rune)
    requires At(s, i, Unit(c))
    ensures i < |s|
    ensures Step(s, i, nc) == if c == RUNE_ERROR then Err(BadUtf8) else Ok((TokensOf(c), i + |Unit(c)|, nc + 1))
  {
    var u := Unit(c);
    ByteAt(s, i, u, 0);
    if ShouldEscape(c) {
      ByteAt(s, i, u, 1);
      ByteAt(s, i, u, 2);
    } else {
      DecodeUtf8(s, i, c);
    }
  }

  /** Position `i` of `s` is where the escaped rest of `k`, from character `m` on, begins. */
  ghost predicate RestAt(s: seq<Byte>, i: nat, k: seq<Rune>, m: nat) {
    i <= |s| && m <= |k| && s[i..] == EscapedFrom(k, m)
  }

  lemma UnitAt(s: seq<Byte>, i: nat, k: seq<Rune>, m: nat)
    requires RestAt(s, i, k, m) && m < |k|
    ensures At(s, i, Unit(k[m]) + Separator(|k|, m + 1)) && At(s, i, Unit(k[m]))
    ensures RestAt(s, i + |Unit(k[m])| + |Separator(|k|, m + 1)|, k, m + 1)
  {
    hide Utf8, Unit, Separator;
    var u, sep, rest := Unit(k[m]), Separator(|k|, m + 1), EscapedFrom(k, m + 1);
    SliceParts(s, i, u, sep, rest);
  }

  lemma SliceParts(s: seq<Byte>, i: nat, u: seq<Byte>, v: seq<Byte>, rest: seq<Byte>)
    requires i <= |s| && s[i..] == u + v + rest
    ensures i + |u| + |v| <= |s| && s[i..i + |u + v|] == u + v && s[i..i + |u|] == u && s[i + |u| + |v|..] == rest
  {
    var t := s[i..];
    assert t[..|u + v|] == u + v && t[..|u|] == u && t[|u + v|..] == rest;
    assert s[i..i + |u + v|] == t[..|u + v|] && s[i..i + |u|] == t[..|u|] && s[i + |u| + |v|..] == t[|u + v|..];
  }

  lemma ScanSeparator(s: seq<Byte>, i: nat, n: nat, m: nat, done: seq<Token>)
    requires At(s, i, Separator(n, m)) && (m == n ==> i + |Separator(n, m)| == |s|)
    requires Scan(s, i + |Separator(n, m)|, m) == Ok(done) && (m == n ==> done == [])
    ensures Scan(s, i, m) == Ok(SeparatorTokens(n, m) + done)
  {
    var sep := Separator(n, m);
    if m % SPLIT_LENGTH == 0 {
      ByteAt(s, i, sep, 0);
      if m == n {
        ByteAt(s, i, sep, 1);
        ScanMarker(s, m);
        assert MARKER_TOKENS + done == MARKER_TOKENS;
      } else {
        assert Step(s, i, m) == Ok((Slash, i + 1, m));
      }
    } else {
      assert [] + done == done;
    }
  }

  ghost predicate NoRuneError(k: seq<Rune>, m: nat) {
    forall j :: m <= j < |k| ==> k[j] != RUNE_ERROR
  }

  /** Where the rest after character `m` and its separator begins. */
  function Next(i: nat, k: seq<Rune>, m: nat): nat
    requires m < |k|
  {
    i + |Unit(k[m])| + |Separator(|k|, m + 1)|
  }

  lemma ScanUnit(s: seq<Byte>, i: nat, nc: nat, c: Rune, ts: seq<Token>)
    requires At(s, i, Unit(c)) && c != RUNE_ERROR && Scan(s, i + |Unit(c)|, nc + 1) == Ok(ts)
    ensures Scan(s, i, nc) == Ok([TokensOf(c)] + ts)
  {
    hide DecodeAt, Utf8, Unit, Step, TokensOf;
    StepOverUnit(s, i, nc, c);
  }

  /** Where in `s` the character `m` of `k`, its separator and the rest behind them stand. */
  lemma PartsAt(s: seq<Byte>, i: nat, k: seq<Rune>, m: nat)
    requires RestAt(s, i, k, m) && m < |k|
    ensures At(s, i, Unit(k[m])) && At(s, i + |Unit(k[m])|, Separator(|k|, m + 1))
    ensures RestAt(s, Next(i, k, m), k, m + 1)
    ensures m + 1 == |k| ==> Next(i, k, m) == |s|
  {
    UnitAt(s, i, k, m);
    SeparatorAt(s, i, Unit(k[m]), Separator(|k|, m + 1));
    if m + 1 == |k| { assert s[Next(i, k, m)..] == []; }
  }

  /** One character and its separator, in front of a rest that is known. */
  lemma ScanTurn(s: seq<Byte>, i: nat, i': nat, c: Rune, n: nat, m: nat, ts: seq<Token>)
    requires At(s, i, Unit(c)) && i' == i + |Unit(c)| && c != RUNE_ERROR
    requires At(s, i', Separator(n, m + 1)) && (m + 1 == n ==> i' + |Separator(n, m + 1)| == |s|)
    requires Scan(s, i' + |Separator(n, m + 1)|, m + 1) == Ok(ts) && (m + 1 == n ==> ts == [])
    ensures Scan(s, i, m) == Ok([TokensOf(c)] + (SeparatorTokens(n, m + 1) + ts))
  {
    hide *;
    ScanSeparator(s, i', n, m + 1, ts);
    ScanUnit(s, i, m, c, SeparatorTokens(n, m + 1) + ts);
  }

  lemma {:induction false} ScanEscaped(s: seq<Byte>, i: nat, k: seq<Rune>, m: nat)
    requires RestAt(s, i, k, m) && NoRuneError(k, m)
    ensures Scan(s, i, m) == Ok(TokensFrom(k, m))
    decreases |k| - m
  {
    hide DecodeAt, Utf8, Unit, Step, Separator, SeparatorTokens, TokensOf;
    if m < |k| {
      PartsAt(s, i, k, m);
      ScanEscaped(s, Next(i, k, m), k, m + 1);
      ScanTurn(s, i, i + |Unit(k[m])|, k[m], |k|, m, TokensFrom(k, m + 1));
    }
  }

  lemma RefuseUnit(s: seq<Byte>, i: nat, nc: nat, c: Rune)
    requires At(s, i, Unit(c)) && c != RUNE_ERROR && Scan(s, i + |Unit(c)|, nc + 1) == Err(BadUtf8)
    ensures Scan(s, i, nc) == Err(BadUtf8)
  {
    hide DecodeAt, Utf8, Unit, Step, TokensOf;
    StepOverUnit(s, i, nc, c);
  }

  lemma RefuseTurn(s: seq<Byte>, i: nat, i': nat, c: Rune, n: nat, m: nat)
    requires At(s, i, Unit(c)) && i' == i + |Unit(c)| && c != RUNE_ERROR && m + 1 < n
    requires At(s, i', Separator(n, m + 1))
    requires Scan(s, i' + |Separator(n, m + 1)|, m + 1) == Err(BadUtf8)
    ensures Scan(s, i, m) == Err(BadUtf8)
  {
    hide *;
    RefuseSeparator(s, i', n, m + 1);
    RefuseUnit(s, i, m, c);
  }

  lemma RefuseSeparator(s: seq<Byte>, i: nat, n: nat, m: nat)
    requires At(s, i, Separator(n, m)) && m < n
    requires Scan(s, i + |Separator(n, m)|, m) == Err(BadUtf8)
    ensures Scan(s, i, m) == Err(BadUtf8)
  {
    if m % SPLIT_LENGTH == 0 {
      ByteAt(s, i, Separator(n, m), 0);
      assert Step(s, i, m) == Ok((Slash, i + 1, m));
    }
  }

  lemma ScanRuneError(s: seq<Byte>, i: nat, nc: nat, c: Rune)
    requires At(s, i, Unit(c)) && c == RUNE_ERROR
    ensures Scan(s, i, nc) == Err(BadUtf8)
  {
    hide DecodeAt, Utf8, Unit, Step, TokensOf;
    StepOverUnit(s, i, nc, c);
  }

  /** unescape refuses the character that stands for invalid bytes, even when the key holds it. */
  lemma {:induction false} ScanRefuses(s: seq<Byte>, i: nat, k: seq<Rune>, m: nat)
    requires RestAt(s, i, k, m) && !NoRuneError(k, m)
    ensures Scan(s, i, m) == Err(BadUtf8)
    decreases |k| - m
  {
    hide DecodeAt, Utf8, Unit, Separator, Step, Scan, EscapedFrom;
    PartsAt(s, i, k, m);
    if k[m] == RUNE_ERROR {
      ScanRuneError(s, i, m, k[m]);
    } else {
      ScanRefuses(s, Next(i, k, m), k, m + 1);
      RefuseTurn(s, i, i + |Unit(k[m])|, k[m], |k|, m);
    }
  }

  lemma SeparatorAt(s: seq<Byte>, i: nat, u: seq<Byte>, sep: seq<Byte>)
    requires At(s, i, u + sep)
    ensures At(s, i + |u|, sep)
  {
    assert s[i + |u|..i + |u + sep|] == s[i..i + |u + sep|][|u|..] == sep;
  }

  lemma CountsFirst(x: Token, ts: seq<Token>)
    ensures Chars([x] + ts) == CharsOf(x) + Chars(ts) && Output([x] + ts) == BytesOf(x) + Output(ts)
  {
    assert ([x] + ts)[1..] == ts;
  }

  /** The file marker's part in the token counts of the rest from `m` on. */
  function MarkerOf(k: seq<Rune>): seq<Byte> {
    if HasFileMarker(k) then [DOT, LOWER_F] else []
  }

  /** The counts promised for the rest of `k` from character `m` on. */
  ghost predicate Counts(k: seq<Rune>, m: nat, ts: seq<Token>) {
    Chars(ts) == |k| - m + |MarkerOf(k)| && Output(ts) == EncodeFrom(k, m) + MarkerOf(k)
  }

  lemma CountsBefore(k: seq<Rune>, m: nat)
    requires m < |k| && (m + 1 == |k| ==> !HasFileMarker(k)) && Counts(k, m + 1, TokensFrom(k, m + 1))
    ensures Counts(k, m, TokensFrom(k, m))
  {
    hide Utf8, Output, Chars, TokensOf, BytesOf, CharsOf, SeparatorTokens, MarkerOf;
    var sep, rest := SeparatorTokens(|k|, m + 1), TokensFrom(k, m + 1);
    CountsFirst(TokensOf(k[m]), sep + rest);
    BytesOfTokens(k[m]);
    CountsAfterSeparator(|k|, m + 1, rest);
    Regroup(Utf8(k[m]), EncodeFrom(k, m + 1), MarkerOf(k), []);
  }

  lemma CountsAtEnd(k: seq<Rune>, m: nat)
    requires m + 1 == |k| && HasFileMarker(k)
    ensures Counts(k, m, TokensFrom(k, m))
  {
    hide Utf8, Output, Chars, TokensOf, BytesOf, CharsOf, SeparatorTokens;
    var sep := SeparatorTokens(|k|, m + 1);
    CountsFirst(TokensOf(k[m]), sep);
    BytesOfTokens(k[m]);
    CountsOfMarker(|k|);
    assert sep + [] == sep;
    assert EncodeFrom(k, m) == Utf8(k[m]) + [];
  }

  lemma {:induction false} TokenCounts(k: seq<Rune>, m: nat)
    requires m < |k| || (m == |k| && !HasFileMarker(k))
    ensures Counts(k, m, TokensFrom(k, m))
    decreases |k| - m
  {
    hide Counts, TokensFrom;
    if m == |k| {
      CountsOfNothing(k);
    } else if m + 1 == |k| && HasFileMarker(k) {
      CountsAtEnd(k, m);
    } else {
      TokenCounts(k, m + 1);
      CountsBefore(k, m);
    }
  }

  lemma CountsOfNothing(k: seq<Rune>)
    requires !HasFileMarker(k)
    ensures Counts(k, |k|, TokensFrom(k, |k|))
  {
  }

  lemma CountsOfMarker(n: nat)
    requires n % SPLIT_LENGTH == 0
    ensures Chars(SeparatorTokens(n, n)) == 2 && Output(SeparatorTokens(n, n)) == [DOT, LOWER_F]
  {
    MarkerTail();
  }

  lemma BytesOfTokens(c: Rune)
    ensures BytesOf(TokensOf(c)) == Utf8(c) && CharsOf(TokensOf(c)) == 1
  {
  }

  lemma CountsAfterSeparator(n: nat, m: nat, rest: seq<Token>)
    requires !(m % SPLIT_LENGTH == 0 && m == n)
    ensures var ts := SeparatorTokens(n, m) + rest; Chars(ts) == Chars(rest) && Output(ts) == Output(rest)
  {
    if m % SPLIT_LENGTH == 0 {
      CountsFirst(Slash, rest);
    } else {
      assert [] + rest == rest;
    }
  }

  lemma MarkerTail()
    ensures Chars(MARKER_TOKENS) == 2 && Output(MARKER_TOKENS) == [DOT, LOWER_F]
  {
    assert MARKER_TOKENS[1..] == [Plain([LOWER_F])] && [Plain([LOWER_F])][1..] == [];
    assert Output([Plain([LOWER_F])]) == [LOWER_F];
    assert Chars([Plain([LOWER_F])]) == 1;
  }

  /** The keys that look as if they carried a file marker. */
  predicate LooksMarked(k: seq<Rune>) {
    |k| > SPLIT_LENGTH && |k| % SPLIT_LENGTH == 2 && k[|k| - 2] == DOT && k[|k| - 1] == LOWER_F
  }

  lemma LastByte(c: Rune)
    ensures var u := Unit(c); (u[|u| - 1] == DOT <==> c == DOT) && (u[|u| - 1] == LOWER_F <==> c == LOWER_F)
  {
  }

  function LastUnits(k: seq<Rune>): seq<Byte>
    requires |k| >= 2
  {
    Unit(k[|k| - 2]) + Unit(k[|k| - 1])
  }

  lemma {:induction false} EscapedTail(k: seq<Rune>, m: nat)
    requires |k| >= 2 && m <= |k| - 2 && |k| % SPLIT_LENGTH == 2
    ensures var e, u := EscapedFrom(k, m), LastUnits(k); |e| >= |u| && e[|e| - |u|..] == u
    decreases |k| - m
  {
    hide Utf8, Unit, Separator, LastUnits;
    if m == |k| - 2 {
      LastTwo(k);
    } else {
      EscapedTail(k, m + 1);
      TailOf(Unit(k[m]) + Separator(|k|, m + 1), EscapedFrom(k, m + 1), LastUnits(k));
    }
  }

  lemma TailOf(head: seq<Byte>, rest: seq<Byte>, u: seq<Byte>)
    requires |rest| >= |u| && rest[|rest| - |u|..] == u
    ensures var e := head + rest; e[|e| - |u|..] == u
  {
  }

  lemma LastTwo(k: seq<Rune>)
    requires |k| >= 2 && |k| % SPLIT_LENGTH == 2
    ensures EscapedFrom(k, |k| - 2) == LastUnits(k)
  {
    hide Utf8, Unit;
    var n := |k|;
    assert Separator(n, n) == [] && Separator(n, n - 1) == [];
    assert EscapedFrom(k, n) == [];
    assert EscapedFrom(k, n - 1) == Unit(k[n - 1]) + [] + [];
    assert EscapedFrom(k, n - 2) == Unit(k[n - 2]) + [] + EscapedFrom(k, n - 1);
  }

  /** Only these two characters end the escaped key in ".f" without a file marker. */
  lemma EndsLikeMarker(k: seq<Rune>)
    requires |k| > SPLIT_LENGTH && |k| % SPLIT_LENGTH == 2
    ensures EndsWithMarker(Escaped(k)) <==> LooksMarked(k)
  {
    var e, a, b := Escaped(k), Unit(k[|k| - 2]), Unit(k[|k| - 1]);
    EscapedTail(k, 0);
    LastByte(k[|k| - 2]);
    LastByte(k[|k| - 1]);
    var tail := e[|e| - |a + b|..];
    assert tail == a + b;
    assert e[|e| - 1] == tail[|tail| - 1] == b[|b| - 1];
    assert |b| == 1 ==> e[|e| - 2] == tail[|tail| - 2] == a[|a| - 1];
    if k[|k| - 1] == LOWER_F { assert |b| == 1; }
  }

  lemma EscapedEndsWithMarker(k: seq<Rune>)
    requires HasFileMarker(k)
    ensures EndsWithMarker(Escaped(k))
  {
    BodyAndEscaped(k, 0);
  }

  /** What unescape returns for any escaped key, in all three cases. */
  lemma UnescapeOfEscape(k: seq<Rune>)
    ensures var marked := |k| > 8 && |k| % 8 == 2 && k[|k| - 2] == 0x2E && k[|k| - 1] == 0x66;
            && (0xFFFD in k ==> Unescaped(Escaped(k)) == Err(BadUtf8))
            && (0xFFFD !in k && !marked ==> Unescaped(Escaped(k)) == Ok((Encode(k), |k| > 0 && |k| % 8 == 0)))
            && (0xFFFD !in k && marked ==>
                  Unescaped(Escaped(k)).Ok?
                  && Encode(k) == Unescaped(Escaped(k)).value.0 + [0x2E, 0x66]
                  && Unescaped(Escaped(k)).value.1)
  {
    assert NoRuneError(k, 0) <==> 0xFFFD !in k;
    hide DecodeAt, Utf8, Unit, Step, Separator, TokensFrom, Scan, Output, Chars, EncodeFrom, EscapedFrom, IsMarked;
    var e := Escaped(k);
    assert RestAt(e, 0, k, 0);
    if !NoRuneError(k, 0) {
      ScanRefuses(e, 0, k, 0);
    } else {
      ScanEscaped(e, 0, k, 0);
      TokenCounts(k, 0);
      UnmarkedScan(e);
      MarkedWhen(k, |k| + |MarkerOf(k)|);
      var un := Output(Scan(Unmarked(e, |k| + |MarkerOf(k)|), 0, 0).value);
      if HasFileMarker(k) {
        SuffixOff(Encode(k), un);
      } else {
        assert Encode(k) + [] == Encode(k) && un + [] == un;
      }
    }
  }

  lemma SuffixOff(a: seq<Byte>, b: seq<Byte>)
    requires a + [DOT, LOWER_F] == b + [DOT, LOWER_F]
    ensures a == b
  {
    assert a == (a + [DOT, LOWER_F])[..|a|] && b == (b + [DOT, LOWER_F])[..|a|];
  }

  lemma MarkedWhen(k: seq<Rune>, nc: nat)
    requires nc == |k| + |MarkerOf(k)|
    ensures IsMarked(Escaped(k), nc) <==> HasFileMarker(k) || LooksMarked(k)
  {
    if HasFileMarker(k) {
      EscapedEndsWithMarker(k);
      assert (|k| + 2) % SPLIT_LENGTH == 2;
    } else if |k| > SPLIT_LENGTH && |k| % SPLIT_LENGTH == 2 {
      EndsLikeMarker(k);
    }
  }

  /** The round trip holds for exactly these keys. */
  lemma RoundTrip(k: seq<Rune>)
    ensures Unescaped(Escaped(k)) == Ok((Encode(k), |k| > 0 && |k| % 8 == 0)) <==>
            0xFFFD !in k && !(|k| > 8 && |k| % 8 == 2 && k[|k| - 2] == 0x2E && k[|k| - 1] == 0x66)
  {
    UnescapeOfEscape(k);
  }

  /** The smallest family that breaks it: ten characters of which the last two are ".f". */
  lemma RoundTripFails()
    ensures var k: seq<Rune> := [0x61, 0x61, 0x61, 0x61, 0x61, 0x61, 0x61, 0x61, DOT, LOWER_F];
            Unescaped(Escaped(k)) != Ok((Encode(k), HasFileMarker(k)))
  {
    RoundTrip([0x61, 0x61, 0x61, 0x61, 0x61, 0x61, 0x61, 0x61, DOT, LOWER_F]);
  }
}
