/** Runes and their UTF-8 bytes, and the byte strings that storage keys are made of. */
module Runes {

  type Byte = b: int | 0 <= b < 256

  /** A Unicode scalar value: a code point that is not a surrogate. */
  type Rune = c: int | 0 <= c < 0xD800 || 0xE000 <= c < 0x110000

  const SPLIT_LENGTH := 8
  const RUNE_ERROR: Rune := 0xFFFD
  const SLASH: Byte := 0x2F
  const PERCENT: Byte := 0x25
  const DOT: Byte := 0x2E
  const LOWER_F: Byte := 0x66

  // ---------------------------------------------------------------- UTF-8

  function Utf8(c: Rune): (s: seq<Byte>)
    ensures 1 <= |s| <= 4
    ensures c < 0x80 <==> s[0] < 0x80
    ensures c >= 0x80 ==> forall i :: 0 <= i < |s| ==> s[i] >= 0x80
    ensures c < 0x80 ==> s == [c]
  {
    if c < 0x80 then [c]
    else if c < 0x800 then [0xC0 + c / 0x40, 0x80 + c % 0x40]
    else if c < 0x10000 then [0xE0 + c / 0x1000, 0x80 + c / 0x40 % 0x40, 0x80 + c % 0x40]
    else [0xF0 + c / 0x40000, 0x80 + c / 0x1000 % 0x40, 0x80 + c / 0x40 % 0x40, 0x80 + c % 0x40]
  }

  predicate Continues(s: seq<Byte>, i: nat, lo: Byte, hi: Byte) {
    i < |s| && lo <= s[i] <= hi
  }

  /** The payload of a continuation byte. */
  function Low(b: Byte): int {
    b as int - 0x80
  }

  /** Rune and width at position `i`; invalid bytes give RUNE_ERROR with width 1. */
  function DecodeAt(s: seq<Byte>, i: nat): (r: (Rune, nat))
    requires i < |s|
    ensures 1 <= r.1 && i + r.1 <= |s|
    ensures r.0 < 0x80 <==> s[i] < 0x80
    ensures s[i] < 0x80 ==> r == (s[i], 1)
    ensures forall j :: i < j < i + r.1 ==> s[j] >= 0x80
  {
    var b: int := s[i];
    if b < 0x80 then (b, 1)
    else if 0xC2 <= b <= 0xDF && Continues(s, i + 1, 0x80, 0xBF) then
      ((b - 0xC0) * 0x40 + Low(s[i + 1]), 2)
    else if 0xE0 <= b <= 0xEF
            && Continues(s, i + 1, if b == 0xE0 then 0xA0 else 0x80, if b == 0xED then 0x9F else 0xBF)
            && Continues(s, i + 2, 0x80, 0xBF) then
      ((b - 0xE0) * 0x1000 + Low(s[i + 1]) * 0x40 + Low(s[i + 2]), 3)
    else if 0xF0 <= b <= 0xF4
            && Continues(s, i + 1, if b == 0xF0 then 0x90 else 0x80, if b == 0xF4 then 0x8F else 0xBF)
            && Continues(s, i + 2, 0x80, 0xBF) && Continues(s, i + 3, 0x80, 0xBF) then
      ((b - 0xF0) * 0x40000 + Low(s[i + 1]) * 0x1000 + Low(s[i + 2]) * 0x40 + Low(s[i + 3]), 4)
    else (RUNE_ERROR, 1)
  }

  /** `part` stands in `s` at position `i`. */
  ghost predicate At(s: seq<Byte>, i: nat, part: seq<Byte>) {
    i + |part| <= |s| && s[i..i + |part|] == part
  }

  lemma ByteAt(s: seq<Byte>, i: nat, part: seq<Byte>, j: nat)
    requires At(s, i, part) && j < |part|
    ensures s[i + j] == part[j]
  {
    assert s[i + j] == s[i..i + |part|][j];
  }

  lemma DecodeUtf8(s: seq<Byte>, i: nat, c: Rune)
    requires At(s, i, Utf8(c))
    ensures DecodeAt(s, i) == (c, |Utf8(c)|)
  {
    var u := Utf8(c);
    ByteAt(s, i, u, 0);
    if c >= 0x80 { ByteAt(s, i, u, 1); }
    if c >= 0x800 { ByteAt(s, i, u, 2); }
    if c >= 0x10000 { ByteAt(s, i, u, 3); }
    if 0x800 <= c < 0x10000 {
      assert c / 0x40 / 0x40 == c / 0x1000;
    } else if c >= 0x10000 {
      assert c / 0x40 / 0x40 == c / 0x1000 && c / 0x1000 / 0x40 == c / 0x40000;
    }
  }

  function EncodeFrom(k: seq<Rune>, m: nat): seq<Byte>
    decreases |k| - m
  {
    if m >= |k| then [] else Utf8(k[m]) + EncodeFrom(k, m + 1)
  }

  /** The UTF-8 bytes of a key. */
  function Encode(k: seq<Rune>): seq<Byte> {
    EncodeFrom(k, 0)
  }

  // ---------------------------------------------------------------- any string of bytes

  /** A byte that starts no rune: it decodes to RUNE_ERROR all by itself. */
  predicate InvalidAt(s: seq<Byte>, i: nat)
    requires i < |s|
  {
    DecodeAt(s, i) == (RUNE_ERROR, 1)
  }

  /** The runes that a loop over a string meets, from position `i` on. */
  function RunesFrom(s: seq<Byte>, i: nat): seq<Rune>
    decreases |s| - i
  {
    if i >= |s| then [] else [DecodeAt(s, i).0] + RunesFrom(s, i + DecodeAt(s, i).1)
  }

  function RunesOf(s: seq<Byte>): seq<Rune> {
    RunesFrom(s, 0)
  }

  /** The number of invalid bytes from position `i` on. */
  function InvalidFrom(s: seq<Byte>, i: nat): nat
    decreases |s| - i
  {
    if i >= |s| then 0 else (if InvalidAt(s, i) then 1 else 0) + InvalidFrom(s, i + DecodeAt(s, i).1)
  }

  lemma TwoBytes(a: int, b: int)
    requires 2 <= a < 0x20 && 0 <= b < 0x40
    ensures var c := a * 0x40 + b; 0x80 <= c < 0x800 && Utf8(c) == [0xC0 + a, 0x80 + b]
  {
  }

  lemma ThreeBytes(a: int, b: int, d: int)
    requires 0 <= a < 0x10 && 0 <= b < 0x40 && 0 <= d < 0x40
    requires (a == 0 ==> b >= 0x20) && (a == 0xD ==> b < 0x20)
    ensures var c := a * 0x1000 + b * 0x40 + d;
            (0x800 <= c < 0xD800 || 0xE000 <= c < 0x10000) && Utf8(c) == [0xE0 + a, 0x80 + b, 0x80 + d]
  {
    ThreeParts(a, b, d);
  }

  lemma FourBytes(a: int, b: int, d: int, e: int)
    requires 0 <= a <= 4 && 0 <= b < 0x40 && 0 <= d < 0x40 && 0 <= e < 0x40
    requires (a == 0 ==> b >= 0x10) && (a == 4 ==> b < 0x10)
    ensures var c := a * 0x40000 + b * 0x1000 + d * 0x40 + e;
            0x10000 <= c < 0x110000 && Utf8(c) == [0xF0 + a, 0x80 + b, 0x80 + d, 0x80 + e]
  {
    FourParts(a, b, d, e);
  }

  /** Encoding undoes decoding, except at an invalid byte, which is encoded in three bytes. */
  lemma EncodeDecoded(s: seq<Byte>, i: nat)
    requires i < |s|
    ensures var (c, width) := DecodeAt(s, i);
            if InvalidAt(s, i) then |Utf8(c)| == 3 else Utf8(c) == s[i..i + width]
  {
    var b: int := s[i];
    var (c, width) := DecodeAt(s, i);
    if InvalidAt(s, i) {
      assert |Utf8(RUNE_ERROR)| == 3;
    } else {
      hide Utf8;
      OneByte(c);
      if width == 2 {
        TwoBytes(b - 0xC0, Low(s[i + 1]));
      } else if width == 3 {
        ThreeBytes(b - 0xE0, Low(s[i + 1]), Low(s[i + 2]));
      } else if width == 4 {
        FourBytes(b - 0xF0, Low(s[i + 1]), Low(s[i + 2]), Low(s[i + 3]));
      }
    }
  }

  lemma OneByte(c: Rune)
    ensures c < 0x80 ==> Utf8(c) == [c]
  {
  }

  lemma ThreeParts(a: int, b: int, d: int)
    requires 0 <= a && 0 <= b < 0x40 && 0 <= d < 0x40
    ensures var c := a * 0x1000 + b * 0x40 + d;
            c / 0x1000 == a && c / 0x40 % 0x40 == b && c % 0x40 == d
  {
    var c := a * 0x1000 + b * 0x40 + d;
    assert c / 0x40 == a * 0x40 + b;
  }

  lemma FourParts(a: int, b: int, d: int, e: int)
    requires 0 <= a && 0 <= b < 0x40 && 0 <= d < 0x40 && 0 <= e < 0x40
    ensures var c := a * 0x40000 + b * 0x1000 + d * 0x40 + e;
            c / 0x40000 == a && c / 0x1000 % 0x40 == b && c / 0x40 % 0x40 == d && c % 0x40 == e
  {
    var c := a * 0x40000 + b * 0x1000 + d * 0x40 + e;
    assert c / 0x40 == a * 0x1000 + b * 0x40 + d;
    assert c / 0x1000 == a * 0x40 + b;
  }

  /** `k[m..]` are the runes of `s` from position `i` on. */
  ghost predicate Reads(s: seq<Byte>, i: nat, k: seq<Rune>, m: nat) {
    i <= |s| && m <= |k| && RunesFrom(s, i) == k[m..]
  }

  lemma ReadsStart(s: seq<Byte>)
    ensures Reads(s, 0, RunesOf(s), 0)
  {
  }

  lemma ReadsStep(s: seq<Byte>, i: nat, k: seq<Rune>, m: nat)
    requires Reads(s, i, k, m) && i < |s|
    ensures m < |k| && DecodeAt(s, i).0 == k[m] && Reads(s, i + DecodeAt(s, i).1, k, m + 1)
  {
    assert RunesFrom(s, i)[0] == k[m..][0] && RunesFrom(s, i)[1..] == k[m..][1..];
    assert RunesFrom(s, i)[1..] == RunesFrom(s, i + DecodeAt(s, i).1);
    assert k[m..][1..] == k[m + 1..];
  }

  lemma ReadsEnd(s: seq<Byte>, k: seq<Rune>, m: nat)
    requires Reads(s, |s|, k, m)
    ensures m == |k|
  {
    assert |k[m..]| == 0;
  }

  /** Encoding the runes of a string gives the string back, with two more bytes for each invalid byte. */
  lemma {:induction false} EncodedLength(s: seq<Byte>, i: nat, k: seq<Rune>, m: nat)
    requires Reads(s, i, k, m)
    ensures |EncodeFrom(k, m)| == |s| - i + 2 * InvalidFrom(s, i)
    ensures InvalidFrom(s, i) == 0 ==> EncodeFrom(k, m) == s[i..]
    decreases |s| - i
  {
    hide DecodeAt, Utf8, Reads, RunesFrom;
    if i < |s| {
      var width := DecodeAt(s, i).1;
      ReadsStep(s, i, k, m);
      EncodeDecoded(s, i);
      EncodedLength(s, i + width, k, m + 1);
      assert s[i..] == s[i..i + width] + s[i + width..];
    } else {
      ReadsBounds(s, i, k, m);
      ReadsEnd(s, k, m);
    }
  }

  lemma ReadsBounds(s: seq<Byte>, i: nat, k: seq<Rune>, m: nat)
    requires Reads(s, i, k, m)
    ensures i <= |s| && m <= |k|
  {
  }

  /** The bytes of `k` from rune `m` on stand at position `i`, so the next rune is `k[m]`. */
  lemma NextRune(s: seq<Byte>, i: nat, k: seq<Rune>, m: nat)
    requires m < |k| && i <= |s| && s[i..] == EncodeFrom(k, m)
    ensures i < |s| && DecodeAt(s, i) == (k[m], |Utf8(k[m])|)
    ensures i + |Utf8(k[m])| <= |s| && s[i + |Utf8(k[m])|..] == EncodeFrom(k, m + 1)
  {
    var u := Utf8(k[m]);
    assert s[i..] == u + EncodeFrom(k, m + 1);
    assert s[i..i + |u|] == s[i..][..|u|] == u;
    DecodeUtf8(s, i, k[m]);
    assert s[i + |u|..] == s[i..][|u|..];
  }

  /** The bytes of a key are valid, and the loop over them meets the runes of the key. */
  lemma {:induction false} ReadsEncoded(s: seq<Byte>, i: nat, k: seq<Rune>, m: nat)
    requires m <= |k| && i <= |s| && s[i..] == EncodeFrom(k, m)
    ensures Reads(s, i, k, m) && InvalidFrom(s, i) == 0
    decreases |k| - m
  {
    hide *;
    if m < |k| {
      NextRune(s, i, k, m);
      NotInvalid(k[m]);
      ReadsEncoded(s, i + |Utf8(k[m])|, k, m + 1);
      ReadsBack(s, i, k, m);
    } else {
      NothingLeft(s, i, k, m);
    }
  }

  lemma ReadsBack(s: seq<Byte>, i: nat, k: seq<Rune>, m: nat)
    requires i < |s| && m < |k| && DecodeAt(s, i).0 == k[m] && DecodeAt(s, i) != (RUNE_ERROR, 1)
    requires Reads(s, i + DecodeAt(s, i).1, k, m + 1) && InvalidFrom(s, i + DecodeAt(s, i).1) == 0
    ensures Reads(s, i, k, m) && InvalidFrom(s, i) == 0
  {
    hide DecodeAt;
    assert k[m..] == [k[m]] + k[m + 1..];
  }

  lemma NothingLeft(s: seq<Byte>, i: nat, k: seq<Rune>, m: nat)
    requires m == |k| && i <= |s| && s[i..] == EncodeFrom(k, m)
    ensures Reads(s, i, k, m) && InvalidFrom(s, i) == 0
  {
    assert |s[i..]| == 0;
  }

  lemma NotInvalid(c: Rune)
    ensures (c, |Utf8(c)|) != (RUNE_ERROR, 1)
  {
  }

  lemma RunesOfEncoded(k: seq<Rune>)
    ensures RunesOf(Encode(k)) == k && InvalidFrom(Encode(k), 0) == 0
  {
    hide EncodeFrom, RunesFrom, InvalidFrom;
    assert Encode(k)[0..] == EncodeFrom(k, 0);
    ReadsEncoded(Encode(k), 0, k, 0);
    assert k[0..] == k;
  }
}
