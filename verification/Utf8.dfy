/** UTF-8 as Go reads it: how long the character at the front is, and what becomes of bytes that are none. */
module Utf8 {
  type Byte = b: int | 0 <= b < 256
  type Bytes = seq<Byte>

  /** U+FFFD, which stands for a byte that belongs to no character. */
  const REPLACEMENT: Bytes := [0xEF, 0xBF, 0xBD]

  predicate At(s: Bytes, i: nat, lo: Byte, hi: Byte) {
    i < |s| && lo <= s[i] <= hi
  }

  /** The length of the character at the front, or 0 if there is none. */
  function RuneLen(s: Bytes): (n: nat)
    requires s != []
    ensures n <= |s|
  {
    var b := s[0];
    if b < 0x80 then 1
    else if 0xC2 <= b <= 0xDF then if At(s, 1, 0x80, 0xBF) then 2 else 0
    else if 0xE0 <= b <= 0xEF then
      var lo := if b == 0xE0 then 0xA0 else 0x80;
      var hi := if b == 0xED then 0x9F else 0xBF;
      if At(s, 1, lo, hi) && At(s, 2, 0x80, 0xBF) then 3 else 0
    else if 0xF0 <= b <= 0xF4 then
      var lo := if b == 0xF0 then 0x90 else 0x80;
      var hi := if b == 0xF4 then 0x8F else 0xBF;
      if At(s, 1, lo, hi) && At(s, 2, 0x80, 0xBF) && At(s, 3, 0x80, 0xBF) then 4 else 0
    else 0
  }

  /** How many bytes the front takes up: a whole character, or one stray byte. */
  function Step(s: Bytes): (n: nat)
    requires s != []
    ensures 1 <= n <= |s|
  {
    if RuneLen(s) == 0 then 1 else RuneLen(s)
  }

  predicate Valid(s: Bytes) {
    s == [] || (RuneLen(s) > 0 && Valid(s[RuneLen(s)..]))
  }

  /** The front as a reader gets it back. */
  function Front(s: Bytes): Bytes
    requires s != []
  {
    if RuneLen(s) == 0 then REPLACEMENT else s[..RuneLen(s)]
  }

  /** Every byte that is in no character becomes U+FFFD. */
  function Sanitized(s: Bytes): Bytes {
    if s == [] then [] else Front(s) + Sanitized(s[Step(s)..])
  }

  /** A character is told from its own bytes alone. */
  lemma {:induction false} RuneIsLocal(s: Bytes, t: Bytes)
    requires s != [] && RuneLen(s) > 0 && RuneLen(s) <= |t| && t[..RuneLen(s)] == s[..RuneLen(s)]
    ensures RuneLen(t) == RuneLen(s)
  {
    var n := RuneLen(s);
    forall i | 0 <= i < n ensures t[i] == s[i] { assert t[..n][i] == s[..n][i]; }
  }

  lemma {:induction false} SanitizedGrows(s: Bytes)
    ensures |Sanitized(s)| >= |s|
    ensures |Sanitized(s)| == |s| <==> Valid(s)
    ensures Valid(s) ==> Sanitized(s) == s
  {
    if s != [] { SanitizedGrows(s[Step(s)..]); }
  }

  /** Valid text, and nothing else, is kept as it is. */
  lemma {:induction false} SanitizedExact(s: Bytes)
    ensures Sanitized(s) == s <==> Valid(s)
  {
    SanitizedGrows(s);
  }

  // ---------- code points ----------

  /** A Unicode scalar value: a code point that is no surrogate. */
  type Rune = r: nat | r < 0x110000 && !(0xD800 <= r < 0xE000)

  function EncodeRune(r: Rune): Bytes {
    if r < 0x80 then [r]
    else if r < 0x800 then [0xC0 + r / 64, 0x80 + r % 64]
    else if r < 0x10000 then [0xE0 + r / 4096, 0x80 + r / 64 % 64, 0x80 + r % 64]
    else [0xF0 + r / 262144, 0x80 + r / 4096 % 64, 0x80 + r / 64 % 64, 0x80 + r % 64]
  }

  /** The encoding of every scalar value is a character, whatever follows it. */
  lemma {:induction false} ScalarIsRune(r: Rune, t: Bytes)
    ensures RuneLen(EncodeRune(r) + t) == |EncodeRune(r)|
  {
    var e := EncodeRune(r);
    if |e| == 4 { LongEncoding(r); }
    assert forall i :: 0 <= i < |e| ==> (e + t)[i] == e[i];
  }

  lemma {:induction false} LongEncoding(r: Rune)
    requires r >= 0x10000
    ensures RuneLen(EncodeRune(r)) == 4
  {
    var high := r / 4096;
    assert high / 64 == r / 262144 && 16 <= high < 272;
  }

  /** Every character is the encoding of a scalar value. */
  lemma {:induction false} RuneIsScalar(s: Bytes) returns (r: Rune)
    requires s != [] && RuneLen(s) > 0
    ensures EncodeRune(r) == s[..RuneLen(s)]
  {
    var n := RuneLen(s);
    if n == 1 { r := s[0]; }
    else if n == 2 { r := Joined2(s[0], s[1]); }
    else if n == 3 { r := Joined3(s[0], s[1], s[2]); }
    else { r := Joined4(s[0], s[1], s[2], s[3]); }
  }

  lemma {:induction false} Joined2(a: int, b: int) returns (r: Rune)
    requires 0xC2 <= a <= 0xDF && 0x80 <= b <= 0xBF
    ensures EncodeRune(r) == [a, b]
  {
    r := (a - 0xC0) * 64 + (b - 0x80);
  }

  lemma {:induction false} Joined3(a: int, b: int, c: int) returns (r: Rune)
    requires 0xE0 <= a <= 0xEF && 0x80 <= b <= 0xBF && 0x80 <= c <= 0xBF
    requires (a == 0xE0 ==> b >= 0xA0) && (a == 0xED ==> b <= 0x9F)
    ensures EncodeRune(r) == [a, b, c]
  {
    var high := (a - 0xE0) * 64 + (b - 0x80);
    r := high * 64 + (c - 0x80);
    assert r / 64 == high && r / 4096 == high / 64;
  }

  lemma {:induction false} Joined4(a: int, b: int, c: int, d: int) returns (r: Rune)
    requires 0xF0 <= a <= 0xF4 && 0x80 <= b <= 0xBF && 0x80 <= c <= 0xBF && 0x80 <= d <= 0xBF
    requires (a == 0xF0 ==> b >= 0x90) && (a == 0xF4 ==> b <= 0x8F)
    ensures EncodeRune(r) == [a, b, c, d]
  {
    var high := (a - 0xF0) * 64 + (b - 0x80);
    var mid := high * 64 + (c - 0x80);
    r := mid * 64 + (d - 0x80);
    assert r / 64 == mid && r / 4096 == high && r / 262144 == high / 64;
  }

  function EncodeAll(runes: seq<Rune>): Bytes {
    if runes == [] then [] else EncodeRune(runes[0]) + EncodeAll(runes[1..])
  }

  /** Valid text is what the encodings of scalar values make up, one after another. */
  lemma {:induction false} ValidExact(s: Bytes)
    ensures Valid(s) <==> exists runes :: EncodeAll(runes) == s
  {
    if Valid(s) { var runes := ValidIsEncoded(s); }
    if runes :| EncodeAll(runes) == s { EncodedIsValid(runes); }
  }

  lemma {:induction false} EncodedIsValid(runes: seq<Rune>)
    ensures Valid(EncodeAll(runes))
  {
    if runes != [] {
      var first, rest := EncodeRune(runes[0]), EncodeAll(runes[1..]);
      ScalarIsRune(runes[0], rest);
      EncodedIsValid(runes[1..]);
      assert (first + rest)[|first|..] == rest;
    }
  }

  lemma {:induction false} ValidIsEncoded(s: Bytes) returns (runes: seq<Rune>)
    requires Valid(s)
    ensures EncodeAll(runes) == s
  {
    if s == [] {
      runes := [];
    } else {
      var first := RuneIsScalar(s);
      var rest := ValidIsEncoded(s[RuneLen(s)..]);
      runes := [first] + rest;
      assert runes[1..] == rest;
    }
  }
}
