/** JSON arrays of strings, as Go writes and reads them (section 7 of RFC 8259). */
module JsonStrings {
  import opened Options
  import opened Utf8

  const QUOTE: Byte := 34
  const BACKSLASH: Byte := 92
  const COMMA: Byte := 44
  const OPEN: Byte := 91
  const CLOSE: Byte := 93
  const NULL: Bytes := [110, 117, 108, 108]

  // ---------- writing ----------

  function Hex(v: nat): Byte
    requires v < 16
  {
    if v < 10 then 48 + v else 87 + v
  }

  /** A backslash, a u and four hex digits. */
  function Escaped(a: nat, b: nat, c: nat, d: nat): Bytes
    requires a < 16 && b < 16 && c < 16 && d < 16
  {
    [BACKSLASH, 117, Hex(a), Hex(b), Hex(c), Hex(d)]
  }

  /** The letter that follows a backslash in the short form of an escape. */
  function ShortEscape(c: Byte): Option<Byte> {
    if c == QUOTE || c == BACKSLASH then Some(c)
    else if c == 8 then Some(98)
    else if c == 12 then Some(102)
    else if c == 10 then Some(110)
    else if c == 13 then Some(114)
    else if c == 9 then Some(116)
    else None
  }

  /** Control characters and the three that are special in HTML. */
  predicate NeedsHex(c: Byte) {
    c < 0x20 || c == 60 || c == 62 || c == 38
  }

  /** The character, or stray byte, at the front of a text as it is written inside quotes. */
  function Item(s: Bytes): Bytes
    requires s != []
  {
    var n := RuneLen(s);
    if s[0] < 0x80 then
      match ShortEscape(s[0])
      case Some(c) => [BACKSLASH, c]
      case None => if NeedsHex(s[0]) then Escaped(0, 0, s[0] / 16, s[0] % 16) else [s[0]]
    else if n == 0 then Escaped(15, 15, 15, 13)
    else if s[..n] == [0xE2, 0x80, 0xA8] then Escaped(2, 0, 2, 8)
    else if s[..n] == [0xE2, 0x80, 0xA9] then Escaped(2, 0, 2, 9)
    else s[..n]
  }

  function Quoted(s: Bytes): Bytes {
    if s == [] then [] else Item(s) + Quoted(s[Step(s)..])
  }

  function Literal(s: Bytes): Bytes {
    [QUOTE] + Quoted(s) + [QUOTE]
  }

  /** The elements, separated by commas, and the closing bracket. */
  function Tail(parts: seq<Bytes>): Bytes
    requires parts != []
  {
    if |parts| == 1 then Literal(parts[0]) + [CLOSE] else Literal(parts[0]) + [COMMA] + Tail(parts[1..])
  }

  function Write(parts: seq<Bytes>): Bytes {
    if parts == [] then [OPEN, CLOSE] else [OPEN] + Tail(parts)
  }

  // ---------- reading ----------

  function HexValue(c: Byte): (r: Option<nat>)
    ensures r.Some? ==> r.value < 16
  {
    if 48 <= c <= 57 then Some(c - 48)
    else if 97 <= c <= 102 then Some(c - 87)
    else if 65 <= c <= 70 then Some(c - 55)
    else None
  }

  function Hex4(a: nat, b: nat, c: nat, d: nat): (r: nat)
    requires a < 16 && b < 16 && c < 16 && d < 16
    ensures r < 0x10000
  {
    ((a * 16 + b) * 16 + c) * 16 + d
  }

  /** The code unit written \uXXXX at the front. */
  function Unit(t: Bytes): (r: Option<nat>)
    ensures r.Some? ==> |t| >= 6 && r.value < 0x10000
  {
    if |t| < 6 || t[0] != BACKSLASH || t[1] != 117 then None
    else
      match (HexValue(t[2]), HexValue(t[3]), HexValue(t[4]), HexValue(t[5]))
      case (Some(a), Some(b), Some(c), Some(d)) => Some(Hex4(a, b, c, d))
      case _ => None
  }

  /** The byte a short escape stands for. */
  function Unescaped(c: Byte): Option<Byte> {
    if c == QUOTE || c == BACKSLASH || c == 47 then Some(c)
    else if c == 98 then Some(8)
    else if c == 102 then Some(12)
    else if c == 110 then Some(10)
    else if c == 114 then Some(13)
    else if c == 116 then Some(9)
    else None
  }

  /** The value of a \u escape and its length: a surrogate pair is one character, half of one is U+FFFD. */
  function UnitValue(t: Bytes, r: nat): (Bytes, nat)
    requires r < 0x10000 && |t| >= 6
  {
    if !(0xD800 <= r < 0xE000) then (EncodeRune(r), 6)
    else
      match Unit(t[6..])
      case Some(low) =>
        if r < 0xDC00 && 0xDC00 <= low < 0xE000
        then (EncodeRune(0x10000 + (r - 0xD800) * 1024 + (low - 0xDC00)), 12)
        else (REPLACEMENT, 6)
      case None => (REPLACEMENT, 6)
  }

  /** The value of what is at the front inside quotes, and its length. */
  function Token(t: Bytes): (r: Option<(Bytes, nat)>)
    requires t != []
    ensures r.Some? ==> 1 <= r.value.1 <= |t|
  {
    if t[0] < 0x20 then None
    else if t[0] == BACKSLASH then
      match Unit(t)
      case Some(r) => Some(UnitValue(t, r))
      case None =>
        if |t| < 2 then None
        else match Unescaped(t[1]) case Some(c) => Some(([c], 2)) case None => None
    else Some((Front(t), Step(t)))
  }

  /** The text up to the closing quote, and what follows it. */
  function Unquoted(t: Bytes): (r: Option<(Bytes, Bytes)>)
    ensures r.Some? ==> |r.value.1| < |t|
  {
    if t == [] then None
    else if t[0] == QUOTE then Some(([], t[1..]))
    else
      match Token(t)
      case None => None
      case Some((value, n)) =>
        match Unquoted(t[n..])
        case None => None
        case Some((more, rest)) => Some((value + more, rest))
  }

  function SkipSpace(t: Bytes): (r: Bytes)
    ensures |r| <= |t|
  {
    if t != [] && (t[0] == 32 || t[0] == 9 || t[0] == 10 || t[0] == 13) then SkipSpace(t[1..]) else t
  }

  /** A string; a null leaves the slice's zero value, the empty string. */
  function Element(t: Bytes): (r: Option<(Bytes, Bytes)>)
    ensures r.Some? ==> |r.value.1| < |t|
  {
    if t != [] && t[0] == QUOTE then Unquoted(t[1..])
    else if NULL <= t then Some(([], t[4..]))
    else None
  }

  /** The elements up to the closing bracket, and what follows it. */
  function Elements(t: Bytes): Option<(seq<Bytes>, Bytes)>
    decreases |t|
  {
    match Element(SkipSpace(t))
    case None => None
    case Some((value, rest)) =>
      var after := SkipSpace(rest);
      if after == [] then None
      else if after[0] == CLOSE then Some(([value], after[1..]))
      else if after[0] == COMMA then
        match Elements(after[1..])
        case None => None
        case Some((more, end)) => Some(([value] + more, end))
      else None
  }

  /** Unmarshalling into a slice of strings: None for a syntax error or a value of another type. */
  function Read(t: Bytes): Option<seq<Bytes>> {
    var text := SkipSpace(t);
    if NULL <= text then (if SkipSpace(text[4..]) == [] then Some([]) else None)
    else if text == [] || text[0] != OPEN then None
    else
      var body := SkipSpace(text[1..]);
      if body != [] && body[0] == CLOSE then (if SkipSpace(body[1..]) == [] then Some([]) else None)
      else
        match Elements(body)
        case Some((parts, end)) => if SkipSpace(end) == [] then Some(parts) else None
        case None => None
  }

  // ---------- reading inverts writing ----------

  lemma {:induction false} HexRead(v: nat)
    requires v < 16
    ensures HexValue(Hex(v)) == Some(v)
  {
  }

  lemma {:induction false} UnitOfEscaped(a: nat, b: nat, c: nat, d: nat, t: Bytes)
    requires a < 16 && b < 16 && c < 16 && d < 16
    ensures Unit(Escaped(a, b, c, d) + t) == Some(Hex4(a, b, c, d))
  {
    HexRead(a);
    HexRead(b);
    HexRead(c);
    HexRead(d);
  }

  lemma {:induction false} EscapedRead(a: nat, b: nat, c: nat, d: nat, t: Bytes)
    requires a < 16 && b < 16 && c < 16 && d < 16
    requires !(0xD800 <= Hex4(a, b, c, d) < 0xE000)
    ensures Token(Escaped(a, b, c, d) + t) == Some((EncodeRune(Hex4(a, b, c, d)), 6))
  {
    UnitOfEscaped(a, b, c, d, t);
  }

  lemma {:induction false} AsciiRead(s: Bytes, t: Bytes)
    requires s != [] && s[0] < 0x80
    ensures Token(Item(s) + t) == Some(([s[0]], |Item(s)|))
  {
    var c := s[0];
    if ShortEscape(c).Some? {
      assert (Item(s) + t)[1] == ShortEscape(c).value;
      assert Unescaped(ShortEscape(c).value) == Some(c) && ShortEscape(c).value != 117;
    } else if NeedsHex(c) {
      EscapedRead(0, 0, c / 16, c % 16, t);
    } else {
      assert (Item(s) + t)[0] == c && (Item(s) + t)[..1] == [c];
    }
  }

  /** A character of several bytes is written as it is, but for the two line separators. */
  lemma {:induction false} LongRead(s: Bytes, t: Bytes)
    requires s != [] && s[0] >= 0x80 && RuneLen(s) > 0 && Item(s) == s[..RuneLen(s)]
    ensures Token(Item(s) + t) == Some((Front(s), |Item(s)|))
  {
    var n := RuneLen(s);
    var text := s[..n] + t;
    assert text[..n] == s[..n] && text[0] == s[0];
    RuneIsLocal(s, text);
  }

  /** What is written for the front of a text reads back as that front, and never looks like the closing quote. */
  lemma {:induction false} ItemRead(s: Bytes, t: Bytes)
    requires s != []
    ensures Token(Item(s) + t) == Some((Front(s), |Item(s)|))
    ensures Item(s)[0] != QUOTE
  {
    var n := RuneLen(s);
    if s[0] < 0x80 {
      AsciiRead(s, t);
      assert s[..1] == [s[0]];
    } else if n == 0 {
      EscapedRead(15, 15, 15, 13, t);
    } else if s[..n] == [0xE2, 0x80, 0xA8] {
      EscapedRead(2, 0, 2, 8, t);
    } else if s[..n] == [0xE2, 0x80, 0xA9] {
      EscapedRead(2, 0, 2, 9, t);
    } else {
      LongRead(s, t);
    }
  }

  lemma {:induction false} UnquotedQuoted(s: Bytes, t: Bytes)
    ensures Unquoted(Quoted(s) + [QUOTE] + t) == Some((Sanitized(s), t))
  {
    var text := Quoted(s) + [QUOTE] + t;
    if s == [] {
      assert text == [QUOTE] + t;
      assert text[1..] == t;
    } else {
      var rest := Quoted(s[Step(s)..]) + [QUOTE] + t;
      assert text == Item(s) + rest;
      ItemRead(s, rest);
      assert text[0] == Item(s)[0] && text[|Item(s)|..] == rest;
      UnquotedQuoted(s[Step(s)..], t);
    }
  }

  lemma {:induction false} ElementOfLiteral(s: Bytes, t: Bytes)
    ensures Element(SkipSpace(Literal(s) + t)) == Some((Sanitized(s), t))
  {
    var text := Literal(s) + t;
    assert text[0] == QUOTE && text[1..] == Quoted(s) + [QUOTE] + t;
    UnquotedQuoted(s, t);
  }

  function AllSanitized(parts: seq<Bytes>): (r: seq<Bytes>) {
    if parts == [] then [] else [Sanitized(parts[0])] + AllSanitized(parts[1..])
  }

  lemma {:induction false} ElementsOfTail(parts: seq<Bytes>)
    requires parts != []
    ensures Elements(Tail(parts)) == Some((AllSanitized(parts), []))
  {
    if |parts| == 1 {
      ElementOfLiteral(parts[0], [CLOSE]);
      assert [CLOSE][1..] == [] && parts[1..] == [];
      assert AllSanitized(parts) == [Sanitized(parts[0])] + AllSanitized([]) == [Sanitized(parts[0])];
      assert Tail(parts) == Literal(parts[0]) + [CLOSE];
      assert SkipSpace([CLOSE]) == [CLOSE];
    } else {
      var after := [COMMA] + Tail(parts[1..]);
      assert Tail(parts) == Literal(parts[0]) + after;
      ElementOfLiteral(parts[0], after);
      assert after[0] == COMMA && after[1..] == Tail(parts[1..]);
      ElementsOfTail(parts[1..]);
    }
  }

  /** Reading gives back what was written, with stray bytes replaced. */
  lemma {:induction false} ReadInvertsWrite(parts: seq<Bytes>)
    ensures Read(Write(parts)) == Some(AllSanitized(parts))
  {
    var text := Write(parts);
    assert text[0] == OPEN;
    if parts == [] {
      assert text[1..] == [CLOSE] && [CLOSE][1..] == [];
    } else {
      var body := Tail(parts);
      assert text[1..] == body;
      assert body[0] == QUOTE by { assert Literal(parts[0])[0] == QUOTE; }
      ElementsOfTail(parts);
    }
  }

  predicate AllValid(parts: seq<Bytes>) {
    forall p :: p in parts ==> Valid(p)
  }

  /** Valid UTF-8, and nothing else, comes back as it was. */
  lemma {:induction false} AllSanitizedExact(parts: seq<Bytes>)
    ensures |AllSanitized(parts)| == |parts|
    ensures AllSanitized(parts) == parts <==> AllValid(parts)
  {
    if parts != [] {
      SanitizedExact(parts[0]);
      AllSanitizedExact(parts[1..]);
      assert parts == [parts[0]] + parts[1..];
      assert forall p :: p in parts <==> p == parts[0] || p in parts[1..];
      assert AllSanitized(parts)[0] == Sanitized(parts[0]) && AllSanitized(parts)[1..] == AllSanitized(parts[1..]);
    }
  }
}
