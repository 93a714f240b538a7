/** base64url without padding, section 5 of RFC 4648, decoded as leniently as Go does. */
module Base64Url {
  import opened Options
  import opened Utf8

  type Sextet = v: int | 0 <= v < 64

  function Symbol(v: Sextet): Byte {
    if v < 26 then v + 'A' as int
    else if v < 52 then v - 26 + 'a' as int
    else if v < 62 then v - 52 + '0' as int
    else if v == 62 then '-' as int
    else '_' as int
  }

  function ValueOf(c: Byte): Option<Sextet> {
    if 'A' as int <= c <= 'Z' as int then Some(c - 'A' as int)
    else if 'a' as int <= c <= 'z' as int then Some(c - 'a' as int + 26)
    else if '0' as int <= c <= '9' as int then Some(c - '0' as int + 52)
    else if c == '-' as int then Some(62)
    else if c == '_' as int then Some(63)
    else None
  }

  function Encode(s: Bytes): Bytes {
    if s == [] then []
    else if |s| == 1 then [Symbol(s[0] / 4), Symbol(s[0] % 4 * 16)]
    else if |s| == 2 then [Symbol(s[0] / 4), Symbol(s[0] % 4 * 16 + s[1] / 16), Symbol(s[1] % 16 * 4)]
    else
      [Symbol(s[0] / 4), Symbol(s[0] % 4 * 16 + s[1] / 16), Symbol(s[1] % 16 * 4 + s[2] / 64), Symbol(s[2] % 64)]
      + Encode(s[3..])
  }

  predicate IsNewline(c: Byte) {
    c == 10 || c == 13
  }

  function WithoutNewlines(s: Bytes): Bytes {
    if s == [] then [] else (if IsNewline(s[0]) then [] else [s[0]]) + WithoutNewlines(s[1..])
  }

  /** The sextets of a text, or None at a byte outside the alphabet. */
  function Sextets(s: Bytes): (r: Option<seq<Sextet>>)
    ensures r.Some? ==> |r.value| == |s|
  {
    if s == [] then Some([])
    else
      match (ValueOf(s[0]), Sextets(s[1..]))
      case (Some(v), Some(rest)) => Some([v] + rest)
      case _ => None
  }

  function First(a: Sextet, b: Sextet): Byte { a * 4 + b / 16 }

  function Second(b: Sextet, c: Sextet): Byte { b % 16 * 16 + c / 4 }

  function Third(c: Sextet, d: Sextet): Byte { c % 4 * 64 + d }

  /** Four sextets to three bytes; the spare bits of a short last group are not looked at. */
  function Packed(v: seq<Sextet>): Option<Bytes> {
    if v == [] then Some([])
    else if |v| == 1 then None
    else if |v| == 2 then Some([First(v[0], v[1])])
    else if |v| == 3 then Some([First(v[0], v[1]), Second(v[1], v[2])])
    else
      match Packed(v[4..])
      case Some(rest) => Some([First(v[0], v[1]), Second(v[1], v[2]), Third(v[2], v[3])] + rest)
      case None => None
  }

  function Decode(s: Bytes): Option<Bytes> {
    match Sextets(WithoutNewlines(s)) case Some(v) => Packed(v) case None => None
  }

  // ---------- decoding inverts encoding ----------

  /** The sextets an encoding spells. */
  function Unpacked(s: Bytes): seq<Sextet> {
    if s == [] then []
    else if |s| == 1 then [s[0] / 4, s[0] % 4 * 16]
    else if |s| == 2 then [s[0] / 4, s[0] % 4 * 16 + s[1] / 16, s[1] % 16 * 4]
    else [s[0] / 4, s[0] % 4 * 16 + s[1] / 16, s[1] % 16 * 4 + s[2] / 64, s[2] % 64] + Unpacked(s[3..])
  }

  function Spelled(v: seq<Sextet>): Bytes {
    if v == [] then [] else [Symbol(v[0])] + Spelled(v[1..])
  }

  lemma {:induction false} SpelledConcat(v: seq<Sextet>, w: seq<Sextet>)
    ensures Spelled(v + w) == Spelled(v) + Spelled(w)
  {
    if v == [] {
      assert v + w == w;
    } else {
      SpelledConcat(v[1..], w);
      assert (v + w)[1..] == v[1..] + w && (v + w)[0] == v[0];
    }
  }

  lemma {:induction false} SpelledFour(a: Sextet, b: Sextet, c: Sextet, d: Sextet)
    ensures Spelled([a, b, c, d]) == [Symbol(a), Symbol(b), Symbol(c), Symbol(d)]
    ensures Spelled([a, b, c]) == [Symbol(a), Symbol(b), Symbol(c)]
    ensures Spelled([a, b]) == [Symbol(a), Symbol(b)]
  {
    assert Spelled([a]) == [Symbol(a)] && Spelled([b]) == [Symbol(b)] && Spelled([c]) == [Symbol(c)];
    assert Spelled([d]) == [Symbol(d)];
    SpelledConcat([a], [b]);
    SpelledConcat([a, b], [c]);
    SpelledConcat([a, b, c], [d]);
    assert [a] + [b] == [a, b] && [a, b] + [c] == [a, b, c] && [a, b, c] + [d] == [a, b, c, d];
  }

  lemma {:induction false} EncodeSpells(s: Bytes)
    ensures Encode(s) == Spelled(Unpacked(s))
  {
    if |s| == 1 {
      SpelledFour(s[0] / 4, s[0] % 4 * 16, 0, 0);
    } else if |s| == 2 {
      SpelledFour(s[0] / 4, s[0] % 4 * 16 + s[1] / 16, s[1] % 16 * 4, 0);
    } else if |s| > 2 {
      var a, b, c, d := s[0] / 4, s[0] % 4 * 16 + s[1] / 16, s[1] % 16 * 4 + s[2] / 64, s[2] % 64;
      EncodeSpells(s[3..]);
      SpelledConcat([a, b, c, d], Unpacked(s[3..]));
      SpelledFour(a, b, c, d);
    }
  }

  lemma {:induction false} SextetsOfSpelled(v: seq<Sextet>)
    ensures WithoutNewlines(Spelled(v)) == Spelled(v)
    ensures Sextets(Spelled(v)) == Some(v)
  {
    if v != [] {
      SextetsOfSpelled(v[1..]);
      assert Spelled(v)[1..] == Spelled(v[1..]) && Spelled(v)[0] == Symbol(v[0]);
      assert ValueOf(Symbol(v[0])) == Some(v[0]);
      assert v == [v[0]] + v[1..];
    }
  }

  lemma {:induction false} PackedUnpacked(s: Bytes)
    ensures Packed(Unpacked(s)) == Some(s)
  {
    if |s| > 2 {
      PackedUnpacked(s[3..]);
      var v := Unpacked(s);
      assert v[4..] == Unpacked(s[3..]);
      assert First(v[0], v[1]) == s[0] && Second(v[1], v[2]) == s[1] && Third(v[2], v[3]) == s[2];
      assert s == [s[0], s[1], s[2]] + s[3..];
    } else if |s| == 2 {
      var v := Unpacked(s);
      assert |v| == 3 && First(v[0], v[1]) == s[0] && Second(v[1], v[2]) == s[1];
      assert s == [s[0], s[1]];
    } else if |s| == 1 {
      var v := Unpacked(s);
      assert |v| == 2 && First(v[0], v[1]) == s[0];
      assert s == [s[0]];
    }
  }

  lemma {:induction false} DecodeInvertsEncode(s: Bytes)
    ensures Decode(Encode(s)) == Some(s)
    ensures s != [] ==> Encode(s) != []
  {
    EncodeSpells(s);
    SextetsOfSpelled(Unpacked(s));
    PackedUnpacked(s);
  }

  // ---------- what decodes ----------

  lemma {:induction false} PackedExact(v: seq<Sextet>)
    ensures Packed(v).Some? <==> |v| % 4 != 1
  {
    if |v| >= 4 {
      var rest := v[4..];
      PackedExact(rest);
      assert |v| % 4 == |rest| % 4;
      assert Packed(v).Some? <==> Packed(rest).Some?;
    } else {
      assert |v| % 4 == |v|;
    }
  }

  lemma {:induction false} SextetsExact(s: Bytes)
    ensures Sextets(s).Some? <==> forall c :: c in s ==> ValueOf(c).Some?
  {
    if s != [] {
      SextetsExact(s[1..]);
      assert forall c :: c in s <==> c == s[0] || c in s[1..];
    }
  }

  /** Line breaks aside, what decodes is text of the alphabet whose last group is not a single character. */
  lemma {:induction false} DecodesExact(s: Bytes)
    ensures var t := WithoutNewlines(s);
            Decode(s).Some? <==> |t| % 4 != 1 && forall c :: c in t ==> ValueOf(c).Some?
  {
    var t := WithoutNewlines(s);
    SextetsExact(t);
    if Sextets(t).Some? { PackedExact(Sextets(t).value); }
  }

  lemma {:induction false} WithoutNewlinesHead(s: Bytes)
    requires s != []
    ensures WithoutNewlines(s) == (if IsNewline(s[0]) then [] else [s[0]]) + WithoutNewlines(s[1..])
  {
  }

  lemma {:induction false} WithoutNewlinesConcat(a: Bytes, b: Bytes)
    ensures WithoutNewlines(a + b) == WithoutNewlines(a) + WithoutNewlines(b)
  {
    if a == [] {
      assert a + b == b;
    } else {
      var first := if IsNewline(a[0]) then [] else [a[0]];
      WithoutNewlinesConcat(a[1..], b);
      assert (a + b)[1..] == a[1..] + b && (a + b)[0] == a[0];
      WithoutNewlinesHead(a);
      WithoutNewlinesHead(a + b);
      var front, back := WithoutNewlines(a[1..]), WithoutNewlines(b);
      assert first + (front + back) == first + front + back;
    }
  }

  /** A line feed or carriage return may stand anywhere; any other byte outside the alphabet spoils the text. */
  lemma {:induction false} StrayByteExact(a: Bytes, c: Byte, b: Bytes)
    ensures c in {10, 13} ==> Decode(a + [c] + b) == Decode(a + b)
    ensures c !in {10, 13} && ValueOf(c).None? ==> Decode(a + [c] + b).None?
  {
    WithoutNewlinesConcat(a + [c], b);
    WithoutNewlinesConcat(a, [c]);
    WithoutNewlinesConcat(a, b);
    assert WithoutNewlines([c]) == if c in {10, 13} then [] else [c];
    if c in {10, 13} {
      assert WithoutNewlines(a + [c] + b) == WithoutNewlines(a + b);
    } else {
      assert c in WithoutNewlines(a + [c] + b);
      DecodesExact(a + [c] + b);
    }
  }

  /** The alphabet: capitals, small letters, digits, the minus and the underscore, with the values 0 to 63. */
  lemma {:induction false} AlphabetExact(c: Byte, v: Sextet)
    ensures ValueOf(c) == Some(v) <==> Symbol(v) == c
    ensures Symbol(0) == 'A' as int && Symbol(26) == 'a' as int && Symbol(52) == '0' as int
    ensures Symbol(62) == '-' as int && Symbol(63) == '_' as int
    ensures v < 61 && v != 25 && v != 51 ==> Symbol(v + 1) == Symbol(v) + 1
  {
  }
}
