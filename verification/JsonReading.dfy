/** What the JSON reader accepts, and what for: arrays of strings in any spelling, by hand or written here. */
module JsonReading {
  import opened Options
  import opened Utf8
  import opened JsonStrings

  // ---------- one character ----------

  /** A hex digit is one that is written, or a capital in place of a letter. */
  lemma {:induction false} HexExact(c: Byte, v: nat)
    requires v < 16
    ensures HexValue(c) == Some(v) <==> c == Hex(v) || (v >= 10 && c == Hex(v) - 32)
  {
  }

  /** Short escapes stand for what is written as them, and a solidus may be escaped too. */
  lemma {:induction false} ShortExact(letter: Byte, c: Byte)
    ensures Unescaped(letter) == Some(c) <==> ShortEscape(c) == Some(letter) || (letter == c == 47)
  {
  }

  /** A code unit that is no surrogate is its character. */
  lemma {:induction false} UnitRead(t: Bytes, r: Rune)
    requires Unit(t) == Some(r)
    ensures Token(t) == Some((EncodeRune(r), 6))
  {
  }

  /** The two code units of a character beyond the first 2^16 (section 7 of RFC 8259) are that one character. */
  lemma {:induction false} PairRead(t: Bytes, r: Rune)
    requires r >= 0x10000 && Unit(t) == Some(0xD800 + (r - 0x10000) / 1024)
    requires Unit(t[6..]) == Some(0xDC00 + (r - 0x10000) % 1024)
    ensures Token(t) == Some((EncodeRune(r), 12))
  {
    var high, low := (r - 0x10000) / 1024, (r - 0x10000) % 1024;
    assert high < 1024 && high * 1024 + low == r - 0x10000;
  }

  predicate IsHigh(u: nat) { 0xD800 <= u <= 0xDBFF }

  predicate IsLow(u: nat) { 0xDC00 <= u <= 0xDFFF }

  /** Half of a pair is U+FFFD, and what follows it is read by itself. */
  lemma {:induction false} HalfRead(t: Bytes, u: nat)
    requires Unit(t) == Some(u) && (IsHigh(u) || IsLow(u))
    requires IsHigh(u) ==> Unit(t[6..]).None? || !IsLow(Unit(t[6..]).value)
    ensures Token(t) == Some((REPLACEMENT, 6))
  {
  }

  ghost predicate UnknownEscape(letter: Byte) {
    letter != 47 && forall c :: ShortEscape(c) != Some(letter)
  }

  /** Control characters and unknown escapes are refused, and nothing else is. */
  lemma {:induction false} TokenRefused(t: Bytes)
    requires t != []
    ensures Token(t).None? <==>
            || t[0] < 32
            || (t[0] == BACKSLASH && Unit(t).None? && (|t| == 1 || UnknownEscape(t[1])))
  {
    if t[0] == BACKSLASH && |t| > 1 && Unescaped(t[1]).Some? { ShortExact(t[1], Unescaped(t[1]).value); }
    if t[0] == BACKSLASH && |t| > 1 && Unescaped(t[1]).None? {
      forall c ensures ShortEscape(c) != Some(t[1]) { ShortExact(t[1], c); }
    }
  }

  // ---------- what is written ----------

  predicate Plain(c: Byte) {
    c >= 32 && c != 60 && c != 62 && c != 38
  }

  /** Printable ASCII is written as it is, but for quotes, backslashes and what is special in HTML. */
  lemma {:induction false} ItemExact(s: Bytes)
    requires s != [] && s[0] < 128
    ensures Item(s) == [s[0]] <==> Plain(s[0]) && s[0] != QUOTE && s[0] != BACKSLASH
  {
  }

  lemma {:induction false} RuneIsPlain(s: Bytes)
    requires s != [] && s[0] >= 128
    ensures forall i :: 0 <= i < RuneLen(s) ==> s[i] >= 128
  {
  }

  lemma {:induction false} ItemIsPlain(s: Bytes)
    requires s != []
    ensures forall c :: c in Item(s) ==> Plain(c)
  {
    if s[0] >= 128 { RuneIsPlain(s); }
  }

  lemma {:induction false} QuotedIsPlain(s: Bytes)
    ensures forall c :: c in Quoted(s) ==> Plain(c)
  {
    if s != [] {
      ItemIsPlain(s);
      QuotedIsPlain(s[Step(s)..]);
    }
  }

  lemma {:induction false} TailIsPlain(parts: seq<Bytes>)
    requires parts != []
    ensures forall c :: c in Tail(parts) ==> Plain(c)
  {
    QuotedIsPlain(parts[0]);
    if |parts| > 1 { TailIsPlain(parts[1..]); }
  }

  /** Nothing written has a control character or one that is special in HTML. */
  lemma {:induction false} WrittenIsPlain(parts: seq<Bytes>)
    ensures forall c :: c in Write(parts) ==> Plain(c)
  {
    if parts != [] { TailIsPlain(parts); }
  }

  // ---------- layout ----------

  predicate IsSpace(c: Byte) {
    c in {32, 9, 10, 13}
  }

  predicate Space(t: Bytes) {
    forall c :: c in t ==> IsSpace(c)
  }

  /** White space (section 2 of RFC 8259) is skipped as far as it goes. */
  lemma {:induction false} SkipExact(t: Bytes) returns (k: nat)
    ensures k <= |t| && Space(t[..k]) && SkipSpace(t) == t[k..]
    ensures k < |t| ==> !IsSpace(t[k])
  {
    if t != [] && IsSpace(t[0]) {
      k := SkipExact(t[1..]);
      k := k + 1;
      assert t[..k] == [t[0]] + t[1..][..k - 1];
    } else {
      k := 0;
    }
  }

  lemma {:induction false} SkipThrough(space: Bytes, t: Bytes)
    requires Space(space) && (t != [] ==> !IsSpace(t[0]))
    ensures SkipSpace(space + t) == t
  {
    if space == [] {
      assert space + t == t;
    } else {
      assert IsSpace(space[0]) && forall c :: c in space[1..] ==> c in space;
      SkipThrough(space[1..], t);
      assert (space + t)[1..] == space[1..] + t;
    }
  }

  lemma {:induction false} AllSpace(t: Bytes)
    ensures SkipSpace(t) == [] <==> Space(t)
  {
    var k := SkipExact(t);
    if k < |t| { assert t[k] in t; } else { assert t[..k] == t; }
  }

  // ---------- strings ----------

  predicate EndsQuoted(q: Bytes) {
    q != [] && q[|q| - 1] == QUOTE
  }

  lemma {:induction false} UnitLocal(q: Bytes, t: Bytes)
    requires EndsQuoted(q)
    ensures Unit(q + t) == Unit(q)
  {
    assert forall i :: 0 <= i < |q| ==> (q + t)[i] == q[i];
  }

  lemma {:induction false} RuneLocal(q: Bytes, t: Bytes)
    requires EndsQuoted(q)
    ensures RuneLen(q + t) == RuneLen(q)
  {
    assert forall i :: 0 <= i < |q| ==> (q + t)[i] == q[i];
  }

  /** What stands after a closing quote changes nothing before it. */
  lemma {:induction false} TokenLocal(q: Bytes, t: Bytes)
    requires EndsQuoted(q)
    ensures Token(q + t) == Token(q)
  {
    assert (q + t)[0] == q[0];
    UnitLocal(q, t);
    if q[0] == BACKSLASH {
      assert |q| > 1 && (q + t)[1] == q[1];
      if Unit(q).Some? {
        assert |q| > 6 by { assert |q| >= 6 && HexValue(QUOTE).None?; }
        assert (q + t)[6..] == q[6..] + t;
        UnitLocal(q[6..], t);
      }
    } else {
      RuneLocal(q, t);
      assert (q + t)[..Step(q)] == q[..Step(q)];
    }
  }

  /** What is read as a string ends at its closing quote, and reads the same alone. */
  lemma {:induction false} UnquotedSplit(t: Bytes) returns (q: Bytes)
    requires Unquoted(t).Some?
    ensures var (value, rest) := Unquoted(t).value;
            t == q + rest && EndsQuoted(q) && Unquoted(q) == Some((value, []))
  {
    if t[0] == QUOTE {
      q := [QUOTE];
    } else {
      var (value, n) := Token(t).value;
      var more := UnquotedSplit(t[n..]);
      var rest := Unquoted(t[n..]).value.1;
      q := t[..n] + more;
      PutBack(t, n, more, rest);
      TokenLocal(q, rest);
    }
  }

  lemma {:induction false} PutBack(t: Bytes, n: nat, more: Bytes, rest: Bytes)
    requires 1 <= n <= |t| && t[n..] == more + rest && EndsQuoted(more)
    ensures var q := t[..n] + more; t == q + rest && q[n..] == more && EndsQuoted(q) && q[0] == t[0]
  {
    assert t == t[..n] + t[n..];
  }

  lemma {:induction false} UnquotedLocal(q: Bytes, t: Bytes)
    requires EndsQuoted(q) && Unquoted(q).Some? && Unquoted(q).value.1 == []
    ensures Unquoted(q + t) == Some((Unquoted(q).value.0, t))
  {
    assert (q + t)[0] == q[0];
    if q[0] == QUOTE {
      assert (q + t)[1..] == q[1..] + t == t;
    } else {
      TokenLocal(q, t);
      var (value, n) := Token(q).value;
      assert n < |q|;
      assert (q + t)[n..] == q[n..] + t;
      UnquotedLocal(q[n..], t);
    }
  }

  /** A string in any spelling, or null, which stands for the empty string. */
  predicate Spells(text: Bytes, value: Bytes) {
    || (text == NULL && value == [])
    || (EndsQuoted(text) && text[0] == QUOTE && Unquoted(text[1..]) == Some((value, [])))
  }

  lemma {:induction false} ElementOfSpelling(text: Bytes, value: Bytes, t: Bytes)
    requires Spells(text, value)
    ensures Element(text + t) == Some((value, t))
  {
    if text == NULL {
      assert (text + t)[..4] == NULL && (text + t)[4..] == t;
    } else {
      assert (text + t)[1..] == text[1..] + t && (text + t)[0] == QUOTE;
      assert text[1..] != [];
      UnquotedLocal(text[1..], t);
    }
  }

  lemma {:induction false} ElementSpelled(t: Bytes) returns (text: Bytes)
    requires Element(t).Some?
    ensures var (value, rest) := Element(t).value; t == text + rest && Spells(text, value)
  {
    if t[0] == QUOTE {
      text := StringSpelled(t);
    } else {
      text := NULL;
      StartsNull(t);
    }
  }

  lemma {:induction false} StringSpelled(t: Bytes) returns (text: Bytes)
    requires t != [] && t[0] == QUOTE && Unquoted(t[1..]).Some?
    ensures var (value, rest) := Unquoted(t[1..]).value; t == text + rest && Spells(text, value)
  {
    var q := UnquotedSplit(t[1..]);
    text := [QUOTE] + q;
    var rest := Unquoted(t[1..]).value.1;
    assert t == [QUOTE] + t[1..] == text + rest;
    assert text[1..] == q && text[|text| - 1] == q[|q| - 1];
  }

  lemma {:induction false} StartsNull(t: Bytes)
    requires NULL <= t
    ensures t == NULL + t[4..]
  {
  }

  // ---------- arrays ----------

  datatype Slot = Slot(before: Bytes, text: Bytes, after: Bytes)

  predicate Fit(slot: Slot, value: Bytes) {
    Space(slot.before) && Spells(slot.text, value) && Space(slot.after)
  }

  predicate AllFit(slots: seq<Slot>, values: seq<Bytes>) {
    |slots| == |values| > 0 && forall i :: 0 <= i < |slots| ==> Fit(slots[i], values[i])
  }

  /** The elements with their white space, commas between them and the bracket after them. */
  function Laid(slots: seq<Slot>): Bytes
    requires slots != []
  {
    slots[0].before + (slots[0].text + (slots[0].after +
    if |slots| == 1 then [CLOSE] else [COMMA] + Laid(slots[1..])))
  }

  /** What the reader makes of what stands after an element, its white space and all. */
  function Next(value: Bytes, end: Bytes): Option<(seq<Bytes>, Bytes)> {
    if end == [] then None
    else if end[0] == CLOSE then Some(([value], end[1..]))
    else if end[0] == COMMA then
      match Elements(end[1..])
      case None => None
      case Some((more, rest)) => Some(([value] + more, rest))
    else None
  }

  lemma {:induction false} ElementsOfSlot(slot: Slot, value: Bytes, end: Bytes)
    requires Fit(slot, value) && end != [] && !IsSpace(end[0])
    ensures Elements(slot.before + (slot.text + (slot.after + end))) == Next(value, end)
  {
    var rest := slot.after + end;
    SkipThrough(slot.before, slot.text + rest);
    ElementOfSpelling(slot.text, value, rest);
    SkipThrough(slot.after, end);
  }

  lemma {:induction false} ElementsOfLaid(slots: seq<Slot>, values: seq<Bytes>, t: Bytes)
    requires AllFit(slots, values)
    ensures Elements(Laid(slots) + t) == Some((values, t))
  {
    var s := slots[0];
    assert Fit(s, values[0]);
    if |slots| == 1 {
      assert Laid(slots) + t == s.before + (s.text + (s.after + ([CLOSE] + t)));
      ElementsOfSlot(s, values[0], [CLOSE] + t);
      assert ([CLOSE] + t)[1..] == t && values == [values[0]];
    } else {
      var more := Laid(slots[1..]) + t;
      assert Laid(slots) + t == s.before + (s.text + (s.after + ([COMMA] + more)));
      assert AllFit(slots[1..], values[1..]);
      ElementsOfLaid(slots[1..], values[1..], t);
      ElementsOfSlot(s, values[0], [COMMA] + more);
      assert ([COMMA] + more)[1..] == more && values == [values[0]] + values[1..];
    }
  }

  lemma {:induction false} SlotOfElements(t: Bytes) returns (slot: Slot, value: Bytes, end: Bytes)
    requires Elements(t).Some?
    ensures t == slot.before + (slot.text + (slot.after + end)) && Fit(slot, value)
    ensures Elements(t) == Next(value, end)
  {
    var k := SkipExact(t);
    var element := t[k..];
    var text := ElementSpelled(element);
    assert Elements(t) == Next(Element(element).value.0, SkipSpace(Element(element).value.1));
    var (v, rest) := Element(element).value;
    value := v;
    var m := SkipExact(rest);
    slot, end := Slot(t[..k], text, rest[..m]), rest[m..];
    assert rest == slot.after + end;
    assert t == t[..k] + element;
  }

  lemma {:induction false} ElementsLaid(t: Bytes) returns (slots: seq<Slot>)
    requires Elements(t).Some?
    ensures AllFit(slots, Elements(t).value.0) && t == Laid(slots) + Elements(t).value.1
    decreases |t|
  {
    var s, value, end := SlotOfElements(t);
    if end[0] == CLOSE {
      slots := [s];
      assert end == [CLOSE] + end[1..];
      LaidLast(s, value, end[1..]);
    } else {
      var more := ElementsLaid(end[1..]);
      var (values, last) := Elements(end[1..]).value;
      slots := [s] + more;
      assert end == [COMMA] + (Laid(more) + last);
      LaidMore(s, value, more, values, last);
    }
  }

  lemma {:induction false} LaidLast(s: Slot, value: Bytes, last: Bytes)
    requires Fit(s, value)
    ensures AllFit([s], [value]) && Laid([s]) + last == s.before + (s.text + (s.after + ([CLOSE] + last)))
  {
    LaidRegroups(s, [CLOSE], last);
  }

  lemma {:induction false} LaidMore(s: Slot, value: Bytes, more: seq<Slot>, values: seq<Bytes>, last: Bytes)
    requires Fit(s, value) && AllFit(more, values)
    ensures AllFit([s] + more, [value] + values)
    ensures Laid([s] + more) + last == s.before + (s.text + (s.after + ([COMMA] + (Laid(more) + last))))
  {
    assert ([s] + more)[1..] == more;
    LaidRegroups(s, [COMMA] + Laid(more), last);
    assert [COMMA] + (Laid(more) + last) == [COMMA] + Laid(more) + last;
  }

  lemma {:induction false} LaidRegroups(s: Slot, tail: Bytes, last: Bytes)
    ensures s.before + (s.text + (s.after + tail)) + last == s.before + (s.text + (s.after + (tail + last)))
  {
  }

  datatype Layout = NullText | Empty(inner: Bytes) | Filled(slots: seq<Slot>)

  predicate Lays(layout: Layout, values: seq<Bytes>) {
    match layout
    case NullText => values == []
    case Empty(inner) => values == [] && Space(inner)
    case Filled(slots) => AllFit(slots, values)
  }

  function Body(layout: Layout): Bytes {
    match layout
    case NullText => NULL
    case Empty(inner) => [OPEN] + inner + [CLOSE]
    case Filled(slots) => [OPEN] + if slots == [] then [] else Laid(slots)
  }

  predicate Written(t: Bytes, before: Bytes, layout: Layout, after: Bytes, values: seq<Bytes>) {
    t == before + (Body(layout) + after) && Space(before) && Lays(layout, values) && Space(after)
  }

  /** Reading what stands after the white space in front. */
  function ReadBody(text: Bytes): Option<seq<Bytes>> {
    if NULL <= text then (if SkipSpace(text[4..]) == [] then Some([]) else None)
    else if text == [] || text[0] != OPEN then None
    else ReadArray(SkipSpace(text[1..]))
  }

  function ReadArray(body: Bytes): Option<seq<Bytes>> {
    if body != [] && body[0] == CLOSE then (if SkipSpace(body[1..]) == [] then Some([]) else None)
    else
      match Elements(body)
      case Some((parts, end)) => if SkipSpace(end) == [] then Some(parts) else None
      case None => None
  }

  lemma {:induction false} ReadOfWritten(t: Bytes, before: Bytes, layout: Layout, after: Bytes, values: seq<Bytes>)
    requires Written(t, before, layout, after, values)
    ensures Read(t) == Some(values)
  {
    var text := Body(layout) + after;
    assert text[0] == Body(layout)[0] && !IsSpace(text[0]);
    SkipThrough(before, text);
    AllSpace(after);
    BodyRead(layout, after, values);
  }

  lemma {:induction false} BodyRead(layout: Layout, after: Bytes, values: seq<Bytes>)
    requires Lays(layout, values) && SkipSpace(after) == []
    ensures ReadBody(Body(layout) + after) == Some(values)
  {
    match layout
    case NullText => NullRead(after);
    case Empty(inner) => EmptyRead(inner, after);
    case Filled(slots) => FilledRead(slots, values, after);
  }

  lemma {:induction false} EmptyRead(inner: Bytes, after: Bytes)
    requires Space(inner) && SkipSpace(after) == []
    ensures ReadBody([OPEN] + inner + [CLOSE] + after) == Some([])
  {
    assert [OPEN] + inner + [CLOSE] + after == [OPEN] + (inner + ([CLOSE] + after));
    OpenRead(inner + ([CLOSE] + after));
    ArrayOfNothing(inner, after);
  }

  lemma {:induction false} FilledRead(slots: seq<Slot>, values: seq<Bytes>, after: Bytes)
    requires AllFit(slots, values) && SkipSpace(after) == []
    ensures ReadBody([OPEN] + Laid(slots) + after) == Some(values)
  {
    assert [OPEN] + Laid(slots) + after == [OPEN] + (Laid(slots) + after);
    OpenRead(Laid(slots) + after);
    ArrayOfLaid(slots, values, after);
  }

  lemma {:induction false} NullRead(after: Bytes)
    requires SkipSpace(after) == []
    ensures ReadBody(NULL + after) == Some([])
  {
    assert (NULL + after)[4..] == after;
  }

  lemma {:induction false} OpenRead(t: Bytes)
    ensures ReadBody([OPEN] + t) == ReadArray(SkipSpace(t))
  {
    assert ([OPEN] + t)[1..] == t && ([OPEN] + t)[0] == OPEN;
  }

  lemma {:induction false} ArrayOfNothing(inner: Bytes, after: Bytes)
    requires Space(inner) && SkipSpace(after) == []
    ensures ReadArray(SkipSpace(inner + ([CLOSE] + after))) == Some([])
  {
    SkipThrough(inner, [CLOSE] + after);
    assert ([CLOSE] + after)[1..] == after;
  }

  lemma {:induction false} ArrayOfLaid(slots: seq<Slot>, values: seq<Bytes>, after: Bytes)
    requires AllFit(slots, values) && SkipSpace(after) == []
    ensures ReadArray(SkipSpace(Laid(slots) + after)) == Some(values)
  {
    ElementsOfLaid(slots, values, after);
    ElementsSkip(Laid(slots) + after);
    FirstOfLaid(slots, values, after);
  }

  /** After the white space an array with elements does not start like an empty one. */
  lemma {:induction false} FirstOfLaid(slots: seq<Slot>, values: seq<Bytes>, t: Bytes)
    requires AllFit(slots, values)
    ensures var body := SkipSpace(Laid(slots) + t); body != [] && body[0] != CLOSE
  {
    var s := slots[0];
    assert Fit(s, values[0]) && s.text != [] && s.text[0] in {QUOTE, 110};
    var rest := Laid(slots)[|s.before| + |s.text|..] + t;
    assert Laid(slots) + t == s.before + (s.text + rest);
    SkipThrough(s.before, s.text + rest);
  }

  lemma {:induction false} ElementsSkip(t: Bytes)
    ensures Elements(SkipSpace(t)) == Elements(t)
  {
    var k := SkipExact(t);
    SkipThrough([], t[k..]);
    assert [] + t[k..] == t[k..];
  }

  lemma {:induction false} ReadIsWritten(t: Bytes) returns (before: Bytes, layout: Layout, after: Bytes)
    requires Read(t).Some?
    ensures Written(t, before, layout, after, Read(t).value)
  {
    var k := SkipExact(t);
    var text := t[k..];
    before := t[..k];
    assert t == before + text && Read(t) == ReadBody(text);
    if NULL <= text {
      layout, after := NullText, text[4..];
      AllSpace(after);
      assert text == NULL + after;
    } else {
      layout, after := ArrayIsLaid(text[1..]);
      assert text == [OPEN] + text[1..];
    }
  }

  lemma {:induction false} ArrayIsLaid(t: Bytes) returns (layout: Layout, after: Bytes)
    requires ReadArray(SkipSpace(t)).Some?
    ensures [OPEN] + t == Body(layout) + after
    ensures Space(after) && Lays(layout, ReadArray(SkipSpace(t)).value)
  {
    var m := SkipExact(t);
    var body := t[m..];
    if body != [] && body[0] == CLOSE {
      layout, after := Empty(t[..m]), body[1..];
      AllSpace(after);
      assert t == t[..m] + [CLOSE] + after;
    } else {
      ElementsSkip(t);
      var slots := ElementsLaid(t);
      layout, after := Filled(slots), Elements(t).value.1;
      AllSpace(after);
      assert [OPEN] + t == [OPEN] + Laid(slots) + after;
    }
  }

  /**
   * What is read is, white space aside, null for no strings, or an array of strings in any spelling and nulls; and all
   * of that is read.
   */
  lemma {:induction false} ReadExact(t: Bytes, values: seq<Bytes>)
    ensures Read(t) == Some(values) <==> exists before, layout, after :: Written(t, before, layout, after, values)
  {
    if Read(t) == Some(values) { var before, layout, after := ReadIsWritten(t); }
    if before, layout, after :| Written(t, before, layout, after, values) {
      ReadOfWritten(t, before, layout, after, values);
    }
  }
}
