/** Opaque cursors: a tuple of strings as JSON in base64url, and the offset one of them carries in decimal. */
module Cursors {
  import opened Options
  import opened Utf8
  import Base64Url
  import JsonStrings

  datatype Decoded = NoCursor | Invalid | Parts(parts: seq<Bytes>)

  function EncodeCursor(parts: seq<Bytes>): Bytes {
    Base64Url.Encode(JsonStrings.Write(parts))
  }

  function DecodeCursor(s: Bytes, arity: nat): Decoded {
    if s == [] then NoCursor
    else
      match Base64Url.Decode(s)
      case None => Invalid
      case Some(text) =>
        match JsonStrings.Read(text)
        case None => Invalid
        case Some(parts) => if |parts| == arity then Parts(parts) else Invalid
  }

  /** A cursor decodes under the arity it was made with, and under no other. */
  lemma {:induction false} DecodeOfEncode(parts: seq<Bytes>, arity: nat)
    ensures DecodeCursor(EncodeCursor(parts), arity)
         == if |parts| == arity then Parts(JsonStrings.AllSanitized(parts)) else Invalid
    ensures EncodeCursor(parts) != []
  {
    Base64Url.DecodeInvertsEncode(JsonStrings.Write(parts));
    JsonStrings.ReadInvertsWrite(parts);
    JsonStrings.AllSanitizedExact(parts);
  }

  /** The tuple comes back exactly when every part is valid UTF-8. */
  lemma {:induction false} RoundTripExact(parts: seq<Bytes>)
    ensures DecodeCursor(EncodeCursor(parts), |parts|) == Parts(parts) <==> JsonStrings.AllValid(parts)
  {
    DecodeOfEncode(parts, |parts|);
    JsonStrings.AllSanitizedExact(parts);
  }

  /** No cursor at all, made by the server or by hand, is accepted under two arities. */
  lemma {:induction false} ArityExclusive(s: Bytes, a: nat, b: nat)
    requires a != b && DecodeCursor(s, a).Parts?
    ensures DecodeCursor(s, b) == Invalid
  {
  }

  // ---------- offsets in decimal ----------

  const MAX_INT32: int := 0x7FFF_FFFF

  function Itoa(n: nat): (s: Bytes)
    ensures s != []
  {
    if n < 10 then [48 + n] else Itoa(n / 10) + [48 + n % 10]
  }

  predicate IsDigit(c: Byte) {
    48 <= c <= 57
  }

  function Digits(s: Bytes): (r: Option<int>)
    ensures r.Some? ==> r.value >= 0
  {
    if s == [] then Some(0)
    else
      match Digits(s[..|s| - 1])
      case Some(v) => if IsDigit(s[|s| - 1]) then Some(v * 10 + (s[|s| - 1] - 48)) else None
      case None => None
  }

  /** strconv.ParseInt in base 10 with 32 bits: None for a syntax or a range error. */
  function ParseInt32(s: Bytes): Option<int> {
    var signed := s != [] && (s[0] == 43 || s[0] == 45);
    var digits := if signed then s[1..] else s;
    if digits == [] then None
    else
      match Digits(digits)
      case None => None
      case Some(v) =>
        var value := if signed && s[0] == 45 then -v else v;
        if -MAX_INT32 - 1 <= value <= MAX_INT32 then Some(value) else None
  }

  lemma {:induction false} DigitsOfItoa(n: nat)
    ensures Digits(Itoa(n)) == Some(n)
    ensures forall c :: c in Itoa(n) ==> IsDigit(c)
  {
    if n < 10 {
      assert [48 + n][..0] == [];
    } else {
      DigitsOfItoa(n / 10);
      assert Itoa(n)[..|Itoa(n)| - 1] == Itoa(n / 10);
    }
  }

  lemma {:induction false} AsciiIsValid(s: Bytes)
    requires forall c :: c in s ==> c < 0x80
    ensures Valid(s)
  {
    if s != [] {
      assert s[0] in s && forall c :: c in s[1..] ==> c in s;
      AsciiIsValid(s[1..]);
    }
  }

  /** An offset survives its cursor exactly up to the largest 32-bit integer; beyond it, it is refused. */
  lemma {:induction false} OffsetRoundTripExact(n: nat)
    ensures DecodeCursor(EncodeCursor([Itoa(n)]), 1) == Parts([Itoa(n)])
    ensures ParseInt32(Itoa(n)) == if n <= MAX_INT32 then Some(n) else None
  {
    DigitsOfItoa(n);
    AsciiIsValid(Itoa(n));
    RoundTripExact([Itoa(n)]);
    assert Itoa(n)[0] in Itoa(n);
  }

  // ---------- decimals by hand ----------

  predicate Zeros(z: Bytes) {
    forall c :: c in z ==> c == 48
  }

  /** A number in decimal, with leading zeros and a sign or without. */
  predicate Decimal(s: Bytes, sign: Bytes, zeros: Bytes, n: nat) {
    s == sign + (zeros + Itoa(n)) && sign in {[], [43], [45]} && Zeros(zeros)
  }

  lemma {:induction false} DigitsOfZeros(zeros: Bytes)
    requires Zeros(zeros)
    ensures Digits(zeros) == Some(0)
  {
    if zeros != [] {
      var front := zeros[..|zeros| - 1];
      assert zeros[|zeros| - 1] in zeros && forall c :: c in front ==> c in zeros;
      DigitsOfZeros(front);
    }
  }

  lemma {:induction false} DigitsOfPadded(zeros: Bytes, n: nat)
    requires Zeros(zeros)
    ensures Digits(zeros + Itoa(n)) == Some(n)
  {
    var s := zeros + Itoa(n);
    if n >= 10 {
      DigitsOfPadded(zeros, n / 10);
      assert s[..|s| - 1] == zeros + Itoa(n / 10);
    } else {
      DigitsOfZeros(zeros);
      assert s[..|s| - 1] == zeros;
    }
  }

  lemma {:induction false} DigitsArePadded(s: Bytes) returns (zeros: Bytes)
    requires s != [] && Digits(s).Some?
    ensures Zeros(zeros) && s == zeros + Itoa(Digits(s).value)
  {
    var front, last := s[..|s| - 1], s[|s| - 1];
    var v := Digits(front).value;
    assert Digits(s).value == v * 10 + (last - 48);
    assert s == front + [last];
    if front == [] {
      zeros := [];
    } else {
      zeros := DigitsArePadded(front);
      if v == 0 {
        assert Itoa(0) == [48];
        zeros := front;
      } else {
        assert Itoa(v * 10 + (last - 48)) == Itoa(v) + [last];
      }
    }
  }

  /** A digit at the front is no sign. */
  lemma {:induction false} DecimalStarts(zeros: Bytes, n: nat)
    requires Zeros(zeros)
    ensures IsDigit((zeros + Itoa(n))[0])
  {
    DigitsOfItoa(n);
    if zeros != [] { assert zeros[0] in zeros; } else { assert Itoa(n)[0] in Itoa(n); }
  }

  function Signed(sign: Bytes, n: nat): int {
    if sign == [45] then 0 - n else n
  }

  predicate Fits32(v: int) {
    -0x8000_0000 <= v < 0x8000_0000
  }

  lemma {:induction false} ParseOfDecimal(s: Bytes, sign: Bytes, zeros: Bytes, n: nat)
    requires Decimal(s, sign, zeros, n)
    ensures ParseInt32(s) == if Fits32(Signed(sign, n)) then Some(Signed(sign, n)) else None
  {
    var digits := zeros + Itoa(n);
    DigitsOfPadded(zeros, n);
    DecimalStarts(zeros, n);
    if sign == [] { assert s == digits; } else { assert s[1..] == digits && s[0] == sign[0]; }
  }

  lemma {:induction false} ParsedIsDecimal(s: Bytes) returns (sign: Bytes, zeros: Bytes, n: nat)
    requires ParseInt32(s).Some?
    ensures Decimal(s, sign, zeros, n)
  {
    var signed := s[0] == 43 || s[0] == 45;
    var digits := if signed then s[1..] else s;
    sign, n := if signed then [s[0]] else [], Digits(digits).value;
    zeros := DigitsArePadded(digits);
    assert s == sign + digits;
  }

  /** What is read as an offset is a number in decimal of 32 bits, however padded, and all of those are read. */
  lemma {:induction false} ParseInt32Exact(s: Bytes, v: int)
    ensures ParseInt32(s) == Some(v) <==>
            Fits32(v) && exists sign, zeros, n :: Decimal(s, sign, zeros, n) && v == Signed(sign, n)
  {
    if ParseInt32(s) == Some(v) {
      var sign, zeros, n := ParsedIsDecimal(s);
      ParseOfDecimal(s, sign, zeros, n);
    }
    if sign, zeros, n :| Decimal(s, sign, zeros, n) && v == Signed(sign, n) {
      ParseOfDecimal(s, sign, zeros, n);
    }
  }
}
