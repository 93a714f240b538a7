/** Accepting snake_case query parameter names: every one is respelled in camelCase, in whatever order they come up. */
module QueryNames {
  import opened ByteStrings

  /** Uppercases one byte as strings.ToUpper does to a one-byte string: a non-ASCII byte becomes U+FFFD. */
  function Upper(b: char): string {
    if 'a' <= b <= 'z' then [(b as int - 32) as char]
    else if b as int < 0x80 then [b]
    else [0xEF as char, 0xBF as char, 0xBD as char]
  }

  function Capitalized(part: string): string {
    if part == "" then "" else Upper(part[0]) + part[1..]
  }

  /** Every part but the first, capitalized. */
  function Capitals(parts: seq<string>): seq<string>
    requires parts != []
  {
    seq(|parts| - 1, i requires 0 <= i < |parts| - 1 => Capitalized(parts[i + 1]))
  }

  /** The first part as it is, then the others capitalized. */
  function Rejoined(parts: seq<string>): string
    requires parts != []
  {
    parts[0] + Concat(Capitals(parts))
  }

  function SnakeToCamel(s: string): string {
    Rejoined(Split(s, '_'))
  }

  lemma {:induction false} ConcatWithout(parts: seq<string>, c: char)
    requires forall i :: 0 <= i < |parts| ==> c !in parts[i]
    ensures c !in Concat(parts)
  {
    if parts != [] { ConcatWithout(parts[1..], c); }
  }

  /** A camelCase name has no underscore, and a name without one is left as it is. */
  lemma {:induction false} CamelHasNoUnderscore(s: string)
    ensures '_' !in SnakeToCamel(s)
    ensures '_' !in s ==> SnakeToCamel(s) == s
  {
    var parts := Split(s, '_');
    var tail := Capitals(parts);
    forall i | 0 <= i < |tail| ensures '_' !in tail[i] {
      var part := parts[i + 1];
      if part != "" {
        assert part == [part[0]] + part[1..];
        assert part[0] in part && forall c :: c in part[1..] ==> c in part;
      }
    }
    ConcatWithout(tail, '_');
    if '_' !in s {
      SplitWithout(s, '_');
    }
  }

  /** By codes: the 26 small letters are raised, other ASCII stays, and any other byte becomes U+FFFD in UTF-8. */
  lemma {:induction false} UpperExact(b: char)
    ensures b as int >= 128 <==> |Upper(b)| == 3
    ensures b as int >= 128 ==> Upper(b) == [239 as char, 191 as char, 189 as char]
    ensures b as int < 128 ==>
              |Upper(b)| == 1 && b as int - Upper(b)[0] as int == if 97 <= b as int <= 122 then 32 else 0
  {
  }

  /** Reading byte by byte: underscores are dropped and the byte after one is raised. */
  function Humped(s: string, raised: bool): string {
    if s == "" then ""
    else if s[0] == '_' then Humped(s[1..], true)
    else (if raised then Upper(s[0]) else [s[0]]) + Humped(s[1..], false)
  }

  function FirstRaised(parts: seq<string>): string
    requires parts != []
  {
    Capitalized(parts[0]) + Concat(Capitals(parts))
  }

  lemma {:induction false} HumpedParts(s: string)
    ensures Humped(s, false) == Rejoined(Split(s, '_')) && Humped(s, true) == FirstRaised(Split(s, '_'))
  {
    if s == "" {
      assert Capitals([""]) == [];
    } else {
      HumpedParts(s[1..]);
      var rest := Split(s[1..], '_');
      if s[0] == '_' { EmptyInFront(rest); } else { ByteInFront(s[0], rest); }
    }
  }

  lemma {:induction false} EmptyInFront(rest: seq<string>)
    requires rest != []
    ensures Rejoined([""] + rest) == FirstRaised([""] + rest) == FirstRaised(rest)
  {
    assert Capitals([""] + rest) == [Capitalized(rest[0])] + Capitals(rest);
  }

  lemma {:induction false} ByteInFront(c: char, rest: seq<string>)
    requires rest != []
    ensures Rejoined([[c] + rest[0]] + rest[1..]) == [c] + Rejoined(rest)
    ensures FirstRaised([[c] + rest[0]] + rest[1..]) == Upper(c) + Rejoined(rest)
  {
    var tail := Concat(Capitals(rest));
    assert Capitals([[c] + rest[0]] + rest[1..]) == Capitals(rest);
    assert ([c] + rest[0])[1..] == rest[0];
    assert [c] + rest[0] + tail == [c] + (rest[0] + tail);
    assert Upper(c) + rest[0] + tail == Upper(c) + (rest[0] + tail);
  }

  /** The camelCase spelling, stated without parts. */
  lemma {:induction false} SnakeToCamelExact(s: string)
    ensures SnakeToCamel(s) == Humped(s, false)
  {
    HumpedParts(s);
  }

  /** The loop over the parts, rewriting each in place. */
  method CapitalizeParts(parts: array<string>)
    requires parts.Length > 0
    modifies parts
    ensures parts[..] == [old(parts[0])] + Capitals(old(parts[..]))
  {
    for i := 1 to parts.Length
      invariant forall j :: 0 <= j < parts.Length ==>
        parts[j] == if 1 <= j < i then Capitalized(old(parts[j])) else old(parts[j])
    {
      if parts[i] != "" { parts[i] := Upper(parts[i][0]) + parts[i][1..]; }
    }
  }

  method SnakeToCamelInPlace(s: string) returns (r: string)
    ensures r == SnakeToCamel(s)
  {
    var split := Split(s, '_');
    var parts := new string[|split|](i requires 0 <= i < |split| => split[i]);
    assert parts[..] == split;
    CapitalizeParts(parts);
    r := Concat(parts[..]);
  }

  // ---------- the query map ----------

  type Query = map<string, seq<string>>

  predicate Legacy(key: string) {
    '_' in key
  }

  function LegacyKeys(q: Query): set<string> {
    set k | k in q && Legacy(k)
  }

  /** What the rewrite needs of a spelling: it leaves no underscore. */
  ghost predicate Camels(camel: string -> string) {
    forall s :: !Legacy(camel(s))
  }

  lemma {:induction false} SnakeToCamelCamels()
    ensures Camels(SnakeToCamel)
  {
    forall s ensures !Legacy(SnakeToCamel(s)) { CamelHasNoUnderscore(s); }
  }

  /** One legacy key respelled: a camelCase name already present wins. */
  function Respelled(camel: string -> string, q: Query, key: string): Query
    requires key in q
  {
    var name := camel(key);
    (if name in q then q else q[name := q[key]]) - {key}
  }

  /** The keys in the order the map iteration brings them up: each legacy key once. Keys added on the way do nothing. */
  ghost predicate IsOrder(q: Query, order: seq<string>) {
    && (forall k :: k in order <==> k in q && Legacy(k))
    && forall i, j :: 0 <= i < j < |order| ==> order[i] != order[j]
  }

  function RespelledAll(camel: string -> string, q: Query, order: seq<string>): Query {
    if order == [] then q
    else
      var before := RespelledAll(camel, q, order[..|order| - 1]);
      if order[|order| - 1] in before then Respelled(camel, before, order[|order| - 1]) else before
  }

  const SORT := "sort"

  /** The value of `sort` is a field name too; only its first value is read, and then only that one is kept. */
  function Final(camel: string -> string, key: string, values: seq<string>): seq<string> {
    if key == SORT && values != [] && Legacy(values[0]) then [camel(values[0])] else values
  }

  function SortRespelled(camel: string -> string, q: Query): Query {
    if SORT in q then q[SORT := Final(camel, SORT, q[SORT])] else q
  }

  function Rewritten(camel: string -> string, q: Query, order: seq<string>): Query {
    SortRespelled(camel, RespelledAll(camel, q, order))
  }

  /** The first key of the order that is spelled like this in camelCase. */
  function FirstFor(camel: string -> string, order: seq<string>, name: string): (k: string)
    requires exists o :: o in order && camel(o) == name
    ensures k in order && camel(k) == name
  {
    if camel(order[0]) == name then order[0] else FirstFor(camel, order[1..], name)
  }

  predicate Spells(camel: string -> string, order: seq<string>, name: string) {
    exists o :: o in order && camel(o) == name
  }

  lemma {:induction false} FirstForSnoc(camel: string -> string, order: seq<string>, last: string, name: string)
    requires Spells(camel, order, name)
    ensures Spells(camel, order + [last], name) && FirstFor(camel, order + [last], name) == FirstFor(camel, order, name)
  {
    var o :| o in order && camel(o) == name;
    assert o in order + [last];
    if camel(order[0]) != name {
      assert o in order[1..];
      FirstForSnoc(camel, order[1..], last, name);
      assert (order + [last])[1..] == order[1..] + [last];
    }
  }

  lemma {:induction false} FirstForNew(camel: string -> string, order: seq<string>, last: string)
    requires !Spells(camel, order, camel(last))
    ensures Spells(camel, order + [last], camel(last)) && FirstFor(camel, order + [last], camel(last)) == last
  {
    assert last in order + [last];
    if order != [] {
      assert order[0] in order;
      assert forall o :: o in order[1..] ==> o in order;
      FirstForNew(camel, order[1..], last);
      assert (order + [last])[1..] == order[1..] + [last];
    }
  }

  /** A prefix of an order: distinct legacy keys of the query. */
  ghost predicate IsPartial(q: Query, order: seq<string>) {
    && (forall k :: k in order ==> k in q && Legacy(k))
    && forall i, j :: 0 <= i < j < |order| ==> order[i] != order[j]
  }

  lemma {:induction false} SpellsSnoc(camel: string -> string, order: seq<string>, last: string, name: string)
    ensures Spells(camel, order + [last], name) <==> Spells(camel, order, name) || camel(last) == name
    ensures Spells(camel, order, name) ==> FirstFor(camel, order + [last], name) == FirstFor(camel, order, name)
    ensures !Spells(camel, order, name) && camel(last) == name ==> FirstFor(camel, order + [last], name) == last
  {
    assert forall o :: o in order + [last] <==> o in order || o == last;
    if Spells(camel, order, name) { FirstForSnoc(camel, order, last, name); }
    else if camel(last) == name { FirstForNew(camel, order, last); }
  }

  /** Respelling one key: it is gone, and its camelCase name holds what was there before, or else its values. */
  lemma {:induction false} OneRespelled(camel: string -> string, q: Query, key: string, k: string)
    requires Camels(camel) && key in q && Legacy(key)
    ensures var r := Respelled(camel, q, key);
            && (k in r <==> k != key && (k in q || k == camel(key)))
            && (k in r ==> r[k] == if k in q then q[k] else q[key])
  {
    assert !Legacy(camel(key));
  }

  /** After some legacy keys: they are gone, and a camelCase name not there before has its first spelling's values. */
  lemma {:induction false} RespelledAt(camel: string -> string, q: Query, order: seq<string>, k: string)
    requires Camels(camel) && IsPartial(q, order)
    ensures var r := RespelledAll(camel, q, order);
            && (k in r <==> (k in q && k !in order) || Spells(camel, order, k))
            && (k in r ==> r[k] == if k in q then q[k] else q[FirstFor(camel, order, k)])
    decreases |order|, 0
  {
    if order != [] {
      var before, key := order[..|order| - 1], order[|order| - 1];
      assert order == before + [key];
      assert forall o :: o in order <==> o in before || o == key;
      RespelledAt(camel, q, before, k);
      KeyIsNext(camel, q, before, key);
      SpellsSnoc(camel, before, key, k);
      OneRespelled(camel, RespelledAll(camel, q, before), key, k);
    }
  }

  /** The next key of an order is still there with its own values, and its camelCase name is present as told. */
  lemma {:induction false} KeyIsNext(camel: string -> string, q: Query, before: seq<string>, key: string)
    requires Camels(camel) && IsPartial(q, before) && key in q && Legacy(key) && key !in before
    ensures var r := RespelledAll(camel, q, before);
            && key in r && r[key] == q[key] && !Spells(camel, before, key)
            && (camel(key) in r <==> camel(key) in q || Spells(camel, before, camel(key)))
    decreases |before|, 1
  {
    RespelledAt(camel, q, before, key);
    RespelledAt(camel, q, before, camel(key));
    assert !Legacy(camel(key));
  }

  // ---------- what every iteration order gives ----------

  /** No key with an underscore is left; every key that had none keeps its values, up to the spelling of a sort key. */
  lemma {:induction false} RewriteExact(camel: string -> string, q: Query, order: seq<string>, k: string)
    requires Camels(camel) && IsOrder(q, order)
    ensures var r := Rewritten(camel, q, order);
            && (k in r ==> !Legacy(k))
            && (k in q && !Legacy(k) ==> k in r && r[k] == Final(camel, k, q[k]))
            && (k in r && k !in q ==> Spells(camel, order, k) && r[k] == Final(camel, k, q[FirstFor(camel, order, k)]))
            && (k in r ==> Final(camel, k, r[k]) == r[k])
  {
    RespelledAt(camel, q, order, k);
    if Spells(camel, order, k) {
      assert !Legacy(camel(FirstFor(camel, order, k)));
    }
    if k in Rewritten(camel, q, order) { FinalTwice(camel, k, RespelledAll(camel, q, order)[k]); }
  }

  lemma {:induction false} RewriteAll(camel: string -> string, q: Query, order: seq<string>)
    requires Camels(camel) && IsOrder(q, order)
    ensures var r := Rewritten(camel, q, order);
            && (forall k :: k in r ==> !Legacy(k))
            && forall k :: k in q && !Legacy(k) ==> k in r && r[k] == Final(camel, k, q[k])
  {
    forall k ensures k in Rewritten(camel, q, order) ==> !Legacy(k) { RewriteExact(camel, q, order, k); }
    forall k | k in q && !Legacy(k)
      ensures var r := Rewritten(camel, q, order); k in r && r[k] == Final(camel, k, q[k])
    {
      RewriteExact(camel, q, order, k);
    }
  }

  lemma {:induction false} FinalTwice(camel: string -> string, k: string, values: seq<string>)
    requires Camels(camel)
    ensures Final(camel, k, Final(camel, k, values)) == Final(camel, k, values)
  {
    if values != [] { assert !Legacy(camel(values[0])); }
  }

  /** Rewriting a rewritten query changes nothing: it has no legacy key, so it has one order, the empty one. */
  lemma {:induction false} RewriteTwice(camel: string -> string, q: Query, order: seq<string>, again: seq<string>)
    requires Camels(camel) && IsOrder(q, order) && IsOrder(Rewritten(camel, q, order), again)
    ensures Rewritten(camel, Rewritten(camel, q, order), again) == Rewritten(camel, q, order)
  {
    var r := Rewritten(camel, q, order);
    if again != [] {
      assert again[0] in again;
      RewriteExact(camel, q, order, again[0]);
    }
    if SORT in r { RewriteExact(camel, q, order, SORT); }
  }

  /** Two legacy names for one camelCase name that the query lacks, with values that stay different. */
  predicate Conflict(camel: string -> string, q: Query, a: string, b: string) {
    && a in q && b in q && Legacy(a) && Legacy(b) && camel(a) == camel(b) && camel(a) !in q
    && Final(camel, camel(a), q[a]) != Final(camel, camel(b), q[b])
  }

  lemma {:induction false} Enumerate(keys: set<string>) returns (order: seq<string>)
    ensures (forall k :: k in order <==> k in keys) && forall i, j :: 0 <= i < j < |order| ==> order[i] != order[j]
    decreases |keys|
  {
    if keys == {} {
      order := [];
    } else {
      var k :| k in keys;
      var rest := Enumerate(keys - {k});
      order := [k] + rest;
    }
  }

  lemma {:induction false} OrderFrom(q: Query, a: string) returns (order: seq<string>)
    requires a in q && Legacy(a)
    ensures IsOrder(q, order) && order != [] && order[0] == a
  {
    var rest := Enumerate(LegacyKeys(q) - {a});
    order := [a] + rest;
  }

  /** Both of two conflicting names can come up first, and the results then differ. */
  lemma {:induction false} ConflictShows(camel: string -> string, q: Query, a: string, b: string)
    returns (o: seq<string>, p: seq<string>)
    requires Camels(camel) && Conflict(camel, q, a, b)
    ensures IsOrder(q, o) && IsOrder(q, p) && Rewritten(camel, q, o) != Rewritten(camel, q, p)
  {
    o := OrderFrom(q, a);
    p := OrderFrom(q, b);
    var name := camel(a);
    assert a in o && b in p && Spells(camel, o, name) && Spells(camel, p, name);
    RespelledAt(camel, q, o, name);
    RespelledAt(camel, q, p, name);
    assert Rewritten(camel, q, o)[name] != Rewritten(camel, q, p)[name];
  }

  /**
   * The rewrite gives the same query for every iteration order exactly when no two legacy names conflict. In
   * particular it does when no two legacy names share a camelCase form.
   */
  lemma {:induction false} OrderIndependentExact(camel: string -> string, q: Query)
    requires Camels(camel)
    ensures (forall o, p :: IsOrder(q, o) && IsOrder(q, p) ==> Rewritten(camel, q, o) == Rewritten(camel, q, p)) <==>
            !(exists a, b :: Conflict(camel, q, a, b))
  {
    if exists a, b :: Conflict(camel, q, a, b) {
      var a, b :| Conflict(camel, q, a, b);
      var o, p := ConflictShows(camel, q, a, b);
    } else {
      forall o, p | IsOrder(q, o) && IsOrder(q, p) ensures Rewritten(camel, q, o) == Rewritten(camel, q, p) {
        SameResult(camel, q, o, p);
      }
    }
  }

  lemma {:induction false} SameSpells(camel: string -> string, q: Query, o: seq<string>, p: seq<string>, k: string)
    requires IsOrder(q, o) && IsOrder(q, p)
    ensures Spells(camel, o, k) <==> Spells(camel, p, k)
  {
    if Spells(camel, o, k) {
      var x :| x in o && camel(x) == k;
      assert x in p;
    }
    if Spells(camel, p, k) {
      var x :| x in p && camel(x) == k;
      assert x in o;
    }
  }

  lemma {:induction false} SameAt(camel: string -> string, q: Query, o: seq<string>, p: seq<string>, k: string)
    requires Camels(camel) && IsOrder(q, o) && IsOrder(q, p) && forall a, b :: !Conflict(camel, q, a, b)
    ensures var ro, rp := Rewritten(camel, q, o), Rewritten(camel, q, p);
            (k in ro <==> k in rp) && (k in ro ==> ro[k] == rp[k])
  {
    RespelledAt(camel, q, o, k);
    RespelledAt(camel, q, p, k);
    SameSpells(camel, q, o, p, k);
    if Spells(camel, o, k) { assert !Conflict(camel, q, FirstFor(camel, o, k), FirstFor(camel, p, k)); }
  }

  lemma {:induction false} SameResult(camel: string -> string, q: Query, o: seq<string>, p: seq<string>)
    requires Camels(camel) && IsOrder(q, o) && IsOrder(q, p) && forall a, b :: !Conflict(camel, q, a, b)
    ensures Rewritten(camel, q, o) == Rewritten(camel, q, p)
  {
    var ro, rp := Rewritten(camel, q, o), Rewritten(camel, q, p);
    forall k ensures k in ro <==> k in rp
             ensures k in ro ==> ro[k] == rp[k]
    {
      SameAt(camel, q, o, p, k);
    }
  }

  lemma {:induction false} OrderGrows(camel: string -> string, q: Query, order: seq<string>, key: string)
    requires Camels(camel) && IsPartial(q, order) && key in q && Legacy(key) && key !in order
    ensures IsPartial(q, order + [key]) && key in RespelledAll(camel, q, order)
    ensures RespelledAll(camel, q, order + [key]) == Respelled(camel, RespelledAll(camel, q, order), key)
  {
    KeyIsNext(camel, q, order, key);
    assert (order + [key])[..|order|] == order;
  }

  // ---------- the middleware ----------

  class Request {
    var query: Query

    constructor (query: Query)
      ensures this.query == query
    {
      this.query := query;
    }

    /**
     * `applies` says that the raw query holds a literal underscore and the path is under /api/. The map is rewritten
     * while it is ranged over; keys inserted on the way have no underscore, so visiting them or not is the same.
     */
    method LegacyQueryNames(applies: bool) returns (ghost order: seq<string>)
      modifies this
      ensures !applies ==> query == old(query)
      ensures applies ==> IsOrder(old(query), order) && query == Rewritten(SnakeToCamel, old(query), order)
      ensures applies ==> forall k :: k in query ==> !Legacy(k)
      ensures applies ==> forall k :: k in old(query) && !Legacy(k) ==>
                            k in query && query[k] == Final(SnakeToCamel, k, old(query)[k])
    {
      order := [];
      if !applies { return; }
      SnakeToCamelCamels();
      var todo := LegacyKeys(query);
      while todo != {}
        invariant todo <= LegacyKeys(old(query)) && IsPartial(old(query), order)
        invariant forall k :: k in LegacyKeys(old(query)) <==> k in todo || k in order
        invariant forall k :: k in todo ==> k !in order
        invariant query == RespelledAll(SnakeToCamel, old(query), order)
      {
        var key :| key in todo;
        OrderGrows(SnakeToCamel, old(query), order, key);
        var camel := SnakeToCamel(key);
        if camel !in query { query := query[camel := query[key]]; }
        query := query - {key};
        todo := todo - {key};
        order := order + [key];
      }
      SortName();
      RewriteAll(SnakeToCamel, old(query), order);
    }

    method SortName()
      modifies this
      ensures query == SortRespelled(SnakeToCamel, old(query))
    {
      if SORT in query && query[SORT] != [] && Legacy(query[SORT][0]) {
        query := query[SORT := [SnakeToCamel(query[SORT][0])]];
      }
    }
  }
}
