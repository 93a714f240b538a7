/** Rewriting an OpenAPI 3.1 document for 3.0: a list-valued `type` becomes a single type plus `nullable`. */
module SpecTo30 {
  import opened Options

  datatype Json =
    | Null | Bool(b: bool) | Num(literal: string) | Str(s: string)
    | Arr(elems: seq<Json>) | Obj(fields: map<string, Json>)

  const TYPE := "type"
  const NULLABLE := "nullable"
  const NULL := Str("null")

  /** The entries of a type list other than "null", in order. */
  function Kept(types: seq<Json>): (kept: seq<Json>)
    ensures forall t :: t in kept <==> t in types && t != NULL
    ensures |kept| <= |types| && (NULL in types ==> |kept| < |types|)
  {
    if types == [] then []
    else Kept(types[..|types| - 1]) + if types[|types| - 1] == NULL then [] else [types[|types| - 1]]
  }

  /** One kept entry stands alone; none or several stay a list. */
  function Collapsed(kept: seq<Json>): Json {
    if |kept| == 1 then kept[0] else Arr(kept)
  }

  predicate Listed(m: map<string, Json>) {
    TYPE in m && m[TYPE].Arr?
  }

  /** The object's type list names "null", so `nullable` is set whatever it was. */
  predicate SetsNullable(m: map<string, Json>) {
    Listed(m) && NULL in m[TYPE].elems
  }

  function Keys(m: map<string, Json>): set<string> {
    if SetsNullable(m) then m.Keys + {NULLABLE} else m.Keys
  }

  /** The converted document: every object whose `type` is a list is rewritten, at every depth. */
  function Converted(j: Json): Json {
    match j
    case Arr(es) => Arr(seq(|es|, i requires 0 <= i < |es| => Converted(es[i])))
    case Obj(m) =>
      Obj(map k | k in Keys(m) ::
            if k == NULLABLE && SetsNullable(m) then Bool(true)
            else
              var c := Converted(m[k]);
              if k == TYPE && c.Arr? then Collapsed(Kept(c.elems)) else c)
    case _ => j
  }

  lemma {:induction false} ConvertedShape(j: Json)
    ensures Converted(j) == NULL <==> j == NULL
    ensures Converted(j).Arr? <==> j.Arr?
    ensures j.Arr? ==> |Converted(j).elems| == |j.elems| && (NULL in Converted(j).elems <==> NULL in j.elems)
  {
    if j.Arr? {
      var es, cs := j.elems, Converted(j).elems;
      forall i | 0 <= i < |es| ensures cs[i] == NULL <==> es[i] == NULL { ConvertedShape(es[i]); }
      if NULL in es {
        var i :| 0 <= i < |es| && es[i] == NULL;
        assert cs[i] == NULL;
      }
    }
  }

  // ---------- meaning ----------

  /** The kinds of values a schema tells apart; a number is an integer or not. */
  datatype Kind = KNull | KBoolean | KObject | KArray | KInteger | KFraction | KString

  /** One type name of section 6.1.1 of JSON Schema Validation 2020-12. */
  predicate NameAdmits(t: Json, k: Kind) {
    match k
    case KNull => t == Str("null")
    case KBoolean => t == Str("boolean")
    case KObject => t == Str("object")
    case KArray => t == Str("array")
    case KInteger => t == Str("integer") || t == Str("number")
    case KFraction => t == Str("number")
    case KString => t == Str("string")
  }

  /** A type list admits what any of its names admits. */
  predicate TypeAdmits(t: Json, k: Kind) {
    if t.Arr? then exists e :: e in t.elems && NameAdmits(e, k) else NameAdmits(t, k)
  }

  /** JSON Schema 2020-12: `nullable` means nothing. */
  predicate Admits31(m: map<string, Json>, k: Kind) {
    TYPE in m ==> TypeAdmits(m[TYPE], k)
  }

  /** OpenAPI 3.0.3, Data Types and Schema Object: `type` is a single string, not a list, and null is no type. */
  predicate Valid30(m: map<string, Json>) {
    TYPE in m ==> m[TYPE].Str? && m[TYPE] != NULL
  }

  /** OpenAPI 3.0.3, Schema Object: `nullable: true` beside a `type` adds null to what the type admits. */
  predicate Admits30(m: map<string, Json>, k: Kind)
    requires Valid30(m)
  {
    TYPE in m ==> NameAdmits(m[TYPE], k) || (k == KNull && SaysNullable(m))
  }

  /** The converted object means something under 3.0, and that is what the original meant under 3.1. */
  predicate SameMeaning(converted: map<string, Json>, original: map<string, Json>) {
    Valid30(converted) && forall k :: Admits30(converted, k) <==> Admits31(original, k)
  }

  predicate StringList(t: Json) {
    t.Arr? && forall e :: e in t.elems ==> e.Str?
  }

  lemma {:induction false} StringsConvert(t: Json)
    requires StringList(t)
    ensures Converted(t) == t
  {
    var cs := Converted(t).elems;
    forall i | 0 <= i < |t.elems| ensures cs[i] == t.elems[i] {
      assert t.elems[i] in t.elems && Converted(t.elems[i]) == t.elems[i];
    }
    assert cs == t.elems;
  }

  /** The forms section 6.1.1 of JSON Schema Validation 2020-12 gives `type`: a string, or a list of strings. */
  predicate WellTyped(m: map<string, Json>) {
    TYPE in m ==> m[TYPE].Str? || StringList(m[TYPE])
  }

  predicate SaysNullable(m: map<string, Json>) {
    NULLABLE in m && m[NULLABLE] == Bool(true)
  }

  /** One type besides "null", and no `nullable: true` unless a type list names "null". */
  predicate Convertible(m: map<string, Json>) {
    if TYPE !in m then true
    else if Listed(m) then |Kept(m[TYPE].elems)| == 1 && (SaysNullable(m) ==> NULL in m[TYPE].elems)
    else m[TYPE] != NULL && !SaysNullable(m)
  }

  /**
   * A converted object is valid under 3.0 and admits what it admitted under 3.1 exactly when it names one type besides
   * "null", or no type at all, and says `nullable: true` only where its type list names "null".
   */
  lemma {:induction false} MeaningPreserved(m: map<string, Json>)
    requires WellTyped(m)
    ensures SameMeaning(Converted(Obj(m)).fields, m) <==> Convertible(m)
  {
    if Listed(m) {
      ListMeaning(m);
    } else {
      var r := Converted(Obj(m)).fields;
      NullableConverts(m);
      if TYPE in m {
        assert r[TYPE] == m[TYPE];
        assert Valid30(r) ==> (Admits30(r, KNull) <==> SaysNullable(m)) && !Admits31(m, KNull);
      }
    }
  }

  lemma {:induction false} ListMeaning(m: map<string, Json>)
    requires Listed(m) && StringList(m[TYPE])
    ensures SameMeaning(Converted(Obj(m)).fields, m) <==> Convertible(m)
  {
    var types, r := m[TYPE].elems, Converted(Obj(m)).fields;
    StringsConvert(m[TYPE]);
    assert r[TYPE] == Collapsed(Kept(types));
    if |Kept(types)| == 1 {
      assert Kept(types)[0] in Kept(types);
      forall k ensures Admits30(r, k) <==> Admits31(m, k) || (k == KNull && NULL !in types && SaysNullable(r)) {
        LoneAdmits(types, k);
        NullableConverts(m);
      }
      NullableConverts(m);
      assert Admits31(m, KNull) <==> NULL in types;
    }
  }

  lemma {:induction false} LoneAdmits(types: seq<Json>, k: Kind)
    requires (forall e :: e in types ==> e.Str?) && |Kept(types)| == 1
    ensures NameAdmits(Kept(types)[0], k) <==> TypeAdmits(Arr(types), k) && k != KNull
  {
    var kept := Kept(types);
    if TypeAdmits(Arr(types), k) && k != KNull {
      var e :| e in types && NameAdmits(e, k);
      assert e in kept && e == kept[0];
    }
    assert kept[0] in kept;
  }

  /** Two types stay a list, and "null" alone leaves an empty one: neither means anything under 3.0. */
  lemma {:induction false} OtherListsLoseMeaning(a: string, b: string)
    requires a != "null" && b != "null"
    ensures !SameMeaning(Converted(Obj(map[TYPE := Arr([Str(a), Str(b)])])).fields,
                         map[TYPE := Arr([Str(a), Str(b)])])
    ensures !SameMeaning(Converted(Obj(map[TYPE := Arr([NULL])])).fields, map[TYPE := Arr([NULL])])
  {
    var two, none := map[TYPE := Arr([Str(a), Str(b)])], map[TYPE := Arr([NULL])];
    assert [Str(a), Str(b)][..1] == [Str(a)] && [Str(a)][..0] == [] && [NULL][..0] == [];
    assert Kept([Str(a), Str(b)]) == [Str(a), Str(b)] && Kept([NULL]) == [];
    MeaningPreserved(two);
    MeaningPreserved(none);
  }

  /** {"type": ["string"], "nullable": true} comes to admit null. */
  lemma {:induction false} StrayNullableGainsNull()
    ensures var m := map[TYPE := Arr([Str("string")]), NULLABLE := Bool(true)];
            !SameMeaning(Converted(Obj(m)).fields, m)
  {
    MeaningPreserved(map[TYPE := Arr([Str("string")]), NULLABLE := Bool(true)]);
  }

  lemma {:induction false} NullableConverts(m: map<string, Json>)
    ensures var r := Converted(Obj(m)).fields;
            SaysNullable(r) <==> SetsNullable(m) || SaysNullable(m)
  {
    if NULLABLE in m && !SetsNullable(m) { BoolConverts(m[NULLABLE]); }
  }

  lemma {:induction false} BoolConverts(j: Json)
    ensures Converted(j) == Bool(true) <==> j == Bool(true)
  {
  }

  // ---------- at every depth ----------

  datatype Step = Field(key: string) | Item(index: nat)

  function At(j: Json, path: seq<Step>): Option<Json>
    decreases |path|
  {
    if path == [] then Some(j)
    else match path[0]
      case Field(k) => if j.Obj? && k in j.fields then At(j.fields[k], path[1..]) else None
      case Item(i) => if j.Arr? && i < |j.elems| then At(j.elems[i], path[1..]) else None
  }

  /** The path goes neither into a rewritten type list nor into an overwritten `nullable`. */
  predicate Survives(j: Json, path: seq<Step>)
    decreases |path|
  {
    path == [] ||
    match path[0]
    case Field(k) =>
      && j.Obj? && k in j.fields && Survives(j.fields[k], path[1..])
      && !(k == TYPE && Listed(j.fields)) && !(k == NULLABLE && SetsNullable(j.fields))
    case Item(i) => j.Arr? && i < |j.elems| && Survives(j.elems[i], path[1..])
  }

  /** What stands at a surviving path is converted where it stands. */
  lemma {:induction false} ConvertedAt(j: Json, path: seq<Step>)
    requires Survives(j, path)
    ensures At(j, path).Some? && At(Converted(j), path) == Some(Converted(At(j, path).value))
    decreases |path|
  {
    if path != [] {
      match path[0]
      case Field(k) => ConvertedAt(j.fields[k], path[1..]); ConvertedShape(j.fields[k]);
      case Item(i) => ConvertedAt(j.elems[i], path[1..]);
    }
  }

  /** Meaning is kept at every depth of the document, object by object, under the same exact condition. */
  lemma {:induction false} MeaningPreservedAt(j: Json, path: seq<Step>, m: map<string, Json>)
    requires Survives(j, path) && At(j, path) == Some(Obj(m)) && WellTyped(m)
    ensures At(Converted(j), path).Some? && At(Converted(j), path).value.Obj?
    ensures SameMeaning(At(Converted(j), path).value.fields, m) <==> Convertible(m)
  {
    ConvertedAt(j, path);
    MeaningPreserved(m);
  }

  // ---------- idempotence ----------

  /** How deep lists are nested directly in lists. */
  function Nest(j: Json): nat {
    if j.Arr? then 1 + MaxNest(j.elems) else 0
  }

  function MaxNest(es: seq<Json>): (n: nat)
    ensures forall i :: 0 <= i < |es| ==> Nest(es[i]) <= n
  {
    if es == [] then 0
    else
      var rest := MaxNest(es[1..]);
      if Nest(es[0]) >= rest then Nest(es[0]) else rest
  }

  lemma {:induction false} ConvertedNest(j: Json)
    ensures Nest(Converted(j)) == Nest(j)
  {
    if j.Arr? {
      forall i | 0 <= i < |j.elems| ensures Nest(Converted(j.elems[i])) == Nest(j.elems[i]) {
        ConvertedNest(j.elems[i]);
      }
      SameMaxNest(Converted(j).elems, j.elems);
    }
  }

  lemma {:induction false} SameMaxNest(a: seq<Json>, b: seq<Json>)
    requires |a| == |b| && forall i :: 0 <= i < |a| ==> Nest(a[i]) == Nest(b[i])
    ensures MaxNest(a) == MaxNest(b)
  {
    if a != [] { SameMaxNest(a[1..], b[1..]); }
  }

  lemma {:induction false} KeptAll(es: seq<Json>)
    requires forall i :: 0 <= i < |es| ==> es[i] != NULL
    ensures Kept(es) == es
  {
    if es != [] { KeptAll(es[..|es| - 1]); }
  }

  /** Keeping and converting commute. */
  lemma {:induction false} KeptConverted(types: seq<Json>)
    ensures Kept(Converted(Arr(types)).elems) == Converted(Arr(Kept(types))).elems
  {
    if types != [] {
      var init, last := types[..|types| - 1], types[|types| - 1];
      KeptConverted(init);
      var cs := Converted(Arr(types)).elems;
      assert cs[..|cs| - 1] == Converted(Arr(init)).elems;
      ConvertedShape(last);
    }
  }

  /** A lone kept entry that is itself a list, which a second pass would take for a type list and shorten. */
  predicate Unstable(kept: seq<Json>) {
    |kept| == 1 && kept[0].Arr? && (NULL in kept[0].elems || |kept[0].elems| == 1)
  }

  /** What a second pass makes of a `type` value. */
  function Again(c: Json): Json {
    var c2 := Converted(c);
    if c2.Arr? then Collapsed(Kept(c2.elems)) else c2
  }

  lemma {:induction false} AgainOnList(c: Json)
    requires c.Arr?
    ensures Again(c) == c <==> Converted(c) == c && NULL !in c.elems && |c.elems| != 1
  {
    var c2 := Converted(c);
    ConvertedShape(c);
    ConvertedNest(c);
    if NULL !in c2.elems { KeptAll(c2.elems); }
    if |Kept(c2.elems)| == 1 {
      var x := Kept(c2.elems)[0];
      assert x in c2.elems && Nest(x) < Nest(c2);
    }
  }

  /** No entry of the list changes when converted twice instead of once. */
  predicate EntriesSettle(types: seq<Json>) {
    forall e :: e in types ==> Converted(Converted(e)) == Converted(e)
  }

  lemma {:induction false} ListSettles(es: seq<Json>)
    ensures Converted(Converted(Arr(es))) == Converted(Arr(es)) <==> EntriesSettle(es)
  {
    var cs := Converted(Arr(es)).elems;
    var ccs := Converted(Arr(cs)).elems;
    if EntriesSettle(es) {
      forall i | 0 <= i < |es| ensures ccs[i] == cs[i] { assert es[i] in es; }
      assert ccs == cs;
    }
    if ccs == cs {
      forall e | e in es ensures Converted(Converted(e)) == Converted(e) {
        var i :| 0 <= i < |es| && es[i] == e;
        assert ccs[i] == cs[i];
      }
    }
  }

  lemma {:induction false} LoneTypeSettles(e: Json)
    ensures Again(Converted(e)) == Converted(e) <==> EntriesSettle([e]) && !Unstable([e])
  {
    ConvertedShape(e);
    ConvertedShape(Converted(e));
    assert e in [e];
    if e.Arr? { AgainOnList(Converted(e)); }
  }

  lemma {:induction false} ManyTypesSettle(kept: seq<Json>)
    requires |kept| != 1 && NULL !in kept
    ensures Again(Converted(Arr(kept))) == Converted(Arr(kept)) <==> EntriesSettle(kept)
  {
    ConvertedShape(Arr(kept));
    AgainOnList(Converted(Arr(kept)));
    ListSettles(kept);
  }

  lemma {:induction false} KeptSettle(types: seq<Json>)
    ensures EntriesSettle(types) <==> EntriesSettle(Kept(types))
  {
  }

  lemma {:induction false} TypeSettles(types: seq<Json>)
    ensures var c := Collapsed(Kept(Converted(Arr(types)).elems));
            Again(c) == c <==> EntriesSettle(types) && !Unstable(Kept(types))
  {
    var kept := Kept(types);
    KeptConverted(types);
    KeptSettle(types);
    if |kept| == 1 {
      LoneTypeSettles(kept[0]);
      assert kept == [kept[0]];
    } else {
      ManyTypesSettle(kept);
    }
  }

  /** No object holds an unstable type list, leaving out what is overwritten. */
  predicate Settled(j: Json) {
    match j
    case Arr(es) => forall i :: 0 <= i < |es| ==> Settled(es[i])
    case Obj(m) =>
      && (forall k :: k in m && !(k == NULLABLE && SetsNullable(m)) ==> Settled(m[k]))
      && (Listed(m) ==> !Unstable(Kept(m[TYPE].elems)))
    case _ => true
  }

  /** Converting twice is converting once exactly when the document is settled; string type lists always are. */
  lemma {:induction false} IdempotentExact(j: Json)
    ensures Converted(Converted(j)) == Converted(j) <==> Settled(j)
  {
    match j
    case Arr(es) =>
      forall i | 0 <= i < |es| ensures Converted(Converted(es[i])) == Converted(es[i]) <==> Settled(es[i]) {
        IdempotentExact(es[i]);
      }
      ListSettles(es);
      assert forall e :: e in es ==> exists i :: 0 <= i < |es| && es[i] == e;
    case Obj(m) =>
      forall k | k in m ensures Converted(Converted(m[k])) == Converted(m[k]) <==> Settled(m[k]) {
        IdempotentExact(m[k]);
      }
      ObjectSettles(m);
    case _ =>
  }

  /** {"type": [["string"]]} becomes a type list first and a type only the second time. */
  lemma {:induction false} NestedListConvertsTwice()
    ensures var j := Obj(map[TYPE := Arr([Arr([Str("string")])])]); Converted(Converted(j)) != Converted(j)
  {
    var j := Obj(map[TYPE := Arr([Arr([Str("string")])])]);
    var types := [Arr([Str("string")])];
    assert types[..0] == [] && Kept(types) == types && Unstable(types);
    IdempotentExact(j);
  }

  /** What a second pass finds at a key of a converted object, when the first left no null in its type. */
  lemma {:induction false} SecondPassAt(m: map<string, Json>, k: string)
    requires k in Converted(Obj(m)).fields && !SetsNullable(Converted(Obj(m)).fields)
    ensures var r := Converted(Obj(m)).fields;
            && k in Converted(Obj(r)).fields
            && Converted(Obj(r)).fields[k] ==
               if k == TYPE && Listed(m) then Again(r[TYPE])
               else if k == NULLABLE && SetsNullable(m) then Bool(true)
               else Converted(Converted(m[k]))
  {
    if k in m {
      ConvertedShape(m[k]);
      ConvertedShape(Converted(m[k]));
    }
  }

  /** An object's field keeps its value in a second pass. */
  predicate FieldSettles(m: map<string, Json>, k: string)
    requires k in m
  {
    if k == TYPE && Listed(m) then EntriesSettle(m[TYPE].elems) && !Unstable(Kept(m[TYPE].elems))
    else (k == NULLABLE && SetsNullable(m)) || Converted(Converted(m[k])) == Converted(m[k])
  }

  lemma {:induction false} FieldSettlesExact(m: map<string, Json>, k: string)
    requires k in Converted(Obj(m)).fields && !SetsNullable(Converted(Obj(m)).fields)
    ensures var r := Converted(Obj(m)).fields;
            && k in Converted(Obj(r)).fields
            && (Converted(Obj(r)).fields[k] == r[k] <==> k !in m || FieldSettles(m, k))
  {
    SecondPassAt(m, k);
    if k == TYPE && Listed(m) { TypeSettles(m[TYPE].elems); }
    if k in m { ConvertedShape(m[k]); }
  }

  lemma {:induction false} NullLeftPasses(m: map<string, Json>)
    requires SetsNullable(Converted(Obj(m)).fields)
    ensures Converted(Converted(Obj(m))) != Converted(Obj(m)) && TYPE in m && !FieldSettles(m, TYPE)
  {
    var r := Converted(Obj(m)).fields;
    var rr := Converted(Obj(r)).fields;
    if !Listed(m) || Again(r[TYPE]) == r[TYPE] { TypeStaysWithoutNull(m); }
    assert rr[TYPE] == Again(r[TYPE]);
    TypeSettles(m[TYPE].elems);
  }

  lemma {:induction false} NoNullLeftPasses(m: map<string, Json>)
    requires !SetsNullable(Converted(Obj(m)).fields)
    ensures Converted(Converted(Obj(m))) == Converted(Obj(m)) <==> forall k :: k in m ==> FieldSettles(m, k)
  {
    var r := Converted(Obj(m)).fields;
    var rr := Converted(Obj(r)).fields;
    forall k | k in r ensures k in rr && (rr[k] == r[k] <==> k !in m || FieldSettles(m, k)) {
      FieldSettlesExact(m, k);
    }
    assert rr.Keys == r.Keys;
    if forall k :: k in m ==> FieldSettles(m, k) { assert rr == r; }
    if rr == r {
      forall k | k in m ensures FieldSettles(m, k) { assert k in r; }
    }
  }

  lemma {:induction false} ObjectPasses(m: map<string, Json>)
    ensures Converted(Converted(Obj(m))) == Converted(Obj(m)) <==> forall k :: k in m ==> FieldSettles(m, k)
  {
    if SetsNullable(Converted(Obj(m)).fields) { NullLeftPasses(m); } else { NoNullLeftPasses(m); }
  }

  lemma {:induction false} ObjectSettles(m: map<string, Json>)
    requires forall k :: k in m ==> (Converted(Converted(m[k])) == Converted(m[k]) <==> Settled(m[k]))
    ensures Converted(Converted(Obj(m))) == Converted(Obj(m)) <==> Settled(Obj(m))
  {
    ObjectPasses(m);
    if Listed(m) {
      TypeListSettles(m);
    }
    forall k | k in m && !(k == TYPE && Listed(m)) && !(k == NULLABLE && SetsNullable(m))
      ensures FieldSettles(m, k) <==> Settled(m[k])
    {
    }
  }

  /** The list itself is settled exactly when its entries are. */
  lemma {:induction false} TypeListSettles(m: map<string, Json>)
    requires Listed(m)
    ensures Converted(Converted(m[TYPE])) == Converted(m[TYPE]) <==> EntriesSettle(m[TYPE].elems)
  {
    ListSettles(m[TYPE].elems);
    assert m[TYPE] == Arr(m[TYPE].elems);
  }

  lemma {:induction false} TypeStaysWithoutNull(m: map<string, Json>)
    requires var r := Converted(Obj(m)).fields; Listed(m) ==> Again(r[TYPE]) == r[TYPE]
    ensures !SetsNullable(Converted(Obj(m)).fields)
  {
    var r := Converted(Obj(m)).fields;
    if TYPE in m { ConvertedShape(m[TYPE]); }
    if Listed(r) { AgainOnList(r[TYPE]); }
  }

  // ---------- data ----------

  /** Keys of a schema whose values are data and no schemas. */
  predicate HoldsData(key: string) {
    key in {"enum", "const", "default", "example"}
  }

  /** Every object with a type list has several entries in it, or none, and no "null". */
  predicate Unshortened(j: Json) {
    match j
    case Arr(es) => forall i :: 0 <= i < |es| ==> Unshortened(es[i])
    case Obj(m) =>
      && (forall k :: k in m ==> Unshortened(m[k]))
      && (Listed(m) ==> NULL !in m[TYPE].elems && |m[TYPE].elems| != 1)
    case _ => true
  }

  /** A value is left as it is exactly when no object in it has a type list that the rewrite shortens. */
  lemma {:induction false} UnchangedExact(j: Json)
    ensures Converted(j) == j <==> Unshortened(j)
  {
    match j
    case Arr(es) =>
      forall i | 0 <= i < |es| ensures Converted(es[i]) == es[i] <==> Unshortened(es[i]) { UnchangedExact(es[i]); }
      var cs := Converted(j).elems;
      if Unshortened(j) { assert cs == es; }
      if cs == es { forall i | 0 <= i < |es| ensures Unshortened(es[i]) { assert cs[i] == es[i]; } }
    case Obj(m) =>
      forall k | k in m ensures Converted(m[k]) == m[k] <==> Unshortened(m[k]) { UnchangedExact(m[k]); }
      ObjectUnchanged(m);
    case _ =>
  }

  lemma {:induction false} FieldUnchanged(m: map<string, Json>, k: string)
    requires k in m && !SetsNullable(m)
    ensures Converted(Obj(m)).fields[k] == m[k] <==>
            Converted(m[k]) == m[k] && (k == TYPE && Listed(m) ==> |m[TYPE].elems| != 1)
  {
    ConvertedShape(m[k]);
    if k == TYPE && Listed(m) { AgainOnList(m[TYPE]); }
  }

  lemma {:induction false} ObjectUnchanged(m: map<string, Json>)
    ensures Converted(Obj(m)) == Obj(m) <==>
            && (forall k :: k in m ==> Converted(m[k]) == m[k])
            && (Listed(m) ==> NULL !in m[TYPE].elems && |m[TYPE].elems| != 1)
  {
    var r := Converted(Obj(m)).fields;
    if SetsNullable(m) {
      ConvertedShape(m[TYPE]);
      AgainOnList(m[TYPE]);
      assert r[TYPE] == Again(m[TYPE]);
    } else {
      forall k | k in m
        ensures r[k] == m[k] <==>
                Converted(m[k]) == m[k] && (k == TYPE && Listed(m) ==> |m[TYPE].elems| != 1)
      {
        FieldUnchanged(m, k);
      }
      assert r == m <==> forall k :: k in m ==> r[k] == m[k];
    }
  }

  /** So the data of a schema survive the rewrite exactly when they hold no such object. */
  lemma {:induction false} DataKeptExact(m: map<string, Json>, key: string)
    requires key in m && HoldsData(key)
    ensures key in Converted(Obj(m)).fields
    ensures Converted(Obj(m)).fields[key] == m[key] <==> Unshortened(m[key])
  {
    assert key != TYPE && key != NULLABLE;
    UnchangedExact(m[key]);
  }

  lemma {:induction false} LoneTypeUnlisted(a: string)
    requires a != "null"
    ensures Converted(Obj(map[TYPE := Arr([Str(a)])])) == Obj(map[TYPE := Str(a)])
  {
    var m := map[TYPE := Arr([Str(a)])];
    StringsConvert(m[TYPE]);
    assert [Str(a)][..0] == [] && Kept([Str(a)]) == [Str(a)];
    assert Converted(Obj(m)).fields == map[TYPE := Str(a)];
  }

  lemma {:induction false} EnumConverts(values: seq<Json>)
    ensures Converted(Obj(map["enum" := Arr(values)])) == Obj(map["enum" := Converted(Arr(values))])
  {
    assert "enum"[0] != TYPE[0] && "enum"[0] != NULLABLE[0];
    var m := map["enum" := Arr(values)];
    assert Converted(Obj(m)).fields == map["enum" := Converted(Arr(values))];
  }

  /** {"enum": [{"type": ["a"]}]} comes to admit {"type": "a"} instead. */
  lemma {:induction false} EnumIsRewritten(a: string)
    requires a != "null"
    ensures Converted(Obj(map["enum" := Arr([Obj(map[TYPE := Arr([Str(a)])])])])) ==
            Obj(map["enum" := Arr([Obj(map[TYPE := Str(a)])])])
  {
    var value := Obj(map[TYPE := Arr([Str(a)])]);
    LoneTypeUnlisted(a);
    EnumConverts([value]);
    assert Converted(Arr([value])).elems == [Obj(map[TYPE := Str(a)])];
  }

  /** Every type list in the document holds only strings, as JSON Schema demands. */
  predicate StringTyped(j: Json) {
    match j
    case Arr(es) => forall i :: 0 <= i < |es| ==> StringTyped(es[i])
    case Obj(m) => (forall k :: k in m ==> StringTyped(m[k])) && (Listed(m) ==> StringList(m[TYPE]))
    case _ => true
  }

  lemma {:induction false} IdempotentOnSchemas(j: Json)
    requires StringTyped(j)
    ensures Converted(Converted(j)) == Converted(j)
  {
    StringTypedSettles(j);
    IdempotentExact(j);
  }

  lemma {:induction false} StringTypedSettles(j: Json)
    requires StringTyped(j)
    ensures Settled(j)
  {
    match j
    case Arr(es) => forall i | 0 <= i < |es| ensures Settled(es[i]) { StringTypedSettles(es[i]); }
    case Obj(m) =>
      forall k | k in m ensures Settled(m[k]) { StringTypedSettles(m[k]); }
      if Listed(m) && |Kept(m[TYPE].elems)| == 1 { assert Kept(m[TYPE].elems)[0] in m[TYPE].elems; }
    case _ =>
  }

  // ---------- the program ----------

  /** An object of the decoded document, whose fields are overwritten in place. */
  class JsonObject {
    var fields: map<string, Json>

    constructor (fields: map<string, Json>)
      ensures this.fields == fields
    {
      this.fields := fields;
    }

    /** The entries other than "null", in order, and whether there was one. */
    static method SplitTypes(types: seq<Json>) returns (kept: seq<Json>, nullable: bool)
      ensures kept == Kept(types) && (nullable <==> NULL in types)
    {
      kept, nullable := [], false;
      for i := 0 to |types|
        invariant kept == Kept(types[..i]) && (nullable <==> NULL in types[..i])
      {
        if types[i] == NULL { nullable := true; } else { kept := kept + [types[i]]; }
        assert types[..i + 1][..i] == types[..i] && types[..i + 1] == types[..i] + [types[i]];
      }
      assert types[..|types|] == types;
    }

    /** Overwrites `type` and `nullable`; reports the kept entries when they stay a list. */
    method RewriteType() returns (kept: seq<Json>)
      requires Listed(fields)
      modifies this
      ensures kept == Kept(old(fields)[TYPE].elems)
      ensures fields == Rewritten(old(fields), Collapsed(kept))
    {
      var nullable;
      kept, nullable := SplitTypes(fields[TYPE].elems);
      if |kept| == 1 {
        fields := fields[TYPE := kept[0]];
      } else {
        fields := fields[TYPE := Arr(kept)];
      }
      if nullable { fields := fields[NULLABLE := Bool(true)]; }
    }
  }

  lemma {:induction false} KeptAreSmaller(m: map<string, Json>)
    requires Listed(m)
    ensures forall i :: 0 <= i < |Kept(m[TYPE].elems)| ==> Kept(m[TYPE].elems)[i] < Obj(m)
  {
    var types := m[TYPE].elems;
    forall i | 0 <= i < |Kept(types)| ensures Kept(types)[i] < Obj(m) {
      assert Kept(types)[i] in types;
      var j :| 0 <= j < |types| && types[j] == Kept(types)[i];
      assert types[j] < m[TYPE];
    }
  }

  /** Rewriting first and recursing after gives the same fields. */
  lemma {:induction false} RewrittenFields(m: map<string, Json>)
    ensures var r := Converted(Obj(m)).fields;
            && (Listed(m) ==> r[TYPE] == Collapsed(Converted(Arr(Kept(m[TYPE].elems))).elems))
            && (SetsNullable(m) ==> r[NULLABLE] == Bool(true))
            && forall k :: k in m && !(k == TYPE && Listed(m)) && !(k == NULLABLE && SetsNullable(m)) ==>
                 r[k] == Converted(m[k])
  {
    if Listed(m) { KeptConverted(m[TYPE].elems); }
    forall k | k in m && !(k == TYPE && Listed(m)) && !(k == NULLABLE && SetsNullable(m))
      ensures Converted(Obj(m)).fields[k] == Converted(m[k])
    {
      ConvertedShape(m[k]);
    }
  }

  /** Fields that still hold their old values, and the rest converted already. */
  predicate PartDone(m: map<string, Json>, fields: map<string, Json>, todo: set<string>) {
    && todo <= m.Keys && fields.Keys == Keys(m)
    && (forall k :: k in todo ==> fields[k] == m[k] && Converted(Obj(m)).fields[k] == Converted(m[k]))
    && forall k :: k in fields && k !in todo ==> fields[k] == Converted(Obj(m)).fields[k]
  }

  /** The keys the recursion has yet to visit after a rewrite. */
  function Untouched(m: map<string, Json>): set<string> {
    m.Keys - {TYPE} - (if SetsNullable(m) then {NULLABLE} else {})
  }

  function Rewritten(m: map<string, Json>, value: Json): map<string, Json> {
    m[TYPE := value] + (if SetsNullable(m) then map[NULLABLE := Bool(true)] else map[])
  }

  lemma {:induction false} RewrittenAt(m: map<string, Json>, value: Json, k: string)
    ensures var fields := Rewritten(m, value);
            && (k in fields <==> k in Keys(m) || k == TYPE)
            && (k in Untouched(m) ==> k in fields && fields[k] == m[k])
            && (k in fields && k !in Untouched(m) ==>
                  fields[k] == if k == NULLABLE && SetsNullable(m) then Bool(true) else value)
  {
  }

  lemma {:induction false} RewriteDoesPart(m: map<string, Json>, children: seq<Json>)
    requires Listed(m) && children == Converted(Arr(Kept(m[TYPE].elems))).elems
    ensures PartDone(m, Rewritten(m, Collapsed(children)), Untouched(m))
  {
    RewrittenFields(m);
    forall k ensures k in Rewritten(m, Collapsed(children)) <==> k in Keys(m)
             ensures k in Untouched(m) ==> Rewritten(m, Collapsed(children))[k] == m[k]
             ensures k in Keys(m) && k !in Untouched(m) ==>
                       Rewritten(m, Collapsed(children))[k] == Converted(Obj(m)).fields[k]
    {
      RewrittenAt(m, Collapsed(children), k);
    }
  }

  lemma {:induction false} TypeReplaced(m: map<string, Json>, a: Json, b: Json)
    ensures Rewritten(m, a)[TYPE := b] == Rewritten(m, b)
  {
  }

  lemma {:induction false} NothingRewritten(m: map<string, Json>)
    requires !Listed(m)
    ensures PartDone(m, m, m.Keys)
  {
    RewrittenFields(m);
  }

  lemma {:induction false} PartGrows(m: map<string, Json>, fields: map<string, Json>, todo: set<string>, k: string)
    requires PartDone(m, fields, todo) && k in todo
    ensures PartDone(m, fields[k := Converted(m[k])], todo - {k})
  {
  }

  lemma {:induction false} AllDone(m: map<string, Json>, fields: map<string, Json>)
    requires PartDone(m, fields, {})
    ensures fields == Converted(Obj(m)).fields
  {
    var r := Converted(Obj(m)).fields;
    assert fields.Keys == r.Keys;
  }

  /** Every map and list of the document is visited once; objects are overwritten as they are met. */
  method Downconvert(v: Json) returns (r: Json)
    ensures r == Converted(v)
    decreases v, 3
  {
    match v
    case Obj(m) => r := DownconvertObject(m);
    case Arr(es) =>
      var cs := DownconvertAll(es, v);
      return Arr(cs);
    case _ => return v;
  }

  method DownconvertObject(m: map<string, Json>) returns (r: Json)
    ensures r == Converted(Obj(m))
    decreases Obj(m), 2
  {
    var o := new JsonObject(m);
    var todo := m.Keys;
    if Listed(m) {
      // The new type value is recursed into here: its entries are entries of the old list.
      KeptAreSmaller(m);
      var kept := o.RewriteType();
      var children := DownconvertAll(kept, Obj(m));
      TypeReplaced(m, Collapsed(kept), Collapsed(children));
      o.fields := o.fields[TYPE := Collapsed(children)];
      todo := Untouched(m);
      RewriteDoesPart(m, children);
    } else {
      NothingRewritten(m);
    }
    DownconvertFields(o, todo, m);
    return Obj(o.fields);
  }

  /** Recurses into the fields that the rewrite left alone, in any order. */
  method DownconvertFields(o: JsonObject, keys: set<string>, ghost m: map<string, Json>)
    requires PartDone(m, o.fields, keys)
    modifies o
    ensures o.fields == Converted(Obj(m)).fields
    decreases Obj(m), 1
  {
    var todo := keys;
    while todo != {}
      invariant PartDone(m, o.fields, todo)
    {
      var k :| k in todo;
      var child := Downconvert(o.fields[k]);
      PartGrows(m, o.fields, todo, k);
      o.fields := o.fields[k := child];
      todo := todo - {k};
    }
    AllDone(m, o.fields);
  }

  /** Downconverts every entry of a list; `v` is the value they came from. */
  method DownconvertAll(es: seq<Json>, ghost v: Json) returns (cs: seq<Json>)
    requires forall i :: 0 <= i < |es| ==> es[i] < v
    ensures cs == Converted(Arr(es)).elems
    decreases v, 0
  {
    cs := [];
    for i := 0 to |es|
      invariant cs == Converted(Arr(es)).elems[..i]
    {
      var c := Downconvert(es[i]);
      cs := cs + [c];
    }
  }
}
