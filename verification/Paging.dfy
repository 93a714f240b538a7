/** Walking a list page by page: what following nextCursor from the empty cursor returns, under both sorts. */
module Paging {
  import opened Options
  import opened Utf8
  import opened Cursors
  import opened PageWalks
  import JsonStrings

  /** `second` is an artifact's type, or a component's group with an absent one folded to the empty string. */
  datatype Row = Row(name: Bytes, second: Bytes, id: Bytes)

  /** The matching rows in both orders. `typed` marks the artifact list, whose second column may go missing in SQL. */
  datatype Table = Table(rows: seq<Row>, bySeverity: seq<Row>, typed: bool)

  datatype Collation = Collation(text: (Bytes, Bytes) -> bool, id: (Bytes, Bytes) -> bool)

  datatype Request = Request(limit: nat, sortSeverity: bool, hasCursor: bool, after: Row, offset: nat)

  // ---------- the service ----------

  /** The empty string becomes NULL on its way into the query. */
  function TextOrNull(s: Bytes): Option<Bytes> {
    if s == [] then None else Some(s)
  }

  /** Whether (name, second, id) > the cursor is true in SQL: the first pair that differs or has a NULL decides. */
  predicate GreaterThan(c: Collation, row: Row, name: Option<Bytes>, second: Option<Bytes>, id: Bytes) {
    name.Some? &&
    if row.name != name.value then c.text(name.value, row.name)
    else second.Some? && if row.second != second.value then c.text(second.value, row.second) else c.id(id, row.id)
  }

  predicate After(t: Table, c: Collation, row: Row, cursor: Row) {
    GreaterThan(c, row, TextOrNull(cursor.name), if t.typed then TextOrNull(cursor.second) else Some(cursor.second),
                cursor.id)
  }

  /** The WHERE clause: the rows after the cursor, if there is one. */
  function Matching(t: Table, c: Collation, list: seq<Row>, request: Request): seq<Row> {
    if !request.hasCursor then list
    else if list == [] then []
    else (if After(t, c, list[0], request.after) then [list[0]] else []) + Matching(t, c, list[1..], request)
  }

  function Limited(list: seq<Row>, n: nat): seq<Row> {
    if |list| <= n then list else list[..n]
  }

  /** One row more than the limit is asked for, to see whether there are more. */
  function Serve(t: Table, c: Collation, request: Request): (seq<Row>, bool) {
    var all := Matching(t, c, if request.sortSeverity then t.bySeverity else t.rows, request);
    var fetched := Limited(if request.offset <= |all| then all[request.offset..] else [], request.limit + 1);
    if |fetched| > request.limit then (fetched[..request.limit], true) else (fetched, false)
  }

  // ---------- the handler ----------

  function CursorOf(row: Row): Bytes {
    EncodeCursor([row.name, row.second, row.id])
  }

  /** The cursor past the last item, if more exists. */
  function NextKey(data: seq<Row>, hasMore: bool): Option<Bytes> {
    if hasMore && data != [] then Some(CursorOf(data[|data| - 1])) else None
  }

  function NextOffset(data: seq<Row>, hasMore: bool, offset: nat): Option<Bytes> {
    if hasMore then Some(EncodeCursor([Itoa(offset + |data|)])) else None
  }

  const NO_ROW := Row([], [], [])

  /** The request a cursor asks for, or None if it is refused. */
  function RequestOf(sortSeverity: bool, limit: nat, cursor: Bytes): Option<Request> {
    match DecodeCursor(cursor, if sortSeverity then 1 else 3)
    case Invalid => None
    case NoCursor => Some(Request(limit, sortSeverity, false, NO_ROW, 0))
    case Parts(parts) =>
      if sortSeverity then
        match ParseInt32(parts[0])
        case Some(offset) => if offset < 0 then None else Some(Request(limit, true, false, NO_ROW, offset))
        case None => None
      else Some(Request(limit, false, true, Row(parts[0], parts[1], parts[2]), 0))
  }

  function Answer(t: Table, c: Collation, request: Request, first: bool): Response<Row> {
    var (data, hasMore) := Serve(t, c, request);
    Page(data, hasMore,
         if request.sortSeverity then NextOffset(data, hasMore, request.offset) else NextKey(data, hasMore),
         if t.typed && first then Some(|t.rows|) else None)
  }

  function Respond(t: Table, c: Collation, sortSeverity: bool, limit: nat, cursor: Bytes): Response<Row> {
    match RequestOf(sortSeverity, limit, cursor)
    case None => BadRequest
    case Some(request) => Answer(t, c, request, cursor == [])
  }

  lemma {:induction false} RespondsTo(
      t: Table, c: Collation, sortSeverity: bool, limit: nat, cursor: Bytes, request: Request)
    requires RequestOf(sortSeverity, limit, cursor) == Some(request)
    ensures Respond(t, c, sortSeverity, limit, cursor) == Answer(t, c, request, cursor == [])
  {
  }

  /** The first half of both handlers: the page that the cursor asks for, or None for a bad request. */
  method ReadCursor(sortSeverity: bool, limit: nat, cursor: Bytes) returns (request: Option<Request>, hasCursor: bool)
    ensures request == RequestOf(sortSeverity, limit, cursor)
    ensures request.Some? ==> (hasCursor <==> cursor != [])
  {
    var arity := 3;
    if sortSeverity { arity := 1; }
    var decoded := DecodeCursor(cursor, arity);
    if decoded.Invalid? { return None, false; }
    hasCursor := decoded.Parts?;
    var page := Request(limit, sortSeverity, hasCursor && !sortSeverity, NO_ROW, 0);
    if sortSeverity && hasCursor {
      var parsed := ParseInt32(decoded.parts[0]);
      if parsed.None? || parsed.value < 0 { return None, hasCursor; }
      page := page.(offset := parsed.value);
    } else if hasCursor {
      page := page.(after := Row(decoded.parts[0], decoded.parts[1], decoded.parts[2]));
    }
    return Some(page), hasCursor;
  }

  /** The second half: the page itself, and the cursor of the next one. */
  method WritePage(t: Table, c: Collation, page: Request, hasCursor: bool) returns (out: Response<Row>)
    ensures out == Answer(t, c, page, !hasCursor)
  {
    var (data, hasMore) := Serve(t, c, page);
    var total := None;
    if t.typed && !hasCursor { total := Some(|t.rows|); }
    if page.sortSeverity {
      var next := page.offset + |data|;
      var nextCursor := None;
      if hasMore { nextCursor := Some(EncodeCursor([Itoa(next)])); }
      return Page(data, hasMore, nextCursor, total);
    }
    return Page(data, hasMore, NextKey(data, hasMore), total);
  }

  /** The handlers of both lists, branch by branch; only the artifact list counts its rows. */
  method List(t: Table, c: Collation, sortSeverity: bool, limit: nat, cursor: Bytes) returns (out: Response<Row>)
    ensures out == Respond(t, c, sortSeverity, limit, cursor)
  {
    var request, hasCursor := ReadCursor(sortSeverity, limit, cursor);
    if request.None? { return BadRequest; }
    out := WritePage(t, c, request.value, hasCursor);
  }

  function Handler(t: Table, c: Collation, sortSeverity: bool, limit: nat): Bytes -> Response<Row> {
    (cursor: Bytes) => Respond(t, c, sortSeverity, limit, cursor)
  }

  /** Only the artifact list counts its rows, and only where no cursor was given; no page is longer than asked for. */
  lemma {:induction false} TotalExact(t: Table, c: Collation, sortSeverity: bool, limit: nat, cursor: Bytes)
    requires Respond(t, c, sortSeverity, limit, cursor).Page?
    ensures var r := Respond(t, c, sortSeverity, limit, cursor);
            && r.total == (if t.typed && cursor == [] then Some(|t.rows|) else None)
            && |r.data| <= limit && (r.next.Some? ==> r.hasMore) && (r.hasMore ==> |r.data| == limit)
  {
  }

  // ---------- paging by offset ----------

  /** The largest page start that a cursor can carry. */
  function LastStart(limit: nat): nat
    requires limit >= 1
  {
    MAX_INT32 / limit * limit
  }

  lemma {:induction false} MultiplesInOrder(a: nat, b: nat, limit: nat)
    requires a <= b
    ensures a * limit <= b * limit
    ensures (a + 1) * limit == a * limit + limit
  {
    assert b * limit == a * limit + (b - a) * limit;
  }

  /** Page starts are multiples of the limit, so the first one too large follows the last one that fits. */
  lemma {:induction false} LastStartExact(limit: nat, k: nat, offset: nat)
    requires limit >= 1 && offset == k * limit && offset <= MAX_INT32
    ensures offset <= LastStart(limit) <= MAX_INT32
    ensures offset + limit > MAX_INT32 ==> offset == LastStart(limit)
  {
    var q := MAX_INT32 / limit;
    MultiplesInOrder(q, q, limit);
    assert q * limit <= MAX_INT32 < q * limit + limit;
    if k <= q {
      MultiplesInOrder(k, q, limit);
      if k < q { MultiplesInOrder(k + 1, q, limit); MultiplesInOrder(k, k, limit); }
    } else {
      MultiplesInOrder(q + 1, k, limit);
    }
  }

  lemma {:induction false} OffsetRequest(limit: nat, offset: nat)
    ensures RequestOf(true, limit, EncodeCursor([Itoa(offset)]))
         == if offset > MAX_INT32 then None else Some(Request(limit, true, false, NO_ROW, offset))
    ensures EncodeCursor([Itoa(offset)]) != []
  {
    OffsetRoundTripExact(offset);
    DecodeOfEncode([Itoa(offset)], 1);
  }

  lemma {:induction false} ServeByOffset(t: Table, c: Collation, limit: nat, offset: nat)
    requires offset <= |t.bySeverity|
    ensures Serve(t, c, Request(limit, true, false, NO_ROW, offset))
         == var left := t.bySeverity[offset..]; if |left| > limit then (left[..limit], true) else (left, false)
  {
    var left := t.bySeverity[offset..];
    if |left| > limit + 1 { assert left[..limit + 1][..limit] == left[..limit]; }
  }

  function OffsetCursor(o: nat): Bytes {
    if o == 0 then [] else EncodeCursor([Itoa(o)])
  }

  function OffsetCursors(): nat -> Bytes {
    (o: nat) => OffsetCursor(o)
  }

  function CanCarry(): nat -> bool {
    (o: nat) => o <= MAX_INT32
  }

  /** The rest of the list from an offset, as far as the limit goes. */
  predicate ShowsFrom(r: Response<Row>, left: seq<Row>, limit: nat, o: nat)
  {
    r.Page? &&
    if |left| > limit then r.data == left[..limit] && r.next == Some(EncodeCursor([Itoa(o + limit)]))
    else r.data == left && r.next == None
  }

  lemma {:induction false} OffsetAnswer(t: Table, c: Collation, limit: nat, o: nat, first: bool)
    requires o <= |t.bySeverity|
    ensures ShowsFrom(Answer(t, c, Request(limit, true, false, NO_ROW, o), first), t.bySeverity[o..], limit, o)
  {
    ServeByOffset(t, c, limit, o);
  }

  lemma {:induction false} OffsetResponds(t: Table, c: Collation, limit: nat, o: nat)
    requires o == 0 || o < |t.bySeverity|
    ensures var r := Respond(t, c, true, limit, OffsetCursor(o));
            if o > MAX_INT32 then r == BadRequest else ShowsFrom(r, t.bySeverity[o..], limit, o)
  {
    var request := Request(limit, true, false, NO_ROW, o);
    OffsetAnswer(t, c, limit, o, o == 0);
    if o > 0 { OffsetRequest(limit, o); }
    if o <= MAX_INT32 { RespondsTo(t, c, true, limit, OffsetCursor(o), request); }
  }

  lemma {:induction false} OffsetPageIs(t: Table, limit: nat, o: nat, r: Response<Row>)
    requires limit >= 1 && (o == 0 || o < |t.bySeverity|) && ShowsFrom(r, t.bySeverity[o..], limit, o)
    ensures RightPage(r, t.bySeverity, limit, o, OffsetCursors())
  {
  }

  /** A page by offset is the right one, unless its offset is too large for the cursor. */
  lemma {:induction false} OffsetPage(t: Table, c: Collation, limit: nat, o: nat)
    requires limit >= 1 && (o == 0 || o < |t.bySeverity|)
    ensures PageAt(Handler(t, c, true, limit), t.bySeverity, limit, OffsetCursors(), CanCarry(), o)
  {
    OffsetResponds(t, c, limit, o);
    if o <= MAX_INT32 { OffsetPageIs(t, limit, o, Respond(t, c, true, limit, OffsetCursor(o))); }
  }

  lemma {:induction false} SeverityPages(t: Table, c: Collation, limit: nat)
    requires limit >= 1
    ensures Pages(Handler(t, c, true, limit), t.bySeverity, limit, OffsetCursors(), CanCarry())
  {
    forall o: nat | o == 0 || o < |t.bySeverity|
      ensures PageAt(Handler(t, c, true, limit), t.bySeverity, limit, OffsetCursors(), CanCarry(), o)
    {
      OffsetPage(t, c, limit, o);
    }
  }

  lemma {:induction false} LastStartIsLarge(limit: nat)
    requires limit >= 1
    ensures MAX_INT32 < LastStart(limit) + limit
  {
    MultiplesInOrder(MAX_INT32 / limit, MAX_INT32 / limit, limit);
  }

  lemma {:induction false} StartsCarryExact(n: nat, limit: nat, k: nat, offset: nat)
    requires limit >= 1 && offset == k * limit && offset <= n && offset <= MAX_INT32
    ensures StartsFit(CanCarry(), n, limit, offset) <==> n <= LastStart(limit) + limit
    decreases n - offset
  {
    LastStartExact(limit, k, offset);
    if n - offset > limit && offset + limit <= MAX_INT32 {
      MultiplesInOrder(k, k, limit);
      StartsCarryExact(n, limit, k + 1, offset + limit);
    }
  }

  /**
   * By severity, following the cursors returns every row once and in order exactly when the last page starts no later
   * than an offset can say; up to 2^31 - 1 rows it always does.
   */
  lemma {:induction false} SeverityWalkExact(t: Table, c: Collation, limit: nat, requests: nat)
    requires limit >= 1 && requests > |t.bySeverity|
    ensures Walk(Handler(t, c, true, limit), [], requests) == Done(t.bySeverity)
       <==> |t.bySeverity| <= LastStart(limit) + limit
    ensures MAX_INT32 < LastStart(limit) + limit
  {
    SeverityPages(t, c, limit);
    WalkExact(Handler(t, c, true, limit), t.bySeverity, limit, OffsetCursors(), CanCarry(), 0, requests);
    assert OffsetCursors()(0) == [];
    StartsCarryExact(|t.bySeverity|, limit, 0, 0);
    LastStartIsLarge(limit);
    assert t.bySeverity[0..] == t.bySeverity;
  }

  // ---------- paging by key ----------

  ghost predicate StrictOrder(less: (Bytes, Bytes) -> bool) {
    && (forall a :: !less(a, a))
    && (forall a, b, d :: less(a, b) && less(b, d) ==> less(a, d))
    && (forall a, b :: a != b ==> less(a, b) || less(b, a))
  }

  predicate Before(c: Collation, a: Row, b: Row) {
    if a.name != b.name then c.text(a.name, b.name)
    else if a.second != b.second then c.text(a.second, b.second)
    else c.id(a.id, b.id)
  }

  predicate InOrder(c: Collation, rows: seq<Row>) {
    forall i, j :: 0 <= i < j < |rows| ==> Before(c, rows[i], rows[j])
  }

  predicate IsText(row: Row) {
    JsonStrings.AllValid([row.name, row.second, row.id])
  }

  /** What the query loses to a NULL in its cursor. */
  predicate Lost(t: Table, row: Row, cursor: Row) {
    cursor.name == [] || (t.typed && cursor.second == [] && row.name == cursor.name)
  }

  /** Past a cursor are the rows that come after it, less the ones a NULL loses. */
  lemma {:induction false} AfterExact(t: Table, c: Collation, row: Row, cursor: Row)
    ensures After(t, c, row, cursor) <==> Before(c, cursor, row) && !Lost(t, row, cursor)
  {
    assert cursor.name != [] ==> TextOrNull(cursor.name) == Some(cursor.name);
  }

  /** Nothing is lost at this page start: the row before it has a name, and a type unless the name changes here. */
  predicate NothingLost(t: Table, o: nat) {
    0 < o < |t.rows| ==> !Lost(t, t.rows[o], t.rows[o - 1])
  }

  function NothingLostAt(t: Table): nat -> bool {
    (o: nat) => NothingLost(t, o)
  }

  function KeyCursors(t: Table): nat -> Bytes {
    (o: nat) => if 0 < o <= |t.rows| then CursorOf(t.rows[o - 1]) else []
  }

  lemma {:induction false} AfterIsLater(t: Table, c: Collation, o: nat, j: nat)
    requires StrictOrder(c.text) && StrictOrder(c.id) && InOrder(c, t.rows)
    requires 0 < o < |t.rows| && j < |t.rows| && NothingLost(t, o)
    ensures After(t, c, t.rows[j], t.rows[o - 1]) <==> j >= o
  {
    var cursor := t.rows[o - 1];
    AfterExact(t, c, t.rows[j], cursor);
    if j > o {
      assert Before(c, cursor, t.rows[o]) && Before(c, t.rows[o], t.rows[j]);
    }
  }

  lemma {:induction false} MatchingSuffix(t: Table, c: Collation, list: seq<Row>, request: Request, o: nat)
    requires request.hasCursor && o <= |list|
    requires forall j :: 0 <= j < |list| ==> (After(t, c, list[j], request.after) <==> j >= o)
    ensures Matching(t, c, list, request) == list[o..]
  {
    if list != [] {
      var next := if o == 0 then 0 else o - 1;
      forall j | 0 <= j < |list| - 1 ensures After(t, c, list[1..][j], request.after) <==> j >= next {
        assert list[1..][j] == list[j + 1];
      }
      MatchingSuffix(t, c, list[1..], request, next);
      assert list == [list[0]] + list[1..];
    }
  }

  lemma {:induction false} MatchingOnly(t: Table, c: Collation, list: seq<Row>, request: Request)
    requires request.hasCursor
    ensures forall row :: row in Matching(t, c, list, request) ==> After(t, c, row, request.after)
  {
    if list != [] { MatchingOnly(t, c, list[1..], request); }
  }

  lemma {:induction false} KeyRequest(limit: nat, row: Row)
    requires IsText(row)
    ensures RequestOf(false, limit, CursorOf(row)) == Some(Request(limit, false, true, row, 0))
  {
    DecodeOfEncode([row.name, row.second, row.id], 3);
    RoundTripExact([row.name, row.second, row.id]);
  }

  lemma {:induction false} ServeByKey(t: Table, c: Collation, limit: nat, request: Request)
    requires !request.sortSeverity && request.offset == 0 && request.limit == limit
    ensures var all := Matching(t, c, t.rows, request);
            Serve(t, c, request) == if |all| > limit then (all[..limit], true) else (all, false)
  {
    var all := Matching(t, c, t.rows, request);
    assert all[0..] == all;
    if |all| > limit + 1 { assert all[..limit + 1][..limit] == all[..limit]; }
  }

  /** The first `limit` of the rows to show, and a cursor past the last of them if there are more. */
  predicate ShowsFirst(r: Response<Row>, all: seq<Row>, limit: nat)
    requires limit >= 1
  {
    r.Page? &&
    if |all| > limit then r.data == all[..limit] && r.next == Some(CursorOf(all[limit - 1]))
    else r.data == all && r.next == None
  }

  lemma {:induction false} KeyAnswer(t: Table, c: Collation, limit: nat, request: Request, first: bool)
    requires limit >= 1 && !request.sortSeverity && request.offset == 0 && request.limit == limit
    ensures ShowsFirst(Answer(t, c, request, first), Matching(t, c, t.rows, request), limit)
  {
    ServeByKey(t, c, limit, request);
  }

  lemma {:induction false} KeyResponds(t: Table, c: Collation, limit: nat, cursor: Row)
    requires limit >= 1 && IsText(cursor)
    ensures ShowsFirst(Respond(t, c, false, limit, CursorOf(cursor)),
                       Matching(t, c, t.rows, Request(limit, false, true, cursor, 0)), limit)
  {
    var request := Request(limit, false, true, cursor, 0);
    KeyRequest(limit, cursor);
    RespondsTo(t, c, false, limit, CursorOf(cursor), request);
    KeyAnswer(t, c, limit, request, CursorOf(cursor) == []);
  }

  lemma {:induction false} FirstResponds(t: Table, c: Collation, limit: nat)
    requires limit >= 1
    ensures ShowsFirst(Respond(t, c, false, limit, []), t.rows, limit)
  {
    var request := Request(limit, false, false, NO_ROW, 0);
    RespondsTo(t, c, false, limit, [], request);
    KeyAnswer(t, c, limit, request, true);
  }

  lemma {:induction false} MatchingFrom(t: Table, c: Collation, limit: nat, o: nat)
    requires StrictOrder(c.text) && StrictOrder(c.id) && InOrder(c, t.rows) && 0 < o < |t.rows|
    ensures var all := Matching(t, c, t.rows, Request(limit, false, true, t.rows[o - 1], 0));
            if NothingLost(t, o) then all == t.rows[o..] else t.rows[o] !in all
  {
    var cursor := t.rows[o - 1];
    var request := Request(limit, false, true, cursor, 0);
    if NothingLost(t, o) {
      forall j | 0 <= j < |t.rows| ensures After(t, c, t.rows[j], cursor) <==> j >= o { AfterIsLater(t, c, o, j); }
      MatchingSuffix(t, c, t.rows, request, o);
    } else {
      MatchingOnly(t, c, t.rows, request);
      AfterExact(t, c, t.rows[o], cursor);
    }
  }

  lemma {:induction false} ShownFrom(t: Table, r: Response<Row>, limit: nat, o: nat)
    requires limit >= 1 && o <= |t.rows| && ShowsFirst(r, t.rows[o..], limit)
    ensures RightPage(r, t.rows, limit, o, KeyCursors(t))
  {
    if |t.rows| - o > limit {
      assert t.rows[o..][limit - 1] == t.rows[o + limit - 1];
    }
  }

  lemma {:induction false} KeyPageIs(t: Table, c: Collation, limit: nat, o: nat, r: Response<Row>)
    requires StrictOrder(c.text) && StrictOrder(c.id) && InOrder(c, t.rows)
    requires limit >= 1 && 0 < o < |t.rows|
    requires ShowsFirst(r, Matching(t, c, t.rows, Request(limit, false, true, t.rows[o - 1], 0)), limit)
    ensures if NothingLost(t, o) then RightPage(r, t.rows, limit, o, KeyCursors(t)) else Astray(r, t.rows, o)
  {
    var all := Matching(t, c, t.rows, Request(limit, false, true, t.rows[o - 1], 0));
    MatchingFrom(t, c, limit, o);
    if NothingLost(t, o) {
      ShownFrom(t, r, limit, o);
    } else {
      assert all != [] ==> all[0] in all;
    }
  }

  lemma {:induction false} FirstKeyPage(t: Table, c: Collation, limit: nat)
    requires limit >= 1
    ensures PageAt(Handler(t, c, false, limit), t.rows, limit, KeyCursors(t), NothingLostAt(t), 0)
  {
    FirstResponds(t, c, limit);
    assert t.rows[0..] == t.rows;
    ShownFrom(t, Respond(t, c, false, limit, []), limit, 0);
  }

  /** A page by key is the right one, unless a NULL loses the row it should start with. */
  lemma {:induction false} KeyPage(t: Table, c: Collation, limit: nat, o: nat)
    requires StrictOrder(c.text) && StrictOrder(c.id) && InOrder(c, t.rows)
    requires forall row :: row in t.rows ==> IsText(row)
    requires limit >= 1 && (o == 0 || o < |t.rows|)
    ensures PageAt(Handler(t, c, false, limit), t.rows, limit, KeyCursors(t), NothingLostAt(t), o)
  {
    if o == 0 { FirstKeyPage(t, c, limit); } else { LaterKeyPage(t, c, limit, o); }
  }

  lemma {:induction false} LaterKeyPage(t: Table, c: Collation, limit: nat, o: nat)
    requires StrictOrder(c.text) && StrictOrder(c.id) && InOrder(c, t.rows)
    requires limit >= 1 && 0 < o < |t.rows| && IsText(t.rows[o - 1])
    ensures PageAt(Handler(t, c, false, limit), t.rows, limit, KeyCursors(t), NothingLostAt(t), o)
  {
    KeyResponds(t, c, limit, t.rows[o - 1]);
    KeyPageIs(t, c, limit, o, Respond(t, c, false, limit, CursorOf(t.rows[o - 1])));
  }

  /**
   * By key, following the cursors returns every row once and in order exactly when no page ends in a row whose empty
   * name, or whose empty type before a row of the same name, turns into a NULL in the next query.
   */
  lemma {:induction false} KeyWalkExact(t: Table, c: Collation, limit: nat, requests: nat)
    requires StrictOrder(c.text) && StrictOrder(c.id) && InOrder(c, t.rows)
    requires forall row :: row in t.rows ==> IsText(row)
    requires limit >= 1 && requests > |t.rows|
    ensures Walk(Handler(t, c, false, limit), [], requests) == Done(t.rows)
       <==> StartsFit(NothingLostAt(t), |t.rows|, limit, 0)
  {
    forall o: nat | o == 0 || o < |t.rows|
      ensures PageAt(Handler(t, c, false, limit), t.rows, limit, KeyCursors(t), NothingLostAt(t), o)
    {
      KeyPage(t, c, limit, o);
    }
    WalkExact(Handler(t, c, false, limit), t.rows, limit, KeyCursors(t), NothingLostAt(t), 0, requests);
    assert t.rows[0..] == t.rows;
  }

  /** Two rows, the first without a name, one to a page: the second never comes up. */
  lemma {:induction false} EmptyNameLosesRow(t: Table, c: Collation, a: Row, b: Row, requests: nat)
    requires StrictOrder(c.text) && StrictOrder(c.id) && Before(c, a, b) && IsText(a) && IsText(b)
    requires t.rows == [a, b] && a.name == [] && requests > 2
    ensures Walk(Handler(t, c, false, 1), [], requests) != Done(t.rows)
  {
    KeyWalkExact(t, c, 1, requests);
    assert !NothingLost(t, 1) && !StartsFit(NothingLostAt(t), 2, 1, 1);
  }

  lemma {:induction false} NamedStartsFit(t: Table, limit: nat, o: nat)
    requires limit >= 1 && o <= |t.rows|
    requires forall row :: row in t.rows ==> row.name != [] && (t.typed ==> row.second != [])
    ensures StartsFit(NothingLostAt(t), |t.rows|, limit, o)
    decreases |t.rows| - o
  {
    if 0 < o < |t.rows| { assert t.rows[o - 1] in t.rows; }
    if |t.rows| - o > limit { NamedStartsFit(t, limit, o + limit); }
  }

  /** Rows with a name, and artifacts with a type, are all paged through, whatever the limit. */
  lemma {:induction false} NamedRowsAllComeUp(t: Table, c: Collation, limit: nat, requests: nat)
    requires StrictOrder(c.text) && StrictOrder(c.id) && InOrder(c, t.rows)
    requires forall row :: row in t.rows ==> IsText(row)
    requires forall row :: row in t.rows ==> row.name != [] && (t.typed ==> row.second != [])
    requires limit >= 1 && requests > |t.rows|
    ensures Walk(Handler(t, c, false, limit), [], requests) == Done(t.rows)
  {
    KeyWalkExact(t, c, limit, requests);
    NamedStartsFit(t, limit, 0);
  }

  /** A cursor made under one sort is refused under the other. */
  lemma {:induction false} OtherSortRefuses(t: Table, c: Collation, limit: nat, row: Row, offset: nat)
    ensures Respond(t, c, true, limit, CursorOf(row)) == BadRequest
    ensures Respond(t, c, false, limit, EncodeCursor([Itoa(offset)])) == BadRequest
  {
    DecodeOfEncode([row.name, row.second, row.id], 1);
    DecodeOfEncode([Itoa(offset)], 3);
  }
}
