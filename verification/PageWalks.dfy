/** Following nextCursor from page to page, whatever the cursors look like. */
module PageWalks {
  import opened Options
  import opened Utf8

  datatype Response<R> =
    | BadRequest
    | Page(data: seq<R>, hasMore: bool, next: Option<Bytes>, total: Option<nat>)

  /** What a client has when it stops: at the end, at a refused cursor, or because it made all its requests. */
  datatype Walked<R> = Done(rows: seq<R>) | Refused(rows: seq<R>) | Stopped(rows: seq<R>)

  function Prepended<R>(data: seq<R>, w: Walked<R>): Walked<R> {
    match w
    case Done(rows) => Done(data + rows)
    case Refused(rows) => Refused(data + rows)
    case Stopped(rows) => Stopped(data + rows)
  }

  function Walk<R>(respond: Bytes -> Response<R>, cursor: Bytes, requests: nat): Walked<R>
    decreases requests
  {
    if requests == 0 then Stopped([])
    else
      match respond(cursor)
      case BadRequest => Refused([])
      case Page(data, _, None, _) => Done(data)
      case Page(data, _, Some(next), _) => Prepended(data, Walk(respond, next, requests - 1))
  }

  /** The page of a list from a position on, and the cursor of the next one. */
  predicate RightPage<R(==)>(r: Response<R>, list: seq<R>, limit: nat, o: nat, at: nat -> Bytes)
    requires o <= |list|
  {
    r.Page? &&
    if |list| - o > limit
    then r.data == list[o..][..limit] && r.next == Some(at(o + limit))
    else r.data == list[o..] && r.next == None
  }

  /** A refusal, or a page that does not begin with the row that is next. */
  predicate Astray<R(==)>(r: Response<R>, list: seq<R>, o: nat)
    requires o < |list|
  {
    r.Page? ==> if r.data == [] then r.next == None else r.data[0] != list[o]
  }

  /** The cursor of each position leads to the right page where it fits and astray where it does not. */
  ghost predicate Pages<R>(
      respond: Bytes -> Response<R>, list: seq<R>, limit: nat, at: nat -> Bytes, fits: nat -> bool) {
    forall o: nat :: o == 0 || o < |list| ==> PageAt(respond, list, limit, at, fits, o)
  }

  ghost predicate PageAt<R>(
      respond: Bytes -> Response<R>, list: seq<R>, limit: nat, at: nat -> Bytes, fits: nat -> bool, o: nat)
    requires o <= |list|
  {
    if fits(o) then RightPage(respond(at(o)), list, limit, o, at)
    else o < |list| && Astray(respond(at(o)), list, o)
  }

  /** Every page start from a position on fits. */
  predicate StartsFit(fits: nat -> bool, n: nat, limit: nat, o: nat)
    requires limit >= 1 && o <= n
    decreases n - o
  {
    fits(o) && (n - o > limit ==> StartsFit(fits, n, limit, o + limit))
  }

  lemma {:induction false} PrependedExact<R>(data: seq<R>, w: Walked<R>, rest: seq<R>)
    ensures Prepended(data, w) == Done(data + rest) <==> w == Done(rest)
  {
    if Prepended(data, w) == Done(data + rest) {
      assert (data + w.rows)[|data|..] == w.rows && (data + rest)[|data|..] == rest;
    }
  }

  lemma {:induction false} AstrayLosesRows<R>(
      respond: Bytes -> Response<R>, cursor: Bytes, list: seq<R>, o: nat, requests: nat)
    requires o < |list| && Astray(respond(cursor), list, o)
    ensures Walk(respond, cursor, requests) != Done(list[o..])
  {
    if requests > 0 {
      match respond(cursor)
      case BadRequest =>
      case Page(data, _, None, _) => assert list[o..][0] == list[o];
      case Page(data, _, Some(next), _) =>
        var w := Walk(respond, next, requests - 1);
        assert (data + w.rows)[0] == data[0];
    }
  }

  /** Following the cursors gives the rest of the list, each row once and in order, exactly if every start fits. */
  lemma {:induction false} WalkExact<R>(
      respond: Bytes -> Response<R>, list: seq<R>, limit: nat, at: nat -> Bytes, fits: nat -> bool, o: nat,
      requests: nat)
    requires limit >= 1 && Pages(respond, list, limit, at, fits)
    requires (o == 0 || o < |list|) && requests > |list| - o
    ensures Walk(respond, at(o), requests) == Done(list[o..]) <==> StartsFit(fits, |list|, limit, o)
    decreases requests
  {
    assert PageAt(respond, list, limit, at, fits, o);
    if !fits(o) {
      AstrayLosesRows(respond, at(o), list, o, requests);
    } else if |list| - o > limit {
      var data := list[o..][..limit];
      WalkExact(respond, list, limit, at, fits, o + limit, requests - 1);
      assert list[o..] == data + list[o + limit..];
      PrependedExact(data, Walk(respond, at(o + limit), requests - 1), list[o + limit..]);
    }
  }
}
