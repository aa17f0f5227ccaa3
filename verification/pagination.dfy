/**
 The cursor-following fetch loop, with the remote query abstracted into the finite
 sequence of results the feed returns, one per request, in request order.

 Each request carries the current cursor (none on the first). A failed request
 ends the loop and keeps what was fetched before it. A page's edges are appended;
 a page without a next page ends the loop; otherwise a non-empty page moves the
 cursor to its last edge's cursor, and an empty one leaves it where it was.
 */
module Pagination {
  import opened Wrappers
  import opened Events

  datatype Page = Page(edges: seq<Edge>, hasNextPage: bool)

  /** The result of one request. */
  datatype Response = Failed | Fetched(page: Page)

  /** Why the loop stopped: a page without a next page, a failed request, or, because the
      responses are finite, the modelled responses ran out while more pages were promised. */
  datatype Stop = Finished | QueryError | OutOfResponses

  /** The accumulated edges, the cursor each request was sent with, and why the loop stopped. */
  datatype Harvest = Harvest(edges: seq<Edge>, cursors: seq<Option<string>>, stop: Stop)

  /** The response continues the loop: a page that promises a next page. */
  predicate Continues(r: Response) {
    r.Fetched? && r.page.hasNextPage
  }

  /** The cursor for the request after a page that continues the loop. */
  function NextCursor(cursor: Option<string>, p: Page): Option<string> {
    if |p.edges| > 0 then Some(p.edges[|p.edges| - 1].cursor) else cursor
  }

  /** Concatenation of the pages of the fetched responses, in order. */
  function Concat(rs: seq<Response>): seq<Edge> {
    if |rs| == 0 then []
    else (if rs[0].Fetched? then rs[0].page.edges else []) + Concat(rs[1..])
  }

  /** The fetch loop, started with `cursor` on the responses `rs`. */
  function Paginate(rs: seq<Response>, cursor: Option<string>): (h: Harvest)
    ensures 1 <= |h.cursors| <= |rs| || (|rs| == 0 && h.cursors == [])
    ensures |h.cursors| > 0 ==> h.cursors[0] == cursor
    // every request but the last got a page that promised more
    ensures forall i :: 0 <= i < |h.cursors| - 1 ==> Continues(rs[i])
    // the loop stops exactly at the first response that does not continue it
    ensures h.stop == Finished <==> |h.cursors| > 0 && rs[|h.cursors| - 1].Fetched? && !Continues(rs[|h.cursors| - 1])
    ensures h.stop == QueryError <==> |h.cursors| > 0 && rs[|h.cursors| - 1].Failed?
    ensures h.stop == OutOfResponses <==> |h.cursors| == |rs| && forall i :: 0 <= i < |rs| ==> Continues(rs[i])
    // the edges are the pages fetched before the stop, in order
    ensures h.edges == Concat(rs[..|h.cursors|])
    // each cursor is derived from the page before it
    ensures forall i :: 0 <= i < |h.cursors| - 1 ==>
              rs[i].Fetched? && h.cursors[i + 1] == NextCursor(h.cursors[i], rs[i].page)
  {
    if |rs| == 0 then Harvest([], [], OutOfResponses)
    else
      match rs[0]
      case Failed =>
        assert rs[..1] == [rs[0]];
        Harvest([], [cursor], QueryError)
      case Fetched(p) =>
        if !p.hasNextPage then
          assert rs[..1] == [rs[0]];
          Harvest(p.edges, [cursor], Finished)
        else
          var rest := Paginate(rs[1..], NextCursor(cursor, p));
          var h := Harvest(p.edges + rest.edges, [cursor] + rest.cursors, rest.stop);
          assert rs[..|h.cursors|] == [rs[0]] + rs[1..][..|rest.cursors|];
          h
  }

  /** Responses after the one that stopped the loop are never requested: extending the feed
      beyond it changes nothing. */
  lemma {:induction false} PaginateIgnoresLaterResponses(rs: seq<Response>, more: seq<Response>, cursor: Option<string>)
    requires Paginate(rs, cursor).stop != OutOfResponses
    ensures Paginate(rs + more, cursor) == Paginate(rs, cursor)
  {
    assert (rs + more)[0] == rs[0];
    if Continues(rs[0]) {
      assert (rs + more)[1..] == rs[1..] + more;
      PaginateIgnoresLaterResponses(rs[1..], more, NextCursor(cursor, rs[0].page));
    }
  }

  /** A feed that keeps answering with empty pages that promise more never moves the cursor:
      every request repeats the first one, and the loop only stops because the modelled
      responses run out. */
  lemma {:induction false} EmptyPagesStall(rs: seq<Response>, cursor: Option<string>)
    requires forall i :: 0 <= i < |rs| ==> rs[i] == Fetched(Page([], true))
    ensures Paginate(rs, cursor).stop == OutOfResponses
    ensures Paginate(rs, cursor).edges == []
    ensures forall i :: 0 <= i < |Paginate(rs, cursor).cursors| ==> Paginate(rs, cursor).cursors[i] == cursor
  {
    if |rs| > 0 {
      EmptyPagesStall(rs[1..], cursor);
    }
  }
}
