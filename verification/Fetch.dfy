/** Paginated reading of one endpoint (internal/collect/engine.go, fetchItems). The server
    is a function from a request to a reply; it may refuse any of them. */
module Fetch {
  import opened Wrappers
  import opened Json
  import opened CollectionState

  datatype Style = Single | Numbered | OffsetBody | Token | TokenBody

  /** How an endpoint is paginated. asksMore: the reply says itself whether items remain. */
  datatype Paging = Paging(style: Style, param: string, size: int, tokenParam: string, asksMore: bool, maxPages: int)

  const DEFAULT_MAX_PAGES := 1000

  /** What distinguishes one request of a paginated read from another. */
  datatype Request = Request(page: Option<nat>, offset: Option<nat>, token: Option<string>)

  datatype FetchError =
    | CallFailed(outcome: Outcome, detail: string)
    | Truncated(call: string, pages: nat)
    | ParentList(cause: FetchError)

  datatype Reply =
    | Refused(called: string, error: FetchError)
    | Page(called: string, batch: seq<Json>, more: bool, next: string)

  datatype Fetched = Fetched(items: seq<Json>, called: string, error: Option<FetchError>)

  function MaxPages(p: Paging): (m: nat)
    ensures m >= 1
  {
    if p.maxPages > 0 then p.maxPages else DEFAULT_MAX_PAGES
  }

  function RequestFor(p: Paging, page: nat, offset: nat, token: string): Request {
    match p.style
    case Single => Request(None, None, None)
    case Numbered => Request(Some(page), None, None)
    case OffsetBody => Request(None, if p.param != "" then Some(offset) else None, None)
    case Token => Request(None, None, if token != "" && p.tokenParam != "" then Some(token) else None)
    case TokenBody => Request(None, None, if token != "" && p.tokenParam != "" then Some(token) else None)
  }

  /** The reply was the last page. */
  predicate IsLast(p: Paging, batch: seq<Json>, more: bool, next: string) {
    match p.style
    case Single => true
    case Numbered => batch == [] || (if p.asksMore then !more else |batch| < p.size)
    case OffsetBody => batch == [] || (if p.asksMore then !more else |batch| < p.size)
    case Token => next == ""
    case TokenBody => next == ""
  }

  function Or(a: string, b: string): string {
    if a != "" then a else b
  }

  /** The run of the loop from a page on. */
  function FetchFrom(ask: Request -> Reply, url: string, p: Paging, page: nat, items: seq<Json>, called: string,
                     token: string): Fetched
    decreases MaxPages(p) + 1 - page
  {
    if page > MaxPages(p) then Fetched(items, called, Some(Truncated(Or(called, url), MaxPages(p))))
    else
      match ask(RequestFor(p, page, |items|, token))
      case Refused(c, e) => Fetched(items, Or(c, called), Some(e))
      case Page(c, batch, more, next) =>
        if IsLast(p, batch, more, next) then Fetched(items + batch, Or(c, called), None)
        else FetchFrom(ask, url, p, page + 1, items + batch, Or(c, called), next)
  }

  function FetchAll(ask: Request -> Reply, url: string, p: Paging): Fetched {
    FetchFrom(ask, url, p, 1, [], "", "")
  }

  // ----- The conversation -----

  /** The items of the pages these requests were answered with. */
  ghost function Received(ask: Request -> Reply, asked: seq<Request>): seq<Json> {
    if asked == [] then []
    else
      var r := ask(asked[|asked| - 1]);
      Received(ask, asked[..|asked| - 1]) + if r.Page? then r.batch else []
  }

  /** Request i of a read: a page number counted from one, the number of items received so far,
      or the token of the reply before; nothing when the endpoint takes no such parameter. */
  ghost predicate AsksInTurn(ask: Request -> Reply, p: Paging, asked: seq<Request>, i: nat)
    requires i < |asked|
  {
    match p.style
    case Single => asked[i] == Request(None, None, None)
    case Numbered => asked[i] == Request(Some(i + 1), None, None)
    case OffsetBody =>
      asked[i] == Request(None, if p.param == "" then None else Some(|Received(ask, asked[..i])|), None)
    case Token => asked[i] == Request(None, None, TokenBefore(ask, p, asked, i))
    case TokenBody => asked[i] == Request(None, None, TokenBefore(ask, p, asked, i))
  }

  ghost function TokenBefore(ask: Request -> Reply, p: Paging, asked: seq<Request>, i: nat): Option<string>
    requires i < |asked|
  {
    if i == 0 || p.tokenParam == "" || ask(asked[i - 1]).Refused? then None else Some(ask(asked[i - 1]).next)
  }

  /** A page after which another one is asked for. */
  predicate CallsForMore(p: Paging, r: Reply) {
    r.Page? &&
    match p.style
    case Single => false
    case Numbered => |r.batch| > 0 && ((p.asksMore && r.more) || (!p.asksMore && |r.batch| >= p.size))
    case OffsetBody => |r.batch| > 0 && ((p.asksMore && r.more) || (!p.asksMore && |r.batch| >= p.size))
    case Token => r.next != ""
    case TokenBody => r.next != ""
  }

  /** A whole read, said of the requests and their replies alone: each request is the one due,
      each reply but the last calls for more, and the last one decides. */
  ghost predicate Conversation(ask: Request -> Reply, p: Paging, asked: seq<Request>, items: seq<Json>,
                               error: Option<FetchError>) {
    && 1 <= |asked| <= (if p.maxPages > 0 then p.maxPages else 1000)
    && (forall i :: 0 <= i < |asked| ==> AsksInTurn(ask, p, asked, i))
    && (forall i :: 0 <= i < |asked| - 1 ==> CallsForMore(p, ask(asked[i])))
    && items == Received(ask, asked)
    && var last := ask(asked[|asked| - 1]);
       match error
       case None => last.Page? && !CallsForMore(p, last)
       case Some(e) =>
         || last == Refused(last.called, e)
         || (CallsForMore(p, last) && |asked| == (if p.maxPages > 0 then p.maxPages else 1000)
             && e.Truncated? && e.pages == |asked|)
  }

  lemma ReceivedStep(ask: Request -> Reply, asked: seq<Request>, r: Request)
    ensures Received(ask, asked + [r]) == Received(ask, asked) + if ask(r).Page? then ask(r).batch else []
  {
    assert (asked + [r])[..|asked|] == asked;
  }

  lemma TurnKept(ask: Request -> Reply, p: Paging, asked: seq<Request>, r: Request, i: nat)
    requires i < |asked| && AsksInTurn(ask, p, asked, i)
    ensures AsksInTurn(ask, p, asked + [r], i)
  {
    assert (asked + [r])[..i] == asked[..i];
  }

  lemma TurnDue(ask: Request -> Reply, p: Paging, asked: seq<Request>, token: string)
    requires forall i :: 0 <= i < |asked| ==> ask(asked[i]).Page?
    requires asked != [] ==> CallsForMore(p, ask(asked[|asked| - 1]))
    requires token == if asked == [] then "" else ask(asked[|asked| - 1]).next
    ensures var r := RequestFor(p, |asked| + 1, |Received(ask, asked)|, token);
            AsksInTurn(ask, p, asked + [r], |asked|)
  {
    var r := RequestFor(p, |asked| + 1, |Received(ask, asked)|, token);
    assert (asked + [r])[..|asked|] == asked;
  }

  /** The pages read so far, while each of them called for more. */
  ghost predicate InConversation(ask: Request -> Reply, p: Paging, asked: seq<Request>, items: seq<Json>,
                                 token: string) {
    && items == Received(ask, asked)
    && (forall i :: 0 <= i < |asked| ==> AsksInTurn(ask, p, asked, i) && ask(asked[i]).Page?)
    && (forall i :: 0 <= i < |asked| ==> CallsForMore(p, ask(asked[i])))
    && token == if asked == [] then "" else ask(asked[|asked| - 1]).next
  }

  lemma OneMoreReply(ask: Request -> Reply, p: Paging, asked: seq<Request>, items: seq<Json>, token: string,
                     request: Request)
    requires InConversation(ask, p, asked, items, token)
    requires request == RequestFor(p, |asked| + 1, |items|, token)
    ensures var now, r := asked + [request], ask(request);
            && Received(ask, now) == items + (if r.Page? then r.batch else [])
            && (forall i :: 0 <= i < |now| ==> AsksInTurn(ask, p, now, i))
            && (forall i :: 0 <= i < |asked| ==> now[i] == asked[i])
            && now[|asked|] == request
            && (CallsForMore(p, r) ==> InConversation(ask, p, now, items + r.batch, r.next))
  {
    var now := asked + [request];
    ReceivedStep(ask, asked, request);
    TurnDue(ask, p, asked, token);
    forall i: nat | i < |now| ensures AsksInTurn(ask, p, now, i) {
      if i < |asked| {
        TurnKept(ask, p, asked, request, i);
      }
    }
  }

  method FetchItems(ask: Request -> Reply, url: string, p: Paging)
    returns (items: seq<Json>, called: string, error: Option<FetchError>, ghost asked: seq<Request>)
    ensures Fetched(items, called, error) == FetchAll(ask, url, p)
    ensures Conversation(ask, p, asked, items, error)
    ensures ask(asked[|asked| - 1]).called != "" ==> called == ask(asked[|asked| - 1]).called
    ensures error.None? ==> forall i :: 0 <= i < |asked| ==> ask(asked[i]).Page?
  {
    items, called, error, asked := [], "", None, [];
    var max := MaxPages(p);
    var token := "";
    var page := 1;
    while page <= max
      invariant 1 <= page <= max + 1 && |asked| == page - 1
      invariant FetchFrom(ask, url, p, page, items, called, token) == FetchAll(ask, url, p)
      invariant InConversation(ask, p, asked, items, token)
      invariant asked != [] && ask(asked[|asked| - 1]).called != "" ==> called == ask(asked[|asked| - 1]).called
    {
      var request := RequestFor(p, page, |items|, token);
      var reply := ask(request);
      OneMoreReply(ask, p, asked, items, token, request);
      asked := asked + [request];
      called := Or(reply.called, called);
      if reply.Refused? {
        return items, called, Some(reply.error), asked;
      }
      items := items + reply.batch;
      if IsLast(p, reply.batch, reply.more, reply.next) {
        return items, called, None, asked;
      }
      token := reply.next;
      page := page + 1;
    }
    error := Some(Truncated(Or(called, url), max));
  }

  // ----- Complete, or an error -----

  /** Whatever happened, only a prefix of the list was read; without an error, all of it. */
  ghost predicate Faithful(f: Fetched, all: seq<Json>) {
    f.items <= all && (f.error.None? ==> f.items == all)
  }

  ghost predicate NeverRefuses(ask: Request -> Reply) {
    forall r :: ask(r).Page?
  }

  // ----- By offset -----

  /** At any offset the server serves a batch of its own choosing from the list, and when it
      is asked whether items remain it tells so truly. */
  ghost predicate TruthfulOffsets(ask: Request -> Reply, p: Paging, all: seq<Json>) {
    && p.style == OffsetBody && p.param != ""
    && forall o: nat {:trigger Request(None, Some(o), None)} :: o <= |all| ==>
         var r := ask(Request(None, Some(o), None));
         r.Page? ==> TruthfulBatch(r, p, o, all)
  }

  ghost predicate TruthfulBatch(r: Reply, p: Paging, o: nat, all: seq<Json>)
    requires r.Page? && o <= |all|
  {
    && o + |r.batch| <= |all|
    && r.batch == all[o..o + |r.batch|]
    && (p.asksMore ==> (r.more <==> o + |r.batch| < |all|))
  }

  /** The loop takes for the last a page that may not be: an empty one, or one that is not
      full when the server is not asked whether items remain. */
  predicate LooksLast(p: Paging, batch: seq<Json>) {
    batch == [] || (!p.asksMore && |batch| < p.size)
  }

  /** Within n requests from offset o, and before any refusal, such a page is served before
      the end of a list of that length. */
  predicate Stalls(ask: Request -> Reply, p: Paging, length: nat, o: nat, n: nat)
    decreases n
  {
    n > 0 &&
    var r := ask(Request(None, Some(o), None));
    r.Page? && o + |r.batch| < length && (LooksLast(p, r.batch) || Stalls(ask, p, length, o + |r.batch|, n - 1))
  }

  lemma {:induction false} OffsetsFaithfulFrom(ask: Request -> Reply, url: string, p: Paging, all: seq<Json>, page: nat,
                                               items: seq<Json>, called: string, token: string, f: Fetched)
    requires TruthfulOffsets(ask, p, all) && items <= all && page <= MaxPages(p) + 1
    requires f == FetchFrom(ask, url, p, page, items, called, token)
    ensures f.items <= all
    ensures Faithful(f, all) <==> !Stalls(ask, p, |all|, |items|, MaxPages(p) + 1 - page)
    decreases MaxPages(p) + 1 - page
  {
    if page <= MaxPages(p) {
      var r := ask(Request(None, Some(|items|), None));
      if r.Page? {
        assert TruthfulBatch(r, p, |items|, all);
        assert items + r.batch == all[..|items| + |r.batch|];
        if !IsLast(p, r.batch, r.more, r.next) {
          OffsetsFaithfulFrom(ask, url, p, all, page + 1, items + r.batch, Or(r.called, called), r.next, f);
        }
      }
    }
  }

  /** Whatever page size the server imposes and whichever call it refuses, what is read is a
      beginning of the list; and the read is complete or an error exactly when no page that
      looks like the last one is served before the end. */
  lemma OffsetsFaithful(ask: Request -> Reply, url: string, p: Paging, all: seq<Json>)
    requires TruthfulOffsets(ask, p, all)
    ensures FetchAll(ask, url, p).items <= all
    ensures Faithful(FetchAll(ask, url, p), all) <==> !Stalls(ask, p, |all|, 0, MaxPages(p))
  {
    OffsetsFaithfulFrom(ask, url, p, all, 1, [], "", "", FetchAll(ask, url, p));
  }

  /** A server that answers an empty page first, and says that items remain. */
  function EmptyPageFirst(item: Json): Request -> Reply {
    (r: Request) => if r.offset == Some(0) then Page("", [], true, "") else Page("", [], false, "")
  }

  /** The empty page ends the read without an error, and the item behind it is never read. */
  lemma EmptyPageEndsTheRead(url: string, item: Json, p: Paging)
    requires p == Paging(OffsetBody, "FirstItem", 100, "", true, 0)
    ensures TruthfulOffsets(EmptyPageFirst(item), p, [item]) && NeverRefuses(EmptyPageFirst(item))
    ensures FetchAll(EmptyPageFirst(item), url, p) == Fetched([], "", None)
  {
  }

  /** k times a, by repeated addition. */
  function Times(a: nat, k: nat): nat {
    if k == 0 then 0 else a + Times(a, k - 1)
  }

  lemma {:induction false} TimesIsProduct(a: nat, k: nat)
    ensures Times(a, k) == a * k
  {
    if k > 0 {
      TimesIsProduct(a, k - 1);
    }
  }

  lemma TimesStep(a: nat, k: nat)
    ensures Times(a, k + 1) == a + Times(a, k)
  {
  }

  lemma {:induction false} TimesGrows(a: nat, k: nat, m: nat)
    requires k <= m
    ensures Times(a, k) <= Times(a, m)
  {
    if k < m {
      TimesGrows(a, k, m - 1);
    }
  }

  lemma {:induction false} OffsetsSucceedFrom(ask: Request -> Reply, url: string, p: Paging, all: seq<Json>, cap: nat,
                                              page: nat, items: seq<Json>, called: string, token: string)
    requires TruthfulOffsets(ask, p, all) && NeverRefuses(ask) && p.asksMore && items <= all
    requires ServesAtLeast(ask, all, cap)
    requires 1 <= page <= MaxPages(p) && |all| - |items| <= Times(cap, MaxPages(p) + 1 - page)
    ensures FetchFrom(ask, url, p, page, items, called, token).error.None?
    decreases MaxPages(p) + 1 - page
  {
    var r := ask(Request(None, Some(|items|), None));
    assert TruthfulBatch(r, p, |items|, all);
    assert items + r.batch == all[..|items| + |r.batch|];
    if !IsLast(p, r.batch, r.more, r.next) {
      assert |r.batch| >= cap;
      OffsetsSucceedFrom(ask, url, p, all, cap, page + 1, items + r.batch, Or(r.called, called), r.next);
    }
  }

  /** Every page but the one that reaches the end holds at least cap items. */
  ghost predicate ServesAtLeast(ask: Request -> Reply, all: seq<Json>, cap: nat) {
    forall o: nat {:trigger Request(None, Some(o), None)} :: o <= |all| ==>
      var r := ask(Request(None, Some(o), None));
      r.Page? ==> |r.batch| >= cap || o + |r.batch| >= |all|
  }

  lemma {:induction false} NoStall(ask: Request -> Reply, p: Paging, all: seq<Json>, cap: nat, o: nat, n: nat)
    requires TruthfulOffsets(ask, p, all) && p.asksMore && ServesAtLeast(ask, all, cap) && o <= |all|
    requires cap > 0 || all == []
    ensures !Stalls(ask, p, |all|, o, n)
    decreases n
  {
    var r := ask(Request(None, Some(o), None));
    if n > 0 && r.Page? && o + |r.batch| < |all| {
      NoStall(ask, p, all, cap, o + |r.batch|, n - 1);
    }
  }

  /** The page bound is no obstacle to a server that serves at least cap items a page and is
      asked whether items remain: such a list is read to its end. */
  lemma OffsetsSucceed(ask: Request -> Reply, url: string, p: Paging, all: seq<Json>, cap: nat)
    requires TruthfulOffsets(ask, p, all) && NeverRefuses(ask) && p.asksMore && ServesAtLeast(ask, all, cap)
    requires |all| <= cap * MaxPages(p)
    ensures FetchAll(ask, url, p).error.None? && FetchAll(ask, url, p).items == all
  {
    TimesIsProduct(cap, MaxPages(p));
    OffsetsSucceedFrom(ask, url, p, all, cap, 1, [], "", "");
    OffsetsFaithful(ask, url, p, all);
    NoStall(ask, p, all, cap, 0, MaxPages(p));
  }

  // ----- Full pages, without a word on what remains -----

  function Least(a: int, b: int): int {
    if a <= b then a else b
  }

  /** Page n + 1 holds the n-th slice of exactly size items of the list. */
  ghost predicate FullPages(ask: Request -> Reply, p: Paging, all: seq<Json>) {
    && (p.style == Numbered || (p.style == OffsetBody && p.param != "")) && !p.asksMore && p.size >= 1
    && forall n: nat {:trigger SliceServed(ask, p, all, n)} :: Times(p.size, n) <= |all| ==> SliceServed(ask, p, all, n)
  }

  ghost predicate SliceServed(ask: Request -> Reply, p: Paging, all: seq<Json>, n: nat)
    requires p.size >= 1 && Times(p.size, n) <= |all|
  {
    var start := Times(p.size, n);
    var r := ask(if p.style == Numbered then Request(Some(n + 1), None, None) else Request(None, Some(start), None));
    r.Page? ==> r.batch == all[start..Least(start + p.size, |all|)]
  }

  lemma {:induction false} PagesFrom(ask: Request -> Reply, url: string, p: Paging, all: seq<Json>, n: nat,
                                     items: seq<Json>, called: string, token: string, f: Fetched)
    requires FullPages(ask, p, all) && n <= MaxPages(p) && Times(p.size, n) <= |all| && items == all[..Times(p.size, n)]
    requires f == FetchFrom(ask, url, p, n + 1, items, called, token)
    ensures Faithful(f, all)
    ensures NeverRefuses(ask) ==> (f.error.None? <==> |all| < Times(p.size, MaxPages(p)))
    decreases MaxPages(p) - n
  {
    if n < MaxPages(p) {
      var start := Times(p.size, n);
      assert SliceServed(ask, p, all, n);
      var request := RequestFor(p, n + 1, start, token);
      var r := ask(request);
      if r.Page? {
        assert items + r.batch == all[..Least(start + p.size, |all|)];
        TimesStep(p.size, n);
        if IsLast(p, r.batch, r.more, r.next) {
          TimesGrows(p.size, n + 1, MaxPages(p));
        } else {
          PagesFrom(ask, url, p, all, n + 1, items + r.batch, Or(r.called, called), r.next, f);
        }
      }
    }
  }

  /** Without a flag from the server, completeness needs full pages, and the read succeeds
      exactly when the list is shorter than the bound times the page size. */
  lemma FullPagesComplete(ask: Request -> Reply, url: string, p: Paging, all: seq<Json>)
    requires FullPages(ask, p, all)
    ensures Faithful(FetchAll(ask, url, p), all)
    ensures NeverRefuses(ask) ==> (FetchAll(ask, url, p).error.None? <==> |all| < p.size * MaxPages(p))
  {
    TimesIsProduct(p.size, MaxPages(p));
    PagesFrom(ask, url, p, all, 0, [], "", "", FetchAll(ask, url, p));
  }

  // ----- By page number -----

  /** Page k + 1 holds part k of the list, nothing is past the last part, and when the server
      is asked whether parts remain it tells so truly. */
  ghost predicate NumberedPages(ask: Request -> Reply, p: Paging, parts: seq<seq<Json>>) {
    && p.style == Numbered
    && forall k: nat {:trigger PartServed(ask, p, parts, k)} :: PartServed(ask, p, parts, k)
  }

  ghost predicate PartServed(ask: Request -> Reply, p: Paging, parts: seq<seq<Json>>, k: nat) {
    var r := ask(Request(Some(k + 1), None, None));
    r.Page? ==>
      && r.batch == (if k < |parts| then parts[k] else [])
      && (p.asksMore ==> (r.more <==> k + 1 < |parts|))
  }

  /** Within n requests from page k + 1, and before any refusal, a page that looks like the last
      one is served while items remain behind it. */
  predicate PagesStall(ask: Request -> Reply, p: Paging, parts: seq<seq<Json>>, k: nat, n: nat)
    decreases n
  {
    n > 0 && k < |parts| && ask(Request(Some(k + 1), None, None)).Page? &&
    if LooksLast(p, parts[k]) then Flatten(parts[k + 1..]) != [] else PagesStall(ask, p, parts, k + 1, n - 1)
  }

  lemma {:induction false} NumberedFrom(ask: Request -> Reply, url: string, p: Paging, parts: seq<seq<Json>>, k: nat,
                                        items: seq<Json>, called: string, token: string, f: Fetched)
    requires NumberedPages(ask, p, parts) && k <= MaxPages(p) && k < |parts| && items == Flatten(parts[..k])
    requires f == FetchFrom(ask, url, p, k + 1, items, called, token)
    ensures f.items <= Flatten(parts)
    ensures Faithful(f, Flatten(parts)) <==> !PagesStall(ask, p, parts, k, MaxPages(p) - k)
    decreases |parts| - k
  {
    FlattenStep(parts, k);
    if k < MaxPages(p) {
      assert PartServed(ask, p, parts, k);
      var r := ask(Request(Some(k + 1), None, None));
      if r.Page? {
        FlattenSplit(parts, k + 1);
        if k + 1 < |parts| {
          if !LooksLast(p, parts[k]) {
            NumberedFrom(ask, url, p, parts, k + 1, items + r.batch, Or(r.called, called), r.next, f);
          }
        } else {
          assert parts[..k + 1] == parts && parts[k + 1..] == [];
          if !IsLast(p, r.batch, r.more, r.next) {
            PastTheEnd(ask, url, p, parts, k + 2, items + r.batch, Or(r.called, called), r.next);
          }
        }
      }
    }
  }

  lemma PastTheEnd(ask: Request -> Reply, url: string, p: Paging, parts: seq<seq<Json>>, page: nat, items: seq<Json>,
                   called: string, token: string)
    requires NumberedPages(ask, p, parts) && page > |parts|
    ensures FetchFrom(ask, url, p, page, items, called, token).items == items
  {
    assert PartServed(ask, p, parts, page - 1);
    assert items + [] == items;
  }

  /** Page by page, with or without a flag: what is read is a beginning of the list, and the
      read is complete or an error exactly when no page that looks like the last one is served
      while items remain behind it. */
  lemma NumberedFaithful(ask: Request -> Reply, url: string, p: Paging, parts: seq<seq<Json>>)
    requires NumberedPages(ask, p, parts) && parts != []
    ensures FetchAll(ask, url, p).items <= Flatten(parts)
    ensures Faithful(FetchAll(ask, url, p), Flatten(parts)) <==> !PagesStall(ask, p, parts, 0, MaxPages(p))
  {
    NumberedFrom(ask, url, p, parts, 0, [], "", "", FetchAll(ask, url, p));
  }

  // ----- Chains of tokens -----

  function Flatten<T>(parts: seq<seq<T>>): seq<T> {
    if parts == [] then [] else parts[0] + Flatten(parts[1..])
  }

  lemma {:induction false} FlattenSplit<T>(parts: seq<seq<T>>, k: nat)
    requires k <= |parts|
    ensures Flatten(parts) == Flatten(parts[..k]) + Flatten(parts[k..])
  {
    if k > 0 {
      FlattenSplit(parts[1..], k - 1);
      assert parts[..k][1..] == parts[1..][..k - 1];
      assert parts[k..] == parts[1..][k - 1..];
    } else {
      assert parts[0..] == parts;
    }
  }

  lemma FlattenStep<T>(parts: seq<seq<T>>, k: nat)
    requires k < |parts|
    ensures Flatten(parts[..k + 1]) == Flatten(parts[..k]) + parts[k]
    ensures Flatten(parts[..k]) + parts[k] <= Flatten(parts)
  {
    FlattenSplit(parts[..k + 1], k);
    assert parts[..k + 1][..k] == parts[..k];
    assert parts[..k + 1][k..] == [parts[k]];
    assert Flatten([parts[k]]) == parts[k] + Flatten([]);
    FlattenSplit(parts, k + 1);
  }

  /** The server serves the parts of the list in a chain: the first without a token, part k on
      token k, and each names the token of the next, the last part naming none. */
  ghost predicate TokenChain(ask: Request -> Reply, p: Paging, parts: seq<seq<Json>>, tokens: seq<string>) {
    && (p.style == Token || p.style == TokenBody)
    && p.tokenParam != "" && |tokens| == |parts| >= 1 && tokens[0] == ""
    && (forall k :: 1 <= k < |tokens| ==> tokens[k] != "")
    && forall k :: 0 <= k < |tokens| ==> LinkServed(ask, p, parts, tokens, k)
  }

  ghost predicate LinkServed(ask: Request -> Reply, p: Paging, parts: seq<seq<Json>>, tokens: seq<string>, k: nat)
    requires k < |tokens| == |parts|
  {
    var r := ask(Request(None, None, if k == 0 then None else Some(tokens[k])));
    r.Page? ==> r.batch == parts[k] && r.next == if k + 1 < |tokens| then tokens[k + 1] else ""
  }

  lemma {:induction false} ChainFrom(ask: Request -> Reply, url: string, p: Paging, parts: seq<seq<Json>>,
                                     tokens: seq<string>, k: nat, items: seq<Json>, called: string, f: Fetched)
    requires TokenChain(ask, p, parts, tokens) && k < |parts| && items == Flatten(parts[..k])
    requires f == FetchFrom(ask, url, p, k + 1, items, called, tokens[k])
    ensures Faithful(f, Flatten(parts))
    ensures NeverRefuses(ask) && k <= MaxPages(p) ==> (f.error.None? <==> |parts| <= MaxPages(p))
    decreases |parts| - k
  {
    FlattenStep(parts, k);
    if k + 1 <= MaxPages(p) {
      assert LinkServed(ask, p, parts, tokens, k);
      var r := ask(Request(None, None, if k == 0 then None else Some(tokens[k])));
      if r.Page? {
        if k + 1 < |parts| {
          ChainFrom(ask, url, p, parts, tokens, k + 1, items + r.batch, Or(r.called, called), f);
        } else {
          assert parts[..k + 1] == parts;
        }
      }
    }
  }

  /** A chain of tokens is followed to its end, in order, or ends in an error; the page
      bound cuts exactly the chains longer than it. */
  lemma TokenChainComplete(ask: Request -> Reply, url: string, p: Paging, parts: seq<seq<Json>>, tokens: seq<string>)
    requires TokenChain(ask, p, parts, tokens)
    ensures Faithful(FetchAll(ask, url, p), Flatten(parts))
    ensures NeverRefuses(ask) ==> (FetchAll(ask, url, p).error.None? <==> |parts| <= MaxPages(p))
  {
    ChainFrom(ask, url, p, parts, tokens, 0, [], "", FetchAll(ask, url, p));
  }

  // ----- No pagination -----

  /** An endpoint that is not paginated is its only page. */
  lemma SinglePageComplete(ask: Request -> Reply, url: string, p: Paging, all: seq<Json>)
    requires p.style == Single
    requires var r := ask(Request(None, None, None)); r.Page? ==> r.batch == all
    ensures Faithful(FetchAll(ask, url, p), all)
  {
  }

  // ----- What a server must do -----

  /** The server serves slices of a list, by offset or by page number, of whatever sizes, and
      says truly whether items remain when it is asked. */
  ghost predicate Truthful(ask: Request -> Reply, p: Paging, all: seq<Json>) {
    TruthfulOffsets(ask, p, all) || exists parts :: PartsOf(ask, p, all, parts)
  }

  ghost predicate PartsOf(ask: Request -> Reply, p: Paging, all: seq<Json>, parts: seq<seq<Json>>) {
    parts != [] && NumberedPages(ask, p, parts) && Flatten(parts) == all
  }

  /** A page that looks like the last one is served, and reached, before the end of the list. */
  ghost predicate EndsEarly(ask: Request -> Reply, p: Paging, all: seq<Json>) {
    || (TruthfulOffsets(ask, p, all) && Stalls(ask, p, |all|, 0, MaxPages(p)))
    || (exists parts :: PartsOf(ask, p, all, parts) && PagesStall(ask, p, parts, 0, MaxPages(p)))
  }

  /** What is read is a beginning of the list; and the list is cut without an error exactly
      when such a page is served. */
  lemma CutExactly(ask: Request -> Reply, url: string, p: Paging, all: seq<Json>)
    requires Truthful(ask, p, all)
    ensures FetchAll(ask, url, p).items <= all
    ensures Faithful(FetchAll(ask, url, p), all) <==> !EndsEarly(ask, p, all)
    ensures FetchAll(ask, url, p).error.None? && |FetchAll(ask, url, p).items| < |all| <==> EndsEarly(ask, p, all)
  {
    var f := FetchAll(ask, url, p);
    if TruthfulOffsets(ask, p, all) {
      OffsetsFaithful(ask, url, p, all);
    }
    forall parts | PartsOf(ask, p, all, parts)
      ensures f.items <= all && (Faithful(f, all) <==> !PagesStall(ask, p, parts, 0, MaxPages(p)))
    {
      NumberedFaithful(ask, url, p, parts);
    }
    assert f.items <= all && |f.items| == |all| ==> f.items == all;
  }

  /** The server serves a list, in one of the ways the loop reads completely: in one page, by
      full pages, by offset or by page number without a page that looks like the last one too
      early, or along a chain of tokens. */
  ghost predicate Serves(ask: Request -> Reply, p: Paging, all: seq<Json>) {
    || ServesOnePage(ask, p, all)
    || FullPages(ask, p, all)
    || (Truthful(ask, p, all) && !EndsEarly(ask, p, all))
    || (exists parts, tokens :: TokenChain(ask, p, parts, tokens) && Flatten(parts) == all)
  }

  ghost predicate ServesOnePage(ask: Request -> Reply, p: Paging, all: seq<Json>) {
    p.style == Single && var r := ask(Request(None, None, None)); r.Page? ==> r.batch == all
  }

  /** Whatever it refuses, such a server is read completely or with an error. */
  lemma ServedIsFaithful(ask: Request -> Reply, url: string, p: Paging, all: seq<Json>)
    requires Serves(ask, p, all)
    ensures Faithful(FetchAll(ask, url, p), all)
  {
    if ServesOnePage(ask, p, all) {
      SinglePageComplete(ask, url, p, all);
    } else if FullPages(ask, p, all) {
      FullPagesComplete(ask, url, p, all);
    } else if Truthful(ask, p, all) && !EndsEarly(ask, p, all) {
      CutExactly(ask, url, p, all);
    } else {
      var parts, tokens :| TokenChain(ask, p, parts, tokens) && Flatten(parts) == all;
      TokenChainComplete(ask, url, p, parts, tokens);
    }
  }
}
