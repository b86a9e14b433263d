/** The pagination loops of the inline-policy collector (internal/eimpolicy/eimpolicy.go).
    They advance on the items received, whatever is kept of them. */
module EimPolicy {
  import opened Wrappers
  import opened Fetch

  /** A page of a list, asked for by offset. */
  datatype ListReply<T> = Denied(detail: string) | Batch(received: seq<T>, more: bool)

  datatype ReadError = CallDenied(detail: string) | BoundReached

  const MAX_PAGES := 1000

  /** The loop stops on this page. */
  predicate Stops<T(==)>(r: ListReply<T>)
    requires r.Batch?
  {
    !r.more || r.received == []
  }

  /** The run of the loops from what was received on, for at most n pages. */
  function Drained<T(==)>(ask: nat -> ListReply<T>, received: seq<T>, n: nat): Result<seq<T>, ReadError>
    decreases n
  {
    if n == 0 then Failure(BoundReached)
    else
      match ask(|received|)
      case Denied(detail) => Failure(CallDenied(detail))
      case Batch(batch, more) =>
        if Stops(Batch(batch, more)) then Success(received + batch) else Drained(ask, received + batch, n - 1)
  }

  /** The names of a list, in order, without the nameless entries. */
  function Named(all: seq<string>): seq<string> {
    if all == [] then [] else (if all[0] != "" then [all[0]] else []) + Named(all[1..])
  }

  lemma {:induction false} NamedConcat(a: seq<string>, b: seq<string>)
    ensures Named(a + b) == Named(a) + Named(b)
  {
    if a == [] {
      assert a + b == b;
    } else {
      assert (a + b)[1..] == a[1..] + b;
      NamedConcat(a[1..], b);
      ConcatAssociative(if a[0] != "" then [a[0]] else [], Named(a[1..]), Named(b));
    }
  }

  function NamesIn(r: Result<seq<string>, ReadError>): Result<seq<string>, ReadError> {
    match r
    case Success(all) => Success(Named(all))
    case Failure(e) => Failure(e)
  }

  method KeepNamed(received: seq<string>, before: seq<string>) returns (out: seq<string>)
    ensures out == before + Named(received)
  {
    out := before;
    for i := 0 to |received|
      invariant out == before + Named(received[..i])
    {
      assert received[..i + 1] == received[..i] + [received[i]];
      NamedConcat(received[..i], [received[i]]);
      if received[i] != "" {
        out := out + [received[i]];
      }
    }
    assert received[..|received|] == received;
  }

  /** Users and groups: bounded, by the number of entries received, keeping the named ones. */
  method ReadAllNamed(ask: nat -> ListReply<string>) returns (r: Result<seq<string>, ReadError>)
    ensures r == NamesIn(Drained(ask, [], MAX_PAGES))
  {
    var out: seq<string> := [];
    var seen: nat := 0;
    ghost var received: seq<string> := [];
    for p := 0 to MAX_PAGES
      invariant seen == |received| && out == Named(received)
      invariant Drained(ask, received, MAX_PAGES - p) == Drained(ask, [], MAX_PAGES)
    {
      var page := ask(seen);
      if page.Denied? {
        return Failure(CallDenied(page.detail));
      }
      NamedConcat(received, page.received);
      out := KeepNamed(page.received, out);
      seen := seen + |page.received|;
      received := received + page.received;
      if !page.more || |page.received| == 0 {
        return Success(out);
      }
    }
    return Failure(BoundReached);
  }

  /** Within n pages the server refuses a call, or serves a page the loop stops on. */
  predicate EndsWithin<T(==)>(ask: nat -> ListReply<T>, o: nat, n: nat)
    decreases n
  {
    n > 0 && (ask(o).Denied? || Stops(ask(o)) || EndsWithin(ask, o + |ask(o).received|, n - 1))
  }

  /** The policies of a user or a group. The loop has no bound of its own: all it needs of the
      server is that it ends, after any number of pages. */
  method ReadAll<T(==)>(ask: nat -> ListReply<T>, ghost n: nat) returns (r: Result<seq<T>, ReadError>)
    requires EndsWithin(ask, 0, n)
    ensures r == Drained(ask, [], n)
  {
    var out: seq<T> := [];
    ghost var left := n;
    while true
      invariant EndsWithin(ask, |out|, left)
      invariant Drained(ask, out, left) == Drained(ask, [], n)
      decreases left
    {
      var page := ask(|out|);
      if page.Denied? {
        return Failure(CallDenied(page.detail));
      }
      out := out + page.received;
      if !page.more || |page.received| == 0 {
        return Success(out);
      }
      left := left - 1;
    }
  }

  // ----- Complete, or an error -----

  /** The server serves slices of a list and says truly whether items remain. */
  ghost predicate TruthfulList<T(!new)>(ask: nat -> ListReply<T>, all: seq<T>) {
    forall o: nat :: o <= |all| && ask(o).Batch? ==> TruthfulPart(ask(o), o, all)
  }

  ghost predicate TruthfulPart<T>(r: ListReply<T>, o: nat, all: seq<T>)
    requires r.Batch? && o <= |all|
  {
    && o + |r.received| <= |all|
    && r.received == all[o..o + |r.received|]
    && (r.more <==> o + |r.received| < |all|)
  }

  /** Within n pages from offset o, and before any refusal, an empty page comes before the end. */
  predicate EmptyTooEarly<T(==)>(ask: nat -> ListReply<T>, length: nat, o: nat, n: nat)
    decreases n
  {
    n > 0 && ask(o).Batch? && o + |ask(o).received| < length &&
    (ask(o).received == [] || EmptyTooEarly(ask, length, o + |ask(o).received|, n - 1))
  }

  /** A success is the whole list exactly when no empty page comes before its end. */
  lemma {:induction false} DrainedExactly<T(!new)>(ask: nat -> ListReply<T>, all: seq<T>, received: seq<T>, n: nat)
    requires TruthfulList(ask, all) && received <= all
    ensures var r := Drained(ask, received, n);
            && (r.Success? ==> r.value <= all)
            && ((r.Success? ==> r.value == all) <==> !EmptyTooEarly(ask, |all|, |received|, n))
    decreases n
  {
    if n > 0 && ask(|received|).Batch? {
      var page := ask(|received|);
      assert TruthfulPart(page, |received|, all);
      assert received + page.received == all[..|received| + |page.received|];
      if !Stops(page) {
        DrainedExactly(ask, all, received + page.received, n - 1);
      }
    }
  }

  /** Every call is answered, and a page that does not reach the end holds at least cap items. */
  ghost predicate AnswersAtLeast<T(!new)>(ask: nat -> ListReply<T>, all: seq<T>, cap: nat) {
    forall o: nat :: o <= |all| ==>
      ask(o).Batch? && (|ask(o).received| >= cap || o + |ask(o).received| == |all|)
  }

  /** A server that answers enough per page is read to its end within the bound. */
  lemma {:induction false} DrainedWithin<T(!new)>(ask: nat -> ListReply<T>, all: seq<T>, received: seq<T>, n: nat,
                                           cap: nat)
    requires TruthfulList(ask, all) && AnswersAtLeast(ask, all, cap) && received <= all
    requires n > 0 && |all| - |received| <= Times(cap, n) && (cap > 0 || all == [])
    ensures Drained(ask, received, n) == Success(all)
    decreases n
  {
    var page := ask(|received|);
    assert TruthfulPart(page, |received|, all);
    assert received + page.received == all[..|received| + |page.received|];
    assert all[..|all|] == all;
    if !Stops(page) {
      DrainedWithin(ask, all, received + page.received, n - 1, cap);
    }
  }

  /** A finite list truthfully served always ends the unbounded loop. */
  lemma {:induction false} FiniteListsEnd<T(!new)>(ask: nat -> ListReply<T>, all: seq<T>, o: nat)
    requires TruthfulList(ask, all) && o <= |all|
    ensures EndsWithin(ask, o, |all| - o + 1)
    decreases |all| - o
  {
    if ask(o).Batch? && !Stops(ask(o)) {
      assert TruthfulPart(ask(o), o, all);
      FiniteListsEnd(ask, all, o + |ask(o).received|);
      EndsLater(ask, o + |ask(o).received|, |all| - (o + |ask(o).received|) + 1, |all| - o);
    }
  }

  lemma {:induction false} EndsLater<T>(ask: nat -> ListReply<T>, o: nat, n: nat, m: nat)
    requires EndsWithin(ask, o, n) && n <= m
    ensures EndsWithin(ask, o, m)
    decreases n
  {
    if !ask(o).Denied? && !Stops(ask(o)) {
      EndsLater(ask, o + |ask(o).received|, n - 1, m - 1);
    }
  }

  /** On a finite list truthfully served, users, groups and policies are read completely or
      with an error exactly when no empty page comes before the end. */
  lemma ReadsExactly<T(!new)>(ask: nat -> ListReply<T>, all: seq<T>, n: nat)
    requires TruthfulList(ask, all)
    ensures Drained(ask, [], n).Success? ==> Drained(ask, [], n).value <= all
    ensures (Drained(ask, [], n).Success? ==> Drained(ask, [], n).value == all) <==> !EmptyTooEarly(ask, |all|, 0, n)
    ensures EndsWithin(ask, 0, |all| + 1)
  {
    DrainedExactly(ask, all, [], n);
    FiniteListsEnd(ask, all, 0);
  }

  function EmptyThenMore(o: nat): ListReply<string> {
    Batch([], o == 0)
  }

  /** An empty page that announces more ends the read with a success, and the name behind it
      is missing. */
  lemma EmptyPageHidesNames(name: string)
    requires name != ""
    ensures TruthfulList(EmptyThenMore, [name])
    ensures NamesIn(Drained(EmptyThenMore, [], MAX_PAGES)) == Success([]) && Named([name]) == [name]
  {
    assert [name][1..] == [];
  }
}
