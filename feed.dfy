/**
 * The feed item and the specification of the window collector.
 *
 * The collector exists twice in the bot, as getSnipsSince in cmd/root.go and
 * as Client.GetSnipsSince in pkg/snips/snips.go, identical apart from the
 * fetch call. Both are proved (in modules Cmd and Snips) against the function Collected below.
 *
 * Instants are integers on one time line; `t < since` is Go's t.Before(since).
 * Parsing a CreatedAt string (an RFC 3339 date-time, section 5.6 of RFC 3339)
 * is an abstract partial function: None stands for a parse error.
 */
module Feed {
  import opened Wrappers

  /** One item of the feed, as the JSON feed delivers it. */
  datatype Snip = Snip(
    id: string,
    createdAt: string,
    updatedAt: string,
    name: string,
    description: string,
    size: int,
    private: bool,
    snipType: string,
    userId: string)

  /** Timestamp parsing: Some(instant), or None when the text does not parse. */
  type Parser = string -> Option<int>

  /** An item that ends the collection: its timestamp parses and lies strictly before `since`. */
  predicate IsBoundary(s: Snip, parse: Parser, since: int)
  {
    parse(s.createdAt).Some? && parse(s.createdAt).value < since
  }

  /** An item the collector may return: its timestamp parses and is not before `since`. */
  predicate InWindow(s: Snip, parse: Parser, since: int)
  {
    parse(s.createdAt).Some? && since <= parse(s.createdAt).value
  }

  predicate HasBoundary(page: seq<Snip>, parse: Parser, since: int)
  {
    exists j :: 0 <= j < |page| && IsBoundary(page[j], parse, since)
  }

  /** A response after which the collector fetches no more: an empty page, or one holding a boundary item. */
  predicate EndsCollection(page: seq<Snip>, parse: Parser, since: int)
  {
    page == [] || HasBoundary(page, parse, since)
  }

  /** What the scan of one page appends: the items that parse, in page order, up to the first boundary item. */
  function PageWindow(page: seq<Snip>, parse: Parser, since: int): seq<Snip>
    decreases |page|
  {
    if page == [] then []
    else match parse(page[0].createdAt)
      case None => PageWindow(page[1..], parse, since)
      case Some(t) =>
        if t < since then [] else [page[0]] + PageWindow(page[1..], parse, since)
  }

  /**
   * What the collector returns when its successive fetches receive `responses`
   * (the k-th fetch receives responses[k]). Running out of responses yields what
   * was gathered, the same as an empty page would.
   */
  function Collected(responses: seq<seq<Snip>>, parse: Parser, since: int): seq<Snip>
    decreases |responses|
  {
    if responses == [] || responses[0] == [] then []
    else if HasBoundary(responses[0], parse, since) then PageWindow(responses[0], parse, since)
    else PageWindow(responses[0], parse, since) + Collected(responses[1..], parse, since)
  }

  /** Some response ends the collection: the collector, fed `responses`, stops before running out of them. */
  predicate EventuallyEnds(responses: seq<seq<Snip>>, parse: Parser, since: int)
    decreases |responses|
  {
    responses != [] && (EndsCollection(responses[0], parse, since) || EventuallyEnds(responses[1..], parse, since))
  }

  lemma {:induction false} EventuallyEndsIff(responses: seq<seq<Snip>>, parse: Parser, since: int)
    ensures EventuallyEnds(responses, parse, since)
        <==> exists k :: 0 <= k < |responses| && EndsCollection(responses[k], parse, since)
    decreases |responses|
  {
    if responses != [] {
      var rest := responses[1..];
      EventuallyEndsIff(rest, parse, since);
      if EventuallyEnds(rest, parse, since) {
        var k :| 0 <= k < |rest| && EndsCollection(rest[k], parse, since);
        assert responses[k + 1] == rest[k];
      }
      if !EndsCollection(responses[0], parse, since) && exists k :: 0 <= k < |responses| && EndsCollection(responses[k], parse, since) {
        var k :| 0 <= k < |responses| && EndsCollection(responses[k], parse, since);
        assert rest[k - 1] == responses[k];
      }
    }
  }

  /** How many fetches the collector makes when its successive fetches receive `responses`. */
  function Calls(responses: seq<seq<Snip>>, parse: Parser, since: int): nat
    decreases |responses|
  {
    if responses == [] then 0
    else if EndsCollection(responses[0], parse, since) then 1
    else 1 + Calls(responses[1..], parse, since)
  }

  /** The collector fetches up to and including the first response that ends the collection, and no further. */
  lemma {:induction false} CallsAtFirstEnd(responses: seq<seq<Snip>>, k: nat, parse: Parser, since: int)
    requires k < |responses| && EndsCollection(responses[k], parse, since)
    requires forall j :: 0 <= j < k ==> !EndsCollection(responses[j], parse, since)
    ensures Calls(responses, parse, since) == k + 1
    decreases k
  {
    if k > 0 {
      assert !EndsCollection(responses[0], parse, since);
      var rest := responses[1..];
      assert rest[k - 1] == responses[k];
      assert forall j :: 0 <= j < k - 1 ==> rest[j] == responses[j + 1];
      CallsAtFirstEnd(rest, k - 1, parse, since);
    }
  }

  /**
   * What the collector's loop keeps true before its fetch number `call`:
   * a later response still ends the collection, and what has been gathered
   * plus what the remaining responses contribute is the whole result.
   */
  ghost predicate Collecting(responses: seq<seq<Snip>>, parse: Parser, since: int, call: nat, snips: seq<Snip>)
  {
    && call <= |responses|
    && EventuallyEnds(responses[call..], parse, since)
    && call + Calls(responses[call..], parse, since) == Calls(responses, parse, since)
    && snips + Collected(responses[call..], parse, since) == Collected(responses, parse, since)
  }

  lemma CollectingStart(responses: seq<seq<Snip>>, parse: Parser, since: int)
    requires EventuallyEnds(responses, parse, since)
    ensures Collecting(responses, parse, since, 0, [])
  {
    assert responses[0..] == responses;
  }

  /** A page without a boundary item: its window is gathered and the next fetch follows. */
  lemma CollectingAdvance(responses: seq<seq<Snip>>, parse: Parser, since: int, call: nat, snips: seq<Snip>)
    requires Collecting(responses, parse, since, call, snips)
    requires call < |responses| && responses[call] != [] && !HasBoundary(responses[call], parse, since)
    ensures Collecting(responses, parse, since, call + 1, snips + PageWindow(responses[call], parse, since))
  {
    var rest := responses[call..];
    assert rest[0] == responses[call] && rest[1..] == responses[call + 1..];
  }

  /** An empty page, or one with a boundary item, completes the result and is the last fetch. */
  lemma CollectingEnd(responses: seq<seq<Snip>>, parse: Parser, since: int, call: nat, snips: seq<Snip>)
    requires Collecting(responses, parse, since, call, snips)
    requires call < |responses| && EndsCollection(responses[call], parse, since)
    ensures snips + (if responses[call] == [] then [] else PageWindow(responses[call], parse, since))
            == Collected(responses, parse, since)
    ensures call + 1 == Calls(responses, parse, since)
  {
    var rest := responses[call..];
    assert rest[0] == responses[call];
  }

  // ---------------------------------------------------------------------------
  // A second, independent description of the collector's result: the stream of
  // fetched items, cut at the first boundary item, with unparseable items removed.

  /** All items of the responses, in order, up to the first empty page. */
  function Stream(responses: seq<seq<Snip>>): seq<Snip>
    decreases |responses|
  {
    if responses == [] || responses[0] == [] then [] else responses[0] + Stream(responses[1..])
  }

  /** The items before the first boundary item. */
  function BeforeBoundary(xs: seq<Snip>, parse: Parser, since: int): seq<Snip>
    decreases |xs|
  {
    if xs == [] || IsBoundary(xs[0], parse, since) then []
    else [xs[0]] + BeforeBoundary(xs[1..], parse, since)
  }

  /** The items whose timestamp parses, in order. */
  function Parseable(xs: seq<Snip>, parse: Parser): seq<Snip>
    decreases |xs|
  {
    if xs == [] then []
    else if parse(xs[0].createdAt).Some? then [xs[0]] + Parseable(xs[1..], parse)
    else Parseable(xs[1..], parse)
  }

  lemma {:induction false} ParseableAppend(a: seq<Snip>, b: seq<Snip>, parse: Parser)
    ensures Parseable(a + b, parse) == Parseable(a, parse) + Parseable(b, parse)
    decreases |a|
  {
    if a == [] {
      assert a + b == b;
    } else {
      assert (a + b)[1..] == a[1..] + b;
      ParseableAppend(a[1..], b, parse);
    }
  }

  lemma {:induction false} BeforeBoundaryAppend(a: seq<Snip>, b: seq<Snip>, parse: Parser, since: int)
    ensures BeforeBoundary(a + b, parse, since)
         == if HasBoundary(a, parse, since) then BeforeBoundary(a, parse, since)
            else a + BeforeBoundary(b, parse, since)
    decreases |a|
  {
    if a == [] {
      assert a + b == b;
    } else {
      assert (a + b)[1..] == a[1..] + b;
      BeforeBoundaryAppend(a[1..], b, parse, since);
      HasBoundaryCons(a, parse, since);
      if !IsBoundary(a[0], parse, since) {
        assert a == [a[0]] + a[1..];
      }
    }
  }

  /** One page's scan keeps exactly the parseable items that precede its first boundary item. */
  lemma {:induction false} PageWindowIsFilteredPrefix(page: seq<Snip>, parse: Parser, since: int)
    ensures PageWindow(page, parse, since) == Parseable(BeforeBoundary(page, parse, since), parse)
    decreases |page|
  {
    if page != [] {
      PageWindowIsFilteredPrefix(page[1..], parse, since);
    }
  }

  /**
   * The collector's result is the fetched stream, cut before its first boundary
   * item, without the items whose timestamp does not parse: it keeps feed order
   * and returns each fetched item at most once per fetch.
   */
  lemma {:induction false} CollectedIsFilteredPrefix(responses: seq<seq<Snip>>, parse: Parser, since: int)
    ensures Collected(responses, parse, since)
         == Parseable(BeforeBoundary(Stream(responses), parse, since), parse)
    decreases |responses|
  {
    if responses != [] && responses[0] != [] {
      var p, rest := responses[0], responses[1..];
      PageWindowIsFilteredPrefix(p, parse, since);
      BeforeBoundaryAppend(p, Stream(rest), parse, since);
      if !HasBoundary(p, parse, since) {
        CollectedIsFilteredPrefix(rest, parse, since);
        ParseableAppend(p, BeforeBoundary(Stream(rest), parse, since), parse);
        assert forall j :: 0 <= j < |p| ==> !IsBoundary(p[j], parse, since);
        BeforeBoundaryAll(p, parse, since);
      }
    }
  }

  /** A sequence holds a boundary item iff its head is one or its tail holds one. */
  lemma HasBoundaryCons(xs: seq<Snip>, parse: Parser, since: int)
    requires xs != []
    ensures HasBoundary(xs, parse, since) <==> IsBoundary(xs[0], parse, since) || HasBoundary(xs[1..], parse, since)
  {
    if HasBoundary(xs[1..], parse, since) {
      var j :| 0 <= j < |xs[1..]| && IsBoundary(xs[1..][j], parse, since);
      assert IsBoundary(xs[j + 1], parse, since);
    }
    if HasBoundary(xs, parse, since) && !IsBoundary(xs[0], parse, since) {
      var j :| 0 <= j < |xs| && IsBoundary(xs[j], parse, since);
      assert IsBoundary(xs[1..][j - 1], parse, since);
    }
  }

  /** A page without a boundary item survives the cut whole. */
  lemma {:induction false} BeforeBoundaryAll(xs: seq<Snip>, parse: Parser, since: int)
    requires !HasBoundary(xs, parse, since)
    ensures BeforeBoundary(xs, parse, since) == xs
    decreases |xs|
  {
    if xs != [] {
      HasBoundaryCons(xs, parse, since);
      BeforeBoundaryAll(xs[1..], parse, since);
    }
  }

  /** Every item one page's scan keeps has a timestamp that parses and is not before `since`. */
  lemma {:induction false} PageWindowInWindow(page: seq<Snip>, parse: Parser, since: int)
    ensures forall k :: 0 <= k < |PageWindow(page, parse, since)| ==>
              InWindow(PageWindow(page, parse, since)[k], parse, since)
    decreases |page|
  {
    if page != [] {
      PageWindowInWindow(page[1..], parse, since);
    }
  }

  /** Every returned item has a timestamp that parses and is not before `since` (items exactly at `since` included). */
  lemma {:induction false} CollectedInWindow(responses: seq<seq<Snip>>, parse: Parser, since: int)
    ensures forall k :: 0 <= k < |Collected(responses, parse, since)| ==>
              InWindow(Collected(responses, parse, since)[k], parse, since)
    decreases |responses|
  {
    if responses != [] && responses[0] != [] {
      PageWindowInWindow(responses[0], parse, since);
      CollectedInWindow(responses[1..], parse, since);
    }
  }

  /** An item whose timestamp does not parse is skipped, and the scan of its page goes on past it. */
  lemma {:induction false} UnparseableSkipped(a: seq<Snip>, x: Snip, b: seq<Snip>, parse: Parser, since: int)
    requires parse(x.createdAt).None?
    ensures PageWindow(a + [x] + b, parse, since) == PageWindow(a + b, parse, since)
    decreases |a|
  {
    if a == [] {
      assert a + [x] + b == [x] + b && a + b == b;
      assert ([x] + b)[1..] == b;
    } else {
      assert (a + [x] + b)[1..] == a[1..] + [x] + b;
      assert (a + b)[1..] == a[1..] + b;
      UnparseableSkipped(a[1..], x, b, parse, since);
    }
  }

  /**
   * A boundary item ends the scan: neither it nor anything after it on its page
   * is kept, and no later response contributes anything either.
   */
  lemma {:induction false} BoundaryEndsCollection(a: seq<Snip>, x: Snip, b: seq<Snip>,
                                                  later: seq<seq<Snip>>, parse: Parser, since: int)
    requires IsBoundary(x, parse, since)
    ensures Collected([a + [x] + b] + later, parse, since) == PageWindow(a, parse, since)
  {
    var page := a + [x] + b;
    assert ([page] + later)[0] == page;
    assert IsBoundary(page[|a|], parse, since);
    BoundaryCutsPage(a, x, b, parse, since);
  }

  lemma {:induction false} BoundaryCutsPage(a: seq<Snip>, x: Snip, b: seq<Snip>, parse: Parser, since: int)
    requires IsBoundary(x, parse, since)
    ensures PageWindow(a + [x] + b, parse, since) == PageWindow(a, parse, since)
    decreases |a|
  {
    if a != [] {
      assert (a + [x] + b)[1..] == a[1..] + [x] + b;
      BoundaryCutsPage(a[1..], x, b, parse, since);
    }
  }

  // ---------------------------------------------------------------------------
  // A feed whose page 0 keeps answering with the same items.

  /** n copies of `w`, one after the other. */
  function Copies(w: seq<Snip>, n: nat): seq<Snip>
    decreases n
  {
    if n == 0 then [] else w + Copies(w, n - 1)
  }

  /**
   * Every fetch asks for page 0. When page 0 is non-empty and holds no boundary
   * item, a server that answers that request the same way n times before
   * answering with an empty page makes the collector return page 0's items n
   * times over.
   */
  lemma {:induction false} PageZeroRepeated(page: seq<Snip>, n: nat, parse: Parser, since: int)
    requires page != [] && !HasBoundary(page, parse, since)
    ensures Collected(seq(n, _ => page) + [[]], parse, since) == Copies(PageWindow(page, parse, since), n)
    decreases n
  {
    var rs := seq(n, _ => page) + [[]];
    if n == 0 {
      assert rs[0] == [];
    } else {
      assert rs[0] == page;
      assert rs[1..] == seq(n - 1, _ => page) + [[]];
      PageZeroRepeated(page, n - 1, parse, since);
    }
  }

  /**
   * The inner loop of the collector: scans one fetched page in order, skipping
   * items whose timestamp does not parse, appending the others, and stopping at
   * the first item strictly before `since`, which it reports in `shouldBreak`.
   */
  method ScanPage(ss: seq<Snip>, parse: Parser, since: int) returns (kept: seq<Snip>, shouldBreak: bool)
    ensures kept == PageWindow(ss, parse, since)
    ensures shouldBreak <==> HasBoundary(ss, parse, since)
  {
    kept := [];
    shouldBreak := false;
    for i := 0 to |ss|
      invariant kept + PageWindow(ss[i..], parse, since) == PageWindow(ss, parse, since)
      invariant forall j :: 0 <= j < i ==> !IsBoundary(ss[j], parse, since)
    {
      var s := ss[i];
      assert ss[i..][0] == s && ss[i..][1..] == ss[i + 1..];
      match parse(s.createdAt) {
        case None =>
          continue;
        case Some(c) =>
          if c < since {
            shouldBreak := true;
            assert IsBoundary(ss[i], parse, since);
            return;
          }
          kept := kept + [s];
      }
    }
    assert ss[|ss|..] == [];
  }

  /**
   * The collector as evidently intended: page number n is requested on the
   * n-th fetch. The server answers page n < |pages| with pages[n] and every
   * later page with no items. Always terminates, after as many fetches as
   * the collection of the pages followed by an empty answer takes; the result
   * is Collected over the server's pages, each page fetched once.
   */
  method GetSnipsSincePaged(pages: seq<seq<Snip>>, parse: Parser, since: int)
    returns (snips: seq<Snip>, requested: seq<int>)
    ensures 0 < |requested| <= |pages| + 1
    ensures |requested| == Calls(pages + [[]], parse, since)
    ensures forall j :: 0 <= j < |requested| ==> requested[j] == j
    ensures snips == Collected(pages, parse, since)
  {
    snips := [];
    requested := [];
    var currPage := 0;
    ghost var all := pages + [[]];
    while true
      invariant 0 <= currPage <= |pages|
      invariant |requested| == currPage
      invariant currPage + Calls(all[currPage..], parse, since) == Calls(all, parse, since)
      invariant forall j :: 0 <= j < currPage ==> requested[j] == j
      invariant snips + Collected(pages[currPage..], parse, since) == Collected(pages, parse, since)
      decreases |pages| - currPage
    {
      ghost var rest := pages[currPage..];
      var ss: seq<Snip> := [];
      if currPage < |pages| {
        ss := pages[currPage];
        assert rest[0] == ss;
      }
      assert all[currPage..][0] == ss;
      assert all[currPage..][1..] == all[currPage + 1..];
      requested := requested + [currPage];
      if |ss| == 0 {
        assert Collected(rest, parse, since) == [];
        break;
      }
      assert rest[1..] == pages[currPage + 1..];
      assert Collected(rest, parse, since)
          == PageWindow(ss, parse, since) + if HasBoundary(ss, parse, since) then [] else Collected(rest[1..], parse, since);
      var kept, shouldBreak := ScanPage(ss, parse, since);
      snips := snips + kept;
      if shouldBreak {
        break;
      }
      currPage := currPage + 1;
    }
  }
}
