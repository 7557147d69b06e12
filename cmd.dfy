/**
 * The polling command of cmd/root.go: the window collector getSnipsSince and
 * the per-tick pipeline handleTick, which skips nameless snips, asks the dedup
 * store about each remaining ID, announces the ones it has not seen and records
 * them.
 *
 * The feed fetcher is an oracle: `responses[k]` is what the k-th fetch gets.
 * The Redis keyspace is a `map<string, int>` threaded through the tick; whether
 * the lookup for the i-th snip of the batch fails is the oracle `lookupFails(i)`.
 * The chat sender is the sequence of messages handed to it.
 */
module Cmd {
  import opened Wrappers
  import opened Feed

  /** The lookback of a tick, time.Hour, in nanoseconds (the unit of instants here). */
  const HOUR: int := 3_600_000_000_000

  /** Nanoseconds per second, for time.Time.Unix. */
  const SECOND: int := 1_000_000_000

  /**
   * getSnipsSince as written: the page number starts at 0 and is never
   * advanced, so every fetch asks for page 0. The loop ends at the first
   * response that is empty or holds an item strictly before `since`; the
   * precondition says that such a response comes.
   */
  method GetSnipsSince(responses: seq<seq<Snip>>, parse: Parser, since: int)
    returns (snips: seq<Snip>, requested: seq<int>)
    requires EventuallyEnds(responses, parse, since)
    ensures |requested| == Calls(responses, parse, since)
    ensures forall j :: 0 <= j < |requested| ==> requested[j] == 0
    ensures snips == Collected(responses, parse, since)
    ensures forall k :: 0 <= k < |snips| ==> InWindow(snips[k], parse, since)
    ensures responses[0] == [] ==> snips == []
  {
    snips := [];
    requested := [];
    var currPage := 0;
    var call := 0;
    CollectingStart(responses, parse, since);
    while true
      invariant Collecting(responses, parse, since, call, snips)
      invariant currPage == 0 && |requested| == call
      invariant forall j :: 0 <= j < call ==> requested[j] == 0
      decreases |responses| - call
    {
      // fetch page currPage; the oracle answers this call with responses[call]
      var ss := responses[call];
      requested := requested + [currPage];
      if |ss| == 0 {
        // an empty page ends the collection with what has been gathered
        CollectingEnd(responses, parse, since, call, snips);
        break;
      }
      var kept, shouldBreak := ScanPage(ss, parse, since);
      if shouldBreak {
        CollectingEnd(responses, parse, since, call, snips);
        snips := snips + kept;
        break;
      }
      CollectingAdvance(responses, parse, since, call, snips);
      snips := snips + kept;
      call := call + 1;
    }
    CollectedInWindow(responses, parse, since);
  }

  /** The announcement for a snip: the instance URI comes from the configuration. */
  function Message(instanceUri: string, s: Snip): (m: string)
    ensures |m| == 12 + |s.name| + 4 + |instanceUri| + 3 + |s.id|
    ensures m[..12] == "New snip! **" && m[12..12 + |s.name|] == s.name
    ensures m[|m| - |s.id| - 3..] == "/f/" + s.id
  {
    "New snip! **" + s.name + ":** " + instanceUri + "/f/" + s.id
  }

  /** The messages handed to the sender for the snips `xs`, in order. */
  function Messages(instanceUri: string, xs: seq<Snip>): seq<string>
    decreases |xs|
  {
    if xs == [] then []
    else Messages(instanceUri, xs[..|xs| - 1]) + [Message(instanceUri, xs[|xs| - 1])]
  }

  /** The store after the IDs of `sent` have been set to `value`, one after the other. */
  function Recorded(store: map<string, int>, sent: seq<Snip>, value: int): map<string, int>
    decreases |sent|
  {
    if sent == [] then store
    else Recorded(store, sent[..|sent| - 1], value)[sent[|sent| - 1].id := value]
  }

  /** Recording adds exactly the recorded IDs, with the recorded value, and keeps every other key. */
  lemma {:induction false} RecordedKeys(store: map<string, int>, sent: seq<Snip>, value: int)
    ensures Recorded(store, sent, value).Keys == store.Keys + Ids(sent)
    ensures forall id :: id in Ids(sent) ==> Recorded(store, sent, value)[id] == value
    ensures forall id :: id in store && id !in Ids(sent) ==> Recorded(store, sent, value)[id] == store[id]
    decreases |sent|
  {
    if sent != [] {
      var init := sent[..|sent| - 1];
      RecordedKeys(store, init, value);
      assert sent == init + [sent[|sent| - 1]];
      IdsSnoc(init, sent[|sent| - 1]);
    }
  }

  /** The answer of a Redis GET: the stored value, redis.Nil, or any other error. */
  datatype Lookup = Found(value: int) | NotFound | Error

  function Get(store: map<string, int>, id: string, fails: bool): (r: Lookup)
    ensures r.NotFound? <==> !fails && id !in store
    ensures r.Found? ==> id in store && r.value == store[id]
  {
    if fails then Error else if id in store then Found(store[id]) else NotFound
  }

  /** The IDs of a sequence of snips. */
  function Ids(xs: seq<Snip>): set<string>
  {
    set k | 0 <= k < |xs| :: xs[k].id
  }

  /** No two snips of `xs` share an ID. */
  predicate DistinctIds(xs: seq<Snip>)
  {
    forall j, k :: 0 <= j < k < |xs| ==> xs[j].id != xs[k].id
  }

  /** The IDs the tick looks up: those of the snips with a name, in batch order. */
  function Queried(batch: seq<Snip>): seq<string>
    decreases |batch|
  {
    if batch == [] then []
    else
      var last := batch[|batch| - 1];
      Queried(batch[..|batch| - 1]) + (if last.name != "" then [last.id] else [])
  }

  /** Whether the snip is announced when the keys `seen` are in the store and its lookup fails or not. */
  predicate Announced(s: Snip, lookupFails: bool, seen: set<string>)
  {
    s.name != "" && !lookupFails && s.id !in seen
  }

  /**
   * The snips a tick announces, from batch position i on, when the keys in
   * `seen` are in the store: a snip is announced when it has a name, its
   * lookup does not fail and its ID is not (yet) stored; an announced ID is
   * stored before the next snip is looked at.
   */

  function NotifiedFrom(batch: seq<Snip>, lookupFails: nat -> bool, i: nat, seen: set<string>): seq<Snip>
    requires i <= |batch|
    decreases |batch| - i
  {
    if i == |batch| then []
    else
      var s := batch[i];
      if Announced(s, lookupFails(i), seen) then [s] + NotifiedFrom(batch, lookupFails, i + 1, seen + {s.id})
      else NotifiedFrom(batch, lookupFails, i + 1, seen)
  }

  function Notified(batch: seq<Snip>, lookupFails: nat -> bool, seen: set<string>): seq<Snip>
  {
    NotifiedFrom(batch, lookupFails, 0, seen)
  }

  /**
   * Every announced snip has a name, a lookup that did not fail and an ID
   * that was not stored; it comes from the batch; and no ID is announced twice.
   */
  lemma {:induction false} NotifiedSound(batch: seq<Snip>, lookupFails: nat -> bool, i: nat, seen: set<string>)
    requires i <= |batch|
    ensures forall s <- NotifiedFrom(batch, lookupFails, i, seen) :: s.name != "" && s.id !in seen
    ensures forall s <- NotifiedFrom(batch, lookupFails, i, seen) ::
              exists m :: i <= m < |batch| && batch[m] == s && !lookupFails(m)
    ensures DistinctIds(NotifiedFrom(batch, lookupFails, i, seen))
    decreases |batch| - i
  {
    var r := NotifiedFrom(batch, lookupFails, i, seen);
    if i < |batch| {
      var s := batch[i];
      if s.name == "" || lookupFails(i) || s.id in seen {
        NotifiedSound(batch, lookupFails, i + 1, seen);
        assert r == NotifiedFrom(batch, lookupFails, i + 1, seen);
      } else {
        NotifiedSound(batch, lookupFails, i + 1, seen + {s.id});
        var t := NotifiedFrom(batch, lookupFails, i + 1, seen + {s.id});
        assert r == [s] + t;
        forall x <- r
          ensures x.name != "" && x.id !in seen
          ensures exists m :: i <= m < |batch| && batch[m] == x && !lookupFails(m)
        {
          if x == s {
            assert batch[i] == x;
          } else {
            assert x in t;
          }
        }
        forall j, k | 0 <= j < k < |r| ensures r[j].id != r[k].id {
          assert r[k] == t[k - 1] && t[k - 1] in t;
          if j > 0 {
            assert r[j] == t[j - 1];
          }
        }
        assert DistinctIds(r);
      }
    }
  }

  /** One step of the announcement loop. */
  lemma NotifiedStep(batch: seq<Snip>, lookupFails: nat -> bool, i: nat, seen: set<string>)
    requires i < |batch|
    ensures var s := batch[i];
      NotifiedFrom(batch, lookupFails, i, seen)
      == if Announced(s, lookupFails(i), seen) then [s] + NotifiedFrom(batch, lookupFails, i + 1, seen + {s.id})
         else NotifiedFrom(batch, lookupFails, i + 1, seen)
  {
  }

  /**
   * Every snip of the batch that has a name, whose lookup does not fail and
   * whose ID is not stored gets its ID announced (by it or by an earlier snip
   * with the same ID).
   */
  lemma {:induction false} NotifiedComplete(batch: seq<Snip>, lookupFails: nat -> bool, i: nat, seen: set<string>)
    requires i <= |batch|
    ensures forall m :: i <= m < |batch| && batch[m].name != "" && !lookupFails(m) && batch[m].id !in seen ==>
              batch[m].id in Ids(NotifiedFrom(batch, lookupFails, i, seen))
    decreases |batch| - i
  {
    if i < |batch| {
      var s := batch[i];
      if s.name == "" || lookupFails(i) || s.id in seen {
        NotifiedComplete(batch, lookupFails, i + 1, seen);
      } else {
        NotifiedComplete(batch, lookupFails, i + 1, seen + {s.id});
        var t := NotifiedFrom(batch, lookupFails, i + 1, seen + {s.id});
        IdsCons(s, t);
      }
    }
  }

  lemma IdsCons(s: Snip, t: seq<Snip>)
    ensures Ids([s] + t) == {s.id} + Ids(t)
  {
    var r := [s] + t;
    assert r[0] == s;
    forall id | id in Ids(t) ensures id in Ids(r) {
      var k :| 0 <= k < |t| && t[k].id == id;
      assert r[k + 1] == t[k];
    }
    forall id | id in Ids(r) ensures id in {s.id} + Ids(t) {
      var k :| 0 <= k < |r| && r[k].id == id;
      if k > 0 {
        assert r[k] == t[k - 1];
      }
    }
  }

  lemma IdsSnoc(t: seq<Snip>, s: Snip)
    ensures Ids(t + [s]) == Ids(t) + {s.id}
  {
    var r := t + [s];
    assert r[|t|] == s;
    forall id | id in Ids(t) ensures id in Ids(r) {
      var k :| 0 <= k < |t| && t[k].id == id;
      assert r[k] == t[k];
    }
    forall id | id in Ids(r) ensures id in Ids(t) + {s.id} {
      var k :| 0 <= k < |r| && r[k].id == id;
      if k < |t| {
        assert r[k] == t[k];
      }
    }
  }

  /**
   * The body of handleTick's loop for one snip. A nameless snip is skipped
   * before any lookup; a snip is announced only when the lookup answers
   * redis.Nil, and its ID is then stored with the value `nowUnix`, whatever
   * becomes of the send.
   */
  method VisitSnip(s: Snip, lookupFails: bool, store: map<string, int>, instanceUri: string, nowUnix: int)
    returns (sent: seq<string>, queried: seq<string>, newStore: map<string, int>)
    ensures queried == if s.name != "" then [s.id] else []
    ensures Announced(s, lookupFails, store.Keys) ==> sent == [Message(instanceUri, s)] && newStore == store[s.id := nowUnix]
    ensures !Announced(s, lookupFails, store.Keys) ==> sent == [] && newStore == store
  {
    sent, queried, newStore := [], [], store;
    if s.name == "" {
      return;
    }
    queried := [s.id];
    var r := Get(store, s.id, lookupFails);
    if !r.NotFound? {
      // already announced, or the store could not be asked
      return;
    }
    sent := [Message(instanceUri, s)];
    newStore := store[s.id := nowUnix];
  }

  lemma QueriedSnoc(batch: seq<Snip>, i: nat)
    requires i < |batch|
    ensures Queried(batch[..i + 1]) == Queried(batch[..i]) + if batch[i].name != "" then [batch[i].id] else []
  {
    assert batch[..i + 1][..i] == batch[..i];
  }

  lemma SentSnoc(store: map<string, int>, sent: seq<Snip>, s: Snip, instanceUri: string, value: int)
    ensures Recorded(store, sent + [s], value) == Recorded(store, sent, value)[s.id := value]
    ensures Messages(instanceUri, sent + [s]) == Messages(instanceUri, sent) + [Message(instanceUri, s)]
  {
    assert (sent + [s])[..|sent|] == sent;
  }

  /**
   * What the loop of handleTick keeps true after the first i snips of the
   * batch: `sent` are the snips announced so far, the rest of the batch will
   * announce what Notified says is left, and the outputs are those of `sent`.
   */
  ghost predicate TickInvariant(batch: seq<Snip>, lookupFails: nat -> bool, store: map<string, int>,
                                instanceUri: string, nowUnix: int, i: nat, sent: seq<Snip>,
                                messages: seq<string>, queried: seq<string>, newStore: map<string, int>)
  {
    && i <= |batch|
    && Notified(batch, lookupFails, store.Keys) == sent + NotifiedFrom(batch, lookupFails, i, newStore.Keys)
    && newStore == Recorded(store, sent, nowUnix)
    && messages == Messages(instanceUri, sent)
    && queried == Queried(batch[..i])
  }

  /** One snip visited keeps the loop's invariant. */
  lemma TickStep(batch: seq<Snip>, lookupFails: nat -> bool, store: map<string, int>,
                 instanceUri: string, nowUnix: int, i: nat, sent: seq<Snip>,
                 messages: seq<string>, queried: seq<string>, newStore: map<string, int>,
                 m: seq<string>, q: seq<string>, st: map<string, int>)
    requires i < |batch|
    requires TickInvariant(batch, lookupFails, store, instanceUri, nowUnix, i, sent, messages, queried, newStore)
    requires q == if batch[i].name != "" then [batch[i].id] else []
    requires Announced(batch[i], lookupFails(i), newStore.Keys) ==>
               m == [Message(instanceUri, batch[i])] && st == newStore[batch[i].id := nowUnix]
    requires !Announced(batch[i], lookupFails(i), newStore.Keys) ==> m == [] && st == newStore
    ensures TickInvariant(batch, lookupFails, store, instanceUri, nowUnix, i + 1,
                          if Announced(batch[i], lookupFails(i), newStore.Keys) then sent + [batch[i]] else sent,
                          messages + m, queried + q, st)
  {
    QueriedSnoc(batch, i);
    NotifiedStep(batch, lookupFails, i, newStore.Keys);
    if Announced(batch[i], lookupFails(i), newStore.Keys) {
      NotifiedAdvance(batch, lookupFails, i, sent, newStore.Keys, Notified(batch, lookupFails, store.Keys));
      assert st.Keys == newStore.Keys + {batch[i].id};
      SentSnoc(store, sent, batch[i], instanceUri, nowUnix);
    }
  }

  lemma NotifiedAdvance(batch: seq<Snip>, lookupFails: nat -> bool, i: nat, sent: seq<Snip>,
                        seen: set<string>, whole: seq<Snip>)
    requires i < |batch|
    requires whole == sent + NotifiedFrom(batch, lookupFails, i, seen)
    requires Announced(batch[i], lookupFails(i), seen)
    ensures whole == (sent + [batch[i]]) + NotifiedFrom(batch, lookupFails, i + 1, seen + {batch[i].id})
  {
    NotifiedStep(batch, lookupFails, i, seen);
    var tail := NotifiedFrom(batch, lookupFails, i + 1, seen + {batch[i].id});
    assert sent + ([batch[i]] + tail) == (sent + [batch[i]]) + tail;
  }

  /** The loop of handleTick over an already collected batch, in batch order. */
  method ProcessBatch(batch: seq<Snip>, lookupFails: nat -> bool, store: map<string, int>,
                      instanceUri: string, nowUnix: int)
    returns (messages: seq<string>, queried: seq<string>, newStore: map<string, int>)
    ensures queried == Queried(batch)
    ensures messages == Messages(instanceUri, Notified(batch, lookupFails, store.Keys))
    ensures newStore == Recorded(store, Notified(batch, lookupFails, store.Keys), nowUnix)
  {
    messages, queried, newStore := [], [], store;
    ghost var sent: seq<Snip> := [];
    for i := 0 to |batch|
      invariant TickInvariant(batch, lookupFails, store, instanceUri, nowUnix, i, sent, messages, queried, newStore)
    {
      ghost var announced := Announced(batch[i], lookupFails(i), newStore.Keys);
      var m, q, st := VisitSnip(batch[i], lookupFails(i), newStore, instanceUri, nowUnix);
      TickStep(batch, lookupFails, store, instanceUri, nowUnix, i, sent, messages, queried, newStore, m, q, st);
      messages, queried, newStore := messages + m, queried + q, st;
      if announced {
        sent := sent + [batch[i]];
      }
    }
    assert batch[..|batch|] == batch;
    assert NotifiedFrom(batch, lookupFails, |batch|, newStore.Keys) == [];
    assert Notified(batch, lookupFails, store.Keys) == sent + [] == sent;
  }

  /**
   * What a tick writes to the store: exactly the announced IDs are added, and
   * no key that was already stored changes its value.
   */
  lemma RecordedKeepsStore(batch: seq<Snip>, lookupFails: nat -> bool, store: map<string, int>, value: int)
    ensures var r := Recorded(store, Notified(batch, lookupFails, store.Keys), value);
      && r.Keys == store.Keys + Ids(Notified(batch, lookupFails, store.Keys))
      && forall id :: id in store ==> r[id] == store[id]
  {
    var sent := Notified(batch, lookupFails, store.Keys);
    NotifiedSound(batch, lookupFails, 0, store.Keys);
    RecordedKeys(store, sent, value);
    forall id | id in Ids(sent) ensures id !in store {
      var k :| 0 <= k < |sent| && sent[k].id == id;
      assert sent[k] in sent;
    }
  }

  /**
   * One tick: collect the snips of the last hour, then run the batch loop.
   * `now` is the instant the tick starts; the stored value is its Unix second.
   */
  method HandleTick(responses: seq<seq<Snip>>, parse: Parser, now: int, lookupFails: nat -> bool,
                    store: map<string, int>, instanceUri: string)
    returns (messages: seq<string>, newStore: map<string, int>)
    requires EventuallyEnds(responses, parse, now - HOUR)
    ensures var sent := Notified(Collected(responses, parse, now - HOUR), lookupFails, store.Keys);
      && messages == Messages(instanceUri, sent)
      && newStore == Recorded(store, sent, now / SECOND)
  {
    var snips, _ := GetSnipsSince(responses, parse, now - HOUR);
    var queried;
    messages, queried, newStore := ProcessBatch(snips, lookupFails, store, instanceUri, now / SECOND);
  }

  /**
   * Everything a tick announces was created within the hour before the tick,
   * has a name, was not in the store when the tick began, and is announced
   * once.
   */
  lemma TickSound(responses: seq<seq<Snip>>, parse: Parser, now: int, lookupFails: nat -> bool,
                  store: map<string, int>)
    ensures var sent := Notified(Collected(responses, parse, now - HOUR), lookupFails, store.Keys);
      && (forall k :: 0 <= k < |sent| ==>
            InWindow(sent[k], parse, now - HOUR) && sent[k].name != "" && sent[k].id !in store)
      && DistinctIds(sent)
  {
    var batch := Collected(responses, parse, now - HOUR);
    var sent := Notified(batch, lookupFails, store.Keys);
    CollectedInWindow(responses, parse, now - HOUR);
    NotifiedSound(batch, lookupFails, 0, store.Keys);
    forall k | 0 <= k < |sent|
      ensures InWindow(sent[k], parse, now - HOUR) && sent[k].name != "" && sent[k].id !in store
    {
      assert sent[k] in sent;
      var m :| 0 <= m < |batch| && batch[m] == sent[k] && !lookupFails(m);
    }
  }
}
