# snips notifier: the window collector and the tick pipeline

The program polls the public feed of a snips instance. The feed is paged,
newest snip first. On every tick it collects the snips created in the last
hour. It then announces each one that has a name and has not been announced
before. Dedup works through a Redis key per snip ID. Announcements go to a
chat sender, and each announced ID is stored with the tick's Unix second.

The model has four modules:

- `Wrappers`: an `Option` type for a timestamp parse that may fail.
- `Feed`: the `Snip` record and the specification of the collector:
  - `PageWindow` is what one page contributes.
  - `Collected` is what a whole sequence of fetch responses yields.
  - `Calls` is how many fetches are made.
  - `EventuallyEnds` says when the loop stops.
  
  It also holds the per-page scan `ScanPage` and the corrected, paged
  collector `GetSnipsSincePaged`.
- `Cmd`: `getSnipsSince` and `handleTick` of `cmd/root.go`. The per-snip body
  of the tick loop is `VisitSnip`. The loop over a collected batch is
  `ProcessBatch`. The whole tick is `HandleTick`.
- `Snips`: the `Client` of `pkg/snips/snips.go`, with its constructor `New`
  and its copy of the collector.

Modelling choices:

- **Fetches.** The page fetch is an oracle `responses: seq<seq<Snip>>`: the
  k-th fetch of a collection receives `responses[k]`. A fetch that fails a
  check it makes (bad URL, transport error, non-2xx status, unreadable body)
  returns the empty slice in the source, so it is simply an empty response.
  A JSON decode error is ignored and can leave a partly decoded page, which
  the oracle also covers, since any page is a possible response. The page
  numbers the collector asks for are returned as `requested`.
- **Timestamps.** Parsing a `created_at` text (RFC 3339, through
  `time.Time.UnmarshalText`) is an abstract `Parser = string ->
  Option<int>`, with instants as integers in nanoseconds. `c.Before(since)`
  is `c < since`.
- **Redis.** The keyspace is a `map<string, int>` threaded through the tick.
  Whether the GET for the i-th snip of the batch fails with an error other
  than `redis.Nil` is the oracle `lookupFails(i)`.
- **Sender.** The sender is the sequence of message texts handed to it.
- **Time.** `time.Now()` is one parameter `now` per tick. The lookback is
  `now - HOUR`, and the stored value is `now / SECOND`.

Where the two collectors are the same code, they share one specification.
`getSnipsSince` (root.go) and `Client.GetSnipsSince` (snips.go) are identical
apart from the fetch call, and both are proved to return exactly `Collected` after
exactly `Calls` fetches, every one of them for page 0.

## Model

| member | source | states |
|---|---|---|
| Feed.ScanPage | cmd/root.go:220-236 | One page is scanned in order: unparseable items are skipped, items at or after `since` are kept, and the scan stops at the first item strictly before `since`. The result is `PageWindow(page)`, and the break flag is set exactly when the page holds such a boundary item. |
| Cmd.GetSnipsSince | cmd/root.go:203-245 | Given a feed that eventually answers with an empty page or a page with a boundary item: it fetches exactly `Calls` times, every fetch is for page 0, and the result is `Collected`. Every returned snip parses to an instant at or after `since`. An empty first page gives an empty result. |
| Snips.Client.GetSnipsSince | pkg/snips/snips.go:84-126 | The same as `Cmd.GetSnipsSince`: exactly `Calls` fetches, all for page 0; the result is `Collected`, and every item in it is in the window. |
| Snips.Client.New | pkg/snips/snips.go:31-35 | The new client holds the given instance URI. |
| Feed.CollectedIsFilteredPrefix | cmd/root.go:211-242 | `Collected` equals an independent reference definition. Concatenate the responses up to the first one that ends the loop. Cut that stream at its first parseable item before `since`. Drop the unparseable items. |
| Feed.CollectedInWindow | cmd/root.go:228-235 | Every collected snip has a parseable creation time, and that time is not before `since`. |
| Feed.PageWindowIsFilteredPrefix | cmd/root.go:220-236 | A page contributes its parseable items up to its first boundary item, and nothing from the boundary on. |
| Feed.UnparseableSkipped | cmd/root.go:221-226 | An item whose timestamp does not parse changes nothing: the page yields the same as without it, and the scan continues past it. |
| Feed.BoundaryEndsCollection | cmd/root.go:229-232 | Once a page holds a boundary item, the collection yields that page's items before it and nothing from later responses. |
| Feed.BoundaryCutsPage | cmd/root.go:229-235 | A boundary item cuts its page: the page yields exactly what the items before it yield. |
| Feed.EventuallyEndsIff | cmd/root.go:211-218 | The loop's termination condition holds exactly when some response is empty or holds a boundary item. |
| Feed.CallsAtFirstEnd | cmd/root.go:211-218 | The number of fetches is one more than the index of the first response that is empty or holds a boundary item. |
| Feed.PageZeroRepeated | cmd/root.go:208-213 | As written, a full page 0 with no boundary is fetched again and again. If the feed keeps serving it n times before an empty answer, its window is collected n times over. |
| Feed.GetSnipsSincePaged | cmd/root.go:203-245 | The corrected collector fetches pages 0, 1, 2, … in order, each exactly once. It stops at the first empty page, at a page with a boundary item, or when the pages run out: the number of fetches is `Calls` over the pages followed by an empty answer. Its result is `Collected(pages)`. |
| Cmd.Message | cmd/root.go:129 | The announcement text for a snip: `New snip! **` + name + `:** ` + instance URI + `/f/` + ID. Its length, its prefix, the name slice and the `/f/`-ID suffix are fixed. |
| Cmd.Get | cmd/root.go:123-124 | A lookup answers "not found" (`redis.Nil`) exactly when it does not fail and the ID is not stored. A found value is the stored one. |
| Cmd.VisitSnip | cmd/root.go:117-140 | A nameless snip is skipped without a lookup. A named snip is looked up. It is announced and its ID set to the tick's Unix second only when the lookup answers "not found". Otherwise nothing is sent and the store is unchanged. |
| Cmd.ProcessBatch | cmd/root.go:117-141 | Over a batch, in order: the named IDs are queried; the messages are those of `Notified`, the announcement specification; and the store becomes the old one with the announced IDs recorded. |
| Cmd.HandleTick | cmd/root.go:107-142 | One tick collects the window `[now - 1h, …)` and announces `Notified` of it. It records each announced ID with `now` in Unix seconds. |
| Cmd.NotifiedSound | cmd/root.go:117-141 | Every announced snip comes from the batch. It has a name, its lookup did not fail, and its ID was not stored. No ID is announced twice in a tick, even when the feed repeats a snip. |
| Cmd.NotifiedComplete | cmd/root.go:117-141 | Every named batch snip whose lookup does not fail and whose ID is not stored gets its ID announced. |
| Cmd.RecordedKeys | cmd/root.go:140 | Recording adds exactly the recorded IDs with the given value and keeps every other key's value. |
| Cmd.RecordedKeepsStore | cmd/root.go:117-141 | A tick adds exactly the announced IDs to the store. No value already stored is overwritten. |
| Cmd.TickSound | cmd/root.go:107-142 | Everything a tick announces was created within the hour before the tick. It has a name, was not in the store when the tick began, and is announced once. |

## Left out

- The HTTP fetch of a page (`getSnips` and `Client.getPage`): building the URL with a `page` query parameter, the request, the status check and the JSON decoding are the response oracle. Every failure the fetch checks for returns an empty page, which is modelled as an empty response. A JSON decode error is ignored by the fetch and can leave a partly decoded, non-empty page (a field of the wrong type is left zero); the oracle covers this too, as it allows any page.
- `Client.getPage` reads the instance URI from the configuration, not from the client's `InstanceURI` field, so the client's field does not influence what is fetched. The model reflects this: `Snips.Client.GetSnipsSince` does not use `instanceUri`.
- Timestamp parsing (RFC 3339 via `UnmarshalText`) is abstract; the model proves its properties for every parser.
- Cmd.GetSnipsSince, Snips.Client.GetSnipsSince, Cmd.HandleTick: non-termination is not modelled; a tick on a feed that never ends the collection never sends or records anything. When the feed never answers with an empty page or a page holding a boundary item, the Go loop runs forever. The model requires `EventuallyEnds` instead, and `PageZeroRepeated` shows what the repetition yields until then.
- The 5-second ticker, the goroutine per tick and process lifetime (`Execute`, `init`, cobra and viper configuration, the lazily created Redis client and sender singletons) are left out: they are scheduling and wiring, not logic.
- Sending is asynchronous in the source. The goroutine that logs a send error is left out, and a failed send does not undo the store write, which the model reflects by recording every announced ID regardless.
- The 24-hour TTL on stored keys is left out: the model's store is the keyspace at the start of the tick plus the tick's own writes, and a key that expires during a tick is treated as still present. Ticks that overlap (each runs in its own goroutine) and write the same keys concurrently are not modelled either.
- A failed Redis SET: the source ignores the SET's result, and the model takes every SET to succeed. A failed SET (for example a Redis at its memory limit that still answers GET) would leave the ID unstored, so a repeated ID could be announced again in the same tick or a later one; `Cmd.NotifiedSound`, `Cmd.RecordedKeepsStore` and `Cmd.TickSound` hold only when every SET succeeds, and the model does not capture the failing case.
- Cmd.HandleTick: one `now` serves both the lookback and the stored value; the source reads the clock separately for each SET, so the stored seconds may differ slightly from the model's.
- Logging (`slog`) is left out.
- `pkg/redis` and `pkg/shoutrrr` (client and sender construction) are not part of this model: they only wrap library constructors.

## Findings

| source | as written | input that shows it | evidently intended | confidence | as-written member | corrected member |
|---|---|---|---|---|---|---|
| cmd/root.go:208-213 (same in pkg/snips/snips.go:89-94) | `currPage` starts at 0 and is never incremented, so every fetch asks for page 0 | a feed whose page 0 is non-empty and all of whose items are within the last hour: page 0 is fetched again forever, and its snips are appended on every round | fetch pages 0, 1, 2, … until an empty page or an item older than the window | not executed | Feed.PageZeroRepeated | Feed.GetSnipsSincePaged |

`Cmd.GetSnipsSince` and `Snips.Client.GetSnipsSince` keep the as-written
behaviour: every `requested` page is 0. `Cmd.ProcessBatch` takes the
collected batch as input. Its properties (`NotifiedSound`,
`RecordedKeepsStore`) therefore hold for a batch from either collector, and
they also hold for the repeated batch of the as-written one: a snip repeated
within a tick is announced only once.
