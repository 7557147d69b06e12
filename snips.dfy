/**
 * The feed client of pkg/snips/snips.go. Its GetSnipsSince is a copy of the
 * collector in cmd/root.go; the fetcher is the same oracle (`responses[k]` is
 * what the k-th fetch gets). The page fetch reads the instance URI from the
 * configuration rather than from the client, so the client's field plays no
 * part in what is collected.
 */
module Snips {
  import opened Wrappers
  import opened Feed

  class Client {
    const instanceUri: string

    /** New: a client for the given instance, holding nothing else. */
    constructor New(instanceUri: string)
      ensures this.instanceUri == instanceUri
    {
      this.instanceUri := instanceUri;
    }

    /**
     * The page number starts at 0 and is never advanced, so every fetch asks
     * for page 0. The loop ends at the first response that is empty or holds
     * an item strictly before `since`; the precondition says that such a
     * response comes.
     */
    method GetSnipsSince(responses: seq<seq<Snip>>, parse: Parser, since: int)
      returns (snips: seq<Snip>, requested: seq<int>)
      requires EventuallyEnds(responses, parse, since)
      ensures |requested| == Calls(responses, parse, since)
      ensures forall j :: 0 <= j < |requested| ==> requested[j] == 0
      ensures snips == Collected(responses, parse, since)
      ensures forall k :: 0 <= k < |snips| ==> InWindow(snips[k], parse, since)
    {
      snips := [];
      requested := [];
      var currPage := 0;
      var call := 0;
      CollectingStart(responses, parse, since);
      while true
        invariant Collecting(responses, parse, since, call, snips)
        invariant currPage == 0 && |requested| == call
        invariant forall j :: 0 <= j < call ==> requested[j] == 0
        decreases |responses| - call
      {
        // fetch page currPage; the oracle answers this call with responses[call]
        var ss := responses[call];
        requested := requested + [currPage];
        if |ss| == 0 {
          // an empty page ends the collection with what has been gathered
          CollectingEnd(responses, parse, since, call, snips);
          break;
        }
        var kept, shouldBreak := ScanPage(ss, parse, since);
        if shouldBreak {
          CollectingEnd(responses, parse, since, call, snips);
          snips := snips + kept;
          break;
        }
        CollectingAdvance(responses, parse, since, call, snips);
        snips := snips + kept;
        call := call + 1;
      }
      CollectedInWindow(responses, parse, since);
    }
  }
}
