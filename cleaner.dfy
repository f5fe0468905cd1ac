/**
 * The clean-up pass over the failed-message store: page after page, the
 * messages with more than `MaxAttemptsPerMessage` processing attempts are
 * loaded, each one's attempts are cut to the most recent ones, and the page is
 * saved back, until a query returns an empty page.
 */
module FailedMessageCleaner {
  import opened ProcessingAttempts

  /** The number of messages loaded and saved per session. */
  const PageSize: nat := 15
  /** The number of attempts kept per message, and the selection threshold. */
  const MaxAttemptsPerMessage: nat := 10

  datatype FailedMessage = FailedMessage(uniqueMessageId: string, processingAttempts: seq<ProcessingAttempt>)

  /** The query's filter: strictly more attempts than the threshold. */
  predicate IsOverThreshold(m: FailedMessage)
  {
    |m.processingAttempts| > MaxAttemptsPerMessage
  }

  /** What the pass does to one message: a selected message gets its
    * truncated attempts, any other message is left as it is. */
  function Clean(m: FailedMessage): (r: FailedMessage)
  {
    if IsOverThreshold(m) then m.(processingAttempts := TruncateAttempts(m.processingAttempts, MaxAttemptsPerMessage))
    else m
  }

  /** What the whole pass does to the store. */
  function CleanedStore(docs: seq<FailedMessage>): (r: seq<FailedMessage>)
  {
    seq(|docs|, i requires 0 <= i < |docs| => Clean(docs[i]))
  }

  /** The positions of the store's messages that the query's filter matches. */
  function OverThresholdPositions(docs: seq<FailedMessage>): (r: set<nat>)
  {
    set i: nat | i < |docs| && IsOverThreshold(docs[i])
  }

  predicate Distinct(p: seq<nat>)
  {
    forall j, k :: 0 <= j < k < |p| ==> p[j] != p[k]
  }

  /** The positions a page holds. */
  function Positions(p: seq<nat>): (r: set<nat>)
  {
    set x | x in p
  }

  /** A page the query may return, in whatever order the store keeps its
    * documents: `Take(limit)` of the matching messages, each at most once. */
  predicate IsPage(docs: seq<FailedMessage>, page: seq<nat>, limit: nat)
  {
    && |page| == Min(limit, |OverThresholdPositions(docs)|)
    && (forall j :: 0 <= j < |page| ==> page[j] < |docs| && IsOverThreshold(docs[page[j]]))
    && Distinct(page)
  }

  // ---------------------------------------------------------------------------
  // One message

  /** A message the query selects ends with exactly `MaxAttemptsPerMessage`
    * attempts, the most recent ones in stable descending order, and keeps its
    * id; a message at or under the threshold is not changed at all. Either
    * way the result is no longer over the threshold. */
  lemma CleanMessage(m: FailedMessage)
    ensures Clean(m).uniqueMessageId == m.uniqueMessageId
    ensures !IsOverThreshold(Clean(m))
    ensures IsOverThreshold(m) ==> |Clean(m).processingAttempts| == MaxAttemptsPerMessage
    ensures IsOverThreshold(m) ==> SortedDescending(Clean(m).processingAttempts)
    ensures IsOverThreshold(m) ==> multiset(Clean(m).processingAttempts) <= multiset(m.processingAttempts)
    ensures !IsOverThreshold(m) ==> Clean(m) == m
  {
    if IsOverThreshold(m) {
      TruncateLength(m.processingAttempts, MaxAttemptsPerMessage);
      TruncateSortedDescending(m.processingAttempts, MaxAttemptsPerMessage);
      TruncateSubMultiset(m.processingAttempts, MaxAttemptsPerMessage);
    }
  }

  /** Cleaning a message twice is cleaning it once. */
  lemma CleanIsIdempotent(m: FailedMessage)
    ensures Clean(Clean(m)) == Clean(m)
  {
    CleanMessage(m);
  }

  // ---------------------------------------------------------------------------
  // The whole store

  /** After the pass no message is over the threshold, and every message
    * keeps its position and id. */
  lemma CleanedStoreHasNoneOverThreshold(docs: seq<FailedMessage>)
    ensures |CleanedStore(docs)| == |docs|
    ensures OverThresholdPositions(CleanedStore(docs)) == {}
    ensures forall i :: 0 <= i < |docs| ==> CleanedStore(docs)[i].uniqueMessageId == docs[i].uniqueMessageId
  {
    forall i | 0 <= i < |docs|
      ensures !IsOverThreshold(CleanedStore(docs)[i])
      ensures CleanedStore(docs)[i].uniqueMessageId == docs[i].uniqueMessageId
    {
      CleanMessage(docs[i]);
    }
  }

  /** A store with no message over the threshold is left as it is. */
  lemma CleanStoreIsUnchanged(docs: seq<FailedMessage>)
    requires OverThresholdPositions(docs) == {}
    ensures CleanedStore(docs) == docs
  {
    forall i | 0 <= i < |docs|
      ensures CleanedStore(docs)[i] == docs[i]
    {
      assert i !in OverThresholdPositions(docs);
    }
  }

  /** Running the pass on a store it has already cleaned changes nothing. */
  lemma CleanedStoreIsIdempotent(docs: seq<FailedMessage>)
    ensures CleanedStore(CleanedStore(docs)) == CleanedStore(docs)
  {
    CleanedStoreHasNoneOverThreshold(docs);
    CleanStoreIsUnchanged(CleanedStore(docs));
  }

  // ---------------------------------------------------------------------------
  // Pages

  /** Some `k` distinct members of `s`, in no particular order. */
  ghost function PickDistinct(s: set<nat>, k: nat): (p: seq<nat>)
    requires k <= |s|
    ensures |p| == k && Distinct(p)
    ensures forall j :: 0 <= j < |p| ==> p[j] in s
  {
    if k == 0 then []
    else
      var x :| x in s;
      [x] + PickDistinct(s - {x}, k - 1)
  }

  lemma PageExists(docs: seq<FailedMessage>, limit: nat)
    ensures exists page :: IsPage(docs, page, limit)
  {
    var page := PickDistinct(OverThresholdPositions(docs), Min(limit, |OverThresholdPositions(docs)|));
    assert IsPage(docs, page, limit);
  }

  lemma {:induction false} DistinctCardinality(p: seq<nat>)
    requires Distinct(p)
    ensures |Positions(p)| == |p|
  {
    if p != [] {
      var rest := Positions(p[1..]);
      assert Distinct(p[1..]);
      DistinctCardinality(p[1..]);
      assert Positions(p) == {p[0]} + rest;
      assert p[0] !in rest;
      assert |{p[0]} + rest| == |rest| + 1;
    }
  }

  /** Saving a cleaned page takes exactly the page's messages out of the
    * query's reach. */
  lemma SavedPageLeavesQuery(docs: seq<FailedMessage>, saved: seq<FailedMessage>, page: seq<nat>)
    requires IsPage(docs, page, PageSize)
    requires |saved| == |docs|
    requires forall i :: 0 <= i < |docs| ==> saved[i] == if i in page then Clean(docs[i]) else docs[i]
    ensures OverThresholdPositions(saved) == OverThresholdPositions(docs) - Positions(page)
    ensures |OverThresholdPositions(saved)| == |OverThresholdPositions(docs)| - |page|
  {
    var before, taken := OverThresholdPositions(docs), Positions(page);
    forall i: nat | i < |docs|
      ensures i in OverThresholdPositions(saved) <==> i in before - taken
    {
      CleanMessage(docs[i]);
    }
    assert OverThresholdPositions(saved) == before - taken;
    DistinctCardinality(page);
    assert taken <= before;
    assert before == (before - taken) + taken;
    assert (before - taken) * taken == {};
    assert |(before - taken) + taken| == |before - taken| + |taken|;
  }

  // ---------------------------------------------------------------------------
  // The store and the pass

  /** The document store, reduced to its FailedMessage collection. */
  class DocumentStore {
    var documents: seq<FailedMessage>

    constructor (initial: seq<FailedMessage>)
      ensures documents == initial
    {
      documents := initial;
    }

    /** `Query<FailedMessage>().Where(x => x.ProcessingAttempts.Count >
      * maxAttemptsPerMessage).Take(limit)`: the positions of a page of
      * matching messages, chosen in an order the store decides. */
    method QueryOverThreshold(limit: nat) returns (page: seq<nat>)
      ensures IsPage(documents, page, limit)
    {
      PageExists(documents, limit);
      page :| IsPage(documents, page, limit);
    }

    /** Writes back the loaded messages of a page: the message at position
      * `page[k]` becomes `messages[k]`, every other message stays. */
    method SaveChanges(page: seq<nat>, messages: seq<FailedMessage>)
      requires |page| == |messages| && Distinct(page)
      requires forall j :: 0 <= j < |page| ==> page[j] < |documents|
      modifies this
      ensures |documents| == |old(documents)|
      ensures forall k :: 0 <= k < |page| ==> documents[page[k]] == messages[k]
      ensures forall i :: 0 <= i < |documents| && i !in page ==> documents[i] == old(documents[i])
    {
      var k := 0;
      while k < |page|
        invariant 0 <= k <= |page|
        invariant |documents| == |old(documents)|
        invariant forall j :: 0 <= j < k ==> documents[page[j]] == messages[j]
        invariant forall i :: 0 <= i < |documents| && i !in page[..k] ==> documents[i] == old(documents[i])
      {
        documents := documents[page[k] := messages[k]];
        k := k + 1;
      }
      assert page[..k] == page;
    }
  }

  /** The clean-up pass. Returns the number of documents scanned (`start`),
    * which is the number of messages that were over the threshold; the store
    * ends as `CleanedStore` of what it held. */
  method CleanFailedMessages(store: DocumentStore) returns (start: int)
    modifies store
    ensures start == |OverThresholdPositions(old(store.documents))|
    ensures store.documents == CleanedStore(old(store.documents))
  {
    ghost var initial := store.documents;
    start := 0;
    while true
      invariant |store.documents| == |initial|
      invariant forall i :: 0 <= i < |initial| ==>
        store.documents[i] == initial[i] || store.documents[i] == Clean(initial[i])
      invariant start + |OverThresholdPositions(store.documents)| == |OverThresholdPositions(initial)|
      decreases |OverThresholdPositions(store.documents)|
    {
      var page := store.QueryOverThreshold(PageSize);
      start := start + |page|;
      if |page| == 0 {
        forall i | 0 <= i < |initial|
          ensures store.documents[i] == Clean(initial[i])
        {
          assert i !in OverThresholdPositions(store.documents);
          CleanMessage(initial[i]);
        }
        return;
      }

      var docs := store.documents;
      var messages := seq(|page|, j requires 0 <= j < |page| => docs[page[j]]);
      var j := 0;
      while j < |messages|
        invariant 0 <= j <= |messages| == |page|
        invariant forall k :: 0 <= k < j ==> messages[k] == Clean(docs[page[k]])
        invariant forall k :: j <= k < |messages| ==> messages[k] == docs[page[k]]
      {
        messages := messages[j := messages[j].(processingAttempts :=
          TruncateAttempts(messages[j].processingAttempts, MaxAttemptsPerMessage))];
        j := j + 1;
      }

      store.SaveChanges(page, messages);
      forall i | 0 <= i < |docs|
        ensures store.documents[i] == if i in page then Clean(docs[i]) else docs[i]
        ensures store.documents[i] == initial[i] || store.documents[i] == Clean(initial[i])
      {
        if i in page {
          var k :| 0 <= k < |page| && page[k] == i;
          assert store.documents[i] == messages[k];
          CleanMessage(initial[i]);
        }
      }
      SavedPageLeavesQuery(docs, store.documents, page);
    }
  }

  /** Two passes in a row: the second scans no document and changes nothing. */
  method CleanTwice(store: DocumentStore) returns (first: int, second: int)
    modifies store
    ensures first == |OverThresholdPositions(old(store.documents))|
    ensures second == 0
    ensures store.documents == CleanedStore(old(store.documents))
  {
    first := CleanFailedMessages(store);
    ghost var afterFirst := store.documents;
    CleanedStoreHasNoneOverThreshold(old(store.documents));
    second := CleanFailedMessages(store);
    CleanStoreIsUnchanged(afterFirst);
  }
}
