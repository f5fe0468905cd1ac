# FailedMessageCleaner, modelled in Dafny

The FailedMessageCleaner tool does one clean-up pass over the `FailedMessage`
documents of a ServiceControl store. Each failed message carries a list of
`ProcessingAttempts`. The pass repeatedly queries a page of up to 15
messages with strictly more than 10 attempts. It adds the page's size to a
running count of scanned documents and stops when a page comes back empty.
Otherwise it sorts each selected message's attempts by `AttemptedAt`
descending, keeps the first 10, and saves the page.

The project has two modules:

- `ProcessingAttempts` (`attempts.dfy`) covers the per-message truncation.
  An attempt is a timestamp plus opaque details. `OrderByAttemptedAtDescending`
  is a stable insertion sort, matching LINQ's stable `OrderByDescending`.
  `TruncateAttempts(s, n)` is that sort followed by `Take(n)`.
  `IsStableDescendingOrder` is an independent definition of the sort: the
  output is non-increasing, and for every timestamp the attempts carrying it
  keep their input order. The lemmas prove the sort meets this definition,
  that it is the only output that does, and the properties of the kept
  attempts: how many there are, their order, that they come from the input,
  that they are the latest ones, and that ties keep their order.
- `FailedMessageCleaner` (`cleaner.dfy`) covers the paging loop.
  - `DocumentStore` is a class whose field `documents` is the message
    collection.
  - `QueryOverThreshold` returns the positions of any page the query may
    return. It is specified only by `IsPage`: at most `limit` entries, each
    over the threshold, none repeated. The store's own result order is left
    as a nondeterministic choice.
  - `SaveChanges` writes a page's loaded messages back in place.
  - `CleanFailedMessages` is the `while (true)` loop with the `start`
    counter. It is proved to end with the store equal to `CleanedStore` of
    its initial contents. Its result equals the number of messages that were
    over the threshold at the start.
  - The lemmas about `Clean` and `CleanedStore` give the per-message effect,
    the strict threshold, the state at exit, and idempotence.

The page size (15) and the number of attempts kept (10) are the constants
`PageSize` and `MaxAttemptsPerMessage`. `TruncateAttempts` takes the count
to keep as a parameter.

## Model

| member | source | states |
|---|---|---|
| ProcessingAttempts.OrderIsPermutation | FailedMessageCleaner/Program.cs:77 | ordering the attempts by `AttemptedAt` descending yields the same multiset of attempts |
| ProcessingAttempts.OrderIsStableDescending | FailedMessageCleaner/Program.cs:77 | the ordered attempts have non-increasing timestamps, and for every timestamp the attempts with it keep their original relative order (a stable sort) |
| ProcessingAttempts.StableDescendingOrderIsUnique | FailedMessageCleaner/Program.cs:77 | a sequence is a stable descending ordering of the attempts if and only if it equals the sort's result |
| ProcessingAttempts.TruncateLength | FailedMessageCleaner/Program.cs:76-79 | after `Take(n)` the list holds `min(n, count)` attempts |
| ProcessingAttempts.TruncateSortedDescending | FailedMessageCleaner/Program.cs:77-78 | the kept attempts are in non-increasing `AttemptedAt` order |
| ProcessingAttempts.TruncateSubMultiset | FailedMessageCleaner/Program.cs:76-79 | the kept attempts are a sub-multiset of the original ones: nothing is invented or duplicated |
| ProcessingAttempts.TruncateKeepsLatest | FailedMessageCleaner/Program.cs:77-78 | no discarded attempt has a timestamp later than any kept attempt |
| ProcessingAttempts.TruncateKeepsTieOrder | FailedMessageCleaner/Program.cs:77-78 | for every timestamp, the kept attempts with it are a prefix of the original attempts with it, so ties are broken by original order |
| ProcessingAttempts.TruncateThreeToTwo | FailedMessageCleaner/Program.cs:76-79 | cutting attempts stamped 1, 2, 3 to two keeps the ones stamped 3 and 2, latest first |
| FailedMessageCleaner.CleanMessage | FailedMessageCleaner/Program.cs:60-79 | a selected message (more than 10 attempts) ends with exactly 10, sorted, drawn from its own attempts, with the same id. A message with 10 or fewer attempts is unchanged. Neither is over the threshold afterwards |
| FailedMessageCleaner.CleanIsIdempotent | FailedMessageCleaner/Program.cs:60-79 | cleaning an already cleaned message changes nothing |
| FailedMessageCleaner.CleanedStoreHasNoneOverThreshold | FailedMessageCleaner/Program.cs:52-84 | after the pass every message keeps its position and id, and no message is over the threshold |
| FailedMessageCleaner.CleanStoreIsUnchanged | FailedMessageCleaner/Program.cs:60-70 | a store with no message over the threshold is left as it is |
| FailedMessageCleaner.CleanedStoreIsIdempotent | FailedMessageCleaner/Program.cs:52-84 | applying the pass's effect to an already cleaned store changes nothing |
| FailedMessageCleaner.SavedPageLeavesQuery | FailedMessageCleaner/Program.cs:60-82 | saving a cleaned page removes exactly the page's positions from the set of over-threshold messages, so that set shrinks by the page's size |
| FailedMessageCleaner.DocumentStore.QueryOverThreshold | FailedMessageCleaner/Program.cs:58-62 | the page holds `min(limit, number over threshold)` distinct positions, each of a message with strictly more than 10 attempts |
| FailedMessageCleaner.DocumentStore.SaveChanges | FailedMessageCleaner/Program.cs:82 | each page position now holds its loaded (mutated) message and every other document is unchanged |
| FailedMessageCleaner.CleanFailedMessages | FailedMessageCleaner/Program.cs:43-85 | the loop terminates. The store ends as `CleanedStore` of its initial contents, so selected messages are truncated and all others are untouched. `start` equals the number of messages initially over the threshold |
| FailedMessageCleaner.CleanTwice | FailedMessageCleaner/Program.cs:52-84 | a second pass right after the first scans 0 documents and leaves the store as the first pass left it |

## Left out

- `Main` (argument check, usage message, store bootstrapping on a fixed port, `Initialize`, `Console.ReadLine`, `Dispose`): command-line handling and database I/O.
- The querying-consistency setting and RavenDB session and transaction semantics. A save is an in-place update of the abstract store. Stale indexes and failed commits are not modelled.
- `ConfigureLogging` and every `log.Info` call: logging output only.
- `async`/`await` and `Task`: the code runs sequentially.
- The `ids` list: it is cleared on every iteration but never filled or read.
- `AttemptedAt` is an integer timestamp rather than a `DateTime`, since only its ordering matters. Other attempt metadata is an opaque string. Fields of `FailedMessage` other than the id and the attempts are not modelled.
- Loaded documents are copied values written back by `SaveChanges`, not tracked entity objects, so aliasing between session entities is not modelled.
- The store's actual result order: `QueryOverThreshold` may return any page that `IsPage` allows.
- CleanFailedMessages: `start` is an unbounded integer. It does not model the 32-bit wrap-around of the C# `int` counter, which would only occur with more than 2^31 - 1 over-threshold messages.
