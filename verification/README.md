# Timer: a model of the PHP delayed-callback scheduler

This project models the scheduling engine of the `Timer` class. A `Timer`
keeps a queue of pending timers ordered by deadline. `add` registers a
callback to run after a delay and returns a random hash that names it.
`check` is called periodically from the tick hook and fires every timer
whose deadline has passed, front to back, then splices them out. `remove`,
`seconds`, `status` and `force` address one timer by its hash. `count`
reports the cached number of pending timers. `scale` and `hashLen` get or
set the decimal precision and the hash length.

Layout:

- `wrappers.dfy`, module `Wrappers`: `Option` and `Result`.
- `queue.dfy`, module `Queue`: the pending queue. The source stores it as
  five parallel arrays (`times`, `callbacks`, `args`, `hashes`, `seconds`)
  and always splices all five at the same index. The model stores it as
  one sequence of `Entry` records, so the arrays are equally long and
  aligned by construction. This module also holds the scans over the
  queue: insertion point, hash lookup, and the `force` loop.
- `timer.dfy`, module `Timers`: the `Timer` record (settings, queue,
  cached `count`) and one pure function per public operation.
- `timer_lemmas.dfy`, module `TimerLemmas`: properties that relate
  operations to each other. These cover the invariant every operation
  keeps, dispatch order, lookups after each change, worked scenarios
  built from `add`, `check` and `force`, and the finding below.
- `sessions.dfy`, module `Sessions`: arbitrary sequences of public calls
  on one instance, started from a new one. It states what `count()`
  returns in every state such a sequence reaches, and it shows the state
  the source's `force` reaches.

Conventions:

- Deadlines and delays are integers in units of 10^-scale seconds. They
  stand in for the bcmath strings that `bcadd` and `bccomp` compute at
  the configured scale.
- The clock reading `microtime(true)` is the parameter `now`.
- The hash that the retry loop of `add` settles on is the parameter
  `draw`. Its precondition says it has the configured length and no
  pending timer carries it.
- Callbacks and argument values are opaque tokens. `add`, `check` and
  `force` return the list of `Call`s they make, in order.
- An exception the source would throw is a `Failure` result.

`Timers.Consistent` is the queue invariant. It says `count` equals the
number of pending entries, deadlines never decrease along the queue, and
hashes are unique. `New`, `add`, `check`, `remove`, the corrected
`force`, `scale` and `hashLen` all keep it. `Timers.Valid` adds that the
precision lies in 0..2147483647, the range `bcadd` and `bccomp` accept.
`scale` stores any integer, so it keeps `Valid` only for values in that
range. Outside it, the next `add` with a positive delay and the next
`check` with timers pending both throw.

Three points where the source behaves differently from what a reader
might expect. The model follows the source in each:

- `remove` is declared `private` (Timer.php:139). The model includes it
  anyway, because it belongs to the queue's operations.
- The `force` loop looks like it removes every entry that carries the
  hash. After a removal, though, it steps past the slot the next entry has
  just moved into. Of two adjacent duplicates, only the first is forced
  (`TimerLemmas.ForceSkipsAdjacentDuplicate`). While hashes are unique
  this cannot happen.
- The doc comments say `count()` is the number of queued callbacks and
  that the hash length is 1 or more. The source's `force` breaks the
  first (see Findings). `hashLen` does not enforce the second.

## Model

| member | source | states |
|---|---|---|
| Timers.New | Timer.php:12-22 | A new instance has precision 6, hash length 8 and an empty queue, and it satisfies the queue invariant. |
| Timers.Scale | Timer.php:49-55 | A non-null argument becomes the stored precision and is returned. A null argument returns the current precision and changes nothing. The queue and count are never touched. |
| TimerLemmas.ScaleRoundTrip | Timer.php:49-55 | Setting the precision and then reading it back returns the value that was set, with the queue unchanged. |
| Timers.HashLen | Timer.php:57-71 | Same get-or-set behaviour as `scale`, for the hash length. Any integer is stored, including values below the documented minimum of 1. |
| TimerLemmas.HashLenRoundTrip | Timer.php:65-71 | Setting the hash length and then reading it back returns the value that was set. |
| TimerLemmas.HashLenBelowOneBreaksAdd | Timer.php:65-71 | A hash length below 1 is stored unchecked. The next `add` with a positive delay then fails in `random_bytes`. |
| TimerLemmas.ScaleOutOfRangeBreaksAddAndCheck | Timer.php:49-55 | A precision outside 0..2147483647 is stored unchecked. The next `add` with a positive delay then fails in `bcadd` (Timer.php:116). The next `check` with timers pending fails in `bccomp` (Timer.php:83) before making any call. |
| Queue.ScanInsert | Timer.php:115-118 | The insertion scan steps over exactly the entries whose deadline is not later than the new one. It stops at the first later entry, or at the end of the queue. |
| Queue.InsertionPoint | Timer.php:115-118 | The insertion index is the first index whose deadline is strictly later than the new deadline, or the queue length if there is none. |
| Queue.Insert | Timer.php:120-128 | Splicing in at index p puts the new entry at p. Entries before p stay where they were, and entries from p onward move one place back. |
| Queue.InsertKeepsSorted | Timer.php:115-122 | Inserting at the insertion index keeps a sorted queue sorted. |
| Queue.InsertIsStable | Timer.php:115-122 | In a sorted queue, the inserted entry comes after every entry due no later than it and before every entry due later. Removing it gives back the old queue. |
| Timers.Add | Timer.php:107-132 | A delay ≤ 0 makes exactly one call, returns null and leaves the timer unchanged. With a positive delay, a precision outside 0..2147483647 makes the call fail in `bcadd` first. Failing that, a hash length below 1 makes it fail in `random_bytes`. Otherwise the call returns the drawn hash and makes no call. It inserts the new entry (deadline, callback, args, hash, delay) at the first index whose deadline is later, increments `count`, and leaves the settings unchanged. |
| TimerLemmas.AddKeepsConsistent | Timer.php:115-131 | Whenever `add` returns, it keeps the queue sorted and the hashes unique, `count` stays equal to the queue length, and the precision is unchanged. |
| TimerLemmas.AddIsStable | Timer.php:115-122 | The new entry follows every entry due at or before it, so ties are first in, first out. It precedes every entry due later. All other entries keep their relative order. |
| TimerLemmas.AddThenLookup | Timer.php:124-131 | After `add`, the returned hash is pending. `seconds` on it reports the delay and the deadline it was stored with. |
| Timers.ScanExpired | Timer.php:81-84 | The dispatch loop passes only entries due at `now` and stops at the cached count or at the first entry not yet due. It throws exactly when the cached count exceeds the queue length, the clock reading is not negative, and every entry is due. The error reports the index past the end and the calls already made. |
| Timers.Check | Timer.php:76-96 | With `count` 0, `check` does nothing. With timers pending and a precision outside 0..2147483647, it fails in `bccomp` before any call. A successful `check` calls a prefix of due entries in queue order, splices that prefix out and lowers `count` by its length. The prefix is maximal up to the cached `count`: the entry after it, if it lies below both `count` and the queue length, is not yet due. Any other failure needs a stale `count` and every entry due. With a stale `count`, an in-range precision, a clock reading of 0 or more and every entry due, it calls every entry and then fails at the index past the end. When `count` equals the queue length and the precision is in range, it always succeeds. |
| TimerLemmas.CheckPreservesValid | Timer.php:76-96 | On a valid timer, `check` never throws and leaves the timer valid. |
| TimerLemmas.CheckKeepsConsistent | Timer.php:83-94 | Whenever `check` returns, it leaves a consistent timer consistent. |
| TimerLemmas.CheckLeavesNothingDue | Timer.php:83-94 | After `check` on a valid timer, no remaining entry is due at `now`. |
| TimerLemmas.CheckRetiresExactlyTheDue | Timer.php:83-94 | After `check`, a timer is no longer pending exactly when its deadline was at or before `now`. |
| TimerLemmas.CheckWhenAllDue | Timer.php:83-94 | When every deadline has passed, `check` calls every entry in queue order and empties the queue. |
| TimerLemmas.SingleTimerNotYetDue | Timer.php:76-132 | A timer added to a new instance is not fired by a `check` before its deadline, and that `check` changes nothing. |
| TimerLemmas.SingleTimerFiresOnce | Timer.php:76-132 | The first `check` at or after the deadline fires the timer exactly once and leaves `count` at 0. |
| TimerLemmas.TwoTimersFireInDeadlineOrder | Timer.php:76-132 | Two timers with different deadlines, added in either order, are fired by one `check` in deadline order. |
| Queue.FindFrom | Timer.php:141-144 | The hash scan returns the first index at or after its start whose entry carries the hash. It returns none when no entry from the start onward carries it. |
| Queue.Find | Timer.php:168-180 | The lookup returns the first index whose entry carries the hash. It returns none exactly when the hash is not pending. |
| Queue.RemoveAt | Timer.php:146-150 | Splicing out index i keeps the entries before i in place and moves the later entries up by one. |
| Queue.RemoveAtKeeps | Timer.php:146-150 | Splicing out one entry keeps the queue sorted and the hashes unique. Under unique hashes, the removed hash is no longer pending. |
| Queue.OthersStayPending | Timer.php:146-150 | Splicing out one entry leaves every other hash exactly as pending as it was. |
| Timers.Remove | Timer.php:139-156 | An unknown hash changes nothing. Otherwise the first entry carrying the hash is spliced out, `count` drops by one, and the other entries keep their order. |
| TimerLemmas.RemoveKeepsConsistent | Timer.php:139-156 | `remove` keeps the queue sorted, the hashes unique and `count` equal to the queue length. The precision is unchanged. |
| TimerLemmas.RemoveRetiresHash | Timer.php:139-156 | Under unique hashes, `remove` retires the hash, and the status of every other hash is unchanged. |
| Timers.Seconds | Timer.php:166-181 | The result is false exactly when no entry carries the hash. Otherwise it is the delay and deadline of the first entry that does. |
| Timers.Status | Timer.php:190-200 | The result is true exactly when no pending entry carries the hash. |
| Queue.ForceScan | Timer.php:219-232 | The `force` loop calls and removes some entries. The number of entries left plus the number of calls equals the old queue length. Entries before the starting index are untouched. |
| Queue.ForceScanAbsent | Timer.php:219-232 | When no entry from the start onward carries the hash, the `force` loop changes nothing and calls nothing. |
| Queue.ForceScanUnique | Timer.php:219-232 | Under unique hashes, the `force` loop calls and removes exactly the entry carrying the hash, or does nothing if there is none. |
| Queue.ForceScanFromFront | Timer.php:217-233 | From the front: an unknown hash is a no-op. Under unique hashes, the first matching entry is called and removed. |
| Timers.ForceAsWritten | Timer.php:217-233 | `force` as the source writes it: the same calls and removals as the corrected `Force`, but `count` and the settings are left unchanged. |
| Timers.Force | Timer.php:217-233 | `force` with `count` lowered by the number of entries removed. An unknown hash is a no-op. Under unique hashes, the first matching entry is called whatever its deadline, then spliced out, and `count` drops by one. |
| TimerLemmas.ForcePreservesValid | Timer.php:217-233 | The corrected `force` keeps a consistent timer consistent and a valid timer valid, so after it the next `check` cannot throw. |
| TimerLemmas.ForceRetiresHash | Timer.php:217-233 | Under unique hashes, `force` makes exactly the matching entry's call whatever its deadline. It retires the hash and leaves the status of every other hash unchanged. |
| TimerLemmas.ForceAsWrittenDesyncsCount | Timer.php:217-233 | With the source's `force`, `count` exceeds the queue length by one after every successful force on a valid timer. |
| TimerLemmas.ForceAsWrittenBreaksCheck | Timer.php:76-96 | With the source's `force`: on a new instance, add one timer and force it. `count()` still returns 1, and the next `check` fails at index 0 of empty arrays. |
| TimerLemmas.ForceThenCheck | Timer.php:217-233 | The same steps with the corrected `force` leave `count()` at 0. The next `check` then does nothing. |
| TimerLemmas.ForceSkipsAdjacentDuplicate | Timer.php:219-231 | Of two adjacent entries sharing a hash, `force` calls and removes only the first. |
| Sessions.StepKeepsConsistent | Timer.php:49-233 | Every public call that returns, with the corrected `force`, keeps a consistent timer consistent. |
| Sessions.RunKeepsConsistent | Timer.php:49-233 | Every sequence of such calls that returns keeps a consistent timer consistent. |
| Sessions.CountMatchesQueueWhenReachable | Timer.php:202-210 | After any sequence of calls on a new instance that returns, with the corrected `force`, `count()` equals the number of pending timers. |
| Sessions.ForceAsWrittenReachesStaleCount | Timer.php:217-233 | With the source's `force`, `add` with a positive delay followed by `force` of its hash on a new instance leaves `count()` at 1 with nothing pending. |

## Left out

- The floating-point clock and its string conversions for `bcadd` and `bccomp` (Timer.php:82, 116) are not modelled. These are float formatting and bcmath string arithmetic. Deadlines and delays are integers in units of 10^-scale seconds, so a positive delay below one unit has no counterpart.
- The model ignores what changing `scale` does to deadlines already stored under another precision. It only keeps the setting.
- `random_bytes` and the loose `in_array` comparison (Timer.php:124) are not modelled. The CSPRNG is foreign code, so the retry loop's result is the parameter `draw`. If every hash of the configured length is already pending, the source's loop never ends, and no `draw` meets the precondition.
- Add: with a hash length below 1, the source has already spliced the new entry into `times`, `callbacks` and `args` when `random_bytes` throws. That leaves five misaligned arrays. An entry-per-record queue cannot represent that state, so the model returns a failure without a timer.
- Callback bodies, by-reference argument mutation and exceptions thrown by callbacks are left out, because they are foreign code. Reentrant `add`, `remove` or `force` calls from inside a callback during `check` are left out for the same reason. Callbacks are tokens, and the model returns the calls it makes.
- The constructor and destructor (Timer.php:24-39) are host hooks, so they are left out. This covers tick registration and deregistration and the warning about timers still pending at disposal.
- `wait` and `waitEx` (Timer.php:241-270) are left out. They busy-wait for the tick hook to run `check`, which a sequential model cannot interleave.
- Timers.Count has no contract of its own because it is a getter. `Sessions.CountMatchesQueueWhenReachable` states what it returns in every state a new instance reaches.
- A sequence of calls in `Sessions` stops at the first call that throws. The state an instance is left in after a caught exception is not modelled, because the model's failures carry no timer.

## Findings

| source | as written | input that shows it | evidently intended | confidence | as-written member | corrected member |
|---|---|---|---|---|---|---|
| Timer.php:217-233 | `force` splices the entry out of all five arrays but never lowers `count`. The loop in `check` at Timer.php:83 is bounded by `count`, not by the array length. | New instance; `add(1, cb)` returns h; `force(h)`; then `count()` returns 1 and the next `check()` reads `times[0]` and `callbacks[0]` of empty arrays and throws when calling null | `count` lowered by one per removed entry, as `remove` does (Timer.php:152) | medium, not executed | TimerLemmas.ForceAsWrittenBreaksCheck | TimerLemmas.ForcePreservesValid |
