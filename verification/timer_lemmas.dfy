/** Properties of the Timer model that relate several operations: the
    invariant every operation keeps, the deadline order of dispatch, the
    lookups after each change, and worked scenarios built from `add`,
    `check` and `force`. */
module TimerLemmas {
  import opened Wrappers
  import opened Queue
  import opened Timers

  /** `add` keeps the queue consistent: sorted, hashes unique, `count`
      exact; the settings are untouched. */
  lemma AddKeepsConsistent(t: Timer, now: int, seconds: int, callback: Callback, args: seq<Value>, draw: Hash)
    requires Consistent(t)
    requires DrawsHash(t, seconds) ==> FreshHash(t, draw)
    ensures Add(t, now, seconds, callback, args, draw).Success? ==>
      var t' := Add(t, now, seconds, callback, args, draw).value.timer;
      Consistent(t') && t'.scale == t.scale
  {
  }

  /** `add` puts the new entry after every entry due no later than it (so
      after every equal deadline: first in, first out) and before every
      entry due later, and leaves the other entries in their old order. */
  lemma AddIsStable(t: Timer, now: int, seconds: int, callback: Callback, args: seq<Value>, draw: Hash)
    requires Sorted(t.queue)
    requires DrawsHash(t, seconds) && FreshHash(t, draw)
    ensures
      var q' := Add(t, now, seconds, callback, args, draw).value.timer.queue;
      exists p :: 0 <= p < |q'| && q'[p] == Entry(now + seconds, callback, args, draw, seconds)
        && (forall k :: 0 <= k < p ==> q'[k].deadline <= now + seconds)
        && (forall k :: p < k < |q'| ==> now + seconds < q'[k].deadline)
        && RemoveAt(q', p) == t.queue
  {
  }

  /** After `add`, its hash is pending and `seconds` reports the delay and
      deadline it was added with. */
  lemma AddThenLookup(t: Timer, now: int, seconds: int, callback: Callback, args: seq<Value>, draw: Hash)
    requires DrawsHash(t, seconds) && FreshHash(t, draw)
    ensures
      var t' := Add(t, now, seconds, callback, args, draw).value.timer;
      && !Status(t', draw)
      && Seconds(t', draw) == Some(Delay(seconds, now + seconds))
  {
  }

  /** `check` on a valid timer never throws, and leaves it valid. */
  lemma CheckPreservesValid(t: Timer, now: int)
    requires Valid(t)
    ensures Check(t, now).Success?
    ensures Valid(Check(t, now).value.timer)
  {
  }

  /** Whenever `check` returns, it leaves a consistent queue consistent. */
  lemma CheckKeepsConsistent(t: Timer, now: int)
    requires Consistent(t)
    ensures Check(t, now).Success? ==> Consistent(Check(t, now).value.timer)
  {
  }

  /** After `check` on a valid timer no pending entry is due at `now`. */
  lemma CheckLeavesNothingDue(t: Timer, now: int)
    requires Valid(t)
    ensures forall e :: e in Check(t, now).value.timer.queue ==> now < e.deadline
  {
  }

  /** `check` on a valid timer retires exactly the entries due at `now`: a
      timer is no longer pending afterwards exactly when its deadline was at
      or before `now`. */
  lemma CheckRetiresExactlyTheDue(t: Timer, now: int)
    requires Valid(t)
    ensures forall k :: 0 <= k < |t.queue| ==>
      (Status(Check(t, now).value.timer, t.queue[k].hash) <==> t.queue[k].deadline <= now)
  {
  }

  /** A `check` at a clock reading at or after every deadline of a valid
      timer fires all of its entries in queue order and empties it. */
  lemma CheckWhenAllDue(t: Timer, now: int)
    requires Valid(t)
    requires forall k :: 0 <= k < |t.queue| ==> t.queue[k].deadline <= now
    ensures Check(t, now).value.fired == Calls(t.queue)
    ensures Check(t, now).value.timer.queue == []
  {
  }

  /** `remove` keeps the queue consistent and the settings untouched. */
  lemma RemoveKeepsConsistent(t: Timer, h: Hash)
    requires Consistent(t)
    ensures Consistent(Remove(t, h))
    ensures Remove(t, h).scale == t.scale
  {
    if Pending(t.queue, h) {
      RemoveAtKeeps(t.queue, Find(t.queue, h).value);
    }
  }

  /** Under unique hashes, `remove` retires `h` and leaves every other
      hash's status as it was. */
  lemma RemoveRetiresHash(t: Timer, h: Hash)
    requires UniqueHashes(t.queue)
    ensures Status(Remove(t, h), h)
    ensures forall g :: g != h ==> Status(Remove(t, h), g) == Status(t, g)
  {
    if Pending(t.queue, h) {
      var i := Find(t.queue, h).value;
      RemoveAtKeeps(t.queue, i);
      OthersStayPending(t.queue, i);
    }
  }

  /** The corrected `force` keeps the queue consistent and the settings
      untouched, so on a valid timer a later `check` cannot throw. */
  lemma ForcePreservesValid(t: Timer, h: Hash, now: int)
    requires Consistent(t)
    ensures Consistent(Force(t, h).timer)
    ensures Valid(t) ==> Valid(Force(t, h).timer) && Check(Force(t, h).timer, now).Success?
  {
    if Pending(t.queue, h) {
      var i := Find(t.queue, h).value;
      RemoveAtKeeps(t.queue, i);
    }
  }

  /** Under unique hashes, `force` calls the matching entry whatever its
      deadline, retires `h`, and leaves every other hash's status as it
      was. */
  lemma ForceRetiresHash(t: Timer, h: Hash)
    requires UniqueHashes(t.queue)
    ensures Status(Force(t, h).timer, h)
    ensures forall g :: g != h ==> Status(Force(t, h).timer, g) == Status(t, g)
    ensures Pending(t.queue, h) ==> exists i :: FirstMatch(t.queue, h, i) && Force(t, h).fired == [CallOf(t.queue[i])]
  {
    if Pending(t.queue, h) {
      var i := Find(t.queue, h).value;
      RemoveAtKeeps(t.queue, i);
      OthersStayPending(t.queue, i);
    }
  }

  /** Under the `force` as written, `count` overstates the queue by one
      after every successful force on a valid timer. */
  lemma ForceAsWrittenDesyncsCount(t: Timer, h: Hash)
    requires Valid(t)
    requires Pending(t.queue, h)
    ensures ForceAsWritten(t, h).timer.count == |ForceAsWritten(t, h).timer.queue| + 1
  {
  }

  /** The input that shows it: on a fresh timer, add one timer and force it;
      `count()` still reports 1, and the next `check` reads index 0 of empty
      arrays and throws at any clock reading of 0 or more. */
  lemma ForceAsWrittenBreaksCheck(now: int, seconds: int, callback: Callback, args: seq<Value>, h: Hash, later: int)
    requires seconds > 0 && |h| == 8
    requires 0 <= later
    ensures
      var added := Add(New(), now, seconds, callback, args, h).value.timer;
      var forced := ForceAsWritten(added, h);
      && forced.fired == [Call(callback, args)]
      && forced.timer.queue == []
      && Count(forced.timer) == 1
      && Check(forced.timer, later) == Failure(UndefinedOffset(0, []))
  {
  }

  /** The same steps with the corrected `force`: the count follows the
      queue and the next `check` does nothing. */
  lemma ForceThenCheck(now: int, seconds: int, callback: Callback, args: seq<Value>, h: Hash, later: int)
    requires seconds > 0 && |h| == 8
    ensures
      var added := Add(New(), now, seconds, callback, args, h).value.timer;
      var forced := Force(added, h);
      && forced.fired == [Call(callback, args)]
      && Count(forced.timer) == 0
      && Check(forced.timer, later) == Success(Dispatch(forced.timer, []))
  {
  }

  /** `force` looks at the slot after a removed entry one step too late:
      of two adjacent entries sharing a hash only the first is called and
      removed. Unreachable while hashes are unique. */
  lemma ForceSkipsAdjacentDuplicate(t: Timer, a: Entry, b: Entry)
    requires t.queue == [a, b] && a.hash == b.hash
    ensures Force(t, a.hash).fired == [CallOf(a)]
    ensures Force(t, a.hash).timer.queue == [b]
  {
  }

  /** Setting the precision and then reading it returns the value set. */
  lemma ScaleRoundTrip(t: Timer, s: int)
    ensures Scale(Scale(t, Some(s)).timer, None).current == s
    ensures Scale(Scale(t, Some(s)).timer, None).timer.queue == t.queue
  {
  }

  /** Setting the hash length and then reading it returns the value set. */
  lemma HashLenRoundTrip(t: Timer, n: int)
    ensures HashLen(HashLen(t, Some(n)).timer, None).current == n
    ensures HashLen(HashLen(t, Some(n)).timer, None).timer.queue == t.queue
  {
  }

  /** A hash length below 1 is stored unchecked, and the next `add` with a
      positive delay then fails in `random_bytes`. */
  lemma HashLenBelowOneBreaksAdd(t: Timer, n: int, now: int, seconds: int, callback: Callback, args: seq<Value>, draw: Hash)
    requires n < 1 && seconds > 0 && ScaleInRange(t.scale)
    ensures HashLen(t, Some(n)).current == n
    ensures Add(HashLen(t, Some(n)).timer, now, seconds, callback, args, draw) == Failure(HashLength(n))
  {
  }

  /** A precision outside 0..MaxScale is stored unchecked; the next `add`
      with a positive delay then fails in `bcadd` before anything is queued,
      and a `check` with timers pending fails in `bccomp` before any call. */
  lemma ScaleOutOfRangeBreaksAddAndCheck(t: Timer, s: int, now: int, seconds: int, callback: Callback, args: seq<Value>, draw: Hash)
    requires !ScaleInRange(s) && seconds > 0
    ensures Scale(t, Some(s)).current == s
    ensures Add(Scale(t, Some(s)).timer, now, seconds, callback, args, draw) == Failure(ScaleRange(s))
    ensures t.count > 0 ==> Check(Scale(t, Some(s)).timer, now) == Failure(ScaleRange(s))
  {
  }

  /** A timer added to a new instance with delay `seconds` at `now` is not
      fired by a `check` before its deadline, which changes nothing. */
  lemma SingleTimerNotYetDue(now: int, seconds: int, callback: Callback, args: seq<Value>, h: Hash, early: int)
    requires seconds > 0 && |h| == 8
    requires early < now + seconds
    ensures
      var t := Add(New(), now, seconds, callback, args, h).value.timer;
      Check(t, early) == Success(Dispatch(t, []))
  {
    var t := Add(New(), now, seconds, callback, args, h).value.timer;
    assert t.queue == [Entry(now + seconds, callback, args, h, seconds)];
    var n :| DispatchedPrefix(t, early, Check(t, early).value, n) && (n < |t.queue| ==> early < t.queue[n].deadline);
    assert n == 0;
  }

  /** The first `check` at or after that deadline fires the timer once and
      leaves `count` at 0. */
  lemma SingleTimerFiresOnce(now: int, seconds: int, callback: Callback, args: seq<Value>, h: Hash, later: int)
    requires seconds > 0 && |h| == 8
    requires now + seconds <= later
    ensures
      var t := Add(New(), now, seconds, callback, args, h).value.timer;
      && Check(t, later).value.fired == [Call(callback, args)]
      && Count(Check(t, later).value.timer) == 0
  {
    var t := Add(New(), now, seconds, callback, args, h).value.timer;
    assert t.queue == [Entry(now + seconds, callback, args, h, seconds)];
    CheckWhenAllDue(t, later);
  }

  /** Two timers with different deadlines, added in either order, are fired
      by one `check` in deadline order. */
  lemma TwoTimersFireInDeadlineOrder(
    now1: int, s1: int, c1: Callback, a1: seq<Value>, h1: Hash,
    now2: int, s2: int, c2: Callback, a2: seq<Value>, h2: Hash, later: int)
    requires s1 > 0 && s2 > 0 && |h1| == 8 && |h2| == 8 && h1 != h2
    requires now1 + s1 != now2 + s2
    requires now1 + s1 <= later && now2 + s2 <= later
    ensures
      var t1 := Add(New(), now1, s1, c1, a1, h1).value.timer;
      var t2 := Add(t1, now2, s2, c2, a2, h2).value.timer;
      Check(t2, later).value.fired ==
        if now1 + s1 < now2 + s2 then [Call(c1, a1), Call(c2, a2)] else [Call(c2, a2), Call(c1, a1)]
  {
    var e1 := Entry(now1 + s1, c1, a1, h1, s1);
    var e2 := Entry(now2 + s2, c2, a2, h2, s2);
    var t1 := Add(New(), now1, s1, c1, a1, h1).value.timer;
    assert t1.queue == [e1];
    assert FreshHash(t1, h2);
    var p := InsertionPoint(t1.queue, e2.deadline);
    assert p == if now1 + s1 < now2 + s2 then 1 else 0;
    var t2 := Add(t1, now2, s2, c2, a2, h2).value.timer;
    assert t2 == t1.(queue := Insert(t1.queue, p, e2), count := 2);
    if now1 + s1 < now2 + s2 {
      assert t2.queue == [e1, e2];
    } else {
      assert t2.queue == [e2, e1];
    }
    assert Valid(t2);
    CheckWhenAllDue(t2, later);
  }
}
