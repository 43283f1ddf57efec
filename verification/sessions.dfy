/** Sequences of calls on one Timer instance, started from a new one.

    Every public operation is one `Op`. A run stops at the first call that
    throws, or at an `add` whose supplied hash the retry loop of
    Timer.php:124 could not have returned. `asWritten` chooses between the
    source's `force` and the corrected one. */
module Sessions {
  import opened Wrappers
  import opened Queue
  import opened Timers
  import opened TimerLemmas

  datatype Op =
    | AddOp(now: int, seconds: int, callback: Callback, args: seq<Value>, draw: Hash)
    | CheckOp(now: int)
    | RemoveOp(hash: Hash)
    | ForceOp(hash: Hash)
    | ScaleOp(scale: Option<int>)
    | HashLenOp(hashLen: Option<int>)

  /** The timer after one call, or None when the call throws. */
  function Step(t: Timer, op: Op, asWritten: bool): Option<Timer> {
    match op
    case AddOp(now, seconds, callback, args, draw) =>
      if DrawsHash(t, seconds) && !FreshHash(t, draw) then None
      else (
        match Add(t, now, seconds, callback, args, draw)
        case Success(a) => Some(a.timer)
        case Failure(_) => None)
    case CheckOp(now) =>
      (match Check(t, now)
       case Success(d) => Some(d.timer)
       case Failure(_) => None)
    case RemoveOp(h) => Some(Remove(t, h))
    case ForceOp(h) => Some(if asWritten then ForceAsWritten(t, h).timer else Force(t, h).timer)
    case ScaleOp(s) => Some(Scale(t, s).timer)
    case HashLenOp(n) => Some(HashLen(t, n).timer)
  }

  /** The timer after the calls `ops`, or None when one of them throws. */
  function Run(t: Timer, ops: seq<Op>, asWritten: bool): Option<Timer>
    decreases |ops|
  {
    if ops == [] then Some(t)
    else
      match Step(t, ops[0], asWritten)
      case None => None
      case Some(t') => Run(t', ops[1..], asWritten)
  }

  /** Every call that returns keeps a consistent timer consistent. */
  lemma StepKeepsConsistent(t: Timer, op: Op)
    requires Consistent(t)
    ensures Step(t, op, false).Some? ==> Consistent(Step(t, op, false).value)
  {
    match op
    case AddOp(now, seconds, callback, args, draw) =>
      if !DrawsHash(t, seconds) || FreshHash(t, draw) {
        AddKeepsConsistent(t, now, seconds, callback, args, draw);
      }
    case CheckOp(now) =>
      CheckKeepsConsistent(t, now);
    case RemoveOp(h) =>
      RemoveKeepsConsistent(t, h);
    case ForceOp(h) =>
      ForcePreservesValid(t, h, 0);
    case ScaleOp(_) =>
    case HashLenOp(_) =>
  }

  /** Every run of calls that returns keeps a consistent timer consistent. */
  lemma {:induction false} RunKeepsConsistent(t: Timer, ops: seq<Op>)
    requires Consistent(t)
    ensures Run(t, ops, false).Some? ==> Consistent(Run(t, ops, false).value)
    decreases |ops|
  {
    if ops != [] {
      StepKeepsConsistent(t, ops[0]);
      if Step(t, ops[0], false).Some? {
        RunKeepsConsistent(Step(t, ops[0], false).value, ops[1..]);
      }
    }
  }

  /** With the corrected `force`, `count()` equals the number of pending
      timers after any sequence of calls on a new instance that returns. */
  lemma CountMatchesQueueWhenReachable(ops: seq<Op>)
    ensures Run(New(), ops, false).Some? ==>
      Count(Run(New(), ops, false).value) == |Run(New(), ops, false).value.queue|
  {
    RunKeepsConsistent(New(), ops);
  }

  /** With the source's `force`, two calls on a new instance already reach
      a state whose `count()` is 1 while nothing is pending. */
  lemma ForceAsWrittenReachesStaleCount(now: int, seconds: int, callback: Callback, args: seq<Value>, h: Hash)
    requires seconds > 0 && |h| == 8
    ensures Run(New(), [AddOp(now, seconds, callback, args, h), ForceOp(h)], true).Some?
    ensures
      var t := Run(New(), [AddOp(now, seconds, callback, args, h), ForceOp(h)], true).value;
      Count(t) == 1 && t.queue == []
  {
    var ops := [AddOp(now, seconds, callback, args, h), ForceOp(h)];
    assert FreshHash(New(), h);
    var t1 := Add(New(), now, seconds, callback, args, h).value.timer;
    assert t1.queue == [Entry(now + seconds, callback, args, h, seconds)];
    assert Step(New(), ops[0], true) == Some(t1);
    var t2 := ForceAsWritten(t1, h).timer;
    assert t2.queue == [] && t2.count == 1;
    assert Step(t1, ops[1], true) == Some(t2);
    assert ops[1..][1..] == [];
    assert Run(t1, ops[1..], true) == Some(t2);
  }
}
