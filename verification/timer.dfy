/** The scheduling engine of the `Timer` class (Timer.php).

    A `Timer` holds the two settings, the pending queue, and the cached
    `count` the source keeps beside its arrays. The clock reading
    (`microtime(true)`) is the parameter `now`, and the hash that the retry
    loop of `add` settles on is the parameter `draw`. Callbacks are tokens:
    `check`, `add` and `force` return the calls they make, in order. */
module Timers {
  import opened Wrappers
  import opened Queue

  datatype Timer = Timer(scale: int, hashLen: int, queue: seq<Entry>, count: int)

  /** The largest precision bcmath accepts (a C `int`). */
  const MaxScale := 2147483647

  /** `bcadd` and `bccomp` throw a ValueError for a precision outside
      0..MaxScale. */
  predicate ScaleInRange(scale: int) {
    0 <= scale <= MaxScale
  }

  /** The queue facts every operation is meant to keep: `count` is the
      number of pending entries (Timer.php:202-210), deadlines never decrease
      and hashes are unique. */
  predicate Consistent(t: Timer) {
    && t.count == |t.queue|
    && Sorted(t.queue)
    && UniqueHashes(t.queue)
  }

  /** A consistent queue under a precision bcmath accepts. */
  predicate Valid(t: Timer) {
    Consistent(t) && ScaleInRange(t.scale)
  }

  /** A fresh instance: precision 6, 8-byte hashes, nothing pending. */
  function New(): (t: Timer)
    ensures Valid(t) && t.count == 0
    ensures t.scale == 6 && t.hashLen == 8
  {
    Timer(6, 8, [], 0)
  }

  /** What an operation that may raise reports instead of a result. */
  datatype Error =
    /** `bcadd` or `bccomp` refuses the configured precision with a
        ValueError. */
    | ScaleRange(scale: int)
    /** `random_bytes` refuses a length below 1 with a ValueError. */
    | HashLength(hashLen: int)
    /** `check` read index `index` past the end of the arrays (its stale
        `count` let it) and called the missing callback, which throws; the
        calls made before it are `fired`. */
    | UndefinedOffset(index: nat, fired: seq<Call>)

  /** The result of a get-or-set accessor: the timer afterwards and the
      value it returns. */
  datatype Setting = Setting(timer: Timer, current: int)

  /** `scale(?int)`: a non-null argument is stored; the current value is
      returned either way. */
  function Scale(t: Timer, scale: Option<int>): (r: Setting)
    ensures r.current == r.timer.scale
    ensures scale.Some? ==> r.current == scale.value
    ensures scale.None? ==> r.timer == t
    ensures r.timer == t.(scale := r.current)
  {
    match scale
    case None => Setting(t, t.scale)
    case Some(s) => Setting(t.(scale := s), s)
  }

  /** `hashLen(?int)`: as `Scale`; no lower bound is enforced. */
  function HashLen(t: Timer, hashLen: Option<int>): (r: Setting)
    ensures r.current == r.timer.hashLen
    ensures hashLen.Some? ==> r.current == hashLen.value
    ensures hashLen.None? ==> r.timer == t
    ensures r.timer == t.(hashLen := r.current)
  {
    match hashLen
    case None => Setting(t, t.hashLen)
    case Some(n) => Setting(t.(hashLen := n), n)
  }

  /** `add` with this delay gets as far as the retry loop of Timer.php:124:
      the delay is positive and neither `bcadd` nor `random_bytes` throws. */
  predicate DrawsHash(t: Timer, seconds: int) {
    seconds > 0 && ScaleInRange(t.scale) && t.hashLen >= 1
  }

  /** The retry loop of `add` (Timer.php:124-125) returns a hash of the
      configured length that no pending entry carries. */
  predicate FreshHash(t: Timer, h: Hash) {
    |h| == t.hashLen && !Pending(t.queue, h)
  }

  /** The outcome of `add`: the timer afterwards, the hash returned (None
      for PHP's null) and the calls made during the call. */
  datatype Added = Added(timer: Timer, hash: Option<Hash>, fired: seq<Call>)

  /** `add(seconds, callback, ...args)` at clock reading `now`. */
  function Add(t: Timer, now: int, seconds: int, callback: Callback, args: seq<Value>, draw: Hash): (r: Result<Added, Error>)
    requires DrawsHash(t, seconds) ==> FreshHash(t, draw)
    ensures seconds <= 0 ==> r == Success(Added(t, None, [Call(callback, args)]))
    ensures seconds > 0 && !ScaleInRange(t.scale) ==> r == Failure(ScaleRange(t.scale))
    ensures seconds > 0 && ScaleInRange(t.scale) && t.hashLen < 1 ==> r == Failure(HashLength(t.hashLen))
    ensures DrawsHash(t, seconds) ==>
      && r.Success?
      && r.value.hash == Some(draw)
      && r.value.fired == []
      && r.value.timer.count == t.count + 1
      && r.value.timer.scale == t.scale
      && r.value.timer.hashLen == t.hashLen
      && var e := Entry(now + seconds, callback, args, draw, seconds);
         exists p :: InsertedAt(t.queue, r.value.timer.queue, p, e) && InsertionPointOf(t.queue, e.deadline, p)
  {
    if seconds <= 0 then
      Success(Added(t, None, [Call(callback, args)]))
    else if !ScaleInRange(t.scale) then
      Failure(ScaleRange(t.scale))
    else if t.hashLen < 1 then
      Failure(HashLength(t.hashLen))
    else
      var e := Entry(now + seconds, callback, args, draw, seconds);
      var p := InsertionPoint(t.queue, e.deadline);
      Success(Added(t.(queue := Insert(t.queue, p, e), count := t.count + 1), Some(draw), []))
  }

  /** The loop condition of `check` (Timer.php:83) from index `i`: it stops
      at the cached `count` or at the first entry not yet due. Past the end
      of the arrays, the undefined `times[i]` reads as null, which `bccomp`
      takes for 0; when that is due, calling the undefined `callbacks[i]`
      throws. */
  function ScanExpired(t: Timer, now: int, i: nat): (r: Result<nat, Error>)
    requires i <= |t.queue|
    ensures r.Success? ==> i <= r.value <= |t.queue|
    ensures r.Success? ==> forall k :: i <= k < r.value ==> t.queue[k].deadline <= now
    ensures r.Success? && r.value < t.count && r.value < |t.queue| ==> now < t.queue[r.value].deadline
    ensures r.Failure? ==> t.count > |t.queue| && 0 <= now
    ensures r.Failure? ==> forall k :: i <= k < |t.queue| ==> t.queue[k].deadline <= now
    ensures r.Failure? ==> r.error == UndefinedOffset(|t.queue|, Calls(t.queue))
    ensures t.count > |t.queue| && 0 <= now && (forall k :: i <= k < |t.queue| ==> t.queue[k].deadline <= now) ==>
      r.Failure?
    decreases |t.queue| - i
  {
    if i >= t.count then Success(i)
    else if i == |t.queue| then
      if 0 <= now then Failure(UndefinedOffset(i, Calls(t.queue))) else Success(i)
    else if t.queue[i].deadline <= now then ScanExpired(t, now, i + 1)
    else Success(i)
  }

  /** The timer after a dispatch and the calls made, in order. */
  datatype Dispatch = Dispatch(timer: Timer, fired: seq<Call>)

  /** `d` is `t` with its first `n` entries, all due at `now`, called in
      queue order and spliced out, and `count` lowered by `n`. */
  predicate DispatchedPrefix(t: Timer, now: int, d: Dispatch, n: int) {
    && 0 <= n <= |t.queue|
    && (forall k :: 0 <= k < n ==> t.queue[k].deadline <= now)
    && d.fired == Calls(t.queue[..n])
    && d.timer == t.(queue := t.queue[n..], count := t.count - n)
  }

  /** `check()` at clock reading `now` (Timer.php:76-96). The first
      comparison, made whenever `count` is positive, throws for a precision
      bcmath refuses. */
  function Check(t: Timer, now: int): (r: Result<Dispatch, Error>)
    ensures t.count == 0 ==> r == Success(Dispatch(t, []))
    ensures r.Success? ==> exists n :: DispatchedPrefix(t, now, r.value, n)
    ensures r.Success? ==>
      exists n :: DispatchedPrefix(t, now, r.value, n) && (n < |t.queue| && n < t.count ==> now < t.queue[n].deadline)
    ensures t.count > 0 && !ScaleInRange(t.scale) ==> r == Failure(ScaleRange(t.scale))
    ensures r.Failure? && !r.error.ScaleRange? ==> t.count > |t.queue|
    ensures r.Failure? && !r.error.ScaleRange? ==> forall k :: 0 <= k < |t.queue| ==> t.queue[k].deadline <= now
    ensures t.count > |t.queue| && ScaleInRange(t.scale) && 0 <= now && (forall k :: 0 <= k < |t.queue| ==> t.queue[k].deadline <= now) ==>
      r == Failure(UndefinedOffset(|t.queue|, Calls(t.queue)))
    ensures t.count == |t.queue| && ScaleInRange(t.scale) ==>
      && r.Success?
      && exists n :: DispatchedPrefix(t, now, r.value, n) && (n < |t.queue| ==> now < t.queue[n].deadline)
  {
    if t.count == 0 then
      assert DispatchedPrefix(t, now, Dispatch(t, []), 0);
      Success(Dispatch(t, []))
    else if t.count > 0 && !ScaleInRange(t.scale) then
      Failure(ScaleRange(t.scale))
    else
      match ScanExpired(t, now, 0)
      case Failure(e) => Failure(e)
      case Success(n) =>
        var d := Dispatch(t.(queue := t.queue[n..], count := t.count - n), Calls(t.queue[..n]));
        assert DispatchedPrefix(t, now, d, n);
        assert n < |t.queue| && n < t.count ==> now < t.queue[n].deadline;
        Success(d)
  }

  /** `remove(hash)` (Timer.php:139-156): the first entry carrying `h` is
      spliced out and `count` lowered; an unknown hash changes nothing. */
  function Remove(t: Timer, h: Hash): (r: Timer)
    ensures !Pending(t.queue, h) ==> r == t
    ensures Pending(t.queue, h) ==>
      exists i :: FirstMatch(t.queue, h, i) && r == t.(queue := RemoveAt(t.queue, i), count := t.count - 1)
  {
    match Find(t.queue, h)
    case None => t
    case Some(i) => t.(queue := RemoveAt(t.queue, i), count := t.count - 1)
  }

  /** The `['seconds' => …, 'time' => …]` array `seconds` returns. */
  datatype Delay = Delay(seconds: int, time: int)

  /** `seconds(hash)` (Timer.php:166-181): the delay and deadline of the
      first entry carrying `h`, or None (PHP's false) when none does. */
  function Seconds(t: Timer, h: Hash): (r: Option<Delay>)
    ensures r.None? <==> !Pending(t.queue, h)
    ensures r.Some? ==>
      exists i :: FirstMatch(t.queue, h, i) && r.value == Delay(t.queue[i].seconds, t.queue[i].deadline)
  {
    match Find(t.queue, h)
    case None => None
    case Some(i) => Some(Delay(t.queue[i].seconds, t.queue[i].deadline))
  }

  /** `status(hash)` (Timer.php:190-200): true when the timer is no longer
      queued. */
  function Status(t: Timer, h: Hash): (r: bool)
    ensures r <==> !Pending(t.queue, h)
  {
    Find(t.queue, h).None?
  }

  /** `count()` (Timer.php:207-210): the cached counter. */
  function Count(t: Timer): int {
    t.count
  }

  /** `force(hash)` as written (Timer.php:217-233): matching entries are
      called and spliced out of every array, but `count` is left alone. */
  function ForceAsWritten(t: Timer, h: Hash): (r: Dispatch)
    ensures r.timer == t.(queue := r.timer.queue)
    ensures r.timer.queue == Force(t, h).timer.queue
    ensures r.fired == Force(t, h).fired
  {
    var f := ForceScan(t.queue, h, 0);
    Dispatch(t.(queue := f.queue), f.fired)
  }

  /** `force(hash)` with `count` lowered by the number of entries it
      removes, as `remove` and `check` do. */
  function Force(t: Timer, h: Hash): (r: Dispatch)
    ensures |r.timer.queue| == |t.queue| - |r.fired|
    ensures r.timer.count == t.count - |r.fired|
    ensures r.timer == t.(queue := r.timer.queue, count := r.timer.count)
    ensures !Pending(t.queue, h) ==> r == Dispatch(t, [])
    ensures UniqueHashes(t.queue) && Pending(t.queue, h) ==>
      exists i :: FirstMatch(t.queue, h, i) &&
        r == Dispatch(t.(queue := RemoveAt(t.queue, i), count := t.count - 1), [CallOf(t.queue[i])])
  {
    ForceScanFromFront(t.queue, h);
    var f := ForceScan(t.queue, h, 0);
    Dispatch(t.(queue := f.queue, count := t.count - |f.fired|), f.fired)
  }
}
