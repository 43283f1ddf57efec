/** The pending-timer queue of a Timer (Timer.php:15-22).

    The source keeps five parallel arrays, `times`, `callbacks`, `args`,
    `hashes` and `seconds`, and splices all five at the same index on every
    insertion and removal. Here the five values stored at one index form one
    `Entry`, so the arrays stay equally long and aligned by construction. */
module Queue {
  import opened Wrappers

  /** A timer's name: the byte string drawn from `random_bytes`. */
  type Hash = seq<bv8>

  /** A callable; the scheduler never looks inside it. */
  type Callback = nat

  /** One argument value; the scheduler never looks inside it. */
  type Value = int

  /** One pending timer. `deadline` is its `times` entry and `seconds` the
      delay it was added with, both as integers in units of 10^-scale
      seconds (the fixed-point values `bcadd` and `bccomp` work on). */
  datatype Entry = Entry(deadline: int, callback: Callback, args: seq<Value>, hash: Hash, seconds: int)

  /** One invocation `callback(...args)`. */
  datatype Call = Call(callback: Callback, args: seq<Value>)

  function CallOf(e: Entry): Call {
    Call(e.callback, e.args)
  }

  /** The invocations of the entries of `q`, in queue order. */
  function Calls(q: seq<Entry>): (r: seq<Call>)
    ensures |r| == |q|
    ensures forall k :: 0 <= k < |q| ==> r[k] == CallOf(q[k])
  {
    if q == [] then [] else [CallOf(q[0])] + Calls(q[1..])
  }

  /** Deadlines never decrease from front to back. */
  predicate Sorted(q: seq<Entry>) {
    forall i, j :: 0 <= i < j < |q| ==> q[i].deadline <= q[j].deadline
  }

  /** Some entry of `q` carries hash `h`. */
  predicate Pending(q: seq<Entry>, h: Hash) {
    exists k :: 0 <= k < |q| && q[k].hash == h
  }

  /** No two entries of `q` carry the same hash. */
  predicate UniqueHashes(q: seq<Entry>) {
    forall i, j :: 0 <= i < j < |q| ==> q[i].hash != q[j].hash
  }

  /** `i` is the first index of `q` whose entry carries hash `h`. */
  predicate FirstMatch(q: seq<Entry>, h: Hash, i: int) {
    && 0 <= i < |q|
    && q[i].hash == h
    && forall k :: 0 <= k < i ==> q[k].hash != h
  }

  /** `p` is the first index of `q` whose deadline is later than `d`, or |q|
      when there is none. */
  predicate InsertionPointOf(q: seq<Entry>, d: int, p: int) {
    && 0 <= p <= |q|
    && (forall k :: 0 <= k < p ==> q[k].deadline <= d)
    && (p < |q| ==> d < q[p].deadline)
  }

  /** `r` is `q` with `e` placed at index `p`. */
  predicate InsertedAt(q: seq<Entry>, r: seq<Entry>, p: int, e: Entry) {
    0 <= p <= |q| && r == q[..p] + [e] + q[p..]
  }

  /** The scan of `add` (Timer.php:115-118): step past every entry whose
      deadline is not later than `d`, starting at index `i`. */
  function ScanInsert(q: seq<Entry>, d: int, i: nat): (p: nat)
    requires i <= |q|
    ensures i <= p <= |q|
    ensures forall k :: i <= k < p ==> q[k].deadline <= d
    ensures p < |q| ==> d < q[p].deadline
    decreases |q| - i
  {
    if i < |q| && q[i].deadline <= d then ScanInsert(q, d, i + 1) else i
  }

  /** Where `add` splices a new entry with deadline `d`. */
  function InsertionPoint(q: seq<Entry>, d: int): (p: nat)
    ensures InsertionPointOf(q, d, p)
  {
    ScanInsert(q, d, 0)
  }

  /** `array_splice($a, p, 0, [e])` on every array. */
  function Insert(q: seq<Entry>, p: nat, e: Entry): (r: seq<Entry>)
    requires p <= |q|
    ensures |r| == |q| + 1
    ensures r[p] == e
    ensures forall k :: 0 <= k < p ==> r[k] == q[k]
    ensures forall k :: p < k < |r| ==> r[k] == q[k - 1]
    ensures InsertedAt(q, r, p, e)
  {
    q[..p] + [e] + q[p..]
  }

  /** `array_splice($a, i, 1)` on every array. */
  function RemoveAt(q: seq<Entry>, i: nat): (r: seq<Entry>)
    requires i < |q|
    ensures |r| == |q| - 1
    ensures forall k :: 0 <= k < i ==> r[k] == q[k]
    ensures forall k :: i <= k < |r| ==> r[k] == q[k + 1]
  {
    q[..i] + q[i + 1..]
  }

  /** The hash scan shared by `remove`, `seconds` and `status`, from index `i`. */
  function FindFrom(q: seq<Entry>, h: Hash, i: nat): (r: Option<nat>)
    requires i <= |q|
    ensures r.Some? ==> i <= r.value < |q| && q[r.value].hash == h
    ensures r.Some? ==> forall k :: i <= k < r.value ==> q[k].hash != h
    ensures r.None? ==> forall k :: i <= k < |q| ==> q[k].hash != h
    decreases |q| - i
  {
    if i == |q| then None
    else if q[i].hash == h then Some(i)
    else FindFrom(q, h, i + 1)
  }

  /** The index of the first entry carrying `h`, if any. */
  function Find(q: seq<Entry>, h: Hash): (r: Option<nat>)
    ensures r.Some? ==> FirstMatch(q, h, r.value)
    ensures r.None? <==> !Pending(q, h)
  {
    FindFrom(q, h, 0)
  }

  /** What the scan of `force` leaves behind and the calls it made. */
  datatype Forced = Forced(queue: seq<Entry>, fired: seq<Call>)

  /** The loop of `force` (Timer.php:219-232) from index `i`: every entry
      met that carries `h` is called and spliced out, and the index then
      steps on regardless, so the entry that slid into the freed slot is
      not looked at. */
  function ForceScan(q: seq<Entry>, h: Hash, i: nat): (r: Forced)
    ensures |r.queue| + |r.fired| == |q|
    ensures i <= |q| ==> i <= |r.queue| && r.queue[..i] == q[..i]
    decreases |q| - i
  {
    if i >= |q| then Forced(q, [])
    else if q[i].hash == h then
      var rest := ForceScan(RemoveAt(q, i), h, i + 1);
      Forced(rest.queue, [CallOf(q[i])] + rest.fired)
    else ForceScan(q, h, i + 1)
  }

  /** With `h` absent from index `i` on, the scan of `force` changes nothing. */
  lemma {:induction false} ForceScanAbsent(q: seq<Entry>, h: Hash, i: nat)
    requires forall k :: i <= k < |q| ==> q[k].hash != h
    ensures ForceScan(q, h, i) == Forced(q, [])
    decreases |q| - i
  {
    if i < |q| {
      ForceScanAbsent(q, h, i + 1);
    }
  }

  /** Under unique hashes the scan of `force` calls and removes exactly the
      entry carrying `h`, or does nothing when no entry carries it. */
  lemma {:induction false} ForceScanUnique(q: seq<Entry>, h: Hash, i: nat)
    requires UniqueHashes(q)
    requires i <= |q|
    ensures FindFrom(q, h, i).None? ==> ForceScan(q, h, i) == Forced(q, [])
    ensures FindFrom(q, h, i).Some? ==>
      var j := FindFrom(q, h, i).value;
      ForceScan(q, h, i) == Forced(RemoveAt(q, j), [CallOf(q[j])])
    decreases |q| - i
  {
    if i == |q| {
    } else if q[i].hash == h {
      var q' := RemoveAt(q, i);
      forall k | i + 1 <= k < |q'|
        ensures q'[k].hash != h
      {
        assert q'[k] == q[k + 1];
      }
      ForceScanAbsent(q', h, i + 1);
    } else {
      ForceScanUnique(q, h, i + 1);
    }
  }

  /** The scan of `force` from the front: nothing happens for an unknown
      hash, and under unique hashes exactly the matching entry is called and
      removed. */
  lemma ForceScanFromFront(q: seq<Entry>, h: Hash)
    ensures !Pending(q, h) ==> ForceScan(q, h, 0) == Forced(q, [])
    ensures UniqueHashes(q) && Pending(q, h) ==>
      exists i :: FirstMatch(q, h, i) && ForceScan(q, h, 0) == Forced(RemoveAt(q, i), [CallOf(q[i])])
  {
    if !Pending(q, h) {
      ForceScanAbsent(q, h, 0);
    } else if UniqueHashes(q) {
      ForceScanUnique(q, h, 0);
      assert FirstMatch(q, h, Find(q, h).value);
    }
  }

  /** Placing an entry where `add` places it keeps the queue sorted. */
  lemma InsertKeepsSorted(q: seq<Entry>, p: nat, e: Entry)
    requires Sorted(q)
    requires InsertionPointOf(q, e.deadline, p)
    ensures Sorted(Insert(q, p, e))
  {
  }

  /** An entry placed where `add` places it follows every entry due no later
      than it and precedes every entry due later; taking it out again gives
      back the old queue. */
  lemma InsertIsStable(q: seq<Entry>, p: nat, e: Entry)
    requires Sorted(q)
    requires InsertionPointOf(q, e.deadline, p)
    ensures forall k :: 0 <= k < p ==> Insert(q, p, e)[k].deadline <= e.deadline
    ensures forall k :: p < k < |q| + 1 ==> e.deadline < Insert(q, p, e)[k].deadline
    ensures RemoveAt(Insert(q, p, e), p) == q
  {
  }

  /** Splicing one entry out keeps sortedness and hash uniqueness, and
      leaves no hash pending that was not pending before. */
  lemma RemoveAtKeeps(q: seq<Entry>, i: nat)
    requires i < |q|
    ensures Sorted(q) ==> Sorted(RemoveAt(q, i))
    ensures UniqueHashes(q) ==> UniqueHashes(RemoveAt(q, i))
    ensures UniqueHashes(q) ==> !Pending(RemoveAt(q, i), q[i].hash)
  {
  }

  /** Splicing out entry `i` keeps every other hash's pending status. */
  lemma OthersStayPending(q: seq<Entry>, i: nat)
    requires i < |q|
    ensures forall g :: g != q[i].hash ==> (Pending(RemoveAt(q, i), g) <==> Pending(q, g))
  {
    var r := RemoveAt(q, i);
    forall g | g != q[i].hash
      ensures Pending(r, g) <==> Pending(q, g)
    {
      if Pending(q, g) {
        var k :| 0 <= k < |q| && q[k].hash == g;
        if k < i { assert r[k] == q[k]; } else { assert r[k - 1] == q[k]; }
      }
      if Pending(r, g) {
        var k :| 0 <= k < |r| && r[k].hash == g;
        if k < i { assert r[k] == q[k]; } else { assert r[k] == q[k + 1]; }
      }
    }
  }
}
