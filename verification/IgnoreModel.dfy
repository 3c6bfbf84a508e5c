/** The list of temporarily ignored BSSIDs, and what a history of operations on it means. */
module IgnoreModel {
  import opened Wrappers
  import opened Elements
  import opened RelTime

  const GRACE_SECS := 3600

  datatype Rec = Rec(bssid: Octets, count: int, start: Time, timeoutSecs: int)

  /** How long an entry is ignored, by the number of times it was added. */
  function TimeoutFor(count: int): int {
    if count > 5 then 1800
    else if count == 5 then 600
    else if count == 4 then 120
    else if count == 3 then 60
    else 10
  }

  /** An entry that expired more than an hour ago. */
  predicate Stale(r: Rec, now: Time) {
    Expired(now, r.start, r.timeoutSecs + GRACE_SECS)
  }

  // ----- the list with its lazy sweeping

  function Sweep(l: seq<Rec>, now: Time): seq<Rec> {
    if l == [] then []
    else (if Stale(l[0], now) then [] else [l[0]]) + Sweep(l[1..], now)
  }

  function Find(l: seq<Rec>, bssid: Octets): (k: nat)
    ensures k <= |l| && (k < |l| ==> l[k].bssid == bssid)
    ensures forall j :: 0 <= j < k ==> l[j].bssid != bssid
  {
    if l == [] then 0 else if l[0].bssid == bssid then 0 else 1 + Find(l[1..], bssid)
  }

  function Lookup(l: seq<Rec>, bssid: Octets): Option<Rec> {
    var k := Find(l, bssid);
    if k < |l| then Some(l[k]) else None
  }

  function Bumped(r: Rec, now: Time): Rec {
    r.(start := now, count := r.count + 1, timeoutSecs := TimeoutFor(r.count + 1))
  }

  function AddTo(l: seq<Rec>, bssid: Octets, now: Time): seq<Rec> {
    var k := Find(l, bssid);
    if k < |l| then l[k := Bumped(l[k], now)] else [Rec(bssid, 1, now, 10)] + l
  }

  function DeleteFrom(l: seq<Rec>, bssid: Octets): seq<Rec> {
    var k := Find(l, bssid);
    if k < |l| then l[..k] + l[k + 1..] else l
  }

  // ----- histories

  /** The clock is read once for the sweep, and once more where the operation needs the time itself. */
  datatype Op =
    | Get(bssid: Octets, sweep: Time)
    | Add(bssid: Octets, sweep: Time, now: Time)
    | IsListed(bssid: Octets, sweep: Time, now: Time)
    | Del(bssid: Octets)
    | Clear
    | SetReconfigured(flag: bool)
    | Update(sweep: Time)

  datatype History = Start(at: Time) | After(prev: History, op: Op)

  predicate Sweeps(op: Op) {
    op.Get? || op.Add? || op.IsListed?
  }

  /** Whether the current network counts as recently reconfigured. */
  function Reconfigured(h: History): bool {
    match h
    case Start(_) => false
    case After(prev, op) =>
      if op.SetReconfigured? then op.flag else if Sweeps(op) then false else Reconfigured(prev)
  }

  /** The last reading of the clock. */
  function Clock(h: History): Time {
    match h
    case Start(at) => at
    case After(prev, Get(_, sweep)) => sweep
    case After(prev, Add(_, _, now)) => now
    case After(prev, IsListed(_, _, now)) => now
    case After(prev, Update(sweep)) => sweep
    case After(prev, _) => Clock(prev)
  }

  predicate NotBefore(a: Time, b: Time) {
    Micros(b) <= Micros(a)
  }

  /** The clock never goes back. */
  predicate Monotone(h: History) {
    match h
    case Start(_) => true
    case After(prev, op) =>
      Monotone(prev)
      && (Sweeps(op) || op.Update? ==> NotBefore(op.sweep, Clock(prev)))
      && (op.Add? || op.IsListed? ==> NotBefore(op.now, op.sweep))
  }

  /** The list as the operations leave it. */
  function ListAfter(h: History): seq<Rec> {
    match h
    case Start(_) => []
    case After(prev, op) =>
      var l := ListAfter(prev);
      match op
      case Get(_, sweep) => if Reconfigured(prev) then [] else Sweep(l, sweep)
      case IsListed(_, sweep, _) => if Reconfigured(prev) then [] else Sweep(l, sweep)
      case Add(bssid, sweep, now) => AddTo(if Reconfigured(prev) then [] else Sweep(l, sweep), bssid, now)
      case Del(bssid) => DeleteFrom(l, bssid)
      case Clear => []
      case SetReconfigured(_) => l
      case Update(sweep) => Sweep(l, sweep)
  }

  /** No more than the timeout and another 3600 seconds have passed since the start. */
  predicate Kept(r: Rec, now: Time) {
    Micros(now) - Micros(r.start) <= (r.timeoutSecs + 3600) * 1000000
  }

  lemma KeptIs(r: Rec, now: Time)
    ensures Kept(r, now) <==> !Stale(r, now)
  {
    ExpiredIsExact(now, r.start, r.timeoutSecs + GRACE_SECS);
  }

  /** The timeouts in seconds for counts from one on. */
  function Backoff(count: int): int {
    if 1 <= count <= 5 then [10, 10, 60, 120, 600][count - 1] else if count > 5 then 1800 else 10
  }

  lemma BackoffIs(count: int)
    ensures TimeoutFor(count) == Backoff(count)
  {
  }

  /** What the history says about one BSSID, without any sweeping: an add counts on from the last one
      unless that is absent by then or expired more than an hour ago; deleting and clearing forget it,
      and so does the first operation after a reconfiguration. */
  function Meaning(h: History, bssid: Octets): Option<Rec> {
    match h
    case Start(_) => None
    case After(prev, op) =>
      var m := if Sweeps(op) && Reconfigured(prev) then None else Meaning(prev, bssid);
      match op
      case Get(_, _) => m
      case IsListed(_, _, _) => m
      case Add(b, sweep, now) =>
        if b != bssid then m
        else if m.Some? && Kept(m.value, sweep)
        then Some(Rec(bssid, m.value.count + 1, now, Backoff(m.value.count + 1)))
        else Some(Rec(bssid, 1, now, 10))
      case Del(b) => if b == bssid then None else m
      case Clear => None
      case SetReconfigured(_) => m
      case Update(_) => m
  }

  /** When the list was swept last. */
  function LastSweep(h: History): Time {
    match h
    case Start(at) => at
    case After(prev, op) =>
      if op.Update? || (Sweeps(op) && !Reconfigured(prev)) then op.sweep else LastSweep(prev)
  }

  // ----- the operations follow the history

  lemma ClearedOrSwept(h: History, bssid: Octets, sweep: Time, now: Time)
    ensures var l := if Reconfigured(h) then [] else Sweep(ListAfter(h), sweep);
            && ListAfter(After(h, Get(bssid, sweep))) == l && !Reconfigured(After(h, Get(bssid, sweep)))
            && ListAfter(After(h, IsListed(bssid, sweep, now))) == l
            && !Reconfigured(After(h, IsListed(bssid, sweep, now)))
            && ListAfter(After(h, Add(bssid, sweep, now))) == AddTo(l, bssid, now)
            && !Reconfigured(After(h, Add(bssid, sweep, now)))
  {
  }

  lemma ChangedOnly(h: History, bssid: Octets, sweep: Time, flag: bool)
    ensures ListAfter(After(h, Del(bssid))) == DeleteFrom(ListAfter(h), bssid)
    ensures ListAfter(After(h, Clear)) == [] && ListAfter(After(h, Update(sweep))) == Sweep(ListAfter(h), sweep)
    ensures Reconfigured(After(h, Del(bssid))) == Reconfigured(After(h, Clear)) == Reconfigured(h)
    ensures Reconfigured(After(h, Update(sweep))) == Reconfigured(h)
    ensures ListAfter(After(h, SetReconfigured(flag))) == ListAfter(h)
    ensures Reconfigured(After(h, SetReconfigured(flag))) == flag
  {
  }

  // ----- results

  /** What get answers, by the history alone. */
  function GetAnswer(h: History, bssid: Octets, sweep: Time): Option<Rec> {
    var m := Meaning(h, bssid);
    if !Reconfigured(h) && m.Some? && Kept(m.value, sweep) then m else None
  }

  /** What get finds in the list. */
  function GetInList(h: History, bssid: Octets, sweep: Time): Option<Rec> {
    if Reconfigured(h) then None else Lookup(Sweep(ListAfter(h), sweep), bssid)
  }

  function IsListedInList(h: History, bssid: Octets, sweep: Time, now: Time): int {
    match GetInList(h, bssid, sweep)
    case None => 0
    case Some(r) => if Expired(now, r.start, r.timeoutSecs) then 0 else r.count
  }
}
