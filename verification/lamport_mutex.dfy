/** The local half of Lamport's distributed mutual exclusion algorithm as
    `service/LamportMutexService` implements it: a Lamport clock and a queue
    of pending requests, with the operations run one at a time (the
    `synchronized` monitor is what serialises them in the service). */
module LamportMutex {
  import opened JavaLang
  import opened Wrappers
  import opened Requests

  /** The service's state. `processId` is the UUID the service draws when it
      is built, taken here as a parameter. `queue` holds the contents of the
      `PriorityBlockingQueue`; its iteration order is unspecified, so every
      contract below speaks of the queue's multiset or its membership only. */
  datatype Service = Service(clock: Long, processId: JString, queue: seq<Request>)

  /** A freshly constructed service: clock 0, nothing queued, so it cannot
      enter before it has requested. */
  function NewService(processId: JString): (s: Service)
    ensures s.clock == 0 && s.processId == processId
    ensures OwnCount(s) == 0 && OwnRequestsOnly(s) && StampedBeforeClock(s)
    ensures CanEnterCriticalSection(s) == Failure(NoSuchElement)
  {
    Service(0, processId, [])
  }

  /** `++` on a Java `long`, which wraps from LONG_MAX to LONG_MIN. */
  function NextClock(c: Long): Long
  {
    if c == LONG_MAX then LONG_MIN else c + 1
  }

  /** `incrementClock`: advances the clock and returns the new value. */
  function IncrementClock(s: Service): (res: (Service, Long))
    ensures res.0.clock == res.1
    ensures res.0.processId == s.processId && res.0.queue == s.queue
    ensures s.clock < LONG_MAX ==> res.1 == s.clock + 1
    ensures s.clock == LONG_MAX ==> res.1 == LONG_MIN
  {
    var t := NextClock(s.clock);
    (s.(clock := t), t)
  }

  /** The service after `n` calls of `incrementClock`. */
  function Ticks(s: Service, n: nat): Service
    decreases n
  {
    if n == 0 then s else Ticks(IncrementClock(s).0, n - 1)
  }

  /** Started from 0, the clock counts the increments: it never wraps in
      fewer than LONG_MAX steps, and each step raises it by exactly one. */
  lemma {:induction false} ClockCountsIncrements(s: Service, n: nat)
    requires s.clock + n <= LONG_MAX
    ensures Ticks(s, n).clock == s.clock + n
    ensures Ticks(s, n).queue == s.queue
    decreases n
  {
    if n > 0 {
      ClockCountsIncrements(IncrementClock(s).0, n - 1);
    }
  }

  /** The requests of `q` whose id is `pid` (when `own`) or is not `pid`
      (when `!own`), in queue order. */
  function Select(q: seq<Request>, pid: JString, own: bool): (r: seq<Request>)
    ensures |r| <= |q|
  {
    if q == [] then []
    else (if (q[0].processId == pid) == own then [q[0]] else []) + Select(q[1..], pid, own)
  }

  /** Selection keeps each matching request with its multiplicity and drops
      every other one. */
  lemma {:induction false} SelectMultiset(q: seq<Request>, pid: JString, own: bool)
    ensures forall x :: multiset(Select(q, pid, own))[x]
                        == if (x.processId == pid) == own then multiset(q)[x] else 0
  {
    if q != [] {
      SelectMultiset(q[1..], pid, own);
      assert q == [q[0]] + q[1..];
    }
  }

  lemma SelectMember(q: seq<Request>, pid: JString, own: bool, x: Request)
    ensures x in Select(q, pid, own) <==> x in q && (x.processId == pid) == own
  {
  }

  /** How many of the service's own requests are queued. */
  function OwnCount(s: Service): nat
  {
    |Select(s.queue, s.processId, true)|
  }

  /** Two different own requests in the queue count as two. */
  lemma {:induction false} OwnCountAtLeastTwo(q: seq<Request>, pid: JString, m: Request, m': Request)
    requires m in q && m' in q && m != m'
    requires m.processId == pid && m'.processId == pid
    ensures |Select(q, pid, true)| >= 2
  {
    if q[0] == m {
      SelectMember(q[1..], pid, true, m');
    } else if q[0] == m' {
      SelectMember(q[1..], pid, true, m);
    } else {
      OwnCountAtLeastTwo(q[1..], pid, m, m');
    }
  }

  /** `stream().filter(own).findFirst()`: the first own request in
      iteration order, if any. */
  function FindOwn(q: seq<Request>, pid: JString): (r: Option<Request>)
    ensures r.None? <==> forall x | x in q :: x.processId != pid
    ensures r.Some? ==> r.value in q && r.value.processId == pid
  {
    if q == [] then None
    else if q[0].processId == pid then Some(q[0])
    else FindOwn(q[1..], pid)
  }

  /** `stream().filter(r -> r.compareTo(mine) < 0).count()`. */
  function CountSmaller(q: seq<Request>, mine: Request): (n: nat)
    ensures n == 0 <==> forall x | x in q :: Compare(x, mine) >= 0
    ensures n <= |q|
  {
    if q == [] then 0
    else (if Compare(q[0], mine) < 0 then 1 else 0) + CountSmaller(q[1..], mine)
  }

  /** The exception `orElseThrow` raises when no own request is queued. */
  datatype MutexError = NoSuchElement

  /** `canEnterCriticalSection`. The own request is the one `findFirst`
      picks; the precondition that at most one is queued is what makes that
      pick, and so the answer, independent of the unspecified iteration
      order (see `TwoOwnRequestsAmbiguous`). */
  function CanEnterCriticalSection(s: Service): (r: Result<bool, MutexError>)
    requires OwnCount(s) <= 1
    ensures r == Failure(NoSuchElement) <==> forall x | x in s.queue :: x.processId != s.processId
    ensures forall m | m in s.queue && m.processId == s.processId ::
              r == Success(forall x | x in s.queue :: Compare(x, m) >= 0)
  {
    match FindOwn(s.queue, s.processId)
    case None => Failure(NoSuchElement)
    case Some(mine) =>
      forall m | m in s.queue && m.processId == s.processId
        ensures m == mine
      {
        if m != mine {
          OwnCountAtLeastTwo(s.queue, s.processId, m, mine);
        }
      }
      Success(CountSmaller(s.queue, mine) == 0)
  }

  /** The same check as the stream pipeline runs it: a scan for the own
      request, then a count of the requests ordered before it. */
  method CheckCanEnter(s: Service) returns (r: Result<bool, MutexError>)
    requires OwnCount(s) <= 1
    ensures r == CanEnterCriticalSection(s)
  {
    var q := s.queue;
    var i := 0;
    while i < |q| && q[i].processId != s.processId
      invariant 0 <= i <= |q|
      invariant forall j | 0 <= j < i :: q[j].processId != s.processId
    {
      i := i + 1;
    }
    if i == |q| {
      return Failure(NoSuchElement);
    }
    var mine := q[i];
    var count := 0;
    var j := 0;
    while j < |q|
      invariant 0 <= j <= |q|
      invariant count == 0 <==> forall k | 0 <= k < j :: Compare(q[k], mine) >= 0
    {
      if Compare(q[j], mine) < 0 {
        count := count + 1;
      }
      j := j + 1;
    }
    r := Success(count == 0);
  }

  /** With its one own request `m` queued, the service may enter exactly
      when `m` is the least queued request in Lamport's total order. */
  lemma CanEnterIffLeast(s: Service, m: Request)
    requires OwnCount(s) <= 1
    requires m in s.queue && m.processId == s.processId
    ensures CanEnterCriticalSection(s) == Success(true)
            <==> forall x | x in s.queue :: x == m || Precedes(m, x)
  {
    forall x | x in s.queue
      ensures Compare(x, m) >= 0 <==> x == m || Precedes(m, x)
    {
      CompareAntisymmetric(x, m);
    }
  }

  /** The answer depends on the queue's contents only, not on the order the
      queue happens to iterate them in. */
  lemma CanEnterOrderIndependent(s: Service, q: seq<Request>)
    requires OwnCount(s) <= 1
    requires multiset(q) == multiset(s.queue)
    ensures OwnCount(s.(queue := q)) <= 1
    ensures CanEnterCriticalSection(s.(queue := q)) == CanEnterCriticalSection(s)
  {
    SelectPermutation(q, s.queue, s.processId, true);
    forall x
      ensures x in q <==> x in s.queue
    {
      assert x in q <==> x in multiset(q);
      assert x in s.queue <==> x in multiset(s.queue);
    }
  }

  /** Selections from two orderings of the same requests have the same size. */
  lemma SelectPermutation(q: seq<Request>, q': seq<Request>, pid: JString, own: bool)
    requires multiset(q) == multiset(q')
    ensures |Select(q, pid, own)| == |Select(q', pid, own)|
  {
    SelectMultiset(q, pid, own);
    SelectMultiset(q', pid, own);
    assert multiset(Select(q, pid, own)) == multiset(Select(q', pid, own));
    assert |multiset(Select(q, pid, own))| == |Select(q, pid, own)|;
    assert |multiset(Select(q', pid, own))| == |Select(q', pid, own)|;
  }

  /** With two own requests queued, the answer depends on which one
      `findFirst` meets first: the earlier one passes the check, the later
      one fails it. */
  lemma TwoOwnRequestsAmbiguous(pid: JString)
    ensures var s := RequestMutex(RequestMutex(NewService(pid)));
            var m1, m2 := Request(1, pid), Request(2, pid);
            && multiset(s.queue) == multiset{m1, m2}
            && OwnCount(s) == 2
            && (forall x | x in s.queue :: Compare(x, m1) >= 0)
            && !(forall x | x in s.queue :: Compare(x, m2) >= 0)
  {
    var m1, m2 := Request(1, pid), Request(2, pid);
    var s := RequestMutex(RequestMutex(NewService(pid)));
    assert s.queue == [m1, m2];
    assert Select(s.queue, pid, true) == [m1, m2];
    CompareReflexive(m1);
    assert Compare(m1, m2) < 0;
  }

  /** `requestMutex`: stamps a request with the incremented clock and adds
      it to the queue. */
  function RequestMutex(s: Service): (s': Service)
    ensures s'.processId == s.processId
    ensures s'.clock == IncrementClock(s).1
    ensures multiset(s'.queue) == multiset(s.queue) + multiset{Request(s'.clock, s.processId)}
    ensures |s'.queue| == |s.queue| + 1
  {
    var (ticked, t) := IncrementClock(s);
    ticked.(queue := ticked.queue + [Request(t, s.processId)])
  }

  /** A request adds exactly one own request and keeps every queued one. */
  lemma RequestMutexAddsOne(s: Service)
    ensures OwnCount(RequestMutex(s)) == OwnCount(s) + 1
    ensures forall x | x in s.queue :: x in RequestMutex(s).queue
  {
    var s' := RequestMutex(s);
    assert s'.queue == s.queue + [Request(s'.clock, s.processId)];
    SelectAppend(s.queue, Request(s'.clock, s.processId), s.processId, true);
  }

  /** Selecting from a queue extended at the end extends the selection. */
  lemma {:induction false} SelectAppend(q: seq<Request>, x: Request, pid: JString, own: bool)
    ensures Select(q + [x], pid, own)
            == Select(q, pid, own) + (if (x.processId == pid) == own then [x] else [])
  {
    if q != [] {
      SelectAppend(q[1..], x, pid, own);
      assert (q + [x])[1..] == q[1..] + [x];
    }
  }

  /** `releaseMutex`: removes every request carrying the own id. */
  function ReleaseMutex(s: Service): (s': Service)
    ensures s'.clock == s.clock && s'.processId == s.processId
    ensures forall x :: multiset(s'.queue)[x] == if x.processId == s.processId then 0 else multiset(s.queue)[x]
  {
    SelectMultiset(s.queue, s.processId, false);
    s.(queue := Select(s.queue, s.processId, false))
  }

  lemma {:induction false} SelectIdempotent(q: seq<Request>, pid: JString, own: bool)
    ensures Select(Select(q, pid, own), pid, own) == Select(q, pid, own)
  {
    if q != [] {
      SelectIdempotent(q[1..], pid, own);
      var head := if (q[0].processId == pid) == own then [q[0]] else [];
      var rest := Select(q[1..], pid, own);
      assert Select(q, pid, own) == head + rest;
      if head != [] {
        assert (head + rest)[0] == q[0] && (head + rest)[1..] == rest;
        assert Select(head + rest, pid, own) == head + Select(rest, pid, own);
      } else {
        assert head + rest == rest;
      }
    }
  }

  /** Releasing twice is releasing once. */
  lemma ReleaseIdempotent(s: Service)
    ensures ReleaseMutex(ReleaseMutex(s)) == ReleaseMutex(s)
  {
    SelectIdempotent(s.queue, s.processId, false);
  }

  /** After a release no own request is left, so `canEnterCriticalSection`
      can only throw. */
  lemma ReleaseDisablesCanEnter(s: Service)
    ensures OwnCount(ReleaseMutex(s)) == 0
    ensures CanEnterCriticalSection(ReleaseMutex(s)) == Failure(NoSuchElement)
  {
    var s' := ReleaseMutex(s);
    SelectMultiset(s'.queue, s.processId, true);
    assert multiset(Select(s'.queue, s.processId, true)) == multiset{};
    forall x | x in s'.queue
      ensures x.processId != s.processId
    {
      assert x in multiset(s'.queue);
    }
  }

  /** The public operations of the service. */
  datatype Call = IncrementClockCall | RequestMutexCall | CanEnterCall | ReleaseMutexCall

  /** The state after one call. `canEnterCriticalSection` only reads the
      state, and leaves it as it was whether it answers or throws. */
  function Step(s: Service, c: Call): Service
  {
    match c
    case IncrementClockCall => IncrementClock(s).0
    case RequestMutexCall => RequestMutex(s)
    case CanEnterCall => s
    case ReleaseMutexCall => ReleaseMutex(s)
  }

  function Run(s: Service, calls: seq<Call>): Service
    decreases |calls|
  {
    if calls == [] then s else Run(Step(s, calls[0]), calls[1..])
  }

  /** No code path queues a foreign request: every queued request carries
      the service's own id. */
  predicate OwnRequestsOnly(s: Service)
  {
    forall x | x in s.queue :: x.processId == s.processId
  }

  /** The clock has not wrapped, and every queued request was stamped at
      some clock value reached so far. */
  predicate StampedBeforeClock(s: Service)
  {
    && 0 <= s.clock
    && forall x | x in s.queue :: 1 <= x.timestamp <= s.clock
  }

  lemma StepKeepsOwnRequestsOnly(s: Service, c: Call)
    requires OwnRequestsOnly(s)
    ensures OwnRequestsOnly(Step(s, c))
  {
    var s' := Step(s, c);
    forall x | x in s'.queue
      ensures x.processId == s.processId
    {
      assert x in multiset(s'.queue);
      if c == RequestMutexCall && x != Request(s'.clock, s.processId) {
        assert x in multiset(s.queue);
      } else if c == ReleaseMutexCall {
        assert x in multiset(s.queue);
      }
    }
  }

  /** Any sequence of the service's calls, however long, queues only own
      requests. */
  lemma {:induction false} RunKeepsOwnRequestsOnly(s: Service, calls: seq<Call>)
    requires OwnRequestsOnly(s)
    ensures OwnRequestsOnly(Run(s, calls))
    ensures Run(s, calls).processId == s.processId
    decreases |calls|
  {
    if calls != [] {
      StepKeepsOwnRequestsOnly(s, calls[0]);
      RunKeepsOwnRequestsOnly(Step(s, calls[0]), calls[1..]);
    }
  }

  lemma StepKeepsStampedBeforeClock(s: Service, c: Call)
    requires StampedBeforeClock(s) && s.clock < LONG_MAX
    ensures StampedBeforeClock(Step(s, c))
    ensures Step(s, c).clock <= s.clock + 1
  {
    var s' := Step(s, c);
    forall x | x in s'.queue
      ensures 1 <= x.timestamp <= s'.clock
    {
      assert x in multiset(s'.queue);
      if c == RequestMutexCall && x != Request(s'.clock, s.processId) {
        assert x in multiset(s.queue);
      } else if c == ReleaseMutexCall {
        assert x in multiset(s.queue);
      }
    }
  }

  /** While the clock cannot wrap, every queued request stays stamped between
      1 and the current clock, and each call raises the clock by at most one. */
  lemma {:induction false} RunKeepsStampedBeforeClock(s: Service, calls: seq<Call>)
    requires StampedBeforeClock(s) && s.clock + |calls| <= LONG_MAX
    ensures StampedBeforeClock(Run(s, calls))
    ensures Run(s, calls).clock <= s.clock + |calls|
    decreases |calls|
  {
    if calls != [] {
      StepKeepsStampedBeforeClock(s, calls[0]);
      RunKeepsStampedBeforeClock(Step(s, calls[0]), calls[1..]);
    }
  }

  /** When only own requests are queued and at most one of them, the gate
      never holds the service back: with its request queued it may enter. */
  lemma SoleRequestCanEnter(s: Service)
    requires OwnRequestsOnly(s) && OwnCount(s) <= 1
    ensures CanEnterCriticalSection(s)
            == if s.queue == [] then Failure(NoSuchElement) else Success(true)
  {
    if s.queue != [] {
      var m := s.queue[0];
      forall x | x in s.queue
        ensures x == m
      {
        if x != m {
          OwnCountAtLeastTwo(s.queue, s.processId, x, m);
        }
      }
      CompareReflexive(m);
    }
  }

  /** So in every state the service's own calls reach with at most one own
      request queued, the check passes as soon as that request is queued. */
  lemma ReachableCanAlwaysEnter(pid: JString, calls: seq<Call>)
    requires OwnCount(Run(NewService(pid), calls)) <= 1
    ensures var s := Run(NewService(pid), calls);
            CanEnterCriticalSection(s) == (if s.queue == [] then Failure(NoSuchElement) else Success(true))
  {
    RunKeepsOwnRequestsOnly(NewService(pid), calls);
    SoleRequestCanEnter(Run(NewService(pid), calls));
  }

  /** A new request is stamped later than every request already queued, so
      it comes last in the total order. */
  lemma RequestMutexIsLatest(s: Service)
    requires StampedBeforeClock(s) && s.clock < LONG_MAX
    ensures forall x | x in s.queue :: Precedes(x, Request(RequestMutex(s).clock, s.processId))
  {
  }
}
