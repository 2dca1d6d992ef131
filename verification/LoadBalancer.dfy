/** `reverseproxy/loadbalancer.cc` under the poll rule: who is next, and how evenly servers are chosen. */
module LoadBalancer {
  import opened Arithmetic

  // -- The next available server in cyclic order --

  ghost predicate SomeAvailable(avail: seq<bool>) {
    exists j :: 0 <= j < |avail| && avail[j]
  }

  function Advance(i: nat, n: nat): nat { if i + 1 == n then 0 else i + 1 }

  /** Whether no slot strictly between i and j, going up and around, is available. */
  ghost predicate NoneBetween(avail: seq<bool>, i: nat, j: nat)
    requires i < |avail| && j < |avail|
  {
    if i < j then forall k :: i < k < j ==> !avail[k]
    else (forall k :: i < k < |avail| ==> !avail[k]) && (forall k :: 0 <= k < j ==> !avail[k])
  }

  /** j is the slot the poll stops at when it starts from i. */
  ghost predicate IsNext(avail: seq<bool>, i: nat, j: nat) {
    i < |avail| && j < |avail| && avail[j] && NoneBetween(avail, i, j)
  }

  function FirstFrom(avail: seq<bool>, i: nat): (j: nat)
    requires i <= |avail|
    ensures i <= j <= |avail| && (j < |avail| ==> avail[j])
    ensures forall k :: i <= k < j ==> !avail[k]
    decreases |avail| - i
  {
    if i == |avail| || avail[i] then i else FirstFrom(avail, i + 1)
  }

  function Next(avail: seq<bool>, i: nat): (j: nat)
    requires i < |avail| && SomeAvailable(avail)
    ensures IsNext(avail, i, j)
  {
    var up := FirstFrom(avail, i + 1);
    if up < |avail| then up else FirstFrom(avail, 0)
  }

  lemma NextUnique(avail: seq<bool>, i: nat, j: nat)
    requires IsNext(avail, i, j)
    ensures SomeAvailable(avail) && Next(avail, i) == j
  {
  }

  // -- Ranks: the available servers, numbered from 0 --

  function Count(avail: seq<bool>, i: nat): (c: nat)
    requires i <= |avail|
    ensures c <= i
  {
    if i == 0 then 0 else Count(avail, i - 1) + (if avail[i - 1] then 1 else 0)
  }

  function Total(avail: seq<bool>): nat { Count(avail, |avail|) }

  lemma {:induction false} CountFlat(avail: seq<bool>, a: nat, b: nat)
    requires a <= b <= |avail| && forall k :: a <= k < b ==> !avail[k]
    ensures Count(avail, a) == Count(avail, b)
  {
    if a < b { CountFlat(avail, a, b - 1); }
  }

  lemma {:induction false} CountMonotone(avail: seq<bool>, a: nat, b: nat)
    requires a <= b <= |avail|
    ensures Count(avail, a) <= Count(avail, b)
  {
    if a < b { CountMonotone(avail, a, b - 1); }
  }

  /** Two available servers with one rank are one server. */
  lemma RankInjective(avail: seq<bool>, a: nat, b: nat)
    requires a < |avail| && b < |avail| && avail[a] && avail[b]
    ensures Count(avail, a) == Count(avail, b) <==> a == b
    ensures Count(avail, a) < Total(avail)
  {
    CountMonotone(avail, a + 1, |avail|);
    if a < b {
      CountMonotone(avail, a + 1, b);
    } else if b < a {
      CountMonotone(avail, b + 1, a);
    }
  }

  /** Polling moves to the next rank, and from the last one back to rank 0. */
  lemma NextRank(avail: seq<bool>, i: nat)
    requires i < |avail| && SomeAvailable(avail)
    ensures Total(avail) > 0
    ensures Count(avail, Next(avail, i))
         == if Count(avail, i + 1) == Total(avail) then 0 else Count(avail, i + 1)
  {
    var j := Next(avail, i);
    CountMonotone(avail, j + 1, |avail|);
    if i < j {
      CountFlat(avail, i + 1, j);
    } else {
      CountFlat(avail, i + 1, |avail|);
      CountFlat(avail, 0, j);
    }
  }

  // -- Runs of selections while the available set stays as it is --

  /** The slot after t selections that start from slot i. */
  function Selected(avail: seq<bool>, i: nat, t: nat): (s: nat)
    requires i < |avail| && SomeAvailable(avail)
    ensures s < |avail| && (t > 0 ==> avail[s])
  {
    if t == 0 then i else Next(avail, Selected(avail, i, t - 1))
  }

  lemma SelectedSteps(avail: seq<bool>, i: nat, t: nat)
    requires i < |avail| && SomeAvailable(avail)
    ensures Selected(avail, i, 0) == i && Selected(avail, i, t + 1) == Next(avail, Selected(avail, i, t))
  {
  }

  /** Selections go through the ranks in turn. */
  lemma {:induction false} SelectedRank(avail: seq<bool>, i: nat, t: nat)
    requires i < |avail| && SomeAvailable(avail)
    ensures Total(avail) > 0
    ensures Count(avail, Selected(avail, i, t + 1)) == (Count(avail, i + 1) + t) % Total(avail)
  {
    hide Next, SomeAvailable, NoneBetween;
    var m := Total(avail);
    NextRank(avail, Selected(avail, i, t));
    CountMonotone(avail, i + 1, |avail|);
    if t == 0 {
      WrapOnce(Count(avail, i + 1), m);
    } else {
      SelectedRank(avail, i, t - 1);
      RankInjective(avail, Selected(avail, i, t), Selected(avail, i, t));
      WrapNext(Count(avail, i + 1) + t - 1, m);
    }
  }

  lemma WrapOnce(c: nat, m: nat)
    requires 0 < m && c <= m
    ensures c % m == if c == m then 0 else c
  {
  }

  /** How often slot a is chosen by selections from + 1 to from + len. */
  function Times(avail: seq<bool>, i: nat, from: nat, len: nat, a: nat): nat
    requires i < |avail| && SomeAvailable(avail)
  {
    if len == 0 then 0
    else Times(avail, i, from, len - 1, a) + (if Selected(avail, i, from + len) == a then 1 else 0)
  }

  /** The number of multiples of m in a window, which is how often a rank comes up. */
  lemma {:induction false} TimesByFloors(avail: seq<bool>, i: nat, from: nat, len: nat, a: nat)
    requires i < |avail| && a < |avail| && avail[a] && SomeAvailable(avail)
    ensures Total(avail) > 0
    ensures var x := Count(avail, i + 1) + from - 1 - Count(avail, a);
            Times(avail, i, from, len, a) == (x + len) / Total(avail) - x / Total(avail)
  {
    hide Selected, Count, SomeAvailable;
    RankInjective(avail, a, a);
    if len > 0 {
      TimesByFloors(avail, i, from, len - 1, a);
      var t := from + len - 1;
      SelectedRank(avail, i, t);
      RankInjective(avail, Selected(avail, i, t + 1), a);
      HitStep(Count(avail, i + 1) + t, Count(avail, a), Total(avail));
    }
  }

  lemma HitStep(y: nat, r: nat, m: nat)
    requires r < m
    ensures (y - r) / m == (y - r - 1) / m + (if y % m == r then 1 else 0)
  {
    RemainderHits(y, r, m);
    FloorStep(y - r - 1, m);
  }

  lemma RemainderHits(y: nat, r: nat, m: nat)
    requires r < m
    ensures y % m == r <==> (y - r - 1) % m + 1 == m
  {
    var q, e := y / m, y % m;
    if e > r {
      assert y - r - 1 == q * m + (e - r - 1);
      QuotientUnique(y - r - 1, m, q, e - r - 1);
    } else {
      assert y - r - 1 == (q - 1) * m + (m + e - r - 1);
      QuotientUnique(y - r - 1, m, q - 1, m + e - r - 1);
    }
  }

  lemma FloorWindow(x: int, len: nat, m: nat)
    requires 0 < m
    ensures len / m <= (x + len) / m - x / m <= len / m + 1
    ensures len == m ==> (x + len) / m - x / m == 1
  {
    var q, r, p, s := x / m, x % m, len / m, len % m;
    if r + s < m {
      assert x + len == (q + p) * m + (r + s);
      QuotientUnique(x + len, m, q + p, r + s);
    } else {
      assert x + len == (q + p + 1) * m + (r + s - m);
      QuotientUnique(x + len, m, q + p + 1, r + s - m);
    }
    QuotientUnique(m, m, 1, 0);
  }

  /**
   Fairness: while m servers stay available, every m consecutive selections choose each of them
   exactly once, and in any window at all two of them are chosen equally often up to one.
   */
  lemma PollIsFair(avail: seq<bool>, i: nat, from: nat, len: nat, a: nat, b: nat)
    requires i < |avail| && a < |avail| && b < |avail| && avail[a] && avail[b] && SomeAvailable(avail)
    ensures len == Total(avail) ==> Times(avail, i, from, len, a) == 1
    ensures -1 <= Times(avail, i, from, len, a) - Times(avail, i, from, len, b) <= 1
  {
    hide Times, Selected, Next, Count;
    var m := Total(avail);
    TimesByFloors(avail, i, from, len, a);
    TimesByFloors(avail, i, from, len, b);
    var c := Count(avail, i + 1) + from - 1;
    FloorWindow(c - Count(avail, a), len, m);
    FloorWindow(c - Count(avail, b), len, m);
  }

  // -- Servers that come and go --

  const RETRY_PERIOD: nat := 600_000

  datatype Server = Server(weight: nat, isDown: bool, lastDownTs: nat)

  /** `__IsWebServerAvailable`: a server reported down is tried while its report is recent, as the source has it. */
  predicate Up(s: Server, now: nat) {
    s.weight > 0 && (!s.isDown || s.lastDownTs + RETRY_PERIOD >= now)
  }

  /** A server reported down is tried up to the end of the period, from the report itself on, and not after it. */
  lemma DownServerTriedIff(s: Server, now: nat)
    requires s.weight > 0
    ensures s.isDown ==> (Up(s, now) <==> now <= s.lastDownTs + 600_000)
    ensures !s.isDown ==> Up(s, now)
    ensures var t := s.(isDown := true, lastDownTs := now); Up(t, now) && !Up(t, now + 600_001)
  {
  }

  /** The rule the retry period suggests: a server reported down is tried again once the period has passed. */
  predicate RetriedAfterPeriod(s: Server, now: nat) {
    s.weight > 0 && (!s.isDown || s.lastDownTs + RETRY_PERIOD <= now)
  }

  /** The two rules agree exactly on servers that are never tried, not down, or down for exactly the period. */
  lemma RulesAgreeIff(s: Server, now: nat)
    ensures Up(s, now) == RetriedAfterPeriod(s, now)
       <==> s.weight == 0 || !s.isDown || now == s.lastDownTs + RETRY_PERIOD
  {
  }

  function Availability(servers: seq<Server>, now: nat): (a: seq<bool>)
    ensures |a| == |servers| && forall j :: 0 <= j < |servers| ==> a[j] == Up(servers[j], now)
  {
    seq(|servers|, j requires 0 <= j < |servers| => Up(servers[j], now))
  }

  /** Asking clears the down mark of a server that will be tried. */
  function Asked(s: Server, now: nat): Server { if Up(s, now) then s.(isDown := false) else s }

  /** All that asking at one time may have done to the servers. */
  predicate Touched(before: seq<Server>, after: seq<Server>, now: nat) {
    && |before| == |after|
    && forall j :: 0 <= j < |before| ==> after[j] == before[j] || after[j] == Asked(before[j], now)
  }

  lemma TouchedTwice(a: seq<Server>, b: seq<Server>, c: seq<Server>, now: nat)
    requires Touched(a, b, now) && Touched(b, c, now)
    ensures Touched(a, c, now)
  {
  }

  /** It changes nobody's availability at that time, nor at any time with the same servers available. */
  lemma TouchedKeeps(before: seq<Server>, after: seq<Server>, now: nat, t: nat)
    requires Touched(before, after, now)
    ensures Availability(after, now) == Availability(before, now)
    ensures Availability(before, t) == Availability(before, now) ==> Availability(after, t) == Availability(before, t)
  {
    if Availability(before, t) == Availability(before, now) {
      forall j | 0 <= j < |before|
        ensures Up(after[j], t) == Up(before[j], t)
      {
        assert Availability(before, t)[j] == Availability(before, now)[j];
      }
    }
  }

  /** The list of servers and the place of `last_selected_`. */
  datatype Poll = Poll(servers: seq<Server>, last: nat)

  predicate Within(p: Poll) { p.last < |p.servers| }

  function Turn(p: Poll, now: nat): (r: Poll)
    requires Within(p)
    ensures Within(r) && |r.servers| == |p.servers|
  {
    var i := Advance(p.last, |p.servers|);
    Poll(p.servers[i := Asked(p.servers[i], now)], i)
  }

  /** Whether a turn of the loop is its last. */
  predicate Hits(p: Poll, now: nat)
    requires Within(p)
  {
    Up(p.servers[Advance(p.last, |p.servers|)], now)
  }

  /** The loop, turn after turn, with the clock as it reads at each; it does not stop by itself here. */
  function Turns(p: Poll, clock: seq<nat>): (r: Poll)
    requires Within(p)
    ensures Within(r) && |r.servers| == |p.servers|
  {
    if clock == [] then p else Turn(Turns(p, clock[..|clock| - 1]), clock[|clock| - 1])
  }

  /** The loop returns at the last of these turns. */
  ghost predicate Returns(p: Poll, clock: seq<nat>)
    requires Within(p)
  {
    clock != [] && Hits(Turns(p, clock[..|clock| - 1]), clock[|clock| - 1])
  }

  lemma NoClock(p: Poll, clock: seq<nat>)
    requires Within(p)
    ensures Turns(p, clock[..0]) == p && !Returns(p, clock[..0])
  {
  }

  lemma ClockStep(p: Poll, clock: seq<nat>, i: nat)
    requires Within(p) && i < |clock|
    ensures Turns(p, clock[..i + 1]) == Turn(Turns(p, clock[..i]), clock[i])
    ensures Returns(p, clock[..i + 1]) == Hits(Turns(p, clock[..i]), clock[i])
  {
    assert clock[..i + 1][..i] == clock[..i];
  }

  /** A server that is not tried now is not tried at any later time. */
  ghost predicate Lost(s: Server, now: nat) { forall t: nat :: now <= t ==> !Up(s, t) }

  lemma LostIff(s: Server, now: nat)
    ensures Lost(s, now) <==> !Up(s, now)
  {
  }

  /** Once a server is not tried, no number of turns alone, at whatever later times, changes it or tries it. */
  lemma {:induction false} LostThroughTurns(p: Poll, now: nat, clock: seq<nat>, j: nat)
    requires Within(p) && j < |p.servers| && !Up(p.servers[j], now)
    requires forall i :: 0 <= i < |clock| ==> now <= clock[i]
    ensures Turns(p, clock).servers[j] == p.servers[j] && Lost(Turns(p, clock).servers[j], now)
  {
    hide Up;
    LostIff(p.servers[j], now);
    if clock != [] {
      LostThroughTurns(p, now, clock[..|clock| - 1], j);
    }
  }

  /** With nobody available the loop never returns, whatever the clock does. */
  lemma NeverReturns(p: Poll, now: nat, clock: seq<nat>)
    requires Within(p) && !SomeAvailable(Availability(p.servers, now))
    requires forall i :: 0 <= i < |clock| ==> now <= clock[i]
    ensures !Returns(p, clock)
  {
    hide Up;
    if clock != [] {
      var init, last := clock[..|clock| - 1], clock[|clock| - 1];
      var q := Turns(p, init);
      var i := Advance(q.last, |q.servers|);
      assert !Availability(p.servers, now)[i];
      LostThroughTurns(p, now, init, i);
    }
  }

  /** A loop whose clock stands still. */
  function Still(now: nat, n: nat): seq<nat> { seq(n, _ => now) }

  lemma {:induction false} StillAvailability(p: Poll, now: nat, n: nat)
    requires Within(p)
    ensures Availability(Turns(p, Still(now, n)).servers, now) == Availability(p.servers, now)
  {
    hide Turns, Still;
    if n == 0 {
      NoTurns(p, now);
    } else {
      StillStep(p, now, n);
      StillAvailability(p, now, n - 1);
    }
  }

  /** While it has not returned, the loop has passed only servers that are not available. */
  lemma {:induction false} PassedOver(p: Poll, now: nat, n: nat)
    requires Within(p) && 0 < n <= |p.servers|
    requires forall k :: 0 < k < n ==> !Returns(p, Still(now, k))
    ensures var last := Turns(p, Still(now, n)).last;
            NoneBetween(Availability(p.servers, now), p.last, last) && last == (p.last + n) % |p.servers|
  {
    hide Up, Returns, NoneBetween, Availability, Turn, Turns, Still;
    var avail, size := Availability(p.servers, now), |p.servers|;
    StillStep(p, now, n);
    WrapNext(p.last + n - 1, size);
    if n == 1 {
      NoTurns(p, now);
      WrapOnce(p.last, size);
      PollStart(avail, p.last);
    } else {
      PassedOver(p, now, n - 1);
      MissedAt(p, now, n - 1);
      HasServers(p, now);
      PollAdvances(avail, p.last, Turns(p, Still(now, n - 1)).last);
    }
  }

  lemma HasServers(p: Poll, now: nat)
    ensures |Availability(p.servers, now)| == |p.servers|
  {
  }

  lemma NoTurns(p: Poll, now: nat)
    requires Within(p)
    ensures Turns(p, Still(now, 0)) == p
  {
  }

  lemma StillStep(p: Poll, now: nat, n: nat)
    requires Within(p) && n > 0
    ensures Still(now, n)[..n - 1] == Still(now, n - 1)
    ensures Turns(p, Still(now, n)) == Turn(Turns(p, Still(now, n - 1)), now)
    ensures Turns(p, Still(now, n)).last == Advance(Turns(p, Still(now, n - 1)).last, |p.servers|)
  {
    assert Still(now, n)[..n - 1] == Still(now, n - 1);
  }

  lemma MissedAt(p: Poll, now: nat, n: nat)
    requires Within(p) && n > 0 && !Returns(p, Still(now, n))
    ensures !Availability(p.servers, now)[Turns(p, Still(now, n)).last]
  {
    hide Up, Turns;
    StillStep(p, now, n);
    StillAvailability(p, now, n - 1);
  }

  /** If the clock stands still the loop returns, within one round, if and only if somebody is available. */
  lemma ReturnsIff(p: Poll, now: nat)
    requires Within(p)
    ensures SomeAvailable(Availability(p.servers, now)) <==> exists n: nat :: Returns(p, Still(now, n))
    ensures SomeAvailable(Availability(p.servers, now)) ==>
              exists n :: 0 < n <= |p.servers| && Returns(p, Still(now, n))
  {
    hide Up, Returns, Still;
    if SomeAvailable(Availability(p.servers, now)) {
      if forall n :: 0 < n <= |p.servers| ==> !Returns(p, Still(now, n)) {
        FullRoundMisses(p, now);
        assert false;
      }
    } else {
      forall n: nat
        ensures !Returns(p, Still(now, n))
      {
        StillClock(now, n);
        NeverReturns(p, now, Still(now, n));
      }
    }
  }

  lemma StillClock(now: nat, n: nat)
    ensures forall i :: 0 <= i < |Still(now, n)| ==> now <= Still(now, n)[i]
  {
  }

  lemma FullRoundMisses(p: Poll, now: nat)
    requires Within(p) && forall n :: 0 < n <= |p.servers| ==> !Returns(p, Still(now, n))
    ensures !SomeAvailable(Availability(p.servers, now))
  {
    hide Up, Returns, Still;
    var size := |p.servers|;
    PassedOver(p, now, size);
    MissedAt(p, now, size);
    QuotientUnique(p.last + size, size, 1, p.last);
  }

  // -- The clock moves --

  /** A server that is tried whatever the time. */
  predicate Steady(s: Server) { s.weight > 0 && !s.isDown }

  /** What a clock may read from now on. */
  ghost predicate ClockFrom(now: nat, clock: seq<nat>) {
    && (forall i :: 0 <= i < |clock| ==> now <= clock[i])
    && (forall i, j :: 0 <= i < j < |clock| ==> clock[i] <= clock[j])
  }

  /** Whatever the clock reads from now on, the loop returns within one round. */
  ghost predicate AlwaysReturns(p: Poll, now: nat)
    requires Within(p)
  {
    forall clock: seq<nat> :: ClockFrom(now, clock) && |clock| == |p.servers| ==>
      exists k :: 0 < k <= |clock| && Returns(p, clock[..k])
  }

  ghost predicate SomeSteady(servers: seq<Server>) {
    exists j :: 0 <= j < |servers| && Steady(servers[j])
  }

  lemma {:induction false} CursorMoves(p: Poll, clock: seq<nat>)
    requires Within(p)
    ensures Turns(p, clock).last == (p.last + |clock|) % |p.servers|
  {
    if clock == [] {
      WrapOnce(p.last, |p.servers|);
    } else {
      CursorMoves(p, clock[..|clock| - 1]);
      WrapNext(p.last + |clock| - 1, |p.servers|);
    }
  }

  lemma {:induction false} StaysSteady(p: Poll, clock: seq<nat>, j: nat)
    requires Within(p) && j < |p.servers| && Steady(p.servers[j])
    ensures Steady(Turns(p, clock).servers[j])
  {
    if clock != [] {
      StaysSteady(p, clock[..|clock| - 1], j);
    }
  }

  /** How many turns it takes to reach a slot. */
  function TurnsTo(last: nat, j: nat, n: nat): nat
    requires last < n && j < n
  {
    if j > last then j - last else n + j - last
  }

  /** A steady server is found within one round, whatever the clock reads. */
  lemma SteadyIsFound(p: Poll, clock: seq<nat>, j: nat)
    requires Within(p) && j < |p.servers| && Steady(p.servers[j]) && |clock| == |p.servers|
    ensures var k := TurnsTo(p.last, j, |clock|); 0 < k <= |clock| && Returns(p, clock[..k])
  {
    hide Turns, Returns, Turn, Steady;
    var n := |clock|;
    var k := TurnsTo(p.last, j, n);
    CursorMoves(p, clock[..k]);
    if j > p.last {
      WrapOnce(j, n);
    } else {
      QuotientUnique(n + j, n, 1, j);
    }
    ClockStep(p, clock, k - 1);
    StaysSteady(p, clock[..k - 1], j);
    SteadyHits(Turns(p, clock[..k - 1]), clock[k - 1]);
  }

  lemma SteadyHits(p: Poll, now: nat)
    requires Within(p)
    ensures Turn(p, now).last == Advance(p.last, |p.servers|)
    ensures Steady(p.servers[Turn(p, now).last]) ==> Hits(p, now)
  {
  }

  /** A time after which no server is tried but the steady ones. */
  lemma {:induction false} LateTime(servers: seq<Server>, now: nat) returns (late: nat)
    ensures now <= late && forall j :: 0 <= j < |servers| ==> (Up(servers[j], late) <==> Steady(servers[j]))
    ensures forall j, t :: 0 <= j < |servers| && late <= t ==> (Up(servers[j], t) <==> Steady(servers[j]))
  {
    if servers == [] {
      late := now;
    } else {
      var init, s := servers[..|servers| - 1], servers[|servers| - 1];
      var before := LateTime(init, now);
      late := if before > s.lastDownTs + RETRY_PERIOD then before else s.lastDownTs + RETRY_PERIOD + 1;
      forall j, t | 0 <= j < |servers| && late <= t
        ensures Up(servers[j], t) <==> Steady(servers[j])
      {
        if j < |init| {
          assert servers[j] == init[j];
        }
      }
    }
  }

  /**
   With a clock that moves on between turns: the loop returns, and then within one round, whatever the clock
   reads, if and only if some server has weight and is not marked down. Nothing less is enough to rely on.
   */
  lemma AlwaysReturnsIff(p: Poll, now: nat)
    requires Within(p)
    ensures AlwaysReturns(p, now) <==> SomeSteady(p.servers)
  {
    hide Up, Returns, Turns, Steady;
    if SomeSteady(p.servers) {
      var j :| 0 <= j < |p.servers| && Steady(p.servers[j]);
      forall clock: seq<nat> | ClockFrom(now, clock) && |clock| == |p.servers|
        ensures exists k :: 0 < k <= |clock| && Returns(p, clock[..k])
      {
        SteadyIsFound(p, clock, j);
      }
    } else {
      var late := LateTime(p.servers, now);
      var clock := Still(late, |p.servers|);
      LateClock(now, late, |p.servers|);
      forall k | 0 < k <= |clock|
        ensures !Returns(p, clock[..k])
      {
        NeverReturns(p, late, clock[..k]);
      }
      assert ClockFrom(now, clock);
    }
  }

  lemma LateClock(now: nat, late: nat, n: nat)
    requires now <= late
    ensures ClockFrom(now, Still(late, n)) && ClockFrom(late, Still(late, n))
  {
  }

  // -- Reports and heartbeats --

  /** What happens to the balancer over time: a turn of the poll loop, a report, a heartbeat, a new server. */
  datatype Event =
    | Ask(now: nat)
    | Report(now: nat, server: nat)
    | Heartbeat(now: nat, server: nat)
    | Register(now: nat, profile: Server)

  /** The event is a report or a heartbeat of server j. */
  predicate Concerns(e: Event, j: nat) {
    (e.Report? || e.Heartbeat?) && e.server == j
  }

  function Happens(p: Poll, e: Event): (r: Poll)
    requires Within(p)
    ensures Within(r) && |p.servers| <= |r.servers|
  {
    match e
    case Ask(now) => Turn(p, now)
    case Report(now, j) =>
      if j < |p.servers| then p.(servers := p.servers[j := p.servers[j].(isDown := true, lastDownTs := now)]) else p
    case Heartbeat(_, j) =>
      if j < |p.servers| then p.(servers := p.servers[j := p.servers[j].(isDown := false)]) else p
    case Register(_, s) => Poll(p.servers + [s], 0)
  }

  function History(p: Poll, events: seq<Event>): (r: Poll)
    requires Within(p)
    ensures Within(r) && |p.servers| <= |r.servers|
  {
    if events == [] then p else Happens(History(p, events[..|events| - 1]), events[|events| - 1])
  }

  /** Right after event number i, server j would be tried. */
  predicate TriedAfter(p: Poll, events: seq<Event>, i: nat, j: nat)
    requires Within(p) && i < |events| && j < |p.servers|
  {
    Up(History(p, events[..i + 1]).servers[j], events[i].now)
  }

  /** What no report and no heartbeat concerns stays as it is, weight and all, if it is not tried. */
  lemma {:induction false} UntouchedStaysLost(p: Poll, now: nat, events: seq<Event>, j: nat)
    requires Within(p) && j < |p.servers| && !Up(p.servers[j], now)
    requires forall i :: 0 <= i < |events| ==> now <= events[i].now && !Concerns(events[i], j)
    ensures History(p, events).servers[j] == p.servers[j]
  {
    hide Up;
    LostIff(p.servers[j], now);
    if events != [] {
      UntouchedStaysLost(p, now, events[..|events| - 1], j);
    }
  }

  lemma {:induction false} WeightKept(p: Poll, events: seq<Event>, j: nat)
    requires Within(p) && j < |p.servers|
    ensures History(p, events).servers[j].weight == p.servers[j].weight
  {
    if events != [] {
      WeightKept(p, events[..|events| - 1], j);
    }
  }

  lemma ConcernedIsUp(p: Poll, e: Event, j: nat)
    requires Within(p) && j < |p.servers| && p.servers[j].weight > 0 && Concerns(e, j)
    ensures Up(Happens(p, e).servers[j], e.now)
  {
  }

  /**
   A server with weight that is not tried comes back, over any run of later turns, reports, heartbeats and
   registrations, if and only if a report or a heartbeat of its own arrives.
   */
  lemma ComesBackIff(p: Poll, now: nat, events: seq<Event>, j: nat)
    requires Within(p) && j < |p.servers| && p.servers[j].weight > 0 && !Up(p.servers[j], now)
    requires forall i :: 0 <= i < |events| ==> now <= events[i].now
    ensures (exists i :: 0 <= i < |events| && TriedAfter(p, events, i, j))
       <==> (exists i :: 0 <= i < |events| && Concerns(events[i], j))
  {
    hide Up, Happens, Concerns;
    if exists i :: 0 <= i < |events| && Concerns(events[i], j) {
      var i :| 0 <= i < |events| && Concerns(events[i], j);
      var before := events[..i];
      assert events[..i + 1][..i] == before;
      WeightKept(p, before, j);
      ConcernedIsUp(History(p, before), events[i], j);
      assert TriedAfter(p, events, i, j);
    } else {
      forall i | 0 <= i < |events|
        ensures !TriedAfter(p, events, i, j)
      {
        UntouchedStaysLost(p, now, events[..i + 1], j);
        LostIff(p.servers[j], now);
      }
    }
  }

  // -- The balancer --

  class WebServerProfile {
    var weight: nat
    var isDown: bool
    var lastDownTs: nat

    constructor (weight: nat)
      ensures View() == Server(weight, false, 0)
    {
      this.weight, isDown, lastDownTs := weight, false, 0;
    }

    function View(): Server
      reads this
    {
      Server(weight, isDown, lastDownTs)
    }

    /** `__IsWebServerAvailable`, which clears the down mark of a server it will try again. */
    method CheckAvailable(now: nat) returns (r: bool)
      modifies this`isDown
      ensures r == old(Up(View(), now)) && View() == Asked(old(View()), now)
    {
      if weight <= 0 {
        return false;
      }
      if !isDown {
        return true;
      }
      if lastDownTs + RETRY_PERIOD >= now {
        isDown := false;
        return true;
      }
      return false;
    }

    /** `ReportWebServerDown`. */
    method ReportDown(now: nat)
      modifies this`isDown, this`lastDownTs
      ensures View() == old(View()).(isDown := true, lastDownTs := now)
    {
      isDown, lastDownTs := true, now;
    }

    /** `OnRecvHeartbeat`, as far as polling looks at it. */
    method OnHeartbeat()
      modifies this`isDown
      ensures View() == old(View()).(isDown := false)
    {
      isDown := false;
    }
  }

  ghost function Views(servers: seq<WebServerProfile>): (r: seq<Server>)
    reads servers
    ensures |r| == |servers| && forall j :: 0 <= j < |servers| ==> r[j] == servers[j].View()
  {
    seq(|servers|, j requires 0 <= j < |servers| reads servers => servers[j].View())
  }

  class Balancer {
    var servers: seq<WebServerProfile>
    var last: nat

    ghost predicate Valid()
      reads this
    {
      servers != [] ==> last < |servers|
    }

    /** No server is registered twice. */
    ghost predicate Distinct()
      reads this`servers
    {
      forall i, j :: 0 <= i < j < |servers| ==> servers[i] != servers[j]
    }

    ghost function View(): (p: Poll)
      requires Valid()
      reads this, servers
      ensures servers != [] ==> Within(p)
    {
      Poll(Views(servers), last)
    }

    constructor ()
      ensures Valid() && servers == []
    {
      servers, last := [], 0;
    }

    method RegisterWebServer(s: WebServerProfile)
      requires Valid() && s.weight <= 10
      modifies this
      ensures Valid() && servers == old(servers) + [s] && last == 0
      ensures Distinct() <==> old(Distinct()) && s !in old(servers)
    {
      servers := servers + [s];
      last := 0;
      ghost var n := |old(servers)|;
      assert forall i :: 0 <= i < n ==> servers[i] == old(servers)[i];
      assert servers[n] == s;
    }

    /** One turn of the poll loop. */
    method TryNext(now: nat) returns (ok: bool)
      requires Valid() && servers != []
      modifies this`last, set j | 0 <= j < |servers| :: servers[j]`isDown
      ensures Valid() && ok == old(Hits(View(), now))
      ensures Availability(Views(servers), now) == old(Availability(Views(servers), now))
      ensures ok == Availability(Views(servers), now)[last]
      ensures OneTurn(old(View()), View(), now, Distinct())
    {
      hide Up;
      last := Advance(last, |servers|);
      ok := servers[last].CheckAvailable(now);
      assert Distinct() ==> Views(servers) == old(Views(servers))[last := Asked(old(Views(servers))[last], now)];
      TouchedKeeps(old(Views(servers)), Views(servers), now, now);
    }

    /** The loop of `__BalanceByPoll` for as many turns as the clock is read, or until it returns. */
    method PollWhile(clock: seq<nat>) returns (found: bool, ghost turns: nat)
      requires Valid() && servers != [] && Distinct()
      modifies this`last, set j | 0 <= j < |servers| :: servers[j]`isDown
      ensures Valid() && turns <= |clock| && View() == Turns(old(View()), clock[..turns])
      ensures found <==> old(Returns(View(), clock[..turns]))
      ensures !found ==> turns == |clock|
      ensures forall k :: 0 <= k < turns ==> !old(Returns(View(), clock[..k]))
    {
      hide Up, Turn, Hits, Turns, Returns, Distinct, Touched, Availability, Asked, Advance;
      ghost var start := View();
      NoClock(start, clock);
      turns := 0;
      found := false;
      var i := 0;
      while i < |clock| && !found
        invariant Valid() && i == turns <= |clock| && View() == Turns(start, clock[..i])
        invariant found <==> Returns(start, clock[..i])
        invariant forall k :: 0 <= k < i ==> !Returns(start, clock[..k])
      {
        ClockStep(start, clock, i);
        found := TryNext(clock[i]);
        i := i + 1;
        turns := i;
      }
    }

    /** `__BalanceByPoll`; `steps` counts the servers it looks at. */
    method BalanceByPoll(now: nat) returns (s: WebServerProfile, ghost steps: nat)
      requires Valid() && SomeAvailable(Availability(Views(servers), now))
      modifies this`last, set j | 0 <= j < |servers| :: servers[j]`isDown
      ensures Valid() && 1 <= steps <= |servers|
      ensures Availability(Views(servers), now) == old(Availability(Views(servers), now))
      ensures Touched(old(Views(servers)), Views(servers), now)
      ensures Distinct() ==> View() == Turns(old(View()), Still(now, steps))
      ensures last == Next(old(Availability(Views(servers), now)), old(last)) && s == servers[last]
    {
      assert servers != [];
      hide Next, SomeAvailable, Up, Hits, Turns, Still, Availability, Distinct, Distance, Touched, OneTurn, Polled;
      ghost var start := View();
      var ok := TryNext(now);
      steps := 1;
      PolledFirst(start, View(), now, Distinct());
      while !ok
        invariant Valid() && Polled(start, View(), now, steps, Distinct())
        invariant ok == Availability(Views(servers), now)[last]
        decreases Distance(start.last, last, |servers|)
      {
        ghost var before := View();
        ok := TryNext(now);
        PolledStep(start, before, View(), now, steps, Distinct());
        steps := steps + 1;
      }
      PolledDone(start, View(), now, steps, Distinct());
      s := servers[last];
    }

    /** `Select` under the poll rule, where it returns at all. */
    method Select(now: nat) returns (s: WebServerProfile?)
      requires Valid() && (servers != [] ==> SomeAvailable(Availability(Views(servers), now)))
      modifies this`last, set j | 0 <= j < |servers| :: servers[j]`isDown
      ensures Valid() && Touched(old(Views(servers)), Views(servers), now)
      ensures s == null <==> servers == []
      ensures s != null ==> last == Next(old(Availability(Views(servers), now)), old(last)) && s == servers[last]
    {
      if servers == [] {
        return null;
      }
      ghost var steps;
      s, steps := BalanceByPoll(now);
    }

    /** One selection after another, while the same servers are available at every reading of the clock. */
    method SelectAll(clock: seq<nat>, ghost avail: seq<bool>) returns (chosen: seq<nat>)
      requires Valid() && servers != [] && SomeAvailable(avail)
      requires forall k :: 0 <= k < |clock| ==> Availability(Views(servers), clock[k]) == avail
      requires |avail| == |servers|
      modifies this`last, set j | 0 <= j < |servers| :: servers[j]`isDown
      ensures Valid() && |chosen| == |clock|
      ensures forall k :: 0 <= k < |clock| ==> chosen[k] == Selected(avail, old(last), k + 1)
    {
      hide Up, Next, SomeAvailable, Touched, Availability, Selected;
      ghost var start := last;
      SelectedSteps(avail, start, 0);
      chosen := [];
      var i := 0;
      while i < |clock|
        invariant Valid() && 0 <= i == |chosen| <= |clock|
        invariant last == Selected(avail, start, i)
        invariant forall k :: 0 <= k < i ==> chosen[k] == Selected(avail, start, k + 1)
        invariant forall k :: 0 <= k < |clock| ==> Availability(Views(servers), clock[k]) == avail
      {
        SelectedSteps(avail, start, i);
        ghost var before := Views(servers);
        var s := Select(clock[i]);
        forall k | 0 <= k < |clock|
          ensures Availability(Views(servers), clock[k]) == avail
        {
          TouchedKeeps(before, Views(servers), clock[i], clock[k]);
        }
        chosen := chosen + [last];
        i := i + 1;
      }
    }
  }

  /** How many more slots the poll can visit before it is back where it started. */
  function Distance(start: nat, last: nat, n: nat): int {
    if last > start then n + start - last else start - last
  }

  /** What one turn does to the servers and the cursor, whether or not a server is registered twice. */
  ghost predicate OneTurn(before: Poll, after: Poll, now: nat, distinct: bool)
    requires Within(before)
  {
    && Within(after) && Touched(before.servers, after.servers, now)
    && after.last == Advance(before.last, |before.servers|)
    && (distinct ==> after == Turn(before, now))
  }

  /** The loop after some turns at one time: only servers that are not available were passed. */
  ghost predicate Polled(start: Poll, p: Poll, now: nat, steps: nat, distinct: bool)
    requires Within(start)
  {
    var avail, d := Availability(start.servers, now), Distance(start.last, p.last, |start.servers|);
    && Within(p) && Touched(start.servers, p.servers, now)
    && NoneBetween(avail, start.last, p.last)
    && 0 <= d && 1 <= steps <= |start.servers| - d
    && (distinct ==> p == Turns(start, Still(now, steps)))
  }

  lemma PolledFirst(start: Poll, p: Poll, now: nat, distinct: bool)
    requires Within(start) && OneTurn(start, p, now, distinct)
    ensures Polled(start, p, now, 1, distinct)
  {
    hide Up, Turns, Still, NoneBetween, Turn;
    PollStart(Availability(start.servers, now), start.last);
    NoTurns(start, now);
    StillStep(start, now, 1);
  }

  lemma PolledStep(start: Poll, before: Poll, p: Poll, now: nat, steps: nat, distinct: bool)
    requires Within(start) && Polled(start, before, now, steps, distinct) && OneTurn(before, p, now, distinct)
    requires SomeAvailable(Availability(start.servers, now)) && !Availability(before.servers, now)[before.last]
    ensures Polled(start, p, now, steps + 1, distinct)
    ensures 0 <= Distance(start.last, p.last, |start.servers|) < Distance(start.last, before.last, |start.servers|)
  {
    hide Up, Turns, Still, NoneBetween, Turn, SomeAvailable, Availability, Distance, Advance, Touched;
    SameSize(start.servers, before.servers, now);
    TouchedKeeps(start.servers, before.servers, now, now);
    PollStep(Availability(start.servers, now), start.last, before.last);
    StillStep(start, now, steps + 1);
    TouchedTwice(start.servers, before.servers, p.servers, now);
  }

  lemma SameSize(a: seq<Server>, b: seq<Server>, now: nat)
    requires Touched(a, b, now)
    ensures |a| == |b|
  {
  }

  lemma PolledDone(start: Poll, p: Poll, now: nat, steps: nat, distinct: bool)
    requires Within(start) && Polled(start, p, now, steps, distinct)
    requires SomeAvailable(Availability(start.servers, now)) && Availability(p.servers, now)[p.last]
    ensures Availability(p.servers, now) == Availability(start.servers, now)
    ensures Touched(start.servers, p.servers, now) && 1 <= steps <= |start.servers|
    ensures p.last == Next(Availability(start.servers, now), start.last)
    ensures distinct ==> p == Turns(start, Still(now, steps))
  {
    hide Up, Turns, Still, NoneBetween, Turn, Next, SomeAvailable;
    TouchedKeeps(start.servers, p.servers, now, now);
    NextUnique(Availability(start.servers, now), start.last, p.last);
  }

  lemma PollStart(avail: seq<bool>, start: nat)
    requires start < |avail|
    ensures NoneBetween(avail, start, Advance(start, |avail|))
    ensures 0 <= Distance(start, Advance(start, |avail|), |avail|) < |avail|
  {
  }

  lemma PollAdvances(avail: seq<bool>, start: nat, last: nat)
    requires start < |avail| && last < |avail|
    requires NoneBetween(avail, start, last) && !avail[last]
    ensures NoneBetween(avail, start, Advance(last, |avail|))
  {
  }

  lemma PollStep(avail: seq<bool>, start: nat, last: nat)
    requires SomeAvailable(avail) && start < |avail| && last < |avail|
    requires NoneBetween(avail, start, last) && !avail[last]
    ensures NoneBetween(avail, start, Advance(last, |avail|))
    ensures 0 <= Distance(start, Advance(last, |avail|), |avail|) < Distance(start, last, |avail|)
  {
    assert last != start;
  }
}
