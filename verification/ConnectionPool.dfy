/**
 `ConnectionManager` of `networkmodel/serverbase.cc`: slots indexed by uid and a stack of free
 uids. The vector is taken to grow to exactly the size asked for, and each method to be atomic.
 */
module ConnectionPool {

  const RESERVE_SIZE: nat := 128
  const ENLARGE_UNIT: nat := 128

  /** The abstract pool: number of slots, uids in use, free uids from front to back. */
  datatype Pool = Pool(size: nat, live: set<nat>, free: seq<nat>)

  function Range(from: nat, n: nat): (s: seq<nat>)
    ensures |s| == n && forall i :: 0 <= i < n ==> s[i] == from + i
  {
    seq(n, i requires 0 <= i < n => from + i)
  }

  function Created(): Pool {
    Pool(RESERVE_SIZE, {}, Range(1, RESERVE_SIZE - 1))
  }

  /** `__CheckCapacity`. */
  function Grown(p: Pool): Pool {
    if p.free == [] then Pool(p.size + ENLARGE_UNIT, p.live, Range(p.size, ENLARGE_UNIT)) else p
  }

  function NextUid(p: Pool): (uid: nat) { var g := Grown(p); g.free[0] }

  function Added(p: Pool): Pool {
    var g := Grown(p);
    g.(live := g.live + {g.free[0]}, free := g.free[1..])
  }

  function Deleted(p: Pool, uid: nat): Pool {
    p.(live := p.live - {uid}, free := [uid] + p.free)
  }

  /** `ClearTimeout` from slot i on, over the uids that have timed out. */
  function SweptFrom(p: Pool, expired: set<nat>, i: nat): Pool
    decreases p.size - i
  {
    if i >= p.size then p
    else SweptFrom(if i in p.live && i in expired then Deleted(p, i) else p, expired, i + 1)
  }

  /** `CurrConnectionCnt`. */
  function Count(p: Pool): int { p.size - |p.free| }

  /** Free uids are distinct, never 0, and exactly the slots not in use. */
  ghost predicate Invariant(p: Pool) {
    && p.size > 0
    && (forall i, j :: 0 <= i < j < |p.free| ==> p.free[i] != p.free[j])
    && (forall u :: u in p.free ==> 0 < u < p.size && u !in p.live)
    && (forall u :: u in p.live ==> 0 < u < p.size)
    && (forall u :: 0 < u < p.size ==> u in p.live || u in p.free)
  }

  lemma CreatedInvariant()
    ensures Invariant(Created())
  {
    var f := Created().free;
    forall u | 0 < u < RESERVE_SIZE
      ensures u in f
    {
      assert f[u - 1] == u;
    }
  }

  /** A new pool has 128 slots, of which slot 0 is never used, and hands out 1, 2 and so on; it grows by 128. */
  lemma PoolSizes(p: Pool, i: nat)
    ensures Created().size == 128 && |Created().free| == 127 && Created().live == {}
    ensures i < 127 ==> Created().free[i] == i + 1
    ensures p.free == [] ==> Grown(p).size == p.size + 128 && |Grown(p).free| == 128 && Grown(p).live == p.live
    ensures p.free == [] && i < 128 ==> Grown(p).free[i] == p.size + i
    ensures p.free != [] ==> Grown(p) == p
  {
  }

  lemma GrownInvariant(p: Pool)
    requires Invariant(p)
    ensures Invariant(Grown(p)) && Grown(p).free != []
  {
    if p.free == [] {
      var g := Grown(p);
      forall u | 0 < u < g.size
        ensures u in g.live || u in g.free
      {
        if u >= p.size {
          assert g.free[u - p.size] == u;
        }
      }
    }
  }

  /** Adding hands out a uid that nobody has. */
  lemma AddedInvariant(p: Pool)
    requires Invariant(p)
    ensures Invariant(Added(p))
    ensures NextUid(p) !in p.live && 0 < NextUid(p) && Added(p).live == p.live + {NextUid(p)}
  {
    GrownInvariant(p);
    var g := Grown(p);
    var a := Added(p);
    assert g.free == [g.free[0]] + a.free;
    forall u | u in a.free
      ensures u != g.free[0] && u in g.free
    {
      var k :| 0 <= k < |a.free| && a.free[k] == u;
      assert g.free[k + 1] == u;
    }
    assert forall i :: 0 <= i < |a.free| ==> a.free[i] == g.free[i + 1];
  }

  lemma DeletedInvariant(p: Pool, uid: nat)
    requires Invariant(p) && uid in p.live
    ensures Invariant(Deleted(p, uid))
  {
  }

  /** A uid just given back is the next one handed out, and the pool is as before. */
  lemma UidReuse(p: Pool, uid: nat)
    requires uid in p.live
    ensures NextUid(Deleted(p, uid)) == uid && Added(Deleted(p, uid)) == p
  {
    assert p.live - {uid} + {uid} == p.live;
    assert ([uid] + p.free)[1..] == p.free;
  }

  /** A sweep removes exactly the timed-out connections. */
  lemma {:induction false} SweptInvariant(p: Pool, expired: set<nat>, i: nat)
    requires Invariant(p)
    ensures Invariant(SweptFrom(p, expired, i)) && SweptFrom(p, expired, i).size == p.size
    ensures SweptFrom(p, expired, i).live == set u | u in p.live && (u < i || u !in expired)
    decreases p.size - i
  {
    if i < p.size {
      if i in p.live && i in expired {
        DeletedInvariant(p, i);
        SweptInvariant(Deleted(p, i), expired, i + 1);
      } else {
        SweptInvariant(p, expired, i + 1);
      }
    }
  }

  /** The timed-out uids from slot i on, the highest first. */
  function ExpiredDown(p: Pool, expired: set<nat>, i: nat): seq<nat>
    decreases p.size - i
  {
    if i >= p.size then []
    else ExpiredDown(p, expired, i + 1) + if i in p.live && i in expired then [i] else []
  }

  /** A sweep puts the uids it frees in front, so the highest is handed out next. */
  lemma {:induction false} SweptOrder(p: Pool, expired: set<nat>, i: nat)
    ensures SweptFrom(p, expired, i).free == ExpiredDown(p, expired, i) + p.free
    decreases p.size - i
  {
    if i < p.size {
      var q := if i in p.live && i in expired then Deleted(p, i) else p;
      SweptOrder(q, expired, i + 1);
      SameAbove(p, q, expired, i + 1);
    }
  }

  lemma {:induction false} SameAbove(p: Pool, q: Pool, expired: set<nat>, i: nat)
    requires q.size == p.size && forall u :: i <= u ==> (u in p.live <==> u in q.live)
    ensures ExpiredDown(p, expired, i) == ExpiredDown(q, expired, i)
    decreases p.size - i
  {
    if i < p.size { SameAbove(p, q, expired, i + 1); }
  }

  lemma {:induction false} DistinctCount(s: seq<nat>, t: set<nat>)
    requires forall i, j :: 0 <= i < j < |s| ==> s[i] != s[j]
    requires forall u :: u in t <==> u in s
    ensures |s| == |t|
  {
    if s == [] {
      assert t == {};
    } else {
      var u := s[0];
      assert s == [u] + s[1..];
      assert forall k :: 0 <= k < |s[1..]| ==> s[1..][k] == s[k + 1];
      forall x | x in s[1..]
        ensures x != u
      {
        var k :| 0 <= k < |s[1..]| && s[1..][k] == x;
        assert s[k + 1] == x;
      }
      DistinctCount(s[1..], t - {u});
    }
  }

  ghost function Slots(n: nat): (s: set<nat>)
    ensures |s| == n && forall u :: u in s <==> 0 < u <= n
  {
    if n == 0 then {} else Slots(n - 1) + {n}
  }

  /** The reported count is one more than the connections in use. */
  lemma CountIsLivePlusOne(p: Pool)
    requires Invariant(p)
    ensures Count(p) == |p.live| + 1
  {
    var free := set u | u in p.free;
    DistinctCount(p.free, free);
    assert Slots(p.size - 1) == p.live + free;
    assert |p.live + free| == |p.live| + |free|;
  }

  // -- Runs --

  datatype Op =
    | Accept              // RegisterConnection: bounded by max_connections_
    | Connect             // MakeConnection: not bounded
    | Delete(uid: nat)
    | Sweep(expired: set<nat>)

  predicate CanDo(p: Pool, op: Op) {
    op.Delete? ==> op.uid in p.live
  }

  function Do(p: Pool, max: nat, op: Op): Pool {
    match op
    case Accept => if Count(p) >= max then p else Added(p)
    case Connect => Added(p)
    case Delete(uid) => Deleted(p, uid)
    case Sweep(expired) => SweptFrom(p, expired, 0)
  }

  ghost predicate Runs(p: Pool, max: nat, ops: seq<Op>, p': Pool)
    decreases |ops|
  {
    if ops == [] then p == p' else CanDo(p, ops[0]) && Runs(Do(p, max, ops[0]), max, ops[1..], p')
  }

  lemma DoKeepsInvariant(p: Pool, max: nat, op: Op)
    requires Invariant(p) && CanDo(p, op)
    ensures Invariant(Do(p, max, op))
    ensures !op.Connect? && |p.live| < max ==> |Do(p, max, op).live| < max
  {
    match op
    case Accept =>
      AddedInvariant(p);
      CountIsLivePlusOne(p);
    case Connect =>
      AddedInvariant(p);
    case Delete(uid) =>
      DeletedInvariant(p, uid);
      SubsetCount(p.live - {uid}, p.live);
    case Sweep(expired) =>
      SweptInvariant(p, expired, 0);
      SubsetCount(SweptFrom(p, expired, 0).live, p.live);
  }

  lemma {:induction false} SubsetCount(a: set<nat>, b: set<nat>)
    requires a <= b
    ensures |a| <= |b|
  {
    if a != {} {
      var x :| x in a;
      SubsetCount(a - {x}, b - {x});
    }
  }

  /** Over every run the pool invariant holds; runs without outgoing connections stay below the limit. */
  lemma {:induction false} PoolOverRuns(p: Pool, max: nat, ops: seq<Op>, p': Pool)
    requires Invariant(p) && Runs(p, max, ops, p')
    ensures Invariant(p') && Count(p') == |p'.live| + 1
    ensures Connect !in ops && |p.live| < max ==> |p'.live| < max
    decreases |ops|
  {
    if ops == [] {
      CountIsLivePlusOne(p);
    } else {
      DoKeepsInvariant(p, max, ops[0]);
      PoolOverRuns(Do(p, max, ops[0]), max, ops[1..], p');
      assert ops == [ops[0]] + ops[1..];
    }
  }

  // -- The objects --

  class ConnectionProfile {
    var uid: nat
    var timeoutTs: nat
    var longLink: bool
    var pending: bool

    constructor (timeoutTs: nat, longLink: bool)
      ensures uid == 0 && this.timeoutTs == timeoutTs && this.longLink == longLink && !pending
    {
      uid, this.timeoutTs, this.longLink, pending := 0, timeoutTs, longLink, false;
    }

    /** `IsTimeout`: never for a long link or with packets still to send. */
    predicate IsTimeout(now: nat)
      reads this
    {
      !longLink && !pending && now > timeoutTs
    }
  }

  class ConnectionManager {
    var pool: seq<ConnectionProfile?>
    var free: seq<nat>

    ghost function View(): Pool
      reads this
    {
      Pool(|pool|, (set i | 0 <= i < |pool| && pool[i] != null), free)
    }

    /** The abstract invariant, and each connection sits in the slot of its own uid. */
    ghost predicate Valid()
      reads this, pool
    {
      Invariant(View()) && forall i :: 0 <= i < |pool| && pool[i] != null ==> pool[i].uid == i
    }

    constructor ()
      ensures Valid() && View() == Created()
    {
      pool, free := [null], [];
      new;
      var i := 1;
      while i < RESERVE_SIZE
        invariant 1 <= i <= RESERVE_SIZE && |pool| == i && free == Range(1, i - 1)
        invariant forall k :: 0 <= k < i ==> pool[k] == null
      {
        free := free + [i];
        pool := pool + [null];
        i := i + 1;
      }
      CreatedInvariant();
    }

    /** `__CheckCapacity`. */
    method CheckCapacity()
      requires Valid()
      modifies this
      ensures Valid() && View() == Grown(old(View())) && free != []
      ensures |pool| >= |old(pool)| && pool[..|old(pool)|] == old(pool)
      ensures forall k :: |old(pool)| <= k < |pool| ==> pool[k] == null
    {
      GrownInvariant(View());
      if free == [] {
        var curr := |pool|;
        ghost var before := View();
        pool := pool + seq(ENLARGE_UNIT, _ => null);
        ghost var enlarged := pool;
        var i := curr;
        while i < |pool|
          invariant pool == enlarged
          invariant curr <= i <= |pool| && free == Range(curr, i - curr)
        {
          free := free + [i];
          i := i + 1;
        }
        assert View().live == before.live;
      }
    }

    /** `AddConnection`: the next free uid, growing if there is none. */
    method AddConnection(conn: ConnectionProfile)
      requires Valid() && conn !in pool
      modifies this, conn`uid
      ensures Valid() && View() == Added(old(View()))
      ensures conn.uid == NextUid(old(View())) && pool[conn.uid] == conn
      ensures forall k :: 0 <= k < |old(pool)| && k != conn.uid ==> pool[k] == old(pool)[k]
    {
      ghost var before := View();
      AddedInvariant(before);
      GrownInvariant(before);
      CheckCapacity();
      var uid := free[0];
      free := free[1..];
      conn.uid := uid;
      pool := pool[uid := conn];
      assert View().live == before.live + {uid};
    }

    /** `DelConnection`. The slot must hold a connection, as the source asserts. */
    method DelConnection(uid: nat)
      requires Valid() && uid < |pool| && pool[uid] != null
      modifies this
      ensures Valid() && View() == Deleted(old(View()), uid)
      ensures pool == old(pool)[uid := null]
    {
      DeletedInvariant(View(), uid);
      ghost var before := View();
      free := [uid] + free;
      pool := pool[uid := null];
      assert View().live == before.live - {uid};
    }

    /** `ClearTimeout`: the sweep over all slots. */
    method ClearTimeout(now: nat)
      requires Valid()
      modifies this
      ensures Valid()
      ensures var expired := set i | 0 <= i < |old(pool)| && old(pool)[i] != null && old(pool)[i].IsTimeout(now);
              View() == SweptFrom(old(View()), expired, 0)
      ensures |pool| == |old(pool)|
      ensures forall k :: 0 <= k < |pool| ==>
                pool[k] == if old(pool)[k] != null && old(pool)[k].IsTimeout(now) then null else old(pool)[k]
      ensures forall k :: 0 <= k < |pool| && old(pool)[k] != null ==>
                var c := old(pool)[k];
                (pool[k] == null <==> now > c.timeoutTs && !c.pending && !c.longLink)
    {
      ghost var was := pool;
      ghost var expired := set i | 0 <= i < |was| && was[i] != null && was[i].IsTimeout(now);
      var i := 0;
      while i < |pool|
        invariant 0 <= i <= |pool| == |was| && Valid()
        invariant SweptFrom(View(), expired, i) == SweptFrom(old(View()), expired, 0)
        invariant forall k :: i <= k < |pool| ==> pool[k] == was[k]
        invariant forall k :: 0 <= k < i ==> pool[k] == if was[k] != null && was[k].IsTimeout(now) then null else was[k]
      {
        if pool[i] != null && pool[i].IsTimeout(now) {
          DeletedInvariant(View(), i);
          ghost var before := View();
          free := [pool[i].uid] + free;
          pool := pool[i := null];
          assert View().live == before.live - {i};
        }
        i := i + 1;
      }
      assert expired == set i | 0 <= i < |old(pool)| && old(pool)[i] != null && old(pool)[i].IsTimeout(now);
    }

    method CurrConnectionCnt() returns (n: int)
      requires Valid()
      ensures n == |View().live| + 1
    {
      CountIsLivePlusOne(View());
      n := |pool| - |free|;
    }

    /** `RegisterConnection` past the descriptor check: dropped at the limit, added below it. */
    method RegisterConnection(max: nat, timeoutTs: nat) returns (conn: ConnectionProfile?)
      requires Valid()
      modifies this
      ensures Valid() && View() == Do(old(View()), max, Accept)
      ensures conn == null <==> |old(View()).live| + 1 >= max
      ensures |old(View()).live| < max ==> |View().live| < max
      ensures conn != null ==>
                && fresh(conn) && conn.timeoutTs == timeoutTs && !conn.longLink && !conn.pending
                && conn.uid == NextUid(old(View())) < |pool| && pool[conn.uid] == conn
                && forall k :: 0 <= k < |old(pool)| && k != conn.uid ==> pool[k] == old(pool)[k]
      ensures conn == null ==> pool == old(pool)
    {
      DoKeepsInvariant(View(), max, Accept);
      var n := CurrConnectionCnt();
      CountIsLivePlusOne(View());
      if n >= max {
        return null;
      }
      conn := new ConnectionProfile(timeoutTs, false);
      AddConnection(conn);
    }
  }
}
