/**
 The relay of `reverseproxy/proxyserver.cc`: requests are forwarded on fresh upstream
 connections, responses find their way back through `conn_map_`, and uids are reused.
 Connections and send contexts are objects with an identity that is never reused; uids only
 name slots. Each handler is one step of the net thread that owns the state.
 */
module ProxyRelay {
  import opened Wrappers
  import ConnectionPool

  type Uid = nat
  type ConnId = nat
  type CtxId = nat

  /** A connection object: `contexts` is `send_contexts_`, `pending` those queued for writing. */
  datatype Conn = Conn(uid: Uid, contexts: set<CtxId>, pending: set<CtxId>)

  /** A send context: `response` is the upstream connection whose bytes were placed in its buffer. */
  datatype Ctx = Ctx(owner: ConnId, valid: bool, response: Option<ConnId>, done: bool)

  /** History: the request that was forwarded on an upstream connection. */
  datatype Forward = Forward(client: ConnId, ctx: CtxId)

  /** History: bytes of `from` were written to the socket of `to` through `ctx`. */
  datatype Delivery = Delivery(from: ConnId, ctx: CtxId, to: ConnId)

  datatype Proxy = Proxy(
    pool: map<Uid, ConnId>,
    conns: map<ConnId, Conn>,
    ctxs: map<CtxId, Ctx>,
    connMap: map<Uid, (Uid, CtxId)>,
    nextConn: ConnId, nextCtx: CtxId,
    forwards: map<ConnId, Forward>,
    deliveries: seq<Delivery>)

  function Start(): Proxy {
    Proxy(map[], map[], map[], map[], 0, 0, map[], [])
  }

  datatype Event =
    | Accept(uid: Uid)
    | Request(client: ConnId, uid: Uid, done: bool)
    | RequestFailed(client: ConnId, done: bool)
    | Response(upstream: ConnId, done: bool)
    | Drained(conn: ConnId, ctx: CtxId)
    | Delete(conn: ConnId)

  predicate Free(p: Proxy, uid: Uid) { uid > 0 && uid !in p.pool }

  /** Connections made by `MakeConnection`; the others were accepted. */
  predicate IsUpstream(p: Proxy, x: ConnId) { x in p.conns && x in p.forwards }
  predicate IsClient(p: Proxy, x: ConnId) { x in p.conns && x !in p.forwards }

  /** The entry `conn_map_` has for a response from x; without one the source's assertion stops it. */
  predicate HasEntry(p: Proxy, x: ConnId) {
    IsUpstream(p, x) && p.conns[x].uid in p.connMap
  }

  /** The handler follows only pointers to objects that are there. */
  predicate FollowsLivePointers(p: Proxy, x: ConnId)
    requires HasEntry(p, x)
  {
    var k := p.connMap[p.conns[x].uid].1;
    k in p.ctxs && (p.ctxs[k].valid ==> p.ctxs[k].owner in p.conns)
  }

  predicate Enabled(p: Proxy, e: Event) {
    match e
    case Accept(uid) => Free(p, uid)
    case Request(c, uid, _) => IsClient(p, c) && Free(p, uid)
    case RequestFailed(c, _) => IsClient(p, c)
    case Response(x, _) => HasEntry(p, x) && FollowsLivePointers(p, x)
    case Drained(c, k) => c in p.conns && k in p.conns[c].pending && k in p.ctxs
    case Delete(c) => c in p.conns
  }

  /** `AddConnection`, at whichever free uid the pool hands out. */
  function AddConn(p: Proxy, uid: Uid): Proxy {
    p.(pool := p.pool[uid := p.nextConn],
       conns := p.conns[p.nextConn := Conn(uid, {}, {})],
       nextConn := p.nextConn + 1)
  }

  /** `MakeSendContext`. */
  function MakeContext(p: Proxy, c: ConnId): Proxy
    requires c in p.conns
  {
    p.(ctxs := p.ctxs[p.nextCtx := Ctx(c, true, None, false)],
       conns := p.conns[c := p.conns[c].(contexts := p.conns[c].contexts + {p.nextCtx})],
       nextCtx := p.nextCtx + 1)
  }

  /** `DelConnection`: the destructor tells every context still listed not to send any more. */
  function DeleteConn(p: Proxy, c: ConnId): Proxy
    requires c in p.conns
  {
    p.(pool := p.pool - {p.conns[c].uid},
       conns := p.conns - {c},
       ctxs := map k | k in p.ctxs :: if k in p.conns[c].contexts then p.ctxs[k].(valid := false) else p.ctxs[k])
  }

  /** `OnSendDone`: the context leaves its owner's lists. */
  function Finish(p: Proxy, c: ConnId, k: CtxId): Proxy
    requires c in p.conns && k in p.ctxs
  {
    p.(conns := p.conns[c := p.conns[c].(contexts := p.conns[c].contexts - {k}, pending := p.conns[c].pending - {k})],
       ctxs := p.ctxs[k := p.ctxs[k].(done := true)])
  }

  /** `TrySendAndMarkPendingIfUndone` on a valid context of c. */
  function TrySend(p: Proxy, c: ConnId, k: CtxId, done: bool): Proxy
    requires c in p.conns && k in p.ctxs
  {
    if done then Finish(p, c, k)
    else Queued(p, c, k)
  }

  /** `AddPendingPacketToSend`. */
  function Queued(p: Proxy, c: ConnId, k: CtxId): Proxy
    requires c in p.conns
  {
    p.(conns := p.conns[c := p.conns[c].(pending := p.conns[c].pending + {k})])
  }

  /** The client's context, the new connection and its entry in `conn_map_`. */
  function Forwarded(p: Proxy, c: ConnId, uid: Uid): Proxy
    requires c in p.conns
  {
    var q := AddConn(MakeContext(p, c), uid);
    q.(connMap := q.connMap[uid := (p.conns[c].uid, p.nextCtx)],
       forwards := q.forwards[p.nextConn := Forward(c, p.nextCtx)])
  }

  /** `HandleHttpRequest` once a connection to a web server is made: the request goes out in a context of that one. */
  function Requested(p: Proxy, c: ConnId, uid: Uid, done: bool): Proxy
    requires c in p.conns
  {
    var q := Forwarded(p, c, uid);
    TrySend(MakeContext(q, p.nextConn), p.nextConn, q.nextCtx, done)
  }

  /** The response of x is placed in context k and, if k is valid, written to the socket of its owner. */
  function Relayed(p: Proxy, x: ConnId, k: CtxId, done: bool): Proxy
    requires k in p.ctxs && (p.ctxs[k].valid ==> p.ctxs[k].owner in p.conns)
  {
    var q := p.(ctxs := p.ctxs[k := p.ctxs[k].(response := Some(x))]);
    if !p.ctxs[k].valid then q
    else
      var to := p.ctxs[k].owner;
      TrySend(q.(deliveries := q.deliveries + [Delivery(x, k, to)]), to, k, done)
  }

  /** `HandleHttpResponse`: the entry is looked up by upstream uid and erased by client uid. */
  function Responded(p: Proxy, x: ConnId, done: bool): Proxy
    requires HasEntry(p, x) && FollowsLivePointers(p, x)
  {
    var (client, k) := p.connMap[p.conns[x].uid];
    var q := p.(connMap := p.connMap - {client});
    DeleteConn(if client in p.pool then Relayed(q, x, k, done) else q, x)
  }

  function Next(p: Proxy, e: Event): Proxy
    requires Enabled(p, e)
  {
    match e
    case Accept(uid) => AddConn(p, uid)
    case Request(c, uid, done) => Requested(p, c, uid, done)
    case RequestFailed(c, done) => TrySend(MakeContext(p, c), c, p.nextCtx, done)
    case Response(x, done) => Responded(p, x, done)
    case Drained(c, k) => Finish(p, c, k)
    case Delete(c) => DeleteConn(p, c)
  }

  // -- The invariant --

  /** Every connection sits in the slot of its uid, and identities are fresh. */
  ghost predicate Slots(p: Proxy) {
    && (forall u :: u in p.pool ==> u > 0 && p.pool[u] in p.conns && p.conns[p.pool[u]].uid == u)
    && (forall c :: c in p.conns ==> c < p.nextConn && p.conns[c].uid in p.pool && p.pool[p.conns[c].uid] == c)
    && (forall k :: k in p.ctxs ==> k < p.nextCtx && p.ctxs[k].owner < p.nextConn)
  }

  /** A listed context belongs to the connection; one that may still be sent is listed by its live owner. */
  ghost predicate Ownership(p: Proxy) {
    && (forall c, k :: c in p.conns && k in p.conns[c].contexts ==> k in p.ctxs && p.ctxs[k].owner == c)
    && (forall c, k :: c in p.conns && k in p.conns[c].pending ==> k in p.conns[c].contexts)
    && (forall k :: k in p.ctxs && p.ctxs[k].valid && !p.ctxs[k].done ==>
          p.ctxs[k].owner in p.conns && k in p.conns[p.ctxs[k].owner].contexts)
    && (forall k :: k in p.ctxs && p.ctxs[k].owner in p.conns ==> p.ctxs[k].valid)
  }

  /** Each forward has its own context, made for its client. */
  ghost predicate Forwards(p: Proxy) {
    && (forall x :: x in p.forwards ==> x < p.nextConn && p.forwards[x].ctx in p.ctxs)
    && (forall x :: x in p.forwards ==> p.ctxs[p.forwards[x].ctx].owner == p.forwards[x].client)
    && (forall x :: x in p.forwards ==> p.forwards[x].client < p.nextConn && p.forwards[x].client !in p.forwards)
    && (forall x, y :: x in p.forwards && y in p.forwards && p.forwards[x].ctx == p.forwards[y].ctx ==> x == y)
  }

  /** A live upstream's entry, if still there, is the one written for it, and its context is untouched. */
  ghost predicate Mapping(p: Proxy) {
    forall x :: IsUpstream(p, x) ==>
      && p.forwards[x].ctx in p.ctxs
      && p.ctxs[p.forwards[x].ctx].response.None? && !p.ctxs[p.forwards[x].ctx].done
      && (p.conns[x].uid in p.connMap ==> p.connMap[p.conns[x].uid].1 == p.forwards[x].ctx)
  }

  /** While the client lives, the entry also has its uid. */
  ghost predicate ClientUids(p: Proxy) {
    forall x :: HasEntry(p, x) && p.forwards[x].client in p.conns ==>
      p.connMap[p.conns[x].uid].0 == p.conns[p.forwards[x].client].uid
  }

  /** Nor is that context queued anywhere. */
  ghost predicate Unqueued(p: Proxy) {
    forall x, c :: IsUpstream(p, x) && c in p.conns ==> p.forwards[x].ctx !in p.conns[c].pending
  }

  /** Deliveries follow the forwards, and their upstream connections are gone. */
  ghost predicate Delivered(p: Proxy) {
    && (forall i :: 0 <= i < |p.deliveries| ==>
          p.deliveries[i].from in p.forwards && p.deliveries[i].from !in p.conns)
    && (forall i :: 0 <= i < |p.deliveries| ==>
          p.forwards[p.deliveries[i].from] == Forward(p.deliveries[i].to, p.deliveries[i].ctx))
    && (forall i, j :: 0 <= i < j < |p.deliveries| ==> p.deliveries[i].from != p.deliveries[j].from)
  }

  /** A buffer holds a response only of the upstream connection its own request was forwarded on. */
  ghost predicate Placements(p: Proxy) {
    forall k :: k in p.ctxs && p.ctxs[k].response.Some? ==>
      p.ctxs[k].response.value in p.forwards && p.forwards[p.ctxs[k].response.value].ctx == k
  }

  ghost predicate Invariant(p: Proxy) {
    && Slots(p) && Ownership(p) && Forwards(p) && Mapping(p)
    && ClientUids(p) && Unqueued(p) && Delivered(p) && Placements(p)
  }

  /** The invariant in three parts: the objects, the entries of live upstreams, the history. */
  ghost predicate Objects(p: Proxy) { Slots(p) && Ownership(p) }
  ghost predicate Entries(p: Proxy) { Mapping(p) && ClientUids(p) && Unqueued(p) }
  ghost predicate History(p: Proxy) { Forwards(p) && Delivered(p) && Placements(p) }

  lemma AcceptKeeps(p: Proxy, uid: Uid)
    requires Invariant(p) && Free(p, uid)
    ensures Invariant(AddConn(p, uid))
  {
    AcceptKeepsObjects(p, uid);
    AcceptKeepsRest(p, uid);
  }

  lemma AcceptKeepsObjects(p: Proxy, uid: Uid)
    requires Objects(p) && Free(p, uid)
    ensures Objects(AddConn(p, uid))
  {
  }

  lemma AcceptKeepsRest(p: Proxy, uid: Uid)
    requires Slots(p) && Entries(p) && History(p)
    ensures Entries(AddConn(p, uid)) && History(AddConn(p, uid))
  {
  }

  lemma DeleteKeeps(p: Proxy, c: ConnId)
    requires Invariant(p) && c in p.conns
    ensures Invariant(DeleteConn(p, c))
  {
    DeleteKeepsObjects(p, c);
    DeleteKeepsRest(p, c);
  }

  lemma DeleteKeepsObjects(p: Proxy, c: ConnId)
    requires Objects(p) && c in p.conns
    ensures Objects(DeleteConn(p, c))
  {
  }

  lemma DeleteKeepsRest(p: Proxy, c: ConnId)
    requires Entries(p) && History(p) && c in p.conns
    ensures Entries(DeleteConn(p, c)) && History(DeleteConn(p, c))
  {
  }

  lemma ContextKeeps(p: Proxy, c: ConnId)
    requires Invariant(p) && c in p.conns
    ensures Invariant(MakeContext(p, c))
  {
    ContextKeepsSlots(p, c);
    ContextKeepsOwnership(p, c);
    ContextKeepsEntries(p, c);
    ContextKeepsHistory(p, c);
  }

  lemma ContextKeepsSlots(p: Proxy, c: ConnId)
    requires Slots(p) && c in p.conns
    ensures Slots(MakeContext(p, c))
  {
  }

  lemma ContextKeepsOwnership(p: Proxy, c: ConnId)
    requires Slots(p) && Ownership(p) && c in p.conns
    ensures Ownership(MakeContext(p, c))
  {
    assert p.nextCtx !in p.ctxs;
  }

  lemma ContextKeepsEntries(p: Proxy, c: ConnId)
    requires Slots(p) && Entries(p) && c in p.conns
    ensures Entries(MakeContext(p, c))
  {
    assert p.nextCtx !in p.ctxs;
  }

  lemma ContextKeepsHistory(p: Proxy, c: ConnId)
    requires Slots(p) && History(p) && c in p.conns
    ensures History(MakeContext(p, c))
  {
    assert p.nextCtx !in p.ctxs;
  }

  /** Sending keeps everything, as long as the context is not one a live upstream is to answer into. */
  lemma TrySendKeeps(p: Proxy, c: ConnId, k: CtxId, done: bool)
    requires Invariant(p) && c in p.conns && k in p.conns[c].contexts
    requires forall x :: IsUpstream(p, x) ==> p.forwards[x].ctx != k
    ensures k in p.ctxs && Invariant(TrySend(p, c, k, done))
  {
    hide Slots, Forwards, Mapping, ClientUids, Delivered, Placements;
    assert k in p.ctxs;
    if done {
      FinishKeepsSlots(p, c, k);
      FinishKeepsOwnership(p, c, k);
      FinishKeepsEntries(p, c, k);
      FinishKeepsHistory(p, c, k);
    } else {
      QueueKeepsObjects(p, c, k);
      QueueKeepsRest(p, c, k);
    }
  }

  lemma FinishKeepsSlots(p: Proxy, c: ConnId, k: CtxId)
    requires Slots(p) && c in p.conns && k in p.ctxs
    ensures Slots(Finish(p, c, k))
  {
  }

  lemma FinishKeepsOwnership(p: Proxy, c: ConnId, k: CtxId)
    requires Ownership(p) && c in p.conns && k in p.conns[c].contexts
    ensures k in p.ctxs && Ownership(Finish(p, c, k))
  {
  }

  lemma FinishKeepsEntries(p: Proxy, c: ConnId, k: CtxId)
    requires Entries(p) && c in p.conns && k in p.ctxs
    requires forall x :: IsUpstream(p, x) ==> p.forwards[x].ctx != k
    ensures Entries(Finish(p, c, k))
  {
  }

  lemma FinishKeepsHistory(p: Proxy, c: ConnId, k: CtxId)
    requires History(p) && c in p.conns && k in p.ctxs
    ensures History(Finish(p, c, k))
  {
  }

  lemma QueueKeepsObjects(p: Proxy, c: ConnId, k: CtxId)
    requires Objects(p) && c in p.conns && k in p.conns[c].contexts
    ensures Objects(Queued(p, c, k))
  {
  }

  lemma QueueKeepsRest(p: Proxy, c: ConnId, k: CtxId)
    requires Entries(p) && History(p) && c in p.conns
    requires forall x :: IsUpstream(p, x) ==> p.forwards[x].ctx != k
    ensures Entries(Queued(p, c, k)) && History(Queued(p, c, k))
  {
  }

  lemma EraseKeeps(p: Proxy, uid: Uid)
    requires Invariant(p)
    ensures Invariant(p.(connMap := p.connMap - {uid}))
  {
    var q := p.(connMap := p.connMap - {uid});
    assert Objects(q);
    assert History(q);
    EraseKeepsEntries(p, uid);
  }

  lemma EraseKeepsEntries(p: Proxy, uid: Uid)
    requires Entries(p)
    ensures Entries(p.(connMap := p.connMap - {uid}))
  {
  }

  /** Placing and logging the response of an upstream connection that is gone. */
  function Logged(p: Proxy, x: ConnId, k: CtxId): Proxy
    requires k in p.ctxs
  {
    var q := p.(ctxs := p.ctxs[k := p.ctxs[k].(response := Some(x))]);
    if p.ctxs[k].valid then q.(deliveries := q.deliveries + [Delivery(x, k, p.ctxs[k].owner)]) else q
  }

  ghost predicate Answerable(p: Proxy, x: ConnId, k: CtxId) {
    && x !in p.conns && x in p.forwards && p.forwards[x].ctx == k
    && k in p.ctxs && p.ctxs[k].response.None? && !p.ctxs[k].done
    && forall i :: 0 <= i < |p.deliveries| ==> p.deliveries[i].from != x
  }

  lemma LoggedKeeps(p: Proxy, x: ConnId, k: CtxId)
    requires Invariant(p) && Answerable(p, x, k)
    ensures Invariant(Logged(p, x, k))
  {
    LoggedKeepsSlots(p, x, k);
    LoggedKeepsOwnership(p, x, k);
    LoggedKeepsForwards(p, x, k);
    LoggedKeepsEntries(p, x, k);
    LoggedKeepsDelivered(p, x, k);
    LoggedKeepsPlacements(p, x, k);
  }

  lemma LoggedKeepsSlots(p: Proxy, x: ConnId, k: CtxId)
    requires Slots(p) && k in p.ctxs
    ensures Slots(Logged(p, x, k))
  {
  }

  lemma LoggedKeepsOwnership(p: Proxy, x: ConnId, k: CtxId)
    requires Ownership(p) && k in p.ctxs
    ensures Ownership(Logged(p, x, k))
  {
  }

  lemma LoggedKeepsForwards(p: Proxy, x: ConnId, k: CtxId)
    requires Forwards(p) && k in p.ctxs
    ensures Forwards(Logged(p, x, k))
  {
  }

  lemma LoggedKeepsEntries(p: Proxy, x: ConnId, k: CtxId)
    requires Forwards(p) && Entries(p) && Answerable(p, x, k)
    ensures Entries(Logged(p, x, k))
  {
    assert forall y :: y in p.forwards && y != x ==> p.forwards[y].ctx != k;
  }

  lemma LoggedKeepsDelivered(p: Proxy, x: ConnId, k: CtxId)
    requires Delivered(p) && Forwards(p) && Answerable(p, x, k)
    ensures Delivered(Logged(p, x, k))
  {
    var q := Logged(p, x, k);
    assert forall i :: 0 <= i < |q.deliveries| ==> i < |p.deliveries| || q.deliveries[i].from == x;
  }

  lemma LoggedKeepsPlacements(p: Proxy, x: ConnId, k: CtxId)
    requires Placements(p) && Answerable(p, x, k)
    ensures Placements(Logged(p, x, k))
  {
  }

  lemma RelayKeeps(p: Proxy, x: ConnId, k: CtxId, done: bool)
    requires Invariant(p) && Answerable(p, x, k)
    ensures p.ctxs[k].valid ==> p.ctxs[k].owner in p.conns
    ensures Invariant(Relayed(p, x, k, done))
  {
    LoggedKeeps(p, x, k);
    if p.ctxs[k].valid {
      TrySendKeeps(Logged(p, x, k), p.ctxs[k].owner, k, done);
    }
  }

  /** Sending before or after the upstream connection is deleted comes to the same. */
  lemma RelayCommutes(p: Proxy, x: ConnId, k: CtxId, done: bool)
    requires x in p.conns && k in p.ctxs && k !in p.conns[x].contexts && p.ctxs[k].owner != x
    requires p.ctxs[k].valid ==> p.ctxs[k].owner in p.conns
    ensures DeleteConn(Relayed(p, x, k, done), x) == Relayed(DeleteConn(p, x), x, k, done)
  {
    var l, r := DeleteConn(Relayed(p, x, k, done), x), Relayed(DeleteConn(p, x), x, k, done);
    assert l.ctxs == r.ctxs;
    assert l.conns == r.conns;
  }

  /** The entry a response finds leads to the context made for its request, whose owner is alive if it is valid. */
  lemma EntryIsOwn(p: Proxy, x: ConnId)
    requires Invariant(p) && HasEntry(p, x)
    ensures p.connMap[p.conns[x].uid].1 == p.forwards[x].ctx && FollowsLivePointers(p, x)
    ensures var k := p.forwards[x].ctx; k !in p.conns[x].contexts && p.ctxs[k].owner == p.forwards[x].client
  {
  }

  lemma ResponseKeeps(p: Proxy, x: ConnId, done: bool)
    requires Invariant(p) && HasEntry(p, x) && FollowsLivePointers(p, x)
    ensures Invariant(Responded(p, x, done))
  {
    EntryIsOwn(p, x);
    var (client, k) := p.connMap[p.conns[x].uid];
    var q := p.(connMap := p.connMap - {client});
    EraseKeeps(p, client);
    DeleteKeeps(q, x);
    var r := DeleteConn(q, x);
    if client in p.pool {
      assert Answerable(r, x, k);
      RelayKeeps(r, x, k, done);
      RelayCommutes(q, x, k, done);
    }
  }

  lemma FreshContext(p: Proxy)
    requires Objects(p)
    ensures p.nextCtx !in p.ctxs && p.nextConn !in p.conns
    ensures forall c :: c in p.conns ==> p.nextCtx !in p.conns[c].contexts && p.nextCtx !in p.conns[c].pending
  {
  }

  lemma RequestKeeps(p: Proxy, c: ConnId, uid: Uid)
    requires Invariant(p) && IsClient(p, c) && Free(p, uid)
    ensures Invariant(Forwarded(p, c, uid))
  {
    ContextKeeps(p, c);
    AcceptKeepsObjects(MakeContext(p, c), uid);
    FreshContext(p);
    RequestKeepsForwards(p, c, uid);
    RequestKeepsHistory(p, c, uid);
    RequestKeepsMapping(p, c, uid);
    RequestKeepsUnqueued(p, c, uid);
  }

  lemma RequestedKeeps(p: Proxy, c: ConnId, uid: Uid, done: bool)
    requires Invariant(p) && IsClient(p, c) && Free(p, uid)
    ensures Invariant(Requested(p, c, uid, done))
  {
    hide Invariant;
    RequestKeeps(p, c, uid);
    SentKeeps(Forwarded(p, c, uid), p.nextConn, done);
  }

  lemma RequestKeepsForwards(p: Proxy, c: ConnId, uid: Uid)
    requires Slots(p) && Forwards(p) && IsClient(p, c)
    ensures Forwards(Forwarded(p, c, uid))
  {
    assert p.nextCtx !in p.ctxs;
  }

  lemma RequestKeepsHistory(p: Proxy, c: ConnId, uid: Uid)
    requires Slots(p) && Forwards(p) && Delivered(p) && Placements(p) && IsClient(p, c)
    ensures Delivered(Forwarded(p, c, uid)) && Placements(Forwarded(p, c, uid))
  {
  }

  lemma RequestKeepsMapping(p: Proxy, c: ConnId, uid: Uid)
    requires Slots(p) && Forwards(p) && Mapping(p) && ClientUids(p) && IsClient(p, c) && Free(p, uid)
    ensures Mapping(Forwarded(p, c, uid)) && ClientUids(Forwarded(p, c, uid))
  {
    var q := Forwarded(p, c, uid);
    forall x | IsUpstream(q, x) && x != p.nextConn
      ensures IsUpstream(p, x) && q.conns[x].uid == p.conns[x].uid != uid
    {
    }
    assert Mapping(q);
  }

  lemma RequestKeepsUnqueued(p: Proxy, c: ConnId, uid: Uid)
    requires Unqueued(p) && IsClient(p, c)
    requires forall d :: d in p.conns ==> p.nextCtx !in p.conns[d].pending
    ensures Unqueued(Forwarded(p, c, uid))
  {
  }

  /** Something new is sent on a connection. */
  lemma SentKeeps(p: Proxy, c: ConnId, done: bool)
    requires Invariant(p) && c in p.conns
    ensures Invariant(TrySend(MakeContext(p, c), c, p.nextCtx, done))
  {
    ContextKeeps(p, c);
    FreshContext(p);
    TrySendKeeps(MakeContext(p, c), c, p.nextCtx, done);
  }

  lemma DrainedKeeps(p: Proxy, c: ConnId, k: CtxId)
    requires Invariant(p) && c in p.conns && k in p.conns[c].pending && k in p.ctxs
    ensures Invariant(Finish(p, c, k))
  {
    assert k in p.conns[c].contexts;
    TrySendKeeps(p, c, k, true);
  }

  /** Every event keeps the invariant. */
  lemma NextKeeps(p: Proxy, e: Event)
    requires Invariant(p) && Enabled(p, e)
    ensures Invariant(Next(p, e))
  {
    hide Slots, Ownership, Forwards, Mapping, ClientUids, Unqueued, Delivered, Placements;
    hide AddConn, MakeContext, DeleteConn, TrySend, Finish, Forwarded, Responded;
    match e
    case Accept(uid) => AcceptKeeps(p, uid);
    case Request(c, uid, done) => RequestedKeeps(p, c, uid, done);
    case RequestFailed(c, done) => SentKeeps(p, c, done);
    case Response(x, done) => ResponseKeeps(p, x, done);
    case Drained(c, k) => DrainedKeeps(p, c, k);
    case Delete(c) => DeleteKeeps(p, c);
  }

  ghost predicate Runs(p: Proxy, events: seq<Event>, p': Proxy)
    decreases |events|
  {
    if events == [] then p == p' else Enabled(p, events[0]) && Runs(Next(p, events[0]), events[1..], p')
  }

  lemma {:induction false} InvariantOverRuns(p: Proxy, events: seq<Event>, p': Proxy)
    requires Invariant(p) && Runs(p, events, p')
    ensures Invariant(p')
    decreases |events|
  {
    hide Invariant, Next;
    if events != [] {
      NextKeeps(p, events[0]);
      InvariantOverRuns(Next(p, events[0]), events[1..], p');
    }
  }

  /**
   Relay safety over every run: whatever was written came from the upstream connection its own
   request was forwarded on, went to the client that sent the request, through the context made
   for it, and at most once for each upstream connection and each context.
   */
  lemma RelaySafety(events: seq<Event>, p: Proxy)
    requires Runs(Start(), events, p)
    ensures forall i :: 0 <= i < |p.deliveries| ==>
              && p.deliveries[i].from in p.forwards
              && p.forwards[p.deliveries[i].from] == Forward(p.deliveries[i].to, p.deliveries[i].ctx)
    ensures forall i, j :: 0 <= i < j < |p.deliveries| ==>
              p.deliveries[i].from != p.deliveries[j].from && p.deliveries[i].ctx != p.deliveries[j].ctx
    ensures forall k :: k in p.ctxs && p.ctxs[k].response.Some? ==>
              p.ctxs[k].response.value in p.forwards && p.forwards[p.ctxs[k].response.value].ctx == k
  {
    assert Invariant(Start());
    InvariantOverRuns(Start(), events, p);
    assert Delivered(p) && Forwards(p) && Placements(p);
  }

  /**
   After every run, a response that finds an entry is written exactly when its client is still
   connected; if the client is gone nothing is written, whoever has its uid now.
   */
  lemma ResponseReachesOnlyItsClient(events: seq<Event>, p: Proxy, x: ConnId, done: bool)
    requires Runs(Start(), events, p) && HasEntry(p, x)
    ensures Enabled(p, Response(x, done))
    ensures var f := p.forwards[x];
            Next(p, Response(x, done)).deliveries
              == if f.client in p.conns then p.deliveries + [Delivery(x, f.ctx, f.client)] else p.deliveries
  {
    assert Invariant(Start());
    InvariantOverRuns(Start(), events, p);
    EntryIsOwn(p, x);
    assert ClientUids(p) && Slots(p);
    ValidWhileConnected(p, x);
  }

  lemma ValidWhileConnected(p: Proxy, x: ConnId)
    requires Invariant(p) && IsUpstream(p, x)
    ensures p.ctxs[p.forwards[x].ctx].valid <==> p.forwards[x].client in p.conns
  {
  }

  // -- What a response leaves behind --

  /**
   After every run: the upstream connection of a response is gone; while its client is connected the response is
   in the client's context, which is still to be drained if the write did not finish, and finished with otherwise.
   */
  lemma ResponseIsPlaced(events: seq<Event>, p: Proxy, x: ConnId, done: bool)
    requires Runs(Start(), events, p) && HasEntry(p, x)
    ensures Enabled(p, Response(x, done))
    ensures var q, f := Next(p, Response(x, done)), p.forwards[x];
            && x !in q.conns && f.ctx in p.ctxs && f.ctx in q.ctxs
            && (f.client in p.conns ==>
                && f.client in q.conns && q.ctxs[f.ctx].response == Some(x)
                && (done ==> q.ctxs[f.ctx].done && f.ctx !in q.conns[f.client].contexts)
                && (!done ==> Enabled(q, Drained(f.client, f.ctx)) && !q.ctxs[f.ctx].done))
            && (f.client !in p.conns ==> q.ctxs[f.ctx].done == p.ctxs[f.ctx].done && f.client !in q.conns)
  {
    assert Invariant(Start());
    InvariantOverRuns(Start(), events, p);
    EntryIsOwn(p, x);
    assert ClientUids(p) && Slots(p) && Forwards(p) && Mapping(p) by { Parts(p); MappingPart(p); }
    ValidWhileConnected(p, x);
    PlacedStep(p, x, done);
  }

  lemma MappingPart(p: Proxy)
    requires Invariant(p)
    ensures Mapping(p)
  {
    hide Slots, Forwards, ClientUids, Ownership, Mapping, Unqueued, Delivered, Placements;
  }

  lemma PlacedStep(p: Proxy, x: ConnId, done: bool)
    requires HasEntry(p, x) && FollowsLivePointers(p, x) && Slots(p) && Forwards(p) && Mapping(p) && ClientUids(p)
    requires p.forwards[x].ctx !in p.conns[x].contexts
    requires p.ctxs[p.forwards[x].ctx].valid <==> p.forwards[x].client in p.conns
    ensures var q, f := Responded(p, x, done), p.forwards[x];
            && x !in q.conns && f.ctx in p.ctxs && f.ctx in q.ctxs
            && (f.client in p.conns ==>
                && f.client in q.conns && q.ctxs[f.ctx].response == Some(x)
                && (done ==> q.ctxs[f.ctx].done && f.ctx !in q.conns[f.client].contexts)
                && (!done ==> Enabled(q, Drained(f.client, f.ctx)) && !q.ctxs[f.ctx].done))
            && (f.client !in p.conns ==> q.ctxs[f.ctx].done == p.ctxs[f.ctx].done && f.client !in q.conns)
  {
  }

  /** What a forward leaves: the client's context waits for the response, the request is sent or still to be drained. */
  lemma RequestIsSent(p: Proxy, c: ConnId, uid: Uid, done: bool)
    requires Objects(p) && Enabled(p, Request(c, uid, done))
    ensures var q, x, k, own := Next(p, Request(c, uid, done)), p.nextConn, p.nextCtx, p.nextCtx + 1;
            && x in q.conns && q.conns[x].uid == uid && uid in q.pool && q.pool[uid] == x
            && q.connMap == p.connMap[uid := (p.conns[c].uid, k)] && q.forwards == p.forwards[x := Forward(c, k)]
            && k in q.ctxs && q.ctxs[k] == Ctx(c, true, None, false) && c in q.conns && k in q.conns[c].contexts
            && k !in q.conns[c].pending && own in q.ctxs && q.ctxs[own] == Ctx(x, true, None, done)
            && (Enabled(q, Drained(x, own)) <==> !done)
  {
    FreshContext(p);
    assert p.nextCtx + 1 !in p.ctxs;
  }

  /** A forward that fails is answered at once, in a context of the client's own. */
  lemma FailureIsAnswered(p: Proxy, c: ConnId, done: bool)
    requires Objects(p) && Enabled(p, RequestFailed(c, done))
    ensures var q, k := Next(p, RequestFailed(c, done)), p.nextCtx;
            && k in q.ctxs && q.ctxs[k] == Ctx(c, true, None, done) && q.connMap == p.connMap && q.pool == p.pool
            && (Enabled(q, Drained(c, k)) <==> !done)
  {
    FreshContext(p);
  }

  /** A packet drained is finished with. */
  lemma DrainedIsDone(p: Proxy, c: ConnId, k: CtxId)
    requires Enabled(p, Drained(c, k))
    ensures var q := Next(p, Drained(c, k));
            && c in q.conns && k !in q.conns[c].pending && k !in q.conns[c].contexts && q.ctxs[k].done
            && forall d :: d in p.conns && d != c ==> d in q.conns && q.conns[d] == p.conns[d]
  {
  }

  // -- Entries that are lost --

  /** The response of x takes away the entry of y: it is erased under the client uid recorded for x. */
  predicate Erases(p: Proxy, e: Event, y: ConnId)
    requires y in p.conns
  {
    e.Response? && HasEntry(p, e.upstream) && p.connMap[p.conns[e.upstream].uid].0 == p.conns[y].uid
  }

  /**
   After every run, an upstream connection that outlives an event keeps its entry exactly when the event
   is not a response whose recorded client uid is its own; that client is then gone.
   */
  lemma EntryLostIff(events: seq<Event>, p: Proxy, e: Event, y: ConnId)
    requires Runs(Start(), events, p) && Enabled(p, e) && HasEntry(p, y) && y in Next(p, e).conns
    ensures HasEntry(Next(p, e), y) <==> !Erases(p, e, y)
    ensures Erases(p, e, y) ==> e.upstream != y && p.forwards[e.upstream].client !in p.conns
  {
    assert Invariant(Start());
    InvariantOverRuns(Start(), events, p);
    StepEntry(p, e, y);
  }

  lemma StepEntry(p: Proxy, e: Event, y: ConnId)
    requires Invariant(p) && Enabled(p, e) && HasEntry(p, y) && y in Next(p, e).conns
    ensures HasEntry(Next(p, e), y) <==> !Erases(p, e, y)
    ensures Erases(p, e, y) ==> e.upstream != y && p.forwards[e.upstream].client !in p.conns
  {
    hide Next, Invariant;
    assert Slots(p) && Forwards(p) && ClientUids(p) by { Parts(p); }
    EntriesAfter(p, e);
    NamesKept(p, e, y);
  }

  lemma Parts(p: Proxy)
    requires Invariant(p)
    ensures Slots(p) && Forwards(p) && ClientUids(p)
  {
    hide Slots, Forwards, ClientUids, Ownership, Mapping, Unqueued, Delivered, Placements;
  }

  /** What an event does to the entries. */
  lemma EntriesAfter(p: Proxy, e: Event)
    requires Enabled(p, e)
    ensures Next(p, e).connMap
         == match e
            case Request(c, uid, _) => p.connMap[uid := (p.conns[c].uid, p.nextCtx)]
            case Response(x, _) => p.connMap - {p.connMap[p.conns[x].uid].0}
            case _ => p.connMap
  {
  }

  /** A connection keeps its uid, and what was forwarded on it, as long as it is there. */
  lemma NamesKept(p: Proxy, e: Event, y: ConnId)
    requires Enabled(p, e) && Slots(p) && y in p.conns && y in Next(p, e).conns
    ensures Next(p, e).conns[y].uid == p.conns[y].uid
    ensures y in p.forwards <==> y in Next(p, e).forwards
    ensures e.Response? ==> y != e.upstream
  {
    match e
    case Request(c, uid, done) =>
      var q := Forwarded(p, c, uid);
      assert q.conns[y].uid == p.conns[y].uid && (y in p.forwards <==> y in q.forwards);
    case Response(x, done) =>
    case _ =>
  }

  // -- Runs with the uids of the pool --

  /** The pool of uids after an event. */
  function PoolAfter(p: Proxy, uids: ConnectionPool.Pool, e: Event): ConnectionPool.Pool
    requires Enabled(p, e)
  {
    match e
    case Accept(_) => ConnectionPool.Added(uids)
    case Request(_, _, _) => ConnectionPool.Added(uids)
    case Response(x, _) => ConnectionPool.Deleted(uids, p.conns[x].uid)
    case Delete(c) => ConnectionPool.Deleted(uids, p.conns[c].uid)
    case _ => uids
  }

  /** A new connection gets the uid that is first in line. */
  predicate HandsOut(uids: ConnectionPool.Pool, e: Event) {
    e.Accept? || e.Request? ==> e.uid == ConnectionPool.NextUid(uids)
  }

  /** The runs the source can make. */
  ghost predicate PooledRuns(p: Proxy, uids: ConnectionPool.Pool, events: seq<Event>, p': Proxy)
    decreases |events|
  {
    if events == [] then p == p'
    else
      && Enabled(p, events[0]) && HandsOut(uids, events[0])
      && PooledRuns(Next(p, events[0]), PoolAfter(p, uids, events[0]), events[1..], p')
  }

  lemma {:induction false} PooledAreRuns(p: Proxy, uids: ConnectionPool.Pool, events: seq<Event>, p': Proxy)
    requires PooledRuns(p, uids, events, p')
    ensures Runs(p, events, p')
    decreases |events|
  {
    hide Next, Enabled, PoolAfter;
    if events != [] {
      PooledAreRuns(Next(p, events[0]), PoolAfter(p, uids, events[0]), events[1..], p');
    }
  }

  /** The pool of uids and the connections agree, and so the uid handed out is always free. */
  ghost predicate Agree(p: Proxy, uids: ConnectionPool.Pool) {
    ConnectionPool.Invariant(uids) && uids.live == p.pool.Keys
  }

  lemma NextIsFree(p: Proxy, uids: ConnectionPool.Pool)
    requires Agree(p, uids)
    ensures Free(p, ConnectionPool.NextUid(uids))
  {
    hide ConnectionPool.Invariant, ConnectionPool.NextUid;
    ConnectionPool.AddedInvariant(uids);
  }

  lemma SlotsAfter(p: Proxy, e: Event)
    requires Enabled(p, e)
    ensures Next(p, e).pool.Keys
         == match e
            case Accept(uid) => p.pool.Keys + {uid}
            case Request(_, uid, _) => p.pool.Keys + {uid}
            case Response(x, _) => p.pool.Keys - {p.conns[x].uid}
            case Delete(c) => p.pool.Keys - {p.conns[c].uid}
            case _ => p.pool.Keys
  {
  }

  lemma StepAgrees(p: Proxy, uids: ConnectionPool.Pool, e: Event)
    requires Slots(p) && Agree(p, uids) && Enabled(p, e) && HandsOut(uids, e)
    ensures Agree(Next(p, e), PoolAfter(p, uids, e))
  {
    hide Next, ConnectionPool.Invariant, ConnectionPool.NextUid, ConnectionPool.Added;
    SlotsAfter(p, e);
    match e
    case Accept(_) => ConnectionPool.AddedInvariant(uids);
    case Request(_, _, _) => ConnectionPool.AddedInvariant(uids);
    case Response(x, _) => ConnectionPool.DeletedInvariant(uids, p.conns[x].uid);
    case Delete(c) => ConnectionPool.DeletedInvariant(uids, p.conns[c].uid);
    case _ =>
  }

  /** The state once a request of client 0 is out on upstream 2 and the client is gone. */
  function ClientGone(): Proxy {
    Proxy(map[2 := 1, 3 := 2],
          map[1 := Conn(2, {}, {}), 2 := Conn(3, {}, {})],
          map[0 := Ctx(0, false, None, false), 1 := Ctx(2, true, None, true)],
          map[3 := (1, 0)], 3, 2, map[2 := Forward(0, 0)], [])
  }

  /** The state once client 1 has sent a request, which went out on upstream 3 under the uid of client 0. */
  function UidTaken(): Proxy {
    Proxy(map[2 := 1, 3 := 2, 1 := 3],
          map[1 := Conn(2, {2}, {}), 2 := Conn(3, {}, {}), 3 := Conn(1, {}, {})],
          map[0 := Ctx(0, false, None, false), 1 := Ctx(2, true, None, true),
              2 := Ctx(1, true, None, false), 3 := Ctx(3, true, None, true)],
          map[3 := (1, 0), 1 := (2, 2)], 4, 4,
          map[2 := Forward(0, 0), 3 := Forward(1, 2)], [])
  }

  /** The state before client 0 goes. */
  function RequestOut(): Proxy {
    Proxy(map[1 := 0, 2 := 1, 3 := 2],
          map[0 := Conn(1, {0}, {}), 1 := Conn(2, {}, {}), 2 := Conn(3, {}, {})],
          map[0 := Ctx(0, true, None, false), 1 := Ctx(2, true, None, true)],
          map[3 := (1, 0)], 3, 2, map[2 := Forward(0, 0)], [])
  }

  function TwoClients(): Proxy {
    Proxy(map[1 := 0, 2 := 1], map[0 := Conn(1, {}, {}), 1 := Conn(2, {}, {})], map[], map[], 2, 0, map[], [])
  }

  lemma StepsToTwoClients()
    ensures Enabled(Start(), Accept(1)) && Enabled(Next(Start(), Accept(1)), Accept(2))
    ensures Next(Next(Start(), Accept(1)), Accept(2)) == TwoClients()
  {
    var p1 := Next(Start(), Accept(1));
    assert p1.pool == map[1 := 0] && p1.conns == map[0 := Conn(1, {}, {})];
  }

  lemma StepToRequestOut()
    ensures Enabled(TwoClients(), Request(0, 3, true)) && Next(TwoClients(), Request(0, 3, true)) == RequestOut()
  {
    var none: set<CtxId> := {};
    assert none + {0} == {0};
    var q := Forwarded(TwoClients(), 0, 3);
    assert q.conns == map[0 := Conn(1, {0}, {}), 1 := Conn(2, {}, {}), 2 := Conn(3, {}, {})];
    assert q.ctxs == map[0 := Ctx(0, true, None, false)] && q.nextCtx == 1;
    SentAtOnce(q, 2, 1);
    assert RequestOut().conns == q.conns;
    assert RequestOut().ctxs == q.ctxs[1 := Ctx(2, true, None, true)];
    assert RequestOut().pool == q.pool;
  }

  /** A packet that is sent at once leaves nothing but its context behind. */
  lemma SentAtOnce(q: Proxy, c: ConnId, k: CtxId)
    requires c in q.conns && k == q.nextCtx && q.conns[c].contexts == {} && q.conns[c].pending == {}
    ensures TrySend(MakeContext(q, c), c, k, true)
         == q.(ctxs := q.ctxs[k := Ctx(c, true, None, true)], nextCtx := k + 1)
  {
    var r := TrySend(MakeContext(q, c), c, k, true);
    assert r.conns[c] == q.conns[c];
    assert r.conns == q.conns;
  }

  lemma StepToClientGone()
    ensures Enabled(RequestOut(), Delete(0)) && Next(RequestOut(), Delete(0)) == ClientGone()
  {
  }

  lemma StepToUidTaken()
    ensures Enabled(ClientGone(), Request(1, 1, true)) && Next(ClientGone(), Request(1, 1, true)) == UidTaken()
  {
    var none: set<CtxId> := {};
    assert none + {2} == {2};
    var q := Forwarded(ClientGone(), 1, 1);
    assert q.conns == map[1 := Conn(2, {2}, {}), 2 := Conn(3, {}, {}), 3 := Conn(1, {}, {})];
    assert q.nextCtx == 3 && q.ctxs == ClientGone().ctxs[2 := Ctx(1, true, None, false)];
    SentAtOnce(q, 3, 3);
    assert UidTaken().conns == q.conns;
    assert UidTaken().ctxs == q.ctxs[3 := Ctx(3, true, None, true)];
    assert UidTaken().pool == q.pool;
    assert UidTaken().connMap == q.connMap;
  }

  /** Two accepts, a forward, a deletion and another forward: the pool hands out 1, 2, 3 and then 1 again. */
  lemma UidsOfTheRun()
    ensures var u0 := ConnectionPool.Created();
            var u1 := ConnectionPool.Added(u0);
            var u2 := ConnectionPool.Added(u1);
            var u3 := ConnectionPool.Deleted(ConnectionPool.Added(u2), 1);
            && ConnectionPool.NextUid(u0) == 1 && ConnectionPool.NextUid(u1) == 2
            && ConnectionPool.NextUid(u2) == 3 && ConnectionPool.NextUid(u3) == 1
  {
  }

  /**
   Such a run, with the uids the pool hands out: the first response erases the entry of the second upstream,
   whose uid was that of the first client.
   */
  lemma EntryCanBeLost()
    ensures PooledRuns(Start(), ConnectionPool.Created(),
                       [Accept(1), Accept(2), Request(0, 3, true), Delete(0), Request(1, 1, true)], UidTaken())
    ensures HasEntry(UidTaken(), 3) && Enabled(UidTaken(), Response(2, true))
    ensures var p := Next(UidTaken(), Response(2, true)); IsUpstream(p, 3) && !HasEntry(p, 3)
  {
    hide Next, UidTaken, PooledRuns;
    RunUnfolds();
    FirstResponse();
  }

  lemma FirstResponse()
    ensures HasEntry(UidTaken(), 3) && Enabled(UidTaken(), Response(2, true))
    ensures var p := Next(UidTaken(), Response(2, true)); IsUpstream(p, 3) && !HasEntry(p, 3)
  {
    var p := UidTaken();
    EntriesAfter(p, Response(2, true));
    var q := p.(connMap := p.connMap - {1});
    assert Relayed(q, 2, 0, true).conns == q.conns;
  }

  lemma RunUnfolds()
    ensures PooledRuns(Start(), ConnectionPool.Created(),
                       [Accept(1), Accept(2), Request(0, 3, true), Delete(0), Request(1, 1, true)], UidTaken())
  {
    hide Next, Enabled, ConnectionPool.NextUid, ConnectionPool.Added, ConnectionPool.Deleted, ConnectionPool.Created;
    StepsToTwoClients();
    StepToRequestOut();
    StepToClientGone();
    StepToUidTaken();
    UidsOfTheRun();
    var u0 := ConnectionPool.Created();
    var u1 := ConnectionPool.Added(u0);
    var u2 := ConnectionPool.Added(u1);
    var u3 := ConnectionPool.Added(u2);
    var u4 := ConnectionPool.Deleted(u3, 1);
    var end := UidTaken();
    PooledStep(ClientGone(), u4, Request(1, 1, true), [], end);
    PooledStep(RequestOut(), u3, Delete(0), [Request(1, 1, true)], end);
    PooledStep(TwoClients(), u2, Request(0, 3, true), [Delete(0), Request(1, 1, true)], end);
    var tail := [Request(0, 3, true), Delete(0), Request(1, 1, true)];
    PooledStep(Next(Start(), Accept(1)), u1, Accept(2), tail, end);
    PooledStep(Start(), u0, Accept(1), [Accept(2)] + tail, end);
    assert [Accept(1)] + ([Accept(2)] + tail)
        == [Accept(1), Accept(2), Request(0, 3, true), Delete(0), Request(1, 1, true)];
  }

  lemma PooledStep(p: Proxy, uids: ConnectionPool.Pool, e: Event, rest: seq<Event>, p': Proxy)
    requires Enabled(p, e) && HandsOut(uids, e) && PooledRuns(Next(p, e), PoolAfter(p, uids, e), rest, p')
    ensures PooledRuns(p, uids, [e] + rest, p')
  {
    assert ([e] + rest)[1..] == rest;
  }

  /** The handlers, as they update the state. */
  class NetThread {
    var pool: map<Uid, ConnId>
    var conns: map<ConnId, Conn>
    var ctxs: map<CtxId, Ctx>
    var connMap: map<Uid, (Uid, CtxId)>
    var nextConn: ConnId
    var nextCtx: CtxId
    var uids: ConnectionPool.Pool
    ghost var forwards: map<ConnId, Forward>
    ghost var deliveries: seq<Delivery>

    ghost function View(): Proxy
      reads this
    {
      Proxy(pool, conns, ctxs, connMap, nextConn, nextCtx, forwards, deliveries)
    }

    /** The pool of uids and the connections agree. */
    ghost predicate Agreed()
      reads this
    {
      Agree(View(), uids)
    }

    constructor ()
      ensures View() == Start() && Agreed() && uids == ConnectionPool.Created()
    {
      ConnectionPool.CreatedInvariant();
      uids := ConnectionPool.Created();
      pool, conns, ctxs, connMap, nextConn, nextCtx := map[], map[], map[], map[], 0, 0;
      forwards, deliveries := map[], [];
    }

    /** `AddConnection`: the connection gets the uid that is first in line. */
    method AddConnection() returns (c: ConnId, uid: Uid)
      requires Agreed()
      modifies this`pool, this`conns, this`nextConn, this`uids
      ensures uid == ConnectionPool.NextUid(old(uids)) && c == old(nextConn) && old(Free(View(), uid))
      ensures View() == AddConn(old(View()), uid) && uids == ConnectionPool.Added(old(uids)) && Agreed()
    {
      hide ConnectionPool.NextUid, ConnectionPool.Added, ConnectionPool.Invariant;
      ConnectionPool.AddedInvariant(uids);
      uid := ConnectionPool.NextUid(uids);
      uids := ConnectionPool.Added(uids);
      c := nextConn;
      nextConn := nextConn + 1;
      conns := conns[c := Conn(uid, {}, {})];
      pool := pool[uid := c];
    }

    /** `DelConnection` and the destructor's loop over the listed contexts. */
    method DelConnection(c: ConnId)
      requires Agreed() && c in conns && conns[c].uid in pool
      modifies this`pool, this`conns, this`ctxs, this`uids
      ensures View() == DeleteConn(old(View()), c) && Agreed()
      ensures uids == ConnectionPool.Deleted(old(uids), old(conns[c].uid))
    {
      hide ConnectionPool.Invariant;
      var listed, uid := conns[c].contexts, conns[c].uid;
      ConnectionPool.DeletedInvariant(uids, uid);
      uids := ConnectionPool.Deleted(uids, uid);
      pool := pool - {uid};
      conns := conns - {c};
      ctxs := map k | k in ctxs :: if k in listed then ctxs[k].(valid := false) else ctxs[k];
    }

    method MakeSendContext(c: ConnId) returns (k: CtxId)
      requires c in conns
      modifies this`ctxs, this`conns, this`nextCtx
      ensures View() == MakeContext(old(View()), c) && k == old(nextCtx)
    {
      k := nextCtx;
      nextCtx := nextCtx + 1;
      ctxs := ctxs[k := Ctx(c, true, None, false)];
      conns := conns[c := conns[c].(contexts := conns[c].contexts + {k})];
    }

    /** `HandleHttpRequest` with a web server at hand; `complete` is what the write of the request comes to. */
    method HandleHttpRequest(client: ConnId, complete: bool)
      requires Invariant(View()) && Agreed() && IsClient(View(), client)
      modifies this
      ensures var e := Request(client, ConnectionPool.NextUid(old(uids)), complete);
              && Enabled(old(View()), e) && View() == Next(old(View()), e)
              && uids == PoolAfter(old(View()), old(uids), e)
      ensures Invariant(View()) && Agreed()
    {
      hide Invariant, Agree, ConnectionPool.NextUid, ConnectionPool.Added;
      NextIsFree(View(), uids);
      NextKeeps(View(), Request(client, ConnectionPool.NextUid(uids), complete));
      assert Slots(View()) by { Parts(View()); }
      var clientUid := conns[client].uid;
      var returnPacket := MakeSendContext(client);
      SameSlots(old(View()), View(), uids);
      var upstream, uid := AddConnection();
      connMap := connMap[uid := (clientUid, returnPacket)];
      forwards := forwards[upstream := Forward(client, returnPacket)];
      ghost var sent := View();
      var own := MakeSendContext(upstream);
      SendOwn(upstream, own, complete);
      StepAgrees(old(View()), old(uids), Request(client, uid, complete));
    }

    /** The write of a packet on its own connection, and what follows it. */
    method SendOwn(c: ConnId, k: CtxId, complete: bool)
      requires k in ctxs && c in conns
      modifies this`conns, this`ctxs
      ensures View() == TrySend(old(View()), c, k, complete)
    {
      if complete {
        conns := conns[c := conns[c].(contexts := conns[c].contexts - {k}, pending := conns[c].pending - {k})];
        ctxs := ctxs[k := ctxs[k].(done := true)];
      } else {
        conns := conns[c := conns[c].(pending := conns[c].pending + {k})];
      }
    }

    /** `TrySendAndMarkPendingIfUndone`: a context whose connection is gone counts as sent. */
    method TrySendOrQueue(from: ConnId, k: CtxId, complete: bool) returns (sendDone: bool)
      requires k in ctxs && (ctxs[k].valid ==> ctxs[k].owner in conns)
      modifies this`conns, this`ctxs, this`deliveries
      ensures sendDone == (!old(ctxs[k].valid) || complete)
      ensures old(ctxs[k].valid) ==>
                var to := old(ctxs[k].owner);
                var logged := old(View()).(deliveries := old(deliveries) + [Delivery(from, k, to)]);
                View() == TrySend(logged, to, k, complete)
      ensures !old(ctxs[k].valid) ==> View() == old(View())
    {
      if !ctxs[k].valid {
        return true;
      }
      var to := ctxs[k].owner;
      deliveries := deliveries + [Delivery(from, k, to)];
      SendOwn(to, k, complete);
      return complete;
    }

    /** `HandleHttpResponse`; `complete` is what the write of the response comes to. */
    method HandleHttpResponse(x: ConnId, complete: bool)
      requires Invariant(View()) && Agreed() && HasEntry(View(), x)
      modifies this
      ensures Enabled(old(View()), Response(x, complete))
      ensures View() == Next(old(View()), Response(x, complete)) && Invariant(View())
      ensures uids == PoolAfter(old(View()), old(uids), Response(x, complete)) && Agreed()
    {
      hide Invariant, DeleteConn, Agree;
      EntryIsOwn(View(), x);
      NextKeeps(View(), Response(x, complete));
      assert Slots(View()) by { Parts(View()); }
      ghost var before := View();
      var (client, k) := connMap[conns[x].uid];
      if client !in pool {
        connMap := connMap - {client};
        SameSlots(before, View(), uids);
        DelConnection(x);
        return;
      }
      ctxs := ctxs[k := ctxs[k].(response := Some(x))];
      var sendDone := TrySendOrQueue(x, k, complete);
      connMap := connMap - {client};
      assert View() == Relayed(before.(connMap := before.connMap - {client}), x, k, complete);
      SameSlots(before, View(), uids);
      DelConnection(x);
    }
  }

  /** Only the slots matter for the agreement. */
  lemma SameSlots(p: Proxy, q: Proxy, uids: ConnectionPool.Pool)
    requires Agree(p, uids) && q.pool == p.pool
    ensures Agree(q, uids)
  {
  }
}
