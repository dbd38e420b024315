/** The cache lookup and the forward-and-store loop of `http_handle_request`, with
    the network as an oracle. */
module Http {
  import opened Options
  import opened RecencyList
  import opened Cache

  const BUFFER_SIZE: nat := 65536

  /** One successful `recv` from the remote server, and whether the chunk could be
      forwarded to the client. */
  datatype Received = Received(chunk: Bytes, forwarded: bool)

  /** How receiving ends: `recv` returns 0 or -1. */
  datatype Ending = Closed | RecvFailed

  /** A response on its way: what `recv` yields, how that ends, and the bytes of the
      response that had not come by then. */
  datatype Delivery = Delivery(received: seq<Received>, ending: Ending, undelivered: Bytes) {
    /** `recv` returns between one byte and a buffer full. */
    predicate FromRecv() {
      forall i | 0 <= i < |received| :: 0 < |received[i].chunk| <= BUFFER_SIZE
    }

    /** The response as the remote server has it. */
    function Response(): Bytes {
      Chunks(received) + undelivered
    }

    /** What the client got, as far as chunks were forwarded whole. */
    function ToClient(): Bytes {
      Forwarded(received)
    }

    /** The result of the `recv` after `taken` chunks. */
    function Recv(taken: nat): int
      requires taken <= |received|
    {
      if taken < |received| then |received[taken].chunk| else if ending.Closed? then 0 else -1
    }
  }

  /** The chunks before the first one that could not be forwarded. */
  function Forwarded(rs: seq<Received>): Bytes {
    if rs == [] || !rs[0].forwarded then [] else rs[0].chunk + Forwarded(rs[1..])
  }

  function Chunks(rs: seq<Received>): Bytes {
    if rs == [] then [] else rs[0].chunk + Chunks(rs[1..])
  }

  lemma ForwardedNext(rs: seq<Received>, next: nat, before: Bytes)
    requires next < |rs| && rs[next].forwarded
    ensures before + Forwarded(rs[next..]) == before + rs[next].chunk + Forwarded(rs[next + 1..])
  {
    assert rs[next..][1..] == rs[next + 1..];
  }

  // ---------- The growing response buffer ----------

  /** The receive loop: forwards each chunk and appends it to a buffer that doubles
      at most once a chunk. It ends at the first failure on either side. */
  method Relay(d: Delivery) returns (buffer: array<bv8>, size: nat)
    requires d.FromRecv()
    ensures size <= buffer.Length && buffer[..size] == d.ToClient()
  {
    var capacity := BUFFER_SIZE;
    buffer, size := new bv8[BUFFER_SIZE], 0;
    var next := 0;
    assert d.received[0..] == d.received;
    while true
      invariant next <= |d.received|
      invariant size <= capacity == buffer.Length && capacity >= BUFFER_SIZE && fresh(buffer)
      invariant buffer[..size] + Forwarded(d.received[next..]) == d.ToClient()
      decreases |d.received| - next
    {
      var n := d.Recv(next);
      if n <= 0 {
        break;
      }
      var chunk := d.received[next].chunk;
      if !d.received[next].forwarded {
        assert Forwarded(d.received[next..]) == [];
        break;
      }
      ghost var before := buffer[..size];
      if size + |chunk| > capacity {
        capacity := capacity * 2;
        buffer := Grow(buffer, size, capacity);
      }
      forall i | 0 <= i < |chunk| {
        buffer[size + i] := chunk[i];
      }
      size := size + |chunk|;
      assert buffer[..size] == before + chunk;
      ForwardedNext(d.received, next, before);
      next := next + 1;
    }
  }

  /** `realloc`. */
  method Grow(buffer: array<bv8>, size: nat, capacity: nat) returns (bigger: array<bv8>)
    requires size <= buffer.Length <= capacity
    ensures fresh(bigger) && bigger.Length == capacity && bigger[..size] == buffer[..size]
  {
    bigger := new bv8[capacity];
    forall i | 0 <= i < size {
      bigger[i] := buffer[i];
    }
  }

  // ---------- One request ----------

  datatype Settings = Settings(caching: bool, ttl: int)

  /** What one request meets: its clock readings and what the network does. */
  datatype Exchange = Exchange(
    isGet: bool, url: string, lookedAt: int, connected: bool, requestSent: bool, delivery: Delivery, storedAt: int)

  datatype Reply = FromCache(data: Bytes) | BadGateway | NotSent | Relayed(data: Bytes)

  /** What a request does up to its lookup in the cache, and whether that answers it.
      The cache's mutex makes it one step. */
  function LookUp(c: Settings, st: State, x: Exchange): (State, Option<Reply>) {
    var (looked, hit) := if c.caching && x.isGet then RecencyList.Get(st, x.url, x.lookedAt) else (st, None);
    (looked, if hit.Some? then Some(FromCache(hit.value))
             else if !x.connected then Some(BadGateway)
             else if !x.requestSent then Some(NotSent)
             else None)
  }

  /** Whether it then stores something in the cache. */
  predicate Stores(c: Settings, x: Exchange) {
    c.caching && x.isGet && x.delivery.ToClient() != []
  }

  /** What it does from the response on, another step. */
  function Conclude(c: Settings, st: State, x: Exchange): (State, Reply) {
    var data := x.delivery.ToClient();
    (if Stores(c, x) then RecencyList.Put(st, x.url, data, c.ttl, x.storedAt).0 else st, Relayed(data))
  }

  /** Cache state and reply after a request that no other request interrupts. */
  function Handle(c: Settings, st: State, x: Exchange): (State, Reply) {
    var (looked, reply) := LookUp(c, st, x);
    if reply.Some? then (looked, reply.value) else Conclude(c, looked, x)
  }

  /** The part of `http_handle_request` from the cache lookup on. */
  method HandleRequest(cache: LruCache, c: Settings, x: Exchange) returns (reply: Reply)
    requires cache.Valid() && x.delivery.FromRecv()
    modifies cache, cache.buckets, cache.Entries()
    ensures cache.Valid()
    ensures (cache.Model(), reply) == Handle(c, old(cache.Model()), x)
  {
    if c.caching && x.isGet {
      var hit := cache.Get(x.url, x.lookedAt);
      if hit.Some? {
        return FromCache(hit.value);
      }
    }
    if !x.connected {
      return BadGateway;
    }
    if !x.requestSent {
      return NotSent;
    }
    var buffer, size := Relay(x.delivery);
    var data := buffer[..size];
    if c.caching && x.isGet && size > 0 {
      var _ := cache.Put(x.url, data, c.ttl, x.storedAt);
    }
    return Relayed(data);
  }

  // ---------- What is answered ----------

  /** The lookup finds something. */
  predicate Hits(c: Settings, st: State, x: Exchange) {
    c.caching && x.isGet && RecencyList.Get(st, x.url, x.lookedAt).1.Some?
  }

  /** Who does not hit is told that the connection failed if and only if it did, that
      sending failed if and only if only that did, and otherwise gets what could be
      forwarded. Neither the method nor the cache matters to that. */
  lemma ReplyIff(c: Settings, st: State, x: Exchange)
    ensures Hits(c, st, x) ==> Handle(c, st, x).1 == FromCache(RecencyList.Get(st, x.url, x.lookedAt).1.value)
    ensures !Hits(c, st, x) ==>
              var reply := Handle(c, st, x).1;
              && (reply == BadGateway <==> !x.connected)
              && (reply == NotSent <==> x.connected && !x.requestSent)
              && (x.connected && x.requestSent ==> reply == Relayed(x.delivery.ToClient()))
  {
  }

  /** A request changes the cache by its lookup, if it is a GET and caching is on, and
      then by storing what it could forward, if that is something. */
  lemma CacheAfterIs(c: Settings, st: State, x: Exchange)
    ensures !c.caching || !x.isGet ==> Handle(c, st, x).0 == st
    ensures c.caching && x.isGet ==>
              var looked, data := RecencyList.Get(st, x.url, x.lookedAt).0, x.delivery.ToClient();
              Handle(c, st, x).0 ==
              if !Hits(c, st, x) && x.connected && x.requestSent && data != []
              then RecencyList.Put(looked, x.url, data, c.ttl, x.storedAt).0 else looked
  {
  }

  /** What could be forwarded are the chunks before the first one that failed. */
  lemma {:induction false} ForwardedUpToFailure(sent: seq<Received>, rest: seq<Received>)
    requires (forall i | 0 <= i < |sent| :: sent[i].forwarded) && (rest == [] || !rest[0].forwarded)
    ensures Forwarded(sent + rest) == Chunks(sent)
  {
    if sent == [] {
      assert sent + rest == rest;
    } else {
      assert (sent + rest)[1..] == sent[1..] + rest;
      ForwardedUpToFailure(sent[1..], rest);
    }
  }

  // ---------- What is stored and served ----------

  /** What a client gets, and what is stored, is a beginning of the response. It is
      all of it if and only if all of it came and every chunk could be forwarded. */
  lemma StoredIsWholeIff(d: Delivery)
    requires d.FromRecv()
    ensures d.ToClient() <= d.Response()
    ensures d.ToClient() == d.Response() <==>
            d.undelivered == [] && forall i | 0 <= i < |d.received| :: d.received[i].forwarded
  {
    ForwardedIsAllChunksIff(d.received);
    assert |d.Response()| == |Chunks(d.received)| + |d.undelivered|;
  }

  lemma {:induction false} ForwardedIsAllChunksIff(rs: seq<Received>)
    requires forall i | 0 <= i < |rs| :: rs[i].chunk != []
    ensures Forwarded(rs) <= Chunks(rs)
    ensures Forwarded(rs) == Chunks(rs) <==> forall i | 0 <= i < |rs| :: rs[i].forwarded
  {
    if rs != [] {
      var n, rest := |rs[0].chunk|, rs[1..];
      ForwardedIsAllChunksIff(rest);
      assert |Chunks(rs)| == n + |Chunks(rest)|;
      assert (forall i | 0 <= i < |rs| :: rs[i].forwarded) <==>
             rs[0].forwarded && forall i | 0 <= i < |rest| :: rest[i].forwarded by {
        if rs[0].forwarded && forall i | 0 <= i < |rest| :: rest[i].forwarded {
          forall i | 0 <= i < |rs|
            ensures rs[i].forwarded
          {
            assert i > 0 ==> rest[i - 1].forwarded;
          }
        }
      }
      if rs[0].forwarded {
        assert Forwarded(rs)[n..] == Forwarded(rest) && Chunks(rs)[n..] == Chunks(rest);
      }
    }
  }

  /** The request went to the server and its response, as far as it was forwarded,
      fits the cache. */
  predicate Fetches(c: Settings, st: State, x: Exchange) {
    && c.caching && x.isGet && x.connected && x.requestSent
    && RecencyList.Get(st, x.url, x.lookedAt).1.None?
    && Storable(x.delivery.ToClient(), st.maxSize)
  }

  predicate Unexpired(c: Settings, x: Exchange, now: int) {
    c.ttl > 0 && x.storedAt + c.ttl > 0 ==> now <= x.storedAt + c.ttl
  }

  /** The next request for the address is served what the first one's client got. It
      is the server's response if and only if all of it came and was forwarded. */
  lemma NextRequestIsServed(c: Settings, st: State, x: Exchange, y: Exchange)
    requires UniqueKeys(st.list) && x.delivery.FromRecv()
    requires Fetches(c, st, x) && y.isGet && y.url == x.url && Unexpired(c, x, y.lookedAt)
    ensures Handle(c, Handle(c, st, x).0, y).1 == FromCache(x.delivery.ToClient())
    ensures Handle(c, Handle(c, st, x).0, y).1 == FromCache(x.delivery.Response()) <==>
            x.delivery.undelivered == [] &&
            forall i | 0 <= i < |x.delivery.received| :: x.delivery.received[i].forwarded
  {
    var d := x.delivery;
    StoredIsWholeIff(d);
    GetKeepsRecords(st, x.url, x.lookedAt);
    var looked := RecencyList.Get(st, x.url, x.lookedAt).0;
    PutIsFound(looked, x.url, d.ToClient(), c.ttl, x.storedAt, y.lookedAt);
  }

  /** And so are all that follow, until it expires. */
  lemma ManyRequestsAreServed(c: Settings, st: State, x: Exchange, ys: seq<Exchange>, n: nat)
    requires UniqueKeys(st.list) && Fetches(c, st, x) && n < |ys|
    requires forall i | 0 <= i < |ys| :: ys[i].isGet && ys[i].url == x.url && Unexpired(c, x, ys[i].lookedAt)
    ensures HandleAll(c, Handle(c, st, x).0, ys, n + 1).1[n] == FromCache(x.delivery.ToClient())
  {
    var r := Rec(x.url, x.delivery.ToClient(), Expiry(c.ttl, x.storedAt));
    var stored := Handle(c, st, x).0;
    FetchedIsStored(c, st, x, r);
    assert forall i | 0 <= i < |ys| :: AsksFor(ys[i], r);
    var before := StaysServed(c, stored, r, ys, n);
    var after := ServedAgain(c, before, r, ys[n]);
  }

  /** A GET for this record before it expires. */
  predicate AsksFor(y: Exchange, r: Rec) {
    y.isGet && y.url == r.key && !Expired(r, y.lookedAt)
  }

  lemma {:induction false} StaysServed(c: Settings, st: State, r: Rec, ys: seq<Exchange>, n: nat) returns (after: State)
    requires UniqueKeys(st.list) && r in st.list && c.caching && n <= |ys|
    requires forall i | 0 <= i < |ys| :: AsksFor(ys[i], r)
    ensures after == HandleAll(c, st, ys, n).0 && UniqueKeys(after.list) && r in after.list
  {
    after := st;
    if n > 0 {
      var k := n - 1;
      var before := StaysServed(c, st, r, ys, k);
      after := ServedAgain(c, before, r, ys[k]);
      HandleAllNext(c, st, ys, k);
    }
  }

  lemma HandleAllNext(c: Settings, st: State, ys: seq<Exchange>, k: nat)
    requires k < |ys|
    ensures HandleAll(c, st, ys, k + 1).0 == Handle(c, HandleAll(c, st, ys, k).0, ys[k]).0
  {
  }

  lemma FetchedIsStored(c: Settings, st: State, x: Exchange, r: Rec)
    requires UniqueKeys(st.list) && Fetches(c, st, x)
    requires r == Rec(x.url, x.delivery.ToClient(), Expiry(c.ttl, x.storedAt))
    ensures UniqueKeys(Handle(c, st, x).0.list) && r in Handle(c, st, x).0.list
  {
    GetKeepsRecords(st, x.url, x.lookedAt);
    PutKeepsOthers(RecencyList.Get(st, x.url, x.lookedAt).0, x.url, r.data, c.ttl, x.storedAt);
    var after := Handle(c, st, x).0;
    assert after.list[|after.list| - 1] == r;
  }

  lemma ServedAgain(c: Settings, st: State, r: Rec, y: Exchange) returns (after: State)
    requires UniqueKeys(st.list) && r in st.list && c.caching && AsksFor(y, r)
    ensures Handle(c, st, y) == (after, FromCache(r.data)) && r in after.list && UniqueKeys(after.list)
  {
    after := Handle(c, st, y).0;
    GetKeepsRecords(st, y.url, y.lookedAt);
    var i :| 0 <= i < |st.list| && st.list[i] == r;
    GetIsExactly(st, y.url, y.lookedAt);
    GetKeepsRecordIff(st, y.url, y.lookedAt, i);
  }

  lemma PutIsFound(st: State, key: string, data: Bytes, ttl: int, now: int, later: int)
    requires UniqueKeys(st.list) && Storable(data, st.maxSize)
    requires !Expired(Rec(key, data, Expiry(ttl, now)), later)
    ensures RecencyList.Get(Put(st, key, data, ttl, now).0, key, later).1 == Some(data)
  {
    PutKeepsOthers(st, key, data, ttl, now);
    var list := Put(st, key, data, ttl, now).0.list;
    assert list[|list| - 1] == Rec(key, data, Expiry(ttl, now));
    FindUnique(list, |list| - 1);
  }

  /** A response cut short is served again, whoever cut it: the client that went away
      while the second chunk was forwarded, or the server that failed before it
      came. */
  lemma TruncatedResponseIsServed(c: Settings, st: State, x: Exchange, y: Exchange, first: Bytes, rest: Bytes)
    requires UniqueKeys(st.list) && Fetches(c, st, x)
    requires 0 < |first| <= BUFFER_SIZE && 0 < |rest| <= BUFFER_SIZE
    requires || x.delivery == Delivery([Received(first, true), Received(rest, false)], Closed, [])
             || x.delivery == Delivery([Received(first, true)], RecvFailed, rest)
    requires y.isGet && y.url == x.url && Unexpired(c, x, y.lookedAt)
    ensures x.delivery.Response() == first + rest
    ensures Handle(c, Handle(c, st, x).0, y).1 == FromCache(first)
  {
    var d := x.delivery.received;
    assert d[0] == Received(first, true);
    if |d| == 2 {
      assert d[1..] == [Received(rest, false)] && d[1..][1..] == [];
      assert Chunks(d[1..]) == rest + [] == rest;
    } else {
      assert d[1..] == [];
    }
    assert Forwarded(d[1..]) == [] && Forwarded(d) == first + [] == first;
    assert Chunks(d) + x.delivery.undelivered == first + rest;
    NextRequestIsServed(c, st, x, y);
  }

  // ---------- Requests that interleave ----------

  datatype Turn = Look(request: nat) | Finish(request: nat)

  /** The cache, the requests that were answered, and those that wait for their
      server. */
  datatype System = System(cache: State, replies: map<nat, Reply>, pending: set<nat>)

  predicate Enabled(xs: seq<Exchange>, s: System, t: Turn) {
    && t.request < |xs|
    && if t.Look? then t.request !in s.replies && t.request !in s.pending else t.request in s.pending
  }

  function Next(c: Settings, xs: seq<Exchange>, s: System, t: Turn): System
    requires Enabled(xs, s, t)
  {
    var i, x := t.request, xs[t.request];
    if t.Look? then
      var (cache, reply) := LookUp(c, s.cache, x);
      if reply.Some? then s.(cache := cache, replies := s.replies[i := reply.value])
      else s.(cache := cache, pending := s.pending + {i})
    else
      var (cache, reply) := Conclude(c, s.cache, x);
      System(cache, s.replies[i := reply], s.pending - {i})
  }

  /** The system after the turns, or nothing when some turn was not enabled. */
  function After(c: Settings, maxSize: nat, xs: seq<Exchange>, ts: seq<Turn>): Option<System>
    decreases |ts|
  {
    if ts == [] then Some(System(Fresh(maxSize), map[], {})) else
    var s := After(c, maxSize, xs, ts[..|ts| - 1]);
    if s.Some? && Enabled(xs, s.value, ts[|ts| - 1]) then Some(Next(c, xs, s.value, ts[|ts| - 1])) else None
  }

  lemma AfterNext(c: Settings, maxSize: nat, xs: seq<Exchange>, ts: seq<Turn>, t: Turn)
    requires After(c, maxSize, xs, ts).Some? && Enabled(xs, After(c, maxSize, xs, ts).value, t)
    ensures After(c, maxSize, xs, ts + [t]) == Some(Next(c, xs, After(c, maxSize, xs, ts).value, t))
  {
    assert (ts + [t])[..|ts|] == ts;
  }

  /** Taking a request's turns without a break is handling it, wherever other
      requests are. */
  lemma OwnTurnsHandle(c: Settings, maxSize: nat, xs: seq<Exchange>, ts: seq<Turn>, i: nat) returns (own: seq<Turn>)
    requires After(c, maxSize, xs, ts).Some? && Enabled(xs, After(c, maxSize, xs, ts).value, Look(i))
    ensures own == [Look(i)] || own == [Look(i), Finish(i)]
    ensures var s := After(c, maxSize, xs, ts).value;
            var (cache, reply) := Handle(c, s.cache, xs[i]);
            After(c, maxSize, xs, ts + own) == Some(System(cache, s.replies[i := reply], s.pending))
  {
    var s := After(c, maxSize, xs, ts).value;
    AfterNext(c, maxSize, xs, ts, Look(i));
    own := [Look(i)];
    if LookUp(c, s.cache, xs[i]).1.None? {
      var looked := Next(c, xs, s, Look(i));
      assert looked.pending - {i} == s.pending;
      AfterNext(c, maxSize, xs, ts + own, Finish(i));
      own := [Look(i), Finish(i)];
      assert ts + [Look(i)] + [Finish(i)] == ts + own;
    }
  }

  /** The first `n` requests handled one after the other. */
  function HandleAll(c: Settings, st: State, xs: seq<Exchange>, n: nat): (State, map<nat, Reply>)
    requires n <= |xs|
  {
    if n == 0 then (st, map[]) else
    var (before, replies) := HandleAll(c, st, xs, n - 1);
    var (after, reply) := Handle(c, before, xs[n - 1]);
    (after, replies[n - 1 := reply])
  }

  /** They are the ones that were answered. */
  lemma {:induction false} HandledAreAnswered(c: Settings, st: State, xs: seq<Exchange>, n: nat)
    requires n <= |xs|
    ensures forall i: nat :: i in HandleAll(c, st, xs, n).1 <==> i < n
  {
    if n > 0 {
      HandledAreAnswered(c, st, xs, n - 1);
    }
  }

  /** Handling requests one after the other is one of the interleavings. */
  lemma {:induction false} OneByOne(c: Settings, maxSize: nat, xs: seq<Exchange>, n: nat) returns (ts: seq<Turn>)
    requires n <= |xs|
    ensures var (cache, replies) := HandleAll(c, Fresh(maxSize), xs, n);
            After(c, maxSize, xs, ts) == Some(System(cache, replies, {}))
  {
    if n == 0 {
      ts := [];
    } else {
      ts := OneByOne(c, maxSize, xs, n - 1);
      HandledAreAnswered(c, Fresh(maxSize), xs, n - 1);
      var own := OwnTurnsHandle(c, maxSize, xs, ts, n - 1);
      ts := ts + own;
    }
  }

  /** The cache operation of a turn. */
  function OpOf(c: Settings, xs: seq<Exchange>, t: Turn): seq<Op>
    requires t.request < |xs|
  {
    var x := xs[t.request];
    if t.Look? then (if c.caching && x.isGet then [OpGet(x.url, x.lookedAt)] else [])
    else if Stores(c, x) then [OpPut(x.url, x.delivery.ToClient(), c.ttl, x.storedAt)]
    else []
  }

  function Ops(c: Settings, xs: seq<Exchange>, ts: seq<Turn>): seq<Op>
    requires forall k | 0 <= k < |ts| :: ts[k].request < |xs|
    decreases |ts|
  {
    if ts == [] then [] else Ops(c, xs, ts[..|ts| - 1]) + OpOf(c, xs, ts[|ts| - 1])
  }

  /** The latest request of the address that finished with a response small enough
      to keep. */
  function LatestStore(c: Settings, maxSize: nat, xs: seq<Exchange>, ts: seq<Turn>, url: string): Option<nat>
    requires forall k | 0 <= k < |ts| :: ts[k].request < |xs|
    decreases |ts|
  {
    if ts == [] then None else
    var t := ts[|ts| - 1];
    var x := xs[t.request];
    if t.Finish? && Stores(c, x) && x.url == url && Storable(x.delivery.ToClient(), maxSize) then Some(t.request)
    else LatestStore(c, maxSize, xs, ts[..|ts| - 1], url)
  }

  /** A turn does its operation to the cache, if it has one. */
  lemma NextRunsOp(c: Settings, xs: seq<Exchange>, s: System, t: Turn)
    requires Enabled(xs, s, t)
    ensures var op := OpOf(c, xs, t);
            |op| <= 1 && Next(c, xs, s, t).cache == if op == [] then s.cache else Step(s.cache, op[0])
  {
  }

  lemma RunOneMore(st: State, ops: seq<Op>, op: seq<Op>)
    requires |op| <= 1
    ensures Run(st, ops + op) == if op == [] then Run(st, ops) else Step(Run(st, ops), op[0])
  {
    assert op == [] ==> ops + op == ops;
    assert op != [] ==> (ops + op)[..|ops|] == ops;
  }

  lemma RequestsExist(xs: seq<Exchange>, ts: seq<Turn>, pre: seq<Turn>, t: Turn)
    requires ts == pre + [t] && t.request < |xs| && forall k | 0 <= k < |pre| :: pre[k].request < |xs|
    ensures forall k | 0 <= k < |ts| :: ts[k].request < |xs|
  {
  }

  /** The cache after any interleaving is the run of its operations. */
  lemma {:induction false} CacheIsRunOfTurns(c: Settings, maxSize: nat, xs: seq<Exchange>, ts: seq<Turn>)
    requires After(c, maxSize, xs, ts).Some?
    ensures forall k | 0 <= k < |ts| :: ts[k].request < |xs|
    ensures After(c, maxSize, xs, ts).value.cache == Run(Fresh(maxSize), Ops(c, xs, ts))
    decreases |ts|
  {
    if ts != [] {
      var pre, t := ts[..|ts| - 1], ts[|ts| - 1];
      CacheIsRunOfTurns(c, maxSize, xs, pre);
      RequestsExist(xs, ts, pre, t);
      NextRunsOp(c, xs, After(c, maxSize, xs, pre).value, t);
      RunOneMore(Fresh(maxSize), Ops(c, xs, pre), OpOf(c, xs, t));
    }
  }

  lemma {:induction false} LatestStoreIsLatestPut(c: Settings, maxSize: nat, xs: seq<Exchange>, ts: seq<Turn>,
                                                  url: string)
    requires forall k | 0 <= k < |ts| :: ts[k].request < |xs|
    ensures LatestStore(c, maxSize, xs, ts, url).Some? ==>
              var i := LatestStore(c, maxSize, xs, ts, url).value;
              Finish(i) in ts && Stores(c, xs[i]) && xs[i].url == url
    ensures LatestPut(maxSize, Ops(c, xs, ts), url) ==
            match LatestStore(c, maxSize, xs, ts, url)
            case None => None
            case Some(i) =>
              if i < |xs| then Some(Rec(url, xs[i].delivery.ToClient(), Expiry(c.ttl, xs[i].storedAt))) else None
    decreases |ts|
  {
    if ts != [] {
      var pre, t := ts[..|ts| - 1], ts[|ts| - 1];
      LatestStoreIsLatestPut(c, maxSize, xs, pre, url);
      var ops, op := Ops(c, xs, pre), OpOf(c, xs, t);
      if op != [] {
        assert (ops + op)[..|ops|] == ops;
      } else {
        assert ops + op == ops;
      }
    }
  }

  /** An answer stays as it is, and who waits for a server has reached it. */
  lemma {:induction false} AnswersStay(c: Settings, maxSize: nat, xs: seq<Exchange>, ts: seq<Turn>, p: nat)
    requires After(c, maxSize, xs, ts).Some? && p <= |ts|
    ensures After(c, maxSize, xs, ts[..p]).Some?
    ensures var before, after := After(c, maxSize, xs, ts[..p]).value.replies, After(c, maxSize, xs, ts).value.replies;
            forall i | i in before :: i in after && after[i] == before[i]
    ensures var s := After(c, maxSize, xs, ts).value;
            forall i | i in s.pending :: i !in s.replies
    decreases |ts|
  {
    if p == |ts| {
      assert ts[..p] == ts;
    }
    if ts != [] {
      var pre := ts[..|ts| - 1];
      AnswersStay(c, maxSize, xs, pre, if p == |ts| then p - 1 else p);
      if p < |ts| {
        assert pre[..p] == ts[..p];
      }
    }
  }

  /** Who finished was relayed the forwarded bytes. */
  lemma FinishedIsRelayed(c: Settings, maxSize: nat, xs: seq<Exchange>, ts: seq<Turn>, i: nat)
    requires After(c, maxSize, xs, ts).Some? && Finish(i) in ts
    ensures i < |xs| && i in After(c, maxSize, xs, ts).value.replies
    ensures After(c, maxSize, xs, ts).value.replies[i] == Relayed(xs[i].delivery.ToClient())
  {
    var q :| 0 <= q < |ts| && ts[q] == Finish(i);
    AnswersStay(c, maxSize, xs, ts, q + 1);
    assert ts[..q + 1][..q] == ts[..q];
  }

  /** Who waits for a server gets what it sends, if anything. */
  lemma {:induction false} WaitingIsRelayed(c: Settings, maxSize: nat, xs: seq<Exchange>, ts: seq<Turn>, p: nat, j: nat)
    requires j < |xs|
    requires After(c, maxSize, xs, ts).Some? && p <= |ts|
    requires After(c, maxSize, xs, ts[..p]).Some? && j in After(c, maxSize, xs, ts[..p]).value.pending
    ensures var s := After(c, maxSize, xs, ts).value;
            j in s.pending || (j in s.replies && s.replies[j] == Relayed(xs[j].delivery.ToClient()))
    decreases |ts|
  {
    if p == |ts| {
      assert ts[..p] == ts;
    } else {
      var pre := ts[..|ts| - 1];
      assert pre[..p] == ts[..p];
      WaitingIsRelayed(c, maxSize, xs, pre, p, j);
    }
  }

  /** Under every interleaving: a request that does not hit at its turn is answered by
      what happens on the network, and one that reached its server waits for it or has
      been relayed what could be forwarded. */
  lemma RepliesInTurns(c: Settings, maxSize: nat, xs: seq<Exchange>, ts: seq<Turn>, p: nat)
    requires After(c, maxSize, xs, ts).Some? && p < |ts| && ts[p].Look?
    ensures After(c, maxSize, xs, ts[..p]).Some? && ts[p].request < |xs|
    ensures var st, s := After(c, maxSize, xs, ts[..p]).value.cache, After(c, maxSize, xs, ts).value;
            var i, x := ts[p].request, xs[ts[p].request];
            if Hits(c, st, x) then
              i in s.replies && s.replies[i] == FromCache(RecencyList.Get(st, x.url, x.lookedAt).1.value)
            else if !x.connected then i in s.replies && s.replies[i] == BadGateway
            else if !x.requestSent then i in s.replies && s.replies[i] == NotSent
            else i in s.pending || (i in s.replies && s.replies[i] == Relayed(x.delivery.ToClient()))
  {
    AnswersStay(c, maxSize, xs, ts, p);
    AnswersStay(c, maxSize, xs, ts, p + 1);
    assert ts[..p + 1][..p] == ts[..p];
    var i := ts[p].request;
    if i in After(c, maxSize, xs, ts[..p + 1]).value.pending {
      WaitingIsRelayed(c, maxSize, xs, ts, p + 1, i);
    }
  }

  /** A reply from the cache was a hit at the request's lookup. */
  lemma CachedReplyWasHit(c: Settings, maxSize: nat, xs: seq<Exchange>, ts: seq<Turn>, p: nat)
    requires After(c, maxSize, xs, ts).Some? && p < |ts| && ts[p].Look? && ts[p].request < |xs|
    requires var replies, j := After(c, maxSize, xs, ts).value.replies, ts[p].request;
             j in replies && replies[j].FromCache?
    ensures After(c, maxSize, xs, ts[..p]).Some?
    ensures var j := ts[p].request;
            var x := xs[j];
            var hit := RecencyList.Get(After(c, maxSize, xs, ts[..p]).value.cache, x.url, x.lookedAt).1;
            hit.Some? && After(c, maxSize, xs, ts).value.replies[j] == FromCache(hit.value)
  {
    var j := ts[p].request;
    AnswersStay(c, maxSize, xs, ts, p);
    AnswersStay(c, maxSize, xs, ts, p + 1);
    AnswersStay(c, maxSize, xs, ts, |ts|);
    assert ts[..p + 1][..p] == ts[..p];
    if j in After(c, maxSize, xs, ts[..p + 1]).value.pending {
      WaitingIsRelayed(c, maxSize, xs, ts, p + 1, j);
      assert false;
    }
  }

  /** End to end, under every interleaving of any requests: one that is served from
      the cache gets exactly the bytes that the latest storable GET of its address
      had been relayed before, and they had not expired. */
  lemma HitServesWhatWasForwarded(c: Settings, maxSize: nat, xs: seq<Exchange>, ts: seq<Turn>, p: nat) returns (i: nat)
    requires After(c, maxSize, xs, ts).Some? && p < |ts| && ts[p].Look?
    requires var replies, j := After(c, maxSize, xs, ts).value.replies, ts[p].request;
             j in replies && replies[j].FromCache?
    ensures forall k | 0 <= k < |ts| :: ts[k].request < |xs|
    ensures var j := ts[p].request;
            LatestStore(c, maxSize, xs, ts[..p], xs[j].url) == Some(i) && Finish(i) in ts[..p]
    ensures i < |xs| && xs[i].isGet && xs[i].url == xs[ts[p].request].url
    ensures var replies, j := After(c, maxSize, xs, ts).value.replies, ts[p].request;
            && i in replies && replies[i] == Relayed(xs[i].delivery.ToClient())
            && replies[j] == FromCache(xs[i].delivery.ToClient())
    ensures Unexpired(c, xs[i], xs[ts[p].request].lookedAt)
  {
    CacheIsRunOfTurns(c, maxSize, xs, ts);
    var j, pre := ts[p].request, ts[..p];
    CachedReplyWasHit(c, maxSize, xs, ts, p);
    CacheIsRunOfTurns(c, maxSize, xs, pre);
    HitReturnsLatestPut(maxSize, Ops(c, xs, pre), xs[j].url, xs[j].lookedAt);
    LatestStoreIsLatestPut(c, maxSize, xs, pre, xs[j].url);
    i := LatestStore(c, maxSize, xs, pre, xs[j].url).value;
    FinishedIsRelayed(c, maxSize, xs, ts, i);
  }

  /** So what a hit serves is the response of that earlier request's server if and only
      if all of it came and was forwarded. */
  lemma HitIsWholeIff(c: Settings, maxSize: nat, xs: seq<Exchange>, ts: seq<Turn>, p: nat) returns (i: nat)
    requires After(c, maxSize, xs, ts).Some? && p < |ts| && ts[p].Look?
    requires var replies, j := After(c, maxSize, xs, ts).value.replies, ts[p].request;
             j in replies && replies[j].FromCache?
    requires forall x | x in xs :: x.delivery.FromRecv()
    ensures i < |xs| && ts[p].request < |xs| && Finish(i) in ts[..p] && xs[i].url == xs[ts[p].request].url
    ensures var reply, d := After(c, maxSize, xs, ts).value.replies[ts[p].request], xs[i].delivery;
            reply == FromCache(d.Response()) <==>
            d.undelivered == [] && forall k | 0 <= k < |d.received| :: d.received[k].forwarded
  {
    i := HitServesWhatWasForwarded(c, maxSize, xs, ts, p);
    assert xs[i] in xs;
    StoredIsWholeIff(xs[i].delivery);
  }
}
