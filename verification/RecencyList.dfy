/** The cache as its users see it: an association list in recency order, least
    recently used first. */
module RecencyList {
  import opened Options
  import opened Sequences

  type Bytes = seq<bv8>

  datatype Rec = Rec(key: string, data: Bytes, expiry: int)

  datatype State = State(list: seq<Rec>, maxSize: nat, hits: nat, misses: nat)

  function Total(list: seq<Rec>): nat {
    if list == [] then 0 else |list[0].data| + Total(list[1..])
  }

  /** The position of the entry of `key`, or the length of the list. */
  function Find(list: seq<Rec>, key: string): (i: nat)
    ensures i <= |list|
    ensures i < |list| ==> list[i].key == key
    ensures forall j | 0 <= j < i :: list[j].key != key
  {
    Position(list, (r: Rec) => r.key, key)
  }

  predicate Present(list: seq<Rec>, key: string) {
    Find(list, key) < |list|
  }

  function Without(list: seq<Rec>, i: nat): seq<Rec>
    requires i < |list|
  {
    list[..i] + list[i + 1..]
  }

  predicate Expired(r: Rec, now: int) {
    r.expiry > 0 && now > r.expiry
  }

  function Expiry(ttl: int, now: int): int {
    if ttl > 0 then now + ttl else 0
  }

  /** A lookup at clock `now`: a live entry moves to the recent end, an expired
      one is dropped. */
  function Touch(list: seq<Rec>, key: string, now: int): (seq<Rec>, Option<Bytes>) {
    var i := Find(list, key);
    if i == |list| then (list, None)
    else if Expired(list[i], now) then (Without(list, i), None)
    else (Without(list, i) + [list[i]], Some(list[i].data))
  }

  function Get(st: State, key: string, now: int): (State, Option<Bytes>) {
    var (list, data) := Touch(st.list, key, now);
    (Counted(st.(list := list), data.Some?), data)
  }

  function Counted(st: State, hit: bool): State {
    if hit then st.(hits := st.hits + 1) else st.(misses := st.misses + 1)
  }

  /** Drops least recently used entries until `need` more bytes fit. */
  function Evict(list: seq<Rec>, need: nat, maxSize: nat): seq<Rec> {
    if list == [] || Total(list) + need <= maxSize then list else Evict(list[1..], need, maxSize)
  }

  predicate Storable(data: Bytes, maxSize: nat) {
    data != [] && |data| <= maxSize / 2
  }

  /** A store at clock `now`. Overwriting an entry never evicts. */
  function Put(st: State, key: string, data: Bytes, ttl: int, now: int): (State, bool) {
    var i := Find(st.list, key);
    var r := Rec(key, data, Expiry(ttl, now));
    if !Storable(data, st.maxSize) then
      (st, false)
    else if i < |st.list| then
      (st.(list := Without(st.list, i) + [r]), true)
    else
      (st.(list := Evict(st.list, |data|, st.maxSize) + [r]), true)
  }

  predicate UniqueKeys(list: seq<Rec>) {
    UniqueBy(list, (r: Rec) => r.key)
  }

  // ---------- Sums and positions ----------

  lemma {:induction false} TotalConcat(a: seq<Rec>, b: seq<Rec>)
    ensures Total(a + b) == Total(a) + Total(b)
  {
    if a == [] {
      assert a + b == b;
    } else {
      assert (a + b)[1..] == a[1..] + b;
      TotalConcat(a[1..], b);
    }
  }

  lemma TotalWithout(list: seq<Rec>, i: nat)
    requires i < |list|
    ensures Total(Without(list, i)) == Total(list) - |list[i].data|
  {
    assert list == list[..i] + ([list[i]] + list[i + 1..]);
    TotalConcat(list[..i], [list[i]] + list[i + 1..]);
    TotalConcat([list[i]], list[i + 1..]);
    TotalConcat(list[..i], list[i + 1..]);
  }

  lemma TotalUpdate(list: seq<Rec>, i: nat, r: Rec)
    requires i < |list|
    ensures Total(list[i := r]) == Total(list) - |list[i].data| + |r.data|
  {
    assert list == list[..i] + ([list[i]] + list[i + 1..]);
    assert list[i := r] == list[..i] + ([r] + list[i + 1..]);
    TotalConcat(list[..i], [list[i]] + list[i + 1..]);
    TotalConcat(list[..i], [r] + list[i + 1..]);
  }

  lemma FindUnique(list: seq<Rec>, i: nat)
    requires UniqueKeys(list) && i < |list|
    ensures Find(list, list[i].key) == i
  {
  }

  // ---------- Eviction ----------

  /** Eviction removes the shortest prefix that makes room, and nothing else. */
  lemma {:induction false} EvictRemovesShortestPrefix(list: seq<Rec>, need: nat, maxSize: nat) returns (n: nat)
    requires need <= maxSize
    ensures n <= |list| && Evict(list, need, maxSize) == list[n..]
    ensures Total(list[n..]) + need <= maxSize
    ensures forall k | 0 <= k < n :: Total(list[k..]) + need > maxSize
  {
    if list == [] || Total(list) + need <= maxSize {
      n := 0;
      assert list[0..] == list;
    } else {
      var m := EvictRemovesShortestPrefix(list[1..], need, maxSize);
      n := m + 1;
      assert list[1..][m..] == list[n..];
      forall k | 0 <= k < n
        ensures Total(list[k..]) + need > maxSize
      {
        if k == 0 {
          assert list[0..] == list;
        } else {
          assert list[1..][k - 1..] == list[k..];
        }
      }
    }
  }

  // ---------- Runs ----------

  datatype Op =
    | OpGet(key: string, now: int)
    | OpPut(key: string, data: Bytes, ttl: int, now: int)

  function Step(st: State, op: Op): State {
    match op
    case OpGet(key, now) => Get(st, key, now).0
    case OpPut(key, data, ttl, now) => Put(st, key, data, ttl, now).0
  }

  /** The state after the operations, applied left to right. */
  function Run(st: State, ops: seq<Op>): State
    decreases |ops|
  {
    if ops == [] then st else Step(Run(st, ops[..|ops| - 1]), ops[|ops| - 1])
  }

  lemma RunNext(st: State, ops: seq<Op>, i: nat)
    requires i < |ops|
    ensures Run(st, ops[..i + 1]) == Step(Run(st, ops[..i]), ops[i])
  {
    assert ops[..i + 1][..i] == ops[..i];
  }

  const EMPTY: State := State([], 0, 0, 0)

  function Fresh(maxSize: nat): State {
    EMPTY.(maxSize := maxSize)
  }

  lemma PutKeepsOthers(st: State, key: string, data: Bytes, ttl: int, now: int)
    requires UniqueKeys(st.list)
    ensures UniqueKeys(Put(st, key, data, ttl, now).0.list)
    ensures forall r | r in Put(st, key, data, ttl, now).0.list ::
              r.key != key ==> r in st.list
    ensures Put(st, key, data, ttl, now).1 ==>
              forall r | r in Put(st, key, data, ttl, now).0.list ::
                r.key == key ==> r == Rec(key, data, Expiry(ttl, now))
  {
    if Storable(data, st.maxSize) && !Present(st.list, key) {
      var n := EvictRemovesShortestPrefix(st.list, |data|, st.maxSize);
    }
  }

  lemma GetKeepsRecords(st: State, key: string, now: int)
    requires UniqueKeys(st.list)
    ensures UniqueKeys(Get(st, key, now).0.list)
    ensures forall r | r in Get(st, key, now).0.list :: r in st.list
  {
  }

  lemma {:induction false} RunKeepsKeysUnique(st: State, ops: seq<Op>)
    requires UniqueKeys(st.list)
    ensures UniqueKeys(Run(st, ops).list) && Run(st, ops).maxSize == st.maxSize
    decreases |ops|
  {
    if ops != [] {
      var pre := ops[..|ops| - 1];
      RunKeepsKeysUnique(st, pre);
      match ops[|ops| - 1]
      case OpGet(key, now) => GetKeepsRecords(Run(st, pre), key, now);
      case OpPut(key, data, ttl, now) => PutKeepsOthers(Run(st, pre), key, data, ttl, now);
    }
  }

  // ---------- What one operation does, exactly ----------

  /** `after` is `before` without the record at `i`, the others in order, and then
      `last`. */
  predicate Replaces(before: seq<Rec>, i: nat, after: seq<Rec>, last: seq<Rec>)
    requires i < |before|
  {
    after == before[..i] + before[i + 1..] + last
  }

  /** A lookup of an absent key changes nothing but a counter. A record that has
      expired is dropped and missed. Any other is returned, and moves behind all
      others, which stay as they are. */
  lemma GetIsExactly(st: State, key: string, now: int)
    ensures var (t, data) := Get(st, key, now);
            && t.maxSize == st.maxSize
            && t.hits == st.hits + (if data.Some? then 1 else 0)
            && t.misses == st.misses + (if data.None? then 1 else 0)
            && ((forall r | r in st.list :: r.key != key) ==> data.None? && t.list == st.list)
    ensures var (t, data) := Get(st, key, now);
            forall i | 0 <= i < |st.list| && st.list[i].key == key && UniqueKeys(st.list) ::
              var r := st.list[i];
              if r.expiry > 0 && now > r.expiry then data.None? && Replaces(st.list, i, t.list, [])
              else data == Some(r.data) && Replaces(st.list, i, t.list, [r])
  {
    var k := Find(st.list, key);
    assert k < |st.list| ==> st.list[k] in st.list;
    forall i | 0 <= i < |st.list| && st.list[i].key == key && UniqueKeys(st.list)
      ensures i == k
    {
      FindUnique(st.list, i);
    }
  }

  /** A store is refused when it is empty or larger than half the cache, and then
      nothing changes. A present key keeps all other records in order and goes last.
      An absent one goes last too, behind all records but the shortest prefix whose
      removal makes room. */
  lemma PutIsExactly(st: State, key: string, data: Bytes, ttl: int, now: int) returns (n: nat)
    ensures var (t, ok) := Put(st, key, data, ttl, now);
            && t.maxSize == st.maxSize && t.hits == st.hits && t.misses == st.misses
            && (ok <==> 0 < |data| <= st.maxSize / 2)
            && (!ok ==> t == st)
    ensures var (t, ok) := Put(st, key, data, ttl, now);
            forall i | 0 <= i < |st.list| && st.list[i].key == key && UniqueKeys(st.list) && ok ::
              Replaces(st.list, i, t.list, [Rec(key, data, if ttl > 0 then now + ttl else 0)])
    ensures var (t, ok) := Put(st, key, data, ttl, now);
            ok && (forall r | r in st.list :: r.key != key) ==>
              && n <= |st.list|
              && t.list == st.list[n..] + [Rec(key, data, if ttl > 0 then now + ttl else 0)]
              && Total(st.list[n..]) + |data| <= st.maxSize
              && forall k | 0 <= k < n :: Total(st.list[k..]) + |data| > st.maxSize
  {
    var f := Find(st.list, key);
    assert f < |st.list| ==> st.list[f] in st.list;
    n := 0;
    if Storable(data, st.maxSize) {
      n := EvictRemovesShortestPrefix(st.list, |data|, st.maxSize);
    }
    forall i | 0 <= i < |st.list| && st.list[i].key == key && UniqueKeys(st.list)
      ensures i == f
    {
      FindUnique(st.list, i);
    }
  }

  // ---------- What a record survives ----------

  /** A put of another, absent key takes the record at `i` with it exactly when that
      record and all more recent ones leave no room for it. */
  predicate Evicts(st: State, op: Op, i: nat)
    requires i < |st.list|
  {
    && op.OpPut? && 0 < |op.data| <= st.maxSize / 2
    && (forall r | r in st.list :: r.key != op.key)
    && Total(st.list[i..]) + |op.data| > st.maxSize
  }

  /** An accepted put of its key that leaves another record there. */
  predicate Overwrites(st: State, op: Op, r: Rec) {
    && op.OpPut? && op.key == r.key && 0 < |op.data| <= st.maxSize / 2
    && r != Rec(op.key, op.data, if op.ttl > 0 then op.now + op.ttl else 0)
  }

  /** A lookup of its key after it has expired. */
  predicate Outlives(op: Op, r: Rec) {
    op.OpGet? && op.key == r.key && r.expiry > 0 && op.now > r.expiry
  }

  lemma {:induction false} TotalShrinks(list: seq<Rec>, i: nat, j: nat)
    requires i <= j <= |list|
    ensures Total(list[j..]) <= Total(list[i..])
    decreases j - i
  {
    if i < j {
      TotalShrinks(list, i + 1, j);
      assert list[i..][1..] == list[i + 1..];
    }
  }

  /** A record leaves the cache with an operation if and only if that evicts it,
      overwrites it, or finds it expired. */
  lemma RecordStaysIff(st: State, op: Op, i: nat)
    requires UniqueKeys(st.list) && i < |st.list|
    ensures st.list[i] in Step(st, op).list <==>
            !Evicts(st, op, i) && !Overwrites(st, op, st.list[i]) && !Outlives(op, st.list[i])
  {
    match op
    case OpGet(key, now) => GetKeepsRecordIff(st, key, now, i);
    case OpPut(key, data, ttl, now) => PutKeepsRecordIff(st, key, data, ttl, now, i);
  }

  lemma GetKeepsRecordIff(st: State, key: string, now: int, i: nat)
    requires UniqueKeys(st.list) && i < |st.list|
    ensures st.list[i] in Get(st, key, now).0.list <==> !Outlives(OpGet(key, now), st.list[i])
  {
    GetIsExactly(st, key, now);
    var k := Find(st.list, key);
    if k < |st.list| {
      OthersStay(st.list, k, i, if Expired(st.list[k], now) then [] else [st.list[k]]);
    }
  }

  lemma PutKeepsRecordIff(st: State, key: string, data: Bytes, ttl: int, now: int, i: nat)
    requires UniqueKeys(st.list) && i < |st.list|
    ensures var op := OpPut(key, data, ttl, now);
            st.list[i] in Put(st, key, data, ttl, now).0.list <==> !Evicts(st, op, i) && !Overwrites(st, op, st.list[i])
  {
    var n := PutIsExactly(st, key, data, ttl, now);
    var k, last := Find(st.list, key), Rec(key, data, Expiry(ttl, now));
    if Storable(data, st.maxSize) {
      if k < |st.list| {
        assert st.list[k] in st.list;
        OthersStay(st.list, k, i, [last]);
      } else {
        assert st.list[i].key != key;
        SuffixHolds(st.list, n, i, last);
        TotalShrinks(st.list, if i < n then i else n, if i < n then n else i);
      }
    }
  }

  /** What is taken out at `k` and put behind the rest decides only about itself. */
  lemma OthersStay(list: seq<Rec>, k: nat, i: nat, last: seq<Rec>)
    requires UniqueKeys(list) && k < |list| && i < |list|
    ensures list[i] in Without(list, k) + last <==> i != k || list[i] in last
  {
    var rest := Without(list, k);
    if i < k {
      assert rest[i] == list[i];
    } else if i > k {
      assert rest[i - 1] == list[i];
    } else {
      assert forall j | 0 <= j < |rest| :: rest[j] == list[if j < k then j else j + 1];
    }
  }

  lemma SuffixHolds(list: seq<Rec>, n: nat, i: nat, last: Rec)
    requires UniqueKeys(list) && n <= |list| && i < |list| && list[i].key != last.key
    ensures list[i] in list[n..] + [last] <==> i >= n
  {
    if i >= n {
      assert list[n..][i - n] == list[i];
    } else {
      assert forall j | 0 <= j < |list[n..]| :: list[n..][j] == list[n + j] && list[n + j].key != list[i].key;
    }
  }

  /** No operation of the run evicts, overwrites or outlives the record. */
  predicate Undisturbed(st: State, ops: seq<Op>, r: Rec)
    decreases |ops|
  {
    ops == [] ||
    (var pre, op := ops[..|ops| - 1], ops[|ops| - 1];
     var list := Run(st, pre).list;
     && Undisturbed(st, pre, r)
     && !Overwrites(Run(st, pre), op, r) && !Outlives(op, r)
     && forall i | 0 <= i < |list| && list[i] == r :: !Evicts(Run(st, pre), op, i))
  }

  /** A record that nothing disturbs is found at the end of the run, however many
      lookups came between. */
  lemma {:induction false} UndisturbedIsFound(st: State, ops: seq<Op>, r: Rec, now: int)
    requires UniqueKeys(st.list) && r in st.list && Undisturbed(st, ops, r)
    ensures r in Run(st, ops).list
    ensures !(r.expiry > 0 && now > r.expiry) ==> Get(Run(st, ops), r.key, now).1 == Some(r.data)
    decreases |ops|
  {
    RunKeepsKeysUnique(st, ops);
    if ops != [] {
      var pre, op := ops[..|ops| - 1], ops[|ops| - 1];
      UndisturbedIsFound(st, pre, r, now);
      RunKeepsKeysUnique(st, pre);
      var i :| 0 <= i < |Run(st, pre).list| && Run(st, pre).list[i] == r;
      RecordStaysIff(Run(st, pre), op, i);
    }
    var k :| 0 <= k < |Run(st, ops).list| && Run(st, ops).list[k] == r;
    GetIsExactly(Run(st, ops), r.key, now);
  }

  /** Lookups alone disturb no record before it expires. */
  lemma {:induction false} LookupsAloneKeepEverything(st: State, ops: seq<Op>, r: Rec)
    requires UniqueKeys(st.list) && r in st.list
    requires forall op | op in ops :: op.OpGet? && (r.expiry <= 0 || op.now <= r.expiry)
    ensures Undisturbed(st, ops, r)
  {
    if ops != [] {
      LookupsAloneKeepEverything(st, ops[..|ops| - 1], r);
      assert ops[|ops| - 1] in ops;
    }
  }

  // ---------- The size bound ----------

  /** Storing a key that is not present ends within the limit, whatever the
      state before. */
  lemma NewKeyFits(st: State, key: string, data: Bytes, ttl: int, now: int)
    requires Storable(data, st.maxSize) && !Present(st.list, key)
    ensures Total(Put(st, key, data, ttl, now).0.list) <= st.maxSize
  {
    var n := EvictRemovesShortestPrefix(st.list, |data|, st.maxSize);
    TotalConcat(st.list[n..], [Rec(key, data, Expiry(ttl, now))]);
  }

  /** Overwriting changes the total by the difference in size, so it ends within
      the limit exactly when that sum does. */
  lemma OverwriteShiftsTotal(st: State, key: string, data: Bytes, ttl: int, now: int)
    requires Storable(data, st.maxSize) && Present(st.list, key)
    ensures Total(Put(st, key, data, ttl, now).0.list) ==
            Total(st.list) - |st.list[Find(st.list, key)].data| + |data|
  {
    var i := Find(st.list, key);
    TotalWithout(st.list, i);
    TotalConcat(Without(st.list, i), [Rec(key, data, Expiry(ttl, now))]);
  }

  /** The guard a caller can evaluate before a put. */
  predicate StaysWithinLimit(st: State, key: string, data: Bytes) {
    if !Storable(data, st.maxSize) then Total(st.list) <= st.maxSize
    else
      Present(st.list, key) ==> Total(st.list) - |st.list[Find(st.list, key)].data| + |data| <= st.maxSize
  }

  /** From any state, also one above the limit, a put ends within the limit if
      and only if the guard holds. */
  lemma PutWithinLimitIff(st: State, key: string, data: Bytes, ttl: int, now: int)
    ensures Total(Put(st, key, data, ttl, now).0.list) <= st.maxSize <==> StaysWithinLimit(st, key, data)
  {
    if Storable(data, st.maxSize) {
      if Present(st.list, key) {
        OverwriteShiftsTotal(st, key, data, ttl, now);
      } else {
        NewKeyFits(st, key, data, ttl, now);
      }
    }
  }

  lemma GetNeverGrows(st: State, key: string, now: int)
    ensures Total(Get(st, key, now).0.list) <= Total(st.list)
  {
    var i := Find(st.list, key);
    if i < |st.list| {
      TotalWithout(st.list, i);
      TotalConcat(Without(st.list, i), [st.list[i]]);
    }
  }

  /** Every overwrite of the run stores no more bytes than the entry had. */
  predicate NeverEnlarges(st: State, ops: seq<Op>)
    decreases |ops|
  {
    ops == [] ||
    (var pre, op := ops[..|ops| - 1], ops[|ops| - 1];
     var list := Run(st, pre).list;
     && NeverEnlarges(st, pre)
     && (op.OpPut? && Present(list, op.key) ==> |op.data| <= |list[Find(list, op.key)].data|))
  }

  /** Runs that never enlarge an entry stay within the limit. */
  lemma {:induction false} NonEnlargingRunStaysWithinLimit(maxSize: nat, ops: seq<Op>)
    requires NeverEnlarges(Fresh(maxSize), ops)
    ensures Total(Run(Fresh(maxSize), ops).list) <= maxSize
    decreases |ops|
  {
    if ops != [] {
      var pre, op := ops[..|ops| - 1], ops[|ops| - 1];
      NonEnlargingRunStaysWithinLimit(maxSize, pre);
      var st := Run(Fresh(maxSize), pre);
      RunKeepsKeysUnique(Fresh(maxSize), pre);
      match op
      case OpGet(key, now) => GetNeverGrows(st, key, now);
      case OpPut(key, data, ttl, now) => PutWithinLimitIff(st, key, data, ttl, now);
    }
  }

  /** A run that goes on with a new key that fits appends it. */
  lemma RunAppends(maxSize: nat, ops: seq<Op>, i: nat, list: seq<Rec>, key: string, data: Bytes)
    requires i < |ops| && ops[i] == OpPut(key, data, 0, 0)
    requires Run(Fresh(maxSize), ops[..i]) == Fresh(maxSize).(list := list)
    requires Storable(data, maxSize) && Total(list) + |data| <= maxSize
    requires forall j | 0 <= j < |list| :: list[j].key != key
    ensures Run(Fresh(maxSize), ops[..i + 1]) == Fresh(maxSize).(list := list + [Rec(key, data, 0)])
    ensures Total(list + [Rec(key, data, 0)]) == Total(list) + |data|
  {
    RunNext(Fresh(maxSize), ops, i);
    assert Find(list, key) == |list|;
    TotalConcat(list, [Rec(key, data, 0)]);
  }

  /** One that goes on with the oldest key shifts the total. */
  lemma RunOverwritesFirst(maxSize: nat, ops: seq<Op>, i: nat, list: seq<Rec>, key: string, data: Bytes)
    requires i < |ops| && ops[i] == OpPut(key, data, 0, 0)
    requires Run(Fresh(maxSize), ops[..i]) == Fresh(maxSize).(list := list)
    requires Storable(data, maxSize) && list != [] && list[0].key == key
    ensures Total(Run(Fresh(maxSize), ops[..i + 1]).list) == Total(list) - |list[0].data| + |data|
  {
    RunNext(Fresh(maxSize), ops, i);
    OverwriteShiftsTotal(Fresh(maxSize).(list := list), key, data, 0, 0);
  }

  function Zeros(n: nat): (data: Bytes)
    ensures |data| == n
  {
    seq(n, _ => 0)
  }

  /** Stores of a quarter, a half and a quarter of the limit under three keys, and a
      store of half the limit over the first. */
  function Enlarging(k: nat, x: string, y: string, z: string): seq<Op> {
    [OpPut(x, Zeros(k), 0, 0), OpPut(y, Zeros(2 * k), 0, 0), OpPut(z, Zeros(k), 0, 0), OpPut(x, Zeros(2 * k), 0, 0)]
  }

  lemma FillingRun(k: nat, ops: seq<Op>, a: Rec, b: Rec, c: Rec)
    requires k > 0 && |ops| >= 3 && a.key != b.key && a.key != c.key && b.key != c.key
    requires |a.data| == |c.data| == k && |b.data| == 2 * k && a.expiry == b.expiry == c.expiry == 0
    requires ops[0] == OpPut(a.key, a.data, 0, 0) && ops[1] == OpPut(b.key, b.data, 0, 0)
    requires ops[2] == OpPut(c.key, c.data, 0, 0)
    ensures Run(Fresh(4 * k), ops[..3]) == Fresh(4 * k).(list := [a, b, c])
    ensures Total([a, b, c]) == 4 * k
  {
    RunAppends(4 * k, ops, 0, [], a.key, a.data);
    RunAppends(4 * k, ops, 1, [a], b.key, b.data);
    RunAppends(4 * k, ops, 2, [a, b], c.key, c.data);
  }

  /** The bound is not kept in general: in every cache whose limit is a multiple of
      four, and so in every configured one, this run ends a quarter above it. */
  lemma OverwriteCanExceedLimit(k: nat, x: string, y: string, z: string)
    requires k > 0 && x != y && x != z && y != z
    ensures Total(Run(Fresh(4 * k), Enlarging(k, x, y, z)[..3]).list) == 4 * k
    ensures Total(Run(Fresh(4 * k), Enlarging(k, x, y, z)).list) == 5 * k
  {
    var ops := Enlarging(k, x, y, z);
    var a, b, c := Rec(x, Zeros(k), 0), Rec(y, Zeros(2 * k), 0), Rec(z, Zeros(k), 0);
    FillingRun(k, ops, a, b, c);
    RunOverwritesFirst(4 * k, ops, 3, [a, b, c], x, Zeros(2 * k));
    assert ops[..4] == ops;
  }

  /** So it is with any configured number of megabytes above zero. */
  lemma ConfiguredCacheCanExceedLimit(sizeMb: nat, x: string, y: string, z: string) returns (ops: seq<Op>)
    requires sizeMb > 0 && x != y && x != z && y != z
    ensures |ops| == 4 && Total(Run(Fresh(sizeMb * 1024 * 1024), ops).list) == sizeMb * 1280 * 1024
  {
    ops := Enlarging(sizeMb * 256 * 1024, x, y, z);
    OverwriteCanExceedLimit(sizeMb * 256 * 1024, x, y, z);
  }

  // ---------- What a hit returns ----------

  /** The record left by the latest store of `key` that the cache accepted.
      Acceptance depends on the size alone. */
  function LatestPut(maxSize: nat, ops: seq<Op>, key: string): Option<Rec>
    decreases |ops|
  {
    if ops == [] then None else
    var op := ops[|ops| - 1];
    if op.OpPut? && op.key == key && Storable(op.data, maxSize) then
      Some(Rec(key, op.data, Expiry(op.ttl, op.now)))
    else
      LatestPut(maxSize, ops[..|ops| - 1], key)
  }

  /** Every record in the cache is the latest one stored under its key. */
  lemma {:induction false} RecordsAreLatest(maxSize: nat, ops: seq<Op>)
    ensures forall r | r in Run(Fresh(maxSize), ops).list :: LatestPut(maxSize, ops, r.key) == Some(r)
    decreases |ops|
  {
    if ops != [] {
      var pre, op := ops[..|ops| - 1], ops[|ops| - 1];
      RecordsAreLatest(maxSize, pre);
      RunKeepsKeysUnique(Fresh(maxSize), pre);
      var st := Run(Fresh(maxSize), pre);
      match op
      case OpGet(key, now) => GetKeepsRecords(st, key, now);
      case OpPut(key, data, ttl, now) =>
        PutKeepsOthers(st, key, data, ttl, now);
        forall r | r in Run(Fresh(maxSize), ops).list
          ensures LatestPut(maxSize, ops, r.key) == Some(r)
        {
          if !Storable(data, maxSize) {
            assert r in st.list;
          }
        }
    }
  }

  /** A hit returns the bytes of the latest accepted store of the key, and they
      had not expired at the lookup. */
  lemma HitReturnsLatestPut(maxSize: nat, ops: seq<Op>, key: string, now: int)
    requires Get(Run(Fresh(maxSize), ops), key, now).1.Some?
    ensures var latest := LatestPut(maxSize, ops, key);
            && latest.Some?
            && Get(Run(Fresh(maxSize), ops), key, now).1 == Some(latest.value.data)
            && !Expired(latest.value, now)
  {
    var list := Run(Fresh(maxSize), ops).list;
    RecordsAreLatest(maxSize, ops);
    assert list[Find(list, key)] in list;
  }

  // ---------- Recency ----------

  /** The operation is a hit on, or an accepted store of, the key. */
  predicate Touches(st: State, op: Op, key: string) {
    op.key == key &&
    match op
    case OpGet(_, now) => Get(st, key, now).1.Some?
    case OpPut(_, data, _, _) => Storable(data, st.maxSize)
  }

  /** One more than the position of the last operation that touched the key. */
  function LastTouch(maxSize: nat, ops: seq<Op>, key: string): (t: nat)
    ensures t <= |ops|
    decreases |ops|
  {
    if ops == [] then 0 else
    var pre := ops[..|ops| - 1];
    if Touches(Run(Fresh(maxSize), pre), ops[|ops| - 1], key) then |ops| else LastTouch(maxSize, pre, key)
  }

  predicate OrderedByLastTouch(maxSize: nat, ops: seq<Op>, list: seq<Rec>) {
    forall i, j | 0 <= i < j < |list| ::
      LastTouch(maxSize, ops, list[i].key) < LastTouch(maxSize, ops, list[j].key)
  }

  lemma OrderSurvivesRemoval(maxSize: nat, ops: seq<Op>, list: seq<Rec>, i: nat)
    requires OrderedByLastTouch(maxSize, ops, list) && i < |list|
    ensures OrderedByLastTouch(maxSize, ops, Without(list, i))
    ensures OrderedByLastTouch(maxSize, ops, list[i..])
  {
  }

  /** An operation on another key leaves a record's last touch as it was. */
  lemma OrderSurvivesOtherKeys(maxSize: nat, ops: seq<Op>, list: seq<Rec>)
    requires ops != [] && OrderedByLastTouch(maxSize, ops[..|ops| - 1], list)
    requires forall r | r in list :: r.key != ops[|ops| - 1].key
    ensures OrderedByLastTouch(maxSize, ops, list)
  {
    forall r | r in list
      ensures LastTouch(maxSize, ops, r.key) == LastTouch(maxSize, ops[..|ops| - 1], r.key)
    {
    }
  }

  /** The touched record is newer than all others. */
  lemma TouchedRecordGoesLast(maxSize: nat, ops: seq<Op>, list: seq<Rec>, last: Rec)
    requires ops != [] && OrderedByLastTouch(maxSize, ops[..|ops| - 1], list)
    requires forall r | r in list :: r.key != ops[|ops| - 1].key
    requires last.key == ops[|ops| - 1].key
    requires Touches(Run(Fresh(maxSize), ops[..|ops| - 1]), ops[|ops| - 1], last.key)
    ensures OrderedByLastTouch(maxSize, ops, list + [last])
  {
    OrderSurvivesOtherKeys(maxSize, ops, list);
    forall i | 0 <= i < |list|
      ensures LastTouch(maxSize, ops, list[i].key) < |ops|
    {
      assert list[i].key != ops[|ops| - 1].key;
    }
    assert LastTouch(maxSize, ops, last.key) == |ops|;
  }

  /** The list is in order of last touch, so what eviction drops is what was
      used longest ago. */
  lemma {:induction false} ListIsInOrderOfLastTouch(maxSize: nat, ops: seq<Op>)
    ensures OrderedByLastTouch(maxSize, ops, Run(Fresh(maxSize), ops).list)
    decreases |ops|
  {
    if ops != [] {
      var pre, op := ops[..|ops| - 1], ops[|ops| - 1];
      ListIsInOrderOfLastTouch(maxSize, pre);
      RunKeepsKeysUnique(Fresh(maxSize), pre);
      StepKeepsOrder(maxSize, ops, Run(Fresh(maxSize), pre));
    }
  }

  lemma StepKeepsOrder(maxSize: nat, ops: seq<Op>, st: State)
    requires ops != [] && st == Run(Fresh(maxSize), ops[..|ops| - 1])
    requires UniqueKeys(st.list) && st.maxSize == maxSize
    requires OrderedByLastTouch(maxSize, ops[..|ops| - 1], st.list)
    ensures OrderedByLastTouch(maxSize, ops, Step(st, ops[|ops| - 1]).list)
  {
    var pre, op := ops[..|ops| - 1], ops[|ops| - 1];
    var i := Find(st.list, op.key);
    if op.OpPut? && !Storable(op.data, maxSize) {
      RefusedPutKeepsOrder(maxSize, ops, st);
    } else if i < |st.list| {
      OrderSurvivesRemoval(maxSize, pre, st.list, i);
      var rest := Without(st.list, i);
      OrderSurvivesOtherKeys(maxSize, ops, rest);
      var last := if op.OpGet? then st.list[i] else Rec(op.key, op.data, Expiry(op.ttl, op.now));
      if Touches(st, op, op.key) {
        TouchedRecordGoesLast(maxSize, ops, rest, last);
      }
    } else if op.OpGet? {
      OrderSurvivesOtherKeys(maxSize, ops, st.list);
    } else {
      NewPutKeepsOrder(maxSize, ops, st);
    }
  }

  lemma RefusedPutKeepsOrder(maxSize: nat, ops: seq<Op>, st: State)
    requires ops != [] && st == Run(Fresh(maxSize), ops[..|ops| - 1]) && st.maxSize == maxSize
    requires ops[|ops| - 1].OpPut? && !Storable(ops[|ops| - 1].data, maxSize)
    requires OrderedByLastTouch(maxSize, ops[..|ops| - 1], st.list)
    ensures OrderedByLastTouch(maxSize, ops, st.list)
  {
    var pre, op := ops[..|ops| - 1], ops[|ops| - 1];
    assert forall key :: !Touches(st, op, key);
    assert forall key :: LastTouch(maxSize, ops, key) == LastTouch(maxSize, pre, key);
  }

  lemma NewPutKeepsOrder(maxSize: nat, ops: seq<Op>, st: State)
    requires ops != [] && st == Run(Fresh(maxSize), ops[..|ops| - 1]) && st.maxSize == maxSize
    requires var op := ops[|ops| - 1]; op.OpPut? && Storable(op.data, maxSize) && !Present(st.list, op.key)
    requires OrderedByLastTouch(maxSize, ops[..|ops| - 1], st.list)
    ensures OrderedByLastTouch(maxSize, ops, Step(st, ops[|ops| - 1]).list)
  {
    var pre, op := ops[..|ops| - 1], ops[|ops| - 1];
    var n := EvictRemovesShortestPrefix(st.list, |op.data|, maxSize);
    if n < |st.list| {
      OrderSurvivesRemoval(maxSize, pre, st.list, n);
    }
    TouchedRecordGoesLast(maxSize, ops, st.list[n..], Rec(op.key, op.data, Expiry(op.ttl, op.now)));
  }

  /** The hit counter counts the lookups that returned something, the miss counter the
      others. */
  lemma {:induction false} CountersCountLookups(maxSize: nat, ops: seq<Op>)
    ensures var st := Run(Fresh(maxSize), ops);
            st.hits == Lookups(maxSize, ops, true) && st.misses == Lookups(maxSize, ops, false)
    decreases |ops|
  {
    if ops != [] {
      CountersCountLookups(maxSize, ops[..|ops| - 1]);
    }
  }

  /** How many lookups of the run returned something, or nothing. */
  function Lookups(maxSize: nat, ops: seq<Op>, hit: bool): nat
    decreases |ops|
  {
    if ops == [] then 0 else
    var pre, op := ops[..|ops| - 1], ops[|ops| - 1];
    Lookups(maxSize, pre, hit) +
    (if op.OpGet? && Get(Run(Fresh(maxSize), pre), op.key, op.now).1.Some? == hit then 1 else 0)
  }
}
