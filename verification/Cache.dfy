/** The cache of `cache.c`: hash buckets and a recency queue over shared entries,
    kept in step with a byte counter. */
module Cache {
  import opened Options
  import opened Hashing
  import opened RecencyList
  import opened Sequences

  // ---------- hash_key ----------

  function Bucket(key: string, numBuckets: nat): (b: nat)
    requires numBuckets > 0
    ensures b < numBuckets
  {
    Djb2(key) % numBuckets
  }

  method HashKey(key: string, numBuckets: nat) returns (bucket: nat)
    requires numBuckets > 0
    ensures bucket == Djb2(key) % numBuckets
  {
    var hash := Hash(key);
    bucket := hash % numBuckets;
  }

  // ---------- Entries, and lists of them ----------

  class Entry {
    const key: string
    var data: Bytes
    var size: nat
    var expiry: int

    constructor (key: string, data: Bytes, expiry: int)
      ensures this.key == key && this.data == data && this.size == |data| && this.expiry == expiry
    {
      this.key, this.data, this.size, this.expiry := key, data, |data|, expiry;
    }

    function Record(): Rec
      reads this
    {
      Rec(key, data, expiry)
    }
  }

  /** The records held by a list of entries. */
  ghost function Records(es: seq<Entry>): (rs: seq<Rec>)
    reads es
    ensures |rs| == |es|
    ensures forall i | 0 <= i < |es| :: rs[i] == es[i].Record()
  {
    seq(|es|, i requires 0 <= i < |es| reads es => es[i].Record())
  }

  /** `LIST_REMOVE` and `TAILQ_REMOVE`: unlinks one entry. */
  function Unlink(es: seq<Entry>, e: Entry): seq<Entry>
    requires e in es
  {
    es[..IndexOf(es, e)] + es[IndexOf(es, e) + 1..]
  }

  lemma UnlinkRemovesOne(es: seq<Entry>, e: Entry)
    requires e in es && Distinct(es)
    ensures Distinct(Unlink(es, e)) && e !in Unlink(es, e)
    ensures forall x | x in Unlink(es, e) :: x in es
    ensures forall x | x in es && x != e :: x in Unlink(es, e)
  {
    var i := IndexOf(es, e);
    forall x | x in es && x != e
      ensures x in Unlink(es, e)
    {
      var j :| 0 <= j < |es| && es[j] == x;
      assert j < i ==> Unlink(es, e)[j] == x;
      assert j > i ==> Unlink(es, e)[j - 1] == x;
    }
  }

  lemma RecordsUnlink(es: seq<Entry>, e: Entry)
    requires e in es
    ensures Records(Unlink(es, e)) == Without(Records(es), IndexOf(es, e))
    ensures Records(Unlink(es, e) + [e]) == Without(Records(es), IndexOf(es, e)) + [e.Record()]
    ensures Total(Records(Unlink(es, e))) == Total(Records(es)) - |e.data|
    ensures Total(Records(Unlink(es, e) + [e])) == Total(Records(es))
  {
    var i := IndexOf(es, e);
    assert Records(Unlink(es, e)) == Without(Records(es), i);
    TotalWithout(Records(es), i);
    TotalConcat(Without(Records(es), i), [e.Record()]);
  }

  predicate KeysUnique(es: seq<Entry>) {
    UniqueBy(es, (e: Entry) => e.key)
  }

  /** One bucket holds exactly the queue's entries whose key hashes to it. */
  predicate BucketOf(bucket: seq<Entry>, lru: seq<Entry>, b: nat, n: nat)
    requires n > 0
  {
    && Distinct(bucket)
    && (forall e | e in bucket :: e in lru && Bucket(e.key, n) == b)
    && (forall e | e in lru && Bucket(e.key, n) == b :: e in bucket)
  }

  /** The buckets partition the queue by hash, and no key occurs twice. */
  predicate Linked(buckets: seq<seq<Entry>>, lru: seq<Entry>, n: nat) {
    && n > 0 && |buckets| == n
    && Distinct(lru) && KeysUnique(lru)
    && (forall b | 0 <= b < n :: BucketOf(buckets[b], lru, b, n))
  }

  lemma RemoveKeepsLinked(buckets: seq<seq<Entry>>, lru: seq<Entry>, n: nat, e: Entry)
    requires Linked(buckets, lru, n) && e in lru
    ensures var b := Bucket(e.key, n);
            e in buckets[b] && Linked(buckets[b := Unlink(buckets[b], e)], Unlink(lru, e), n)
  {
    var b := Bucket(e.key, n);
    assert BucketOf(buckets[b], lru, b, n);
    UnlinkRemovesOne(lru, e);
    UnlinkRemovesOne(buckets[b], e);
    var after := buckets[b := Unlink(buckets[b], e)];
    forall c | 0 <= c < n
      ensures BucketOf(after[c], Unlink(lru, e), c, n)
    {
      assert BucketOf(buckets[c], lru, c, n);
    }
  }

  lemma MoveKeepsLinked(buckets: seq<seq<Entry>>, lru: seq<Entry>, n: nat, e: Entry)
    requires Linked(buckets, lru, n) && e in lru
    ensures Linked(buckets, Unlink(lru, e) + [e], n)
  {
    UnlinkRemovesOne(lru, e);
    assert forall x :: x in Unlink(lru, e) + [e] <==> x in lru;
    forall c | 0 <= c < n
      ensures BucketOf(buckets[c], Unlink(lru, e) + [e], c, n)
    {
      assert BucketOf(buckets[c], lru, c, n);
    }
  }

  lemma InsertKeepsLinked(buckets: seq<seq<Entry>>, lru: seq<Entry>, n: nat, e: Entry)
    requires Linked(buckets, lru, n) && forall x | x in lru :: x.key != e.key
    ensures var b := Bucket(e.key, n);
            Linked(buckets[b := [e] + buckets[b]], lru + [e], n)
  {
    var b := Bucket(e.key, n);
    var after := buckets[b := [e] + buckets[b]];
    forall c | 0 <= c < n
      ensures BucketOf(after[c], lru + [e], c, n)
    {
      assert BucketOf(buckets[c], lru, c, n);
    }
  }

  class LruCache {
    const numBuckets: nat
    const maxSize: nat
    const buckets: array<seq<Entry>>
    var lru: seq<Entry>
    var totalSize: int
    var hits: nat
    var misses: nat

    /** Buckets and queue agree, sizes are those of the data, and the counter is
        their sum. */
    ghost predicate Valid()
      reads `lru, `totalSize, buckets, lru
    {
      && numBuckets > 0 && buckets.Length == numBuckets
      && Linked(buckets[..], lru, numBuckets)
      && (forall e | e in lru :: e.size == |e.data|)
      && totalSize == Total(Records(lru))
    }

    /** The entries, as a frame. */
    ghost function Entries(): set<Entry>
      reads `lru
    {
      set e | e in lru
    }

    ghost function Model(): State
      reads this, lru
    {
      State(Records(lru), maxSize, hits, misses)
    }

    /** `cache_init` with 1024 buckets. */
    constructor (sizeMb: nat)
      ensures Valid() && fresh(buckets)
      ensures Model() == Fresh(sizeMb * 1024 * 1024) && lru == [] && numBuckets == 1024
    {
      numBuckets, maxSize := 1024, sizeMb * 1024 * 1024;
      buckets := new seq<Entry>[1024](_ => []);
      lru, totalSize, hits, misses := [], 0, 0, 0;
    }

    /** The search of one bucket. */
    method Lookup(key: string) returns (found: Option<Entry>)
      requires Valid()
      ensures found.None? ==> Find(Records(lru), key) == |lru|
      ensures found.Some? ==>
                found.value in lru && found.value.key == key && Find(Records(lru), key) == IndexOf(lru, found.value)
    {
      var b := HashKey(key, numBuckets);
      var chain := buckets[b];
      assert BucketOf(buckets[..][b], lru, b, numBuckets);
      ghost var first := Find(Records(lru), key);
      for i := 0 to |chain|
        invariant forall j | 0 <= j < i :: chain[j].key != key
      {
        if chain[i].key == key {
          ghost var at := IndexOf(lru, chain[i]);
          assert Records(lru)[at].key == key;
          return Some(chain[i]);
        }
      }
      assert first == |lru|;
      return None;
    }

    /** Takes an entry out of its bucket, the queue and the counter. */
    method Remove(e: Entry)
      requires Valid() && e in lru
      modifies this`lru, this`totalSize, buckets
      ensures Valid()
      ensures lru == Unlink(old(lru), e)
      ensures Records(lru) == Without(old(Records(lru)), IndexOf(old(lru), e))
    {
      RemoveKeepsLinked(buckets[..], lru, numBuckets, e);
      UnlinkRemovesOne(lru, e);
      RecordsUnlink(lru, e);
      var b := HashKey(e.key, numBuckets);
      ghost var was := buckets[..];
      lru := Unlink(lru, e);
      buckets[b] := Unlink(buckets[b], e);
      totalSize := totalSize - e.size;
      assert buckets[..] == was[b := Unlink(was[b], e)];
    }

    /** `cache_evict_lru`. */
    method EvictLru()
      requires Valid()
      modifies this`lru, this`totalSize, buckets
      ensures Valid()
      ensures lru == if old(lru) == [] then [] else old(lru)[1..]
      ensures Records(lru) == if old(lru) == [] then [] else old(Records(lru))[1..]
    {
      if lru == [] {
        return;
      }
      Remove(lru[0]);
    }

    /** `TAILQ_REMOVE` then `TAILQ_INSERT_TAIL`. */
    method MoveToTail(e: Entry)
      requires Valid() && e in lru
      modifies this`lru
      ensures Valid()
      ensures lru == Unlink(old(lru), e) + [e]
      ensures var i := IndexOf(old(lru), e);
              Records(lru) == Without(old(Records(lru)), i) + [e.Record()]
    {
      MoveKeepsLinked(buckets[..], lru, numBuckets, e);
      UnlinkRemovesOne(lru, e);
      RecordsUnlink(lru, e);
      lru := Unlink(lru, e) + [e];
    }

    /** The part of `cache_get` that searches the bucket and moves or drops the
        entry it finds. */
    method Touch(key: string, now: int) returns (data: Option<Bytes>)
      requires Valid()
      modifies this`lru, this`totalSize, buckets
      ensures Valid() && (forall e | e in lru :: e in old(lru))
      ensures (Records(lru), data) == RecencyList.Touch(old(Records(lru)), key, now)
    {
      var found := Lookup(key);
      if found.None? {
        return None;
      }
      var e := found.value;
      assert Records(lru)[IndexOf(lru, e)] == e.Record();
      UnlinkRemovesOne(lru, e);
      if e.expiry > 0 && now > e.expiry {
        Remove(e);
        return None;
      }
      MoveToTail(e);
      return Some(e.data);
    }

    /** `cache_get`; `now` is the clock. */
    method Get(key: string, now: int) returns (data: Option<Bytes>)
      requires Valid()
      modifies this, buckets
      ensures Valid() && Entries() <= old(Entries())
      ensures (Model(), data) == RecencyList.Get(old(Model()), key, now)
    {
      data := Touch(key, now);
      Count(data.Some?);
    }

    method Count(hit: bool)
      requires Valid()
      modifies `hits, `misses
      ensures Valid() && Model() == Counted(old(Model()), hit)
    {
      if hit {
        hits := hits + 1;
      } else {
        misses := misses + 1;
      }
    }

    /** `cache_put`; `now` is the clock. */
    method Put(key: string, data: Bytes, ttl: int, now: int) returns (ok: bool)
      requires Valid()
      modifies this, buckets, Entries()
      ensures Valid() && fresh(Entries() - old(Entries()))
      ensures (Model(), ok) == RecencyList.Put(old(Model()), key, data, ttl, now)
    {
      if data == [] || |data| > maxSize / 2 {
        return false;
      }
      var found := Lookup(key);
      if found.Some? {
        Overwrite(found.value, data, if ttl > 0 then now + ttl else 0);
        return true;
      }
      MakeRoom(key, |data|);
      Insert(key, data, if ttl > 0 then now + ttl else 0);
      return true;
    }

    /** The branch of `cache_put` for an entry that is there. */
    method Overwrite(e: Entry, data: Bytes, expiry: int)
      requires Valid() && e in lru
      modifies this`lru, this`totalSize, e
      ensures Valid() && Entries() == old(Entries())
      ensures Records(lru) == Without(old(Records(lru)), IndexOf(old(lru), e)) + [Rec(e.key, data, expiry)]
    {
      ghost var before, i := Records(lru), IndexOf(lru, e);
      SetData(e, data, expiry);
      assert Without(Records(lru), i) == Without(before, i);
      UnlinkRemovesOne(lru, e);
      assert Records(lru)[i] == e.Record();
      MoveToTail(e);
    }

    /** The eviction loop of `cache_put`. */
    method MakeRoom(ghost key: string, need: nat)
      requires Valid() && need <= maxSize
      requires forall e | e in lru :: e.key != key
      modifies this`lru, this`totalSize, buckets
      ensures Valid() && (forall e | e in lru :: e in old(lru))
      ensures Records(lru) == Evict(old(Records(lru)), need, maxSize)
    {
      while totalSize + need > maxSize
        invariant Valid()
        invariant forall e | e in lru :: e in old(lru)
        invariant Evict(Records(lru), need, maxSize) == Evict(old(Records(lru)), need, maxSize)
        decreases |lru|
      {
        assert Records(lru) != [];
        EvictLru();
      }
    }

    /** Replaces the data of an entry where it stands. */
    method SetData(e: Entry, data: Bytes, expiry: int)
      requires Valid() && e in lru
      modifies this`totalSize, e
      ensures Valid()
      ensures Records(lru) == old(Records(lru))[IndexOf(lru, e) := Rec(e.key, data, expiry)]
    {
      ghost var before, i := Records(lru), IndexOf(lru, e);
      TotalUpdate(before, i, Rec(e.key, data, expiry));
      totalSize := totalSize - e.size + |data|;
      e.data, e.size, e.expiry := data, |data|, expiry;
      assert Records(lru) == before[i := Rec(e.key, data, expiry)];
    }

    /** Adds a new entry at the head of its bucket and the tail of the queue. */
    method Insert(key: string, data: Bytes, expiry: int)
      requires Valid() && (forall e | e in lru :: e.key != key)
      modifies this`lru, this`totalSize, buckets
      ensures Valid() && (forall x | x in lru :: x in old(lru) || fresh(x))
      ensures Records(lru) == old(Records(lru)) + [Rec(key, data, expiry)]
    {
      ghost var before, was := Records(lru), buckets[..];
      var e := new Entry(key, data, expiry);
      InsertKeepsLinked(buckets[..], lru, numBuckets, e);
      var b := HashKey(key, numBuckets);
      buckets[b] := [e] + buckets[b];
      lru := lru + [e];
      totalSize := totalSize + |data|;
      assert buckets[..] == was[b := [e] + was[b]];
      assert Records(lru) == before + [Rec(key, data, expiry)];
      TotalConcat(before, [Rec(key, data, expiry)]);
    }

    /** `cache_cleanup`: frees every entry once, oldest first, and reports the
        counters. */
    method Cleanup() returns (freed: seq<Entry>, finalHits: nat, finalMisses: nat)
      requires Valid()
      modifies this`lru
      ensures freed == old(lru) && Distinct(freed) && lru == []
      ensures finalHits == hits && finalMisses == misses
    {
      freed := FreeEntries();
      finalHits, finalMisses := hits, misses;
    }

    /** Its loop over the queue. */
    method FreeEntries() returns (freed: seq<Entry>)
      modifies this`lru
      ensures freed == old(lru) && lru == []
    {
      freed := [];
      while lru != []
        invariant freed + lru == old(lru)
        decreases |lru|
      {
        freed := freed + [lru[0]];
        lru := lru[1..];
      }
    }
  }
}
