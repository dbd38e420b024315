/** The bandwidth windows of `ratelimit.c`: one tracker per address in a linked
    list, and the collector that unlinks idle trackers. */
module Bandwidth {
  import opened Options
  import opened Sequences

  datatype Window = Window(sent: nat, received: nat, start: int, lastActivity: int) {
    function Total(): nat {
      sent + received
    }
  }

  /** The window a lookup at `now` returns: a new one, a restarted one after sixty
      seconds, or the one there is. */
  function Current(w: Option<Window>, now: int): Window {
    if w.None? || now - w.value.start >= 60 then Window(0, 0, now, now)
    else w.value.(lastActivity := now)
  }

  /** C's conversion of a quotient to an integer drops the fraction. */
  function TruncatedDivision(a: nat, d: int): int
    requires d != 0
  {
    if d > 0 then a / d else -(a / -d)
  }

  /** The quotient is the exact one, cut towards zero. */
  lemma TruncatedDivisionIsCut(a: nat, d: int)
    requires d != 0
    ensures var q := TruncatedDivision(a, d);
            (if d > 0 then 0 <= q && q * d <= a < (q + 1) * d else q <= 0 && q * d <= a < (q - 1) * d)
  {
  }

  function Duration(w: Window, now: int): int {
    if now - w.start == 0 then 1 else now - w.start
  }

  /** Whether `bytes` more keep the rate of the window within `limit` per second. */
  predicate Fits(w: Window, limit: nat, bytes: nat, now: int) {
    TruncatedDivision(w.Total(), Duration(w, now)) + bytes <= limit
  }

  function Add(w: Window, bytes: nat, upload: bool): Window {
    if upload then w.(sent := w.sent + bytes) else w.(received := w.received + bytes)
  }

  predicate Idle(w: Window, now: int) {
    now - w.lastActivity > 300
  }

  function Surviving(w: Option<Window>, now: int): Option<Window> {
    if w.Some? && Idle(w.value, now) then None else w
  }

  // ---------- One event ----------

  /** The answer to a check whose lookup reads the clock as `looked`, and whose rate
      reads it as `now`. */
  predicate Accepts(w: Option<Window>, limit: nat, bytes: nat, looked: int, now: int) {
    Fits(Current(w, looked), limit, bytes, now)
  }

  /** What happens to the limiter, with the clock readings it takes. */
  datatype Event =
    | Check(ip: string, bytes: nat, upload: bool, looked: int, now: int)
    | Update(ip: string, bytes: nat, upload: bool, now: int)
    | Collect(now: int)
  {
    function Begin(): int {
      if Check? then looked else now
    }
  }

  /** The window of `ip` after one more event. */
  function HeldNext(limit: nat, w: Option<Window>, e: Event, ip: string): Option<Window> {
    match e
    case Check(who, bytes, upload, looked, now) =>
      if who != ip then w else
      var c := Current(w, looked);
      Some(if Accepts(w, limit, bytes, looked, now) then Add(c, bytes, upload) else c)
    case Update(who, bytes, upload, now) =>
      if who != ip then w else Some(Add(Current(w, now), bytes, upload))
    case Collect(now) => Surviving(w, now)
  }

  // ---------- The linked list ----------

  class Tracker {
    const ip: string
    var bytesSent: nat
    var bytesReceived: nat
    var windowStart: int
    var lastActivity: int
    var next: Tracker?

    constructor (ip: string, now: int, next: Tracker?)
      ensures this.ip == ip && this.next == next && State() == Window(0, 0, now, now)
    {
      this.ip, this.next := ip, next;
      bytesSent, bytesReceived, windowStart, lastActivity := 0, 0, now, now;
    }

    function State(): Window
      reads this
    {
      Window(bytesSent, bytesReceived, windowStart, lastActivity)
    }

    /** What a lookup does to the tracker it finds. */
    method Renew(now: int)
      modifies this`bytesSent, this`bytesReceived, this`windowStart, this`lastActivity
      ensures State() == Current(Some(old(State())), now)
    {
      if now - windowStart >= 60 {
        bytesSent := 0;
        bytesReceived := 0;
        windowStart := now;
      }
      lastActivity := now;
    }
  }

  /** The first tracker of the address, or the length of the list. */
  function Find(ts: seq<Tracker>, ip: string): (i: nat)
    ensures i <= |ts|
    ensures i < |ts| ==> ts[i].ip == ip
    ensures forall j | 0 <= j < i :: ts[j].ip != ip
  {
    Position(ts, (t: Tracker) => t.ip, ip)
  }

  /** A new head comes before everyone else. */
  lemma FindBehindHead(t: Tracker, ts: seq<Tracker>, ip: string)
    requires t.ip != ip
    ensures Find([t] + ts, ip) == 1 + Find(ts, ip)
  {
    assert ([t] + ts)[1..] == ts;
  }

  function At(ts: seq<Tracker>, i: nat): Tracker? {
    if i < |ts| then ts[i] else null
  }

  /** The links follow the sequence and end with null. */
  ghost predicate Follows(head: Tracker?, ts: seq<Tracker>)
    reads ts
  {
    head == At(ts, 0) && forall i {:trigger ts[i].next} | 0 <= i < |ts| :: ts[i].next == At(ts, i + 1)
  }

  predicate UniqueIps(ts: seq<Tracker>) {
    UniqueBy(ts, (t: Tracker) => t.ip)
  }

  /** The trackers that are not idle, in order. */
  ghost function Live(ts: seq<Tracker>, now: int): seq<Tracker>
    reads ts`lastActivity
  {
    if ts == [] then []
    else if now - ts[0].lastActivity > 300 then Live(ts[1..], now)
    else [ts[0]] + Live(ts[1..], now)
  }

  /** The window of the address among these trackers. */
  ghost function HeldIn(ts: seq<Tracker>, ip: string): Option<Window>
    reads ts
  {
    var i := Find(ts, ip);
    if i < |ts| then Some(ts[i].State()) else None
  }

  lemma LiveNext(ts: seq<Tracker>, k: nat, now: int)
    requires k < |ts|
    ensures if now - ts[k].lastActivity > 300 then Live(ts[k..], now) == Live(ts[k + 1..], now)
            else ts[..k] + Live(ts[k..], now) == ts[..k + 1] + Live(ts[k + 1..], now)
  {
    assert ts[k..][1..] == ts[k + 1..];
    assert ts[..k + 1] == ts[..k] + [ts[k]];
  }

  /** Dropping the idle trackers forgets exactly the idle windows. */
  lemma {:induction false} LiveKeepsActiveWindows(ts: seq<Tracker>, ip: string, now: int)
    requires UniqueIps(ts)
    ensures HeldIn(Live(ts, now), ip) == Surviving(HeldIn(ts, ip), now)
    ensures forall t | t in Live(ts, now) :: t in ts
  {
    if ts != [] {
      LiveKeepsActiveWindows(ts[1..], ip, now);
      if ts[0].ip == ip {
        assert Find(ts[1..], ip) == |ts[1..]|;
        assert HeldIn(Live(ts[1..], now), ip) == None;
      } else {
        assert HeldIn(ts, ip) == HeldIn(ts[1..], ip);
        var live := [ts[0]] + Live(ts[1..], now);
        assert live[1..] == Live(ts[1..], now) && HeldIn(live, ip) == HeldIn(live[1..], ip);
      }
    }
  }

  class Monitor {
    const kbps: nat
    const enabled: bool
    var head: Tracker?
    ghost var chain: seq<Tracker>

    ghost predicate Valid()
      reads this, chain
    {
      Follows(head, chain) && UniqueIps(chain)
    }

    ghost function Held(ip: string): Option<Window>
      reads this, chain
    {
      HeldIn(chain, ip)
    }

    constructor (kbps: nat, enabled: bool)
      ensures Valid() && chain == [] && this.kbps == kbps && this.enabled == enabled
    {
      this.kbps, this.enabled, head, chain := kbps, enabled, null, [];
    }

    /** `get_bandwidth_tracker`. */
    method GetTracker(ip: string, now: int) returns (tracker: Tracker)
      requires Valid()
      modifies this, chain
      ensures Valid() && tracker in chain && tracker.ip == ip
      ensures forall t | t in chain :: t in old(chain) || fresh(t)
      ensures tracker.State() == Current(old(Held(ip)), now)
      ensures forall other | other != ip :: Held(other) == old(Held(other))
    {
      tracker := *;
      var t := head;
      ghost var i := 0;
      while t != null
        invariant i <= |chain| && t == if i < |chain| then chain[i] else null
        invariant forall j | 0 <= j < i :: chain[j].ip != ip
        decreases |chain| - i
      {
        if t.ip == ip {
          t.Renew(now);
          return t;
        }
        t, i := t.next, i + 1;
      }
      tracker := AddTracker(ip, now);
    }

    /** The end of it: a new tracker becomes the head of the list. */
    method AddTracker(ip: string, now: int) returns (tracker: Tracker)
      requires Valid() && forall t | t in chain :: t.ip != ip
      modifies this
      ensures Valid() && fresh(tracker) && chain == [tracker] + old(chain)
      ensures tracker.ip == ip && tracker.State() == Window(0, 0, now, now)
      ensures forall other | other != ip :: Held(other) == old(Held(other))
    {
      ghost var before := chain;
      tracker := new Tracker(ip, now, head);
      head := tracker;
      chain := [tracker] + chain;
      forall other | other != ip
        ensures Held(other) == old(Held(other))
      {
        FindBehindHead(tracker, before, other);
      }
    }

    /** `ratelimit_check_bandwidth`: the clock is read at the lookup and again for
        the rate. */
    method CheckBandwidth(ip: string, bytes: nat, upload: bool, looked: int, now: int) returns (allowed: bool)
      requires Valid()
      modifies this, chain
      ensures Valid()
      ensures !enabled || kbps == 0 ==> allowed && forall a :: Held(a) == old(Held(a))
      ensures enabled && kbps != 0 ==>
                var limit, e := kbps * 1024, Check(ip, bytes, upload, looked, now);
                && allowed == Accepts(old(Held(ip)), limit, bytes, looked, now)
                && forall a :: Held(a) == HeldNext(limit, old(Held(a)), e, a)
    {
      if !enabled || kbps == 0 {
        return true;
      }
      var t := GetTracker(ip, looked);
      assert chain[Find(chain, ip)] == t;
      var duration := now - t.windowStart;
      if duration == 0 {
        duration := 1;
      }
      if TruncatedDivision(t.bytesSent + t.bytesReceived, duration) + bytes > kbps * 1024 {
        return false;
      }
      AddTo(t, bytes, upload);
      return true;
    }

    /** `ratelimit_update_bandwidth`: counts without checking. */
    method UpdateBandwidth(ip: string, bytes: nat, upload: bool, now: int)
      requires Valid()
      modifies this, chain
      ensures Valid()
      ensures forall a ::
                Held(a) == if enabled then HeldNext(kbps * 1024, old(Held(a)), Update(ip, bytes, upload, now), a)
                           else old(Held(a))
    {
      if !enabled {
        return;
      }
      var t := GetTracker(ip, now);
      assert chain[Find(chain, ip)] == t;
      AddTo(t, bytes, upload);
    }

    method AddTo(t: Tracker, bytes: nat, upload: bool)
      requires Valid() && t in chain
      modifies t`bytesSent, t`bytesReceived
      ensures Valid() && t.State() == Add(old(t.State()), bytes, upload)
      ensures forall other | other != t.ip :: Held(other) == old(Held(other))
    {
      if upload {
        t.bytesSent := t.bytesSent + bytes;
      } else {
        t.bytesReceived := t.bytesReceived + bytes;
      }
    }

    /** Takes the tracker between `prev` and `next` out of the list. */
    method Unlink(prev: Tracker?, next: Tracker?, ghost k: nat)
      requires Valid() && k < |chain|
      requires prev == (if k == 0 then null else chain[k - 1]) && next == At(chain, k + 1)
      modifies this`head, this`chain, (if prev == null then {} else {prev})`next
      ensures Valid() && chain == old(chain)[..k] + old(chain)[k + 1..]
    {
      ghost var was := chain;
      chain := chain[..k] + chain[k + 1..];
      if prev != null {
        prev.next := next;
      } else {
        head := next;
      }
      forall i | 0 <= i < |chain|
        ensures chain[i].next == At(chain, i + 1)
      {
        if i < k {
          assert chain[i] == was[i];
        } else {
          assert chain[i] == was[i + 1];
        }
      }
    }

    /** The loop of `ratelimit_cleanup_old_entries`: unlinks idle trackers behind a
        trailing pointer; the others keep their order. */
    method Sweep(now: int)
      requires Valid()
      modifies this`head, this`chain, chain`next
      ensures Valid() && chain == old(Live(chain, now))
    {
      ghost var live := Live(chain, now);
      var tracker, prev: Tracker? := head, null;
      ghost var k := 0;
      while tracker != null
        invariant Valid() && k <= |chain|
        invariant tracker == At(chain, k) && prev == if k == 0 then null else chain[k - 1]
        invariant forall t | t in chain :: t in old(chain)
        invariant chain[..k] + Live(chain[k..], now) == live
        decreases |chain| - k
      {
        var next := tracker.next;
        LiveNext(chain, k, now);
        if now - tracker.lastActivity > 300 {
          ghost var before := chain;
          assert prev != null ==> prev in chain;
          Unlink(prev, next, k);
          assert chain[..k] == before[..k] && chain[k..] == before[k + 1..];
        } else {
          prev := tracker;
          k := k + 1;
        }
        tracker := next;
      }
    }

    /** `ratelimit_cleanup_old_entries`: forgets the windows idle for more than
        five minutes and no others. */
    method CleanupOldEntries(now: int)
      requires Valid()
      modifies this`head, this`chain, chain`next
      ensures Valid() && chain == old(Live(chain, now))
      ensures forall ip :: Held(ip) == HeldNext(kbps * 1024, old(Held(ip)), Collect(now), ip)
    {
      ghost var live := Live(chain, now);
      forall ip
        ensures HeldIn(live, ip) == Surviving(Held(ip), now)
      {
        LiveKeepsActiveWindows(chain, ip, now);
      }
      LiveKeepsActiveWindows(chain, "", now);
      Sweep(now);
      forall ip
        ensures Held(ip) == old(HeldIn(live, ip))
      {
        var i := Find(live, ip);
        if i < |live| {
          assert live[i].State() == old(live[i].State());
        }
      }
    }
  }
}
