/** Whole runs of the bandwidth limiter: the bound it enforces, and why its
    collector cannot be noticed. */
module BandwidthRuns {
  import opened Options
  import opened Bandwidth

  /** The window of `ip` after the events. */
  function Held(limit: nat, es: seq<Event>, ip: string): Option<Window>
    decreases |es|
  {
    if es == [] then None else HeldNext(limit, Held(limit, es[..|es| - 1], ip), es[|es| - 1], ip)
  }

  predicate Allows(limit: nat, es: seq<Event>, c: Event)
    requires c.Check?
  {
    Accepts(Held(limit, es, c.ip), limit, c.bytes, c.looked, c.now)
  }

  /** The answers to the checks, in order. */
  function Decisions(limit: nat, es: seq<Event>): seq<bool>
    decreases |es|
  {
    if es == [] then [] else
    var pre, e := es[..|es| - 1], es[|es| - 1];
    Decisions(limit, pre) + (if e.Check? then [Allows(limit, pre, e)] else [])
  }

  /** The clock never runs backwards. */
  predicate Monotone(es: seq<Event>)
    decreases |es|
  {
    es == [] ||
    (var pre, e := es[..|es| - 1], es[|es| - 1];
     Monotone(pre) && e.Begin() <= e.now && (pre != [] ==> pre[|pre| - 1].now <= e.Begin()))
  }

  // ---------- The collector ----------

  function WithoutCollections(es: seq<Event>): seq<Event>
    decreases |es|
  {
    if es == [] then [] else
    var pre, e := es[..|es| - 1], es[|es| - 1];
    if e.Collect? then WithoutCollections(pre) else WithoutCollections(pre) + [e]
  }

  /** With and without collections an address has the same window, except that an
      idle one may have been forgotten. */
  predicate Alike(collected: Option<Window>, plain: Option<Window>, now: int) {
    && (collected == plain || (collected.None? && Idle(plain.value, now)))
    && (plain.Some? ==> plain.value.start <= plain.value.lastActivity <= now)
  }

  lemma CurrentForgetsIdle(collected: Option<Window>, plain: Option<Window>, before: int, now: int)
    requires Alike(collected, plain, before) && before <= now
    ensures Current(collected, now) == Current(plain, now)
  {
  }

  lemma NextKeepsAlike(limit: nat, collected: Option<Window>, plain: Option<Window>, before: int, e: Event, ip: string)
    requires Alike(collected, plain, before) && before <= e.Begin() <= e.now
    ensures Alike(HeldNext(limit, collected, e, ip), if e.Collect? then plain else HeldNext(limit, plain, e, ip), e.now)
  {
    CurrentForgetsIdle(collected, plain, before, e.Begin());
  }

  lemma {:induction false} CollectionsLeaveWindowsAlike(limit: nat, es: seq<Event>, ip: string)
    requires Monotone(es) && es != []
    ensures Alike(Held(limit, es, ip), Held(limit, WithoutCollections(es), ip), es[|es| - 1].now)
    decreases |es|
  {
    var pre, e := es[..|es| - 1], es[|es| - 1];
    var plain := WithoutCollections(pre);
    assert (plain + [e])[..|plain|] == plain;
    var before := e.Begin();
    if pre != [] {
      CollectionsLeaveWindowsAlike(limit, pre, ip);
      before := pre[|pre| - 1].now;
    }
    NextKeepsAlike(limit, Held(limit, pre, ip), Held(limit, plain, ip), before, e, ip);
  }

  /** Collections inserted anywhere in a run change no decision. */
  lemma {:induction false} CollectionsAreInvisible(limit: nat, es: seq<Event>)
    requires Monotone(es)
    ensures Decisions(limit, es) == Decisions(limit, WithoutCollections(es))
    decreases |es|
  {
    if es != [] {
      var pre, e := es[..|es| - 1], es[|es| - 1];
      var plain := WithoutCollections(pre);
      CollectionsAreInvisible(limit, pre);
      if !e.Collect? {
        assert (plain + [e])[..|plain|] == plain;
        if e.Check? && pre != [] {
          CollectionsLeaveWindowsAlike(limit, pre, e.ip);
          CurrentForgetsIdle(Held(limit, pre, e.ip), Held(limit, plain, e.ip), pre[|pre| - 1].now, e.looked);
        }
      }
    }
  }

  // ---------- The bound ----------

  /** What one more event lets through for `ip`. */
  function GainOf(limit: nat, w: Option<Window>, e: Event, ip: string): nat {
    if e.Check? && e.ip == ip && Accepts(w, limit, e.bytes, e.looked, e.now) then e.bytes else 0
  }

  /** Bytes of `ip` that checks let through. */
  function AcceptedBytes(limit: nat, es: seq<Event>, ip: string): nat
    decreases |es|
  {
    if es == [] then 0 else
    var pre, e := es[..|es| - 1], es[|es| - 1];
    AcceptedBytes(limit, pre, ip) + GainOf(limit, Held(limit, pre, ip), e, ip)
  }

  predicate Restarts(w: Option<Window>, now: int) {
    w.None? || now - w.value.start >= 60
  }

  /** The part of a window that checks let through, after one more event. */
  function CheckedNext(limit: nat, w: Option<Window>, checked: nat, e: Event, ip: string): nat {
    match e
    case Check(who, bytes, _, looked, now) =>
      if who != ip then checked
      else (if Restarts(w, looked) then 0 else checked) +
           GainOf(limit, w, e, ip)
    case Update(who, _, _, now) => if who == ip && Restarts(w, now) then 0 else checked
    case Collect(now) => if Surviving(w, now).None? then 0 else checked
  }

  function Checked(limit: nat, es: seq<Event>, ip: string): nat
    decreases |es|
  {
    if es == [] then 0 else
    var pre := es[..|es| - 1];
    CheckedNext(limit, Held(limit, pre, ip), Checked(limit, pre, ip), es[|es| - 1], ip)
  }

  /** The clock when `ip` was first seen. */
  function FirstSeen(es: seq<Event>, ip: string): Option<int>
    decreases |es|
  {
    if es == [] then None else FirstNext(FirstSeen(es[..|es| - 1], ip), es[|es| - 1], ip)
  }

  function FirstNext(first: Option<int>, e: Event, ip: string): Option<int> {
    if first.Some? || e.Collect? || e.ip != ip then first else Some(e.Begin())
  }

  function AtLeastOne(d: int): int {
    if d < 1 then 1 else d
  }

  /** Despite the dropped fraction: when the rate of a window leaves room for more
      bytes, adding them to what checks let through stays within the limit. */
  lemma FittingStaysWithinRate(total: nat, checked: nat, limit: nat, bytes: nat, d: int)
    requires d >= 1 && total / d + bytes <= limit && checked <= total && checked <= limit * d
    ensures checked + bytes <= limit * d
  {
    if bytes > 0 {
      var q, k := total / d, limit - bytes - total / d;
      LimitAdds(d, q, k + bytes);
      LimitAdds(d, k, bytes);
      assert d * k >= 0;
      assert total <= d * q + d - 1;
      ProductCovers(bytes, d);
    }
  }

  lemma ProductCovers(a: int, b: int)
    requires a >= 1 && b >= 1
    ensures b * a >= a + b - 1
  {
    assert (a - 1) * (b - 1) >= 0;
  }

  /** What holds for one address at clock `now`: what checks let through in its
      window is within the rate, and so is everything before the window began. */
  predicate WithinRate(w: Option<Window>, checked: nat, limit: nat, accepted: nat, first: Option<int>, now: int) {
    && (first.None? ==> w.None? && accepted == 0)
    && (first.Some? ==> first.value <= now)
    && (w.Some? ==>
          var v := w.value;
          && first.value <= v.start <= v.lastActivity <= now
          && checked <= v.Total()
          && checked <= limit * AtLeastOne(now - v.start)
          && accepted - checked <= limit * (v.start - first.value))
    && (w.None? ==> checked == 0)
    && (first.Some? && w.None? ==> accepted <= limit * (now - first.value))
  }

  lemma LimitScales(limit: nat, a: int, b: int)
    requires a <= b
    ensures limit * a <= limit * b
  {
  }

  lemma LimitAdds(limit: nat, a: int, b: int)
    ensures limit * (a + b) == limit * a + limit * b
  {
  }

  /** Time passing keeps the bounds. */
  lemma WithinRateLater(w: Option<Window>, checked: nat, limit: nat, accepted: nat, first: Option<int>, before: int,
                        now: int)
    requires WithinRate(w, checked, limit, accepted, first, before) && before <= now
    ensures WithinRate(w, checked, limit, accepted, first, now)
  {
    if w.Some? {
      LimitScales(limit, AtLeastOne(before - w.value.start), AtLeastOne(now - w.value.start));
    } else if first.Some? {
      LimitScales(limit, before - first.value, now - first.value);
    }
  }

  /** A window of at least a second has paid for its time, so it can end. */
  lemma WindowCanEnd(w: Option<Window>, checked: nat, limit: nat, accepted: nat, first: Option<int>, now: int)
    requires WithinRate(w, checked, limit, accepted, first, now)
    requires w.Some? ==> now - w.value.start >= 1
    ensures first.Some? ==> accepted <= limit * (now - first.value)
  {
    if w.Some? {
      LimitAdds(limit, now - w.value.start, w.value.start - first.value);
    }
  }

  /** A lookup keeps the bounds, whether or not it starts a new window. */
  lemma WithinRateAtLookup(w: Option<Window>, checked: nat, limit: nat, accepted: nat, first: Option<int>, now: int)
    requires WithinRate(w, checked, limit, accepted, first, now)
    ensures WithinRate(Some(Current(w, now)), if Restarts(w, now) then 0 else checked, limit, accepted,
                       if first.Some? then first else Some(now), now)
  {
    if Restarts(w, now) {
      WindowCanEnd(w, checked, limit, accepted, first, now);
    }
  }

  lemma CheckStaysWithinRate(limit: nat, w: Option<Window>, checked: nat, accepted: nat, first: Option<int>, e: Event)
    requires e.Check? && e.looked <= e.now && WithinRate(w, checked, limit, accepted, first, e.looked)
    ensures WithinRate(HeldNext(limit, w, e, e.ip), CheckedNext(limit, w, checked, e, e.ip), limit,
                       accepted + GainOf(limit, w, e, e.ip),
                       FirstNext(first, e, e.ip), e.now)
  {
    var c, since := Current(w, e.looked), FirstNext(first, e, e.ip);
    var current := if Restarts(w, e.looked) then 0 else checked;
    WithinRateAtLookup(w, checked, limit, accepted, first, e.looked);
    WithinRateLater(Some(c), current, limit, accepted, since, e.looked, e.now);
    if Fits(c, limit, e.bytes, e.now) {
      var d := AtLeastOne(e.now - c.start);
      FittingStaysWithinRate(c.Total(), current, limit, e.bytes, d);
      assert Add(c, e.bytes, e.upload).Total() == c.Total() + e.bytes;
    }
  }

  lemma NextStaysWithinRate(limit: nat, w: Option<Window>, checked: nat, accepted: nat, first: Option<int>,
                            before: int, e: Event, ip: string)
    requires WithinRate(w, checked, limit, accepted, first, before) && before <= e.Begin() <= e.now
    ensures WithinRate(HeldNext(limit, w, e, ip), CheckedNext(limit, w, checked, e, ip), limit,
                       accepted + GainOf(limit, w, e, ip),
                       FirstNext(first, e, ip), e.now)
  {
    WithinRateLater(w, checked, limit, accepted, first, before, e.now);
    match e
    case Check(who, _, _, looked, _) =>
      if who == ip {
        WithinRateLater(w, checked, limit, accepted, first, before, looked);
        CheckStaysWithinRate(limit, w, checked, accepted, first, e);
      }
    case Update(who, _, _, now) =>
      if who == ip {
        WithinRateAtLookup(w, checked, limit, accepted, first, now);
      }
    case Collect(now) =>
      if w.Some? && Idle(w.value, now) {
        WindowCanEnd(w, checked, limit, accepted, first, now);
      }
  }

  lemma {:induction false} RunsStayWithinRate(limit: nat, es: seq<Event>, ip: string)
    requires Monotone(es) && es != []
    ensures WithinRate(Held(limit, es, ip), Checked(limit, es, ip), limit, AcceptedBytes(limit, es, ip),
                       FirstSeen(es, ip), es[|es| - 1].now)
    decreases |es|
  {
    var pre, e := es[..|es| - 1], es[|es| - 1];
    var before := e.Begin();
    if pre != [] {
      RunsStayWithinRate(limit, pre, ip);
      before := pre[|pre| - 1].now;
    }
    NextStaysWithinRate(limit, Held(limit, pre, ip), Checked(limit, pre, ip), AcceptedBytes(limit, pre, ip),
                        FirstSeen(pre, ip), before, e, ip);
  }

  /** What checks let through in a window never exceeds the limit times its age in
      seconds, at least one. */
  lemma WindowBound(limit: nat, es: seq<Event>, ip: string)
    requires Monotone(es) && Held(limit, es, ip).Some?
    ensures Checked(limit, es, ip) <= limit * AtLeastOne(es[|es| - 1].now - Held(limit, es, ip).value.start)
  {
    RunsStayWithinRate(limit, es, ip);
  }

  /** Without unchecked updates that is all the window counts. */
  lemma {:induction false} ChecksCountEverything(limit: nat, es: seq<Event>, ip: string)
    requires forall i | 0 <= i < |es| :: es[i].Update? ==> es[i].ip != ip
    ensures Held(limit, es, ip).Some? ==> Held(limit, es, ip).value.Total() == Checked(limit, es, ip)
    decreases |es|
  {
    if es != [] {
      ChecksCountEverything(limit, es[..|es| - 1], ip);
    }
  }

  /** Across restarted and collected windows, what checks let through since an
      address was first seen never exceeds the limit times the seconds since then
      plus one. */
  lemma LifetimeBound(limit: nat, es: seq<Event>, ip: string)
    requires Monotone(es)
    ensures var first := FirstSeen(es, ip);
            if first.None? then AcceptedBytes(limit, es, ip) == 0
            else AcceptedBytes(limit, es, ip) <= limit * (es[|es| - 1].now - first.value + 1)
  {
    if es != [] {
      RunsStayWithinRate(limit, es, ip);
      var first, w, now := FirstSeen(es, ip), Held(limit, es, ip), es[|es| - 1].now;
      if first.Some? && w.Some? {
        LimitAdds(limit, AtLeastOne(now - w.value.start), w.value.start - first.value);
        LimitScales(limit, AtLeastOne(now - w.value.start) + w.value.start - first.value, now - first.value + 1);
      } else if first.Some? {
        LimitScales(limit, now - first.value, now - first.value + 1);
      }
    }
  }

  // ---------- What a window holds ----------

  /** The clock at the last lookup of `ip`. */
  function LastLookup(es: seq<Event>, ip: string): Option<int>
    decreases |es|
  {
    if es == [] then None else
    var e := es[|es| - 1];
    if !e.Collect? && e.ip == ip then Some(e.Begin()) else LastLookup(es[..|es| - 1], ip)
  }

  /** The bytes of one direction that one more event leaves in the window. */
  function CountedNext(limit: nat, w: Option<Window>, counted: nat, e: Event, ip: string, upload: bool): nat {
    if e.Collect? || e.ip != ip then counted else
    (if Restarts(w, e.Begin()) then 0 else counted) +
    (if e.upload == upload && (e.Check? ==> Accepts(w, limit, e.bytes, e.looked, e.now)) then e.bytes else 0)
  }

  /** The bytes of one direction since the window began: those of accepted checks and
      of all updates. */
  function Counted(limit: nat, es: seq<Event>, ip: string, upload: bool): nat
    decreases |es|
  {
    if es == [] then 0 else
    var pre := es[..|es| - 1];
    CountedNext(limit, Held(limit, pre, ip), Counted(limit, pre, ip, upload), es[|es| - 1], ip, upload)
  }

  /** A window counts both directions apart, and knows its last lookup. */
  lemma {:induction false} WindowHoldsItsBytes(limit: nat, es: seq<Event>, ip: string)
    ensures Held(limit, es, ip).Some? ==>
              var w := Held(limit, es, ip).value;
              && w.sent == Counted(limit, es, ip, true) && w.received == Counted(limit, es, ip, false)
              && LastLookup(es, ip) == Some(w.lastActivity)
    decreases |es|
  {
    if es != [] {
      WindowHoldsItsBytes(limit, es[..|es| - 1], ip);
    }
  }

  /** A collection forgets an address if and only if its last lookup was more than five
      minutes ago. */
  lemma CollectionForgetsIff(limit: nat, es: seq<Event>, ip: string, now: int)
    requires Held(limit, es, ip).Some?
    ensures LastLookup(es, ip).Some?
    ensures Held(limit, es + [Collect(now)], ip)
            == if now - LastLookup(es, ip).value > 300 then None else Held(limit, es, ip)
  {
    WindowHoldsItsBytes(limit, es, ip);
    assert (es + [Collect(now)])[..|es|] == es;
  }
}
