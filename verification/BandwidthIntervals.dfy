/** What the bandwidth limiter lets through in any interval of a run: the windows
    do not slide, they restart. */
module BandwidthIntervals {
  import opened Options
  import opened Bandwidth
  import opened BandwidthRuns

  /** Bytes of `ip` that checks let through in `post`, after `pre`. */
  function Gained(limit: nat, pre: seq<Event>, post: seq<Event>, ip: string): int {
    AcceptedBytes(limit, pre + post, ip) - AcceptedBytes(limit, pre, ip)
  }

  /** What one more event does. */
  lemma OneMore(limit: nat, most: seq<Event>, es: seq<Event>, e: Event, ip: string)
    requires es == most + [e]
    ensures Held(limit, es, ip) == HeldNext(limit, Held(limit, most, ip), e, ip)
    ensures Checked(limit, es, ip) == CheckedNext(limit, Held(limit, most, ip), Checked(limit, most, ip), e, ip)
    ensures AcceptedBytes(limit, es, ip) == AcceptedBytes(limit, most, ip) + GainOf(limit, Held(limit, most, ip), e, ip)
  {
    assert es[..|es| - 1] == most;
  }

  // ---------- Any interval ----------

  /** The window an interval begins in, counted from its start. */
  lemma IntervalBegins(w: Window, checked: nat, limit: nat, accepted: nat, first: Option<int>, now: int)
    requires WithinRate(Some(w), checked, limit, accepted, first, now)
    ensures WithinRate(Some(w), checked, limit, checked, Some(w.start), now)
  {
  }

  lemma OneMoreStaysWithinRate(limit: nat, most: seq<Event>, es: seq<Event>, e: Event, ip: string, accepted: nat,
                               start: int)
    requires most != [] && es == most + [e] && most[|most| - 1].now <= e.Begin() <= e.now
    requires WithinRate(Held(limit, most, ip), Checked(limit, most, ip), limit, accepted, Some(start),
                        most[|most| - 1].now)
    ensures AcceptedBytes(limit, es, ip) >= AcceptedBytes(limit, most, ip)
    ensures WithinRate(Held(limit, es, ip), Checked(limit, es, ip), limit,
                       accepted + AcceptedBytes(limit, es, ip) - AcceptedBytes(limit, most, ip), Some(start), e.now)
  {
    OneMore(limit, most, es, e, ip);
    NextStaysWithinRate(limit, Held(limit, most, ip), Checked(limit, most, ip), accepted, Some(start),
                        most[|most| - 1].now, e, ip);
    assert FirstNext(Some(start), e, ip) == Some(start);
    assert accepted + AcceptedBytes(limit, es, ip) - AcceptedBytes(limit, most, ip)
        == accepted + GainOf(limit, Held(limit, most, ip), e, ip);
  }

  lemma {:induction false} IntervalStaysWithinRate(limit: nat, pre: seq<Event>, es: seq<Event>, ip: string)
    requires pre <= es && Monotone(es) && Monotone(pre) && Held(limit, pre, ip).Some?
    ensures AcceptedBytes(limit, es, ip) >= AcceptedBytes(limit, pre, ip)
    ensures WithinRate(Held(limit, es, ip), Checked(limit, es, ip), limit,
                       AcceptedBytes(limit, es, ip) - AcceptedBytes(limit, pre, ip) + Checked(limit, pre, ip),
                       Some(Held(limit, pre, ip).value.start), es[|es| - 1].now)
    decreases |es|
  {
    var start := Held(limit, pre, ip).value.start;
    if es == pre {
      RunsStayWithinRate(limit, pre, ip);
      IntervalBegins(Held(limit, pre, ip).value, Checked(limit, pre, ip), limit, AcceptedBytes(limit, pre, ip),
                     FirstSeen(pre, ip), pre[|pre| - 1].now);
    } else {
      var most, e := es[..|es| - 1], es[|es| - 1];
      IntervalStaysWithinRate(limit, pre, most, ip);
      OneMoreStaysWithinRate(limit, most, es, e, ip,
                             AcceptedBytes(limit, most, ip) - AcceptedBytes(limit, pre, ip) + Checked(limit, pre, ip),
                             start);
    }
  }

  /** From any point of a run on, checks let through no more than the limit times
      the age of the window of that point, less what that window had let through
      before. */
  lemma IntervalBound(limit: nat, pre: seq<Event>, post: seq<Event>, ip: string)
    requires Monotone(pre + post) && Held(limit, pre, ip).Some?
    ensures var now := (pre + post)[|pre + post| - 1].now;
            Gained(limit, pre, post, ip) + Checked(limit, pre, ip)
            <= limit * (now - Held(limit, pre, ip).value.start + 1)
  {
    MonotonePrefix(pre, pre + post);
    IntervalStaysWithinRate(limit, pre, pre + post, ip);
    var first, w := Held(limit, pre, ip).value.start, Held(limit, pre + post, ip);
    var now := (pre + post)[|pre + post| - 1].now;
    if w.Some? {
      LimitAdds(limit, AtLeastOne(now - w.value.start), w.value.start - first);
      LimitScales(limit, AtLeastOne(now - w.value.start) + w.value.start - first, now - first + 1);
    } else {
      LimitScales(limit, now - first, now - first + 1);
    }
  }

  // ---------- Sixty seconds ----------

  /** All of it happens within the sixty seconds that begin at `from`. */
  predicate InSixty(es: seq<Event>, from: int) {
    forall i | 0 <= i < |es| :: from <= es[i].Begin() && es[i].now <= from + 59
  }

  /** `post` goes on from `pre` within those sixty seconds. */
  predicate Continues(pre: seq<Event>, post: seq<Event>, from: int) {
    Monotone(pre + post) && InSixty(post, from)
  }

  /** What the window at `from` can still let through in its sixty seconds. */
  function Room(w: Option<Window>, limit: nat, from: int): nat {
    if Restarts(w, from) || w.value.Total() >= limit * 59 then 0 else limit * 59 - w.value.Total()
  }

  /** What one more check can add to a full window when it is looked up in the last
      second of the window but its rate is taken `u` seconds after the start. */
  function Straddling(limit: nat, u: int): (bytes: nat)
    requires u >= 60
    ensures bytes <= limit
  {
    QuotientAtMost(limit * 59, limit, u);
    limit - limit * 59 / u
  }

  /** Still in the window of `from`. */
  predicate InOld(was: Option<Window>, limit: nat, from: int, w: Option<Window>, gained: int) {
    && gained <= Room(was, limit, from)
    && if Restarts(was, from) then Restarts(w, from)
       else w.Some? && w.value.start == was.value.start && w.value.Total() >= was.value.Total() + gained
  }

  /** In that window, after a check that was looked up in time but rated too late. */
  predicate PastOld(was: Option<Window>, limit: nat, from: int, now: int, w: Option<Window>, gained: int) {
    && !Restarts(was, from) && w.Some? && w.value.start == was.value.start && now >= was.value.start + 60
    && gained <= Room(was, limit, from) + Straddling(limit, now - was.value.start)
  }

  /** In the window after it. */
  predicate InNext(was: Option<Window>, limit: nat, from: int, w: Option<Window>, checked: nat, gained: int) {
    w.Some? &&
    if Restarts(was, from) then w.value.start >= from && gained <= checked
    else
      && w.value.start >= was.value.start + 60
      && gained <= Room(was, limit, from) + Straddling(limit, w.value.start - was.value.start) + checked
  }

  /** Where a continuation stands at `now`. */
  predicate Accounted(was: Option<Window>, limit: nat, from: int, now: int, w: Option<Window>, checked: nat,
                      gained: int) {
    || InOld(was, limit, from, w, gained)
    || PastOld(was, limit, from, now, w, gained)
    || InNext(was, limit, from, w, checked, gained)
  }

  // ---------- Quotients ----------

  lemma QuotientReaches(total: nat, limit: nat, d: int)
    requires d >= 1 && total >= limit * d
    ensures total / d >= limit
  {
    var q := total / d;
    if q < limit {
      LimitScales(d, q + 1, limit);
      LimitAdds(d, q, 1);
    }
  }

  lemma QuotientAtMost(total: nat, limit: nat, d: int)
    requires d >= 59 && total <= limit * 59
    ensures total / d <= limit
  {
    var q := total / d;
    if q > limit {
      LimitScales(d, limit + 1, q);
      LimitScales(limit, 59, d);
      LimitAdds(d, limit, 1);
    }
  }

  /** A larger divisor gives no larger quotient. */
  lemma QuotientShrinks(total: nat, d: int, e: int)
    requires 1 <= d <= e
    ensures total / e <= total / d
  {
    var q := total / e;
    LimitScales(q, d, e);
    QuotientReaches(total, q, d);
  }

  /** A larger dividend gives no smaller quotient, and grows at least as fast. */
  lemma QuotientGrows(total: nat, more: nat, d: int)
    requires d >= 1
    ensures total / d <= (total + more) / d <= total / d + more
  {
    var q, r := total / d, (total + more) / d;
    QuotientReaches(total + more, q, d);
    if r > q + more {
      LimitScales(d, q + more + 1, r);
      LimitAdds(d, q + 1, more);
      LimitAdds(d, q, 1);
      LimitScales(more, 1, d);
    }
  }

  lemma StraddlingGrows(limit: nat, u: int, v: int)
    requires 60 <= u <= v
    ensures Straddling(limit, u) <= Straddling(limit, v)
  {
    QuotientShrinks(limit * 59, u, v);
  }

  // ---------- One step ----------

  /** What is accepted in time leaves the window within the rate. */
  lemma AcceptedFits(total: nat, limit: nat, bytes: nat, d: int)
    requires 1 <= d <= 59 && total / d + bytes <= limit && bytes > 0
    ensures total + bytes <= limit * 59
  {
    if total > limit * d {
      QuotientReaches(total, limit, d);
    } else {
      FittingStaysWithinRate(total, total, limit, bytes, d);
      LimitScales(limit, d, 59);
    }
  }

  /** What is accepted late adds no more than it adds to a full window. */
  lemma AcceptedLate(was: Option<Window>, limit: nat, from: int, total: nat, gained: int, bytes: nat, u: int)
    requires !Restarts(was, from) && was.value.Total() + gained <= total && gained <= Room(was, limit, from)
    requires u >= 60 && total / u + bytes <= limit
    ensures gained + bytes <= Room(was, limit, from) + Straddling(limit, u)
  {
    if total <= limit * 59 {
      QuotientGrows(total, limit * 59 - total, u);
    } else {
      QuotientGrows(limit * 59, total - limit * 59, u);
    }
  }

  /** The step of a check that finds the window of `from`. */
  lemma CheckInOld(was: Option<Window>, limit: nat, from: int, w: Window, gained: int, e: Event)
    requires e.Check? && !Restarts(was, from) && InOld(was, limit, from, Some(w), gained)
    requires w.start <= e.looked <= e.now && !Restarts(Some(w), e.looked)
    ensures var t, g := HeldNext(limit, Some(w), e, e.ip), gained + GainOf(limit, Some(w), e, e.ip);
            InOld(was, limit, from, t, g) || PastOld(was, limit, from, e.now, t, g)
  {
    var c := Current(Some(w), e.looked);
    if GainOf(limit, Some(w), e, e.ip) > 0 {
      assert Add(c, e.bytes, e.upload).Total() == w.Total() + e.bytes;
      if e.now - w.start <= 59 {
        AcceptedFits(w.Total(), limit, e.bytes, Duration(c, e.now));
      } else {
        AcceptedLate(was, limit, from, w.Total(), gained, e.bytes, e.now - w.start);
      }
    }
  }

  /** The step of a lookup that restarts the window. */
  lemma RestartLeavesOld(was: Option<Window>, limit: nat, from: int, before: int, w: Option<Window>, gained: int,
                         now: int)
    requires InOld(was, limit, from, w, gained) || PastOld(was, limit, from, before, w, gained)
    requires before <= now && from <= now && Restarts(w, now)
    ensures InNext(was, limit, from, Some(Window(0, 0, now, now)), 0, gained)
  {
    if PastOld(was, limit, from, before, w, gained) {
      StraddlingGrows(limit, before - was.value.start, now - was.value.start);
    }
  }

  lemma NextStaysAccounted(was: Option<Window>, limit: nat, from: int, before: int, w: Option<Window>, checked: nat,
                           gained: int, e: Event, ip: string)
    requires Accounted(was, limit, from, before, w, checked, gained)
    requires from <= e.Begin() && before <= e.Begin() <= e.now <= from + 59
    requires w.Some? ==> w.value.start <= w.value.lastActivity <= e.Begin()
    ensures Accounted(was, limit, from, e.now, HeldNext(limit, w, e, ip), CheckedNext(limit, w, checked, e, ip),
                      gained + GainOf(limit, w, e, ip))
  {
    if PastOld(was, limit, from, before, w, gained) {
      StraddlingGrows(limit, before - was.value.start, e.now - was.value.start);
    }
    if !InNext(was, limit, from, w, checked, gained) && !e.Collect? && e.ip == ip {
      if Restarts(w, e.Begin()) {
        RestartLeavesOld(was, limit, from, before, w, gained, e.Begin());
      } else if e.Check? {
        CheckInOld(was, limit, from, w.value, gained, e);
      }
    }
  }

  lemma OneMoreStaysAccounted(limit: nat, was: Option<Window>, most: seq<Event>, es: seq<Event>, e: Event, from: int,
                              before: int, ip: string, gained: int)
    requires Accounted(was, limit, from, before, Held(limit, most, ip), Checked(limit, most, ip), gained)
    requires es == most + [e] && from <= e.Begin() && before <= e.Begin() <= e.now <= from + 59
    requires var w := Held(limit, most, ip); w.Some? ==> w.value.start <= w.value.lastActivity <= e.Begin()
    ensures Accounted(was, limit, from, e.now, Held(limit, es, ip), Checked(limit, es, ip),
                      gained + AcceptedBytes(limit, es, ip) - AcceptedBytes(limit, most, ip))
  {
    OneMore(limit, most, es, e, ip);
    NextStaysAccounted(was, limit, from, before, Held(limit, most, ip), Checked(limit, most, ip), gained, e, ip);
  }

  function LastNow(pre: seq<Event>, es: seq<Event>, from: int): int {
    if |es| <= |pre| then from else es[|es| - 1].now
  }

  lemma {:induction false} ContinuationsStayAccounted(limit: nat, pre: seq<Event>, es: seq<Event>, from: int,
                                                      ip: string)
    requires pre <= es && Monotone(es)
    requires forall i | |pre| <= i < |es| :: from <= es[i].Begin() && es[i].now <= from + 59
    ensures Accounted(Held(limit, pre, ip), limit, from, LastNow(pre, es, from), Held(limit, es, ip),
                      Checked(limit, es, ip), AcceptedBytes(limit, es, ip) - AcceptedBytes(limit, pre, ip))
    decreases |es|
  {
    if es != pre {
      var most, e := es[..|es| - 1], es[|es| - 1];
      ContinuationsStayAccounted(limit, pre, most, from, ip);
      if most != [] {
        RunsStayWithinRate(limit, most, ip);
      }
      OneMoreStaysAccounted(limit, Held(limit, pre, ip), most, es, e, from, LastNow(pre, most, from), ip,
                            AcceptedBytes(limit, most, ip) - AcceptedBytes(limit, pre, ip));
    }
  }

  // ---------- The most ----------

  /** What can come after a window that is `d` seconds old when the sixty seconds begin:
      a check that straddles its end, and the window that is started next. When two
      seconds are left for both, waiting one of them lets the straddling check add
      more and costs nothing. */
  function AfterWindow(limit: nat, d: int): nat {
    if d < 1 then 0
    else if d == 2 then Straddling(limit, 61) + limit
    else Straddling(limit, 60) + limit * AtLeastOne(d - 1)
  }

  /** What sixty seconds can let through. */
  function MostInSixty(w: Option<Window>, limit: nat, from: int): nat {
    if Restarts(w, from) then limit * 59
    else Room(w, limit, from) + AfterWindow(limit, from - w.value.start)
  }

  /** However late the next window starts, it does not make up for it. */
  lemma StartingLateGainsNothing(limit: nat, d: int, u: int, age: int)
    requires d <= 59 && 60 <= u && u + age <= d + 59 && age >= 0
    ensures Straddling(limit, u) + limit * AtLeastOne(age) <= AfterWindow(limit, d)
  {
    if d == 2 {
      StraddlingGrows(limit, u, 61);
    } else if u > 60 {
      LimitScales(limit, AtLeastOne(age), d - 2);
      LimitAdds(limit, d - 2, 1);
    } else {
      LimitScales(limit, AtLeastOne(age), AtLeastOne(d - 1));
    }
  }

  lemma AccountedStaysWithin(was: Option<Window>, limit: nat, from: int, now: int, w: Option<Window>, checked: nat,
                             gained: int)
    requires Accounted(was, limit, from, now, w, checked, gained) && now <= from + 59
    requires w.Some? ==> w.value.start <= now && checked <= limit * AtLeastOne(now - w.value.start)
    ensures gained <= MostInSixty(was, limit, from)
  {
    if InNext(was, limit, from, w, checked, gained) {
      var age := now - w.value.start;
      if Restarts(was, from) {
        LimitScales(limit, AtLeastOne(age), 59);
      } else {
        StartingLateGainsNothing(limit, from - was.value.start, w.value.start - was.value.start, age);
      }
    } else if PastOld(was, limit, from, now, w, gained) {
      StartingLateGainsNothing(limit, from - was.value.start, now - was.value.start, 0);
    }
  }

  lemma MonotonePrefix(pre: seq<Event>, es: seq<Event>)
    requires pre <= es && Monotone(es)
    ensures Monotone(pre)
    decreases |es|
  {
    if pre != es {
      MonotonePrefix(pre, es[..|es| - 1]);
    }
  }

  /** Sixty seconds that begin anywhere in a run let through no more than that. */
  lemma SixtySecondsBound(limit: nat, pre: seq<Event>, post: seq<Event>, from: int, ip: string)
    requires Continues(pre, post, from)
    ensures Gained(limit, pre, post, ip) <= MostInSixty(Held(limit, pre, ip), limit, from)
  {
    if post == [] {
      assert pre + post == pre;
    } else {
      ContinuationsStayAccounted(limit, pre, pre + post, from, ip);
      RunsStayWithinRate(limit, pre + post, ip);
      assert (pre + post)[|pre + post| - 1] == post[|post| - 1];
      AccountedStaysWithin(Held(limit, pre, ip), limit, from, post[|post| - 1].now, Held(limit, pre + post, ip),
                           Checked(limit, pre + post, ip), Gained(limit, pre, post, ip));
    }
  }

  // ---------- The most is reached ----------

  /** `n` checks of one byte. */
  function Bytewise(ip: string, n: nat, now: int): (es: seq<Event>)
    ensures |es| == n && forall i | 0 <= i < n :: es[i] == Check(ip, 1, true, now, now)
  {
    seq(n, _ => Check(ip, 1, true, now, now))
  }

  lemma OneByteFits(limit: nat, w: Window, ip: string, d: nat)
    requires 1 <= d <= 59 && w.Total() < limit * d
    ensures var e := Check(ip, 1, true, w.start + d, w.start + d);
            && GainOf(limit, Some(w), e, ip) == 1
            && HeldNext(limit, Some(w), e, ip) == Some(Window(w.sent + 1, w.received, w.start, w.start + d))
  {
    RoomForOne(w.Total(), limit, d);
    assert Duration(w, w.start + d) == d;
  }

  lemma RoomForOne(total: nat, limit: nat, d: int)
    requires d >= 1 && total < limit * d
    ensures total / d + 1 <= limit
  {
  }

  lemma MonotoneNext(most: seq<Event>, e: Event, es: seq<Event>)
    requires es == most + [e] && Monotone(most) && e.Begin() <= e.now
    requires most != [] ==> most[|most| - 1].now <= e.Begin()
    ensures Monotone(es)
  {
    assert es[..|es| - 1] == most;
  }

  lemma {:induction false} BytewiseIsMonotone(pre: seq<Event>, ip: string, n: nat, now: int, es: seq<Event>)
    requires es == pre + Bytewise(ip, n, now)
    requires Monotone(pre) && (pre != [] ==> pre[|pre| - 1].now <= now)
    ensures Monotone(es) && (es != [] ==> es[|es| - 1].now <= now)
  {
    if n == 0 {
      assert es == pre;
    } else {
      assert es[..|es| - 1] == pre + Bytewise(ip, n - 1, now);
      BytewiseIsMonotone(pre, ip, n - 1, now, es[..|es| - 1]);
    }
  }

  lemma OneMoreByte(limit: nat, most: seq<Event>, es: seq<Event>, ip: string, d: nat, w: Window)
    requires es == most + [Check(ip, 1, true, w.start + d, w.start + d)] && Held(limit, most, ip) == Some(w)
    requires 1 <= d <= 59 && w.Total() < limit * d
    ensures AcceptedBytes(limit, es, ip) == AcceptedBytes(limit, most, ip) + 1
    ensures Held(limit, es, ip) == Some(Window(w.sent + 1, w.received, w.start, w.start + d))
  {
    OneMore(limit, most, es, Check(ip, 1, true, w.start + d, w.start + d), ip);
    OneByteFits(limit, w, ip, d);
  }

  /** One byte at a time, a window of `d` seconds can be filled up to the limit times
      its age. */
  lemma {:induction false} BytewiseFills(limit: nat, pre: seq<Event>, ip: string, n: nat, now: int, d: nat, w: Window,
                                         es: seq<Event>)
    returns (after: Window)
    requires es == pre + Bytewise(ip, n, now) && Held(limit, pre, ip) == Some(w)
    requires now == w.start + d && (n == 0 || (1 <= d <= 59 && w.Total() + n <= limit * d))
    ensures AcceptedBytes(limit, es, ip) == AcceptedBytes(limit, pre, ip) + n
    ensures Held(limit, es, ip) == Some(after) && after.start == w.start && after.Total() == w.Total() + n
  {
    if n == 0 {
      assert es == pre;
      after := w;
    } else {
      var most := es[..|es| - 1];
      assert most == pre + Bytewise(ip, n - 1, now);
      var before := BytewiseFills(limit, pre, ip, n - 1, now, d, w, most);
      OneMoreByte(limit, most, es, ip, d, before);
      after := Window(before.sent + 1, before.received, before.start, now);
    }
  }

  /** A check that straddles the end of a full window. */
  lemma StraddlingIsAdded(limit: nat, most: seq<Event>, es: seq<Event>, ip: string, u: int, w: Window)
    requires u >= 60 && es == most + [Check(ip, Straddling(limit, u), true, w.start + 59, w.start + u)]
    requires Held(limit, most, ip) == Some(w) && w.Total() == limit * 59
    ensures AcceptedBytes(limit, es, ip) == AcceptedBytes(limit, most, ip) + Straddling(limit, u)
    ensures Held(limit, es, ip).Some? && Held(limit, es, ip).value.start == w.start
  {
    OneMore(limit, most, es, Check(ip, Straddling(limit, u), true, w.start + 59, w.start + u), ip);
    StraddlingFits(limit, u, w);
  }

  lemma StraddlingFits(limit: nat, u: int, w: Window)
    requires u >= 60 && w.Total() == limit * 59
    ensures Accepts(Some(w), limit, Straddling(limit, u), w.start + 59, w.start + u)
  {
    assert Duration(Current(Some(w), w.start + 59), w.start + u) == u;
  }

  /** A check of all the limit allows restarts the window. */
  lemma RestartIsAdded(limit: nat, most: seq<Event>, es: seq<Event>, ip: string, now: int)
    requires es == most + [Check(ip, limit, true, now, now)] && Restarts(Held(limit, most, ip), now)
    ensures AcceptedBytes(limit, es, ip) == AcceptedBytes(limit, most, ip) + limit
    ensures Held(limit, es, ip) == Some(Window(limit, 0, now, now))
  {
    OneMore(limit, most, es, Check(ip, limit, true, now, now), ip);
  }

  /** A check that straddles the end of a window until `next`, and one that starts the
      next window there. */
  function Turn(limit: nat, extra: nat, ip: string, last: int, next: int): (es: seq<Event>)
    ensures |es| == 2
  {
    [Check(ip, extra, true, last, next), Check(ip, limit, true, next, next)]
  }

  lemma TurnIsMonotone(limit: nat, extra: nat, pre: seq<Event>, ip: string, last: int, next: int, es: seq<Event>)
    requires es == pre + Turn(limit, extra, ip, last, next) && last <= next
    requires Monotone(pre) && (pre != [] ==> pre[|pre| - 1].now <= last)
    ensures Monotone(es) && es != [] && es[|es| - 1].now == next
  {
    var turn := Turn(limit, extra, ip, last, next);
    MonotoneNext(pre, turn[0], pre + [turn[0]]);
    MonotoneNext(pre + [turn[0]], turn[1], es);
  }

  lemma TurnGains(limit: nat, pre: seq<Event>, ip: string, u: int, w: Window, last: int, next: int, extra: nat,
                  es: seq<Event>)
    requires u >= 60 && last == w.start + 59 && next == w.start + u && extra == Straddling(limit, u)
    requires es == pre + Turn(limit, extra, ip, last, next)
    requires Held(limit, pre, ip) == Some(w) && w.Total() == limit * 59
    ensures AcceptedBytes(limit, es, ip) == AcceptedBytes(limit, pre, ip) + extra + limit
    ensures Held(limit, es, ip) == Some(Window(limit, 0, next, next))
  {
    var turn := Turn(limit, extra, ip, last, next);
    StraddlingIsAdded(limit, pre, pre + [turn[0]], ip, u, w);
    assert es == pre + [turn[0]] + [turn[1]];
    RestartIsAdded(limit, pre + [turn[0]], es, ip, next);
  }

  lemma ThreeInSixty(a: seq<Event>, b: seq<Event>, c: seq<Event>, from: int)
    requires InSixty(a, from) && InSixty(b, from) && InSixty(c, from)
    ensures InSixty(a + b + c, from)
  {
  }

  lemma BytewiseInSixty(ip: string, n: nat, now: int, from: int)
    requires from <= now <= from + 59
    ensures InSixty(Bytewise(ip, n, now), from)
  {
  }

  lemma TurnInSixty(limit: nat, extra: nat, ip: string, last: int, next: int, from: int)
    requires from <= last <= next <= from + 59
    ensures InSixty(Turn(limit, extra, ip, last, next), from)
  {
  }

  lemma ThreeParts(pre: seq<Event>, a: seq<Event>, b: seq<Event>, c: seq<Event>)
    ensures pre + (a + b + c) == pre + a + b + c
  {
  }

  /** Filling a window in its last second, turning to the next one, and filling that
      `later`: it goes on from `pre`, and within sixty seconds. */
  lemma FillTwiceIsMonotone(limit: nat, pre: seq<Event>, ip: string, n: nat, extra: nat, m: nat, last: int, next: int,
                            later: int)
    requires Monotone(pre) && (pre != [] ==> pre[|pre| - 1].now <= last) && last <= next <= later
    ensures Monotone(pre + Bytewise(ip, n, last) + Turn(limit, extra, ip, last, next) + Bytewise(ip, m, later))
  {
    var first := pre + Bytewise(ip, n, last);
    var second := first + Turn(limit, extra, ip, last, next);
    BytewiseIsMonotone(pre, ip, n, last, first);
    TurnIsMonotone(limit, extra, first, ip, last, next, second);
    BytewiseIsMonotone(second, ip, m, later, second + Bytewise(ip, m, later));
  }

  lemma FillTwiceIsInSixty(limit: nat, ip: string, n: nat, extra: nat, m: nat, last: int, next: int, later: int,
                           from: int)
    requires from <= last <= next <= later <= from + 59
    ensures InSixty(Bytewise(ip, n, last) + Turn(limit, extra, ip, last, next) + Bytewise(ip, m, later), from)
  {
    BytewiseInSixty(ip, n, last, from);
    TurnInSixty(limit, extra, ip, last, next, from);
    BytewiseInSixty(ip, m, later, from);
    ThreeInSixty(Bytewise(ip, n, last), Turn(limit, extra, ip, last, next), Bytewise(ip, m, later), from);
  }

  /** It gains what was left, what straddles, and what the next window allows. */
  lemma FillTwiceGains(limit: nat, pre: seq<Event>, ip: string, w: Window, n: nat, u: int, extra: nat, m: nat, age: nat,
                       last: int, next: int, later: int, a: seq<Event>, b: seq<Event>, c: seq<Event>)
    requires u >= 60 && last == w.start + 59 && next == w.start + u && later == next + age
    requires a == Bytewise(ip, n, last) && b == Turn(limit, extra, ip, last, next) && c == Bytewise(ip, m, later)
    requires extra == Straddling(limit, u) && Held(limit, pre, ip) == Some(w) && w.Total() + n == limit * 59
    requires m == 0 || (1 <= age <= 59 && limit + m <= limit * age)
    ensures Gained(limit, pre, a + b + c, ip) == n + extra + limit + m
  {
    var started := Window(limit, 0, next, next);
    assert started.Total() == limit;
    var full := BytewiseFills(limit, pre, ip, n, last, 59, w, pre + a);
    TurnGains(limit, pre + a, ip, u, full, last, next, extra, pre + a + b);
    var refilled := BytewiseFills(limit, pre + a + b, ip, m, later, age, started, pre + a + b + c);
    ThreeParts(pre, a, b, c);
  }

  /** From a window that has not been filled and is a second old, the most there can be
      is reached. */
  lemma MostIsReached(limit: nat, pre: seq<Event>, from: int, ip: string, w: Window) returns (post: seq<Event>)
    requires Monotone(pre) && (pre != [] ==> pre[|pre| - 1].now <= from) && Held(limit, pre, ip) == Some(w)
    requires 1 <= from - w.start <= 59 && w.Total() <= limit * 59
    ensures Continues(pre, post, from) && Gained(limit, pre, post, ip) == MostInSixty(Some(w), limit, from)
  {
    var n, m, u, age := FillTwiceSizes(limit, from, w);
    var last, next, extra := w.start + 59, w.start + u, Straddling(limit, u);
    var a, b, c := Bytewise(ip, n, last), Turn(limit, extra, ip, last, next), Bytewise(ip, m, next + age);
    post := a + b + c;
    FillTwiceIsMonotone(limit, pre, ip, n, extra, m, last, next, next + age);
    FillTwiceIsInSixty(limit, ip, n, extra, m, last, next, next + age, from);
    ThreeParts(pre, a, b, c);
    FillTwiceGains(limit, pre, ip, w, n, u, extra, m, age, last, next, next + age, a, b, c);
  }

  lemma FillTwiceSizes(limit: nat, from: int, w: Window) returns (n: nat, m: nat, u: int, age: nat)
    requires 1 <= from - w.start <= 59 && w.Total() <= limit * 59
    ensures w.Total() + n == limit * 59 && 60 <= u && w.start + u + age == from + 59
    ensures m == 0 || (1 <= age <= 59 && limit + m <= limit * age)
    ensures n + Straddling(limit, u) + limit + m == MostInSixty(Some(w), limit, from)
  {
    var d := from - w.start;
    u, age := if d == 2 then 61 else 60, if d == 2 then 0 else d - 1;
    LimitScales(limit, 1, AtLeastOne(age));
    n, m := limit * 59 - w.Total(), limit * AtLeastOne(age) - limit;
  }

  // ---------- When the window slides ----------

  /** What a window must have counted after `d` seconds, so that the next sixty cannot
      exceed sixty times the limit. */
  function Needed(limit: nat, d: int): int {
    if d < 1 then 0
    else if d == 2 then limit - limit * 59 / 61
    else limit * AtLeastOne(d - 1) - limit * 59 / 60
  }

  predicate SlidesFrom(w: Option<Window>, limit: nat, from: int) {
    Restarts(w, from) || w.value.Total() >= Needed(limit, from - w.value.start)
  }

  lemma SlidingIff(w: Option<Window>, limit: nat, from: int)
    ensures MostInSixty(w, limit, from) <= 60 * limit <==> SlidesFrom(w, limit, from)
    ensures !SlidesFrom(w, limit, from) ==> 1 <= from - w.value.start && w.value.Total() <= limit * 59
  {
    if !Restarts(w, from) {
      var d := from - w.value.start;
      LimitScales(limit, AtLeastOne(d - 1), 58);
      QuotientAtMost(limit * 59, limit, 60);
      QuotientAtMost(limit * 59, limit, 61);
    }
  }

  /** From any point of a run on, every sixty seconds stay within sixty times the
      limit if and only if the window of that point would have to restart, or began in
      this second, or has counted what is needed for its age. */
  lemma SixtySecondsIff(limit: nat, pre: seq<Event>, from: int, ip: string)
    requires Monotone(pre) && (pre != [] ==> pre[|pre| - 1].now <= from)
    ensures (forall post | Continues(pre, post, from) :: Gained(limit, pre, post, ip) <= 60 * limit)
            <==> SlidesFrom(Held(limit, pre, ip), limit, from)
  {
    var held := Held(limit, pre, ip);
    SlidingIff(held, limit, from);
    if SlidesFrom(held, limit, from) {
      forall post | Continues(pre, post, from)
        ensures Gained(limit, pre, post, ip) <= 60 * limit
      {
        SixtySecondsBound(limit, pre, post, from, ip);
      }
    } else {
      var post := MostIsReached(limit, pre, from, ip, held.value);
    }
  }

  /** The window does not slide: whatever the limit, an address seen once and then
      again in the last second of its window gets this much in sixty seconds, more
      than 117 times the limit. */
  lemma WindowDoesNotSlide(limit: nat, ip: string, start: int) returns (post: seq<Event>)
    ensures Continues([Check(ip, 0, true, start, start)], post, start + 59)
    ensures Gained(limit, [Check(ip, 0, true, start, start)], post, ip) == 118 * limit - limit * 59 / 60
  {
    var pre := [Check(ip, 0, true, start, start)];
    assert pre == [] + pre;
    MonotoneNext([], pre[0], pre);
    OneMore(limit, [], pre, pre[0], ip);
    post := MostIsReached(limit, pre, start + 59, ip, Window(0, 0, start, start));
  }

  /** That is the most there can be in any sixty seconds of any run. */
  lemma SixtySecondsAtMost(limit: nat, pre: seq<Event>, post: seq<Event>, from: int, ip: string)
    requires Continues(pre, post, from)
    ensures Gained(limit, pre, post, ip) <= 118 * limit - limit * 59 / 60
  {
    SixtySecondsBound(limit, pre, post, from, ip);
    MostIsAtMost(Held(limit, pre, ip), limit, from);
  }

  lemma MostIsAtMost(w: Option<Window>, limit: nat, from: int)
    ensures MostInSixty(w, limit, from) <= 118 * limit - limit * 59 / 60
  {
    QuotientAtMost(limit * 59, limit, 60);
    if !Restarts(w, from) {
      LimitScales(limit, AtLeastOne(from - w.value.start - 1), 58);
    }
  }
}
