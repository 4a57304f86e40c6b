/** The due-time scheduler: `ikcp_update`, `ikcp_check`, and the tick that skips updates until due.

    Real time is an unbounded count of milliseconds; the code sees its low 32 bits. */
module Schedule {
  import opened Common
  import opened SerialNumbers

  const DRIFT: int := 10000
  const FAR: int := 0x7fff_ffff
  const MAX_WAIT: int := 1000

  /** The fields of the control block that decide when to flush. */
  datatype Timer = Timer(updated: bool, tsFlush: u32, interval: u32)

  predicate TimerOk(t: Timer) {
    10 <= t.interval <= 5000
  }

  function Low(x: int): u32 {
    x % TWO32
  }

  /** `ikcp_update`: the timer afterwards, and whether it flushed. */
  function TimerUpdate(t: Timer, now: u32): (Timer, bool) {
    var ts := if !t.updated then now else t.tsFlush;
    var far := Diff(Wrapping, now, ts) >= DRIFT || Diff(Wrapping, now, ts) < -DRIFT;
    var base := if far then now else ts;
    if Diff(Wrapping, now, base) < 0 then (t.(updated := true, tsFlush := base), false)
    else
      var next := Low(base + t.interval);
      (t.(updated := true, tsFlush := if Diff(Wrapping, now, next) >= 0 then Low(now + t.interval) else next), true)
  }

  /** The least remaining time to a retransmission, `FAR` if there is none. */
  function PacketDelay(resend: seq<u32>, now: u32): (r: int)
    ensures r <= FAR
  {
    if resend == [] then FAR
    else
      var d, rest := Diff(Wrapping, resend[0], now), PacketDelay(resend[1..], now);
      if d < rest then d else rest
  }

  /** `ikcp_check`. */
  function DueTime(t: Timer, resend: seq<u32>, now: u32): u32 {
    if !t.updated then now
    else
      var delta := Diff(Wrapping, now, t.tsFlush);
      if delta >= 0 || delta < -DRIFT then now
      else
        var packet := PacketDelay(resend, now);
        if packet <= 0 then now
        else Low(now + Min(Min(packet, Diff(Wrapping, t.tsFlush, now)), t.interval))
  }

  lemma {:induction false} PacketDelaySnoc(resend: seq<u32>, x: u32, now: u32)
    ensures PacketDelay(resend + [x], now) == Min(PacketDelay(resend, now), Diff(Wrapping, x, now))
  {
    if resend == [] {
      assert (resend + [x])[1..] == [];
    } else {
      assert (resend + [x])[1..] == resend[1..] + [x];
      PacketDelaySnoc(resend[1..], x, now);
    }
  }

  lemma {:induction false} PacketDelayBound(resend: seq<u32>, i: nat, now: u32)
    requires i < |resend|
    ensures PacketDelay(resend, now) <= Diff(Wrapping, resend[i], now)
  {
    if i > 0 {
      PacketDelayBound(resend[1..], i - 1, now);
    }
  }

  /** The timer part of the control block as the C code keeps it. */
  class Clock {
    var updated: bool
    var tsFlush: u32
    const interval: u32

    ghost function Model(): Timer
      reads this
    {
      Timer(updated, tsFlush, interval)
    }

    constructor (interval: u32)
      ensures Model() == Timer(false, interval, interval)
    {
      updated, tsFlush, this.interval := false, interval, interval;
    }

    method Update(now: u32) returns (flush: bool)
      modifies this
      ensures (Model(), flush) == TimerUpdate(old(Model()), now)
    {
      if !updated {
        updated, tsFlush := true, now;
      }
      var slap := Diff(Wrapping, now, tsFlush);
      if slap >= DRIFT || slap < -DRIFT {
        tsFlush, slap := now, 0;
      }
      flush := slap >= 0;
      if flush {
        tsFlush := (tsFlush + interval) % TWO32;
        if Diff(Wrapping, now, tsFlush) >= 0 {
          tsFlush := (now + interval) % TWO32;
        }
      }
    }

    method Check(resend: seq<u32>, now: u32) returns (next: u32)
      ensures next == DueTime(Model(), resend, now)
    {
      if !updated {
        return now;
      }
      var ts := tsFlush;
      if Diff(Wrapping, now, ts) >= DRIFT || Diff(Wrapping, now, ts) < -DRIFT {
        ts := now;
      }
      if Diff(Wrapping, now, ts) >= 0 {
        return now;
      }
      var tmFlush := Diff(Wrapping, ts, now);
      var tmPacket := FAR;
      var p := 0;
      while p < |resend|
        invariant 0 <= p <= |resend|
        invariant tmPacket == PacketDelay(resend[..p], now) > 0
      {
        var diff := Diff(Wrapping, resend[p], now);
        PacketDelaySnoc(resend[..p], resend[p], now);
        assert resend[..p] + [resend[p]] == resend[..p + 1];
        if diff <= 0 {
          PacketDelayBound(resend, p, now);
          return now;
        }
        if diff < tmPacket {
          tmPacket := diff;
        }
        p := p + 1;
      }
      assert resend[..p] == resend;
      var minimal := if tmPacket < tmFlush then tmPacket else tmFlush;
      if minimal >= interval {
        minimal := interval;
      }
      next := (now + minimal) % TWO32;
    }
  }

  /** After a flush the next one lies in the future, at most one interval away. */
  lemma FlushSchedulesNext(t: Timer, now: u32)
    requires TimerOk(t) && TimerUpdate(t, now).1
    ensures 0 < Diff(Wrapping, TimerUpdate(t, now).0.tsFlush, now) <= t.interval
  {
    var ts := if !t.updated then now else t.tsFlush;
    var d := Diff(Wrapping, now, ts);
    var base := if d >= DRIFT || d < -DRIFT then now else ts;
    NextFlush(now, base, t.interval);
    NextFlush(now, now, t.interval);
  }

  lemma NextFlush(now: u32, base: u32, interval: u32)
    requires 0 <= Diff(Wrapping, now, base) < DRIFT && 10 <= interval <= 5000
    ensures var d := Diff(Wrapping, now, base);
            && Diff(Wrapping, Low(base + interval), now) == interval - d
            && Diff(Wrapping, now, Low(base + interval)) == d - interval
  {
    var d := Diff(Wrapping, now, base);
    var k := (now - base) / TWO32;
    assert now == base + d + k * TWO32;
    var moment := base + d;
    ModShift(moment, k);
    DivModUnique(now, 0, now);
    assert Low(moment) == now;
    DiffLow(base + interval, moment);
    DiffLow(moment, base + interval);
  }

  // -------------------------------------------------------- skipping is safe

  lemma DiffLow(a: int, b: int)
    requires -TWO31 <= a - b < TWO31
    ensures Diff(Wrapping, Low(a), Low(b)) == a - b
  {
    DiffExact(a, b);
  }

  /** A due time `due` for a timer checked at `now`: no update before it would flush. */
  ghost predicate QuietUntil(t: Timer, now: int, due: int) {
    t.updated ==> forall k :: now <= k < due ==> TimerUpdate(t, Low(k)) == (t, false)
  }

  /** `ikcp_check` misses nothing: it names a time within one interval before which updating would neither
      flush nor change the timer. */
  lemma CheckMissesNothing(t: Timer, resend: seq<u32>, now: int)
    requires TimerOk(t)
    ensures exists due ::
              now <= due <= now + t.interval && Low(due) == DueTime(t, resend, Low(now)) && QuietUntil(t, now, due)
  {
    var next := DueTime(t, resend, Low(now));
    var tm := Diff(Wrapping, t.tsFlush, Low(now));
    var packet := PacketDelay(resend, Low(now));
    var late := Diff(Wrapping, Low(now), t.tsFlush);
    if !t.updated || late >= 0 || late < -DRIFT || packet <= 0 {
      assert now <= now && Low(now) == next && QuietUntil(t, now, now);
    } else {
      DiffNegates(Low(now), t.tsFlush);
      var wait := Min(Min(packet, tm), t.interval);
      var due := now + wait;
      LowOffset(now, wait);
      forall k | now <= k < due
        ensures TimerUpdate(t, Low(k)) == (t, false)
      {
        QuietAt(t, now, k, tm);
      }
    }
  }

  /** The earliest of the times in `rs` and `first`. */
  function Earliest(rs: seq<int>, first: int): int {
    if rs == [] then first else Min(rs[0], Earliest(rs[1..], first))
  }

  lemma {:induction false} PacketDelayExact(rs: seq<int>, resend: seq<u32>, now: int, first: int)
    requires |resend| == |rs| && now <= first <= now + FAR
    requires forall i :: 0 <= i < |rs| ==> resend[i] == Low(rs[i]) && now - TWO31 <= rs[i] < now + TWO31
    ensures Min(PacketDelay(resend, Low(now)), first - now) == Earliest(rs, first) - now
  {
    if rs != [] {
      DiffLow(rs[0], now);
      PacketDelayExact(rs[1..], resend[1..], now, first);
    }
  }

  /** `ikcp_check` does not wake too early either: it names exactly the earliest of the next flush, the retransmissions
      and the end of an interval, or now if one of them is already past. */
  lemma CheckExact(t: Timer, flushAt: int, rs: seq<int>, resend: seq<u32>, now: int)
    requires TimerOk(t) && t.updated && t.tsFlush == Low(flushAt) && now - DRIFT <= flushAt <= now + DRIFT
    requires |resend| == |rs|
    requires forall i :: 0 <= i < |rs| ==> resend[i] == Low(rs[i]) && now - TWO31 <= rs[i] < now + TWO31
    ensures var due := Earliest(rs, Min(flushAt, now + t.interval));
            DueTime(t, resend, Low(now)) == Low(if flushAt <= now || due < now then now else due)
  {
    DiffLow(now, flushAt);
    DiffLow(flushAt, now);
    if flushAt > now {
      var first := Min(flushAt, now + t.interval);
      PacketDelayExact(rs, resend, now, first);
      LowOffset(now, Earliest(rs, first) - now);
    }
    assert Low(Low(now)) == Low(now);
  }

  lemma DiffNegates(a: u32, b: u32)
    requires -DRIFT <= Diff(Wrapping, a, b) < 0
    ensures Diff(Wrapping, b, a) == -Diff(Wrapping, a, b)
  {
    var d := Diff(Wrapping, a, b);
    assert (a - b) % TWO32 == d + TWO32;
    if a < b {
      DivModUnique(a - b, -1, a - b + TWO32);
      DivModUnique(b - a, 0, b - a);
    } else {
      DivModUnique(a - b, 0, a - b);
      assert a - b == d + TWO32;
      DivModUnique(b - a, -1, b - a + TWO32);
    }
  }

  lemma LowOffset(now: int, k: int)
    ensures Low(Low(now) + k) == Low(now + k)
  {
    ModShift(now + k, -(now / TWO32));
    assert Low(now) + k == (now + k) + -(now / TWO32) * TWO32;
  }

  lemma QuietAt(t: Timer, now: int, k: int, tm: int)
    requires t.updated && now <= k < now + tm && tm == Diff(Wrapping, t.tsFlush, Low(now)) <= DRIFT
    ensures TimerUpdate(t, Low(k)) == (t, false)
  {
    var flushAt := now + tm;
    assert Low(flushAt) == t.tsFlush by {
      LowOffset(now, tm);
      var q := (t.tsFlush - Low(now)) / TWO32;
      assert t.tsFlush - Low(now) == q * TWO32 + (t.tsFlush - Low(now)) % TWO32;
      var j := if (t.tsFlush - Low(now)) % TWO32 == tm then q else q + 1;
      assert t.tsFlush == (Low(now) + tm) + j * TWO32;
      ModShift(Low(now) + tm, j);
      DivModUnique(t.tsFlush, 0, t.tsFlush);
    }
    DiffLow(k, flushAt);
  }

  /** Flushing keeps its rhythm: a flush less than one interval late does not shift the next one, and a later one
      starts a new rhythm. */
  lemma FlushKeepsRhythm(t: Timer, late: int, due: int)
    requires TimerOk(t) && t.updated && t.tsFlush == Low(due) && 0 <= late < TWO31
    ensures var (after, flushed) := TimerUpdate(t, Low(due + late));
            flushed && after.tsFlush == Low(if late < t.interval then due + t.interval else due + late + t.interval)
  {
    DiffLow(due + late, due);
    LowOffset(due, t.interval);
    LowOffset(due + late, t.interval);
    DiffLow(due + late, due + t.interval);
  }

  // --------------------------------------------------- lazy and eager ticking

  /** What happens to a ready stream: a tick, or traffic that makes an update due at once.  `resend` are
      the retransmission times in the send buffer when the tick asks for the next due time. */
  datatype Happening = Ticks(at: int, resend: seq<u32>) | Traffic(at: int)

  /** The stream's view: the timer and `next_update_ms`. */
  datatype Lazy = Lazy(timer: Timer, next: u32)

  /** `redp2p_stream_tick`, the part that drives KCP: the new state and whether it flushed. */
  function LazyTick(s: Lazy, resend: seq<u32>, now: u32): (Lazy, bool) {
    if Diff(Wrapping, now, s.next) >= 0 then
      var (t, flushed) := TimerUpdate(s.timer, now);
      (Lazy(t, DueTime(t, resend, now)), flushed)
    else (s, false)
  }

  function LazyStep(s: Lazy, h: Happening): (Lazy, bool) {
    match h
    case Ticks(at, resend) => LazyTick(s, resend, Low(at))
    case Traffic(at) => (s.(next := Low(at)), false)
  }

  function EagerStep(t: Timer, h: Happening): (Timer, bool) {
    match h
    case Ticks(at, resend) => TimerUpdate(t, Low(at))
    case Traffic(at) => (t, false)
  }

  function LazyFlushes(s: Lazy, hs: seq<Happening>): (r: seq<bool>)
    decreases |hs|
  {
    if hs == [] then [] else [LazyStep(s, hs[0]).1] + LazyFlushes(LazyStep(s, hs[0]).0, hs[1..])
  }

  function EagerFlushes(t: Timer, hs: seq<Happening>): (r: seq<bool>)
    decreases |hs|
  {
    if hs == [] then [] else [EagerStep(t, hs[0]).1] + EagerFlushes(EagerStep(t, hs[0]).0, hs[1..])
  }

  /** The real time that `next_update_ms` stands for, seen from `last`. */
  function Due(s: Lazy, last: int): (r: int)
    ensures last <= r < last + TWO32
  {
    last + (s.next - last) % TWO32
  }

  /** At time `last` the pending due time is honest: near, and no update before it would do anything. */
  ghost predicate Honest(s: Lazy, last: int) {
    && TimerOk(s.timer) && Due(s, last) <= last + DRIFT
    && QuietUntil(s.timer, last, Due(s, last)) && (!s.timer.updated ==> Due(s, last) == last)
  }

  lemma DueIs(s: Lazy, last: int, due: int)
    requires s.next == Low(due) && last <= due < last + TWO32
    ensures Due(s, last) == due
  {
    var q := due / TWO32;
    DivModUnique(s.next - last, -q, due - last);
  }

  lemma DueLow(s: Lazy, last: int)
    ensures Low(Due(s, last)) == s.next
  {
    var q := (s.next - last) / TWO32;
    assert s.next - last == q * TWO32 + (s.next - last) % TWO32;
    ModShift(s.next, -q);
    assert Due(s, last) == s.next + -q * TWO32;
    DivModUnique(s.next, 0, s.next);
  }

  /** At `at` an update would not flush: the time lies shortly before the next flush. */
  predicate Idle(t: Timer, at: int) {
    t.updated && -DRIFT <= Diff(Wrapping, Low(at), t.tsFlush) < 0
  }

  lemma EagerIdle(t: Timer, at: int)
    ensures Idle(t, at) <==> !TimerUpdate(t, Low(at)).1
    ensures Idle(t, at) ==> TimerUpdate(t, Low(at)) == (t, false)
  {
    assert Diff(Wrapping, Low(at), Low(at)) == 0;
  }

  /** The comparison of the tick, in real time. */
  lemma TickTest(s: Lazy, last: int, at: int)
    requires last <= at
    ensures Due(s, last) <= at ==> (Diff(Wrapping, Low(at), s.next) >= 0 <==> (at - Due(s, last)) % TWO32 < TWO31)
    ensures at < Due(s, last) <= last + DRIFT ==> Diff(Wrapping, Low(at), s.next) < 0
  {
    DueLow(s, last);
    var due := Due(s, last);
    DiffOfNorms(at, due);
    if at < due <= last + DRIFT {
      DiffLow(at, due);
    }
  }

  /** The tick at `at` is due, but the 32-bit comparison takes it for early. */
  predicate Mistaken(s: Lazy, last: int, at: int) {
    Due(s, last) <= at && (at - Due(s, last)) % TWO32 >= TWO31
  }

  /** A tick flushes exactly when updating would, unless it is mistaken for early and the update would flush. */
  lemma TickExact(s: Lazy, last: int, at: int, resend: seq<u32>)
    requires Honest(s, last) && last <= at
    ensures LazyTick(s, resend, Low(at)).1 == TimerUpdate(s.timer, Low(at)).1
         <==> !Mistaken(s, last, at) || Idle(s.timer, at)
  {
    TickTest(s, last, at);
    EagerIdle(s.timer, at);
  }

  /** The moment up to which the due time of the next state is honest: that of the last update or traffic. */
  function Reference(s: Lazy, last: int, h: Happening): int {
    if h.Traffic? || Diff(Wrapping, Low(h.at), s.next) >= 0 then h.at else last
  }

  lemma StepHonest(s: Lazy, last: int, h: Happening)
    requires Honest(s, last) && last <= h.at
    ensures Honest(LazyStep(s, h).0, Reference(s, last, h))
  {
    match h
    case Traffic(at) =>
      DueIs(LazyStep(s, h).0, at, at);
    case Ticks(at, resend) =>
      if Diff(Wrapping, Low(at), s.next) >= 0 {
        var t := TimerUpdate(s.timer, Low(at)).0;
        CheckMissesNothing(t, resend, at);
        var due :| at <= due <= at + t.interval && Low(due) == DueTime(t, resend, Low(at)) && QuietUntil(t, at, due);
        DueIs(LazyStep(s, h).0, at, due);
      }
  }

  /** When the flush of a tick agrees, the timer does too. */
  lemma StepTimer(s: Lazy, last: int, h: Happening)
    requires Honest(s, last) && last <= h.at && LazyStep(s, h).1 == EagerStep(s.timer, h).1
    ensures LazyStep(s, h).0.timer == EagerStep(s.timer, h).0
  {
    if h.Ticks? {
      EagerIdle(s.timer, h.at);
    }
  }

  /** Time does not run backwards. */
  predicate Ordered(last: int, hs: seq<Happening>)
    decreases |hs|
  {
    hs == [] || (last <= hs[0].at && Ordered(hs[0].at, hs[1..]))
  }

  /** No tick is mistaken for early when an update would flush. */
  predicate Punctual(s: Lazy, last: int, hs: seq<Happening>)
    decreases |hs|
  {
    hs == [] ||
    (var h := hs[0];
     && (h.Ticks? && Mistaken(s, last, h.at) ==> Idle(s.timer, h.at))
     && Punctual(LazyStep(s, h).0, Reference(s, last, h), hs[1..]))
  }

  lemma {:induction false} OrderedLater(last: int, later: int, hs: seq<Happening>)
    requires Ordered(later, hs) && last <= later
    ensures Ordered(last, hs)
  {
  }

  /** Skipping updates until they are due flushes at exactly the times at which updating on every tick would, for
      any ticks and traffic in the order of time, if and only if the run is punctual. */
  lemma {:induction false} SkippingIsUnobservable(s: Lazy, last: int, hs: seq<Happening>)
    requires Honest(s, last) && Ordered(last, hs)
    ensures LazyFlushes(s, hs) == EagerFlushes(s.timer, hs) <==> Punctual(s, last, hs)
    decreases |hs|
  {
    if hs != [] {
      var h := hs[0];
      if h.Ticks? {
        TickExact(s, last, h.at, h.resend);
      }
      var next, ref := LazyStep(s, h).0, Reference(s, last, h);
      StepHonest(s, last, h);
      OrderedLater(ref, h.at, hs[1..]);
      SkippingIsUnobservable(next, ref, hs[1..]);
      Heads(LazyStep(s, h).1, LazyFlushes(next, hs[1..]), EagerStep(s.timer, h).1,
            EagerFlushes(EagerStep(s.timer, h).0, hs[1..]));
      if LazyStep(s, h).1 == EagerStep(s.timer, h).1 {
        StepTimer(s, last, h);
      }
    }
  }

  lemma Heads(a: bool, s: seq<bool>, b: bool, t: seq<bool>)
    ensures [a] + s == [b] + t <==> a == b && s == t
  {
    if [a] + s == [b] + t {
      assert ([a] + s)[0] == ([b] + t)[0];
      assert ([a] + s)[1..] == s && ([b] + t)[1..] == t;
    }
  }

  /** Consecutive happenings are less than 2^31 ms (24.8 days) apart. */
  predicate Steady(last: int, hs: seq<Happening>)
    decreases |hs|
  {
    hs == [] || (last <= hs[0].at < last + TWO31 && Steady(hs[0].at, hs[1..]))
  }

  /** That is enough: such a run is punctual. */
  lemma {:induction false} SteadyIsPunctual(s: Lazy, last: int, prev: int, hs: seq<Happening>)
    requires Honest(s, last) && last <= prev <= Due(s, last) && Steady(prev, hs)
    ensures Punctual(s, last, hs)
    decreases |hs|
  {
    if hs != [] {
      var h := hs[0];
      TickTest(s, last, h.at);
      StepHonest(s, last, h);
      if h.at >= Due(s, last) {
        DivModUnique(h.at - Due(s, last), 0, h.at - Due(s, last));
      }
      SteadyIsPunctual(LazyStep(s, h).0, Reference(s, last, h), h.at, hs[1..]);
    }
  }

  function NewStream(now: int, interval: u32): Lazy {
    Lazy(Timer(false, interval, interval), Low(now))
  }

  /** A new stream is honest: its first update is due at once. */
  lemma NewStreamHonest(now: int, interval: u32)
    requires 10 <= interval <= 5000
    ensures Honest(NewStream(now, interval), now) && Due(NewStream(now, interval), now) == now
  {
    DueIs(NewStream(now, interval), now, now);
  }

  /** From the creation of a stream on, skipping is unobservable while it is looked after at least every 24 days. */
  lemma FreshStream(now: int, hs: seq<Happening>, interval: u32)
    requires 10 <= interval <= 5000 && Steady(now, hs)
    ensures var s := NewStream(now, interval); LazyFlushes(s, hs) == EagerFlushes(s.timer, hs)
  {
    var s := NewStream(now, interval);
    NewStreamHonest(now, interval);
    SteadyIsPunctual(s, now, now, hs);
    SteadyOrdered(now, hs);
    SkippingIsUnobservable(s, now, hs);
  }

  lemma {:induction false} SteadyOrdered(last: int, hs: seq<Happening>)
    requires Steady(last, hs)
    ensures Ordered(last, hs)
    decreases |hs|
  {
    if hs != [] {
      SteadyOrdered(hs[0].at, hs[1..]);
    }
  }

  /** A new stream first looked at half a turn of the clock later is not flushed, although updating would. */
  lemma HalfTurnMissed(now: int, interval: u32)
    requires 10 <= interval <= 5000
    ensures var s, hs := NewStream(now, interval), [Ticks(now + TWO31, [])];
            LazyFlushes(s, hs) == [false] && EagerFlushes(s.timer, hs) == [true]
  {
    var s, at := NewStream(now, interval), now + TWO31;
    NewStreamHonest(now, interval);
    DivModUnique(at - now, 0, TWO31);
    TickTest(s, now, at);
    EagerIdle(s.timer, at);
    var hs := [Ticks(at, [])];
    assert hs[1..] == [];
  }

  // ------------------------------------------------------------------ waiting

  /** `redp2p_stream_wait_ms` for a ready stream. */
  function WaitMs(next: u32, now: u32): (r: int)
    ensures 0 <= r <= MAX_WAIT
  {
    var d := Diff(Wrapping, next, now);
    if d <= 0 then 0 else if d > MAX_WAIT then MAX_WAIT else d
  }

  /** Before the due time the wait lasts until it, but no longer than a second; from then on it is zero if and only if
      the time past it, modulo 2^32, is at most half a turn. */
  lemma NeverSleepsPastDue(s: Lazy, last: int, now: int)
    requires Honest(s, last) && last <= now
    ensures var due, w := Due(s, last), WaitMs(s.next, Low(now));
            && (now < due ==> w == if due - now < 1000 then due - now else 1000)
            && (due <= now ==> (w == 0 <==> (now - due) % TWO32 <= TWO31))
  {
    var due := Due(s, last);
    DueLow(s, last);
    if now < due {
      DiffLow(due, now);
    } else {
      DiffOfNorms(due, now);
      NegatedMod(now - due);
    }
  }
}
