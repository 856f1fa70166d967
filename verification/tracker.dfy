/** The client-side activity tracker: a one-slot "current activity" plus an
    append-only list of finished events, and the integer-millisecond aggregates
    computed from them. Clock readings (`Date.now()`) and the start of the
    counting range (local midnight) are parameters. */
module Tracker {
  import opened Wrappers
  import opened Decimal

  /** The activity in progress: its type and the instant it started. */
  datatype Activity = Activity(kind: string, startedAt: int)

  /** A finished (or, when loaded from storage, possibly unfinished) activity. */
  datatype Event = Event(kind: string, start: int, end: Option<int>)

  /** `window.current` (`None` for `{type: null, startedAt: null}`) and `window.events`. */
  datatype State = State(current: Option<Activity>, events: seq<Event>)

  /** `current.type` is truthy: an activity is present and its type is not empty. */
  predicate Running(s: State) {
    s.current.Some? && s.current.value.kind != ""
  }

  // ---------- start / stop ----------

  /** `stop()`: when an activity is running, records it as an event ending at `now`
      and clears the slot; otherwise changes nothing. */
  function Stop(s: State, now: int): (r: State)
    ensures !Running(s) ==> r == s
    ensures Running(s) ==>
      && r.current.None?
      && |r.events| == |s.events| + 1
      && r.events[..|s.events|] == s.events
      && r.events[|s.events|] == Event(s.current.value.kind, s.current.value.startedAt, Some(now))
  {
    if !Running(s) then s
    else
      var c := s.current.value;
      State(None, s.events + [Event(c.kind, c.startedAt, Some(now))])
  }

  /** `start(type)`: stops the running activity (first clock reading `stoppedAt`),
      then makes `kind` current from the second clock reading `startedAt`. */
  function Start(s: State, kind: string, stoppedAt: int, startedAt: int): (r: State)
    ensures r.current == Some(Activity(kind, startedAt))
    ensures !Running(s) ==> r.events == s.events
    ensures Running(s) ==> r.events == s.events + [Event(s.current.value.kind, s.current.value.startedAt, Some(stoppedAt))]
  {
    State(Some(Activity(kind, startedAt)), Stop(s, stoppedAt).events)
  }

  /** Stopping twice is stopping once. */
  lemma StopIdempotent(s: State, now: int, later: int)
    ensures Stop(Stop(s, now), later) == Stop(s, now)
  {
  }

  /** Switching activity within one clock instant leaves no gap and no overlap: the
      closed event ends exactly where the new activity starts, and earlier events
      are untouched. */
  lemma SwitchIsSeamless(s: State, kind: string, now: int)
    requires Running(s)
    ensures var r := Start(s, kind, now, now);
            && r.events[..|s.events|] == s.events
            && r.events[|s.events|].end == Some(r.current.value.startedAt)
            && r.events[|s.events|].start == s.current.value.startedAt
  {
  }

  // ---------- durationMs ----------

  function Max(a: int, b: int): int {
    if a >= b then a else b
  }

  /** One event's share of `durationMs(kind)`: its span after clipping the start to
      `rangeStart`, an open end read as `now`, and nothing when the span is empty. */
  function Contribution(e: Event, kind: string, rangeStart: int, now: int): (c: int)
    ensures c >= 0
    ensures e.kind != kind ==> c == 0
    ensures e.kind == kind && e.start >= rangeStart && e.end.GetOr(now) >= e.start ==> c == e.end.GetOr(now) - e.start
    ensures e.kind == kind && e.start < rangeStart && e.end.GetOr(now) >= rangeStart ==> c == e.end.GetOr(now) - rangeStart
    ensures e.end.GetOr(now) <= Max(e.start, rangeStart) ==> c == 0
  {
    if e.kind != kind then 0
    else
      var s := Max(e.start, rangeStart);
      var en := e.end.GetOr(now);
      if en > s then en - s else 0
  }

  /** The event part of `durationMs(kind)`. */
  function EventsMs(events: seq<Event>, kind: string, rangeStart: int, now: int): int {
    if |events| == 0 then 0
    else EventsMs(events[..|events| - 1], kind, rangeStart, now) + Contribution(events[|events| - 1], kind, rangeStart, now)
  }

  /** The current activity counts only when its type matches and it began inside the range. */
  function CurrentMs(current: Option<Activity>, kind: string, rangeStart: int, now: int): int {
    if current.Some? && current.value.kind == kind && current.value.startedAt >= rangeStart
    then now - current.value.startedAt
    else 0
  }

  /** `durationMs(kind)` as a value. */
  function DurationOf(s: State, kind: string, rangeStart: int, now: int): int {
    EventsMs(s.events, kind, rangeStart, now) + CurrentMs(s.current, kind, rangeStart, now)
  }

  /** `durationMs(kind, sinceMidnight)`, with the range start and the clock as
      parameters: the loop over the events, then the current activity. */
  method DurationMs(s: State, kind: string, rangeStart: int, now: int) returns (sum: int)
    ensures sum == DurationOf(s, kind, rangeStart, now)
    ensures sum >= CurrentMs(s.current, kind, rangeStart, now)
  {
    sum := 0;
    var i := 0;
    while i < |s.events|
      invariant 0 <= i <= |s.events|
      invariant sum == EventsMs(s.events[..i], kind, rangeStart, now)
      invariant sum >= 0
    {
      var e := s.events[i];
      if e.kind == kind {
        var st := Max(e.start, rangeStart);
        var en := e.end.GetOr(now);
        if en > st {
          sum := sum + (en - st);
        }
      }
      assert s.events[..i + 1][..i] == s.events[..i];
      i := i + 1;
    }
    assert s.events[..i] == s.events;
    if s.current.Some? && s.current.value.kind == kind && s.current.value.startedAt >= rangeStart {
      sum := sum + (now - s.current.value.startedAt);
    }
  }

  /** Event contributions are non-negative, so the event part never is. */
  lemma {:induction false} EventsMsNonNegative(events: seq<Event>, kind: string, rangeStart: int, now: int)
    ensures EventsMs(events, kind, rangeStart, now) >= 0
  {
    if |events| > 0 {
      EventsMsNonNegative(events[..|events| - 1], kind, rangeStart, now);
    }
  }

  /** The event part is additive over concatenation. */
  lemma {:induction false} EventsMsAppend(a: seq<Event>, b: seq<Event>, kind: string, rangeStart: int, now: int)
    ensures EventsMs(a + b, kind, rangeStart, now) == EventsMs(a, kind, rangeStart, now) + EventsMs(b, kind, rangeStart, now)
    decreases |b|
  {
    if |b| > 0 {
      assert (a + b)[..|a + b| - 1] == a + b[..|b| - 1];
      EventsMsAppend(a, b[..|b| - 1], kind, rangeStart, now);
    } else {
      assert a + b == a;
    }
  }

  /** Events of other types never change `durationMs(kind)`. */
  lemma {:induction false} OtherKindsIgnored(events: seq<Event>, kind: string, rangeStart: int, now: int)
    requires forall i :: 0 <= i < |events| ==> events[i].kind != kind
    ensures EventsMs(events, kind, rangeStart, now) == 0
  {
    if |events| > 0 {
      OtherKindsIgnored(events[..|events| - 1], kind, rangeStart, now);
    }
  }

  /** Stopping an activity that began inside the range, at the instant of measurement,
      moves its time from the current slot into the event list without changing
      `durationMs` of any type. */
  lemma StopKeepsDuration(s: State, kind: string, rangeStart: int, now: int)
    requires Running(s)
    requires rangeStart <= s.current.value.startedAt <= now
    ensures DurationOf(Stop(s, now), kind, rangeStart, now) == DurationOf(s, kind, rangeStart, now)
  {
  }

  /** An activity of type `kind` running since before `rangeStart` contributes nothing
      while it runs, yet its part after `rangeStart` counts as soon as it is stopped:
      `durationMs(kind)` jumps by `now - rangeStart` on `stop()`. */
  lemma OngoingActivityBeforeRangeUncounted(s: State, kind: string, rangeStart: int, now: int)
    requires Running(s) && s.current.value.kind == kind
    requires s.current.value.startedAt < rangeStart <= now
    ensures CurrentMs(s.current, kind, rangeStart, now) == 0
    ensures DurationOf(Stop(s, now), kind, rangeStart, now) == DurationOf(s, kind, rangeStart, now) + (now - rangeStart)
  {
    var c := s.current.value;
    var e := Event(c.kind, c.startedAt, Some(now));
    EventsMsAppend(s.events, [e], kind, rangeStart, now);
    assert [e][..0] == [];
  }

  // ---------- computeContinuousDrive ----------

  /** The event types that end a stretch of continuous driving. */
  predicate IsBreakKind(kind: string) {
    kind == "BREAK" || kind == "REST_DAILY" || kind == "REST_WEEKLY" || kind == "OTHER_WORK"
  }

  /** An event's unclipped span; an open end is read as `now`. */
  function Span(e: Event, now: int): int {
    e.end.GetOr(now) - e.start
  }

  /** The summed spans of the DRIVE events in `events`, all other events ignored. */
  function DriveSum(events: seq<Event>, now: int): int {
    if |events| == 0 then 0
    else (if events[0].kind == "DRIVE" then Span(events[0], now) else 0) + DriveSum(events[1..], now)
  }

  /** Where the current stretch of driving begins: just after the last break event,
      or at the start when there is none. */
  function RunStart(events: seq<Event>): (k: nat)
    ensures k <= |events|
    ensures forall i :: k <= i < |events| ==> !IsBreakKind(events[i].kind)
    ensures k > 0 ==> IsBreakKind(events[k - 1].kind)
  {
    if |events| == 0 then 0
    else if IsBreakKind(events[|events| - 1].kind) then |events|
    else RunStart(events[..|events| - 1])
  }

  function CurrentDrive(current: Option<Activity>, now: int): int {
    if current.Some? && current.value.kind == "DRIVE" then now - current.value.startedAt else 0
  }

  /** Driving since the last break: the DRIVE spans after the last break event plus
      the running DRIVE activity. */
  function ContinuousDrive(events: seq<Event>, current: Option<Activity>, now: int): int {
    DriveSum(events[RunStart(events)..], now) + CurrentDrive(current, now)
  }

  /** `computeContinuousDrive(events, current)`: the backwards scan that adds DRIVE
      spans, steps over other types and stops at the first break event. */
  method ComputeContinuousDrive(events: seq<Event>, current: Option<Activity>, now: int) returns (t: int)
    ensures t == ContinuousDrive(events, current, now)
  {
    t := 0;
    var i := |events|;
    while i > 0
      invariant 0 <= i <= |events|
      invariant forall j :: i <= j < |events| ==> !IsBreakKind(events[j].kind)
      invariant t == DriveSum(events[i..], now)
    {
      var e := events[i - 1];
      if IsBreakKind(e.kind) {
        break;
      }
      assert events[i - 1..][1..] == events[i..];
      if e.kind == "DRIVE" {
        t := t + Span(e, now);
      }
      i := i - 1;
    }
    assert RunStart(events) == i;
    if current.Some? && current.value.kind == "DRIVE" {
      t := t + (now - current.value.startedAt);
    }
  }

  lemma {:induction false} DriveSumAppend(a: seq<Event>, b: seq<Event>, now: int)
    ensures DriveSum(a + b, now) == DriveSum(a, now) + DriveSum(b, now)
  {
    if |a| > 0 {
      assert (a + b)[1..] == a[1..] + b;
      DriveSumAppend(a[1..], b, now);
    } else {
      assert a + b == b;
    }
  }

  /** A break event ends the stretch: only a running DRIVE activity counts afterwards. */
  lemma BreakResetsContinuousDrive(events: seq<Event>, e: Event, current: Option<Activity>, now: int)
    requires IsBreakKind(e.kind)
    ensures ContinuousDrive(events + [e], current, now) == CurrentDrive(current, now)
  {
  }

  /** A finished DRIVE event extends the stretch by its span. */
  lemma DriveExtendsContinuousDrive(events: seq<Event>, e: Event, current: Option<Activity>, now: int)
    requires e.kind == "DRIVE"
    ensures ContinuousDrive(events + [e], current, now) == ContinuousDrive(events, current, now) + Span(e, now)
  {
    var es := events + [e];
    assert es[..|es| - 1] == events;
    var k := RunStart(events);
    assert es[k..] == events[k..] + [e];
    DriveSumAppend(events[k..], [e], now);
    assert [e][1..] == [];
  }

  /** Any other type (AVAILABILITY, for one) neither adds to nor breaks the stretch. */
  lemma OtherKindsTransparent(events: seq<Event>, e: Event, current: Option<Activity>, now: int)
    requires e.kind != "DRIVE" && !IsBreakKind(e.kind)
    ensures ContinuousDrive(events + [e], current, now) == ContinuousDrive(events, current, now)
  {
    var es := events + [e];
    assert es[..|es| - 1] == events;
    var k := RunStart(events);
    assert es[k..] == events[k..] + [e];
    DriveSumAppend(events[k..], [e], now);
    assert [e][1..] == [];
  }

  // ---------- fmtH / msToHours ----------

  const MsPerHour: int := 3600000
  const MsPerMinute: int := 60000

  /** JavaScript's `%`: the remainder takes the sign of the dividend. */
  function JsRem(a: int, d: int): (r: int)
    requires d > 0
    ensures a >= 0 ==> r == a % d
    ensures a < 0 ==> -d < r <= 0
  {
    if a >= 0 then a % d else -((-a) % d)
  }

  /** The hour and minute fields of `fmtH(ms)`: `Math.floor(ms/3600000)` and
      `Math.floor((ms%3600000)/60000)`. */
  function HoursMinutes(ms: int): (hm: (int, int))
    ensures ms >= 0 ==> 0 <= hm.0 && 0 <= hm.1 < 60
    ensures ms >= 0 ==> (hm.0 * 60 + hm.1) * MsPerMinute <= ms < (hm.0 * 60 + hm.1 + 1) * MsPerMinute
    ensures ms < 0 ==> hm.0 < 0 && -60 <= hm.1 <= 0
  {
    (ms / MsPerHour, JsRem(ms, MsPerHour) / MsPerMinute)
  }

  /** `String(m).padStart(2, '0')`. */
  function PadStart2(m: int): string {
    if 0 <= m < 10 then "0" + NatToString(m) else IntToString(m)
  }

  /** `fmtH(ms)`: "<h>ч <mm>м". */
  function FmtH(ms: int): string {
    var (h, m) := HoursMinutes(ms);
    IntToString(h) + "ч " + PadStart2(m) + "м"
  }

  /** For a non-negative duration the rendering is "<digits>ч <two digits>м", and
      reading the two numbers back gives the whole minutes the duration contains. */
  lemma FmtHReadsBack(ms: int)
    requires ms >= 0
    ensures var s := FmtH(ms);
            && |s| >= 6
            && s[|s| - 5..|s| - 3] == "ч " && s[|s| - 1] == 'м'
            && AllDigits(s[..|s| - 5]) && AllDigits(s[|s| - 3..|s| - 1])
            && StringToNat(s[..|s| - 5]) * 60 + StringToNat(s[|s| - 3..|s| - 1]) == ms / MsPerMinute
  {
    var (h, m) := HoursMinutes(ms);
    var hs := NatToString(h);
    var ms2 := PadStart2(m);
    if m < 10 {
      assert ms2 == PadTwo(m);
    } else {
      assert NatToString(m) == NatToString(m / 10) + [DigitChar(m % 10)];
      assert NatToString(m / 10) == [DigitChar(m / 10)];
      assert ms2 == PadTwo(m);
    }
    NatStringRoundTrip(h);
    var s := FmtH(ms);
    assert s == hs + "ч " + ms2 + "м";
    assert s[..|s| - 5] == hs;
    assert s[|s| - 3..|s| - 1] == ms2;
  }

  /** `msToHours(ms)`: the duration in (real-valued) hours. */
  function MsToHours(ms: int): (h: real)
    ensures h * 3600000.0 == ms as real
  {
    ms as real / 3600000.0
  }

  // ---------- recompute ----------

  /** The numbers `recompute()` derives before updating the page. */
  datatype Summary = Summary(driveToday: int, otherToday: int, workToday: int, contDrive: int,
                             breakDue: bool, overNineHours: bool)

  /** 4.5 hours in milliseconds. */
  const BreakAfterMs: int := 16200000

  /** The arithmetic of `recompute()`: today's DRIVE and OTHER_WORK time, their sum,
      continuous driving, the 4.5-hour break warning and the 9-hour driving limit. */
  function Recompute(s: State, rangeStart: int, now: int): (r: Summary)
    ensures r.driveToday == DurationOf(s, "DRIVE", rangeStart, now)
    ensures r.otherToday == DurationOf(s, "OTHER_WORK", rangeStart, now)
    ensures r.workToday == r.driveToday + r.otherToday
    ensures r.contDrive == ContinuousDrive(s.events, s.current, now)
    ensures r.breakDue <==> r.contDrive >= BreakAfterMs
    ensures r.overNineHours <==> r.driveToday > 9 * MsPerHour
  {
    var drive := DurationOf(s, "DRIVE", rangeStart, now);
    var other := DurationOf(s, "OTHER_WORK", rangeStart, now);
    var cont := ContinuousDrive(s.events, s.current, now);
    Summary(drive, other, drive + other, cont, cont as real >= 4.5 * 60.0 * 60.0 * 1000.0, MsToHours(drive) > 9.0)
  }
}
