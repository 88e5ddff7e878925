/** Toggles, deadlines, the operation counter and the single point outputs over whole runs of the demo server. */
module BeagleTiming {
  import opened Common
  import opened BeagleDevice
  import opened BeagleRuns
  import opened BeagleControl

  /** One toggle of the LEDs: when, to which phase, and the delay in force when it started. */
  datatype Toggle = Toggle(time: nat, on: bool, delay: int)

  predicate IsToggle(s: System, e: Event) {
    e.Tick? && TogglesAt(s.dev, e.now)
  }

  /** All toggles of a run. The delay is read from the settings: on time for on, off time for off. */
  function Toggles(s: System, es: seq<Event>): seq<Toggle>
    requires Legal(s, es)
  {
    if es == [] then []
    else
      var d, on := Run(s, Front(es)).dev, !Run(s, Front(es)).dev.ledState;
      if IsToggle(Run(s, Front(es)), Last(es)) then
        Toggles(s, Front(es)) + [Toggle(Last(es).now, on, if on then d.onTime else d.offTime)]
      else Toggles(s, Front(es))
  }

  // ---------- The operation counter ----------

  function CeilHalf(n: nat): nat { (n + 1) / 2 }

  lemma CeilHalfStep(n: nat)
    ensures CeilHalf(n + 1) == CeilHalf(n) + if n % 2 == 0 then 1 else 0
  {
  }

  predicate IsReset(e: Event) {
    e.ResetCounter? && !e.test
  }

  /** The last write of the counter that took effect, if any. */
  function LastReset(es: seq<Event>): (r: Option<nat>)
    ensures r.Some? ==> r.value < |es| && IsReset(es[r.value])
    ensures forall k :: (if r.Some? then r.value + 1 else 0) <= k < |es| ==> !IsReset(es[k])
  {
    if es == [] then None
    else if IsReset(Last(es)) then Some(|es| - 1)
    else LastReset(Front(es))
  }

  /** The last written value less the on-toggles before that write, or 0 without a write. */
  function ResetBase(s: System, es: seq<Event>): int
    requires Legal(s, es)
  {
    match LastReset(es)
    case None => 0
    case Some(r) =>
      LegalPrefix(s, es, r);
      es[r].v - CeilHalf(|Toggles(s, es[..r])|)
  }

  /** Last written value, plus the on-toggles of the whole run, minus those before the write. */
  function CounterBalance(s: System, es: seq<Event>): int
    requires Legal(s, es)
  {
    ResetBase(s, es) + CeilHalf(|Toggles(s, es)|)
  }

  lemma ResetBaseStep(s: System, es: seq<Event>)
    requires Legal(s, es) && es != []
    ensures ResetBase(s, es) ==
            if IsReset(Last(es)) then Last(es).v - CeilHalf(|Toggles(s, Front(es))|) else ResetBase(s, Front(es))
  {
    var f := Front(es);
    if IsReset(Last(es)) {
      assert es[..|es| - 1] == f;
    } else if LastReset(f).Some? {
      assert es[..LastReset(f).value] == f[..LastReset(f).value];
    }
  }

  /** One event on the device: the counter follows writes and on-toggles. */
  lemma CounterStep(s: System, e: Event)
    requires Offered(s, e)
    ensures Step(s, e).dev.opCnt ==
            if IsReset(e) then e.v
            else if IsToggle(s, e) && !s.dev.ledState then ToInt32(s.dev.opCnt + 1)
            else s.dev.opCnt
    ensures Step(s, e).dev.ledState == (s.dev.ledState != IsToggle(s, e))
    ensures s.dev.opCntStVal == s.dev.opCnt ==> Step(s, e).dev.opCntStVal == Step(s, e).dev.opCnt
  {
  }

  /**
   The LED phase is the parity of the toggles so far, and counter and published counter are the
   balance, wrapped to 32 bits, whatever changes of ownership the run contains.
   */
  lemma {:induction false} CounterIsConserved(boot: nat, es: seq<Event>)
    requires Legal(Start(boot), es)
    ensures
      var s := Start(boot);
      var d := Run(s, es).dev;
      && (d.ledState <==> |Toggles(s, es)| % 2 == 1)
      && d.opCnt == d.opCntStVal == ToInt32(CounterBalance(s, es))
  {
    if es != [] {
      var s, f := Start(boot), Front(es);
      CounterIsConserved(boot, f);
      CounterStep(Run(s, f), Last(es));
      ResetBaseStep(s, es);
      CeilHalfStep(|Toggles(s, f)|);
      if !IsReset(Last(es)) {
        var one := if IsToggle(Run(s, f), Last(es)) && |Toggles(s, f)| % 2 == 0 then 1 else 0;
        assert CounterBalance(s, es) == CounterBalance(s, f) + one;
        WrapIncrement(CounterBalance(s, f));
      }
    }
  }

  /** With no overflow the counter is the balance itself. */
  lemma CounterWithoutOverflow(boot: nat, es: seq<Event>)
    requires Legal(Start(boot), es)
    ensures Run(Start(boot), es).dev.opCnt == CounterBalance(Start(boot), es)
            <==> INT32_MIN <= CounterBalance(Start(boot), es) <= INT32_MAX
  {
    CounterIsConserved(boot, es);
  }

  /** When the counter was last written or counted up: every other toggle counts, beginning with the first. */
  function LastCountTime(s: System, es: seq<Event>): nat
    requires Legal(s, es)
  {
    if es == [] then 0
    else if IsReset(Last(es)) || (IsToggle(Run(s, Front(es)), Last(es)) && |Toggles(s, Front(es))| % 2 == 0) then
      Last(es).now
    else LastCountTime(s, Front(es))
  }

  lemma StepStampsCounter(s: System, e: Event)
    requires Offered(s, e)
    ensures Step(s, e).dev.opCntT == if IsReset(e) || (IsToggle(s, e) && !s.dev.ledState) then e.now else s.dev.opCntT
  {
  }

  lemma {:induction false} CounterShowsItsTime(boot: nat, es: seq<Event>)
    requires Legal(Start(boot), es)
    ensures Run(Start(boot), es).dev.opCntT == LastCountTime(Start(boot), es)
  {
    if es != [] {
      CounterShowsItsTime(boot, Front(es));
      CounterIsConserved(boot, Front(es));
      StepStampsCounter(Run(Start(boot), Front(es)), Last(es));
    }
  }

  // ---------- Deadlines ----------

  /** The clock stays far enough from the end of 64 bits for one more delay. */
  predicate Headroom(es: seq<Event>) {
    forall k :: 0 <= k < |es| && es[k].Tick? ==> es[k].now + INT32_MAX < WORD64
  }

  /** One step: only a toggle moves the deadline, to one delay after its own tick. */
  lemma DeadlineStep(s: System, e: Event)
    requires DelaysNonNegative(s.dev) && Offered(s, e) && (e.Tick? ==> e.now + INT32_MAX < WORD64)
    ensures
      var d, d' := s.dev, Step(s, e).dev;
      if IsToggle(s, e) then
        d'.nextToggle == e.now + DelayInForce(d) >= d.nextToggle && d'.ledState == !d.ledState
      else d'.nextToggle == d.nextToggle && d'.ledState == d.ledState
  {
    if e.Tick? {
      assert ToUint64(DelayInForce(s.dev)) == DelayInForce(s.dev);
    }
  }

  /**
   On every run the delays stay non-negative, so a toggle schedules the next deadline exactly one
   delay after its own tick, and deadlines never move back.
   */
  lemma {:induction false} DeadlinesAdvance(s: System, es: seq<Event>, i: nat, j: nat)
    requires Inv(s) && Legal(s, es) && Headroom(es) && i <= j <= |es|
    ensures DelaysNonNegative(At(s, es, j).dev)
    ensures At(s, es, i).dev.nextToggle <= At(s, es, j).dev.nextToggle
    ensures j < |es| && IsToggle(At(s, es, j), es[j]) ==>
              At(s, es, j + 1).dev.nextToggle == es[j].now + DelayInForce(At(s, es, j).dev) >= es[j].now
  {
    InvAt(s, es, j);
    if j < |es| {
      StepAt(s, es, j);
      DeadlineStep(At(s, es, j), es[j]);
    }
    if i < j {
      DeadlinesAdvance(s, es, i, j - 1);
      StepAt(s, es, j - 1);
      InvAt(s, es, j - 1);
      DeadlineStep(At(s, es, j - 1), es[j - 1]);
    }
  }

  // ---------- Toggle intervals ----------

  /** The last clock reading of a run that starts after the reading `since`. */
  function LastReading(es: seq<Event>, since: nat): nat {
    if es == [] then since
    else if Last(es).Tick? then Last(es).now
    else LastReading(Front(es), since)
  }

  /** A monotone clock, read at least every `gap` milliseconds. */
  predicate Clocked(es: seq<Event>, since: nat, gap: nat) {
    es == [] ||
    var last := LastReading(Front(es), since);
    Clocked(Front(es), since, gap) && (Last(es).Tick? ==> last <= Last(es).now <= last + gap)
  }

  predicate AutomaticThroughout(s: System, es: seq<Event>)
    requires Legal(s, es)
  {
    Run(s, es).dev.automatic && (es == [] || AutomaticThroughout(s, Front(es)))
  }

  /** Phases alternate, one delay apart with at most one clock gap on top. */
  predicate Follows(a: Toggle, b: Toggle, gap: nat) {
    b.on == !a.on && a.time + a.delay <= b.time <= a.time + a.delay + gap
  }

  predicate Spaced(ts: seq<Toggle>, gap: nat) {
    forall k {:trigger ts[k]} :: 0 < k < |ts| ==> Follows(ts[k - 1], ts[k], gap)
  }

  lemma SpacedAppend(ts: seq<Toggle>, t: Toggle, gap: nat)
    requires Spaced(ts, gap) && (|ts| > 0 ==> Follows(ts[|ts| - 1], t, gap))
    ensures Spaced(ts + [t], gap)
  {
  }

  /** What the device remembers of its last toggle. */
  predicate Remembers(d: Device, last: Toggle, reading: nat) {
    && d.ledState == last.on
    && d.nextToggle == last.time + last.delay
    && last.delay >= 0
    && (reading < d.nextToggle || reading == last.time)
  }

  lemma {:induction false} TogglesAreSpaced(s: System, es: seq<Event>, since: nat, gap: nat)
    requires Inv(s) && Legal(s, es) && Headroom(es) && Clocked(es, since, gap) && AutomaticThroughout(s, es)
    ensures Spaced(Toggles(s, es), gap)
    ensures |Toggles(s, es)| > 0 ==>
              Remembers(Run(s, es).dev, Toggles(s, es)[|Toggles(s, es)| - 1], LastReading(es, since))
  {
    if es != [] {
      var f, e := Front(es), Last(es);
      var before, ts := Run(s, f), Toggles(s, f);
      TogglesAreSpaced(s, f, since, gap);
      RunKeepsInv(s, f);
      DeadlineStep(before, e);
      if IsToggle(before, e) {
        SpacedAppend(ts, Toggle(e.now, !before.dev.ledState, DelayInForce(before.dev)), gap);
      }
    }
  }

  function Later(a: nat, b: nat): nat { if a < b then b else a }

  /**
   The first toggle of an automatic run, at power-up or after a client has let go, comes no earlier
   than the deadline and at most one gap after it, or after the run began if it was over by then.
   Without any toggle yet, no clock reading of the run has reached the deadline.
   */
  lemma {:induction false} FirstToggle(s: System, es: seq<Event>, since: nat, gap: nat)
    requires Legal(s, es) && Clocked(es, since, gap) && AutomaticThroughout(s, es)
    ensures
      var ts := Toggles(s, es);
      if ts == [] then
        && Run(s, es).dev.nextToggle == s.dev.nextToggle && Run(s, es).dev.ledState == s.dev.ledState
        && (LastReading(es, since) < s.dev.nextToggle || LastReading(es, since) == since)
      else
        && s.dev.nextToggle <= ts[0].time <= Later(s.dev.nextToggle, since) + gap
        && ts[0].on == !s.dev.ledState
  {
    if es != [] {
      FirstToggle(s, Front(es), since, gap);
    }
  }

  /** After power-up the LEDs go on one second later, give or take one round of the loop. */
  lemma FirstToggleAfterPowerUp(boot: nat, es: seq<Event>, gap: nat)
    requires boot + 1000 < WORD64
    requires Legal(Start(boot), es) && Clocked(es, boot, gap) && AutomaticThroughout(Start(boot), es)
    ensures
      var ts := Toggles(Start(boot), es);
      if ts == [] then LastReading(es, boot) < boot + 1000
      else boot + 1000 <= ts[0].time <= boot + 1000 + gap && ts[0].on
  {
    FirstToggle(Start(boot), es, boot, gap);
  }

  function TotalDelay(ts: seq<Toggle>, i: nat, j: nat): int
    requires i <= j <= |ts|
  {
    if i == j then 0 else TotalDelay(ts, i, j - 1) + ts[j - 1].delay
  }

  lemma {:induction false} IntervalsAddUp(ts: seq<Toggle>, gap: nat, i: nat, j: nat)
    requires Spaced(ts, gap) && i <= j < |ts|
    ensures TotalDelay(ts, i, j) <= ts[j].time - ts[i].time <= TotalDelay(ts, i, j) + (j - i) * gap
  {
    if i < j {
      IntervalsAddUp(ts, gap, i, j - 1);
      assert (j - i) * gap == (j - 1 - i) * gap + gap;
    }
  }

  /**
   While automatic mode lasts, the time between any two toggles is at least the sum of the delays
   that were in force, and at most that sum plus one clock gap per interval; phases alternate.
   */
  lemma ToggleTiming(s: System, es: seq<Event>, since: nat, gap: nat, i: nat, j: nat)
    requires Inv(s) && Legal(s, es) && Headroom(es) && Clocked(es, since, gap) && AutomaticThroughout(s, es)
    requires i <= j < |Toggles(s, es)|
    ensures
      var ts := Toggles(s, es);
      && TotalDelay(ts, i, j) <= ts[j].time - ts[i].time <= TotalDelay(ts, i, j) + (j - i) * gap
      && (i < j ==> ts[i + 1].on == !ts[i].on)
  {
    TogglesAreSpaced(s, es, since, gap);
    IntervalsAddUp(Toggles(s, es), gap, i, j);
  }

  // ---------- The single point outputs ----------

  /** The last command for an output whose handler ran, if any. */
  function LastOperate(es: seq<Event>, o: Output): (r: Option<nat>)
    ensures r.Some? ==> r.value < |es| && es[r.value].Operate? && es[r.value].o == o
    ensures forall k :: (if r.Some? then r.value + 1 else 0) <= k < |es| ==> !(es[k].Operate? && es[k].o == o)
  {
    if es == [] then None
    else if Last(es).Operate? && Last(es).o == o then Some(|es| - 1)
    else LastOperate(Front(es), o)
  }

  function PointOf(d: Device, o: Output): Point
    requires !o.DPCSO1?
  {
    match o
    case SPCSO1 => d.spc1
    case SPCSO2 => d.spc2
    case SPCSO3 => d.spc3
  }

  /** Good and substituted for the first output, questionable and oscillatory for the second, good for the third. */
  function Quality(o: Output): nat
    requires !o.DPCSO1?
  {
    match o
    case SPCSO1 => 1024
    case SPCSO2 => 35
    case SPCSO3 => 0
  }

  /** What the last toggle left at an output, or the power-up state without one. */
  function Toggled(ts: seq<Toggle>, o: Output): Point
    requires !o.DPCSO1?
  {
    if ts == [] then Point(false, false, QUALITY_GOOD, 0)
    else
      var last := ts[|ts| - 1];
      Point(last.on, last.on, Quality(o), last.time)
  }

  /** What the last command for the output left there, unless the LEDs have toggled since. */
  function LastSwitched(s: System, es: seq<Event>, o: Output): Point
    requires Legal(s, es) && !o.DPCSO1?
  {
    var ts := Toggles(s, es);
    match LastOperate(es, o)
    case None => Toggled(ts, o)
    case Some(r) =>
      LegalPrefix(s, es, r);
      if |Toggles(s, es[..r])| < |ts| then Toggled(ts, o)
      else Point(es[r].on, es[r].on, Quality(o), es[r].now)
  }

  lemma LastSwitchedStep(s: System, es: seq<Event>, o: Output)
    requires Legal(s, es) && es != [] && !o.DPCSO1?
    ensures LastSwitched(s, es, o) ==
            var e := Last(es);
            if e.Operate? && e.o == o then Point(e.on, e.on, Quality(o), e.now)
            else if IsToggle(Run(s, Front(es)), e) then Toggled(Toggles(s, es), o)
            else LastSwitched(s, Front(es), o)
  {
    var f, e := Front(es), Last(es);
    if e.Operate? && e.o == o {
      assert es[..|f|] == f;
    } else if LastOperate(f, o).Some? {
      var r := LastOperate(f, o).value;
      LegalPrefix(s, f, r);
      assert es[..r] == f[..r];
      TogglesGrow(s, f, r);
    }
  }

  lemma {:induction false} TogglesGrow(s: System, es: seq<Event>, r: nat)
    requires Legal(s, es) && r <= |es| && Legal(s, es[..r])
    ensures |Toggles(s, es[..r])| <= |Toggles(s, es)|
  {
    if r == |es| {
      assert es[..r] == es;
    } else {
      assert Front(es)[..r] == es[..r];
      TogglesGrow(s, Front(es), r);
    }
  }

  lemma StepSwitches(s: System, e: Event, o: Output)
    requires Offered(s, e) && !o.DPCSO1?
    ensures PointOf(Step(s, e).dev, o) ==
            if e.Operate? && e.o == o then Point(e.on, e.on, Quality(o), e.now)
            else if IsToggle(s, e) then Point(!s.dev.ledState, !s.dev.ledState, Quality(o), e.now)
            else PointOf(s.dev, o)
  {
  }

  /**
   LED, published value, quality and time stamp of each output are those of its own last command or
   of the last toggle, whichever came later.
   */
  lemma {:induction false} OutputsShowLastSwitch(boot: nat, es: seq<Event>, o: Output)
    requires Legal(Start(boot), es) && !o.DPCSO1?
    ensures PointOf(Run(Start(boot), es).dev, o) == LastSwitched(Start(boot), es, o)
  {
    if es != [] {
      OutputsShowLastSwitch(boot, Front(es), o);
      LastSwitchedStep(Start(boot), es, o);
      StepSwitches(Run(Start(boot), Front(es)), Last(es), o);
    }
  }
}
