/**
 The demo server with its clients as a step system.

 Check handlers, settings and connection events run on the threads of the connections and ticks on
 the main thread. All control handlers run on the one worker thread of the server: from an accepted
 check to the end of its handler a command occupies its control object, and the worker runs one
 handler at a time. A double point command is two steps, one on each side of its three second sleep.
 A command survives the end of its connection.
 */
module BeagleRuns {
  import opened Common
  import opened BeagleDevice

  /** Accepted and waiting for the worker thread, or asleep in its handler. */
  datatype Command = Waiting(c: Connection, on: bool) | Moving(c: Connection, on: bool, start: nat)

  /** Each control object has at most one command. */
  datatype System = System(dev: Device, connected: set<Connection>, commands: map<Output, Command>)

  datatype Event =
    | Connect(c: Connection)
    | Disconnect(c: Connection)
    | Check(c: Connection, o: Output, on: bool, test: bool)
    | Operate(c: Connection, o: Output, on: bool, now: nat)
    | DpcBegin(c: Connection, on: bool, now: nat)
    | DpcEnd
    | ResetCounter(v: int32, test: bool, now: nat)
    | WriteSetting(c: Connection, a: Setting, v: int32)
    | Tick(now: nat)

  /** The worker thread sleeps in the handler of a double point command. */
  predicate Busy(s: System) {
    DPCSO1 in s.commands && s.commands[DPCSO1].Moving?
  }

  /** What the stack does: check handlers at idle objects only, one control handler at a time. */
  predicate Offered(s: System, e: Event) {
    match e
    case Connect(c) => c !in s.connected
    case Disconnect(c) => c in s.connected
    case Check(c, o, _, _) => c in s.connected && o !in s.commands
    case Operate(c, o, on, _) => !Busy(s) && !o.DPCSO1? && o in s.commands && s.commands[o] == Waiting(c, on)
    case DpcBegin(c, on, _) => DPCSO1 in s.commands && s.commands[DPCSO1] == Waiting(c, on)
    case DpcEnd => Busy(s)
    case ResetCounter(_, _, _) => !Busy(s)
    case WriteSetting(c, _, _) => c in s.connected
    case Tick(_) => true
  }

  /**
   The rules keep nobody waiting without need: ticks come at any time, a connected client can write
   settings, leave, and check any idle output; a waiting command can start whenever no handler runs,
   and a moving one can end.
   */
  lemma NothingElseBlocks(s: System, c: Connection, o: Output, on: bool, test: bool, a: Setting, v: int32, now: nat)
    ensures Offered(s, Tick(now))
    ensures Offered(s, if c in s.connected then Disconnect(c) else Connect(c))
    ensures c in s.connected ==> Offered(s, WriteSetting(c, a, v))
    ensures c in s.connected && o !in s.commands ==> Offered(s, Check(c, o, on, test))
    ensures if Busy(s) then Offered(s, DpcEnd) else Offered(s, ResetCounter(v, test, now))
    ensures o in s.commands && s.commands[o] == Waiting(c, on) && !Busy(s) ==>
              Offered(s, if o.DPCSO1? then DpcBegin(c, on, now) else Operate(c, o, on, now))
  {
  }

  function Step(s: System, e: Event): System
    requires Offered(s, e)
  {
    match e
    case Connect(c) => s.(connected := s.connected + {c})
    case Disconnect(c) => s.(dev := Released(s.dev, c), connected := s.connected - {c})
    case Check(c, o, on, test) =>
      s.(dev := Claimed(s.dev, c),
         commands := if VerdictFor(s.dev, c, test) == Accepted then s.commands[o := Waiting(c, on)] else s.commands)
    case Operate(_, o, on, now) => s.(dev := Switched(s.dev, o, on, now), commands := s.commands - {o})
    case DpcBegin(c, on, now) =>
      s.(dev := MoveStarted(s.dev, now), commands := s.commands[DPCSO1 := Moving(c, on, now)])
    case DpcEnd =>
      var m := s.commands[DPCSO1];
      s.(dev := MoveFinished(s.dev, m.on, m.start), commands := s.commands - {DPCSO1})
    case ResetCounter(v, test, now) => s.(dev := if test then s.dev else CounterSet(s.dev, v, now))
    case WriteSetting(_, a, v) => s.(dev := SettingWritten(s.dev, a, v))
    case Tick(now) => s.(dev := Ticked(s.dev, now))
  }

  predicate Legal(s: System, es: seq<Event>)
    decreases |es|, 0
  {
    es == [] || (Legal(s, Front(es)) && Offered(Run(s, Front(es)), Last(es)))
  }

  function Run(s: System, es: seq<Event>): System
    requires Legal(s, es)
    decreases |es|, 1
  {
    if es == [] then s else Step(Run(s, Front(es)), Last(es))
  }

  function Front(es: seq<Event>): seq<Event>
    requires es != []
  {
    es[..|es| - 1]
  }

  function Last(es: seq<Event>): Event
    requires es != []
  {
    es[|es| - 1]
  }

  function Start(boot: nat): System {
    System(PowerUp(boot), {}, map[])
  }

  // ---------- States along a run ----------

  lemma {:induction false} LegalPrefix(s: System, es: seq<Event>, i: nat)
    requires Legal(s, es) && i <= |es|
    ensures Legal(s, es[..i])
  {
    if i == |es| {
      assert es[..i] == es;
    } else {
      LegalPrefix(s, Front(es), i);
      assert Front(es)[..i] == es[..i];
    }
  }

  lemma Append(s: System, es: seq<Event>, e: Event)
    requires Legal(s, es) && Offered(Run(s, es), e)
    ensures Legal(s, es + [e])
    ensures Run(s, es + [e]) == Step(Run(s, es), e)
  {
    assert Front(es + [e]) == es;
  }

  function At(s: System, es: seq<Event>, i: nat): System
    requires Legal(s, es) && i <= |es|
  {
    LegalPrefix(s, es, i);
    Run(s, es[..i])
  }

  lemma StepAt(s: System, es: seq<Event>, i: nat)
    requires Legal(s, es) && i < |es|
    ensures Offered(At(s, es, i), es[i])
    ensures At(s, es, i + 1) == Step(At(s, es, i), es[i])
  {
    LegalPrefix(s, es, i + 1);
    assert Front(es[..i + 1]) == es[..i];
  }

  lemma InvAt(s: System, es: seq<Event>, i: nat)
    requires Inv(s) && Legal(s, es) && i <= |es|
    ensures Inv(At(s, es, i))
  {
    LegalPrefix(s, es, i);
    RunKeepsInv(s, es[..i]);
  }

  lemma AtFront(s: System, es: seq<Event>, i: nat)
    requires Legal(s, es) && i < |es|
    ensures At(s, Front(es), i) == At(s, es, i)
  {
    assert Front(es)[..i] == es[..i];
  }

  // ---------- The invariant ----------

  /** The device holds one completed position, or the one it was powered up in. */
  predicate Settled(d: Device) {
    || (d.led4 == On && d.dpcState == DPC_ON && d.dpcStVal == DPC_ON)
    || (d.led4 == Off && d.dpcState == DPC_OFF && d.dpcStVal == DPC_OFF)
    || (d.led4 == Off && d.dpcState == DPC_INTERMEDIATE && d.dpcStVal == DPC_OFF)
  }

  predicate InTransit(d: Device) {
    d.led4 == Flashing && d.dpcState == DPC_INTERMEDIATE && d.dpcStVal == DPC_INTERMEDIATE
  }

  predicate OwnerModesAgree(s: System) {
    && (s.dev.automatic <==> s.dev.owner.None?)
    && (s.dev.owner.Some? ==> s.dev.owner.value in s.connected)
  }

  predicate DelaysNonNegative(d: Device) {
    0 <= d.onTime && 0 <= d.offTime
  }

  predicate Inv(s: System) {
    && OwnerModesAgree(s)
    && DelaysNonNegative(s.dev)
    && s.dev.opCntStVal == s.dev.opCnt
    && (if Busy(s) then InTransit(s.dev) else Settled(s.dev))
  }

  lemma StepKeepsInv(s: System, e: Event)
    requires Inv(s) && Offered(s, e)
    ensures Inv(Step(s, e))
  {
    assert Busy(Step(s, e)) <==> e.DpcBegin? || (Busy(s) && e != DpcEnd);
  }

  lemma {:induction false} RunKeepsInv(s: System, es: seq<Event>)
    requires Inv(s) && Legal(s, es)
    ensures Inv(Run(s, es))
  {
    if es != [] {
      RunKeepsInv(s, Front(es));
      StepKeepsInv(Run(s, Front(es)), Last(es));
    }
  }

  lemma ReachableInv(boot: nat, es: seq<Event>)
    requires Legal(Start(boot), es)
    ensures Inv(Run(Start(boot), es))
  {
    RunKeepsInv(Start(boot), es);
  }

  // ---------- Commands belong to the owner ----------

  predicate Exclusive(s: System) {
    forall o :: o in s.commands ==> s.dev.owner == Some(s.commands[o].c)
  }

  /** The connection ends with a command waiting or moving. */
  predicate CutsCommand(s: System, e: Event) {
    e.Disconnect? && exists o :: o in s.commands && s.commands[o].c == e.c
  }

  lemma StepKeepsExclusiveExactly(s: System, e: Event)
    requires Exclusive(s) && Offered(s, e)
    ensures Exclusive(Step(s, e)) <==> !CutsCommand(s, e)
  {
    var t := Step(s, e);
    if CutsCommand(s, e) {
      var o :| o in s.commands && s.commands[o].c == e.c;
      assert o in t.commands && t.dev.owner.None?;
    } else if e.Check? && s.commands != map[] {
      var o :| o in s.commands;
      assert s.dev.owner.Some?;
    }
  }

  /** No connection ends while it has a command. */
  predicate CommandsOutlived(s: System, es: seq<Event>)
    requires Legal(s, es)
  {
    forall i :: 0 <= i < |es| ==> !CutsCommand(At(s, es, i), es[i])
  }

  lemma {:induction false} OutlivedKeepsExclusive(s: System, es: seq<Event>, i: nat)
    requires Exclusive(s) && Legal(s, es) && CommandsOutlived(s, es) && i <= |es|
    ensures Exclusive(At(s, es, i))
  {
    if i > 0 {
      OutlivedKeepsExclusive(s, es, i - 1);
      StepAt(s, es, i - 1);
      StepKeepsExclusiveExactly(At(s, es, i - 1), es[i - 1]);
    }
  }

  /**
   Every command belongs to the owner at every point of a run exactly when no connection ends
   while it has a command, be it waiting or moving.
   */
  lemma ExclusiveThroughoutExactly(boot: nat, es: seq<Event>)
    requires Legal(Start(boot), es)
    ensures (forall i :: 0 <= i <= |es| ==> Exclusive(At(Start(boot), es, i)))
            <==> CommandsOutlived(Start(boot), es)
  {
    var s := Start(boot);
    if CommandsOutlived(s, es) {
      forall i | 0 <= i <= |es| ensures Exclusive(At(s, es, i)) {
        OutlivedKeepsExclusive(s, es, i);
      }
    }
    if forall i :: 0 <= i <= |es| ==> Exclusive(At(s, es, i)) {
      forall i | 0 <= i < |es| ensures !CutsCommand(At(s, es, i), es[i]) {
        StepAt(s, es, i);
        assert Exclusive(At(s, es, i)) && Exclusive(At(s, es, i + 1));
        StepKeepsExclusiveExactly(At(s, es, i), es[i]);
      }
    }
  }
}
