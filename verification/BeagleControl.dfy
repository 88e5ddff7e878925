/** What whole runs of the demo server guarantee about control authority and the double point output. */
module BeagleControl {
  import opened Common
  import opened BeagleDevice
  import opened BeagleRuns

  // ---------- The double point command ----------

  /** From its first half to its second, a double point command stays as it was begun and publishes 0. */
  lemma {:induction false} CommandHoldsOutput(s: System, es: seq<Event>, i: nat, j: nat)
    requires Inv(s) && Legal(s, es) && i < j <= |es|
    requires es[i].DpcBegin? && forall k :: i < k < j ==> !es[k].DpcEnd?
    ensures DPCSO1 in At(s, es, j).commands
    ensures At(s, es, j).commands[DPCSO1] == Moving(es[i].c, es[i].on, es[i].now)
    ensures InTransit(At(s, es, j).dev) && At(s, es, j).dev.dpcT == es[i].now
  {
    StepAt(s, es, j - 1);
    InvAt(s, es, j);
    if i + 1 < j {
      CommandHoldsOutput(s, es, i, j - 1);
    }
  }

  predicate SamePosition(d: Device, d': Device) {
    d.led4 == d'.led4 && d.dpcState == d'.dpcState && d.dpcStVal == d'.dpcStVal && d.dpcT == d'.dpcT
  }

  /** Until the next command the position is left alone by everybody. */
  lemma {:induction false} PositionPersists(s: System, es: seq<Event>, j: nat, m: nat)
    requires Legal(s, es) && j <= m <= |es|
    requires !Busy(At(s, es, j)) && forall k :: j <= k < m ==> !es[k].DpcBegin?
    ensures !Busy(At(s, es, m))
    ensures SamePosition(At(s, es, j).dev, At(s, es, m).dev)
  {
    if j < m {
      PositionPersists(s, es, j, m - 1);
      StepAt(s, es, m - 1);
    }
  }

  predicate ShowsPosition(d: Device, on: bool) {
    && d.led4 == (if on then On else Off)
    && d.dpcState == d.dpcStVal == (if on then 2 else 1)
  }

  predicate IsHandler(e: Event) {
    e.Operate? || e.DpcBegin? || e.DpcEnd? || e.ResetCounter?
  }

  /** Nothing else runs on the worker thread between the halves of a command, and 0 is published. */
  lemma NothingRunsDuringMove(s: System, es: seq<Event>, i: nat, k: nat)
    requires Inv(s) && Legal(s, es) && i < k <= |es|
    requires es[i].DpcBegin? && forall q :: i < q < k ==> !es[q].DpcEnd?
    ensures var d := At(s, es, k).dev;
            d.led4 == Flashing && d.dpcState == d.dpcStVal == 0 && d.dpcT == es[i].now
    ensures k < |es| ==> !IsHandler(es[k]) || es[k].DpcEnd?
  {
    CommandHoldsOutput(s, es, i, k);
    if k < |es| {
      StepAt(s, es, k);
    }
  }

  /**
   Between the halves of a command, begun at `i` and ended at `j`, no other control handler runs and
   0 is published. LED4, the state and the published value are left on the commanded position, where
   they stay up to any later point `m` with no new command before it.
   */
  lemma DpcCommandCompletes(s: System, es: seq<Event>, i: nat, j: nat, m: nat)
    requires Inv(s) && Legal(s, es) && i < j < m <= |es|
    requires es[i].DpcBegin? && es[j].DpcEnd? && forall k :: i < k < j ==> !es[k].DpcEnd?
    requires forall k :: j < k < m ==> !es[k].DpcBegin?
    ensures forall k :: i < k < j ==> !IsHandler(es[k])
    ensures forall k :: i < k <= j ==>
              var d := At(s, es, k).dev;
              d.led4 == Flashing && d.dpcState == d.dpcStVal == 0 && d.dpcT == es[i].now
    ensures ShowsPosition(At(s, es, m).dev, es[i].on) && At(s, es, m).dev.dpcT == es[i].now
  {
    forall k | i < k <= j
      ensures var d := At(s, es, k).dev;
              d.led4 == Flashing && d.dpcState == d.dpcStVal == 0 && d.dpcT == es[i].now
      ensures k < j ==> !IsHandler(es[k])
    {
      NothingRunsDuringMove(s, es, i, k);
    }
    CommandHoldsOutput(s, es, i, j);
    StepAt(s, es, j);
    PositionPersists(s, es, j + 1, m);
  }

  /** Before its first command the output is dark and off, while its internal state already says 0. */
  lemma RestsUntilFirstMove(boot: nat, es: seq<Event>)
    requires Legal(Start(boot), es) && forall k :: 0 <= k < |es| ==> !es[k].DpcBegin?
    ensures var d := Run(Start(boot), es).dev;
            d.led4 == Off && d.dpcState == 0 && d.dpcStVal == 1 && d.dpcT == 0
  {
    assert es[..0] == [] && es[..|es|] == es;
    PositionPersists(Start(boot), es, 0, |es|);
  }

  predicate AllOwnedBy(s: System, c: Connection) {
    s.dev.owner == Some(c) && forall o :: o in s.commands ==> s.commands[o].c == c
  }

  /**
   If no connection ends while it has a command, the client of a double point command owns the
   device from the first half to the second, and whatever waits meanwhile is its own.
   */
  lemma CommandHoldsDevice(s: System, es: seq<Event>, i: nat, k: nat)
    requires Inv(s) && Exclusive(s) && Legal(s, es) && CommandsOutlived(s, es) && i < k <= |es|
    requires es[i].DpcBegin? && forall q :: i < q < k ==> !es[q].DpcEnd?
    ensures AllOwnedBy(At(s, es, k), es[i].c)
    ensures k < |es| && es[k].DpcEnd? ==> AllOwnedBy(At(s, es, k + 1), es[i].c)
  {
    CommandHoldsOutput(s, es, i, k);
    OutlivedKeepsExclusive(s, es, k);
    OwnsItsCommand(At(s, es, k), DPCSO1);
    if k < |es| && es[k].DpcEnd? {
      StepAt(s, es, k);
      EndKeepsOwner(At(s, es, k), es[i].c);
    }
  }

  lemma OwnsItsCommand(s: System, o: Output)
    requires Exclusive(s) && o in s.commands
    ensures AllOwnedBy(s, s.commands[o].c)
  {
  }

  lemma EndKeepsOwner(s: System, c: Connection)
    requires AllOwnedBy(s, c) && Offered(s, DpcEnd)
    ensures AllOwnedBy(Step(s, DpcEnd), c)
  {
  }

  /**
   The connection of a moving command ends: a second client takes the device over and is accepted
   for another output while the first command still moves the double point output.
   */
  lemma OwnershipChangesDuringMove(boot: nat, a: Connection, b: Connection)
    requires a != b
    ensures
      var es := [Connect(a), Connect(b), Check(a, DPCSO1, true, false), DpcBegin(a, true, boot), Disconnect(a),
                 Check(b, SPCSO1, true, false)];
      && Legal(Start(boot), es)
      && var s := Run(Start(boot), es);
      s.dev.owner == Some(b) && s.commands == map[DPCSO1 := Moving(a, true, boot), SPCSO1 := Waiting(b, true)]
  {
    var e1, e2, e3 := Connect(a), Connect(b), Check(a, DPCSO1, true, false);
    var e4, e5, e6 := DpcBegin(a, true, boot), Disconnect(a), Check(b, SPCSO1, true, false);
    SixSteps(Start(boot), e1, e2, e3, e4, e5, e6);
  }

  /** The same while the command still waits: its handler starts when somebody else owns the device. */
  lemma CommandStartsForFormerOwner(boot: nat, a: Connection, b: Connection)
    requires a != b
    ensures
      var es := [Connect(a), Connect(b), Check(a, DPCSO1, true, false), Disconnect(a), Check(b, SPCSO1, true, false),
                 DpcBegin(a, true, boot)];
      && Legal(Start(boot), es)
      && var s := Run(Start(boot), es);
      s.dev.owner == Some(b) && s.commands == map[DPCSO1 := Moving(a, true, boot), SPCSO1 := Waiting(b, true)]
  {
    var e1, e2, e3 := Connect(a), Connect(b), Check(a, DPCSO1, true, false);
    var e4, e5, e6 := Disconnect(a), Check(b, SPCSO1, true, false), DpcBegin(a, true, boot);
    SixSteps(Start(boot), e1, e2, e3, e4, e5, e6);
  }

  lemma SixSteps(s: System, e1: Event, e2: Event, e3: Event, e4: Event, e5: Event, e6: Event)
    requires Offered(s, e1) && var s1 := Step(s, e1); Offered(s1, e2) && var s2 := Step(s1, e2);
             Offered(s2, e3) && var s3 := Step(s2, e3); Offered(s3, e4) && var s4 := Step(s3, e4);
             Offered(s4, e5) && Offered(Step(s4, e5), e6)
    ensures Legal(s, [e1, e2, e3, e4, e5, e6])
    ensures Run(s, [e1, e2, e3, e4, e5, e6])
            == Step(Step(Step(Step(Step(Step(s, e1), e2), e3), e4), e5), e6)
  {
    assert [] + [e1] == [e1] && [e1] + [e2] == [e1, e2] && [e1, e2] + [e3] == [e1, e2, e3];
    assert [e1, e2, e3] + [e4] == [e1, e2, e3, e4] && [e1, e2, e3, e4] + [e5] == [e1, e2, e3, e4, e5];
    assert [e1, e2, e3, e4, e5] + [e6] == [e1, e2, e3, e4, e5, e6];
    Append(s, [], e1);
    Append(s, [e1], e2);
    Append(s, [e1, e2], e3);
    Append(s, [e1, e2, e3], e4);
    Append(s, [e1, e2, e3, e4], e5);
    Append(s, [e1, e2, e3, e4, e5], e6);
  }

  // ---------- Handlers and checks ----------

  predicate Starts(e: Event, o: Output) {
    (e.Operate? && e.o == o) || (e.DpcBegin? && o.DPCSO1?)
  }

  /** The check at `i` was accepted, and its command has not started yet. */
  predicate Awaits(s: System, es: seq<Event>, i: nat, o: Output)
    requires Legal(s, es) && i < |es|
  {
    && es[i].Check? && es[i].o == o
    && VerdictFor(At(s, es, i).dev, es[i].c, es[i].test) == Accepted
    && forall k :: i < k < |es| ==> !Starts(es[k], o)
  }

  lemma AwaitsStep(s: System, es: seq<Event>, i: nat, o: Output)
    requires Legal(s, es) && i < |es| - 1
    ensures Awaits(s, es, i, o) <==> Awaits(s, Front(es), i, o) && !Starts(Last(es), o)
  {
    AtFront(s, es, i);
    assert forall k :: 0 <= k < |es| - 1 ==> Front(es)[k] == es[k];
    assert Starts(Last(es), o) == Starts(es[|es| - 1], o);
  }

  lemma {:induction false} AwaitedCommandWaits(s: System, es: seq<Event>, i: nat, o: Output)
    requires Legal(s, es) && i < |es| && Awaits(s, es, i, o)
    ensures o in Run(s, es).commands && Run(s, es).commands[o] == Waiting(es[i].c, es[i].on)
  {
    StepAt(s, es, i);
    if i == |es| - 1 {
      assert es[..i] == Front(es) && es[..i + 1] == es;
    } else {
      AwaitsStep(s, es, i, o);
      AwaitedCommandWaits(s, Front(es), i, o);
    }
  }

  lemma {:induction false} WaitingCommandIsAwaited(boot: nat, es: seq<Event>, o: Output)
    requires Legal(Start(boot), es)
    requires o in Run(Start(boot), es).commands && Run(Start(boot), es).commands[o].Waiting?
    ensures exists i :: 0 <= i < |es| && Awaits(Start(boot), es, i, o)
  {
    var s := Start(boot);
    var f, n := Front(es), |es| - 1;
    StepAt(s, es, n);
    assert es[..n] == f;
    if es[n].Check? && es[n].o == o {
      assert o in Run(s, f).commands || Awaits(s, es, n, o);
    } else {
      WaitingCommandIsAwaited(boot, f, o);
      var i :| 0 <= i < n && Awaits(s, f, i, o);
      AwaitsStep(s, es, i, o);
      assert Awaits(s, es, i, o);
    }
  }

  /** A command waits exactly if a check of its client was accepted and no handler of the output started since. */
  lemma WaitsExactly(boot: nat, es: seq<Event>, o: Output, c: Connection, on: bool)
    requires Legal(Start(boot), es)
    ensures o in Run(Start(boot), es).commands && Run(Start(boot), es).commands[o] == Waiting(c, on) <==>
            exists i :: 0 <= i < |es| && Awaits(Start(boot), es, i, o) && es[i].c == c && es[i].on == on
  {
    var s := Start(boot);
    if o in Run(s, es).commands && Run(s, es).commands[o].Waiting? {
      WaitingCommandIsAwaited(boot, es, o);
    }
    forall i | 0 <= i < |es| && Awaits(s, es, i, o)
      ensures o in Run(s, es).commands && Run(s, es).commands[o] == Waiting(es[i].c, es[i].on)
    {
      AwaitedCommandWaits(s, es, i, o);
    }
  }

  /** So each handler runs for the client and the value of an accepted check that no handler has served yet. */
  lemma HandlersFollowChecks(boot: nat, es: seq<Event>, j: nat, o: Output)
    requires Legal(Start(boot), es) && j < |es| && Starts(es[j], o)
    ensures Legal(Start(boot), es[..j])
    ensures exists i :: 0 <= i < j && Awaits(Start(boot), es[..j], i, o) && es[i] == Check(es[j].c, o, es[j].on, false)
  {
    LegalPrefix(Start(boot), es, j);
    StepAt(Start(boot), es, j);
    WaitsExactly(boot, es[..j], o, es[j].c, es[j].on);
    var i :| 0 <= i < j && Awaits(Start(boot), es[..j], i, o) && es[..j][i].c == es[j].c && es[..j][i].on == es[j].on;
    assert es[i] == es[..j][i];
  }

  /** A client is connected exactly if its last connection event opened it. */
  lemma {:induction false} ConnectedExactly(boot: nat, es: seq<Event>, c: Connection)
    requires Legal(Start(boot), es)
    ensures c in Run(Start(boot), es).connected <==>
            exists i :: 0 <= i < |es| && es[i] == Connect(c) && forall k :: i < k < |es| ==> es[k] != Disconnect(c)
  {
    if es != [] {
      var f, n := Front(es), |es| - 1;
      ConnectedExactly(boot, f, c);
      assert forall k :: 0 <= k < n ==> f[k] == es[k];
      if es[n] == Connect(c) {
        assert es[n] == Connect(c);
      } else if es[n] != Disconnect(c) {
        if i :| 0 <= i < n && f[i] == Connect(c) && forall k :: i < k < n ==> f[k] != Disconnect(c) {
          assert es[i] == Connect(c);
        }
      }
    }
  }

  // ---------- The settings ----------

  // ---------- The settings ----------

  function LastSetting(es: seq<Event>, a: Setting): int32 {
    if es == [] then 1000
    else if Last(es).WriteSetting? && Last(es).a == a && Last(es).v >= 0 then Last(es).v
    else LastSetting(Front(es), a)
  }

  lemma StepDelays(s: System, e: Event)
    requires Offered(s, e)
    ensures Step(s, e).dev.offTime == if e.WriteSetting? && e.a == OpDlTmms && e.v >= 0 then e.v else s.dev.offTime
    ensures Step(s, e).dev.onTime == if e.WriteSetting? && e.a == RsDlTmms && e.v >= 0 then e.v else s.dev.onTime
  {
  }

  /** OpDlTmms is the off delay and RsDlTmms the on delay: the last non-negative value written, else 1000. */
  lemma {:induction false} DelaysAreLastWrites(boot: nat, es: seq<Event>)
    requires Legal(Start(boot), es)
    ensures Run(Start(boot), es).dev.offTime == LastSetting(es, OpDlTmms)
    ensures Run(Start(boot), es).dev.onTime == LastSetting(es, RsDlTmms)
  {
    if es != [] {
      DelaysAreLastWrites(boot, Front(es));
      StepDelays(Run(Start(boot), Front(es)), Last(es));
    }
  }

  // ---------- The sleep is invisible to everybody else ----------

  lemma BeginCommutes(s: System, b: Event, e: Event)
    requires b.DpcBegin? && Offered(s, b) && Offered(Step(s, b), e) && !e.DpcEnd?
    ensures Offered(s, e) && Offered(Step(s, e), b)
    ensures Step(Step(s, e), b) == Step(Step(s, b), e)
  {
    assert Step(Step(s, e), b).commands == Step(Step(s, b), e).commands;
  }

  lemma {:induction false} BeginMovesRight(s: System, b: Event, mid: seq<Event>)
    requires b.DpcBegin? && Legal(s, [b] + mid) && DpcEnd !in mid
    ensures Legal(s, mid) && Legal(s, mid + [b])
    ensures Run(s, mid + [b]) == Run(s, [b] + mid)
  {
    if mid == [] {
      assert mid + [b] == [b] + mid == [b];
      assert Front([b]) == [];
    } else {
      var m, e := Front(mid), Last(mid);
      assert Front([b] + mid) == [b] + m && Last([b] + mid) == e;
      BeginMovesRight(s, b, m);
      assert Front(m + [b]) == m;
      BeginCommutes(Run(s, m), b, e);
      assert Front(mid + [b]) == mid;
    }
  }

  /**
   Splitting the handler at its sleep loses nothing: whatever connections, checks, settings and
   ticks do between the two halves, the run ends as if both halves had run together at the end.
   */
  lemma DpcCommandIsAtomic(s: System, b: Event, mid: seq<Event>)
    requires b.DpcBegin? && DpcEnd !in mid && Legal(s, [b] + mid + [DpcEnd])
    ensures Legal(s, mid + [b, DpcEnd])
    ensures Run(s, mid + [b, DpcEnd]) == Run(s, [b] + mid + [DpcEnd])
  {
    var split, joined := [b] + mid + [DpcEnd], mid + [b, DpcEnd];
    assert Front(split) == [b] + mid && Front(joined) == mid + [b];
    BeginMovesRight(s, b, mid);
  }

  // ---------- Who owns the device ----------

  /** The disconnect of the owner, the only event that frees the device. */
  predicate Release(s: System, es: seq<Event>, q: nat)
    requires Legal(s, es) && q < |es|
  {
    es[q].Disconnect? && At(s, es, q).dev.owner == Some(es[q].c)
  }

  /** The position just after the last release, or the beginning. */
  function Epoch(s: System, es: seq<Event>): (r: nat)
    requires Legal(s, es)
    ensures r <= |es|
    ensures r == 0 || Release(s, es, r - 1)
    ensures forall q :: r <= q < |es| ==> !Release(s, es, q)
  {
    if es == [] then 0
    else if Release(s, es, |es| - 1) then |es|
    else
      var r := Epoch(s, Front(es));
      assert forall q :: 0 <= q < |es| - 1 ==> (Release(s, es, q) <==> Release(s, Front(es), q)) by {
        forall q | 0 <= q < |es| - 1 ensures Release(s, es, q) <==> Release(s, Front(es), q) {
          AtFront(s, es, q);
        }
      }
      r
  }

  /** The first call of the check handler at or after `r`, test or not. */
  function FirstCheck(es: seq<Event>, r: nat): (j: nat)
    requires r <= |es|
    ensures r <= j <= |es|
    ensures forall k :: r <= k < j ==> !es[k].Check?
    ensures j < |es| ==> es[j].Check?
    decreases |es| - r
  {
    if r == |es| || es[r].Check? then r else FirstCheck(es, r + 1)
  }

  /** The owner as an observer of the calls would name it. */
  function FirstClaimant(s: System, es: seq<Event>): Option<Connection>
    requires Legal(s, es)
  {
    var j := FirstCheck(es, Epoch(s, es));
    if j < |es| then Some(es[j].c) else None
  }

  /** Only a release or, while nobody has claimed the device, a check changes the first claimant. */
  lemma FirstClaimantStep(s: System, es: seq<Event>)
    requires Legal(s, es) && es != []
    ensures FirstClaimant(s, es) ==
            if Release(s, es, |es| - 1) then None
            else if FirstClaimant(s, Front(es)).None? && Last(es).Check? then Some(Last(es).c)
            else FirstClaimant(s, Front(es))
  {
    var n := |es| - 1;
    if !Release(s, es, n) {
      var r := Epoch(s, es);
      assert r == Epoch(s, Front(es));
      var j, k := FirstCheck(Front(es), r), FirstCheck(es, r);
      assert j < n ==> k == j;
      assert j == n ==> k >= n;
    }
  }

  /** After any run the owner is the first client that called the check handler since the last release. */
  lemma {:induction false} OwnerIsFirstClaimant(boot: nat, es: seq<Event>)
    requires Legal(Start(boot), es)
    ensures Run(Start(boot), es).dev.owner == FirstClaimant(Start(boot), es)
  {
    var s := Start(boot);
    if es != [] {
      OwnerIsFirstClaimant(boot, Front(es));
      FirstClaimantStep(s, es);
      assert es[..|es| - 1] == Front(es);
    }
  }

  /** A check is accepted exactly when it is no test and its caller is that first claimant. */
  lemma AcceptedExactlyForClaimant(boot: nat, es: seq<Event>, i: nat)
    requires Legal(Start(boot), es) && i < |es| && es[i].Check?
    ensures Legal(Start(boot), es[..i + 1])
    ensures VerdictFor(At(Start(boot), es, i).dev, es[i].c, es[i].test) == Accepted
            <==> !es[i].test && FirstClaimant(Start(boot), es[..i + 1]) == Some(es[i].c)
  {
    LegalPrefix(Start(boot), es, i + 1);
    StepAt(Start(boot), es, i);
    OwnerIsFirstClaimant(boot, es[..i + 1]);
  }

  /**
   A refused check leaves the device as it is exactly when somebody has claimed it already. So a
   refused one that does change it is a test, and makes its caller the owner.
   */
  lemma RefusedCheckChangesNothingExactly(boot: nat, es: seq<Event>, i: nat)
    requires Legal(Start(boot), es) && i < |es| && es[i].Check?
    requires VerdictFor(At(Start(boot), es, i).dev, es[i].c, es[i].test) != Accepted
    ensures Legal(Start(boot), es[..i])
    ensures At(Start(boot), es, i + 1).dev == At(Start(boot), es, i).dev
            <==> FirstClaimant(Start(boot), es[..i]).Some?
    ensures FirstClaimant(Start(boot), es[..i]).None? ==>
              es[i].test && At(Start(boot), es, i + 1).dev.owner == Some(es[i].c)
  {
    LegalPrefix(Start(boot), es, i);
    StepAt(Start(boot), es, i);
    OwnerIsFirstClaimant(boot, es[..i]);
  }

  /** One refused test locks all other clients out and stops the automatic mode. */
  lemma TestCheckLocksOut(boot: nat, a: Connection, b: Connection, o: Output)
    requires a != b
    ensures
      var es := [Connect(a), Connect(b), Check(a, o, true, true)];
      && Legal(Start(boot), es)
      && var s := Run(Start(boot), es);
      && s.dev.owner == Some(a) && !s.dev.automatic && s.commands == map[]
      && Offered(s, Check(b, o, true, false)) && VerdictFor(s.dev, b, false) != Accepted
  {
    var e1, e2, e3 := Connect(a), Connect(b), Check(a, o, true, true);
    assert [] + [e1] == [e1] && [e1] + [e2] == [e1, e2] && [e1, e2] + [e3] == [e1, e2, e3];
    Append(Start(boot), [], e1);
    Append(Start(boot), [e1], e2);
    Append(Start(boot), [e1, e2], e3);
  }

  lemma {:induction false} OwnerStaysUntilRelease(s: System, es: seq<Event>, i: nat, j: nat)
    requires Legal(s, es) && i <= j <= |es| && At(s, es, i).dev.owner.Some?
    requires forall q :: i <= q < j ==> !Release(s, es, q)
    ensures At(s, es, j).dev.owner == At(s, es, i).dev.owner
  {
    if i < j {
      OwnerStaysUntilRelease(s, es, i, j - 1);
      StepAt(s, es, j - 1);
      assert !Release(s, es, j - 1);
    }
  }

  /** Every accepted verdict between two releases goes to one and the same client. */
  lemma OneControllerBetweenReleases(s: System, es: seq<Event>, i: nat, j: nat)
    requires Legal(s, es) && i < j < |es| && es[i].Check? && es[j].Check?
    requires VerdictFor(At(s, es, i).dev, es[i].c, es[i].test) == Accepted
    requires VerdictFor(At(s, es, j).dev, es[j].c, es[j].test) == Accepted
    requires forall q :: i < q < j ==> !Release(s, es, q)
    ensures es[i].c == es[j].c
  {
    StepAt(s, es, i);
    OwnerStaysUntilRelease(s, es, i + 1, j);
  }

  // ---------- A controlled device ignores the clock ----------

  predicate OwnedThroughout(s: System, es: seq<Event>)
    requires Legal(s, es)
  {
    Run(s, es).dev.owner.Some? && (es == [] || OwnedThroughout(s, Front(es)))
  }

  function WithoutTicks(es: seq<Event>): seq<Event> {
    if es == [] then []
    else WithoutTicks(Front(es)) + (if Last(es).Tick? then [] else [Last(es)])
  }

  /** While some client owns the device, all ticks can be struck from a run without changing its end. */
  lemma {:induction false} OwnedRunsIgnoreTicks(s: System, es: seq<Event>)
    requires Inv(s) && Legal(s, es) && OwnedThroughout(s, es)
    ensures Legal(s, WithoutTicks(es))
    ensures Run(s, WithoutTicks(es)) == Run(s, es)
  {
    if es != [] {
      var f := Front(es);
      OwnedRunsIgnoreTicks(s, f);
      RunKeepsInv(s, f);
      if !Last(es).Tick? {
        assert Front(WithoutTicks(es)) == WithoutTicks(f) && Last(WithoutTicks(es)) == Last(es);
      } else {
        assert WithoutTicks(es) == WithoutTicks(f);
      }
    }
  }
}
