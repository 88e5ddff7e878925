/**
 The sampled values publisher and the main loop around it: what the menu and the buttons do to the
 publisher, and when it broadcasts.
 */
module SampledValues {
  import opened Common

  const MAX_NUM_CHANNELS := 16
  const MAX_NUM_VALUES := 16

  datatype ValueConfig = Manual | Sine | Timestamp

  /** A value's id is its offset in the data of the channel. */
  datatype Slot = Slot(id: nat, config: ValueConfig)

  /** `dataSize` and `smpCnt` are kept by the native ASDU; removing a value does not shrink the data. */
  datatype Channel = Channel(name: string, values: seq<Slot>, dataSize: nat, smpCnt: nat)

  datatype State = State(interface: string, channels: seq<Channel>, running: bool, setupCompleted: bool)

  datatype Op =
    | Start
    | Stop
    | SelectNetwork(name: string)
    | NewChannel(name: string)
    | RemoveChannel
    | NewValue(i: nat)
    | RemoveValue(i: nat)
    | Configure(i: nat, j: nat, config: ValueConfig)
    | Frame

  // ---------- What each operation does ----------

  function Reset(interface: string): State {
    State(interface, [], false, false)
  }

  function WithChannel(s: State, name: string): State {
    if |s.channels| <= MAX_NUM_CHANNELS then s.(channels := s.channels + [Channel(name, [], 0, 0)]) else s
  }

  function WithValue(c: Channel): Channel {
    c.(values := c.values + [Slot(c.dataSize, Manual)], dataSize := c.dataSize + 4)
  }

  function Counted(c: Channel): Channel {
    c.(smpCnt := (c.smpCnt + 1) % WORD16)
  }

  function CountedAll(cs: seq<Channel>): seq<Channel> {
    seq(|cs|, k requires 0 <= k < |cs| => Counted(cs[k]))
  }

  function Broadcasted(s: State): State {
    if !s.running || !s.setupCompleted then s else s.(channels := CountedAll(s.channels))
  }

  /** The buttons that change the layout are inert while the publisher runs. */
  predicate Offered(s: State, op: Op) {
    match op
    case NewChannel(_) => !s.running
    case RemoveChannel => !s.running && s.channels != []
    case NewValue(i) => !s.running && i < |s.channels|
    case RemoveValue(i) => !s.running && i < |s.channels| && s.channels[i].values != []
    case Configure(i, j, _) => i < |s.channels| && j < |s.channels[i].values|
    case _ => true
  }

  function Step(s: State, op: Op): State
    requires Offered(s, op)
  {
    match op
    case Start => s.(setupCompleted := true, running := true)
    case Stop => Reset(s.interface)
    case SelectNetwork(name) => Reset(name)
    case NewChannel(name) => WithChannel(s, name)
    case RemoveChannel => s.(channels := s.channels[..|s.channels| - 1])
    case NewValue(i) => s.(channels := s.channels[i := WithValue(s.channels[i])])
    case RemoveValue(i) =>
      var c := s.channels[i];
      s.(channels := s.channels[i := c.(values := c.values[..|c.values| - 1])])
    case Configure(i, j, config) =>
      var c := s.channels[i];
      s.(channels := s.channels[i := c.(values := c.values[j := c.values[j].(config := config)])])
    case Frame => Broadcasted(s)
  }

  /** The program starts with one channel that has one value. */
  function Initial(interface: string): State {
    State(interface, [Channel("svpub1", [Slot(0, Manual)], 4, 0)], false, false)
  }

  predicate Legal(s: State, ops: seq<Op>)
    decreases |ops|, 0
  {
    ops == [] || (Legal(s, ops[..|ops| - 1]) && Offered(Run(s, ops[..|ops| - 1]), ops[|ops| - 1]))
  }

  function Run(s: State, ops: seq<Op>): State
    requires Legal(s, ops)
    decreases |ops|, 1
  {
    if ops == [] then s else Step(Run(s, ops[..|ops| - 1]), ops[|ops| - 1])
  }

  // ---------- What holds on every run ----------

  /** The values of a channel occupy different four byte places of its data. */
  predicate SlotsApart(c: Channel) {
    && (forall j :: 0 <= j < |c.values| ==> c.values[j].id + 4 <= c.dataSize)
    && forall j, k :: 0 <= j < k < |c.values| ==> c.values[j].id + 4 <= c.values[k].id
  }

  predicate Resets(op: Op) {
    op.Stop? || op.SelectNetwork?
  }

  /** The frames that were really sent since the publisher was last replaced. */
  function FramesSent(s: State, ops: seq<Op>): nat
    requires Legal(s, ops)
  {
    if ops == [] || Resets(ops[|ops| - 1]) then 0
    else
      var front := ops[..|ops| - 1];
      FramesSent(s, front) + (if ops[|ops| - 1].Frame? && Run(s, front).running then 1 else 0)
  }

  predicate Inv(s: State, sent: nat) {
    && (s.running <==> s.setupCompleted)
    && (!s.running ==> sent == 0)
    && |s.channels| <= MAX_NUM_CHANNELS + 1
    && forall i :: 0 <= i < |s.channels| ==> SlotsApart(s.channels[i]) && s.channels[i].smpCnt == sent % WORD16
  }

  function SentAfter(s: State, op: Op, sent: nat): nat {
    if Resets(op) then 0 else if op.Frame? && s.running then sent + 1 else sent
  }

  /** Changing the values of one channel: only their places matter. */
  lemma EditKeepsInv(s: State, i: nat, c: Channel, sent: nat)
    requires Inv(s, sent) && i < |s.channels| && SlotsApart(c) && c.smpCnt == s.channels[i].smpCnt
    ensures Inv(s.(channels := s.channels[i := c]), sent)
  {
  }

  lemma StepKeepsInv(s: State, op: Op, sent: nat)
    requires Inv(s, sent) && Offered(s, op)
    ensures Inv(Step(s, op), SentAfter(s, op, sent))
  {
    match op
    case NewValue(i) => EditKeepsInv(s, i, WithValue(s.channels[i]), sent);
    case RemoveValue(i) => EditKeepsInv(s, i, Step(s, op).channels[i], sent);
    case Configure(i, j, config) => EditKeepsInv(s, i, Step(s, op).channels[i], sent);
    case Frame =>
      forall i | 0 <= i < |s.channels| ensures SlotsApart(Counted(s.channels[i])) {
        assert SlotsApart(s.channels[i]);
      }
    case _ =>
  }

  /**
   On every run of the program: it runs exactly when its setup is complete; there are never more
   than 17 channels; the values of a channel keep apart; and all channels carry one sample count,
   the number of frames sent since the last reset, modulo the width of the counter.
   */
  lemma {:induction false} PublisherInvariant(interface: string, ops: seq<Op>)
    requires Legal(Initial(interface), ops)
    ensures Inv(Run(Initial(interface), ops), FramesSent(Initial(interface), ops))
  {
    var s := Initial(interface);
    if ops != [] {
      var front := ops[..|ops| - 1];
      PublisherInvariant(interface, front);
      StepKeepsInv(Run(s, front), ops[|ops| - 1], FramesSent(s, front));
    }
  }

  datatype ChannelLayout = ChannelLayout(name: string, ids: seq<nat>)

  function LayoutOf(c: Channel): ChannelLayout {
    ChannelLayout(c.name, seq(|c.values|, j requires 0 <= j < |c.values| => c.values[j].id))
  }

  /** Names and places, without configurations and counters. */
  function Layout(s: State): seq<ChannelLayout> {
    seq(|s.channels|, i requires 0 <= i < |s.channels| => LayoutOf(s.channels[i]))
  }

  /** From the start of broadcasting up to the next reset the layout does not change, whatever is pressed. */
  lemma {:induction false} LayoutIsFrozen(s: State, ops: seq<Op>)
    requires s.running && Legal(s, ops) && forall k :: 0 <= k < |ops| ==> !Resets(ops[k])
    ensures Run(s, ops).running
    ensures Layout(Run(s, ops)) == Layout(s)
  {
    if ops != [] {
      LayoutIsFrozen(s, ops[..|ops| - 1]);
      var t, u := Run(s, ops[..|ops| - 1]), Run(s, ops);
      forall i | 0 <= i < |t.channels| ensures LayoutOf(u.channels[i]) == LayoutOf(t.channels[i]) {
      }
    }
  }

  // ---------- What the operations leave behind ----------

  predicate ResetSince(ops: seq<Op>, i: nat) {
    exists k :: i < k < |ops| && (ops[k].Stop? || ops[k].SelectNetwork?)
  }

  /** The network chosen last, or the one of the start. */
  function LastNetwork(interface: string, ops: seq<Op>): string {
    if ops == [] then interface
    else if ops[|ops| - 1].SelectNetwork? then ops[|ops| - 1].name
    else LastNetwork(interface, ops[..|ops| - 1])
  }

  /** The names of the channels, as the menu and the buttons add and take them away. */
  function NamesLeft(ops: seq<Op>): seq<string> {
    if ops == [] then ["svpub1"]
    else
      var before := NamesLeft(ops[..|ops| - 1]);
      match ops[|ops| - 1]
      case Stop => []
      case SelectNetwork(_) => []
      case NewChannel(name) => if |before| < 17 then before + [name] else before
      case RemoveChannel => if before == [] then [] else before[..|before| - 1]
      case _ => before
  }

  /** On every run: the interface is the one chosen last, the channels are those added and not taken away. */
  lemma {:induction false} InterfaceAndNames(interface: string, ops: seq<Op>)
    requires Legal(Initial(interface), ops)
    ensures Run(Initial(interface), ops).interface == LastNetwork(interface, ops)
    ensures |Run(Initial(interface), ops).channels| == |NamesLeft(ops)|
    ensures forall i :: 0 <= i < |NamesLeft(ops)| ==> Run(Initial(interface), ops).channels[i].name == NamesLeft(ops)[i]
  {
    if ops != [] {
      InterfaceAndNames(interface, ops[..|ops| - 1]);
    }
  }

  /** The publisher runs exactly if it was started and neither stop nor a network has been chosen since. */
  lemma {:induction false} RunsSinceStart(interface: string, ops: seq<Op>)
    requires Legal(Initial(interface), ops)
    ensures Run(Initial(interface), ops).running <==> exists i :: 0 <= i < |ops| && ops[i].Start? && !ResetSince(ops, i)
  {
    if ops != [] {
      var f, n := ops[..|ops| - 1], |ops| - 1;
      RunsSinceStart(interface, f);
      forall i | 0 <= i < n ensures ResetSince(ops, i) <==> ResetSince(f, i) || ops[n].Stop? || ops[n].SelectNetwork? {
        if ops[n].Stop? || ops[n].SelectNetwork? {
          assert i < n < |ops|;
        }
        if k :| i < k < |f| && (f[k].Stop? || f[k].SelectNetwork?) {
          assert ops[k] == f[k];
        }
        if k :| i < k < n && (ops[k].Stop? || ops[k].SelectNetwork?) {
          assert ops[k] == f[k];
        }
      }
      assert !ResetSince(ops, n);
      if i :| 0 <= i < n && f[i].Start? && !ResetSince(f, i) {
        assert ops[i] == f[i];
      }
      if i :| 0 <= i < n && ops[i].Start? && !ResetSince(ops, i) {
        assert ops[i] == f[i];
      }
    }
  }

  /** A reset leaves no channel and a publisher that neither runs nor is set up. */
  lemma ResetClearsAll(interface: string, ops: seq<Op>, op: Op)
    requires Legal(Initial(interface), ops) && (op.Stop? || op.SelectNetwork?)
    ensures Legal(Initial(interface), ops + [op])
    ensures var t := Run(Initial(interface), ops + [op]);
            t == State(if op.SelectNetwork? then op.name else LastNetwork(interface, ops), [], false, false)
  {
    Append(Initial(interface), ops, op);
    InterfaceAndNames(interface, ops);
  }

  predicate Keeps(op: Op) {
    !op.Stop? && !op.SelectNetwork? && !op.RemoveChannel? && !op.RemoveValue?
  }

  /** What was chosen last for a value. */
  function LastChoice(ops: seq<Op>, i: nat, j: nat, first: ValueConfig): ValueConfig {
    if ops == [] then first
    else
      var op := ops[|ops| - 1];
      if op.Configure? && op.i == i && op.j == j then op.config else LastChoice(ops[..|ops| - 1], i, j, first)
  }

  /** How often the button for new values was pressed in a channel. */
  function NewValues(ops: seq<Op>, i: nat): nat {
    if ops == [] then 0
    else NewValues(ops[..|ops| - 1], i) + if ops[|ops| - 1] == NewValue(i) then 1 else 0
  }

  /**
   While nothing is removed or reset, a value keeps its place and has the configuration chosen last
   for it; new values come behind, four bytes each, first as manual ones.
   */
  lemma {:induction false} ValuesFollowChoices(s: State, ops: seq<Op>, i: nat)
    requires Legal(s, ops) && i < |s.channels| && forall k :: 0 <= k < |ops| ==> Keeps(ops[k])
    ensures |s.channels| <= |Run(s, ops).channels|
    ensures
      var c, d := s.channels[i], Run(s, ops).channels[i];
      && |d.values| == |c.values| + NewValues(ops, i) && d.dataSize == c.dataSize + 4 * NewValues(ops, i)
      && (forall j :: 0 <= j < |d.values| ==>
            d.values[j] == Slot(if j < |c.values| then c.values[j].id else c.dataSize + 4 * (j - |c.values|),
                                LastChoice(ops, i, j, if j < |c.values| then c.values[j].config else Manual)))
  {
    if ops != [] {
      ValuesFollowChoices(s, ops[..|ops| - 1], i);
      NoChoiceAhead(s, ops[..|ops| - 1], i, |Run(s, ops[..|ops| - 1]).channels[i].values|, Manual);
    }
  }

  /** A value is configured only once it is there. */
  lemma {:induction false} NoChoiceAhead(s: State, ops: seq<Op>, i: nat, j: nat, first: ValueConfig)
    requires Legal(s, ops) && i < |s.channels| && forall k :: 0 <= k < |ops| ==> Keeps(ops[k])
    requires i < |Run(s, ops).channels| && j >= |Run(s, ops).channels[i].values|
    ensures LastChoice(ops, i, j, first) == first
  {
    if ops != [] {
      var before, op := Run(s, ops[..|ops| - 1]), ops[|ops| - 1];
      ValuesFollowChoices(s, ops[..|ops| - 1], i);
      NoChoiceAhead(s, ops[..|ops| - 1], i, j, first);
    }
  }

  /** A new channel is the last one and empty, unless there are 17. */
  lemma NewChannelIsEmpty(s: State, name: string)
    requires Offered(s, NewChannel(name))
    ensures Step(s, NewChannel(name))
            == if |s.channels| < 17 then s.(channels := s.channels + [Channel(name, [], 0, 0)]) else s
  {
  }

  /** A removed value is the last of its channel; all else stays, the grown data included. */
  lemma RemoveValueTakesLast(s: State, i: nat)
    requires Offered(s, RemoveValue(i))
    ensures
      var t := Step(s, RemoveValue(i));
      && t == s.(channels := t.channels) && |t.channels| == |s.channels|
      && (forall k :: 0 <= k < |s.channels| && k != i ==> t.channels[k] == s.channels[k])
      && exists v :: s.channels[i] == t.channels[i].(values := t.channels[i].values + [v])
  {
    var c, d := s.channels[i], Step(s, RemoveValue(i)).channels[i];
    assert c.values == d.values + [c.values[|c.values| - 1]];
    assert c == d.(values := d.values + [c.values[|c.values| - 1]]);
  }

  /** A removed channel is the last one; all else stays. */
  lemma RemoveChannelTakesLast(s: State)
    requires Offered(s, RemoveChannel)
    ensures
      var t := Step(s, RemoveChannel);
      && t == s.(channels := t.channels)
      && exists c :: s.channels == t.channels + [c]
  {
    assert s.channels == Step(s, RemoveChannel).channels + [s.channels[|s.channels| - 1]];
  }

  // ---------- The two constants ----------

  lemma {:induction false} LegalPrefix(s: State, ops: seq<Op>, i: nat)
    requires Legal(s, ops) && i <= |ops|
    ensures Legal(s, ops[..i])
  {
    if i == |ops| {
      assert ops[..i] == ops;
    } else {
      LegalPrefix(s, ops[..|ops| - 1], i);
      assert ops[..|ops| - 1][..i] == ops[..i];
    }
  }

  function At(s: State, ops: seq<Op>, i: nat): State
    requires Legal(s, ops) && i <= |ops|
  {
    LegalPrefix(s, ops, i);
    Run(s, ops[..i])
  }

  lemma StepAt(s: State, ops: seq<Op>, i: nat)
    requires Legal(s, ops) && i < |ops|
    ensures Offered(At(s, ops, i), ops[i]) && At(s, ops, i + 1) == Step(At(s, ops, i), ops[i])
  {
    LegalPrefix(s, ops, i + 1);
    assert ops[..i + 1][..i] == ops[..i];
  }

  predicate FewChannels(s: State) {
    |s.channels| <= MAX_NUM_CHANNELS
  }

  predicate FewValues(s: State) {
    forall i :: 0 <= i < |s.channels| ==> |s.channels[i].values| <= MAX_NUM_VALUES
  }

  predicate OneChannelTooMany(s: State, op: Op) {
    op.NewChannel? && |s.channels| == MAX_NUM_CHANNELS
  }

  predicate OneValueTooMany(s: State, op: Op)
    requires Offered(s, op)
  {
    op.NewValue? && |s.channels[op.i].values| == MAX_NUM_VALUES
  }

  lemma StepKeepsFewExactly(s: State, op: Op)
    requires Offered(s, op)
    ensures FewChannels(s) ==> (FewChannels(Step(s, op)) <==> !OneChannelTooMany(s, op))
    ensures FewValues(s) ==> (FewValues(Step(s, op)) <==> !OneValueTooMany(s, op))
  {
    if op.NewValue? && FewValues(s) {
      var t := Step(s, op);
      assert |t.channels[op.i].values| == |s.channels[op.i].values| + 1;
      assert forall i :: 0 <= i < |s.channels| && i != op.i ==> t.channels[i] == s.channels[i];
    }
  }

  predicate OneTooManyAt(s: State, ops: seq<Op>, i: nat)
    requires Legal(s, ops) && i < |ops|
  {
    StepAt(s, ops, i);
    OneChannelTooMany(At(s, ops, i), ops[i]) || OneValueTooMany(At(s, ops, i), ops[i])
  }

  predicate NeverOneTooMany(s: State, ops: seq<Op>)
    requires Legal(s, ops)
  {
    forall i :: 0 <= i < |ops| ==> !OneTooManyAt(s, ops, i)
  }

  /** Every value that the run ever shows has its place in the main loop's array of 16 times 16. */
  predicate AlwaysInsideArray(s: State, ops: seq<Op>)
    requires Legal(s, ops)
  {
    forall i :: 0 <= i <= |ops| ==> FewChannels(At(s, ops, i)) && FewValues(At(s, ops, i))
  }

  lemma {:induction false} NeverTooManyStaysFew(interface: string, ops: seq<Op>, i: nat)
    requires Legal(Initial(interface), ops) && NeverOneTooMany(Initial(interface), ops) && i <= |ops|
    ensures FewChannels(At(Initial(interface), ops, i)) && FewValues(At(Initial(interface), ops, i))
  {
    if i > 0 {
      NeverTooManyStaysFew(interface, ops, i - 1);
      StepAt(Initial(interface), ops, i - 1);
      assert !OneTooManyAt(Initial(interface), ops, i - 1);
      StepKeepsFewExactly(At(Initial(interface), ops, i - 1), ops[i - 1]);
    }
  }

  /**
   The constants say 16 and 16. From start-up on a run stays inside the array exactly when no new
   channel is pressed at 16 channels and no new value in a channel of 16; nothing else prevents that.
   */
  lemma ArrayHoldsExactly(interface: string, ops: seq<Op>)
    requires Legal(Initial(interface), ops)
    ensures AlwaysInsideArray(Initial(interface), ops) <==> NeverOneTooMany(Initial(interface), ops)
  {
    var s := Initial(interface);
    if NeverOneTooMany(s, ops) {
      forall i | 0 <= i <= |ops| ensures FewChannels(At(s, ops, i)) && FewValues(At(s, ops, i)) {
        NeverTooManyStaysFew(interface, ops, i);
      }
    }
    if AlwaysInsideArray(s, ops) {
      forall i | 0 <= i < |ops| ensures !OneTooManyAt(s, ops, i) {
        StepAt(s, ops, i);
        StepKeepsFewExactly(At(s, ops, i), ops[i]);
        assert FewChannels(At(s, ops, i + 1)) && FewValues(At(s, ops, i + 1));
      }
    }
  }

  /** The channels alone: there are never more than 16 exactly when none is added to 16. */
  lemma {:induction false} ChannelLimitExactly(interface: string, ops: seq<Op>)
    requires Legal(Initial(interface), ops)
    ensures (forall i :: 0 <= i <= |ops| ==> FewChannels(At(Initial(interface), ops, i)))
            <==> forall i :: 0 <= i < |ops| ==> !OneChannelTooMany(At(Initial(interface), ops, i), ops[i])
  {
    var s, n := Initial(interface), |ops|;
    if n > 0 {
      var f := ops[..n - 1];
      ChannelLimitExactly(interface, f);
      forall i | 0 <= i < n ensures At(s, f, i) == At(s, ops, i) && (i < n - 1 ==> f[i] == ops[i]) {
        assert f[..i] == ops[..i];
      }
      StepAt(s, ops, n - 1);
      StepKeepsFewExactly(At(s, ops, n - 1), ops[n - 1]);
    }
  }

  function Presses(op: Op, n: nat): seq<Op> {
    if n == 0 then [] else Presses(op, n - 1) + [op]
  }

  lemma Append(s: State, ops: seq<Op>, op: Op)
    requires Legal(s, ops) && Offered(Run(s, ops), op)
    ensures Legal(s, ops + [op]) && Run(s, ops + [op]) == Step(Run(s, ops), op)
  {
    assert (ops + [op])[..|ops + [op]| - 1] == ops;
  }

  /** Sixteen presses of the button after start-up lead to 17 channels. */
  lemma {:induction false} PressesAddChannels(interface: string, n: nat)
    requires n <= MAX_NUM_CHANNELS
    ensures Legal(Initial(interface), Presses(NewChannel(""), n))
    ensures |Run(Initial(interface), Presses(NewChannel(""), n)).channels| == n + 1
    ensures !Run(Initial(interface), Presses(NewChannel(""), n)).running
  {
    if n > 0 {
      PressesAddChannels(interface, n - 1);
      PressAddsChannel(Run(Initial(interface), Presses(NewChannel(""), n - 1)));
      Append(Initial(interface), Presses(NewChannel(""), n - 1), NewChannel(""));
    }
  }

  lemma PressAddsChannel(s: State)
    requires !s.running && |s.channels| <= MAX_NUM_CHANNELS
    ensures |Step(s, NewChannel("")).channels| == |s.channels| + 1 && !Step(s, NewChannel("")).running
  {
  }

  /** Any number of presses after start-up lead to one value more in the first channel. */
  lemma {:induction false} PressesAddValues(interface: string, n: nat)
    ensures Legal(Initial(interface), Presses(NewValue(0), n))
    ensures
      var t := Run(Initial(interface), Presses(NewValue(0), n));
      !t.running && |t.channels| == 1 && |t.channels[0].values| == n + 1
  {
    if n > 0 {
      PressesAddValues(interface, n - 1);
      Append(Initial(interface), Presses(NewValue(0), n - 1), NewValue(0));
    }
  }

  // ---------- The program itself ----------

  class Publisher {
    const interface: string
    var channels: seq<Channel>
    var running: bool
    var setupCompleted: bool

    function Model(): State
      reads this
    {
      State(interface, channels, running, setupCompleted)
    }

    constructor (interface: string)
      ensures Model() == Reset(interface)
    {
      this.interface, channels, running, setupCompleted := interface, [], false, false;
    }

    method AddChannel(name: string)
      modifies this`channels
      ensures Model() == WithChannel(old(Model()), name)
    {
      if |channels| <= MAX_NUM_CHANNELS {
        channels := channels + [Channel(name, [], 0, 0)];
      }
    }

    method CreateFloatValue(i: nat)
      requires i < |channels|
      modifies this`channels
      ensures channels == old(channels)[i := WithValue(old(channels)[i])]
    {
      var id := channels[i].dataSize;
      channels := channels[i := channels[i].(dataSize := id + 4)];
      channels := channels[i := channels[i].(values := channels[i].values + [Slot(id, Manual)])];
    }

    method Broadcast()
      modifies this`channels
      ensures Model() == Broadcasted(old(Model()))
      ensures |channels| == |old(channels)|
      ensures forall k :: 0 <= k < |channels| ==>
                channels[k] == var c := old(channels)[k];
                               if running && setupCompleted then c.(smpCnt := (c.smpCnt + 1) % 0x1_0000) else c
    {
      if !running || !setupCompleted {
        return;
      }
      for k := 0 to |channels|
        invariant |channels| == |old(channels)|
        invariant forall j :: 0 <= j < k ==> channels[j] == Counted(old(channels)[j])
        invariant forall j :: k <= j < |channels| ==> channels[j] == old(channels)[j]
      {
        channels := channels[k := channels[k].(smpCnt := (channels[k].smpCnt + 1) % WORD16)];
      }
    }

    method CompleteSetup()
      modifies this`setupCompleted
      ensures Model() == old(Model()).(setupCompleted := true)
    {
      setupCompleted := true;
    }
  }

  class MainLoop {
    var publisher: Publisher
    var lastTimestamp: nat

    constructor (interface: string)
      ensures fresh(publisher) && publisher.Model() == Initial(interface)
      ensures publisher.interface == interface && !publisher.running && !publisher.setupCompleted
      ensures publisher.channels == [Channel("svpub1", [Slot(0, Manual)], 4, 0)]
    {
      publisher := new Publisher(interface);
      lastTimestamp := 0;
      new;
      publisher.AddChannel("svpub1");
      publisher.CreateFloatValue(0);
      assert publisher.channels[0].values == [Slot(0, Manual)];
      assert publisher.channels == [Channel("svpub1", [Slot(0, Manual)], 4, 0)];
    }

    /** One choice in a menu, one button, or the end of a frame; `now` is the clock reading. */
    method Handle(op: Op, now: nat)
      requires Offered(publisher.Model(), op)
      modifies this, publisher
      ensures publisher == old(publisher) || fresh(publisher)
      ensures publisher.Model() == Step(old(publisher.Model()), op)
      ensures lastTimestamp == if op.Start? then now else old(lastTimestamp)
    {
      match op
      case Start =>
        if !publisher.setupCompleted {
          publisher.CompleteSetup();
        }
        publisher.running := true;
        lastTimestamp := now;
      case Stop =>
        publisher := new Publisher(publisher.interface);
      case SelectNetwork(name) =>
        publisher := new Publisher(name);
      case NewChannel(name) =>
        publisher.AddChannel(name);
      case RemoveChannel =>
        publisher.channels := publisher.channels[..|publisher.channels| - 1];
      case NewValue(i) =>
        publisher.CreateFloatValue(i);
      case RemoveValue(i) =>
        var c := publisher.channels[i];
        publisher.channels := publisher.channels[i := c.(values := c.values[..|c.values| - 1])];
      case Configure(i, j, config) =>
        var c := publisher.channels[i];
        publisher.channels := publisher.channels[i := c.(values := c.values[j := c.values[j].(config := config)])];
      case Frame =>
        publisher.Broadcast();
    }

    /** What a value in timestamp mode sends: the time since the last one, from the clock's nanosecond part. */
    method NextTimestamp(currTimestamp: nat) returns (timestamp: nat)
      requires currTimestamp < SECOND && lastTimestamp < SECOND
      modifies this`lastTimestamp
      ensures timestamp == Delta(old(lastTimestamp), currTimestamp)
      ensures lastTimestamp == currTimestamp
    {
      if currTimestamp < lastTimestamp {
        var delta := (SECOND - lastTimestamp) % WORD64;
        timestamp := (delta + currTimestamp) % WORD64 % WORD32;
      } else {
        timestamp := (currTimestamp - lastTimestamp) % WORD64 % WORD32;
      }
      lastTimestamp := currTimestamp;
    }
  }

  // ---------- Time deltas ----------

  const SECOND := 1_000_000_000

  function Delta(last: nat, curr: nat): (d: int)
    requires last < SECOND && curr < SECOND
    ensures 0 <= d < SECOND < WORD32
  {
    if curr < last then SECOND - last + curr else curr - last
  }

  predicate Monotone(ts: seq<nat>) {
    forall i :: 0 < i < |ts| ==> ts[i - 1] <= ts[i]
  }

  /** The sum of everything sent over a sequence of true clock times, the first of which is the start. */
  function TotalSent(ts: seq<nat>): int {
    if |ts| < 2 then 0
    else TotalSent(ts[..|ts| - 1]) + Delta(ts[|ts| - 2] % SECOND, ts[|ts| - 1] % SECOND)
  }

  lemma DeltaIsGapModSecond(t: nat, u: nat)
    requires t <= u
    ensures exists k: nat :: u == t + Delta(t % SECOND, u % SECOND) + k * SECOND
    ensures Delta(t % SECOND, u % SECOND) <= u - t
    ensures Delta(t % SECOND, u % SECOND) == u - t <==> u - t < SECOND
  {
    var a, b := t / SECOND, u / SECOND;
    assert t == a * SECOND + t % SECOND && u == b * SECOND + u % SECOND;
    assert a <= b;
    var k := if u % SECOND < t % SECOND then b - a - 1 else b - a;
    assert u == t + Delta(t % SECOND, u % SECOND) + k * SECOND;
    assert k >= 0;
  }

  /**
   The deltas add up to the elapsed time modulo one second and never to more; they add up to the
   elapsed time itself exactly when no two neighbouring readings are a second or more apart.
   */
  lemma {:induction false} DeltasTelescope(ts: seq<nat>)
    requires ts != [] && Monotone(ts)
    ensures exists k: nat :: ts[|ts| - 1] == ts[0] + TotalSent(ts) + k * SECOND
    ensures ts[0] + TotalSent(ts) <= ts[|ts| - 1]
    ensures ts[0] + TotalSent(ts) == ts[|ts| - 1] <==> forall i :: 0 < i < |ts| ==> ts[i] - ts[i - 1] < SECOND
  {
    if |ts| == 1 {
      assert ts[0] == ts[0] + TotalSent(ts) + 0 * SECOND;
    } else {
      var front, n := ts[..|ts| - 1], |ts| - 1;
      DeltasTelescope(front);
      assert ts[n - 1] <= ts[n];
      DeltaIsGapModSecond(ts[n - 1], ts[n]);
      var j: nat :| front[n - 1] == front[0] + TotalSent(front) + j * SECOND;
      var k: nat :| ts[n] == ts[n - 1] + Delta(ts[n - 1] % SECOND, ts[n] % SECOND) + k * SECOND;
      assert ts[n] == ts[0] + TotalSent(ts) + (j + k) * SECOND;
    }
  }

  /** One and a half seconds between two readings are sent as half a second. */
  lemma LongGapIsCut()
    ensures Monotone([0, 1_500_000_000]) && TotalSent([0, 1_500_000_000]) == 500_000_000
  {
    assert [0, 1_500_000_000][..1] == [0];
    assert 1_500_000_000 % SECOND == 500_000_000;
    assert TotalSent([0]) == 0;
  }
}
