/**
 The client's copy of a report control block: local values with one dirty flag per attribute, and
 a flush that turns the flags into the parameter mask of the native write service.
 */
module ReportControlBlock {
  import opened Common

  datatype Field =
    | RptId | RptEna | Resv | DatSet | ConfRev | OptFlds | BufTm | SqNum | TrgOps | IntgPd | GI
    | PurgeBuf | EntryId | TimeOfEntry | ResvTms

  datatype Value = Text(s: string) | Flag(b: bool) | Number(n: int) | Octets(o: seq<bv8>)

  type Block = map<Field, Value>

  /** The element masks are 1 for RptId, 2 for RptEna and so on up to 16384 for ResvTms: bits 0 to 14. */
  function BitOrder(): seq<Field> {
    [RptId, RptEna, Resv, DatSet, ConfRev, OptFlds, BufTm, SqNum, TrgOps,
     IntgPd, GI, PurgeBuf, EntryId, TimeOfEntry, ResvTms]
  }

  function Shifted(mask: nat, k: nat): nat {
    if k == 0 then mask else Shifted(mask, k - 1) / 2
  }

  /** The attributes whose bits, numbered along `order`, are set in a mask. */
  function DecodedAlong(order: seq<Field>, mask: nat): set<Field> {
    set k | 0 <= k < |order| && Shifted(mask, k) % 2 == 1 :: order[k]
  }

  /** What the native side reads out of a mask. */
  function Decoded(mask: nat): set<Field> {
    DecodedAlong(BitOrder(), mask)
  }

  function Bit(raised: bool): nat {
    if raised then 1 else 0
  }

  /** The number whose binary digits, lowest first, say which of the listed attributes are wanted. */
  function MaskOf(order: seq<Field>, want: set<Field>): nat {
    if order == [] then 0 else Bit(order[0] in want) + 2 * MaskOf(order[1..], want)
  }

  lemma LowestDigit(b: nat, x: nat)
    requires b <= 1
    ensures (b + 2 * x) % 2 == b && (b + 2 * x) / 2 == x
  {
  }

  lemma {:induction false} ShiftedMask(order: seq<Field>, want: set<Field>, k: nat)
    requires k <= |order|
    ensures Shifted(MaskOf(order, want), k) == MaskOf(order[k..], want)
  {
    if k == 0 {
      assert order[0..] == order;
    } else {
      ShiftedMask(order, want, k - 1);
      assert order[k - 1..][1..] == order[k..];
      LowestDigit(Bit(order[k - 1] in want), MaskOf(order[k..], want));
    }
  }

  lemma BitOfMask(order: seq<Field>, want: set<Field>, k: nat)
    requires k < |order|
    ensures Shifted(MaskOf(order, want), k) % 2 == 1 <==> order[k] in want
  {
    ShiftedMask(order, want, k);
    var rest := MaskOf(order[k..][1..], want);
    assert MaskOf(order[k..], want) == Bit(order[k] in want) + 2 * rest;
    LowestDigit(Bit(order[k] in want), rest);
  }

  /** A mask decodes to exactly the attributes it was built from. */
  lemma MaskDecodes(order: seq<Field>, want: set<Field>)
    requires forall f :: f in want ==> f in order
    ensures DecodedAlong(order, MaskOf(order, want)) == want
  {
    var mask := MaskOf(order, want);
    var decoded := DecodedAlong(order, mask);
    forall f ensures f in decoded <==> f in want {
      if f in decoded {
        var k :| 0 <= k < |order| && Shifted(mask, k) % 2 == 1 && order[k] == f;
        BitOfMask(order, want, k);
      }
      if f in want {
        var k :| 0 <= k < |order| && order[k] == f;
        BitOfMask(order, want, k);
      }
    }
  }

  lemma EveryFieldHasBit(f: Field)
    ensures f in BitOrder()
  {
    var order := BitOrder();
    match f
    case RptId => assert order[0] == f;
    case RptEna => assert order[1] == f;
    case Resv => assert order[2] == f;
    case DatSet => assert order[3] == f;
    case ConfRev => assert order[4] == f;
    case OptFlds => assert order[5] == f;
    case BufTm => assert order[6] == f;
    case SqNum => assert order[7] == f;
    case TrgOps => assert order[8] == f;
    case IntgPd => assert order[9] == f;
    case GI => assert order[10] == f;
    case PurgeBuf => assert order[11] == f;
    case EntryId => assert order[12] == f;
    case TimeOfEntry => assert order[13] == f;
    case ResvTms => assert order[14] == f;
  }

  /** The digits of five neighbouring attributes. */
  function Five(o: seq<Field>, w: set<Field>, i: nat): nat
    requires i + 5 <= |o|
  {
    Bit(o[i] in w) + 2 * Bit(o[i + 1] in w) + 4 * Bit(o[i + 2] in w) + 8 * Bit(o[i + 3] in w) + 16 * Bit(o[i + 4] in w)
  }

  lemma MaskIsSumOfFive(o: seq<Field>, w: set<Field>, i: nat)
    requires i + 5 <= |o|
    ensures MaskOf(o[i..], w) == Five(o, w, i) + 32 * MaskOf(o[i + 5..], w)
  {
    forall k | i <= k < i + 5
      ensures MaskOf(o[k..], w) == Bit(o[k] in w) + 2 * MaskOf(o[k + 1..], w)
    {
      assert o[k..][1..] == o[k + 1..];
    }
  }

  /** A mask over fifteen attributes is the sum of their weights. */
  lemma MaskIsSum(o: seq<Field>, w: set<Field>)
    requires |o| == 15
    ensures MaskOf(o, w) == Five(o, w, 0) + 32 * Five(o, w, 5) + 1024 * Five(o, w, 10)
  {
    assert o[0..] == o && o[15..] == [];
    MaskIsSumOfFive(o, w, 0);
    MaskIsSumOfFive(o, w, 5);
    MaskIsSumOfFive(o, w, 10);
  }

  /** Adding up the weights of a set of attributes yields a mask that decodes to that set. */
  lemma WeightsDecode(w: set<Field>)
    ensures Decoded(Bit(RptId in w) + 2 * Bit(RptEna in w) + 4 * Bit(Resv in w) + 8 * Bit(DatSet in w)
                    + 16 * Bit(ConfRev in w) + 32 * Bit(OptFlds in w) + 64 * Bit(BufTm in w) + 128 * Bit(SqNum in w)
                    + 256 * Bit(TrgOps in w) + 512 * Bit(IntgPd in w) + 1024 * Bit(GI in w) + 2048 * Bit(PurgeBuf in w)
                    + 4096 * Bit(EntryId in w) + 8192 * Bit(TimeOfEntry in w) + 16384 * Bit(ResvTms in w))
            == w
  {
    var o := BitOrder();
    forall f | f in w ensures f in o {
      EveryFieldHasBit(f);
    }
    MaskIsSum(o, w);
    MaskDecodes(o, w);
  }

  // ---------- The native write service ----------

  /** Reservation first, enabling last, and the interrogation after it when reporting gets enabled. */
  function WriteOrder(enabling: bool): seq<Field> {
    if enabling then
      [Resv, ResvTms, RptId, DatSet, EntryId, OptFlds, BufTm, TrgOps, IntgPd, PurgeBuf, TimeOfEntry, RptEna, GI]
    else
      [Resv, ResvTms, RptId, DatSet, EntryId, OptFlds, BufTm, TrgOps, IntgPd, GI, PurgeBuf, TimeOfEntry, RptEna]
  }

  function Selected(fs: seq<Field>, want: set<Field>): seq<Field> {
    if fs == [] then []
    else (if fs[0] in want then [fs[0]] else []) + Selected(fs[1..], want)
  }

  predicate ValidRequest(want: set<Field>, buffered: bool) {
    if buffered then Resv !in want else want !! {ResvTms, PurgeBuf, TimeOfEntry}
  }

  /**
   One answer of the server: which attributes it takes, which of those writes the client hears
   about, and, for a single request, whether any answer comes back at all.
   */
  datatype Answer = Answer(takes: set<Field>, confirms: set<Field>, answered: bool)

  /** Separate requests stop at the first write that is not confirmed, which may have been taken. */
  function TakenPrefix(fs: seq<Field>, a: Answer): seq<Field> {
    if fs == [] || fs[0] !in a.takes then []
    else [fs[0]] + if fs[0] in a.confirms then TakenPrefix(fs[1..], a) else []
  }

  /** The attributes that reach the server. */
  function Written(want: set<Field>, buffered: bool, enabling: bool, single: bool, a: Answer): seq<Field> {
    if !ValidRequest(want, buffered) then []
    else if single then Selected(WriteOrder(enabling), want * a.takes)
    else TakenPrefix(Selected(WriteOrder(enabling), want), a)
  }

  predicate Succeeds(want: set<Field>, buffered: bool, single: bool, a: Answer) {
    ValidRequest(want, buffered) && (single ==> a.answered) && want - {ConfRev, SqNum} <= a.takes * a.confirms
  }

  function Stored(remote: Block, local: Block, fs: seq<Field>): Block
    requires forall f :: f in fs ==> f in local
    decreases |fs|
  {
    if fs == [] then remote else Stored(remote[fs[0] := local[fs[0]]], local, fs[1..])
  }

  /** What no setter can ask for plays no part. */
  lemma RequestOfSetters(want: set<Field>, buffered: bool, enabling: bool, single: bool, a: Answer)
    requires want <= SETTABLE
    ensures
      var refused := if buffered then Resv in want else PurgeBuf in want;
      && (ValidRequest(want, buffered) <==> !refused)
      && (refused ==> Written(want, buffered, enabling, single, a) == [])
      && (Succeeds(want, buffered, single, a)
          <==> !refused && (single ==> a.answered) && want <= a.takes * a.confirms)
  {
    assert want - {ConfRev, SqNum} == want;
    assert ResvTms !in want && TimeOfEntry !in want;
  }

  // ---------- The client object as a value ----------

  /** `registered` is the report id the native library was given with the handler, if it was given one. */
  datatype Rcb =
    Rcb(local: Block, dirty: set<Field>, remote: Block, installed: bool, registered: Option<Option<string>>)

  const SETTABLE := {RptId, RptEna, Resv, DatSet, OptFlds, BufTm, TrgOps, IntgPd, GI, PurgeBuf, EntryId}

  function Lookup(b: Block, f: Field): Option<Value> {
    if f in b then Some(b[f]) else None
  }

  function TextOf(v: Value): Option<string> {
    if v.Text? then Some(v.s) else None
  }

  function RptIdOf(b: Block): Option<string> {
    if RptId in b then TextOf(b[RptId]) else None
  }

  function Put(r: Rcb, f: Field, v: Value): Rcb {
    r.(local := r.local[f := v], dirty := r.dirty + {f})
  }

  function Fetched(r: Rcb, ok: bool): Rcb {
    if ok then r.(local := r.local + r.remote) else r
  }

  predicate Consistent(r: Rcb) {
    r.dirty <= SETTABLE && r.dirty <= r.local.Keys
  }

  /** The flush is to enable reporting. */
  predicate Enabling(r: Rcb) {
    RptEna in r.dirty && Lookup(r.local, RptEna) == Some(Flag(true))
  }

  lemma {:induction false} WrittenAreWanted(want: set<Field>, buffered: bool, enabling: bool, single: bool, a: Answer)
    ensures forall f :: f in Written(want, buffered, enabling, single, a) ==> f in want * a.takes
  {
    SelectedMembers(WriteOrder(enabling), want);
    SelectedMembers(WriteOrder(enabling), want * a.takes);
    PrefixMembers(Selected(WriteOrder(enabling), want), a);
  }

  lemma {:induction false} SelectedMembers(fs: seq<Field>, want: set<Field>)
    ensures forall f :: f in Selected(fs, want) <==> f in fs && f in want
  {
    if fs != [] {
      SelectedMembers(fs[1..], want);
      assert fs == [fs[0]] + fs[1..];
    }
  }

  lemma {:induction false} PrefixMembers(fs: seq<Field>, a: Answer)
    ensures forall f :: f in TakenPrefix(fs, a) ==> f in fs && f in a.takes
    ensures (forall f :: f in fs ==> f in a.takes && f in a.confirms) ==> TakenPrefix(fs, a) == fs
  {
    if fs != [] {
      PrefixMembers(fs[1..], a);
      assert fs == [fs[0]] + fs[1..];
    }
  }

  function Flushed(r: Rcb, buffered: bool, single: bool, a: Answer): Rcb
    requires Consistent(r)
  {
    var fs := Written(r.dirty, buffered, Enabling(r), single, a);
    WrittenAreWanted(r.dirty, buffered, Enabling(r), single, a);
    r.(remote := Stored(r.remote, r.local, fs), dirty := {})
  }

  function Installed(r: Rcb): Rcb {
    if r.installed then r else r.(installed := true, registered := Some(RptIdOf(r.local)))
  }

  // ---------- Report ids ----------

  /** The report id that stands in where none is given: the reference with its dots replaced. */
  function DefaultId(reference: string): string {
    if reference == [] then [] else [if reference[0] == '.' then '$' else reference[0]] + DefaultId(reference[1..])
  }

  /** The id under which a block reports, and by which the native library looks for its handler. */
  function EffectiveId(reference: string, rptId: Option<string>): string {
    if rptId.None? || rptId.value == [] then DefaultId(reference) else rptId.value
  }

  /** Without an id, or with an empty one, a block goes by its reference with every dot turned into a dollar sign. */
  lemma {:induction false} DefaultIdExactly(reference: string)
    ensures
      var id := DefaultId(reference);
      && |id| == |reference|
      && forall i :: 0 <= i < |id| ==> id[i] == if reference[i] == '.' then '$' else reference[i]
    ensures EffectiveId(reference, None) == EffectiveId(reference, Some("")) == DefaultId(reference)
  {
    if reference != [] {
      DefaultIdExactly(reference[1..]);
    }
  }

  // ---------- The client object itself ----------

  /** A reference names a buffered block when its first dot is followed by a capital B. */
  predicate IsBuffered(objectReference: string) {
    |objectReference| > 1 &&
    if objectReference[0] == '.' then objectReference[1] == 'B' else IsBuffered(objectReference[1..])
  }

  predicate FirstDot(s: string, i: int) {
    0 <= i < |s| && s[i] == '.' && forall j :: 0 <= j < i ==> s[j] != '.'
  }

  lemma {:induction false} BufferedExactly(s: string)
    ensures IsBuffered(s) <==> exists i :: FirstDot(s, i) && i + 1 < |s| && s[i + 1] == 'B'
  {
    if |s| > 1 && s[0] == '.' {
      assert FirstDot(s, 0);
      assert forall i :: FirstDot(s, i) ==> i == 0;
    } else if |s| > 1 {
      BufferedExactly(s[1..]);
      forall i | 0 <= i ensures FirstDot(s[1..], i) <==> FirstDot(s, i + 1) {
        assert forall j :: 0 <= j < |s| - 1 ==> s[1..][j] == s[j + 1];
        if FirstDot(s[1..], i) {
          assert forall j :: 0 < j < i + 1 ==> s[j] == s[1..][j - 1];
        }
      }
      if IsBuffered(s[1..]) {
        var i :| FirstDot(s[1..], i) && i + 1 < |s[1..]| && s[1..][i + 1] == 'B';
        assert FirstDot(s, i + 1);
      }
      if i :| FirstDot(s, i) && i + 1 < |s| && s[i + 1] == 'B' {
        assert FirstDot(s[1..], i - 1);
      }
    }
  }

  /** A user callback with its parameter. */
  type Handler = nat

  class ReportControlBlock {
    const objectReference: string
    const buffered: bool
    var native: Block
    var server: Block
    var flags: set<Field>
    var reportHandler: Option<Handler>
    var reportHandlerInstalled: bool
    var registeredRptId: Option<Option<string>>

    function Model(): Rcb
      reads this
    {
      Rcb(native, flags, server, reportHandlerInstalled, registeredRptId)
    }

    /** No setter raises the flags of ConfRev, SqNum and ResvTms, and a flagged value is never missing. */
    predicate Valid()
      reads this
    {
      Consistent(Model())
    }

    constructor (objectReference: string, server: Block)
      ensures this.objectReference == objectReference && buffered == IsBuffered(objectReference) && Valid()
      ensures Model() == Rcb(map[], {}, server, false, None) && reportHandler == None
    {
      this.objectReference, buffered := objectReference, IsBuffered(objectReference);
      native, this.server, flags := map[], server, {};
      reportHandler, reportHandlerInstalled, registeredRptId := None, false, None;
    }

    method ResetSendFlags()
      modifies this`flags
      ensures flags == {}
    {
      flags := {};
    }

    /** The eleven setters: store the value in the native object, raise the flag. */
    method Set(f: Field, v: Value)
      requires Valid() && f in SETTABLE
      modifies this`native, this`flags
      ensures Valid() && Model() == Put(old(Model()), f, v)
    {
      native := native[f := v];
      flags := flags + {f};
    }

    /** The sum of the weights of the raised flags, read back by the native side. */
    method ParametersMask() returns (parametersMask: nat)
      requires TimeOfEntry !in flags
      ensures Decoded(parametersMask) == flags
    {
      parametersMask := 0;
      parametersMask := parametersMask + Bit(RptId in flags);
      parametersMask := parametersMask + 2 * Bit(RptEna in flags);
      parametersMask := parametersMask + 4 * Bit(Resv in flags);
      parametersMask := parametersMask + 8 * Bit(DatSet in flags);
      parametersMask := parametersMask + 16 * Bit(ConfRev in flags);
      parametersMask := parametersMask + 32 * Bit(OptFlds in flags);
      parametersMask := parametersMask + 64 * Bit(BufTm in flags);
      parametersMask := parametersMask + 128 * Bit(SqNum in flags);
      parametersMask := parametersMask + 256 * Bit(TrgOps in flags);
      parametersMask := parametersMask + 512 * Bit(IntgPd in flags);
      parametersMask := parametersMask + 1024 * Bit(GI in flags);
      parametersMask := parametersMask + 2048 * Bit(PurgeBuf in flags);
      parametersMask := parametersMask + 4096 * Bit(EntryId in flags);
      parametersMask := parametersMask + 16384 * Bit(ResvTms in flags);
      WeightsDecode(flags);
    }

    /** Reads the whole block; the native side overwrites every attribute the server sent. */
    method GetRCBValues(ok: bool) returns (thrown: bool)
      requires Valid()
      modifies this`native
      ensures Valid() && Model() == Fetched(old(Model()), ok)
      ensures thrown <==> !ok
    {
      if ok {
        native := native + server;
      }
      thrown := !ok;
    }

    /** The flush. The flags are down whether or not it throws. */
    method SetRCBValues(singleRequest: bool, answer: Answer) returns (thrown: bool)
      requires Valid()
      modifies this`server, this`flags
      ensures Valid() && Model() == Flushed(old(Model()), buffered, singleRequest, answer)
      ensures flags == {}
      ensures
        var refused := if buffered then Resv in old(flags) else PurgeBuf in old(flags);
        && (refused ==> server == old(server))
        && (thrown <==> refused || (singleRequest && !answer.answered)
                        || !(old(flags) <= answer.takes * answer.confirms))
    {
      var parametersMask := ParametersMask();
      var enabling := RptEna in Decoded(parametersMask) && native[RptEna] == Flag(true);
      var fs := Written(Decoded(parametersMask), buffered, enabling, singleRequest, answer);
      WrittenAreWanted(Decoded(parametersMask), buffered, enabling, singleRequest, answer);
      thrown := !Succeeds(Decoded(parametersMask), buffered, singleRequest, answer);
      RequestOfSetters(flags, buffered, enabling, singleRequest, answer);
      server := Stored(server, native, fs);
      ResetSendFlags();
      if thrown {
        return;
      }
      if RptId in flags {
        // the handler would be installed again here, but the flag has just been cleared
        assert false;
      }
    }

    /** `calls` says whether the handler is handed to the native library: only the first time. */
    method InstallReportHandler(handler: Handler) returns (calls: bool)
      requires Valid()
      modifies this`reportHandler, this`reportHandlerInstalled, this`registeredRptId
      ensures Valid() && Model() == Installed(old(Model()))
      ensures reportHandler == Some(handler) && reportHandlerInstalled
      ensures calls <==> !old(reportHandlerInstalled)
    {
      reportHandler := Some(handler);
      calls := !reportHandlerInstalled;
      if !reportHandlerInstalled {
        registeredRptId := Some(RptIdOf(native));
        reportHandlerInstalled := true;
      }
    }
  }
}
