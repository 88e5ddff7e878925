/** What sequences of setters, reads and flushes do to the report control block at the server. */
module WriteBack {
  import opened Common
  import opened ReportControlBlock

  datatype Op =
    | SetField(f: Field, v: Value)
    | GetValues(ok: bool)
    | Flush(single: bool, answer: Answer)
    | Install

  /** The public setters, and a server that only takes attributes it has. */
  predicate Allowed(op: Op, known: set<Field>) {
    && (op.SetField? ==> op.f in SETTABLE)
    && (op.Flush? ==> op.answer.takes <= known)
  }

  predicate AllAllowed(ops: seq<Op>, known: set<Field>) {
    forall k :: 0 <= k < |ops| ==> Allowed(ops[k], known)
  }

  ghost predicate Good(r: Rcb, known: set<Field>) {
    Consistent(r) && r.remote.Keys == known
  }

  function Apply(r: Rcb, buffered: bool, op: Op): Rcb
    requires Consistent(r)
  {
    match op
    case SetField(f, v) => Put(r, f, v)
    case GetValues(ok) => Fetched(r, ok)
    case Flush(single, a) => Flushed(r, buffered, single, a)
    case Install => Installed(r)
  }

  lemma ApplyKeepsGood(r: Rcb, buffered: bool, op: Op, known: set<Field>)
    requires Good(r, known) && Allowed(op, known)
    ensures Good(Apply(r, buffered, op), known)
  {
    if op.Flush? {
      FlushWrites(r, buffered, op.single, op.answer);
    }
  }

  function After(r: Rcb, buffered: bool, ops: seq<Op>, known: set<Field>): (t: Rcb)
    requires Good(r, known) && AllAllowed(ops, known)
    ensures Good(t, known)
  {
    if ops == [] then r
    else
      var t := After(r, buffered, ops[..|ops| - 1], known);
      ApplyKeepsGood(t, buffered, ops[|ops| - 1], known);
      Apply(t, buffered, ops[|ops| - 1])
  }

  // ---------- The order of the writes ----------

  /** Reservations before everything, enabling after everything, a wanted interrogation after that. */
  function Rank(f: Field, enabling: bool): nat {
    if f.Resv? || f.ResvTms? then 0
    else if f.RptEna? then 2
    else if f.GI? && enabling then 3
    else 1
  }

  predicate Ranked(fs: seq<Field>, enabling: bool) {
    forall i, j :: 0 <= i < j < |fs| ==> Rank(fs[i], enabling) <= Rank(fs[j], enabling)
  }

  /** The place of an attribute among all writes; ConfRev and SqNum have none. */
  function Position(f: Field, enabling: bool): int {
    match f
    case Resv => 0
    case ResvTms => 1
    case RptId => 2
    case DatSet => 3
    case EntryId => 4
    case OptFlds => 5
    case BufTm => 6
    case TrgOps => 7
    case IntgPd => 8
    case GI => if enabling then 12 else 9
    case PurgeBuf => if enabling then 9 else 10
    case TimeOfEntry => if enabling then 10 else 11
    case RptEna => if enabling then 11 else 12
    case _ => -1
  }

  function Place(enabling: bool): Field -> int {
    f => Position(f, enabling)
  }

  predicate InOrder(fs: seq<Field>, place: Field -> int) {
    forall i, j :: 0 <= i < j < |fs| ==> place(fs[i]) < place(fs[j])
  }

  lemma OrderPositions(enabling: bool)
    ensures InOrder(WriteOrder(enabling), Place(enabling))
    ensures forall f :: f in WriteOrder(enabling) <==> f != ConfRev && f != SqNum
  {
    var o := WriteOrder(enabling);
    forall f | f != ConfRev && f != SqNum ensures f in o {
      assert o[Position(f, enabling)] == f;
    }
    forall i | 0 <= i < |o| ensures Position(o[i], enabling) == i {
    }
  }

  lemma ConsInOrder(f: Field, fs: seq<Field>, place: Field -> int)
    requires InOrder(fs, place)
    requires forall g :: g in fs ==> place(f) < place(g)
    ensures InOrder([f] + fs, place)
  {
    assert forall i :: 0 <= i < |fs| ==> fs[i] in fs;
  }

  lemma TailInOrder(fs: seq<Field>, place: Field -> int)
    requires fs != [] && InOrder(fs, place)
    ensures InOrder(fs[1..], place)
    ensures forall f :: f in fs[1..] ==> place(fs[0]) < place(f)
  {
    forall f | f in fs[1..] ensures place(fs[0]) < place(f) {
      var k :| 0 <= k < |fs[1..]| && fs[1..][k] == f;
      assert fs[k + 1] == f;
    }
  }

  lemma {:induction false} SelectedKeepsOrder(fs: seq<Field>, want: set<Field>, place: Field -> int)
    requires InOrder(fs, place)
    ensures InOrder(Selected(fs, want), place)
  {
    if fs != [] {
      TailInOrder(fs, place);
      SelectedKeepsOrder(fs[1..], want, place);
      SelectedMembers(fs[1..], want);
      var rest := Selected(fs[1..], want);
      if fs[0] in want {
        ConsInOrder(fs[0], rest, place);
        assert Selected(fs, want) == [fs[0]] + rest;
      } else {
        assert Selected(fs, want) == rest;
      }
    }
  }

  lemma OrderIsRanked(fs: seq<Field>, enabling: bool)
    requires InOrder(fs, Place(enabling)) && ConfRev !in fs && SqNum !in fs
    ensures Distinct(fs) && Ranked(fs, enabling)
  {
    forall i, j | 0 <= i < j < |fs| ensures Rank(fs[i], enabling) <= Rank(fs[j], enabling) {
      assert fs[i] in fs && fs[j] in fs;
    }
  }

  /**
   A flush requests each wanted attribute once (ConfRev and SqNum are never written), reservations
   first, RptEna after all settings, and GI after RptEna exactly when reporting is being enabled.
   */
  lemma RequestOrder(want: set<Field>, enabling: bool)
    ensures
      var fs := Selected(WriteOrder(enabling), want);
      && Distinct(fs) && Ranked(fs, enabling) && InOrder(fs, Place(enabling))
      && (forall f :: f in fs <==> f in want && f != ConfRev && f != SqNum)
  {
    OrderPositions(enabling);
    var o := WriteOrder(enabling);
    SelectedMembers(o, want);
    SelectedKeepsOrder(o, want, Place(enabling));
    OrderIsRanked(Selected(o, want), enabling);
  }

  lemma SuccessWritesAll(want: set<Field>, buffered: bool, enabling: bool, single: bool, a: Answer)
    requires Succeeds(want, buffered, single, a) && want !! {ConfRev, SqNum}
    ensures forall f :: f in want ==> f in Written(want, buffered, enabling, single, a)
  {
    forall f | f in want ensures f in a.takes && f in a.confirms {
      assert f != ConfRev && f != SqNum;
      assert f in want - {ConfRev, SqNum};
    }
    RequestOrder(want, enabling);
    RequestOrder(want * a.takes, enabling);
    PrefixMembers(Selected(WriteOrder(enabling), want), a);
  }

  // ---------- One flush ----------

  function Restrict(b: Block, fs: set<Field>): Block {
    map f | f in b && f in fs :: b[f]
  }

  lemma {:induction false} StoredIsOverlay(remote: Block, local: Block, fs: seq<Field>)
    requires forall f :: f in fs ==> f in local
    ensures Stored(remote, local, fs) == remote + Restrict(local, set f | f in fs)
    decreases |fs|
  {
    if fs != [] {
      StoredIsOverlay(remote[fs[0] := local[fs[0]]], local, fs[1..]);
      OverlayOne(remote, local, fs[0], set f | f in fs[1..]);
      assert (set f | f in fs) == {fs[0]} + set f | f in fs[1..] by {
        assert fs == [fs[0]] + fs[1..];
      }
    }
  }

  lemma OverlayOne(remote: Block, local: Block, f: Field, rest: set<Field>)
    requires f in local
    ensures remote[f := local[f]] + Restrict(local, rest) == remote + Restrict(local, {f} + rest)
  {
  }

  /** The server block changes in written attributes only, to the local values; all flags are down. */
  lemma FlushWrites(r: Rcb, buffered: bool, single: bool, a: Answer)
    requires Consistent(r)
    ensures
      var fs := set f | f in Written(r.dirty, buffered, Enabling(r), single, a);
      && fs <= r.dirty * a.takes
      && (Succeeds(r.dirty, buffered, single, a) ==> fs == r.dirty)
      && Flushed(r, buffered, single, a) == r.(remote := r.remote + Restrict(r.local, fs), dirty := {})
  {
    var e := Enabling(r);
    WrittenAreWanted(r.dirty, buffered, e, single, a);
    StoredIsOverlay(r.remote, r.local, Written(r.dirty, buffered, e, single, a));
    if Succeeds(r.dirty, buffered, single, a) {
      SuccessWritesAll(r.dirty, buffered, e, single, a);
    }
  }

  /** The attributes in front of one in a list. */
  function InFrontOf(fs: seq<Field>, f: Field): set<Field> {
    if fs == [] || fs[0] == f then {} else {fs[0]} + InFrontOf(fs[1..], f)
  }

  lemma {:induction false} TakenPrefixExactly(fs: seq<Field>, a: Answer, f: Field)
    ensures f in TakenPrefix(fs, a) <==> f in fs && f in a.takes && InFrontOf(fs, f) <= a.takes * a.confirms
  {
    if fs != [] {
      TakenPrefixExactly(fs[1..], a, f);
      assert fs == [fs[0]] + fs[1..];
    }
  }

  /** What is wanted and has its place before an attribute. */
  function Sooner(want: set<Field>, f: Field, place: Field -> int): set<Field> {
    set g | g in want && place(g) < place(f)
  }

  lemma SoonerOfCons(g: Field, rest: set<Field>, f: Field, place: Field -> int)
    ensures Sooner({g} + rest, f, place) == (if place(g) < place(f) then {g} else {}) + Sooner(rest, f, place)
  {
  }

  lemma {:induction false} InFrontIsSooner(fs: seq<Field>, place: Field -> int, f: Field)
    requires InOrder(fs, place) && f in fs
    ensures InFrontOf(fs, f) == Sooner((set g | g in fs), f, place)
  {
    var rest := set g | g in fs[1..];
    TailInOrder(fs, place);
    assert (set g | g in fs) == {fs[0]} + rest by {
      assert fs == [fs[0]] + fs[1..];
    }
    SoonerOfCons(fs[0], rest, f, place);
    if fs[0] == f {
      assert forall g :: g in Sooner(rest, f, place) ==> g in fs[1..];
    } else {
      assert f in fs[1..];
      InFrontIsSooner(fs[1..], place, f);
      assert place(fs[0]) < place(f);
    }
  }

  lemma SeparateWritesExactly(want: set<Field>, buffered: bool, enabling: bool, a: Answer, f: Field)
    requires ValidRequest(want, buffered) && ConfRev !in want && SqNum !in want
    ensures f in Written(want, buffered, enabling, false, a) <==>
            f in want && f in a.takes && Sooner(want, f, Place(enabling)) <= a.takes * a.confirms
  {
    var fs := Selected(WriteOrder(enabling), want);
    RequestOrder(want, enabling);
    TakenPrefixExactly(fs, a, f);
    if f in fs {
      InFrontIsSooner(fs, Place(enabling), f);
      assert (set g | g in fs) == want;
    }
  }

  lemma SingleWritesExactly(want: set<Field>, buffered: bool, enabling: bool, a: Answer, f: Field)
    requires ValidRequest(want, buffered) && ConfRev !in want && SqNum !in want
    ensures f in Written(want, buffered, enabling, true, a) <==> f in want && f in a.takes
  {
    RequestOrder(want * a.takes, enabling);
  }

  /**
   What reaches the server with any answer. A reservation of a buffered block or a purge of an
   unbuffered one is refused before anything is sent. A single request brings over what the server
   takes. Separate requests bring over each attribute the server takes if all before it were confirmed.
   */
  lemma WrittenExactly(want: set<Field>, buffered: bool, enabling: bool, single: bool, a: Answer)
    requires want <= SETTABLE
    ensures
      var refused := if buffered then Resv in want else PurgeBuf in want;
      (set f | f in Written(want, buffered, enabling, single, a)) ==
      set f | f in want && !refused && f in a.takes
              && (single || Sooner(want, f, Place(enabling)) <= a.takes * a.confirms)
  {
    RequestOfSetters(want, buffered, enabling, single, a);
    WrittenAreWanted(want, buffered, enabling, single, a);
    if ValidRequest(want, buffered) {
      forall f
        ensures f in Written(want, buffered, enabling, single, a) <==>
                f in want && f in a.takes && (single || Sooner(want, f, Place(enabling)) <= a.takes * a.confirms)
      {
        if single {
          SingleWritesExactly(want, buffered, enabling, a, f);
        } else {
          SeparateWritesExactly(want, buffered, enabling, a, f);
        }
      }
    }
  }

  /** So a flush overlays the server block with the local values of these attributes. */
  lemma FlushExactly(r: Rcb, buffered: bool, single: bool, a: Answer)
    requires Consistent(r)
    ensures
      var refused := if buffered then Resv in r.dirty else PurgeBuf in r.dirty;
      var enabling := RptEna in r.dirty && r.local[RptEna] == Flag(true);
      var arrived := set f | f in r.dirty && !refused && f in a.takes
                             && (single || Sooner(r.dirty, f, Place(enabling)) <= a.takes * a.confirms);
      Flushed(r, buffered, single, a) == r.(remote := r.remote + Restrict(r.local, arrived), dirty := {})
  {
    FlushWrites(r, buffered, single, a);
    WrittenExactly(r.dirty, buffered, Enabling(r), single, a);
  }

  /** If the server takes and confirms everything, a flush that is not refused writes the dirty attributes through. */
  lemma ConfirmedFlushExactly(r: Rcb, buffered: bool, single: bool, a: Answer)
    requires Consistent(r) && r.dirty <= a.takes && r.dirty <= a.confirms && a.answered
    ensures Flushed(r, buffered, single, a).remote
            == if (buffered && Resv in r.dirty) || (!buffered && PurgeBuf in r.dirty) then r.remote
               else r.remote + map f | f in r.dirty :: r.local[f]
  {
    FlushExactly(r, buffered, single, a);
  }

  lemma SettersRaise(f: Field)
    ensures f in SETTABLE <==> f != ConfRev && f != SqNum && f != TimeOfEntry && f != ResvTms
  {
  }

  // ---------- Whole runs ----------

  function NextPending(p: Block, op: Op, known: set<Field>): Block {
    match op
    case SetField(f, v) => p[f := v]
    case GetValues(ok) => if ok then Restrict(p, p.Keys - known) else p
    case Flush(_, _) => map[]
    case Install => p
  }

  /** The values given to setters that neither a flush nor a successful read has superseded. */
  function Pending(ops: seq<Op>, known: set<Field>): Block {
    if ops == [] then map[] else NextPending(Pending(ops[..|ops| - 1], known), ops[|ops| - 1], known)
  }

  /** Every dirty attribute holds its pending value, or else what the server has. */
  ghost predicate Tracks(r: Rcb, p: Block) {
    && p.Keys <= r.dirty
    && forall f :: f in r.dirty ==>
         Lookup(r.local, f) == (if f in p then Some(p[f]) else Lookup(r.remote, f))
  }

  lemma StepTracks(t: Rcb, p: Block, buffered: bool, op: Op, known: set<Field>)
    requires Good(t, known) && Tracks(t, p) && Allowed(op, known)
    ensures Tracks(Apply(t, buffered, op), NextPending(p, op, known))
  {
  }

  lemma {:induction false} RunTracks(r: Rcb, buffered: bool, ops: seq<Op>, known: set<Field>)
    requires Good(r, known) && r.dirty == {} && AllAllowed(ops, known)
    ensures Tracks(After(r, buffered, ops, known), Pending(ops, known))
  {
    if ops != [] {
      var front := ops[..|ops| - 1];
      RunTracks(r, buffered, front, known);
      StepTracks(After(r, buffered, front, known), Pending(front, known), buffered, ops[|ops| - 1], known);
    }
  }

  lemma FlushDelivers(t: Rcb, p: Block, buffered: bool, single: bool, a: Answer, known: set<Field>)
    requires Good(t, known) && Tracks(t, p) && a.takes <= known
    ensures
      var u := Flushed(t, buffered, single, a);
      && u.dirty == {} && u.local == t.local && u.remote.Keys == known
      && (forall f :: f in known ==> u.remote[f] == t.remote[f] || (f in p && u.remote[f] == p[f]))
      && (Succeeds(t.dirty, buffered, single, a) ==> u.remote == t.remote + p)
  {
    FlushWrites(t, buffered, single, a);
    var u := Flushed(t, buffered, single, a);
    forall f | f in known
      ensures u.remote[f] == t.remote[f] || (f in p && u.remote[f] == p[f])
      ensures Succeeds(t.dirty, buffered, single, a) ==> u.remote[f] == (t.remote + p)[f]
    {
      assert f in t.dirty ==> Lookup(t.local, f) == (if f in p then Some(p[f]) else Lookup(t.remote, f));
    }
  }

  /**
   A flush changes at the server nothing but pending attributes, each to its pending value, whatever
   ran before it; one that does not throw brings over all of them. The flags are down either way.
   */
  lemma FlushDeliversPending(r: Rcb, buffered: bool, ops: seq<Op>, single: bool, a: Answer, known: set<Field>)
    requires Good(r, known) && r.dirty == {} && AllAllowed(ops, known) && a.takes <= known
    ensures
      var t, p := After(r, buffered, ops, known), Pending(ops, known);
      var u := Flushed(t, buffered, single, a);
      && u.dirty == {} && u.local == t.local && u.remote.Keys == known
      && (forall f :: f in known ==> u.remote[f] == t.remote[f] || (f in p && u.remote[f] == p[f]))
      && (Succeeds(t.dirty, buffered, single, a) ==> u.remote == t.remote + p)
  {
    RunTracks(r, buffered, ops, known);
    FlushDelivers(After(r, buffered, ops, known), Pending(ops, known), buffered, single, a, known);
  }

  /** A successful read with no later setter cancels what was pending: the next flush changes nothing. */
  lemma FlushAfterReadIsNeutral(r: Rcb, buffered: bool, ops: seq<Op>, single: bool, a: Answer, known: set<Field>)
    requires Good(r, known) && r.dirty == {} && AllAllowed(ops + [GetValues(true)], known) && a.takes <= known
    ensures Flushed(After(r, buffered, ops + [GetValues(true)], known), buffered, single, a).remote
            == After(r, buffered, ops + [GetValues(true)], known).remote
  {
    var all := ops + [GetValues(true)];
    assert all[..|all| - 1] == ops;
    FlushDeliversPending(r, buffered, all, single, a, known);
    var t := After(r, buffered, all, known);
    var u := Flushed(t, buffered, single, a);
    assert forall f :: f in known ==> f !in Pending(all, known);
  }

  // ---------- Write-through as the reference ----------

  function NextWrittenThrough(w: Block, op: Op): Block {
    if op.SetField? then w[op.f := op.v] else w
  }

  /** The server block if every setter wrote through at once. */
  function WrittenThrough(remote: Block, ops: seq<Op>): Block {
    if ops == [] then remote else NextWrittenThrough(WrittenThrough(remote, ops[..|ops| - 1]), ops[|ops| - 1])
  }

  /** No read takes place, and every flush of the run, when its turn comes, does not throw. */
  predicate FlushesSucceed(r: Rcb, buffered: bool, ops: seq<Op>, known: set<Field>)
    requires Good(r, known) && AllAllowed(ops, known)
  {
    ops == [] ||
    var front, op := ops[..|ops| - 1], ops[|ops| - 1];
    && FlushesSucceed(r, buffered, front, known)
    && !op.GetValues?
    && (op.Flush? ==> Succeeds(After(r, buffered, front, known).dirty, buffered, op.single, op.answer))
  }

  lemma StepRefinesWriteThrough(t: Rcb, p: Block, buffered: bool, op: Op, known: set<Field>)
    requires Good(t, known) && Tracks(t, p) && Allowed(op, known) && !op.GetValues?
    requires op.Flush? ==> Succeeds(t.dirty, buffered, op.single, op.answer)
    ensures Apply(t, buffered, op).remote + NextPending(p, op, known) == NextWrittenThrough(t.remote + p, op)
  {
    match op
    case SetField(f, v) => assert t.remote + p[f := v] == (t.remote + p)[f := v];
    case Flush(single, a) => FlushDelivers(t, p, buffered, single, a, known);
    case Install =>
  }

  /**
   Without reads, flags and mask are invisible: at any point the server block plus what is pending
   is the write-through block.
   */
  lemma {:induction false} WriteBackRefinesWriteThrough(r: Rcb, buffered: bool, ops: seq<Op>, known: set<Field>)
    requires Good(r, known) && r.dirty == {} && AllAllowed(ops, known) && FlushesSucceed(r, buffered, ops, known)
    ensures After(r, buffered, ops, known).remote + Pending(ops, known) == WrittenThrough(r.remote, ops)
  {
    if ops == [] {
      assert r.remote + map[] == r.remote;
    } else {
      var front, op := ops[..|ops| - 1], ops[|ops| - 1];
      WriteBackRefinesWriteThrough(r, buffered, front, known);
      RunTracks(r, buffered, front, known);
      StepRefinesWriteThrough(After(r, buffered, front, known), Pending(front, known), buffered, op, known);
    }
  }

  /** So just after a flush the server block is the write-through block. */
  lemma FlushEqualsWriteThrough(r: Rcb, buffered: bool, ops: seq<Op>, known: set<Field>)
    requires Good(r, known) && r.dirty == {} && AllAllowed(ops, known) && FlushesSucceed(r, buffered, ops, known)
    requires ops != [] && ops[|ops| - 1].Flush?
    ensures After(r, buffered, ops, known).remote == WrittenThrough(r.remote, ops)
  {
    WriteBackRefinesWriteThrough(r, buffered, ops, known);
    var t := After(r, buffered, ops, known);
    assert t.remote + map[] == t.remote;
  }

  // ---------- The report id of an installed handler ----------

  /** The attributes set since the last flush. */
  function Touched(ops: seq<Op>): set<Field> {
    if ops == [] then {}
    else
      match ops[|ops| - 1]
      case SetField(f, _) => Touched(ops[..|ops| - 1]) + {f}
      case Flush(_, _) => {}
      case _ => Touched(ops[..|ops| - 1])
  }

  lemma {:induction false} DirtyIsTouched(r: Rcb, buffered: bool, ops: seq<Op>, known: set<Field>)
    requires Good(r, known) && r.dirty == {} && AllAllowed(ops, known)
    ensures After(r, buffered, ops, known).dirty == Touched(ops)
  {
    if ops != [] {
      DirtyIsTouched(r, buffered, ops[..|ops| - 1], known);
    }
  }

  /** The flush is one the client may request, and the server takes its RptId, behind a confirmed Resv if any. */
  predicate CarriesRptId(dirty: set<Field>, buffered: bool, single: bool, a: Answer) {
    && RptId in dirty && RptId in a.takes
    && !(if buffered then Resv in dirty else PurgeBuf in dirty)
    && (single || Resv !in dirty || Resv in a.takes * a.confirms)
  }

  lemma CarriesRptIdExactly(dirty: set<Field>, buffered: bool, enabling: bool, single: bool, a: Answer)
    requires dirty <= SETTABLE
    ensures RptId in Written(dirty, buffered, enabling, single, a) <==> CarriesRptId(dirty, buffered, single, a)
  {
    RequestOfSetters(dirty, buffered, enabling, single, a);
    if ValidRequest(dirty, buffered) {
      SingleWritesExactly(dirty, buffered, enabling, a, RptId);
      SeparateWritesExactly(dirty, buffered, enabling, a, RptId);
      assert Sooner(dirty, RptId, Place(enabling)) == if Resv in dirty then {Resv} else {};
    }
  }

  /** The report id at the server: the pending one of the last flush that carried one over. */
  function ServerRptId(ops: seq<Op>, buffered: bool, known: set<Field>, first: Option<string>): Option<string> {
    if ops == [] then first
    else
      var front, op := ops[..|ops| - 1], ops[|ops| - 1];
      if op.Flush? && CarriesRptId(Touched(front), buffered, op.single, op.answer) && RptId in Pending(front, known)
      then TextOf(Pending(front, known)[RptId])
      else ServerRptId(front, buffered, known, first)
  }

  /** The report id the client has: what it set or read last. */
  function ClientRptId(ops: seq<Op>, buffered: bool, known: set<Field>, first: Option<string>): Option<string> {
    if ops == [] then None
    else
      var front, op := ops[..|ops| - 1], ops[|ops| - 1];
      if op.SetField? && op.f.RptId? then TextOf(op.v)
      else if op.GetValues? && op.ok && RptId in known then ServerRptId(front, buffered, known, first)
      else ClientRptId(front, buffered, known, first)
  }

  function FirstInstall(ops: seq<Op>): (i: Option<nat>)
    ensures i.None? ==> forall k :: 0 <= k < |ops| ==> !ops[k].Install?
    ensures i.Some? ==> i.value < |ops| && ops[i.value].Install? && forall k :: 0 <= k < i.value ==> !ops[k].Install?
  {
    if ops == [] then None
    else
      var i := FirstInstall(ops[..|ops| - 1]);
      if i.None? && ops[|ops| - 1].Install? then Some(|ops| - 1) else i
  }

  /** The id the native library keeps with the handler: the client's at the first install. */
  function KeptRptId(ops: seq<Op>, buffered: bool, known: set<Field>, first: Option<string>): Option<Option<string>> {
    match FirstInstall(ops)
    case None => None
    case Some(i) => Some(ClientRptId(ops[..i], buffered, known, first))
  }

  /** Reports of the block reach its handler: both sides go by the same id. */
  predicate Heard(t: Rcb, reference: string) {
    t.registered.Some? && EffectiveId(reference, t.registered.value) == EffectiveId(reference, RptIdOf(t.remote))
  }

  function NewBlock(server: Block): Rcb {
    Rcb(map[], {}, server, false, None)
  }

  lemma StepMovesRptId(t: Rcb, p: Block, buffered: bool, op: Op, known: set<Field>)
    requires Good(t, known) && Tracks(t, p) && Allowed(op, known)
    ensures
      var u := Apply(t, buffered, op);
      && RptIdOf(u.remote) == (if op.Flush? && CarriesRptId(t.dirty, buffered, op.single, op.answer) && RptId in p
                               then TextOf(p[RptId]) else RptIdOf(t.remote))
      && RptIdOf(u.local) == (if op.SetField? && op.f.RptId? then TextOf(op.v)
                              else if op.GetValues? && op.ok && RptId in known then RptIdOf(t.remote)
                              else RptIdOf(t.local))
  {
    if op.Flush? {
      FlushWrites(t, buffered, op.single, op.answer);
      CarriesRptIdExactly(t.dirty, buffered, Enabling(t), op.single, op.answer);
      assert RptId in t.dirty ==>
          Lookup(t.local, RptId) == (if RptId in p then Some(p[RptId]) else Lookup(t.remote, RptId));
    }
  }

  lemma {:induction false} RptIdsOfRun(server: Block, buffered: bool, ops: seq<Op>)
    requires AllAllowed(ops, server.Keys)
    ensures
      var t, id := After(NewBlock(server), buffered, ops, server.Keys), RptIdOf(server);
      && RptIdOf(t.remote) == ServerRptId(ops, buffered, server.Keys, id)
      && RptIdOf(t.local) == ClientRptId(ops, buffered, server.Keys, id)
      && t.registered == KeptRptId(ops, buffered, server.Keys, id)
      && (t.installed <==> FirstInstall(ops).Some?)
  {
    if ops != [] {
      var front, known := ops[..|ops| - 1], server.Keys;
      RptIdsOfRun(server, buffered, front);
      RunTracks(NewBlock(server), buffered, front, known);
      DirtyIsTouched(NewBlock(server), buffered, front, known);
      var t := After(NewBlock(server), buffered, front, known);
      StepMovesRptId(t, Pending(front, known), buffered, ops[|ops| - 1], known);
      var i := FirstInstall(ops);
      assert i.Some? ==> ops[..i.value] == front[..i.value];
    }
  }

  /**
   No flush registers a handler anew. So after any history of setters, reads, flushes and installs,
   failed or not, the library knows the id by which the server reports exactly when the client had
   that id at the first install, and reports are heard exactly when the two ids mean the same.
   */
  lemma RegisteredIdIsCurrentExactly(server: Block, buffered: bool, ops: seq<Op>, reference: string)
    requires AllAllowed(ops, server.Keys)
    ensures
      var t, id, i := After(NewBlock(server), buffered, ops, server.Keys), RptIdOf(server), FirstInstall(ops);
      var now := ServerRptId(ops, buffered, server.Keys, id);
      && RptIdOf(t.remote) == now
      && (t.registered == Some(RptIdOf(t.remote))
          <==> i.Some? && ClientRptId(ops[..i.value], buffered, server.Keys, id) == now)
      && (Heard(t, reference)
          <==> i.Some? && EffectiveId(reference, ClientRptId(ops[..i.value], buffered, server.Keys, id))
                          == EffectiveId(reference, now))
  {
    RptIdsOfRun(server, buffered, ops);
  }

  /**
   A handler installed before the first read or setter is heard exactly if the server has no report
   id, an empty one, or the reference with every dot turned into a dollar sign.
   */
  lemma EarlyInstallIsHeardExactly(server: Block, buffered: bool, reference: string)
    ensures Heard(After(NewBlock(server), buffered, [Install], server.Keys), reference) <==>
            match RptIdOf(server)
            case None => true
            case Some(id) =>
              || id == ""
              || (|id| == |reference|
                  && forall i :: 0 <= i < |id| ==> id[i] == if reference[i] == '.' then '$' else reference[i])
  {
    assert [Install][..0] == [];
    assert ServerRptId([Install], buffered, server.Keys, RptIdOf(server)) == RptIdOf(server);
    RegisteredIdIsCurrentExactly(server, buffered, [Install], reference);
    DefaultIdExactly(reference);
    if RptIdOf(server).Some? {
      var id := RptIdOf(server).value;
      if |id| == |reference|
         && forall i :: 0 <= i < |id| ==> id[i] == if reference[i] == '.' then '$' else reference[i] {
        assert id == DefaultId(reference);
      }
    }
  }

  lemma ReadAndInstalled(server: Block)
    ensures After(NewBlock(server), false, [GetValues(true), Install], server.Keys)
            == Rcb(server, {}, server, true, Some(RptIdOf(server)))
  {
    assert [GetValues(true), Install][..1] == [GetValues(true)];
    assert After(NewBlock(server), false, [GetValues(true)], server.Keys) == Fetched(NewBlock(server), true);
    assert map[] + server == server;
  }

  /** After a read and an install, a new id reaches the server while the handler still waits under the old one. */
  lemma RenamedReportIsMissed(server: Block, reference: string)
    requires RptId in server && server[RptId] == Text("a")
    ensures
      var answer := Answer(server.Keys, server.Keys, true);
      var t := After(NewBlock(server), false, [GetValues(true), Install], server.Keys);
      var u := Flushed(Put(t, RptId, Text("b")), false, true, answer);
      && Succeeds({RptId}, false, true, answer)
      && RptIdOf(u.remote) == Some("b") && u.registered == Some(Some("a")) && !Heard(u, reference)
  {
    ReadAndInstalled(server);
    var t := After(NewBlock(server), false, [GetValues(true), Install], server.Keys);
    FlushWrites(Put(t, RptId, Text("b")), false, true, Answer(server.Keys, server.Keys, true));
  }
}
