/**
 The report control blocks of one connection, and the list of report handlers that the native
 library keeps for it: one entry per reference, each with the report id given at its install.
 */
module ReportRegistry {
  import opened Common
  import opened ReportControlBlock

  /** `R` stands for the blocks themselves; two blocks may carry the same reference. */
  datatype Entry<R> = Entry(reference: string, rptId: Option<string>, block: R)

  datatype Link<!R> = Link(
    alive: bool,
    active: seq<R>,
    handlers: seq<Entry<R>>,
    destroyed: nat,
    names: map<R, string>,
    installed: set<R>,
    callbacks: map<R, Handler>)

  /** Each call on a block carries its reference, and an install its report id of that moment. */
  datatype Op<!R> =
    | Create(r: R, reference: string)
    | Install(r: R, reference: string, h: Handler, rptId: Option<string>)
    | DisposeBlock(r: R, reference: string)
    | DisposeLink

  // ---------- The native list ----------

  /** No reference has two entries. */
  ghost predicate OneEach<R>(es: seq<Entry<R>>) {
    forall i, j :: 0 <= i < j < |es| ==> es[i].reference != es[j].reference
  }

  /** Uninstalling takes out the first entry of the reference. */
  function Without<R>(es: seq<Entry<R>>, reference: string): seq<Entry<R>> {
    if es == [] then [] else if es[0].reference == reference then es[1..]
    else [es[0]] + Without(es[1..], reference)
  }

  /** All entries but those of the given references. */
  function Others<R>(es: seq<Entry<R>>, gone: set<string>): seq<Entry<R>> {
    if es == [] then []
    else if es[0].reference in gone then Others(es[1..], gone)
    else [es[0]] + Others(es[1..], gone)
  }

  lemma {:induction false} OthersMembers<R>(es: seq<Entry<R>>, gone: set<string>)
    ensures forall e :: e in Others(es, gone) ==> e in es && e.reference !in gone
    ensures forall e :: e in es && e.reference !in gone ==> e in Others(es, gone)
  {
    if es != [] {
      OthersMembers(es[1..], gone);
      assert es == [es[0]] + es[1..];
    }
  }

  lemma OthersOfCons<R>(e: Entry<R>, es: seq<Entry<R>>, gone: set<string>)
    ensures Others([e] + es, gone) == if e.reference in gone then Others(es, gone) else [e] + Others(es, gone)
  {
    assert ([e] + es)[1..] == es;
  }

  lemma {:induction false} OthersTwice<R>(es: seq<Entry<R>>, gone: set<string>, more: set<string>)
    ensures Others(Others(es, gone), more) == Others(es, gone + more)
  {
    if es != [] {
      OthersTwice(es[1..], gone, more);
      OthersOfCons(es[0], Others(es[1..], gone), more);
    }
  }

  lemma TailOneEach<R>(es: seq<Entry<R>>)
    requires es != [] && OneEach(es)
    ensures OneEach(es[1..]) && forall e :: e in es[1..] ==> e.reference != es[0].reference
  {
    assert forall i :: 0 <= i < |es[1..]| ==> es[1..][i] == es[i + 1];
  }

  lemma ConsOneEach<R>(e: Entry<R>, es: seq<Entry<R>>)
    requires OneEach(es) && forall x :: x in es ==> x.reference != e.reference
    ensures OneEach([e] + es)
  {
    assert forall i :: 0 <= i < |es| ==> es[i] in es;
  }

  lemma {:induction false} OthersOneEach<R>(es: seq<Entry<R>>, gone: set<string>)
    requires OneEach(es)
    ensures OneEach(Others(es, gone))
    ensures (forall e :: e in es ==> e.reference !in gone) ==> Others(es, gone) == es
  {
    if es != [] {
      TailOneEach(es);
      OthersOneEach(es[1..], gone);
      OthersMembers(es[1..], gone);
      ConsOneEach(es[0], Others(es[1..], gone));
      assert es == [es[0]] + es[1..];
    }
  }

  /** With one entry per reference, uninstalling leaves exactly the others. */
  lemma {:induction false} WithoutIsOthers<R>(es: seq<Entry<R>>, reference: string)
    requires OneEach(es)
    ensures Without(es, reference) == Others(es, {reference})
  {
    if es != [] {
      TailOneEach(es);
      if es[0].reference == reference {
        OthersOneEach(es[1..], {reference});
      } else {
        WithoutIsOthers(es[1..], reference);
      }
    }
  }

  /** A report goes to the first entry that waits for its id. */
  function Receiver<R>(es: seq<Entry<R>>, id: string): Option<R> {
    if es == [] then None
    else if EffectiveId(es[0].reference, es[0].rptId) == id then Some(es[0].block)
    else Receiver(es[1..], id)
  }

  /** What remains after uninstalling all blocks of a list in turn. */
  function Cleaned<R(==)>(es: seq<Entry<R>>, names: map<R, string>, rs: seq<R>): seq<Entry<R>>
    requires forall r :: r in rs ==> r in names
  {
    if rs == [] then es
    else Without(Cleaned(es, names, rs[..|rs| - 1]), names[rs[|rs| - 1]])
  }

  function NamesOf<R(==)>(names: map<R, string>, rs: seq<R>): set<string>
    requires forall r :: r in rs ==> r in names
  {
    set r | r in rs :: names[r]
  }

  lemma NamesOfAppend<R>(names: map<R, string>, rs: seq<R>, r: R)
    requires r in names && forall x :: x in rs ==> x in names
    ensures NamesOf(names, rs + [r]) == NamesOf(names, rs) + {names[r]}
  {
    var all := rs + [r];
    forall s | s in NamesOf(names, rs) + {names[r]} ensures s in NamesOf(names, all) {
      var x :| (x in rs || x == r) && names[x] == s;
      assert x in all;
    }
  }

  /** Uninstalling all blocks of a list leaves the entries of all other references. */
  lemma {:induction false} CleanedIsOthers<R>(es: seq<Entry<R>>, names: map<R, string>, rs: seq<R>)
    requires OneEach(es) && forall r :: r in rs ==> r in names
    ensures Cleaned(es, names, rs) == Others(es, NamesOf(names, rs))
  {
    if rs == [] {
      OthersOneEach(es, NamesOf(names, rs));
    } else {
      var front, last := rs[..|rs| - 1], rs[|rs| - 1];
      CleanedIsOthers(es, names, front);
      OthersOneEach(es, NamesOf(names, front));
      WithoutIsOthers(Cleaned(es, names, front), names[last]);
      OthersTwice(es, NamesOf(names, front), {names[last]});
      NamesOfAppend(names, front, last);
      assert rs == front + [last];
    }
  }

  // ---------- The connection ----------

  function Removed<R(==)>(rs: seq<R>, r: R): (t: seq<R>)
    ensures forall x :: x in t ==> x in rs
    ensures forall x :: x in rs && x != r ==> x in t
  {
    if rs == [] then [] else if rs[0] == r then rs[1..]
    else
      assert rs == [rs[0]] + rs[1..];
      [rs[0]] + Removed(rs[1..], r)
  }

  function Installing<R(==)>(l: Link<R>, r: R, reference: string, h: Handler, rptId: Option<string>): Link<R> {
    var called := l.(callbacks := l.callbacks[r := h], installed := l.installed + {r});
    if r in l.installed then called
    else called.(handlers := Without(l.handlers, reference) + [Entry(reference, rptId, r)])
  }

  function Uninstalled<R(==)>(l: Link<R>, r: R, reference: string): Link<R> {
    l.(handlers := Without(l.handlers, reference), active := Removed(l.active, r))
  }

  function Closed<R(==)>(l: Link<R>): Link<R>
    requires forall r :: r in l.active ==> r in l.names
  {
    if !l.alive then l
    else l.(alive := false, handlers := Cleaned(l.handlers, l.names, l.active), destroyed := l.destroyed + 1)
  }

  function Apply<R(==)>(l: Link<R>, op: Op<R>): Link<R>
    requires Ready(l, op)
  {
    match op
    case Create(r, s) => l.(active := l.active + [r], names := l.names[r := s])
    case Install(r, s, h, id) => Installing(l, r, s, h, id)
    case DisposeBlock(r, s) => Uninstalled(l, r, s)
    case DisposeLink => Closed(l)
  }

  /** Blocks are used on an open connection only; the connection can be disposed at any time. */
  predicate Ready<R(==)>(l: Link<R>, op: Op<R>) {
    match op
    case Create(r, _) => l.alive && r !in l.names
    case Install(r, s, _, _) => l.alive && r in l.names && l.names[r] == s
    case DisposeBlock(r, s) => l.alive && r in l.names && l.names[r] == s
    case DisposeLink => forall r :: r in l.active ==> r in l.names
  }

  /** A disposed block gets its first handler. The documentation calls disposed blocks unusable. */
  predicate Reuses<R(==)>(l: Link<R>, op: Op<R>) {
    op.Install? && op.r !in l.active && op.r !in l.installed
  }

  /** What holds whatever is called: no reference has two entries, and each entry has its block's reference. */
  ghost predicate Sound<R>(l: Link<R>) {
    && Distinct(l.active)
    && (forall r :: r in l.active ==> r in l.names)
    && (forall r :: r in l.installed ==> r in l.names && r in l.callbacks)
    && (forall e :: e in l.handlers ==> EntryFits(l, e))
    && OneEach(l.handlers)
    && l.destroyed == (if l.alive then 0 else 1)
  }

  ghost predicate EntryFits<R>(l: Link<R>, e: Entry<R>) {
    e.block in l.installed && e.block in l.names && l.names[e.block] == e.reference
  }

  /** Every native entry belongs to an active block, and a closed connection has none. */
  ghost predicate Inv<R>(l: Link<R>) {
    && Sound(l)
    && (forall e :: e in l.handlers ==> e.block in l.active)
    && (!l.alive ==> l.handlers == [])
  }

  lemma CleanedIsEmpty<R>(l: Link<R>)
    requires Inv(l)
    ensures Cleaned(l.handlers, l.names, l.active) == []
  {
    CleanedIsOthers(l.handlers, l.names, l.active);
    OthersMembers(l.handlers, NamesOf(l.names, l.active));
    assert forall e :: e in l.handlers ==> EntryFits(l, e) && e.block in l.active;
    FirstIsMember(Cleaned(l.handlers, l.names, l.active));
  }

  lemma FirstIsMember<R>(es: seq<Entry<R>>)
    ensures es != [] ==> es[0] in es
  {
  }

  lemma InstallingKeepsList<R>(l: Link<R>, r: R, reference: string, h: Handler, rptId: Option<string>)
    requires Sound(l) && r !in l.installed
    ensures OneEach(Installing(l, r, reference, h, rptId).handlers)
    ensures Entry(reference, rptId, r) in Installing(l, r, reference, h, rptId).handlers
    ensures forall e :: e in Installing(l, r, reference, h, rptId).handlers ==>
              e == Entry(reference, rptId, r) || (e in l.handlers && e.reference != reference)
  {
    WithoutIsOthers(l.handlers, reference);
    OthersMembers(l.handlers, {reference});
    OthersOneEach(l.handlers, {reference});
    OneEachAppend(Others(l.handlers, {reference}), Entry(reference, rptId, r));
  }

  lemma OneEachAppend<R>(es: seq<Entry<R>>, e: Entry<R>)
    requires OneEach(es) && forall x :: x in es ==> x.reference != e.reference
    ensures OneEach(es + [e])
  {
    assert forall i :: 0 <= i < |es| ==> es[i] in es;
  }

  lemma {:induction false} RemovedIsGone<R>(rs: seq<R>, r: R)
    requires Distinct(rs)
    ensures r !in Removed(rs, r) && Distinct(Removed(rs, r))
  {
    if rs != [] && rs[0] != r {
      RemovedIsGone(rs[1..], r);
      assert rs[0] !in rs[1..];
      assert rs[0] !in Removed(rs[1..], r);
    }
  }

  lemma InstallKeepsSound<R>(l: Link<R>, r: R, s: string, h: Handler, id: Option<string>)
    requires Sound(l) && Ready(l, Install(r, s, h, id))
    ensures Sound(Installing(l, r, s, h, id))
  {
    if r !in l.installed {
      InstallingKeepsList(l, r, s, h, id);
    }
  }

  lemma DisposeBlockKeepsSound<R>(l: Link<R>, r: R, s: string)
    requires Sound(l)
    ensures Sound(Uninstalled(l, r, s))
  {
    WithoutIsOthers(l.handlers, s);
    OthersMembers(l.handlers, {s});
    OthersOneEach(l.handlers, {s});
    RemovedIsGone(l.active, r);
  }

  lemma DisposeLinkKeepsSound<R>(l: Link<R>)
    requires Sound(l)
    ensures Sound(Closed(l))
  {
    CleanedIsOthers(l.handlers, l.names, l.active);
    OthersMembers(l.handlers, NamesOf(l.names, l.active));
    OthersOneEach(l.handlers, NamesOf(l.names, l.active));
  }

  lemma StepKeepsSound<R>(l: Link<R>, op: Op<R>)
    requires Sound(l) && Ready(l, op)
    ensures Sound(Apply(l, op))
  {
    match op
    case Install(r, s, h, id) => InstallKeepsSound(l, r, s, h, id);
    case DisposeBlock(r, s) => DisposeBlockKeepsSound(l, r, s);
    case DisposeLink => DisposeLinkKeepsSound(l);
    case Create(_, _) =>
  }

  /** A step keeps all entries with active blocks exactly when it gives no first handler to a disposed one. */
  lemma StepKeepsInvExactly<R>(l: Link<R>, op: Op<R>)
    requires Inv(l) && Ready(l, op)
    ensures Inv(Apply(l, op)) <==> !Reuses(l, op)
  {
    StepKeepsSound(l, op);
    match op
    case Install(r, s, h, id) =>
      if r !in l.installed {
        InstallingKeepsList(l, r, s, h, id);
      }
    case DisposeBlock(r, s) =>
      WithoutIsOthers(l.handlers, s);
      OthersMembers(l.handlers, {s});
      assert forall e :: e in l.handlers ==> EntryFits(l, e);
    case DisposeLink =>
      if l.alive {
        CleanedIsEmpty(l);
      }
    case Create(_, _) =>
  }

  function Fresh<R(==)>(): Link<R> {
    Link(true, [], [], 0, map[], {}, map[])
  }

  predicate Legal<R(==)>(ops: seq<Op<R>>)
    decreases |ops|, 0
  {
    ops == [] || (Legal(Front(ops)) && Ready(Run(Front(ops)), Last(ops)))
  }

  function Run<R(==)>(ops: seq<Op<R>>): Link<R>
    requires Legal(ops)
    decreases |ops|, 1
  {
    if ops == [] then Fresh() else Apply(Run(Front(ops)), Last(ops))
  }

  function Front<R>(ops: seq<Op<R>>): seq<Op<R>>
    requires ops != []
  {
    ops[..|ops| - 1]
  }

  function Last<R>(ops: seq<Op<R>>): Op<R>
    requires ops != []
  {
    ops[|ops| - 1]
  }

  predicate Disposes<R(==)>(ops: seq<Op<R>>) {
    exists k :: 0 <= k < |ops| && ops[k].DisposeLink?
  }

  lemma {:induction false} LegalPrefix<R>(ops: seq<Op<R>>, i: nat)
    requires Legal(ops) && i <= |ops|
    ensures Legal(ops[..i])
  {
    if i == |ops| {
      assert ops[..i] == ops;
    } else {
      LegalPrefix(Front(ops), i);
      assert Front(ops)[..i] == ops[..i];
    }
  }

  function At<R(==)>(ops: seq<Op<R>>, i: nat): Link<R>
    requires Legal(ops) && i <= |ops|
  {
    LegalPrefix(ops, i);
    Run(ops[..i])
  }

  lemma StepAt<R>(ops: seq<Op<R>>, i: nat)
    requires Legal(ops) && i < |ops|
    ensures Ready(At(ops, i), ops[i]) && At(ops, i + 1) == Apply(At(ops, i), ops[i])
  {
    LegalPrefix(ops, i + 1);
    assert Front(ops[..i + 1]) == ops[..i];
  }

  lemma {:induction false} RunIsSound<R>(ops: seq<Op<R>>)
    requires Legal(ops)
    ensures Sound(Run(ops)) && (Run(ops).alive <==> !Disposes(ops))
  {
    if ops != [] {
      RunIsSound(Front(ops));
      StepKeepsSound(Run(Front(ops)), Last(ops));
      assert forall k :: 0 <= k < |Front(ops)| ==> Front(ops)[k] == ops[k];
      if Last(ops).DisposeLink? {
        assert ops[|ops| - 1].DisposeLink?;
      } else if Disposes(Front(ops)) {
        assert false;
      }
    }
  }

  /** No disposed block gets its first handler. */
  predicate NeverReuses<R(==)>(ops: seq<Op<R>>)
    requires Legal(ops)
  {
    forall i :: 0 <= i < |ops| ==> !Reuses(At(ops, i), ops[i])
  }

  lemma {:induction false} InvAt<R>(ops: seq<Op<R>>, i: nat)
    requires Legal(ops) && NeverReuses(ops) && i <= |ops|
    ensures Inv(At(ops, i))
  {
    if i > 0 {
      InvAt(ops, i - 1);
      StepAt(ops, i - 1);
      StepKeepsInvExactly(At(ops, i - 1), ops[i - 1]);
    }
  }

  /** All entries belong to active blocks at every point of a run exactly when it reuses no disposed block. */
  lemma InvThroughoutExactly<R>(ops: seq<Op<R>>)
    requires Legal(ops)
    ensures (forall i :: 0 <= i <= |ops| ==> Inv(At(ops, i))) <==> NeverReuses(ops)
  {
    if NeverReuses(ops) {
      forall i | 0 <= i <= |ops| ensures Inv(At(ops, i)) {
        InvAt(ops, i);
      }
    }
    if forall i :: 0 <= i <= |ops| ==> Inv(At(ops, i)) {
      forall i | 0 <= i < |ops| ensures !Reuses(At(ops, i), ops[i]) {
        StepAt(ops, i);
        assert Inv(At(ops, i)) && Inv(At(ops, i + 1));
        StepKeepsInvExactly(At(ops, i), ops[i]);
      }
    }
  }

  lemma AtEnd<R>(ops: seq<Op<R>>)
    requires Legal(ops)
    ensures At(ops, |ops|) == Run(ops)
  {
    assert ops[..|ops|] == ops;
  }

  /**
   On every run the native connection is destroyed once if the run disposes it, however often, else
   never. Without reuse the native references are among those of the active blocks; and when the
   connection goes, the cleanup of the active blocks has emptied the handler list.
   */
  lemma RegistrySafety<R>(ops: seq<Op<R>>)
    requires Legal(ops)
    ensures Run(ops).destroyed == (if Disposes(ops) then 1 else 0)
    ensures Sound(Run(ops))
    ensures NeverReuses(ops) ==>
              && Inv(Run(ops))
              && (forall e :: e in Run(ops).handlers ==> e.reference in NamesOf(Run(ops).names, Run(ops).active))
              && (Disposes(ops) ==> Run(ops).handlers == [])
  {
    RunIsSound(ops);
    if NeverReuses(ops) {
      InvAt(ops, |ops|);
      AtEnd(ops);
      forall e | e in Run(ops).handlers ensures e.reference in NamesOf(Run(ops).names, Run(ops).active) {
        assert EntryFits(Run(ops), e);
      }
    }
  }

  // ---------- The connection object ----------

  class IedConnection {
    var connection: bool
    var activeRCBs: Option<seq<ReportControlBlock>>
    var nativeHandlers: seq<Entry<ReportControlBlock>>
    var nativeDestroyed: nat
    ghost var created: set<ReportControlBlock>

    ghost function Model(): Link<ReportControlBlock>
      reads this, created
    {
      Link(connection, if activeRCBs.None? then [] else activeRCBs.value, nativeHandlers, nativeDestroyed,
           map r | r in created :: r.objectReference,
           set r | r in created && r.reportHandlerInstalled,
           map r | r in created && r.reportHandler.Some? :: r.reportHandler.value)
    }

    ghost predicate Valid()
      reads this, created
    {
      Sound(Model()) && forall r :: r in created ==> r.Valid()
    }

    constructor ()
      ensures Valid() && Inv(Model()) && Model() == Fresh() && created == {}
    {
      connection, activeRCBs, nativeHandlers, nativeDestroyed := true, None, [], 0;
      created := {};
    }

    method GetReportControlBlock(reference: string, server: Block) returns (rcb: ReportControlBlock)
      requires Valid() && connection
      modifies this
      ensures Valid() && fresh(rcb) && created == old(created) + {rcb}
      ensures Model() == Apply(old(Model()), Create(rcb, reference))
    {
      rcb := new ReportControlBlock(reference, server);
      if activeRCBs == None {
        activeRCBs := Some([]);
      }
      activeRCBs := Some(activeRCBs.value + [rcb]);
      created := created + {rcb};
      ghost var l := old(Model());
      assert Model() == Apply(l, Create(rcb, reference)) by {
        assert Model().callbacks == l.callbacks && Model().installed == l.installed;
        assert Model().names == l.names[rcb := reference];
      }
      StepKeepsSound(l, Create(rcb, reference));
    }

    /** The library replaces an entry of the reference, if any, by one at the end of the list. */
    method InstallReportHandler(rcb: ReportControlBlock, handler: Handler)
      requires Valid() && connection && rcb in created
      modifies this`nativeHandlers, rcb`reportHandler, rcb`reportHandlerInstalled, rcb`registeredRptId
      ensures Valid() && created == old(created)
      ensures Model() == Installing(old(Model()), rcb, rcb.objectReference, handler, RptIdOf(old(rcb.native)))
    {
      ghost var l := Model();
      var rptId := RptIdOf(rcb.native);
      var calls := rcb.InstallReportHandler(handler);
      if calls {
        nativeHandlers := Without(nativeHandlers, rcb.objectReference) + [Entry(rcb.objectReference, rptId, rcb)];
      }
      assert Model() == Installing(l, rcb, rcb.objectReference, handler, rptId) by {
        assert Model().names == l.names;
        assert Model().installed == l.installed + {rcb};
        assert Model().callbacks == l.callbacks[rcb := handler];
      }
      InstallKeepsSound(l, rcb, rcb.objectReference, handler, rptId);
    }

    method DisposeBlock(rcb: ReportControlBlock)
      requires Valid() && connection && rcb in created
      modifies this
      ensures Valid() && created == old(created)
      ensures Model() == Uninstalled(old(Model()), rcb, rcb.objectReference)
    {
      ghost var l := Model();
      nativeHandlers := Without(nativeHandlers, rcb.objectReference);
      if activeRCBs.Some? {
        activeRCBs := Some(Removed(activeRCBs.value, rcb));
      }
      assert Model() == Uninstalled(l, rcb, rcb.objectReference) by {
        assert Model().names == l.names && Model().installed == l.installed && Model().callbacks == l.callbacks;
      }
      DisposeBlockKeepsSound(l, rcb, rcb.objectReference);
    }

    method CleanupRCBs()
      requires Valid()
      modifies this`nativeHandlers
      ensures nativeHandlers == Cleaned(old(nativeHandlers), old(Model()).names, old(Model()).active)
      ensures old(Inv(Model())) ==> nativeHandlers == []
    {
      ghost var l := Model();
      if activeRCBs.Some? {
        var rcbs := activeRCBs.value;
        for i := 0 to |rcbs|
          invariant nativeHandlers == Cleaned(old(nativeHandlers), l.names, rcbs[..i])
        {
          assert rcbs[..i + 1][..i] == rcbs[..i];
          nativeHandlers := Without(nativeHandlers, rcbs[i].objectReference);
        }
        assert rcbs[..|rcbs|] == rcbs;
      }
      if Inv(l) {
        CleanedIsEmpty(l);
      }
    }

    /** Dispose; the finaliser does the same, leaving the handle as the last act of the object. */
    method Dispose()
      requires Valid()
      modifies this
      ensures Valid() && created == old(created)
      ensures Model() == Closed(old(Model()))
      ensures nativeDestroyed == 1 && (old(Inv(Model())) ==> nativeHandlers == [])
    {
      DisposeLinkKeepsSound(Model());
      if connection {
        CleanupRCBs();
        nativeDestroyed := nativeDestroyed + 1;
        connection := false;
        assert Model().callbacks == old(Model()).callbacks && Model().installed == old(Model()).installed;
      }
    }
  }
}
