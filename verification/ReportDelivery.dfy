/**
 Which of its entries the native list still holds after a run, in terms of the calls made: where the
 reports of an id go, and what disposing the connection leaves behind.
 */
module ReportDelivery {
  import opened Common
  import opened ReportControlBlock
  import opened ReportRegistry

  // ---------- Which block a report reaches ----------

  predicate Installs<R(==)>(op: Op<R>, r: R) {
    op.Install? && op.r == r
  }

  /** The call is the first install of its block, the only one that the native library sees. */
  predicate First<R(==)>(ops: seq<Op<R>>, i: nat)
    requires i < |ops|
  {
    ops[i].Install? && forall j :: 0 <= j < i ==> !Installs(ops[j], ops[i].r)
  }

  /** The call takes the entry of a reference out of the list. */
  predicate Clears<R(==)>(ops: seq<Op<R>>, j: nat, reference: string)
    requires j < |ops|
  {
    || ops[j].DisposeLink?
    || (ops[j].DisposeBlock? && ops[j].reference == reference)
    || (First(ops, j) && ops[j].reference == reference)
  }

  /**
   The call is the first install of its block, and since then no block of the same reference has
   been disposed or got its first handler, nor has the connection been disposed.
   */
  predicate Live<R(==)>(ops: seq<Op<R>>, i: nat)
    requires i < |ops|
  {
    First(ops, i) && forall j :: i < j < |ops| ==> !Clears(ops, j, ops[i].reference)
  }

  /** The call is such an install under the given id. */
  predicate LiveUnder<R(==)>(ops: seq<Op<R>>, i: nat, id: string)
    requires i < |ops|
  {
    Live(ops, i) && EffectiveId(ops[i].reference, ops[i].rptId) == id
  }

  function EntryOf<R>(op: Op<R>): Entry<R>
    requires op.Install?
  {
    Entry(op.reference, op.rptId, op.r)
  }

  function EntriesFrom<R(==)>(ops: seq<Op<R>>, k: nat): seq<Entry<R>>
    requires k <= |ops|
    decreases |ops| - k
  {
    if k == |ops| then []
    else if Live(ops, k) then [EntryOf(ops[k])] + EntriesFrom(ops, k + 1)
    else EntriesFrom(ops, k + 1)
  }

  lemma LiveStep<R>(ops: seq<Op<R>>, i: nat)
    requires i < |ops| - 1
    ensures Live(ops, i) <==> Live(Front(ops), i) && !Clears(ops, |ops| - 1, ops[i].reference)
  {
    var f := Front(ops);
    assert forall j :: 0 <= j < |f| ==> f[j] == ops[j];
    assert forall j :: 0 <= j < |f| ==> First(f, j) == First(ops, j);
    if ops[i].Install? {
      assert forall j :: i < j < |f| ==> Clears(f, j, ops[i].reference) == Clears(ops, j, ops[i].reference);
    }
    if Live(f, i) && !Clears(ops, |f|, ops[i].reference) {
      forall j | i < j < |ops| ensures !Clears(ops, j, ops[i].reference) {
        assert j < |f| ==> !Clears(f, j, ops[i].reference);
      }
    }
  }

  lemma {:induction false} EntriesKept<R>(ops: seq<Op<R>>, k: nat)
    requires k < |ops| && !Last(ops).DisposeLink? && !Last(ops).DisposeBlock? && !First(ops, |ops| - 1)
    ensures EntriesFrom(ops, k) == EntriesFrom(Front(ops), k)
    decreases |ops| - k
  {
    if k == |ops| - 1 {
      assert EntriesFrom(ops, k + 1) == [];
    } else {
      LiveStep(ops, k);
      EntriesKept(ops, k + 1);
    }
  }

  lemma {:induction false} EntriesOthers<R>(ops: seq<Op<R>>, k: nat)
    requires k < |ops| && (Last(ops).DisposeBlock? || First(ops, |ops| - 1))
    ensures EntriesFrom(ops, k) == Others(EntriesFrom(Front(ops), k), {Last(ops).reference})
                                   + (if Last(ops).Install? then [EntryOf(Last(ops))] else [])
    decreases |ops| - k
  {
    if k == |ops| - 1 {
      assert EntriesFrom(ops, k + 1) == [];
    } else {
      LiveStep(ops, k);
      EntriesOthers(ops, k + 1);
      var f, s := Front(ops), Last(ops).reference;
      if Live(f, k) {
        assert f[k] == ops[k];
        assert Live(ops, k) <==> ops[k].reference != s;
        OthersOfCons(EntryOf(f[k]), EntriesFrom(f, k + 1), {s});
      }
    }
  }

  lemma {:induction false} EntriesGone<R>(ops: seq<Op<R>>, k: nat)
    requires k < |ops| && Last(ops).DisposeLink?
    ensures EntriesFrom(ops, k) == []
    decreases |ops| - k
  {
    if k == |ops| - 1 {
      assert EntriesFrom(ops, k + 1) == [];
    } else {
      LiveStep(ops, k);
      EntriesGone(ops, k + 1);
    }
  }

  lemma {:induction false} InstalledExactly<R>(ops: seq<Op<R>>, r: R)
    requires Legal(ops)
    ensures r in Run(ops).installed <==> exists j :: 0 <= j < |ops| && Installs(ops[j], r)
  {
    if ops != [] {
      var f := Front(ops);
      InstalledExactly(f, r);
      assert forall j :: 0 <= j < |f| ==> f[j] == ops[j];
      if Installs(Last(ops), r) {
        assert Installs(ops[|ops| - 1], r);
      } else if r in Run(f).installed {
        var j :| 0 <= j < |f| && Installs(f[j], r);
        assert Installs(ops[j], r);
      }
    }
  }

  /** The connection has not been disposed, or the cleanup has left nothing behind. */
  predicate Tidy<R(==)>(ops: seq<Op<R>>)
    requires Legal(ops)
  {
    !Disposes(ops) || NeverReuses(ops)
  }

  lemma TidyFront<R>(ops: seq<Op<R>>)
    requires Legal(ops) && ops != [] && Tidy(ops)
    ensures Tidy(Front(ops))
  {
    var f := Front(ops);
    assert forall i :: 0 <= i < |f| ==> f[i] == ops[i] && f[..i] == ops[..i];
    if Disposes(f) {
      var k :| 0 <= k < |f| && f[k].DisposeLink?;
      assert ops[k].DisposeLink?;
      forall i | 0 <= i < |f| ensures !Reuses(At(f, i), f[i]) {
        assert !Reuses(At(ops, i), ops[i]);
      }
    }
  }

  /** After any run the native list holds the live installs in the order of the calls. */
  lemma {:induction false} HandlersAreLiveInstalls<R>(ops: seq<Op<R>>)
    requires Legal(ops) && Tidy(ops)
    ensures Run(ops).handlers == EntriesFrom(ops, 0)
  {
    if ops != [] {
      var f, op, n := Front(ops), Last(ops), |ops| - 1;
      TidyFront(ops);
      HandlersAreLiveInstalls(f);
      RunIsSound(f);
      assert forall j :: 0 <= j < n ==> f[j] == ops[j];
      match op
      case Create(_, _) => EntriesKept(ops, 0);
      case Install(r, s, _, _) =>
        InstalledExactly(f, r);
        if First(ops, n) {
          WithoutIsOthers(Run(f).handlers, s);
          EntriesOthers(ops, 0);
        } else {
          EntriesKept(ops, 0);
        }
      case DisposeBlock(_, s) =>
        WithoutIsOthers(Run(f).handlers, s);
        EntriesOthers(ops, 0);
      case DisposeLink =>
        EntriesGone(ops, 0);
        assert ops[n].DisposeLink?;
        RegistrySafety(ops);
    }
  }

  // ---------- What the cleanup leaves behind ----------

  /** The call creates a block that no later call disposes. */
  predicate Stays<R(==)>(ops: seq<Op<R>>, j: nat)
    requires j < |ops|
  {
    ops[j].Create? && forall k :: j < k < |ops| ==> !(ops[k].DisposeBlock? && ops[k].r == ops[j].r)
  }

  lemma StaysStep<R>(ops: seq<Op<R>>, j: nat)
    requires j < |ops| - 1
    ensures Stays(ops, j) <==> Stays(Front(ops), j) && !(Last(ops).DisposeBlock? && Last(ops).r == ops[j].r)
  {
    var f := Front(ops);
    assert forall k :: 0 <= k < |f| ==> f[k] == ops[k];
    if Stays(ops, j) {
      assert !(ops[|f|].DisposeBlock? && ops[|f|].r == ops[j].r);
    }
  }

  /** A block is active exactly if it was created and never disposed, and it carries the reference of its creation. */
  lemma {:induction false} ActiveExactly<R>(ops: seq<Op<R>>)
    requires Legal(ops)
    ensures forall j :: 0 <= j < |ops| && ops[j].Create? ==>
              && ops[j].r in Run(ops).names && Run(ops).names[ops[j].r] == ops[j].reference
              && (Stays(ops, j) ==> ops[j].r in Run(ops).active)
    ensures forall r :: r in Run(ops).active ==> exists j :: 0 <= j < |ops| && Stays(ops, j) && ops[j].r == r
  {
    if ops != [] {
      var f, op, n := Front(ops), Last(ops), |ops| - 1;
      ActiveExactly(f);
      RunIsSound(f);
      forall j | 0 <= j < n && ops[j].Create?
        ensures ops[j].r in Run(ops).names && Run(ops).names[ops[j].r] == ops[j].reference
        ensures Stays(ops, j) ==> ops[j].r in Run(ops).active
      {
        assert f[j] == ops[j];
        StaysStep(ops, j);
      }
      forall r | r in Run(ops).active ensures exists j :: 0 <= j < |ops| && Stays(ops, j) && ops[j].r == r {
        if op.Create? && r == op.r {
          assert Stays(ops, n);
        } else {
          if op.DisposeBlock? {
            RemovedIsGone(Run(f).active, op.r);
          }
          assert r in Run(f).active;
          var j :| 0 <= j < n && Stays(f, j) && f[j].r == r;
          StaysStep(ops, j);
          assert Stays(ops, j);
        }
      }
    }
  }

  lemma {:induction false} EntriesMembers<R>(ops: seq<Op<R>>, k: nat)
    requires k <= |ops|
    ensures forall i :: k <= i < |ops| && Live(ops, i) ==> EntryOf(ops[i]) in EntriesFrom(ops, k)
    ensures forall e :: e in EntriesFrom(ops, k) ==> exists i :: k <= i < |ops| && Live(ops, i) && EntryOf(ops[i]) == e
    decreases |ops| - k
  {
    if k < |ops| {
      EntriesMembers(ops, k + 1);
    }
  }

  /** The reference belongs to a block that is created and not disposed. */
  predicate Covered<R(==)>(ops: seq<Op<R>>, reference: string) {
    exists j :: 0 <= j < |ops| && Stays(ops, j) && ops[j].reference == reference
  }

  lemma CoveredExactly<R>(ops: seq<Op<R>>, reference: string)
    requires Legal(ops) && forall r :: r in Run(ops).active ==> r in Run(ops).names
    ensures Covered(ops, reference) <==> reference in NamesOf(Run(ops).names, Run(ops).active)
  {
    ActiveExactly(ops);
    if Covered(ops, reference) {
      var j :| 0 <= j < |ops| && Stays(ops, j) && ops[j].reference == reference;
      assert ops[j].r in Run(ops).active;
    }
    if reference in NamesOf(Run(ops).names, Run(ops).active) {
      var r :| r in Run(ops).active && Run(ops).names[r] == reference;
      var j :| 0 <= j < |ops| && Stays(ops, j) && ops[j].r == r;
      assert ops[j].reference == reference;
    }
  }

  /**
   Disposing the connection empties the native list exactly if each live install has the reference
   of some block that is still active, be it the block of the install or not.
   */
  lemma EmptyAtDestroyExactly<R>(ops: seq<Op<R>>)
    requires Legal(ops + [DisposeLink]) && !Disposes(ops)
    ensures Run(ops + [DisposeLink]).handlers == []
            <==> forall i :: 0 <= i < |ops| && Live(ops, i) ==> Covered(ops, ops[i].reference)
  {
    assert Front(ops + [DisposeLink]) == ops;
    var l := Run(ops);
    RunIsSound(ops);
    HandlersAreLiveInstalls(ops);
    EntriesMembers(ops, 0);
    CleanedIsOthers(l.handlers, l.names, l.active);
    OthersMembers(l.handlers, NamesOf(l.names, l.active));
    FirstIsMember(Cleaned(l.handlers, l.names, l.active));
    forall i | 0 <= i < |ops| && Live(ops, i)
      ensures Covered(ops, ops[i].reference) <==> EntryOf(ops[i]) !in Cleaned(l.handlers, l.names, l.active)
    {
      CoveredExactly(ops, ops[i].reference);
      assert EntryOf(ops[i]) in l.handlers;
    }
  }

  /** A disposed block that gets a handler leaves an entry behind for the destroyed connection. */
  lemma ReuseOutlivesConnection<R>(a: R, s: string, id: Option<string>, h: Handler)
    ensures
      var ops := [Create(a, s), DisposeBlock(a, s), Install(a, s, h, id), DisposeLink];
      Legal(ops) && Run(ops).destroyed == 1 && Run(ops).handlers == [Entry(s, id, a)]
  {
    var o1, o2, o3, o4 := Create(a, s), DisposeBlock(a, s), Install(a, s, h, id), Op<R>.DisposeLink;
    assert [] + [o1] == [o1] && [o1] + [o2] == [o1, o2] && [o1, o2] + [o3] == [o1, o2, o3];
    assert [o1, o2, o3] + [o4] == [o1, o2, o3, o4];
    Extend([], o1);
    Extend([o1], o2);
    Extend([o1, o2], o3);
    Extend([o1, o2, o3], o4);
  }

  // ---------- Delivery ----------

  /** The earliest live install under an id, from the k-th call on. */
  function EarliestFrom<R(==)>(ops: seq<Op<R>>, k: nat, id: string): (i: Option<nat>)
    requires k <= |ops|
    ensures i.None? ==> forall j :: k <= j < |ops| ==> !LiveUnder(ops, j, id)
    ensures i.Some? ==>
              && k <= i.value < |ops| && LiveUnder(ops, i.value, id)
              && forall j :: k <= j < i.value ==> !LiveUnder(ops, j, id)
    decreases |ops| - k
  {
    if k == |ops| then None else if LiveUnder(ops, k, id) then Some(k) else EarliestFrom(ops, k + 1, id)
  }

  lemma {:induction false} ReceiverFrom<R>(ops: seq<Op<R>>, k: nat, id: string)
    requires k <= |ops|
    ensures Receiver(EntriesFrom(ops, k), id) ==
            match EarliestFrom(ops, k, id)
            case None => None
            case Some(i) => Some(ops[i].r)
    decreases |ops| - k
  {
    if k < |ops| {
      ReceiverFrom(ops, k + 1, id);
      var rest := EntriesFrom(ops, k + 1);
      assert Live(ops, k) ==> EntriesFrom(ops, k)[1..] == rest;
    }
  }

  /** The call is the earliest live install under an id. */
  predicate Earliest<R(==)>(ops: seq<Op<R>>, i: nat, id: string)
    requires i < |ops|
  {
    LiveUnder(ops, i, id) && forall j :: 0 <= j < i ==> !LiveUnder(ops, j, id)
  }

  /**
   After any run the reports of an id go to the block of the earliest live install under it, and to
   nobody exactly if there is none. Blocks that share an id or a reference compete for it.
   */
  lemma ReportsGoToEarliestExactly<R>(ops: seq<Op<R>>, id: string, r: R)
    requires Legal(ops) && Tidy(ops)
    ensures Receiver(Run(ops).handlers, id) == Some(r)
            <==> exists i :: 0 <= i < |ops| && Earliest(ops, i, id) && ops[i].r == r
    ensures Receiver(Run(ops).handlers, id) == None <==> forall i :: 0 <= i < |ops| ==> !LiveUnder(ops, i, id)
  {
    HandlersAreLiveInstalls(ops);
    ReceiverFrom(ops, 0, id);
    var e := EarliestFrom(ops, 0, id);
    if e.Some? {
      assert Earliest(ops, e.value, id);
      assert forall i :: 0 <= i < |ops| && Earliest(ops, i, id) ==> i == e.value;
    }
  }

  /** The callback that a report of an id ends up in. */
  function Delivery<R(==)>(l: Link<R>, id: string): Option<Handler> {
    match Receiver(l.handlers, id)
    case None => None
    case Some(r) => if r in l.callbacks then Some(l.callbacks[r]) else None
  }

  /** A call on a block says that the connection is open. */
  lemma OpenUntil<R>(ops: seq<Op<R>>, op: Op<R>)
    requires Legal(ops + [op]) && !op.DisposeLink?
    ensures Legal(ops) && !Disposes(ops) && !Disposes(ops + [op])
  {
    assert Front(ops + [op]) == ops;
    RunIsSound(ops);
    RunIsSound(ops + [op]);
  }

  lemma FirstInstallReaches<R>(ops: seq<Op<R>>, op: Op<R>, id: string)
    requires Legal(ops + [op]) && op.Install? && forall j :: 0 <= j < |ops| ==> !Installs(ops[j], op.r)
    ensures Receiver(Run(ops + [op]).handlers, id) == Some(op.r) <==>
            && EffectiveId(op.reference, op.rptId) == id
            && forall j :: 0 <= j < |ops| && LiveUnder(ops, j, id) ==> ops[j].reference == op.reference
  {
    var all, n := ops + [op], |ops|;
    assert Front(all) == ops;
    OpenUntil(ops, op);
    assert First(all, n) && Live(all, n);
    forall i | 0 <= i < n
      ensures LiveUnder(all, i, id) <==> LiveUnder(ops, i, id) && ops[i].reference != op.reference
    {
      LiveStep(all, i);
    }
    ReportsGoToEarliestExactly(all, id, op.r);
    assert Receiver(Run(all).handlers, id) == Some(op.r) <==> Earliest(all, n, id);
  }

  lemma LaterInstallKeepsList<R>(ops: seq<Op<R>>, op: Op<R>, j: nat)
    requires Legal(ops + [op]) && op.Install? && j < |ops| && Installs(ops[j], op.r)
    ensures Legal(ops) && Run(ops + [op]).handlers == Run(ops).handlers
  {
    assert Front(ops + [op]) == ops;
    InstalledExactly(ops, op.r);
  }

  /**
   The documentation promises that a call of InstallReportHandler replaces any handler before it.
   With the block reporting under `id`, it does so exactly in one of two cases. It is the first call
   for the block, made with that id, while no block of another reference is installed under it. Or
   an earlier call was the first, under that id, still lives, and no live one under it came before.
   In all other cases a later call changes nothing of where the reports go.
   */
  lemma InstallTakesEffectExactly<R>(ops: seq<Op<R>>, r: R, s: string, h: Handler, rptId: Option<string>, id: string)
    requires Legal(ops + [Install(r, s, h, rptId)])
    ensures Legal(ops)
    ensures
      var l, first := Run(ops + [Install(r, s, h, rptId)]), forall j :: 0 <= j < |ops| ==> !Installs(ops[j], r);
      && (Receiver(l.handlers, id) == Some(r) <==>
            if first then
              && EffectiveId(s, rptId) == id
              && forall j :: 0 <= j < |ops| && LiveUnder(ops, j, id) ==> ops[j].reference == s
            else exists i :: 0 <= i < |ops| && Earliest(ops, i, id) && ops[i].r == r)
      && (Receiver(l.handlers, id) == Some(r) ==> Delivery(l, id) == Some(h))
      && (Receiver(l.handlers, id) != Some(r) && !first ==> Delivery(l, id) == Delivery(Run(ops), id))
  {
    var op := Install(r, s, h, rptId);
    assert Front(ops + [op]) == ops;
    OpenUntil(ops, op);
    if j :| 0 <= j < |ops| && Installs(ops[j], r) {
      LaterInstallKeepsList(ops, op, j);
      ReportsGoToEarliestExactly(ops, id, r);
    } else {
      FirstInstallReaches(ops, op, id);
    }
  }

  /**
   With a single live install, a report of id `x` reaches its block exactly if `x` is the id of the
   install, or, if that had none or an empty one, the reference with every dot turned into a dollar
   sign.
   */
  lemma OnlyInstallHearsExactly<R>(ops: seq<Op<R>>, i: nat, x: string)
    requires Legal(ops) && Tidy(ops) && i < |ops| && Live(ops, i)
    requires forall k :: 0 <= k < |ops| && Live(ops, k) ==> k == i
    ensures
      var s := ops[i].reference;
      Receiver(Run(ops).handlers, x) == Some(ops[i].r) <==>
      match ops[i].rptId
      case Some(id) =>
        if id != "" then x == id
        else |x| == |s| && forall k :: 0 <= k < |x| ==> x[k] == if s[k] == '.' then '$' else s[k]
      case None => |x| == |s| && forall k :: 0 <= k < |x| ==> x[k] == if s[k] == '.' then '$' else s[k]
  {
    var s := ops[i].reference;
    ReportsGoToEarliestExactly(ops, x, ops[i].r);
    DefaultIdExactly(s);
    if |x| == |s| && forall k :: 0 <= k < |x| ==> x[k] == if s[k] == '.' then '$' else s[k] {
      assert x == DefaultId(s);
    }
    if LiveUnder(ops, i, x) {
      assert Earliest(ops, i, x);
    }
  }

  lemma Extend<R>(ops: seq<Op<R>>, op: Op<R>)
    requires Legal(ops) && Ready(Run(ops), op)
    ensures Legal(ops + [op]) && Run(ops + [op]) == Apply(Run(ops), op)
  {
    assert Front(ops + [op]) == ops;
  }

  /** Two blocks with one reference: the second install of the first block changes nothing. */
  lemma SecondInstallIsLost<R>(a: R, b: R, s: string, id: Option<string>, h1: Handler, h2: Handler, h3: Handler)
    requires a != b
    ensures
      var ops := [Create(a, s), Create(b, s), Install(a, s, h1, id), Install(b, s, h2, id), Install(a, s, h3, id)];
      Legal(ops) && Delivery(Run(ops), EffectiveId(s, id)) == Some(h2)
  {
    var o1, o2, o3, o4 := Create(a, s), Create(b, s), Install(a, s, h1, id), Install(b, s, h2, id);
    var o5 := Install(a, s, h3, id);
    assert [] + [o1] == [o1] && [o1] + [o2] == [o1, o2] && [o1, o2] + [o3] == [o1, o2, o3];
    assert [o1, o2, o3] + [o4] == [o1, o2, o3, o4] && [o1, o2, o3, o4] + [o5] == [o1, o2, o3, o4, o5];
    Extend([], o1);
    Extend([o1], o2);
    Extend([o1, o2], o3);
    Extend([o1, o2, o3], o4);
    Extend([o1, o2, o3, o4], o5);
  }

  /** Two blocks with one report id: the reports of both reach the first one, the second install is lost. */
  lemma SharedIdIsLost<R>(a: R, b: R, s: string, t: string, x: string, h1: Handler, h2: Handler)
    requires a != b && s != t && x != []
    ensures
      var ops := [Create(a, s), Create(b, t), Install(a, s, h1, Some(x)), Install(b, t, h2, Some(x))];
      Legal(ops) && EffectiveId(t, Some(x)) == x && Delivery(Run(ops), x) == Some(h1)
  {
    var o1, o2, o3, o4 := Create(a, s), Create(b, t), Install(a, s, h1, Some(x)), Install(b, t, h2, Some(x));
    assert [] + [o1] == [o1] && [o1] + [o2] == [o1, o2] && [o1, o2] + [o3] == [o1, o2, o3];
    assert [o1, o2, o3] + [o4] == [o1, o2, o3, o4];
    Extend([], o1);
    Extend([o1], o2);
    Extend([o1, o2], o3);
    Extend([o1, o2, o3], o4);
  }

  /** The call is an install or disposal of a block with the reference. */
  predicate Concerns<R(==)>(op: Op<R>, reference: string) {
    (op.Install? || op.DisposeBlock?) && op.reference == reference
  }

  /** With one block per reference and per id, every block with a handler is reached until it is disposed. */
  lemma DistinctBlocksAreReached<R>(ops: seq<Op<R>>, i: nat, id: string)
    requires Legal(ops) && Tidy(ops) && i < |ops| && First(ops, i) && id == EffectiveId(ops[i].reference, ops[i].rptId)
    requires forall j :: 0 <= j < |ops| && Concerns(ops[j], ops[i].reference) ==> ops[j].r == ops[i].r
    requires forall j :: 0 <= j < |ops| && LiveUnder(ops, j, id) ==> ops[j].r == ops[i].r
    requires forall j :: i < j < |ops| ==> !ops[j].DisposeLink? && (ops[j].DisposeBlock? ==> ops[j].r != ops[i].r)
    ensures Receiver(Run(ops).handlers, id) == Some(ops[i].r)
  {
    forall j | i < j < |ops| ensures !Clears(ops, j, ops[i].reference) {
      assert Concerns(ops[j], ops[i].reference) ==> ops[j].r == ops[i].r;
      assert Installs(ops[i], ops[i].r);
    }
    ReportsGoToEarliestExactly(ops, id, ops[i].r);
    assert LiveUnder(ops, i, id);
    var e := EarliestFrom(ops, 0, id);
    assert Earliest(ops, e.value, id);
  }
}
