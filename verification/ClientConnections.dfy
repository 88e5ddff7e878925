/**
 The events a server hears about its client connections, and what the wrapper makes of them.
 A native pointer may be used again for a later connection; every opening gets a new object `R`.
 */
module ClientConnections {

  type Pointer = nat

  datatype ConnectionEvent<R> = Opened(p: Pointer, client: R) | Closed(p: Pointer)

  /** One call of the user's connection handler. */
  datatype Announcement<R> = Announcement(client: R, connected: bool)

  function Next<R(==)>(open: map<Pointer, R>, e: ConnectionEvent<R>): map<Pointer, R> {
    match e
    case Opened(p, c) => if p in open then open else open[p := c]
    case Closed(p) => open - {p}
  }

  /** The dictionary of open connections. */
  function OpenAfter<R(==)>(es: seq<ConnectionEvent<R>>): map<Pointer, R> {
    if es == [] then map[] else Next(OpenAfter(es[..|es| - 1]), es[|es| - 1])
  }

  function Announced<R(==)>(open: map<Pointer, R>, e: ConnectionEvent<R>): seq<Announcement<R>> {
    match e
    case Opened(p, c) => if p in open then [] else [Announcement(c, true)]
    case Closed(p) => if p in open then [Announcement(open[p], false)] else []
  }

  /** All calls of the user's handler, if it was installed from the start. */
  function Announcements<R(==)>(es: seq<ConnectionEvent<R>>): seq<Announcement<R>> {
    if es == [] then []
    else Announcements(es[..|es| - 1]) + Announced(OpenAfter(es[..|es| - 1]), es[|es| - 1])
  }

  /** The native events of one pointer alternate, beginning with an opening. */
  predicate Alternating<R(==)>(es: seq<ConnectionEvent<R>>) {
    es == [] ||
    var front, e := es[..|es| - 1], es[|es| - 1];
    Alternating(front) && (e.Opened? <==> e.p !in OpenAfter(front))
  }

  /** The opening at `j` is the last event of its pointer. */
  predicate LastOpening<R(==)>(es: seq<ConnectionEvent<R>>, j: int) {
    0 <= j < |es| && es[j].Opened? && forall k :: j < k < |es| ==> es[k].p != es[j].p
  }

  /** What a check or write handler is given for a pointer: the client of its last event, if that opened it. */
  lemma {:induction false} OpenExactly<R>(es: seq<ConnectionEvent<R>>, p: Pointer, c: R)
    requires Alternating(es)
    ensures p in OpenAfter(es) && OpenAfter(es)[p] == c
            <==> exists j :: LastOpening(es, j) && es[j] == Opened(p, c)
  {
    if es != [] {
      var front, e := es[..|es| - 1], es[|es| - 1];
      OpenExactly(front, p, c);
      if e.p != p {
        if exists j :: LastOpening(front, j) && front[j] == Opened(p, c) {
          var j :| LastOpening(front, j) && front[j] == Opened(p, c);
          assert LastOpening(es, j) && es[j] == Opened(p, c);
        }
        if exists j :: LastOpening(es, j) && es[j] == Opened(p, c) {
          var j :| LastOpening(es, j) && es[j] == Opened(p, c);
          assert LastOpening(front, j) && front[j] == Opened(p, c);
        }
      } else if e == Opened(p, c) {
        assert LastOpening(es, |es| - 1);
      } else {
        forall j | LastOpening(es, j) ensures es[j] != Opened(p, c) {
          assert j < |es| - 1 ==> es[|es| - 1].p != es[j].p;
        }
      }
    }
  }

  /** The opening at `j` and the closing at `i` belong together and announce the same client. */
  predicate Matches<R(==)>(es: seq<ConnectionEvent<R>>, j: int, i: int) {
    && 0 <= j < i < |es| && es[j].Opened? && es[i].Closed? && es[j].p == es[i].p
    && (forall k :: j < k < i ==> es[k].p != es[i].p)
    && Announced(OpenAfter(es[..j]), es[j]) == [Announcement(es[j].client, true)]
    && Announced(OpenAfter(es[..i]), es[i]) == [Announcement(es[j].client, false)]
  }

  /**
   Every disconnect makes one announcement, of the very client that was announced when the pointer
   was last opened, with no other event of the pointer in between.
   */
  lemma DisconnectsMatchConnects<R>(es: seq<ConnectionEvent<R>>, i: nat)
    requires Alternating(es) && i < |es| && es[i].Closed?
    ensures exists j :: Matches(es, j, i)
  {
    var p := es[i].p;
    LegalAt(es, i);
    var c := OpenAfter(es[..i])[p];
    OpenExactly(es[..i], p, c);
    var j :| LastOpening(es[..i], j) && es[..i][j] == Opened(p, c);
    LegalAt(es, j);
    assert Matches(es, j, i);
  }

  lemma LegalAt<R>(es: seq<ConnectionEvent<R>>, i: nat)
    requires Alternating(es) && i < |es|
    ensures Alternating(es[..i])
    ensures es[i].Opened? <==> es[i].p !in OpenAfter(es[..i])
  {
    AlternatingPrefix(es, i + 1);
    assert es[..i + 1][..i] == es[..i];
  }

  lemma {:induction false} AlternatingPrefix<R>(es: seq<ConnectionEvent<R>>, i: nat)
    requires Alternating(es) && i <= |es|
    ensures Alternating(es[..i])
  {
    if i < |es| {
      AlternatingPrefix(es[..|es| - 1], i);
      assert es[..|es| - 1][..i] == es[..i];
    } else {
      assert es[..i] == es;
    }
  }

  predicate NewClients<R(==)>(es: seq<ConnectionEvent<R>>) {
    forall i, j :: 0 <= i < j < |es| && es[i].Opened? && es[j].Opened? ==> es[i].client != es[j].client
  }

  lemma NewClientsAppend<R>(es: seq<ConnectionEvent<R>>, e: ConnectionEvent<R>)
    requires NewClients(es)
    requires e.Opened? ==> forall i :: 0 <= i < |es| && es[i].Opened? ==> es[i].client != e.client
    ensures NewClients(es + [e])
  {
  }

  lemma AppendEvent<R>(es: seq<ConnectionEvent<R>>, e: ConnectionEvent<R>)
    ensures OpenAfter(es + [e]) == Next(OpenAfter(es), e)
    ensures Announcements(es + [e]) == Announcements(es) + Announced(OpenAfter(es), e)
  {
    assert (es + [e])[..|es|] == es;
  }

  function Count<R(==)>(calls: seq<Announcement<R>>, call: Announcement<R>): nat {
    if calls == [] then 0
    else Count(calls[..|calls| - 1], call) + (if calls[|calls| - 1] == call then 1 else 0)
  }

  predicate WasOpened<R(==)>(es: seq<ConnectionEvent<R>>, c: R) {
    exists k :: 0 <= k < |es| && es[k].Opened? && es[k].client == c
  }

  predicate IsOpen<R(==)>(open: map<Pointer, R>, c: R) {
    exists p :: p in open && open[p] == c
  }

  /** Open clients have been opened, under one pointer each. */
  lemma {:induction false} OpenClients<R>(es: seq<ConnectionEvent<R>>)
    requires Alternating(es) && NewClients(es)
    ensures forall p :: p in OpenAfter(es) ==> WasOpened(es, OpenAfter(es)[p])
    ensures forall p, q :: p in OpenAfter(es) && q in OpenAfter(es) && OpenAfter(es)[p] == OpenAfter(es)[q] ==> p == q
  {
    if es != [] {
      var front, e := es[..|es| - 1], es[|es| - 1];
      OpenClients(front);
      forall c | WasOpened(front, c) ensures WasOpened(es, c) && (e.Opened? ==> e.client != c) {
        var k :| 0 <= k < |front| && front[k].Opened? && front[k].client == c;
        assert es[k] == front[k];
      }
      if e.Opened? {
        assert es[|es| - 1].client == e.client;
        assert WasOpened(es, e.client);
      }
      var before, after := OpenAfter(front), OpenAfter(es);
      forall p | p in after ensures WasOpened(es, after[p]) {
        assert p in before ==> WasOpened(front, before[p]);
      }
      forall p, q | p in after && q in after && after[p] == after[q] ensures p == q {
        assert p in before ==> WasOpened(front, before[p]);
        assert q in before ==> WasOpened(front, before[q]);
      }
    }
  }

  function Digit(b: bool): nat {
    if b then 1 else 0
  }

  lemma CountAppend<R>(calls: seq<Announcement<R>>, more: seq<Announcement<R>>, call: Announcement<R>)
    requires |more| == 1
    ensures Count(calls + more, call) == Count(calls, call) + Digit(more[0] == call)
  {
    assert (calls + more)[..|calls|] == calls;
  }

  /** One event: it opens a client that was never opened, or closes one that is open. */
  lemma OneEvent<R>(es: seq<ConnectionEvent<R>>, c: R)
    requires es != [] && Alternating(es) && NewClients(es)
    ensures
      var front, e := es[..|es| - 1], es[|es| - 1];
      var open := OpenAfter(front);
      && |Announced(open, e)| == 1
      && (WasOpened(es, c) <==> WasOpened(front, c) || Announced(open, e)[0] == Announcement(c, true))
      && !(WasOpened(front, c) && Announced(open, e)[0] == Announcement(c, true))
      && (IsOpen(open, c) ==> WasOpened(front, c))
      && (IsOpen(OpenAfter(es), c) <==>
            && (IsOpen(open, c) || Announced(open, e)[0] == Announcement(c, true))
            && Announced(open, e)[0] != Announcement(c, false))
      && (Announced(open, e)[0] == Announcement(c, false) ==> IsOpen(open, c))
  {
    var front, e := es[..|es| - 1], es[|es| - 1];
    var open := OpenAfter(front);
    OpenClients(front);
    if WasOpened(front, c) {
      var k :| 0 <= k < |front| && front[k].Opened? && front[k].client == c;
      assert es[k] == front[k];
    }
    if WasOpened(es, c) {
      var k :| 0 <= k < |es| && es[k].Opened? && es[k].client == c;
      assert k < |front| ==> front[k] == es[k];
    }
    if IsOpen(open, c) {
      var p :| p in open && open[p] == c;
      assert p != e.p ==> p in OpenAfter(es) && OpenAfter(es)[p] == c;
    }
    if e.Opened? {
      assert OpenAfter(es)[e.p] == e.client;
    }
  }

  /**
   As every opening has a new client object, each object is announced connected once if it was ever
   opened, and as often disconnected, save for the one time that it is still open.
   */
  lemma {:induction false} AnnouncementsBalance<R>(es: seq<ConnectionEvent<R>>, c: R)
    requires Alternating(es) && NewClients(es)
    ensures Count(Announcements(es), Announcement(c, true)) == Digit(WasOpened(es, c))
    ensures Count(Announcements(es), Announcement(c, true))
            == Count(Announcements(es), Announcement(c, false)) + Digit(IsOpen(OpenAfter(es), c))
  {
    if es != [] {
      var front, e := es[..|es| - 1], es[|es| - 1];
      AnnouncementsBalance(front, c);
      OneEvent(es, c);
      CountAppend(Announcements(front), Announced(OpenAfter(front), e), Announcement(c, true));
      CountAppend(Announcements(front), Announced(OpenAfter(front), e), Announcement(c, false));
    }
  }
}
