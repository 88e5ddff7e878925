/**
 The server wrapper's bookkeeping of user callbacks. Control callbacks sit in one record per
 DataObject wrapper and are found again through an opaque handle that the native node keeps; write
 callbacks are found by node. Several wrappers may denote the same native node.
 */
module HandlerDispatch {
  import opened Common
  import opened ClientConnections

  type Node = nat
  type Callback = nat
  type Parameter = nat

  datatype Kind = ControlKind | CheckKind | WaitKind

  /** A wrapper for a model node; identity matters, as the dictionary compares references. */
  class DataObject {
    const self: Node
    constructor (self: Node)
      ensures this.self == self
    {
      this.self := self;
    }
  }

  class ClientConnection {
    const self: Pointer
    constructor (self: Pointer)
      ensures this.self == self
    {
      this.self := self;
    }
  }

  /** One call of a Set...Handler method; a null callback is `None`. */
  datatype Registration = Registration(
    wrapper: DataObject, kind: Kind, callback: Option<Callback>, parameter: Parameter)

  datatype WriteRegistration = WriteRegistration(attribute: DataObject, callback: Callback, parameter: Parameter)

  /** What a native call amounts to: a user callback with its arguments, or a result code of the wrapper's own. */
  datatype Dispatch =
    | Invoked(wrapper: DataObject, callback: Callback, parameter: Parameter, client: Option<ClientConnection>)
    | Refused(code: int)

  const CONTROL_FAILED := 0
  const CHECK_OBJECT_UNDEFINED := 4

  /** The most recent registration for a native node, through whichever wrapper it was made. */
  function LastFor(log: seq<Registration>, node: Node, kind: Kind): (r: Option<Registration>)
    ensures r.Some? ==> r.value.wrapper.self == node && r.value.kind == kind
    ensures r.Some? <==> exists i :: 0 <= i < |log| && log[i].wrapper.self == node && log[i].kind == kind
    ensures r.Some? ==> exists i ::
              && 0 <= i < |log| && log[i] == r.value
              && forall k :: i < k < |log| ==> !(log[k].wrapper.self == node && log[k].kind == kind)
  {
    if log == [] then None
    else
      var last := log[|log| - 1];
      if last.wrapper.self == node && last.kind == kind then
        assert log[|log| - 1] == last;
        Some(last)
      else
        assert forall i :: 0 <= i < |log| - 1 ==> log[..|log| - 1][i] == log[i];
        LastFor(log[..|log| - 1], node, kind)
  }

  /** The first registration for a node: a second one is refused. */
  function FirstFor(log: seq<WriteRegistration>, node: Node): (r: Option<WriteRegistration>)
    ensures r.Some? <==> exists i :: 0 <= i < |log| && log[i].attribute.self == node
    ensures r.Some? ==> exists i ::
              && 0 <= i < |log| && log[i] == r.value && r.value.attribute.self == node
              && forall k :: 0 <= k < i ==> log[k].attribute.self != node
  {
    if log == [] then None
    else
      var first := FirstFor(log[..|log| - 1], node);
      var last := log[|log| - 1];
      assert forall i :: 0 <= i < |log| - 1 ==> log[..|log| - 1][i] == log[i];
      if first.Some? then first
      else if last.attribute.self == node then
        assert log[|log| - 1] == last;
        Some(last)
      else None
  }

  lemma LastForAppend(log: seq<Registration>, r: Registration, node: Node, kind: Kind)
    ensures LastFor(log + [r], node, kind)
            == if r.wrapper.self == node && r.kind == kind then Some(r) else LastFor(log, node, kind)
  {
    assert (log + [r])[..|log|] == log;
  }

  lemma FirstForAppend(log: seq<WriteRegistration>, r: WriteRegistration, node: Node)
    ensures FirstFor(log + [r], node)
            == if FirstFor(log, node).None? && r.attribute.self == node then Some(r) else FirstFor(log, node)
  {
    assert (log + [r])[..|log|] == log;
  }

  class ControlHandlerInfo {
    const controlObject: DataObject
    const handle: nat
    var controlHandler: Option<Callback>
    var controlHandlerParameter: Parameter
    var checkHandler: Option<Callback>
    var checkHandlerParameter: Parameter
    var waitForExecHandler: Option<Callback>
    var waitForExecHandlerParameter: Parameter

    constructor (controlObject: DataObject, handle: nat)
      ensures this.controlObject == controlObject && this.handle == handle
    {
      this.controlObject, this.handle := controlObject, handle;
      controlHandler, checkHandler, waitForExecHandler := None, None, None;
      controlHandlerParameter, checkHandlerParameter, waitForExecHandlerParameter := 0, 0, 0;
    }

    function Slot(kind: Kind): (Option<Callback>, Parameter)
      reads this
    {
      match kind
      case ControlKind => (controlHandler, controlHandlerParameter)
      case CheckKind => (checkHandler, checkHandlerParameter)
      case WaitKind => (waitForExecHandler, waitForExecHandlerParameter)
    }

    method SetSlot(kind: Kind, callback: Option<Callback>, parameter: Parameter)
      modifies this
      ensures Slot(kind) == (callback, parameter)
      ensures forall k :: k != kind ==> Slot(k) == old(Slot(k))
    {
      match kind
      case ControlKind =>
        controlHandler := callback;
        controlHandlerParameter := parameter;
      case CheckKind =>
        checkHandler := callback;
        checkHandlerParameter := parameter;
      case WaitKind =>
        waitForExecHandler := callback;
        waitForExecHandlerParameter := parameter;
    }
  }

  class IedServer {
    var controlHandlers: map<DataObject, ControlHandlerInfo>
    var handles: seq<ControlHandlerInfo>
    var nativeControl: map<(Node, Kind), nat>
    var writeAccessHandlers: map<Node, WriteRegistration>
    var clientConnections: map<Pointer, ClientConnection>
    var connectionHandler: Option<Callback>

    // the whole history of calls, and of the user callbacks they led to
    ghost var log: seq<Registration>
    ghost var writeLog: seq<WriteRegistration>
    ghost var events: seq<ConnectionEvent<ClientConnection>>
    ghost var announced: seq<Announcement<ClientConnection>>
    ghost var heardAll: bool

    /** Each record belongs to its wrapper, and its handle leads back to it. */
    ghost predicate RecordsLinked()
      reads this`controlHandlers, this`handles, controlHandlers.Values
    {
      forall w :: w in controlHandlers ==>
        var info := controlHandlers[w];
        info.controlObject == w && info.handle < |handles| && handles[info.handle] == info
    }

    /** A native node leads to the record of the wrapper of its last registration, as that left it. */
    ghost predicate NodeCurrent(n: Node, k: Kind)
      reads this`log, this`nativeControl, this`controlHandlers, controlHandlers.Values
    {
      match LastFor(log, n, k)
      case None => (n, k) !in nativeControl
      case Some(r) =>
        && (n, k) in nativeControl && r.wrapper in controlHandlers
        && nativeControl[(n, k)] == controlHandlers[r.wrapper].handle
        && controlHandlers[r.wrapper].Slot(k) == (r.callback, r.parameter)
    }

    ghost predicate WritesCurrent()
      reads this`writeAccessHandlers, this`writeLog
    {
      forall n: Node :: FirstFor(writeLog, n) == if n in writeAccessHandlers then Some(writeAccessHandlers[n]) else None
    }

    ghost predicate ConnectionsCurrent()
      reads this`clientConnections, this`events, this`announced, this`heardAll
    {
      && clientConnections == OpenAfter(events)
      && (heardAll ==> announced == Announcements(events))
      && NewClients(events)
    }

    /**
     The three parts read different fields. A method that keeps one part and modifies no field of
     the others therefore keeps all of this.
     */
    ghost predicate Valid()
      reads this, controlHandlers.Values
    {
      RecordsLinked() && (forall n: Node, k :: NodeCurrent(n, k)) && WritesCurrent() && ConnectionsCurrent()
    }

    constructor ()
      ensures Valid() && log == [] && writeLog == [] && events == [] && heardAll
    {
      controlHandlers, handles, nativeControl := map[], [], map[];
      writeAccessHandlers, clientConnections, connectionHandler := map[], map[], None;
      log, writeLog, events, announced, heardAll := [], [], [], [], true;
    }

    method GetControlHandlerInfo(controlObject: DataObject) returns (info: ControlHandlerInfo)
      requires Valid()
      modifies this`controlHandlers, this`handles
      ensures Valid()
      ensures controlObject in controlHandlers && controlHandlers[controlObject] == info
      ensures forall w :: w in old(controlHandlers) ==>
                w in controlHandlers && controlHandlers[w] == old(controlHandlers)[w]
      ensures forall w :: w in controlHandlers ==> w in old(controlHandlers) || w == controlObject
      ensures controlObject !in old(controlHandlers) ==> fresh(info)
    {
      if controlObject in controlHandlers {
        info := controlHandlers[controlObject];
      } else {
        info := new ControlHandlerInfo(controlObject, |handles|);
        handles := handles + [info];
        controlHandlers := controlHandlers[controlObject := info];
        forall n: Node, k ensures NodeCurrent(n, k) {
          assert old(NodeCurrent(n, k));
        }
      }
    }

    /** The common shape of SetControlHandler, SetCheckHandler and SetWaitForExecutionHandler. */
    method SetHandler(controlObject: DataObject, kind: Kind, callback: Option<Callback>, parameter: Parameter)
      requires Valid()
      modifies this`controlHandlers, this`handles, this`nativeControl, this`log, controlHandlers.Values
      ensures Valid() && log == old(log) + [Registration(controlObject, kind, callback, parameter)]
      ensures writeLog == old(writeLog) && events == old(events) && announced == old(announced)
    {
      var info := GetControlHandlerInfo(controlObject);
      Register(info, controlObject, kind, callback, parameter);
    }

    /** Fills the record and hands its handle to the native library. */
    method Register(info: ControlHandlerInfo, controlObject: DataObject, kind: Kind, callback: Option<Callback>,
                    parameter: Parameter)
      requires RecordsLinked() && forall n: Node, k :: NodeCurrent(n, k)
      requires controlObject in controlHandlers && controlHandlers[controlObject] == info
      modifies this`nativeControl, this`log, info
      ensures RecordsLinked() && forall n: Node, k :: NodeCurrent(n, k)
      ensures log == old(log) + [Registration(controlObject, kind, callback, parameter)]
    {
      info.SetSlot(kind, callback, parameter);
      nativeControl := nativeControl[(controlObject.self, kind) := info.handle];
      ghost var r := Registration(controlObject, kind, callback, parameter);
      log := log + [r];
      assert forall w, k :: w in controlHandlers && (w != controlObject || k != kind) ==>
          controlHandlers[w].Slot(k) == old(controlHandlers[w].Slot(k));
      forall n: Node, k ensures NodeCurrent(n, k) {
        LastForAppend(old(log), r, n, k);
        assert old(NodeCurrent(n, k));
      }
    }

    /** The native library calls back for a node that has a handler of that kind. */
    method DispatchControl(node: Node, kind: Kind, connection: Pointer) returns (d: Dispatch)
      requires Valid() && (node, kind) in nativeControl
      ensures LastFor(log, node, kind).Some?
      ensures
        var r := LastFor(log, node, kind).value;
        d == match r.callback
             case None => Refused(if kind.CheckKind? then 4 else 0)
             case Some(callback) =>
               Invoked(r.wrapper, callback, r.parameter,
                       if kind.CheckKind? then ClientOf(connection) else None)
    {
      assert NodeCurrent(node, kind);
      var info := handles[nativeControl[(node, kind)]];
      match kind
      case ControlKind =>
        if info.controlHandler != None {
          d := Invoked(info.controlObject, info.controlHandler.value, info.controlHandlerParameter, None);
        } else {
          d := Refused(CONTROL_FAILED);
        }
      case CheckKind =>
        if info.checkHandler != None {
          var client := TryGetClient(connection);
          d := Invoked(info.controlObject, info.checkHandler.value, info.checkHandlerParameter, client);
        } else {
          d := Refused(CHECK_OBJECT_UNDEFINED);
        }
      case WaitKind =>
        if info.waitForExecHandler != None {
          d := Invoked(info.controlObject, info.waitForExecHandler.value, info.waitForExecHandlerParameter, None);
        } else {
          d := Refused(CONTROL_FAILED);
        }
    }

    ghost function ClientOf(p: Pointer): Option<ClientConnection>
      reads this
    {
      if p in OpenAfter(events) then Some(OpenAfter(events)[p]) else None
    }

    method TryGetClient(p: Pointer) returns (client: Option<ClientConnection>)
      requires ConnectionsCurrent()
      ensures client == ClientOf(p)
    {
      client := if p in clientConnections then Some(clientConnections[p]) else None;
    }

    /** The dictionary throws on a node it already has, before anything reaches the native side. */
    method HandleWriteAccess(attribute: DataObject, callback: Callback, parameter: Parameter) returns (thrown: bool)
      requires WritesCurrent()
      modifies this`writeAccessHandlers, this`writeLog
      ensures WritesCurrent() && writeLog == old(writeLog) + [WriteRegistration(attribute, callback, parameter)]
      ensures thrown <==> FirstFor(old(writeLog), attribute.self).Some?
      ensures thrown ==> writeAccessHandlers == old(writeAccessHandlers)
    {
      var r := WriteRegistration(attribute, callback, parameter);
      thrown := attribute.self in writeAccessHandlers;
      writeLog := writeLog + [r];
      if !thrown {
        writeAccessHandlers := writeAccessHandlers[attribute.self := r];
      }
      forall n: Node
        ensures FirstFor(writeLog, n) == if n in writeAccessHandlers then Some(writeAccessHandlers[n]) else None
      {
        FirstForAppend(old(writeLog), r, n);
      }
    }

    method DispatchWrite(node: Node, connection: Pointer) returns (d: Dispatch)
      requires WritesCurrent() && ConnectionsCurrent() && FirstFor(writeLog, node).Some?
      ensures
        var r := FirstFor(writeLog, node).value;
        d == Invoked(r.attribute, r.callback, r.parameter, ClientOf(connection))
    {
      var info := writeAccessHandlers[node];
      var client := TryGetClient(connection);
      d := Invoked(info.attribute, info.callback, info.parameter, client);
    }

    method SetConnectionIndicationHandler(handler: Option<Callback>)
      modifies this`connectionHandler
      ensures connectionHandler == handler
    {
      connectionHandler := handler;
    }

    /** The user hears of the end of a connection before its client object is removed. */
    method Close(p: Pointer)
      modifies this`clientConnections, this`announced
      ensures clientConnections == Next(old(clientConnections), Closed(p))
      ensures announced == old(announced) + Heard(old(clientConnections), Closed(p))
    {
      if p in clientConnections {
        var con := clientConnections[p];
        if connectionHandler.Some? {
          announced := announced + [Announcement(con, false)];
        }
        clientConnections := clientConnections - {p};
      }
    }

    /** A new client object is stored before the user hears of it. */
    method Open(p: Pointer) returns (con: ClientConnection, thrown: bool)
      modifies this`clientConnections, this`announced
      ensures fresh(con) && con.self == p && (thrown <==> p in old(clientConnections))
      ensures clientConnections == Next(old(clientConnections), Opened(p, con))
      ensures announced == old(announced) + Heard(old(clientConnections), Opened(p, con))
    {
      con := new ClientConnection(p);
      thrown := p in clientConnections;
      if !thrown {
        clientConnections := clientConnections[p := con];
        if connectionHandler.Some? {
          announced := announced + [Announcement(con, true)];
        }
      }
    }

    ghost function Heard(open: map<Pointer, ClientConnection>, e: ConnectionEvent<ClientConnection>)
      : seq<Announcement<ClientConnection>>
      reads this`connectionHandler
    {
      if connectionHandler.Some? then Announced(open, e) else []
    }

    /** The ghost side of a connection event. */
    ghost method Record(event: ConnectionEvent<ClientConnection>)
      requires clientConnections == Next(OpenAfter(events), event) && NewClients(events)
      requires heardAll && connectionHandler.Some? ==>
                 announced == Announcements(events) + Announced(OpenAfter(events), event)
      requires event.Opened? ==> forall i :: 0 <= i < |events| && events[i].Opened? ==> events[i].client != event.client
      modifies this`events, this`heardAll
      ensures events == old(events) + [event] && heardAll == (old(heardAll) && connectionHandler.Some?)
      ensures ConnectionsCurrent()
    {
      AppendEvent(events, event);
      NewClientsAppend(events, event);
      heardAll := heardAll && connectionHandler.Some?;
      events := events + [event];
    }

    method ConnectionIndication(p: Pointer, connected: bool)
      returns (thrown: bool, ghost event: ConnectionEvent<ClientConnection>)
      requires ConnectionsCurrent()
      modifies this`clientConnections, this`events, this`announced, this`heardAll
      ensures ConnectionsCurrent() && heardAll == (old(heardAll) && connectionHandler.Some?)
      ensures events == old(events) + [event] && event.p == p && event.Opened? == connected
      ensures event.Opened? ==> fresh(event.client)
      ensures thrown <==> connected && p in OpenAfter(old(events))
      ensures announced == old(announced) + Heard(OpenAfter(old(events)), event)
    {
      thrown := false;
      if !connected {
        Close(p);
        event := Closed(p);
      } else {
        var con;
        con, thrown := Open(p);
        event := Opened(p, con);
      }
      Record(event);
    }
  }
}
