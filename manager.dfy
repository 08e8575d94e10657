/**
  `SloMoConnectionManager` as an object whose methods update its fields in
  place. Each method is proved to leave the object in the state the
  corresponding function of module Reactor computes from the state before the
  call, so every property proved there about the functions holds of the
  object.
 */
module Manager {
  import opened Wrappers
  import opened Codec
  import opened Reactor

  class ConnectionManager {
    /** `socket_map`: one entry per registered descriptor. */
    var socketMap: map<int, Entry>
    /** The descriptors registered with `poller`, with their interest masks. */
    var polled: map<int, Mask>
    /** `class_callbacks`: the handler of each (event, tag) pair. */
    var classCallbacks: map<(Event, Tag), Handler>
    /** The handler invocations made so far. */
    var trace: seq<Call>

    /** The object's state as a value of module Reactor. */
    ghost function St(): World
      reads this
    {
      World(socketMap, polled, classCallbacks, trace)
    }

    ghost predicate Valid()
      reads this
    {
      Reactor.Valid(St())
    }

    /** `__init__`: nothing registered, every callback table empty. */
    constructor ()
      ensures St() == Initial && Valid()
    {
      socketMap := map[];
      polled := map[];
      classCallbacks := map[];
      trace := [];
      new;
      InitialValid();
    }

    method RegisterFileDescriptor(fd: int, classes: seq<Tag>) returns (raised: bool)
      requires Valid()
      modifies this
      ensures (St(), raised) == Reactor.RegisterFileDescriptor(old(St()), fd, classes)
      ensures Valid()
    {
      if fd < 0 {
        return true;
      }
      var mask := READ_FLAGS | EXCEPTION_FLAGS;
      polled := polled[fd := mask];
      socketMap := socketMap[fd := Entry(RawDescriptor, mask, [], [], None, None, classes)];
      raised := false;
    }

    method RegisterListenSocket(fd: nat, address: Address, port: nat, classes: seq<Tag>)
      requires Valid()
      modifies this
      ensures St() == Reactor.RegisterListenSocket(old(St()), fd, address, port, classes)
      ensures Valid()
    {
      var mask := READ_FLAGS | EXCEPTION_FLAGS;
      polled := polled[fd := mask];
      socketMap := socketMap[fd := Entry(ListenSocket, mask, [], [], Some(address), Some(port), classes)];
    }

    method RegisterSocket(sock: SocketHandle, address: Address, classes: seq<Tag>) returns (raised: bool)
      requires Valid()
      modifies this
      ensures (St(), raised) == Reactor.RegisterSocket(old(St()), sock, address, classes)
      ensures Valid()
    {
      var fd := Sfno(sock);
      if fd.None? {
        return true;
      }
      var mask := READ_FLAGS | WRITE_FLAGS | EXCEPTION_FLAGS;
      polled := polled[fd.value := mask];
      socketMap := socketMap[fd.value := Entry(ConnectedSocket, mask, [], [], Some(address), None, classes)];
      raised := false;
    }

    method RegisterClassCallback(event: Event, tag: Tag, handler: Handler)
      requires Valid()
      modifies this
      ensures St() == Reactor.RegisterClassCallback(old(St()), event, tag, handler)
      ensures Valid()
    {
      classCallbacks := classCallbacks[(event, tag) := handler];
    }

    /** `do_class_callback_for_event`: one pass over the entry's tags, calling each subscribed handler. */
    method DoClassCallbackForEvent(event: Event, fd: int, details: Entry)
      modifies this
      ensures St() == Reactor.DoClassCallbackForEvent(old(St()), event, fd, details)
    {
      var classes := details.classes;
      for i := 0 to |classes|
        invariant socketMap == old(socketMap) && polled == old(polled) && classCallbacks == old(classCallbacks)
        invariant trace == old(trace) + DispatchCalls(classCallbacks, event, fd, details, classes[..i])
      {
        assert classes[..i + 1][..i] == classes[..i];
        var tag := classes[i];
        if (event, tag) in classCallbacks {
          trace := trace + [Call(event, tag, fd, classCallbacks[(event, tag)], details)];
        }
      }
      assert classes[..|classes|] == classes;
    }

    method AddToWriteBuffer(fd: int, data: seq<Byte>)
      requires Valid()
      modifies this
      ensures St() == Reactor.AddToWriteBuffer(old(St()), fd, data)
      ensures Valid()
    {
      if fd in socketMap {
        var e := socketMap[fd];
        var mask := ArmWrite(e.eventMask);
        socketMap := socketMap[fd := e.(outBytes := e.outBytes + data, eventMask := mask)];
        polled := polled[fd := mask];
      }
    }

    method TryRemoveMessage(fd: int) returns (m: Option<Message>)
      requires Valid()
      modifies this
      ensures (St(), m) == Reactor.TryRemoveMessage(old(St()), fd)
      ensures Valid()
    {
      if fd !in socketMap {
        return None;
      }
      var e := socketMap[fd];
      match TryDecode(e.inBytes)
      case Incomplete =>
        m := None;
      case Frame(msg, rest) =>
        socketMap := socketMap[fd := e.(inBytes := rest)];
        m := Some(msg);
    }

    /**
      What the client and the server do after each read event: take messages
      off the descriptor until `try_remove_message` finds no whole frame. The
      messages taken, and the bytes left, are those of `Drain`.
     */
    method TakeAllMessages(fd: int) returns (msgs: seq<Message>)
      requires Valid()
      modifies this
      ensures Valid()
      ensures fd in old(socketMap) ==>
        fd in socketMap &&
        msgs == Drain(old(socketMap[fd].inBytes)).0 &&
        socketMap == old(socketMap)[fd := old(socketMap[fd]).(inBytes := Drain(old(socketMap[fd].inBytes)).1)]
      ensures fd !in old(socketMap) ==> msgs == [] && socketMap == old(socketMap)
      ensures polled == old(polled) && classCallbacks == old(classCallbacks) && trace == old(trace)
    {
      msgs := [];
      if fd !in socketMap {
        return;
      }
      ghost var e0 := socketMap[fd];
      assert [] + Drain(e0.inBytes).0 == Drain(e0.inBytes).0;
      while true
        invariant fd in socketMap && Valid()
        invariant polled == old(polled) && classCallbacks == old(classCallbacks) && trace == old(trace)
        invariant socketMap == old(socketMap)[fd := e0.(inBytes := socketMap[fd].inBytes)]
        invariant Drain(e0.inBytes).0 == msgs + Drain(socketMap[fd].inBytes).0
        invariant Drain(e0.inBytes).1 == Drain(socketMap[fd].inBytes).1
        decreases |socketMap[fd].inBytes|
      {
        ghost var before := socketMap[fd].inBytes;
        var m := TryRemoveMessage(fd);
        if m.None? {
          DrainIncomplete(before);
          assert msgs + [] == msgs;
          return;
        }
        ghost var after := socketMap[fd].inBytes;
        PackRoundTrip(m.value, after);
        DrainStep(before, m.value, after);
        Associative(msgs, [m.value], Drain(after).0);
        msgs := msgs + [m.value];
      }
    }

    method RemoveFromReadBuffer(fd: int) returns (taken: seq<Byte>)
      requires Valid()
      modifies this
      ensures (St(), taken) == Reactor.RemoveFromReadBuffer(old(St()), fd)
      ensures Valid()
    {
      if fd !in socketMap {
        return [];
      }
      var e := socketMap[fd];
      taken := e.inBytes;
      socketMap := socketMap[fd := e.(inBytes := [])];
    }

    method DoClose(fd: int, details: Entry)
      requires Valid()
      modifies this
      ensures St() == Reactor.DoClose(old(St()), fd, details)
      ensures Valid()
    {
      if fd in socketMap {
        polled := polled - {fd};
        socketMap := socketMap - {fd};
        DoClassCallbackForEvent(Close, fd, details);
      }
    }

    method OnGenericRead(fd: int, outcome: ReadOutcome) returns (raised: bool)
      requires Valid()
      modifies this
      ensures (St(), raised) == Reactor.OnGenericRead(old(St()), fd, outcome)
      ensures Valid()
    {
      raised := false;
      if fd !in socketMap {
        return;
      }
      var e := socketMap[fd];
      if e.kind == ListenSocket {
        return;
      }
      if e.kind == RawDescriptor && outcome.ReadFailed? {
        return true;
      }
      var chunk := if outcome.Received? then outcome.chunk else [];
      if |chunk| == 0 {
        if fd != 0 {
          DoClose(fd, e);
        }
      } else {
        socketMap := socketMap[fd := e.(inBytes := e.inBytes + chunk)];
      }
    }

    method OnGenericWrite(fd: int, outcome: SendOutcome) returns (raised: bool)
      requires Valid()
      modifies this
      ensures (St(), raised) == Reactor.OnGenericWrite(old(St()), fd, outcome)
      ensures Valid()
    {
      raised := false;
      if fd !in socketMap {
        return;
      }
      var e := socketMap[fd];
      if |e.outBytes| == 0 {
        var mask := DisarmWrite(e.eventMask);
        socketMap := socketMap[fd := e.(eventMask := mask)];
        polled := polled[fd := mask];
      } else if e.kind == RawDescriptor {
        raised := true;
      } else {
        match outcome
        case Accepted(n) =>
          socketMap := socketMap[fd := e.(outBytes := e.outBytes[Min(n, |e.outBytes|)..])];
        case SendFailed =>
          if fd != 0 {
            DoClose(fd, e);
          }
      }
    }

    method OnGenericException(fd: int)
      requires Valid()
      modifies this
      ensures St() == Reactor.OnGenericException(old(St()), fd)
      ensures Valid()
    {
      if fd in socketMap && fd != 0 {
        DoClose(fd, socketMap[fd]);
      }
    }

    /** One phase of an event: the generic handler, then the tags' handlers with the entry as it now stands. */
    method Phase(fd: int, event: Event, io: IoOutcome, details: Entry) returns (raised: bool, seen: Entry)
      requires Valid() && event != Close
      modifies this
      ensures (St(), raised, seen) == Reactor.Phase(old(St()), fd, event, io, details)
      ensures Valid()
    {
      match event {
        case Read => raised := OnGenericRead(fd, io.read);
        case Write => raised := OnGenericWrite(fd, io.send);
        case Exception => OnGenericException(fd); raised := false;
      }
      seen := details;
      if raised {
        return;
      }
      if fd in socketMap {
        seen := socketMap[fd];
      }
      DoClassCallbackForEvent(event, fd, seen);
    }

    /** The body of `run`'s loop for one `(fd, flag)` pair; true when it raised. */
    method HandleEvent(ev: PollEvent, io: IoOutcome) returns (raised: bool)
      requires Valid()
      modifies this
      ensures (St(), raised) == Reactor.HandleEvent(old(St()), ev, io)
      ensures Valid()
    {
      var fd := ev.fd;
      if fd !in socketMap {
        return true;
      }
      var details := socketMap[fd];
      raised := false;
      if ev.flags & READ_FLAGS != 0 {
        raised, details := Phase(fd, Read, io, details);
        if raised {
          return;
        }
      }
      if ev.flags & WRITE_FLAGS != 0 {
        raised, details := Phase(fd, Write, io, details);
        if raised {
          return;
        }
      }
      if ev.flags & EXCEPTION_FLAGS != 0 {
        raised, details := Phase(fd, Exception, io, details);
      }
    }

    /**
      `run`: handle the events one poll returned, in order, until one of them
      raises; the exception is caught and the rest of the events are dropped.
     */
    method Run(events: seq<PollEvent>, io: seq<IoOutcome>)
      requires Valid() && |io| == |events|
      modifies this
      ensures St() == Reactor.Run(old(St()), events, io)
      ensures Valid()
    {
      var i := 0;
      while i < |events|
        invariant 0 <= i <= |events| && Valid()
        invariant Reactor.Run(old(St()), events, io) == Reactor.Run(St(), events[i..], io[i..])
      {
        assert events[i..][1..] == events[i + 1..] && io[i..][1..] == io[i + 1..];
        var raised := HandleEvent(events[i], io[i]);
        if raised {
          return;
        }
        i := i + 1;
      }
    }
  }
}
