/**
  The state of the connection manager as a value, and every operation on it
  as a function from the old state (and the operation's inputs) to the new
  one. The class in module Manager performs the same operations in place and
  is proved to agree with these functions; the properties of the manager are
  proved here, once, about the functions.

  Operating-system calls are inputs: a `recv`/`os.read` is a `ReadOutcome`,
  a `send` is a `SendOutcome`, and `poller.poll` is the list of
  `PollEvent`s handed to `Run`. The poller's registrations are the map
  `polled` (descriptor to interest mask). Registered handlers are not run:
  each invocation is appended to `trace` as a `Call`.
 */
module Reactor {
  import opened Wrappers
  import opened Codec

  /** A poll(2) event mask, with the Linux bit values. */
  type Mask = bv16

  const POLLIN: Mask := 0x001
  const POLLPRI: Mask := 0x002
  const POLLOUT: Mask := 0x004
  const POLLERR: Mask := 0x008
  const POLLHUP: Mask := 0x010

  const READ_FLAGS: Mask := POLLHUP | POLLIN | POLLPRI
  const WRITE_FLAGS: Mask := POLLOUT
  const EXCEPTION_FLAGS: Mask := POLLERR

  /** Largest number of bytes one read asks for (`recv_size`, 1 MiB). */
  const RECV_SIZE: nat := 1048576

  /** A capability tag ("class") naming the role a descriptor plays. */
  type Tag = string

  /** The identity of a registered callback function. */
  type Handler = nat

  type Address = string

  /** The closed variant behind the source's `is_listen_socket` / `is_socket` flags. */
  datatype Kind = ListenSocket | ConnectedSocket | RawDescriptor

  /** One `socket_map` entry. */
  datatype Entry = Entry(
    kind: Kind,
    eventMask: Mask,
    inBytes: seq<Byte>,
    outBytes: seq<Byte>,
    address: Option<Address>,
    port: Option<nat>,
    classes: seq<Tag>)

  /** The four keys of `class_callbacks`. */
  datatype Event = Close | Read | Write | Exception

  /**
    One handler invocation: the event, the tag it was registered under, the
    descriptor, the handler, and the contents of the `socket_details` entry
    the handler receives.
   */
  datatype Call = Call(event: Event, tag: Tag, fd: int, handler: Handler, details: Entry)

  /** The whole manager: registry, poller registrations, callback table, and the handler calls made so far. */
  datatype World = World(
    socketMap: map<int, Entry>,
    polled: map<int, Mask>,
    classCallbacks: map<(Event, Tag), Handler>,
    trace: seq<Call>)

  /** A socket object as `sfno` sees it: `fileno()` returns a number, or raises. */
  datatype SocketHandle = Socket(fileno: int) | Unusable

  /** What one `recv(recv_size)` or `os.read(fd, recv_size)` can return. */
  type Chunk = s: seq<Byte> | |s| <= RECV_SIZE

  datatype ReadOutcome = Received(chunk: Chunk) | ReadFailed

  /** What one `send(out_bytes)` does: accept some count of bytes, or raise. */
  datatype SendOutcome = Accepted(count: nat) | SendFailed

  /** One `(fd, flag)` pair returned by `poller.poll`. */
  datatype PollEvent = PollEvent(fd: int, flags: Mask)

  /** The operating system's answers while one poll event is handled. */
  datatype IoOutcome = IoOutcome(read: ReadOutcome, send: SendOutcome)

  const Initial: World := World(map[], map[], map[], [])

  function Min(a: nat, b: nat): nat
  {
    if a < b then a else b
  }

  /** `sfno`: the descriptor of a socket, or `None` where `fileno()` raises or is negative. */
  function Sfno(s: SocketHandle): (r: Option<int>)
    ensures r.Some? <==> s.Socket? && s.fileno >= 0
    ensures r.Some? ==> r.value == s.fileno
  {
    match s
    case Socket(fno) => if fno < 0 then None else Some(fno)
    case Unusable => None
  }

  /** `mask | WRITE_FLAGS`: arm write interest. */
  function ArmWrite(mask: Mask): (r: Mask)
    ensures r & WRITE_FLAGS != 0
    ensures r & !WRITE_FLAGS == mask & !WRITE_FLAGS
  {
    mask | WRITE_FLAGS
  }

  /** `mask & ~WRITE_FLAGS`: disarm write interest, keeping every other bit. */
  function DisarmWrite(mask: Mask): (r: Mask)
    ensures r & WRITE_FLAGS == 0
    ensures r & !WRITE_FLAGS == mask & !WRITE_FLAGS
  {
    mask & !WRITE_FLAGS
  }

  // ---------------------------------------------------------------------
  // The registry invariant
  // ---------------------------------------------------------------------

  /** Pending outbound bytes keep the write-interest bit set. */
  predicate WriteArmed(e: Entry)
  {
    |e.outBytes| > 0 ==> e.eventMask & WRITE_FLAGS != 0
  }

  /**
    The poller watches exactly the registered descriptors, each with the mask
    its entry records, and no entry holds unsent bytes without write interest.
   */
  predicate Valid(w: World)
  {
    w.polled.Keys == w.socketMap.Keys &&
    forall fd :: fd in w.socketMap ==>
      fd >= 0 && fd in w.polled && w.polled[fd] == w.socketMap[fd].eventMask && WriteArmed(w.socketMap[fd])
  }

  /**
    What every generic handler and every dispatch respects: the callback
    table is untouched, no descriptor is added, the trace only grows, and
    each surviving entry keeps its kind and tags.
   */
  predicate Evolves(w: World, r: World)
  {
    r.classCallbacks == w.classCallbacks &&
    r.socketMap.Keys <= w.socketMap.Keys &&
    w.trace <= r.trace &&
    forall fd :: fd in r.socketMap ==>
      fd in w.socketMap && r.socketMap[fd].kind == w.socketMap[fd].kind && r.socketMap[fd].classes == w.socketMap[fd].classes
  }

  /** Every call appended between `w` and `r` is for one of `events`. */
  predicate AppendsOnly(w: World, r: World, events: set<Event>)
  {
    w.trace <= r.trace &&
    forall k :: |w.trace| <= k < |r.trace| ==> r.trace[k].event in events
  }

  lemma EvolvesTransitive(w1: World, w2: World, w3: World)
    requires Evolves(w1, w2) && Evolves(w2, w3)
    ensures Evolves(w1, w3)
  {
  }

  lemma InitialValid()
    ensures Valid(Initial)
  {
  }

  // ---------------------------------------------------------------------
  // Registration
  // ---------------------------------------------------------------------

  /** Insert (or silently replace) the entry of `fd` and register it with the poller. */
  function Register(w: World, fd: int, e: Entry): World
  {
    w.(socketMap := w.socketMap[fd := e], polled := w.polled[fd := e.eventMask])
  }

  lemma RegisterKeepsValid(w: World, fd: int, e: Entry)
    requires fd >= 0 && e.outBytes == []
    ensures Valid(w) ==> Valid(Register(w, fd, e))
  {
  }

  /**
    `register_file_descriptor`: a raw descriptor watched for read and error
    events only. The poller refuses a negative descriptor (it raises, the
    second component) before the registry is touched.
   */
  function RegisterFileDescriptor(w: World, fd: int, classes: seq<Tag>): (r: (World, bool))
    ensures Valid(w) ==> Valid(r.0)
    ensures r.1 <==> fd < 0
    ensures r.1 ==> r.0 == w
    ensures !r.1 ==> fd in r.0.socketMap && r.0.socketMap[fd].eventMask & WRITE_FLAGS == 0
  {
    if fd < 0 then (w, true)
    else
      var e := Entry(RawDescriptor, READ_FLAGS | EXCEPTION_FLAGS, [], [], None, None, classes);
      RegisterKeepsValid(w, fd, e);
      (Register(w, fd, e), false)
  }

  /**
    `register_listen_socket`: a listening socket, here already given the
    descriptor `fd` the operating system chose for it, watched for read and
    error events.
   */
  function RegisterListenSocket(w: World, fd: nat, address: Address, port: nat, classes: seq<Tag>): (r: World)
    ensures Valid(w) ==> Valid(r)
    ensures fd in r.socketMap && r.socketMap[fd].eventMask & WRITE_FLAGS == 0
  {
    var e := Entry(ListenSocket, READ_FLAGS | EXCEPTION_FLAGS, [], [], Some(address), Some(port), classes);
    RegisterKeepsValid(w, fd, e);
    Register(w, fd, e)
  }

  /**
    `register_socket`: a connected socket watched for read, write and error
    events. A socket without a usable descriptor makes the poller raise (the
    second component) before the registry is touched.
   */
  function RegisterSocket(w: World, sock: SocketHandle, address: Address, classes: seq<Tag>): (r: (World, bool))
    ensures Valid(w) ==> Valid(r.0)
    ensures r.1 <==> Sfno(sock).None?
    ensures r.1 ==> r.0 == w
    ensures !r.1 ==> Sfno(sock).value in r.0.socketMap && r.0.socketMap[Sfno(sock).value].eventMask & WRITE_FLAGS != 0
  {
    match Sfno(sock)
    case None => (w, true)
    case Some(fd) =>
      var e := Entry(ConnectedSocket, READ_FLAGS | WRITE_FLAGS | EXCEPTION_FLAGS, [], [], Some(address), None, classes);
      RegisterKeepsValid(w, fd, e);
      (Register(w, fd, e), false)
  }

  /** Every registration starts the entry with empty buffers and the given tags, and leaves the others alone. */
  lemma RegistrationStartsEmpty(w: World, fd: nat, sock: SocketHandle, address: Address, port: nat, classes: seq<Tag>)
    ensures var r := RegisterFileDescriptor(w, fd, classes).0;
      r.socketMap[fd] == Entry(RawDescriptor, READ_FLAGS | EXCEPTION_FLAGS, [], [], None, None, classes) &&
      r.socketMap.Keys == w.socketMap.Keys + {fd} &&
      (forall other :: other in w.socketMap && other != fd ==> r.socketMap[other] == w.socketMap[other])
    ensures var r := RegisterListenSocket(w, fd, address, port, classes);
      r.socketMap[fd] == Entry(ListenSocket, READ_FLAGS | EXCEPTION_FLAGS, [], [], Some(address), Some(port), classes) &&
      r.socketMap.Keys == w.socketMap.Keys + {fd} &&
      (forall other :: other in w.socketMap && other != fd ==> r.socketMap[other] == w.socketMap[other])
    ensures var (r, raised) := RegisterSocket(w, sock, address, classes);
      !raised ==>
        var sfd := Sfno(sock).value;
        r.socketMap[sfd] == Entry(ConnectedSocket, READ_FLAGS | WRITE_FLAGS | EXCEPTION_FLAGS, [], [], Some(address), None, classes) &&
        r.socketMap.Keys == w.socketMap.Keys + {sfd} &&
        (forall other :: other in w.socketMap && other != sfd ==> r.socketMap[other] == w.socketMap[other])
  {
  }

  /** `register_class_callback`: one handler per (event, tag); a second registration replaces the first. */
  function RegisterClassCallback(w: World, event: Event, tag: Tag, handler: Handler): (r: World)
    ensures (event, tag) in r.classCallbacks && r.classCallbacks[(event, tag)] == handler
    ensures forall key :: key in w.classCallbacks && key != (event, tag) ==> key in r.classCallbacks && r.classCallbacks[key] == w.classCallbacks[key]
    ensures r.socketMap == w.socketMap && r.polled == w.polled && r.trace == w.trace
  {
    w.(classCallbacks := w.classCallbacks[(event, tag) := handler])
  }

  // ---------------------------------------------------------------------
  // Callback dispatch
  // ---------------------------------------------------------------------

  /** The invocations `do_class_callback_for_event` makes for the tags in `classes`, in list order. */
  function DispatchCalls(callbacks: map<(Event, Tag), Handler>, event: Event, fd: int, details: Entry, classes: seq<Tag>): (r: seq<Call>)
    ensures |r| <= |classes|
    ensures forall k :: 0 <= k < |r| ==>
      r[k].event == event && r[k].fd == fd && r[k].details == details &&
      (event, r[k].tag) in callbacks && r[k].handler == callbacks[(event, r[k].tag)]
  {
    if classes == [] then []
    else
      var last := classes[|classes| - 1];
      DispatchCalls(callbacks, event, fd, details, classes[..|classes| - 1]) +
      (if (event, last) in callbacks then [Call(event, last, fd, callbacks[(event, last)], details)] else [])
  }

  /** The tags of `classes` that have a handler for `event`, in attachment order. */
  function Subscribed(callbacks: map<(Event, Tag), Handler>, event: Event, classes: seq<Tag>): seq<Tag>
  {
    if classes == [] then []
    else (if (event, classes[0]) in callbacks then [classes[0]] else []) + Subscribed(callbacks, event, classes[1..])
  }

  function TagsOf(calls: seq<Call>): (r: seq<Tag>)
    ensures |r| == |calls|
    ensures forall k :: 0 <= k < |calls| ==> r[k] == calls[k].tag
  {
    seq(|calls|, k requires 0 <= k < |calls| => calls[k].tag)
  }

  lemma {:induction false} SubscribedAppend(callbacks: map<(Event, Tag), Handler>, event: Event, classes: seq<Tag>, tag: Tag)
    ensures Subscribed(callbacks, event, classes + [tag]) ==
      Subscribed(callbacks, event, classes) + (if (event, tag) in callbacks then [tag] else [])
  {
    if classes != [] {
      assert (classes + [tag])[1..] == classes[1..] + [tag];
      SubscribedAppend(callbacks, event, classes[1..], tag);
    }
  }

  /** Dispatch invokes exactly the subscribed tags, in the order they were attached. */
  lemma {:induction false} DispatchOrder(callbacks: map<(Event, Tag), Handler>, event: Event, fd: int, details: Entry, classes: seq<Tag>)
    ensures TagsOf(DispatchCalls(callbacks, event, fd, details, classes)) == Subscribed(callbacks, event, classes)
  {
    if classes != [] {
      var init, last := classes[..|classes| - 1], classes[|classes| - 1];
      DispatchOrder(callbacks, event, fd, details, init);
      SubscribedAppend(callbacks, event, init, last);
      assert init + [last] == classes;
    }
  }

  /** Each tag fires as many times as it is attached if it has a handler for the event, and never otherwise. */
  lemma {:induction false} SubscribedCount(callbacks: map<(Event, Tag), Handler>, event: Event, classes: seq<Tag>, tag: Tag)
    ensures multiset(Subscribed(callbacks, event, classes))[tag] ==
      if (event, tag) in callbacks then multiset(classes)[tag] else 0
  {
    if classes != [] {
      SubscribedCount(callbacks, event, classes[1..], tag);
      assert classes == [classes[0]] + classes[1..];
    }
  }

  /** Two tags with handlers for the event: both fire, once each, first tag first. */
  lemma TagFanOut(callbacks: map<(Event, Tag), Handler>, event: Event, fd: int, details: Entry, t1: Tag, t2: Tag)
    requires (event, t1) in callbacks && (event, t2) in callbacks
    ensures DispatchCalls(callbacks, event, fd, details, [t1, t2]) ==
      [Call(event, t1, fd, callbacks[(event, t1)], details), Call(event, t2, fd, callbacks[(event, t2)], details)]
  {
    assert [t1, t2][..1] == [t1];
    assert [t1][..0] == [];
  }

  /** `do_class_callback_for_event`: record one call per subscribed tag of `details`. */
  function DoClassCallbackForEvent(w: World, event: Event, fd: int, details: Entry): (r: World)
    ensures r.socketMap == w.socketMap && r.polled == w.polled && r.classCallbacks == w.classCallbacks
    ensures w.trace <= r.trace && TagsOf(r.trace[|w.trace|..]) == Subscribed(w.classCallbacks, event, details.classes)
    ensures forall k :: |w.trace| <= k < |r.trace| ==>
      r.trace[k].event == event && r.trace[k].fd == fd && r.trace[k].details == details &&
      (event, r.trace[k].tag) in w.classCallbacks && r.trace[k].handler == w.classCallbacks[(event, r.trace[k].tag)]
  {
    DispatchOrder(w.classCallbacks, event, fd, details, details.classes);
    w.(trace := w.trace + DispatchCalls(w.classCallbacks, event, fd, details, details.classes))
  }

  // ---------------------------------------------------------------------
  // Buffer operations used by collaborators
  // ---------------------------------------------------------------------

  /** `add_to_write_buffer`: append to the outbound bytes and arm write interest. */
  function AddToWriteBuffer(w: World, fd: int, data: seq<Byte>): (r: World)
    ensures Valid(w) ==> Valid(r)
    ensures Evolves(w, r) && r.trace == w.trace
  {
    if fd in w.socketMap then
      var e := w.socketMap[fd];
      var e' := e.(outBytes := e.outBytes + data, eventMask := ArmWrite(e.eventMask));
      w.(socketMap := w.socketMap[fd := e'], polled := w.polled[fd := e'.eventMask])
    else
      w
  }

  /**
    On a known descriptor `add_to_write_buffer` appends `data` after the bytes
    already queued and sets the write bit; nothing else changes.
   */
  lemma AddToWriteBufferAppends(w: World, fd: int, data: seq<Byte>)
    requires fd in w.socketMap
    ensures var e, r := w.socketMap[fd], AddToWriteBuffer(w, fd, data);
      fd in r.socketMap &&
      r.socketMap[fd] == e.(outBytes := e.outBytes + data, eventMask := ArmWrite(e.eventMask)) &&
      r.socketMap[fd].eventMask & WRITE_FLAGS != 0 &&
      r.socketMap.Keys == w.socketMap.Keys &&
      (forall other :: other in w.socketMap && other != fd ==> r.socketMap[other] == w.socketMap[other])
  {
  }

  /** `try_remove_message`: take one whole frame off the front of the inbound bytes. */
  function TryRemoveMessage(w: World, fd: int): (r: (World, Option<Message>))
    ensures Valid(w) ==> Valid(r.0)
    ensures Evolves(w, r.0) && r.0.trace == w.trace
    ensures r.1.Some? ==>
      fd in w.socketMap && fd in r.0.socketMap && Packable(r.1.value) &&
      w.socketMap[fd].inBytes == Pack(r.1.value) + r.0.socketMap[fd].inBytes
    ensures r.1.None? <==> fd !in w.socketMap || !HoldsFrame(w.socketMap[fd].inBytes)
    ensures r.1.None? ==> r.0 == w
  {
    if fd !in w.socketMap then (w, None)
    else
      var e := w.socketMap[fd];
      match TryDecode(e.inBytes)
      case Incomplete => (w, None)
      case Frame(m, rest) =>
        DecodeTakesOneFrame(e.inBytes);
        (w.(socketMap := w.socketMap[fd := e.(inBytes := rest)]), Some(m))
  }

  /** A packed frame at the front of the inbound bytes comes out whole, and only the bytes after it stay. */
  lemma TryRemoveMessageRoundTrip(w: World, fd: int, m: Message, rest: seq<Byte>)
    requires fd in w.socketMap && Packable(m) && w.socketMap[fd].inBytes == Pack(m) + rest
    ensures TryRemoveMessage(w, fd) ==
      (w.(socketMap := w.socketMap[fd := w.socketMap[fd].(inBytes := rest)]), Some(m))
  {
    PackRoundTrip(m, rest);
  }

  /** `remove_from_read_buffer`: hand over all inbound bytes and leave none. */
  function RemoveFromReadBuffer(w: World, fd: int): (r: (World, seq<Byte>))
    ensures Valid(w) ==> Valid(r.0)
    ensures Evolves(w, r.0) && r.0.trace == w.trace
  {
    if fd in w.socketMap then
      var e := w.socketMap[fd];
      (w.(socketMap := w.socketMap[fd := e.(inBytes := [])]), e.inBytes)
    else
      (w, [])
  }

  /** On a known descriptor the whole former inbound buffer is returned and the buffer is left empty. */
  lemma RemoveFromReadBufferDrains(w: World, fd: int)
    requires fd in w.socketMap
    ensures var (r, taken) := RemoveFromReadBuffer(w, fd);
      taken == w.socketMap[fd].inBytes &&
      r.socketMap == w.socketMap[fd := w.socketMap[fd].(inBytes := [])]
  {
  }

  /** Operations on a descriptor that is not registered change nothing. */
  lemma UnknownDescriptorIsIgnored(w: World, fd: int, data: seq<Byte>, details: Entry, read: ReadOutcome, send: SendOutcome)
    requires fd !in w.socketMap
    ensures TryRemoveMessage(w, fd) == (w, None)
    ensures RemoveFromReadBuffer(w, fd) == (w, [])
    ensures AddToWriteBuffer(w, fd, data) == w
    ensures DoClose(w, fd, details) == w
    ensures OnGenericRead(w, fd, read) == (w, false)
    ensures OnGenericWrite(w, fd, send) == (w, false)
    ensures OnGenericException(w, fd) == w
  {
  }

  // ---------------------------------------------------------------------
  // Generic handlers
  // ---------------------------------------------------------------------

  /** `do_close`: unregister and forget the descriptor, then run its close handlers; nothing if already gone. */
  function DoClose(w: World, fd: int, details: Entry): (r: World)
    ensures Valid(w) ==> Valid(r)
    ensures Evolves(w, r) && AppendsOnly(w, r, {Close})
    ensures fd !in r.socketMap
  {
    if fd in w.socketMap then
      DoClassCallbackForEvent(w.(socketMap := w.socketMap - {fd}, polled := w.polled - {fd}), Close, fd, details)
    else
      w
  }

  /** Closing twice is closing once: the close handlers never fire a second time. */
  lemma CloseIsIdempotent(w: World, fd: int, d1: Entry, d2: Entry)
    ensures DoClose(DoClose(w, fd, d1), fd, d2) == DoClose(w, fd, d1)
  {
  }

  /** A close of a registered descriptor removes it and records its close handlers, once each. */
  lemma CloseFiresHandlers(w: World, fd: int, details: Entry)
    requires fd in w.socketMap
    ensures DoClose(w, fd, details).socketMap == w.socketMap - {fd}
    ensures DoClose(w, fd, details).trace == w.trace + DispatchCalls(w.classCallbacks, Close, fd, details, details.classes)
  {
  }

  /**
    `on_generic_read`. Listening sockets are left to their read handlers.
    Otherwise one read of up to `RECV_SIZE` bytes: bytes are appended; no
    bytes, or a failed `recv` on a socket, close the descriptor (except
    descriptor 0, which the source's `if fd:` never closes). A failed
    `os.read` on a raw descriptor raises (the second component).
   */
  function OnGenericRead(w: World, fd: int, outcome: ReadOutcome): (r: (World, bool))
    ensures Valid(w) ==> Valid(r.0)
    ensures Evolves(w, r.0) && AppendsOnly(w, r.0, {Close})
    ensures r.1 ==> r.0 == w
    ensures r.1 <==> fd in w.socketMap && w.socketMap[fd].kind == RawDescriptor && outcome.ReadFailed?
  {
    if fd !in w.socketMap then (w, false)
    else
      var e := w.socketMap[fd];
      if e.kind == ListenSocket then (w, false)
      else if e.kind == RawDescriptor && outcome.ReadFailed? then (w, true)
      else
        var chunk := if outcome.Received? then outcome.chunk else [];
        if |chunk| == 0 then
          (if fd != 0 then DoClose(w, fd, e) else w, false)
        else
          (w.(socketMap := w.socketMap[fd := e.(inBytes := e.inBytes + chunk)]), false)
  }

  /** A listening socket's read event changes no buffer and no entry. */
  lemma ListenReadChangesNothing(w: World, fd: int, outcome: ReadOutcome)
    requires fd in w.socketMap && w.socketMap[fd].kind == ListenSocket
    ensures OnGenericRead(w, fd, outcome) == (w, false)
  {
  }

  /** Bytes read are appended at the end of the inbound buffer. */
  lemma ReadAppends(w: World, fd: int, chunk: Chunk)
    requires fd in w.socketMap && w.socketMap[fd].kind != ListenSocket && |chunk| > 0
    ensures var (r, raised) := OnGenericRead(w, fd, Received(chunk));
      !raised && r.trace == w.trace &&
      r.socketMap == w.socketMap[fd := w.socketMap[fd].(inBytes := w.socketMap[fd].inBytes + chunk)]
  {
  }

  /** End of stream, or a failed `recv` on a socket, closes the descriptor and fires its close handlers. */
  lemma ReadEndCloses(w: World, fd: int, outcome: ReadOutcome)
    requires fd in w.socketMap && fd != 0
    requires w.socketMap[fd].kind == ConnectedSocket || (w.socketMap[fd].kind == RawDescriptor && outcome.Received?)
    requires outcome.Received? ==> |outcome.chunk| == 0
    ensures OnGenericRead(w, fd, outcome) == (DoClose(w, fd, w.socketMap[fd]), false)
    ensures fd !in OnGenericRead(w, fd, outcome).0.socketMap
  {
  }

  /**
    `on_generic_write`. With nothing queued it clears the write bit. Otherwise
    one `send`: the accepted bytes leave the front of the queue; a failed send
    closes the descriptor (except descriptor 0). Writing to a raw descriptor
    is not implemented in the source (`assert(False)`) and raises.
   */
  function OnGenericWrite(w: World, fd: int, outcome: SendOutcome): (r: (World, bool))
    ensures Valid(w) ==> Valid(r.0)
    ensures Evolves(w, r.0) && AppendsOnly(w, r.0, {Close})
    ensures r.1 ==> r.0 == w
    ensures r.1 <==> fd in w.socketMap && w.socketMap[fd].kind == RawDescriptor && w.socketMap[fd].outBytes != []
  {
    if fd !in w.socketMap then (w, false)
    else
      var e := w.socketMap[fd];
      if |e.outBytes| == 0 then
        var e' := e.(eventMask := DisarmWrite(e.eventMask));
        (w.(socketMap := w.socketMap[fd := e'], polled := w.polled[fd := e'.eventMask]), false)
      else if e.kind == RawDescriptor then (w, true)
      else
        match outcome
        case Accepted(n) =>
          (w.(socketMap := w.socketMap[fd := e.(outBytes := e.outBytes[Min(n, |e.outBytes|)..])]), false)
        case SendFailed =>
          (if fd != 0 then DoClose(w, fd, e) else w, false)
  }

  /** With nothing queued, a write event only clears the write bit (in the entry and in the poller). */
  lemma IdleWriteClearsBit(w: World, fd: int, outcome: SendOutcome)
    requires Valid(w) && fd in w.socketMap && w.socketMap[fd].outBytes == []
    ensures var (r, raised) := OnGenericWrite(w, fd, outcome);
      !raised && r.trace == w.trace &&
      r.socketMap == w.socketMap[fd := w.socketMap[fd].(eventMask := DisarmWrite(w.socketMap[fd].eventMask))] &&
      r.socketMap[fd].eventMask & WRITE_FLAGS == 0 &&
      r.polled[fd] == r.socketMap[fd].eventMask
  {
  }

  /**
    A send that accepts `n` bytes removes exactly the first `n` queued bytes:
    the bytes sent followed by the bytes still queued are the bytes queued
    before, and the write bit stays set while bytes remain.
   */
  lemma PartialSendKeepsOrder(w: World, fd: int, n: nat)
    requires Valid(w) && fd in w.socketMap && w.socketMap[fd].outBytes != []
    requires w.socketMap[fd].kind != RawDescriptor
    ensures var (r, raised) := OnGenericWrite(w, fd, Accepted(n));
      var before := w.socketMap[fd].outBytes;
      !raised && fd in r.socketMap &&
      before[..Min(n, |before|)] + r.socketMap[fd].outBytes == before &&
      r.socketMap[fd].eventMask == w.socketMap[fd].eventMask &&
      (r.socketMap[fd].outBytes != [] ==> r.socketMap[fd].eventMask & WRITE_FLAGS != 0)
  {
    var before := w.socketMap[fd].outBytes;
    assert before[..Min(n, |before|)] + before[Min(n, |before|)..] == before;
  }

  /** A failed send on a socket other than descriptor 0 closes it with its current entry and fires its close handlers. */
  lemma SendFailCloses(w: World, fd: int)
    requires fd in w.socketMap && fd != 0
    requires w.socketMap[fd].kind != RawDescriptor && w.socketMap[fd].outBytes != []
    ensures OnGenericWrite(w, fd, SendFailed) == (DoClose(w, fd, w.socketMap[fd]), false)
    ensures var r := OnGenericWrite(w, fd, SendFailed).0;
      r.socketMap == w.socketMap - {fd} &&
      r.trace == w.trace + DispatchCalls(w.classCallbacks, Close, fd, w.socketMap[fd], w.socketMap[fd].classes)
  {
    CloseFiresHandlers(w, fd, w.socketMap[fd]);
  }

  /** The bytes a run of sends accepting `counts[0]`, `counts[1]`, ... take off the front of `out`, in order. */
  function SentBytes(out: seq<Byte>, counts: seq<nat>): seq<Byte>
  {
    if counts == [] then []
    else
      var k := Min(counts[0], |out|);
      out[..k] + SentBytes(out[k..], counts[1..])
  }

  /** Successive write events on `fd` whose sends accept `counts[0]`, `counts[1]`, ... bytes. */
  function Flushes(w: World, fd: int, counts: seq<nat>): World
    decreases |counts|
  {
    if counts == [] then w
    else Flushes(OnGenericWrite(w, fd, Accepted(counts[0])).0, fd, counts[1..])
  }

  /** One write event whose send accepts `n` bytes leaves the queue without its first `n` bytes. */
  lemma SendTakesFront(w: World, fd: int, n: nat)
    requires fd in w.socketMap && w.socketMap[fd].kind == ConnectedSocket
    ensures var r := OnGenericWrite(w, fd, Accepted(n)).0;
      fd in r.socketMap && r.socketMap[fd].kind == ConnectedSocket &&
      r.socketMap[fd].outBytes == w.socketMap[fd].outBytes[Min(n, |w.socketMap[fd].outBytes|)..]
  {
  }

  /**
    However the socket splits its sends, the bytes sent, followed by the bytes
    still queued, are the bytes that were queued: nothing is lost, repeated or
    reordered.
   */
  lemma {:induction false} FlushesKeepOrder(w: World, fd: int, counts: seq<nat>)
    requires fd in w.socketMap && w.socketMap[fd].kind == ConnectedSocket
    ensures var r := Flushes(w, fd, counts);
      fd in r.socketMap && r.socketMap[fd].kind == ConnectedSocket &&
      SentBytes(w.socketMap[fd].outBytes, counts) + r.socketMap[fd].outBytes == w.socketMap[fd].outBytes
    decreases |counts|
  {
    var out := w.socketMap[fd].outBytes;
    if counts == [] {
      assert [] + out == out;
    } else {
      var w1 := OnGenericWrite(w, fd, Accepted(counts[0])).0;
      SendTakesFront(w, fd, counts[0]);
      FlushesKeepOrder(w1, fd, counts[1..]);
      SentThenLeft(out, counts, Flushes(w1, fd, counts[1..]).socketMap[fd].outBytes);
    }
  }

  /** The step of `FlushesKeepOrder` on the queue alone: the first send's bytes join the later ones. */
  lemma SentThenLeft(out: seq<Byte>, counts: seq<nat>, left: seq<Byte>)
    requires counts != []
    requires SentBytes(out[Min(counts[0], |out|)..], counts[1..]) + left == out[Min(counts[0], |out|)..]
    ensures SentBytes(out, counts) + left == out
  {
    var k := Min(counts[0], |out|);
    var front, later := out[..k], SentBytes(out[k..], counts[1..]);
    assert SentBytes(out, counts) == front + later;
    Associative(front, later, left);
    assert front + out[k..] == out;
  }

  /** `on_generic_exception`: an error event closes the descriptor whatever it still buffers (except descriptor 0). */
  function OnGenericException(w: World, fd: int): (r: World)
    ensures Valid(w) ==> Valid(r)
    ensures Evolves(w, r) && AppendsOnly(w, r, {Close})
    ensures fd != 0 ==> fd !in r.socketMap
  {
    if fd in w.socketMap && fd != 0 then DoClose(w, fd, w.socketMap[fd]) else w
  }

  // ---------------------------------------------------------------------
  // One reactor iteration
  // ---------------------------------------------------------------------

  /**
    The contents of the `socket_details` object a handler receives: `run`
    fetches the entry once, before any handler, and the handlers see that
    same object, which keeps the last contents it had in the registry once the
    descriptor has been removed.
   */
  function Refresh(w: World, fd: int, details: Entry): Entry
  {
    if fd in w.socketMap then w.socketMap[fd] else details
  }

  /** The generic handler for one kind of poll event; the second component says whether it raised. */
  function GenericStep(w: World, fd: int, event: Event, io: IoOutcome): (r: (World, bool))
    requires event != Close
    ensures Valid(w) ==> Valid(r.0)
    ensures Evolves(w, r.0) && AppendsOnly(w, r.0, {Close})
    ensures r.1 ==> r.0 == w
  {
    match event
    case Read => OnGenericRead(w, fd, io.read)
    case Write => OnGenericWrite(w, fd, io.send)
    case Exception => (OnGenericException(w, fd), false)
  }

  /**
    One phase of handling an event: the generic handler, then (unless it
    raised) the handlers of every tag subscribed to the event. Returns the
    new state, whether it raised, and the handlers' view of the entry.
   */
  function Phase(w: World, fd: int, event: Event, io: IoOutcome, details: Entry): (r: (World, bool, Entry))
    requires event != Close
    ensures Valid(w) ==> Valid(r.0)
    ensures Evolves(w, r.0) && AppendsOnly(w, r.0, {event, Close})
  {
    var (w1, raised) := GenericStep(w, fd, event, io);
    if raised then (w1, true, details)
    else
      var d1 := Refresh(w1, fd, details);
      (DoClassCallbackForEvent(w1, event, fd, d1), false, d1)
  }

  /**
    The body of `run`'s loop for one `(fd, flag)`: the read phase if any of
    POLLIN, POLLPRI, POLLHUP is set, then the write phase for POLLOUT, then
    the exception phase for POLLERR. An unknown descriptor (the `KeyError` of
    the `socket_map` lookup) or a phase that raises ends the iteration: the
    second component is true.
   */
  function HandleEvent(w: World, ev: PollEvent, io: IoOutcome): (r: (World, bool))
    ensures Valid(w) ==> Valid(r.0)
    ensures Evolves(w, r.0)
  {
    if ev.fd !in w.socketMap then (w, true)
    else
      var fd := ev.fd;
      var d0 := w.socketMap[fd];
      var p1 := if ev.flags & READ_FLAGS != 0 then Phase(w, fd, Read, io, d0) else (w, false, d0);
      if p1.1 then (p1.0, true)
      else
        var p2 := if ev.flags & WRITE_FLAGS != 0 then Phase(p1.0, fd, Write, io, p1.2) else p1;
        if p2.1 then (p2.0, true)
        else
          var p3 := if ev.flags & EXCEPTION_FLAGS != 0 then Phase(p2.0, fd, Exception, io, p2.2) else p2;
          (p3.0, p3.1)
  }

  /**
    `run`: the events of one poll, in order. The first event that raises ends
    the iteration (the `try` around the loop catches it); the events after it
    are not handled.
   */
  function Run(w: World, events: seq<PollEvent>, io: seq<IoOutcome>): (r: World)
    requires |io| == |events|
    ensures Valid(w) ==> Valid(r)
    ensures Evolves(w, r)
    decreases |events|
  {
    if events == [] then w
    else
      var (w1, raised) := HandleEvent(w, events[0], io[0]);
      if raised then w1
      else
        var r := Run(w1, events[1..], io[1..]);
        EvolvesTransitive(w, w1, r);
        r
  }

  // ---------------------------------------------------------------------
  // Properties of one iteration
  // ---------------------------------------------------------------------

  /** The calls `r` recorded after those of `w`. */
  function NewCalls(w: World, r: World): seq<Call>
    requires w.trace <= r.trace
  {
    r.trace[|w.trace|..]
  }

  /** Position of an event kind in the fixed per-event order; close calls may come in any phase. */
  function Rank(e: Event): nat
  {
    match e
    case Read => 0
    case Write => 1
    case Exception => 2
    case Close => 0
  }

  /** Among the calls that are not close calls, no read follows a write and nothing follows an exception call but more of them. */
  predicate InEventOrder(calls: seq<Call>)
  {
    forall i, j :: 0 <= i < j < |calls| && calls[i].event != Close && calls[j].event != Close ==>
      Rank(calls[i].event) <= Rank(calls[j].event)
  }

  /** Three stretches of calls, each limited to one event kind besides close calls, are in event order together. */
  lemma {:induction false} PhasesInOrder(w: World, w1: World, w2: World, w3: World)
    requires AppendsOnly(w, w1, {Read, Close})
    requires AppendsOnly(w1, w2, {Write, Close})
    requires AppendsOnly(w2, w3, {Exception, Close})
    ensures w.trace <= w3.trace && InEventOrder(NewCalls(w, w3))
  {
  }

  /**
    Per-event order: handling one poll event records its read-side calls
    first, then its write-side calls, then its exception calls.
   */
  lemma EventOrder(w: World, ev: PollEvent, io: IoOutcome)
    ensures var r := HandleEvent(w, ev, io).0; w.trace <= r.trace && InEventOrder(NewCalls(w, r))
  {
    var r := HandleEvent(w, ev, io).0;
    if ev.fd !in w.socketMap {
      PhasesInOrder(w, w, w, w);
    } else {
      var fd := ev.fd;
      var d0 := w.socketMap[fd];
      var p1 := if ev.flags & READ_FLAGS != 0 then Phase(w, fd, Read, io, d0) else (w, false, d0);
      var p2 := if ev.flags & WRITE_FLAGS != 0 then Phase(p1.0, fd, Write, io, p1.2) else p1;
      var p3 := if ev.flags & EXCEPTION_FLAGS != 0 then Phase(p2.0, fd, Exception, io, p2.2) else p2;
      assert AppendsOnly(w, p1.0, {Read, Close});
      assert AppendsOnly(p1.0, p2.0, {Write, Close});
      assert AppendsOnly(p2.0, p3.0, {Exception, Close});
      if p1.1 {
        assert r == p1.0;
        PhasesInOrder(w, p1.0, p1.0, p1.0);
      } else if p2.1 {
        assert r == p2.0;
        PhasesInOrder(w, p1.0, p2.0, p2.0);
      } else {
        assert r == p3.0;
        PhasesInOrder(w, p1.0, p2.0, p3.0);
      }
    }
  }

  /** The close calls among `calls`, in order. */
  function CloseCalls(calls: seq<Call>): seq<Call>
  {
    if calls == [] then []
    else (if calls[0].event == Close then [calls[0]] else []) + CloseCalls(calls[1..])
  }

  lemma {:induction false} CloseCallsAppend(a: seq<Call>, b: seq<Call>)
    ensures CloseCalls(a + b) == CloseCalls(a) + CloseCalls(b)
  {
    if a != [] {
      assert (a + b)[1..] == a[1..] + b;
      CloseCallsAppend(a[1..], b);
    } else {
      assert a + b == b;
    }
  }

  lemma {:induction false} CloseCallsOfOneEvent(calls: seq<Call>, event: Event)
    requires forall k :: 0 <= k < |calls| ==> calls[k].event == event
    ensures CloseCalls(calls) == if event == Close then calls else []
  {
    if calls != [] {
      assert calls == [calls[0]] + calls[1..];
      CloseCallsOfOneEvent(calls[1..], event);
    }
  }

  /**
    Between `w` and `r` the close handlers of `fd` fired once each, in
    attachment order, if `fd` was removed, and not at all otherwise.
   */
  predicate ClosedOnce(w: World, r: World, fd: int)
  {
    w.trace <= r.trace &&
    TagsOf(CloseCalls(NewCalls(w, r))) ==
      if fd in w.socketMap && fd !in r.socketMap then Subscribed(w.classCallbacks, Close, w.socketMap[fd].classes) else []
  }

  lemma GenericStepCloses(w: World, fd: int, event: Event, io: IoOutcome)
    requires event != Close
    ensures var r := GenericStep(w, fd, event, io).0;
      if fd in w.socketMap && fd !in r.socketMap then
        r.trace == w.trace + DispatchCalls(w.classCallbacks, Close, fd, w.socketMap[fd], w.socketMap[fd].classes)
      else
        r.trace == w.trace
  {
  }

  /** A generic handler that records only the close dispatch of a removed descriptor, followed by handlers for another event. */
  lemma {:induction false} StepThenDispatchClosesOnce(w: World, w1: World, r: World, fd: int, event: Event, handlers: seq<Call>)
    requires event != Close
    requires forall k :: 0 <= k < |handlers| ==> handlers[k].event == event
    requires fd in w.socketMap && fd !in w1.socketMap ==>
      w1.trace == w.trace + DispatchCalls(w.classCallbacks, Close, fd, w.socketMap[fd], w.socketMap[fd].classes)
    requires !(fd in w.socketMap && fd !in w1.socketMap) ==> w1.trace == w.trace
    requires r.socketMap == w1.socketMap && r.trace == w1.trace + handlers
    ensures ClosedOnce(w, r, fd)
  {
    CloseCallsOfOneEvent(handlers, event);
    if fd in w.socketMap && fd !in w1.socketMap {
      var e := w.socketMap[fd];
      var closes := DispatchCalls(w.classCallbacks, Close, fd, e, e.classes);
      assert NewCalls(w, r) == closes + handlers;
      CloseCallsOfOneEvent(closes, Close);
      CloseCallsAppend(closes, handlers);
      DispatchOrder(w.classCallbacks, Close, fd, e, e.classes);
    } else {
      assert NewCalls(w, r) == handlers;
    }
  }

  /** One phase, when its flag is set, fires the close handlers once exactly when it removes the descriptor. */
  lemma PhaseClosesOnce(w: World, fd: int, event: Event, io: IoOutcome, details: Entry, flagged: bool)
    requires event != Close
    ensures ClosedOnce(w, (if flagged then Phase(w, fd, event, io, details) else (w, false, details)).0, fd)
  {
    if flagged {
      var (w1, raised) := GenericStep(w, fd, event, io);
      GenericStepCloses(w, fd, event, io);
      if raised {
        StepThenDispatchClosesOnce(w, w1, w1, fd, event, []);
      } else {
        var d1 := Refresh(w1, fd, details);
        StepThenDispatchClosesOnce(w, w1, DoClassCallbackForEvent(w1, event, fd, d1), fd, event,
          DispatchCalls(w.classCallbacks, event, fd, d1, d1.classes));
      }
    } else {
      assert NewCalls(w, w) == [];
    }
  }

  lemma NewCallsSplit(w: World, w1: World, w2: World)
    requires w.trace <= w1.trace <= w2.trace
    ensures NewCalls(w, w2) == NewCalls(w, w1) + NewCalls(w1, w2)
  {
  }

  lemma TagsOfAppend(a: seq<Call>, b: seq<Call>)
    ensures TagsOf(a + b) == TagsOf(a) + TagsOf(b)
  {
  }

  lemma {:induction false} ClosedOnceCompose(w: World, w1: World, w2: World, fd: int)
    requires Evolves(w, w1) && Evolves(w1, w2)
    requires ClosedOnce(w, w1, fd) && ClosedOnce(w1, w2, fd)
    ensures ClosedOnce(w, w2, fd)
  {
    var first, second := NewCalls(w, w1), NewCalls(w1, w2);
    NewCallsSplit(w, w1, w2);
    CloseCallsAppend(first, second);
    TagsOfAppend(CloseCalls(first), CloseCalls(second));
    if fd in w.socketMap && fd !in w1.socketMap {
      assert TagsOf(CloseCalls(second)) == [];
    } else if fd in w1.socketMap && fd !in w2.socketMap {
      assert TagsOf(CloseCalls(first)) == [];
      assert w1.socketMap[fd].classes == w.socketMap[fd].classes;
    } else {
      assert TagsOf(CloseCalls(first)) == [] && TagsOf(CloseCalls(second)) == [];
    }
  }

  /**
    Close handlers fire at most once per poll event: handling an event
    records the close dispatch of its descriptor, each subscribed tag once and
    in attachment order, exactly when the event removed the descriptor.
   */
  lemma CloseFiresOncePerEvent(w: World, ev: PollEvent, io: IoOutcome)
    ensures ClosedOnce(w, HandleEvent(w, ev, io).0, ev.fd)
  {
    var r := HandleEvent(w, ev, io).0;
    var fd := ev.fd;
    if fd !in w.socketMap {
      assert NewCalls(w, r) == [];
    } else {
      var d0 := w.socketMap[fd];
      var p1 := if ev.flags & READ_FLAGS != 0 then Phase(w, fd, Read, io, d0) else (w, false, d0);
      var p2 := if ev.flags & WRITE_FLAGS != 0 then Phase(p1.0, fd, Write, io, p1.2) else p1;
      var p3 := if ev.flags & EXCEPTION_FLAGS != 0 then Phase(p2.0, fd, Exception, io, p2.2) else p2;
      PhaseClosesOnce(w, fd, Read, io, d0, ev.flags & READ_FLAGS != 0);
      if p1.1 {
        assert r == p1.0;
      } else {
        PhaseClosesOnce(p1.0, fd, Write, io, p1.2, ev.flags & WRITE_FLAGS != 0);
        ClosedOnceCompose(w, p1.0, p2.0, fd);
        if p2.1 {
          assert r == p2.0;
        } else {
          PhaseClosesOnce(p2.0, fd, Exception, io, p2.2, ev.flags & EXCEPTION_FLAGS != 0);
          ClosedOnceCompose(w, p2.0, p3.0, fd);
          assert r == p3.0;
        }
      }
    }
  }

  /**
    End of stream on a connected socket (or raw descriptor) closes it during
    the read phase, and the read handlers still run afterwards, with the entry
    as it was: `run` took `socket_details` before any handler ran.
   */
  lemma ReadHandlersRunAfterEndOfStream(w: World, fd: int, flags: Mask, io: IoOutcome)
    requires fd in w.socketMap && fd != 0
    requires w.socketMap[fd].kind == ConnectedSocket || (w.socketMap[fd].kind == RawDescriptor && io.read.Received?)
    requires io.read.Received? ==> |io.read.chunk| == 0
    requires flags & READ_FLAGS != 0 && flags & WRITE_FLAGS == 0 && flags & EXCEPTION_FLAGS == 0
    ensures var e, callbacks := w.socketMap[fd], w.classCallbacks;
      var (r, raised) := HandleEvent(w, PollEvent(fd, flags), io);
      !raised &&
      r.socketMap == w.socketMap - {fd} &&
      r.trace == w.trace + DispatchCalls(callbacks, Close, fd, e, e.classes) + DispatchCalls(callbacks, Read, fd, e, e.classes)
  {
    ReadEndCloses(w, fd, io.read);
  }

  /** Read handlers run after the bytes just read have been appended, and see them. */
  lemma ReadHandlersSeeNewBytes(w: World, fd: int, flags: Mask, io: IoOutcome)
    requires fd in w.socketMap && w.socketMap[fd].kind != ListenSocket
    requires io.read.Received? && |io.read.chunk| > 0
    requires flags & READ_FLAGS != 0 && flags & WRITE_FLAGS == 0 && flags & EXCEPTION_FLAGS == 0
    ensures var e := w.socketMap[fd];
      var e' := e.(inBytes := e.inBytes + io.read.chunk);
      var (r, raised) := HandleEvent(w, PollEvent(fd, flags), io);
      !raised &&
      r.socketMap == w.socketMap[fd := e'] &&
      r.trace == w.trace + DispatchCalls(w.classCallbacks, Read, fd, e', e'.classes)
  {
    ReadAppends(w, fd, io.read.chunk);
  }

  /** A poll event for a descriptor that is not registered ends the iteration with nothing done. */
  lemma UnknownEventEndsIteration(w: World, events: seq<PollEvent>, io: seq<IoOutcome>)
    requires |io| == |events| && events != [] && events[0].fd !in w.socketMap
    ensures Run(w, events, io) == w
  {
  }
}
