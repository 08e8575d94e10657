# SloMo connection manager, modelled in Dafny

This project models the poll-based connection manager of the SloMo
capture tool (`SloMoConnectionManager.py`). Its client and server exchange
framed messages through it. It has three parts:

- **The frame codec** (module `Codec`, `codec.dfy`). A frame is an 8-byte
  prefix holding two unsigned 32-bit lengths (header, binary), then the
  header bytes, then the binary bytes. `Pack` writes a frame (`pack_to_binary`).
  `TryDecode` takes one frame off the front of a buffer, or reports that the
  frame is not all there (`try_remove_message`). `Drain` is what a caller
  gets by calling it until nothing is left.
- **The registry and its handlers** (module `Reactor`, `reactor.dfy`). The
  whole manager is a value `World`:
  - `socket_map`, one `Entry` per descriptor: its kind, interest mask,
    inbound and outbound bytes, and its ordered class tags;
  - the poller's registrations (`polled`);
  - `class_callbacks`;
  - `trace`, the list of handler invocations made so far.

  Every operation is a function from the old `World` to the new one, and
  the properties are lemmas about those functions. This includes the
  registrations, the buffer operations, the generic read/write/exception
  handlers, `do_close`, tag dispatch, and one `run` iteration over the
  events a poll returned.
- **The object** (module `Manager`, `manager.dfy`). Class
  `ConnectionManager` holds the same state in fields, and its methods
  update them in place. Dispatch is a loop over the tags, `run` is a loop
  over the events, and the callers' drain loop is a loop over
  `try_remove_message`. Each method is proved to produce exactly the state
  the matching `Reactor` function computes, so the `Reactor` lemmas hold of
  the object.

Modelling choices:

- **Byte order.** The length prefix is written with `struct.pack("II")`, in
  the machine's native byte order. The model fixes little-endian, the native
  order of x86 and of ARM as usually configured.
- **The header** is opaque bytes. The JSON encoding around it is not
  modelled.
- **Operating-system answers are inputs:**
  - a `recv`/`os.read` is a `ReadOutcome`: at most 1 MiB of bytes, or a
    failure;
  - a `send` is a `SendOutcome`: a count of accepted bytes, or a failure;
  - `poller.poll` is the list of `PollEvent`s given to `Run`.
- **Handlers** are not executed. Each invocation is recorded as a `Call`:
  the event, the tag, the descriptor, the handler, and the contents of the
  `socket_details` entry the handler receives.

Behaviour of the code that is easy to miss, and that the model keeps:

- **Failed `os.read` on a raw descriptor.** `on_generic_read` does not catch
  it. It reaches the `try` in `run`, and the rest of that poll's events are
  dropped. Only a failed `recv` on a socket is handled like end of stream.
- **Unknown descriptor in `run`.** An event for a descriptor that is no
  longer registered raises `KeyError` at line 236. This also ends the
  iteration. The buffer operations and generic handlers, by contrast, ignore
  an unknown descriptor.
- **Raw-descriptor writes.** A write event on a raw descriptor with bytes
  queued hits `assert(False)` and raises the same way.
- **Descriptor 0** is never closed. The `if fd:` guards on lines 172, 192
  and 215 skip it, so error events and end of stream leave it registered.
- **Order of close.** `do_close` deletes the entry first and then runs the
  close dispatch. The handlers still see the entry's last contents, because
  they get the same dictionary object.
- **One send per write event.** A write event performs a single `send`, not
  a full drain. The remainder stays queued with write interest set.
- **`register_socket` arms write interest** even though it queues nothing.
  The first write event on the new socket clears the bit.

## Model

| member | source | states |
|---|---|---|
| Codec.LittleEndianRoundTrip | SloMoConnectionManager.py:20-22 | A length below 256^width, written as `width` little-endian bytes, reads back as the same number. |
| Codec.FromLittleEndianRoundTrip | SloMoConnectionManager.py:144 | Any `width` bytes are the little-endian encoding of the number they are read as. |
| Codec.FromLittleEndianBound | SloMoConnectionManager.py:144 | Four bytes read as a length give a value below 2^32. |
| Codec.Pack | SloMoConnectionManager.py:20-22 | A frame is 8 bytes longer than header and binary together; only messages whose two lengths fit in 32 bits can be packed. |
| Codec.PackLayout | SloMoConnectionManager.py:20-22 | Bytes 0..4 of a frame encode the header length, bytes 4..8 the binary length, then the header verbatim, then the binary verbatim. |
| Codec.PackAllAppend | SloMoConnectionManager.py:20-22 | The frames of two message lists, concatenated, are the frames of the joined list. |
| Codec.TryDecode | SloMoConnectionManager.py:139-153 | Returns no message exactly when the buffer lacks the 8-byte prefix or the body the prefix announces; a taken frame leaves at most `len - 8` bytes. |
| Codec.PackRoundTrip | SloMoConnectionManager.py:139-150 | Decoding a packed message followed by any bytes gives back that message and exactly those bytes. |
| Codec.DecodeTakesOneFrame | SloMoConnectionManager.py:144-150 | Conversely, whatever a decode takes off a buffer is exactly one packable message's frame, and the buffer is that frame followed by what is left. |
| Codec.DecodeIgnoresLaterBytes | SloMoConnectionManager.py:139-153 | Bytes arriving after a whole frame do not change the decoded message; they only extend what is left. |
| Codec.Drain | slomo_client.py:73-77 | After draining, the bytes left do not hold a whole frame. |
| Codec.DrainStep | slomo_client.py:73-77 | When a frame decodes, draining yields that message and then what draining the rest yields. |
| Codec.DrainIncomplete | slomo_client.py:73-77 | A buffer without a whole frame drains to no messages and stays as it is. |
| Codec.DrainLosesNothing | slomo_client.py:73-77 | Every drained message is packable, and their frames followed by the leftover are exactly the buffer. |
| Codec.DrainPacked | slomo_client.py:73-77 | Packed messages followed by bytes without a whole frame drain to exactly those messages, in order, and those bytes. |
| Codec.DrainTwoFrames | SloMoConnectionManager.py:139-150 | Two packed frames back to back come out as the first message, then the second, then nothing, with no byte left. |
| Codec.DrainInPieces | slomo_server.py:139-143 | Wherever a stream is split into two deliveries, draining after the first and again after the second yields the same messages, in order, and the same leftover as draining the whole stream at once. |
| Reactor.Sfno | SloMoConnectionManager.py:44-53 | A socket's descriptor is returned exactly when `fileno()` succeeds with a non-negative number; otherwise `None`. |
| Reactor.ArmWrite | SloMoConnectionManager.py:134 | Setting write interest sets the POLLOUT bit and keeps every other bit. |
| Reactor.DisarmWrite | SloMoConnectionManager.py:183 | Clearing write interest clears the POLLOUT bit and keeps every other bit. |
| Reactor.InitialValid | SloMoConnectionManager.py:28-42 | The empty manager satisfies the registry invariant: the poller watches exactly the registered descriptors with their masks, and no entry has bytes queued without write interest. |
| Reactor.RegisterFileDescriptor | SloMoConnectionManager.py:67-81 | Keeps the invariant; raises exactly for a negative descriptor, changing nothing; otherwise registers it without write interest. |
| Reactor.RegisterListenSocket | SloMoConnectionManager.py:83-100 | Keeps the invariant and registers the new socket's descriptor without write interest. |
| Reactor.RegisterSocket | SloMoConnectionManager.py:102-116 | Keeps the invariant; raises exactly when `sfno` gives `None`, changing nothing; otherwise registers the descriptor with write interest. |
| Reactor.RegistrationStartsEmpty | SloMoConnectionManager.py:67-116 | Each registration stores an entry of the right kind with empty buffers, its mask, address, port and tags, adds that one key, and leaves every other entry as it was. |
| Reactor.RegisterClassCallback | SloMoConnectionManager.py:118-119 | The (event, tag) pair maps to the new handler, replacing any earlier one; every other pair and all other state is unchanged. |
| Reactor.DispatchCalls | SloMoConnectionManager.py:121-128 | At most one call per entry of the tag list; every call is for the event, the descriptor and the entry given, with the handler registered for its (event, tag). |
| Reactor.DispatchOrder | SloMoConnectionManager.py:121-128 | The tags called are exactly the tags with a handler for the event, in the entry's tag order. |
| Reactor.SubscribedCount | SloMoConnectionManager.py:121-128 | A tag is called as many times as it occurs in the entry's tags if it has a handler for the event, and never otherwise. |
| Reactor.TagFanOut | SloMoConnectionManager.py:121-128 | Two tags that both have a handler are each called once, in attachment order. |
| Reactor.DoClassCallbackForEvent | SloMoConnectionManager.py:121-128 | Dispatch only appends to the trace. The tags of the appended calls are exactly the tags with a handler for the event, in the entry's order, each call carrying the event, the descriptor, the entry and the registered handler. Registry, poller and callback table are unchanged. |
| Reactor.AddToWriteBuffer | SloMoConnectionManager.py:130-137 | Keeps the invariant; no descriptor is added, no handler is called, and kinds and tags are kept. |
| Reactor.AddToWriteBufferAppends | SloMoConnectionManager.py:130-135 | On a known descriptor the bytes go after those already queued and write interest is set; no other entry changes. |
| Reactor.TryRemoveMessage | SloMoConnectionManager.py:139-156 | A returned message is packable, and the old inbound bytes are its frame followed by the new ones. No message is returned exactly when the descriptor is unknown or holds no whole frame, and then nothing changes. |
| Reactor.TryRemoveMessageRoundTrip | SloMoConnectionManager.py:139-150 | A packed frame at the front of the inbound bytes comes out whole, and only the bytes after it stay. |
| Reactor.RemoveFromReadBuffer | SloMoConnectionManager.py:158-166 | Keeps the invariant, calls no handler, and keeps every kind and tag. |
| Reactor.RemoveFromReadBufferDrains | SloMoConnectionManager.py:158-163 | On a known descriptor the whole former inbound buffer is returned, and the buffer is left empty. |
| Reactor.UnknownDescriptorIsIgnored | SloMoConnectionManager.py:130-228 | On an unregistered descriptor every buffer operation, close and generic handler leaves the state unchanged and raises nothing. |
| Reactor.DoClose | SloMoConnectionManager.py:224-228 | Keeps the invariant; afterwards the descriptor is not registered, and only close calls were added to the trace. |
| Reactor.CloseIsIdempotent | SloMoConnectionManager.py:224-228 | Closing twice is closing once, so the close handlers never fire a second time. |
| Reactor.CloseFiresHandlers | SloMoConnectionManager.py:224-228 | Closing a registered descriptor removes it and appends its close dispatch with the entry it was given. |
| Reactor.OnGenericRead | SloMoConnectionManager.py:201-222 | Keeps the invariant and adds only close calls. It raises exactly when a raw descriptor's `os.read` fails (line 212), and then it changed nothing. |
| Reactor.ListenReadChangesNothing | SloMoConnectionManager.py:204 | A read event on a listening socket changes nothing. |
| Reactor.ReadAppends | SloMoConnectionManager.py:219-220 | Bytes read are appended at the end of the inbound buffer, and nothing else changes. |
| Reactor.ReadEndCloses | SloMoConnectionManager.py:205-218 | On a descriptor other than 0, end of stream (or a failed `recv` on a socket) closes it with its current entry and fires the close dispatch. |
| Reactor.OnGenericWrite | SloMoConnectionManager.py:179-199 | Keeps the invariant and adds only close calls. It raises exactly on a raw descriptor with bytes queued (`assert(False)`, line 197), and then it changed nothing. |
| Reactor.IdleWriteClearsBit | SloMoConnectionManager.py:182-184 | With nothing queued, a write event only clears the write bit, in the entry and in the poller. |
| Reactor.PartialSendKeepsOrder | SloMoConnectionManager.py:186-189 | A send accepting `n` bytes removes exactly the first `n` queued bytes, keeps the mask, and the bytes still queued keep write interest. |
| Reactor.SendTakesFront | SloMoConnectionManager.py:186-189 | On a connected socket a send accepting `n` bytes leaves the queue without its first `n` bytes (all of them when fewer are queued), and the socket stays registered. |
| Reactor.SendFailCloses | SloMoConnectionManager.py:190-195 | On a socket other than descriptor 0 with bytes queued, a failed `send` closes it with its current entry: it is removed and its close dispatch is appended. |
| Reactor.FlushesKeepOrder | SloMoConnectionManager.py:186-189 | Over any sequence of partial sends, the bytes sent followed by the bytes still queued are the bytes originally queued. |
| Reactor.OnGenericException | SloMoConnectionManager.py:168-177 | Keeps the invariant and adds only close calls; any descriptor other than 0 is no longer registered afterwards. |
| Reactor.GenericStep | SloMoConnectionManager.py:237-250 | The generic handler of a read, write or exception event keeps the invariant and adds only close calls; when it raises it changed nothing. |
| Reactor.Phase | SloMoConnectionManager.py:237-251 | One phase keeps the invariant and adds only calls for its own event or for close. |
| Reactor.HandleEvent | SloMoConnectionManager.py:235-251 | Handling one event keeps the invariant, adds no descriptor, and only appends to the trace. |
| Reactor.Run | SloMoConnectionManager.py:230-256 | One iteration keeps the invariant, adds no descriptor, leaves the callback table alone, and only appends to the trace. |
| Reactor.EventOrder | SloMoConnectionManager.py:237-251 | Within one event, no read call follows a write or exception call, and no write call follows an exception call. |
| Reactor.CloseFiresOncePerEvent | SloMoConnectionManager.py:235-251 | Handling one event fires the close dispatch of its descriptor exactly when the event removed it: each subscribed tag once, in attachment order. |
| Reactor.ReadHandlersRunAfterEndOfStream | SloMoConnectionManager.py:236-241 | After an end of stream closes a descriptor, its read handlers still run, after the close handlers and with the same entry. |
| Reactor.ReadHandlersSeeNewBytes | SloMoConnectionManager.py:236-241 | The read handlers run after the bytes just read are appended, and receive the entry holding them. |
| Reactor.UnknownEventEndsIteration | SloMoConnectionManager.py:233-236 | An event for an unregistered descriptor ends the iteration with nothing changed. |
| Manager.ConnectionManager.constructor | SloMoConnectionManager.py:28-42 | Starts with nothing registered and no callbacks, satisfying the invariant. |
| Manager.ConnectionManager.RegisterFileDescriptor | SloMoConnectionManager.py:67-81 | The new state and the raise are those of `Reactor.RegisterFileDescriptor`; the invariant is kept. |
| Manager.ConnectionManager.RegisterListenSocket | SloMoConnectionManager.py:83-100 | The new state is that of `Reactor.RegisterListenSocket`; the invariant is kept. |
| Manager.ConnectionManager.RegisterSocket | SloMoConnectionManager.py:102-116 | The new state and the raise are those of `Reactor.RegisterSocket`; the invariant is kept. |
| Manager.ConnectionManager.RegisterClassCallback | SloMoConnectionManager.py:118-119 | The new state is that of `Reactor.RegisterClassCallback`. |
| Manager.ConnectionManager.DoClassCallbackForEvent | SloMoConnectionManager.py:121-128 | The loop over the tags appends exactly `DispatchCalls` for the entry's tags, whose order and count the lemmas above give. |
| Manager.ConnectionManager.AddToWriteBuffer | SloMoConnectionManager.py:130-137 | The new state is that of `Reactor.AddToWriteBuffer`. |
| Manager.ConnectionManager.TryRemoveMessage | SloMoConnectionManager.py:139-156 | The message and the new state are those of `Reactor.TryRemoveMessage`. |
| Manager.ConnectionManager.TakeAllMessages | slomo_client.py:73-77 | Calling `try_remove_message` until it finds no frame yields exactly the messages of `Drain` of the old inbound bytes, and leaves its leftover; nothing else changes. |
| Manager.ConnectionManager.RemoveFromReadBuffer | SloMoConnectionManager.py:158-166 | The bytes returned and the new state are those of `Reactor.RemoveFromReadBuffer`. |
| Manager.ConnectionManager.DoClose | SloMoConnectionManager.py:224-228 | The new state is that of `Reactor.DoClose`. |
| Manager.ConnectionManager.OnGenericRead | SloMoConnectionManager.py:201-222 | The new state and the raise are those of `Reactor.OnGenericRead`. |
| Manager.ConnectionManager.OnGenericWrite | SloMoConnectionManager.py:179-199 | The new state and the raise are those of `Reactor.OnGenericWrite`. |
| Manager.ConnectionManager.OnGenericException | SloMoConnectionManager.py:168-177 | The new state is that of `Reactor.OnGenericException`. |
| Manager.ConnectionManager.Phase | SloMoConnectionManager.py:237-251 | The generic handler, then the dispatch with the entry as it now stands, as `Reactor.Phase`. |
| Manager.ConnectionManager.HandleEvent | SloMoConnectionManager.py:235-251 | The new state and the raise are those of `Reactor.HandleEvent`. |
| Manager.ConnectionManager.Run | SloMoConnectionManager.py:230-256 | The loop over the polled events leaves the state `Reactor.Run` computes, stopping at the first event that raises. |

## Left out

- `poller.poll`, `register`, `modify` and `unregister` are not modelled as calls. The poller is the map `polled`, and a poll's result is the list of events given to `Run`.
- `send`, `recv`, `os.read` and `close` on sockets are not modelled as calls. Their results are the `ReadOutcome` and `SendOutcome` inputs, and closing the socket object is not modelled.
- `socket.socket`, `bind` and `listen` in `register_listen_socket` are left out (operating-system calls). `Reactor.RegisterListenSocket` takes the descriptor the new socket received. A failing `bind` or `listen`, which raises after the entry is stored, is not modelled.
- Reactor.RegisterFileDescriptor, Reactor.RegisterSocket: a descriptor beyond the range of a C `int`, which `poller.register` refuses with `OverflowError`, is not modelled. Only a negative or missing descriptor raises.
- The `socket` field of an entry, the `debug` flag and every `print` are left out (an object handle and logging).
- JSON is left out: `json.dumps` in `pack_to_binary` and `json.loads` in `get_message_object` are foreign library calls. The header is modelled as raw bytes.
- The native byte order of `struct "II"` is platform dependent. The model fixes little-endian.
- `cleanup` and the SIGINT handling are left out (process teardown and signal handling).
- Handlers are recorded, not run. What a handler does to the manager when it runs is not modelled: a `Call`'s `details` is the entry's contents at dispatch time.
- The catch-all `except` in `run` is modelled as ending the iteration. The exception's message and the printed traceback are not modelled.
- Accepting a connection is done by the server's read handler on the listening socket (`slomo_server.py`, lines 33-34), not by the manager. It is not modelled: the model only shows that a listening socket's read event leaves the registry alone and runs its read handlers.
- No end-to-end client/server exchange is modelled, because that would need the handlers to run. The codec lemmas cover its byte-level part: a frame queued on one side and read on the other decodes to the same message.
- `slomo_client.py` and `slomo_server.py` are not modelled, except for their drain loop (`TakeAllMessages`). Their other behaviour is network, file and subprocess glue.
