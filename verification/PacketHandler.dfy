/** Server/ClientPacketHandler.h and its mirror image DummyClient/ServerPacketHandler.h: a message goes
    out behind a four-byte header and comes in again through a table of handlers by packet id. */
module PacketHandler {
  import opened Wire
  import opened Messages
  import opened Framing
  import Codec
  import Serializer
  import SB = SendBuffers

  const PKT_S_LOGIN := 1001
  const PKT_S_ENTER_GAME := 1003
  const PKT_S_CHAT := 1008
  const UINT16 := 0x1_0000
  const TABLE_SIZE := 0xFFFF       // GPacketHandler[UINT16_MAX]
  const MAX_PAYLOAD := SB.SEND_BUFFER_CHUNK_SIZE - HEADER_SIZE

  datatype Message = Login(login: SLogin) | EnterGame(enter: SEnterGame) | Chat(chat: SChat)

  function PacketId(m: Message): nat {
    match m
    case Login(_) => PKT_S_LOGIN
    case EnterGame(_) => PKT_S_ENTER_GAME
    case Chat(_) => PKT_S_CHAT
  }

  function Payload(m: Message): seq<byte> {
    match m
    case Login(x) => LoginBytes(x)
    case EnterGame(x) => EnterBytes(x)
    case Chat(x) => ChatBytes(x)
  }

  function MessageFields(m: Message): seq<Field> {
    match m
    case Login(x) => LoginFields(x)
    case EnterGame(x) => EnterFields(x)
    case Chat(x) => ChatFields(x)
  }

  predicate MessageOk(m: Message) {
    match m
    case Login(x) => LoginOk(x)
    case EnterGame(x) => EnterOk(x)
    case Chat(x) => ChatOk(x)
  }

  predicate MessageText(m: Message) {
    match m
    case Login(x) => LoginText(x)
    case EnterGame(x) => EnterText(x)
    case Chat(x) => ChatText(x)
  }

  // ----- frames -----

  function Header(size: nat, id: nat): (h: seq<byte>)
    requires size < UINT16 && id < UINT16
    ensures |h| == HEADER_SIZE && SizeField(h) == size && SizeField(h[2..]) == id
  {
    [size % 256, size / 256, id % 256, id / 256]
  }

  function Frame(m: Message): (f: seq<byte>)
    requires |Payload(m)| + HEADER_SIZE < UINT16
    ensures |f| == |Payload(m)| + HEADER_SIZE == SizeField(f) && SizeField(f[2..]) == PacketId(m)
    ensures f[HEADER_SIZE..] == Payload(m)
  {
    Header(|Payload(m)| + HEADER_SIZE, PacketId(m)) + Payload(m)
  }

  // ----- taking a packet apart -----

  datatype Handler = Invalid | OnLogin | OnEnterGame | OnLeaveGame | OnRoomUpdate | OnChat

  /** The fate of a packet: a handler gets the message, the packet is refused, it holds a field or a
      message this model does not cover, its id lies outside the table, or it is shorter than a header
      and a parser is called with a length below zero. */
  datatype Fate = Handled(message: Message) | Refused | Uncovered | OutsideTable | NegativeLength

  function HandlerOf(id: nat): Handler {
    if id == PKT_S_LOGIN then OnLogin
    else if id == PKT_S_ENTER_GAME then OnEnterGame
    else if id == 1005 then OnLeaveGame
    else if id == 1006 then OnRoomUpdate
    else if id == PKT_S_CHAT then OnChat
    else Invalid
  }

  function Parsed<M>(r: Read<M>, wrap: M -> Message): Fate {
    match r
    case Got(m) => Handled(wrap(m))
    case Malformed => Refused
    case Unusual => Uncovered
  }

  /** What becomes of a packet of at least a header's size. */
  function Unframe(packet: seq<byte>): Fate
    requires |packet| >= HEADER_SIZE
  {
    Dispatch(SizeField(packet[2..]), packet[HEADER_SIZE..])
  }

  /** What becomes of the packet of `len` bytes at the front of the unread ones, of which OnRecv has made
      sure that there are four. The id of a shorter packet is read behind it. */
  function UnframeAt(unread: seq<byte>, len: nat): Fate
    requires HEADER_SIZE <= |unread| && len <= |unread|
  {
    var id := SizeField(unread[2..]);
    if len >= HEADER_SIZE then Unframe(unread[..len])
    else if id >= TABLE_SIZE then OutsideTable
    else if HandlerOf(id) == Invalid then Refused
    else NegativeLength
  }

  function Dispatch(id: nat, payload: seq<byte>): Fate {
    if id >= TABLE_SIZE then OutsideTable
    else
      match HandlerOf(id)
      case Invalid => Refused
      case OnLogin => Parsed(ParseLogin(NO_LOGIN, payload), m => Login(m))
      case OnEnterGame => Parsed(ParseEnter(NO_ENTER, payload), m => EnterGame(m))
      case OnChat => Parsed(ParseChat(NO_CHAT, payload), m => Chat(m))
      case _ => Uncovered
  }

  /** Only the handler of a message's own id gets it, and what it gets is what the payload parses to; an id
      without a handler is refused whatever comes with it. */
  lemma DispatchIsById(id: nat, payload: seq<byte>)
    ensures var fate := Dispatch(id, payload);
            && (fate.Handled? ==> id == PacketId(fate.message))
            && (fate.Handled? && fate.message.Login? ==> ParseLogin(NO_LOGIN, payload) == Got(fate.message.login))
            && (fate.Handled? && fate.message.EnterGame? ==> ParseEnter(NO_ENTER, payload) == Got(fate.message.enter))
            && (fate.Handled? && fate.message.Chat? ==> ParseChat(NO_CHAT, payload) == Got(fate.message.chat))
            && (id < TABLE_SIZE && id !in {PKT_S_LOGIN, PKT_S_ENTER_GAME, 1005, 1006, PKT_S_CHAT} ==> fate == Refused)
            && (fate == OutsideTable <==> id >= TABLE_SIZE)
  {
  }

  /** What is no serialization of a message, because it is cut inside a field, is never handled. */
  lemma CutMessageIsRefused(m: Message, n: nat)
    requires MessageOk(m) && CutsField(MessageFields(m), n)
    ensures Dispatch(PacketId(m), Payload(m)[..n]) == Refused
  {
    match m
    case Login(x) => CutLoginIsRefused(NO_LOGIN, x, n);
    case EnterGame(x) => CutEnterIsRefused(NO_ENTER, x, n);
    case Chat(x) => CutChatIsRefused(NO_CHAT, x, n);
  }

  /** Every entry is set, the five packets of the server to their handlers. */
  method Init() returns (table: array<Handler>)
    ensures fresh(table) && table.Length == TABLE_SIZE
    ensures forall i :: 0 <= i < TABLE_SIZE ==> table[i] == HandlerOf(i)
  {
    table := new Handler[TABLE_SIZE];
    var i := 0;
    while i < TABLE_SIZE
      invariant 0 <= i <= TABLE_SIZE && forall k :: 0 <= k < i ==> table[k] == Invalid
    {
      table[i] := Invalid;
      i := i + 1;
    }
    table[PKT_S_LOGIN] := OnLogin;
    table[PKT_S_ENTER_GAME] := OnEnterGame;
    table[1005] := OnLeaveGame;
    table[1006] := OnRoomUpdate;
    table[PKT_S_CHAT] := OnChat;
  }

  method HandlePacket(table: array<Handler>, unread: seq<byte>, len: nat) returns (fate: Fate)
    requires table.Length == TABLE_SIZE && forall i :: 0 <= i < TABLE_SIZE ==> table[i] == HandlerOf(i)
    requires HEADER_SIZE <= |unread| && len <= |unread|
    ensures fate == UnframeAt(unread, len)
    ensures fate == OutsideTable <==> SizeField(unread[2..]) == TABLE_SIZE
    ensures fate == NegativeLength <==> len < HEADER_SIZE && HandlerOf(SizeField(unread[2..])) != Invalid
  {
    var id := SizeField(unread[2..]);
    if id >= table.Length {
      return OutsideTable;
    }
    var handler := table[id];
    if handler == Invalid {
      return Refused;
    }
    if len < HEADER_SIZE {
      return NegativeLength;
    }
    assert unread[..len][2..] == unread[2..len] && unread[..len][HEADER_SIZE..] == unread[HEADER_SIZE..len];
    fate := Handle(handler, unread[HEADER_SIZE..len], id);
  }

  /** The handler's own HandlePacket: parse, and call the function. */
  method Handle(handler: Handler, payload: seq<byte>, ghost id: nat) returns (fate: Fate)
    requires id < TABLE_SIZE && handler == HandlerOf(id) != Invalid
    ensures fate == Dispatch(id, payload)
  {
    match handler {
      case OnLogin => { var r := Codec.ParseLoginLoop(NO_LOGIN, payload, |payload|); fate := Parsed(r, m => Login(m)); }
      case OnEnterGame => {
        var r := Codec.ParseEnterLoop(NO_ENTER, payload, |payload|);
        fate := Parsed(r, m => EnterGame(m));
      }
      case OnChat => { var r := Codec.ParseChatLoop(NO_CHAT, payload, |payload|); fate := Parsed(r, m => Chat(m)); }
      case _ => fate := Uncovered;
    }
  }

  /** Packets shorter than a header do arrive: four bytes that say 3, and login's id behind them. */
  lemma ShortPacketsArrive()
    ensures var s: seq<byte> := [3, 0, PKT_S_LOGIN % 256, PKT_S_LOGIN / 256];
            Split(s).packets == [s[..3]] && UnframeAt(s, 3) == NegativeLength
  {
    var s: seq<byte> := [3, 0, PKT_S_LOGIN % 256, PKT_S_LOGIN / 256];
    assert SizeField(s) == 3 && SizeField(s[2..]) == PKT_S_LOGIN;
    assert Split(s[3..]) == Framing.Frames([], s[3..], false);
    assert [s[..3]] + [] == [s[..3]];
  }

  lemma UnframeOfFrame(m: Message)
    requires MessageOk(m) && |Payload(m)| + HEADER_SIZE < UINT16
    ensures Unframe(Frame(m)) == if MessageText(m) then Handled(m) else Refused
  {
    assert Unframe(Frame(m)) == Dispatch(PacketId(m), Payload(m));
    DispatchOfPayload(m);
  }

  lemma DispatchOfPayload(m: Message)
    requires MessageOk(m)
    ensures Dispatch(PacketId(m), Payload(m)) == if MessageText(m) then Handled(m) else Refused
  {
    match m
    case Login(x) => LoginRoundTrip(x);
    case EnterGame(x) => EnterRoundTrip(x);
    case Chat(x) => ChatRoundTrip(x);
  }

  // ----- end to end -----

  predicate Sendable(ms: seq<Message>) {
    forall m :: m in ms ==> MessageOk(m) && |Payload(m)| <= MAX_PAYLOAD
  }

  function Frames(ms: seq<Message>): (fs: seq<seq<byte>>)
    requires Sendable(ms)
    ensures |fs| == |ms| && forall i :: 0 <= i < |ms| ==> fs[i] == Frame(ms[i])
  {
    if ms == [] then [] else [Frame(ms[0])] + Frames(ms[1..])
  }

  /** The frames put end to end split up into the same frames again, and nothing is left. */
  lemma {:induction false} SplitOfFrames(ms: seq<Message>)
    requires Sendable(ms)
    ensures Split(Joined(Frames(ms))) == Framing.Frames(Frames(ms), [], false)
    decreases |ms|
  {
    if ms == [] {
    } else {
      var f, rest := Frame(ms[0]), Joined(Frames(ms[1..]));
      SplitOfFrames(ms[1..]);
      assert Frames(ms)[1..] == Frames(ms[1..]);
      assert Joined(Frames(ms)) == f + rest;
      assert SizeField(f + rest) == |f|;
      assert (f + rest)[..|f|] == f && (f + rest)[|f|..] == rest;
    }
  }

  /** End to end: messages of at most 5996 bytes, framed, sent end to end and received in any pieces,
      come out as the same messages in the same order, each exactly when its strings are valid. */
  lemma MessagesArriveInOrder(ms: seq<Message>, chunks: seq<seq<byte>>, i: nat)
    requires Sendable(ms) && Stream(chunks) == Joined(Frames(ms)) && i < |ms|
    ensures Receive(chunks) == Received(Frames(ms), [], false)
    ensures var packet := Receive(chunks).delivered[i];
            |packet| >= HEADER_SIZE && Unframe(packet) == if MessageText(ms[i]) then Handled(ms[i]) else Refused
  {
    SplitOfFrames(ms);
    ChunkingDoesNotMatter(chunks);
    UnframeOfFrame(ms[i]);
  }

  // ----- putting a packet together -----

  datatype Sizes = LoginSizes(login: Serializer.LoginSizes) | EnterSizes(enter: Serializer.EnterSizes)
                 | ChatSizes(chat: Serializer.ChatSizes)

  predicate Cached(m: Message, z: Sizes) {
    match m
    case Login(x) => z.LoginSizes? && Serializer.LoginCached(x, z.login)
    case EnterGame(x) => z.EnterSizes? && Serializer.EnterCached(x, z.enter)
    case Chat(x) => z.ChatSizes? && Serializer.ChatCached(x, z.chat)
  }

  method ByteSize(m: Message) returns (size: nat, z: Sizes)
    requires MessageOk(m)
    ensures size == |Payload(m)| && Cached(m, z)
  {
    match m {
      case Login(x) => { var login; size, login := Serializer.LoginByteSize(x); z := LoginSizes(login); }
      case EnterGame(x) => { var enter; size, enter := Serializer.EnterByteSize(x); z := EnterSizes(enter); }
      case Chat(x) => { var chat; size, chat := Serializer.ChatByteSize(x); z := ChatSizes(chat); }
    }
  }

  method Serialize(m: Message, z: Sizes) returns (out: seq<byte>)
    requires MessageOk(m) && Cached(m, z)
    ensures out == Payload(m)
  {
    match m {
      case Login(x) => { out := Serializer.SerializeLogin(x, z.login, []); NoPrefix(LoginBytes(x)); }
      case EnterGame(x) => { out := Serializer.SerializeEnter(x, z.enter, []); NoPrefix(EnterBytes(x)); }
      case Chat(x) => { out := Serializer.SerializeChat(x, z.chat, []); NoPrefix(ChatBytes(x)); }
    }
  }

  lemma NoPrefix(s: seq<byte>)
    ensures [] + s == s
  {
  }

  /** Fails when the array is too small, and writes what ByteSizeLong announced. */
  method SerializeToArray(m: Message, size: nat) returns (out: Option<seq<byte>>)
    requires MessageOk(m)
    ensures out == if size < |Payload(m)| then None else Some(Payload(m))
  {
    var byteSize, z := ByteSize(m);
    if size < byteSize {
      return None;
    }
    var bytes := Serialize(m, z);
    return Some(bytes);
  }

  /** A closed send buffer; an assertion that fails; or `written` bytes stored from a chunk's `offset`
      on, into a buffer that was opened for fewer than a header's four. */
  datatype Made = Made(buffer: SB.SendBuffer) | Crash | Overrun(offset: nat, written: nat)

  function DataSize(byteSize: nat): nat { byteSize % UINT16 }
  function PacketSize(byteSize: nat): nat { (DataSize(byteSize) + HEADER_SIZE) % UINT16 }

  /** What the two casts to 16 bits do to a payload size: when the packet size no longer covers the
      header, when the data size is still the true one, and when all of it fits a chunk. */
  lemma NarrowedSizes(n: nat)
    ensures PacketSize(n) < HEADER_SIZE <==> n % UINT16 >= UINT16 - HEADER_SIZE
    ensures n <= DataSize(n) <==> n < UINT16
    ensures HEADER_SIZE <= PacketSize(n) <= SB.SEND_BUFFER_CHUNK_SIZE && n <= DataSize(n) <==> n <= MAX_PAYLOAD
    ensures n <= MAX_PAYLOAD ==> PacketSize(n) == n + HEADER_SIZE
  {
  }

  /** Up to 5996 bytes the closed buffer holds the frame and no other buffer changes. Sizes that are
      65532 to 65535 modulo 65536 wrap to a packet size below the header's: the header is stored all
      the same, past the range opened for it, and from 65532 to 65535 itself the payload follows; for
      the larger ones the serializer's check then fails. Any other size fails an assertion, as does a
      thread that left its last buffer open. */
  method MakeSendBuffer(manager: SB.SendBufferManager, t: int, m: Message) returns (r: Made)
    requires manager.Valid() && MessageOk(m)
    modifies manager, manager.arena.fills.Keys, set c | c in manager.arena.fills :: c.data
    ensures var open := t in old(manager.current) && old(manager.current[t].open);
            && (r.Made? <==> !open && |Payload(m)| <= MAX_PAYLOAD)
            && (r.Overrun? <==> !open && |Payload(m)| % UINT16 >= UINT16 - HEADER_SIZE)
    ensures r.Overrun? ==>
              && r.offset <= SB.SEND_BUFFER_CHUNK_SIZE
              && r.written == HEADER_SIZE + if |Payload(m)| < UINT16 then |Payload(m)| else 0
    ensures r.Made? ==>
              && manager.Valid() && fresh(r.buffer)
              && manager.arena.contents == old(manager.arena.contents)[r.buffer := Frame(m)]
  {
    var packetSize, out := Narrow(m);
    NarrowedFrame(m, packetSize, out);
    r := PutFrame(manager, t, packetSize, PacketId(m), out);
  }

  /** The packet size, and what SerializeToArray will make of a data size of 16 bits. It reads nothing
      but the message, so it is computed here although its outcome is looked at last. */
  method Narrow(m: Message) returns (packetSize: nat, out: Option<seq<byte>>)
    requires MessageOk(m)
    ensures packetSize == PacketSize(|Payload(m)|)
    ensures out == if DataSize(|Payload(m)|) < |Payload(m)| then None else Some(Payload(m))
  {
    var byteSize, _ := ByteSize(m);
    packetSize := PacketSize(byteSize);
    out := SerializeToArray(m, DataSize(byteSize));
  }

  lemma NarrowedFrame(m: Message, packetSize: nat, out: Option<seq<byte>>)
    requires MessageOk(m) && packetSize == PacketSize(|Payload(m)|)
    requires out == if DataSize(|Payload(m)|) < |Payload(m)| then None else Some(Payload(m))
    ensures packetSize < UINT16 && PacketId(m) < UINT16 && (out.Some? <==> |Payload(m)| < UINT16)
    ensures packetSize < HEADER_SIZE <==> |Payload(m)| % UINT16 >= UINT16 - HEADER_SIZE
    ensures HEADER_SIZE <= packetSize <= SB.SEND_BUFFER_CHUNK_SIZE && out.Some? <==> |Payload(m)| <= MAX_PAYLOAD
    ensures out.Some? && packetSize >= HEADER_SIZE ==> packetSize == HEADER_SIZE + |out.value|
    ensures |Payload(m)| <= MAX_PAYLOAD ==> out.Some? && Header(packetSize, PacketId(m)) + out.value == Frame(m)
  {
    NarrowedSizes(|Payload(m)|);
  }

  /** Opens the buffer, stores the header, then the payload unless the serializer's check fails. */
  method PutFrame(manager: SB.SendBufferManager, t: int, packetSize: nat, id: nat, payload: Option<seq<byte>>)
    returns (r: Made)
    requires manager.Valid() && packetSize < UINT16 && id < UINT16
    requires payload.Some? && packetSize >= HEADER_SIZE ==> packetSize == HEADER_SIZE + |payload.value|
    modifies manager, manager.arena.fills.Keys, set c | c in manager.arena.fills :: c.data
    ensures var open := t in old(manager.current) && old(manager.current[t].open);
            && (r.Overrun? <==> !open && packetSize < HEADER_SIZE)
            && (r.Made? <==> !open && HEADER_SIZE <= packetSize <= SB.SEND_BUFFER_CHUNK_SIZE && payload.Some?)
    ensures r.Overrun? ==>
              && r.offset <= SB.SEND_BUFFER_CHUNK_SIZE
              && r.written == HEADER_SIZE + if payload.Some? then |payload.value| else 0
    ensures r.Made? ==>
              && manager.Valid() && fresh(r.buffer)
              && manager.arena.contents
              == old(manager.arena.contents)[r.buffer := Header(packetSize, id) + payload.value]
  {
    var started := StartFrame(manager, t, packetSize, id);
    match started {
      case NotOpened => return Crash;
      case Past(offset) => return Overrun(offset, HEADER_SIZE + if payload.Some? then |payload.value| else 0);
      case Within(b) =>
        if payload.None? {
          return Crash;
        }
        StorePayload(manager, b, Header(packetSize, id), payload.value);
        return Made(b);
    }
  }

  // ----- header first, payload second -----

  /** No buffer; a buffer with the header in it; or a header stored past the range of its buffer. */
  datatype Started = NotOpened | Within(buffer: SB.SendBuffer) | Past(offset: nat)

  /** The buffer is open and begins with `header`. */
  ghost predicate Begins(manager: SB.SendBufferManager, b: SB.SendBuffer, header: seq<byte>)
    reads manager
  {
    && b in manager.arena.sizes && b !in manager.arena.contents && b.owner in manager.arena.bytes
    && b.offset + |header| <= |manager.arena.bytes[b.owner]|
    && manager.arena.bytes[b.owner][b.offset..b.offset + |header|] == header
  }

  /** Opens a buffer of `packetSize` bytes and stores the header, whether or not it fits. */
  method StartFrame(manager: SB.SendBufferManager, t: int, packetSize: nat, id: nat) returns (r: Started)
    requires manager.Valid() && packetSize < UINT16 && id < UINT16
    modifies manager, manager.arena.fills.Keys, set c | c in manager.arena.fills :: c.data
    ensures r.NotOpened? <==> packetSize > SB.SEND_BUFFER_CHUNK_SIZE
                              || (t in old(manager.current) && old(manager.current[t].open))
    ensures r.Past? <==> !r.NotOpened? && packetSize < HEADER_SIZE
    ensures r.Past? ==> r.offset <= SB.SEND_BUFFER_CHUNK_SIZE
    ensures r.Within? ==>
              && manager.Valid() && fresh(r.buffer) && r.buffer.allocSize == packetSize
              && Begins(manager, r.buffer, Header(packetSize, id))
              && manager.arena.contents == old(manager.arena.contents)
              && (r.buffer.owner in old(manager.arena).fills || (fresh(r.buffer.owner) && fresh(r.buffer.owner.data)))
  {
    ghost var a := manager.arena;
    var o := manager.Open(t, packetSize);
    if o.Crash? {
      return NotOpened;
    }
    SB.OpeningKeepsContents(a, t, packetSize, o.buffer, manager.arena);
    OpenedFits(manager, o.buffer);
    if packetSize < HEADER_SIZE {
      return Past(o.buffer.offset);
    }
    StoreHeader(manager, o.buffer, Header(packetSize, id));
    return Within(o.buffer);
  }

  lemma OpenedFits(manager: SB.SendBufferManager, b: SB.SendBuffer)
    requires manager.Valid() && b in manager.arena.sizes
    ensures b.offset + b.allocSize <= SB.SEND_BUFFER_CHUNK_SIZE && b.owner in manager.arena.bytes
    ensures |manager.arena.bytes[b.owner]| == SB.SEND_BUFFER_CHUNK_SIZE
  {
  }

  method StoreHeader(manager: SB.SendBufferManager, b: SB.SendBuffer, header: seq<byte>)
    requires manager.Valid() && b in manager.live && b !in manager.arena.contents && |header| <= b.allocSize
    modifies manager`arena, b.owner.data
    ensures manager.Valid() && Begins(manager, b, header) && manager.arena.contents == old(manager.arena.contents)
  {
    OpenedFits(manager, b);
    manager.Write(b, 0, header);
  }

  lemma FilledContents(a: SB.Arena, b: SB.SendBuffer, header: seq<byte>, payload: seq<byte>)
    requires b.owner in a.bytes && b.offset + |header| + |payload| <= |a.bytes[b.owner]|
    requires a.bytes[b.owner][b.offset..b.offset + |header|] == header
    ensures SB.ClosedArena(SB.WrittenArena(a, b, |header|, payload), b, |header| + |payload|).contents
         == a.contents[b := header + payload]
  {
    var bytes := SB.WrittenArena(a, b, |header|, payload).bytes[b.owner];
    assert bytes[b.offset..b.offset + |header|] == header;
    assert bytes[b.offset..b.offset + (|header| + |payload|)] == header + payload;
  }

  /** Writes the payload behind the header, and closes the buffer. */
  method StorePayload(manager: SB.SendBufferManager, b: SB.SendBuffer, ghost header: seq<byte>, payload: seq<byte>)
    requires manager.Valid() && Begins(manager, b, header)
    requires |header| == HEADER_SIZE && HEADER_SIZE + |payload| == b.allocSize
    modifies manager, b, b.owner, b.owner.data
    ensures manager.Valid() && manager.arena.contents == old(manager.arena.contents)[b := header + payload]
  {
    OpenedFits(manager, b);
    FilledContents(manager.arena, b, header, payload);
    manager.Write(b, HEADER_SIZE, payload);
    var ok := manager.Close(b, HEADER_SIZE + |payload|);
  }

  /** A chat message whose text is `n` bytes long. */
  function LongChat(n: nat): Message {
    Chat(SChat(None, None, seq(n, _ => 97)))
  }

  lemma LongChatSize(n: nat)
    requires 16384 <= n < 2097152
    ensures MessageOk(LongChat(n)) && |Payload(LongChat(n))| == n + 4
  {
    var text: seq<byte> := LongChat(n).chat.msg;
    var field := BytesField(26, text);
    assert ChatFields(LongChat(n).chat) == [field];
    EncodeOne(field);
    assert |Varint(n)| == 1 + |Varint(n / 128)| == 2 + |Varint(n / 128 / 128)| == 3;
  }

  /** Messages that go past their range: this chat with its payload, that one with the header alone. */
  lemma OverrunningMessages()
    ensures MessageOk(LongChat(65528)) && |Payload(LongChat(65528))| == UINT16 - HEADER_SIZE
    ensures MessageOk(LongChat(131064)) && |Payload(LongChat(131064))| == 131068
  {
    LongChatSize(65528);
    LongChatSize(131064);
  }

  /** The smallest size at which the header alone goes past its range before the assertion fails. */
  lemma HeaderSpillsAlone()
    ensures PacketSize(131068) == 0 && DataSize(131068) < 131068
    ensures forall n: nat :: PacketSize(n) < HEADER_SIZE && DataSize(n) < n ==> n >= 131068
  {
  }
}
