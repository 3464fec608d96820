/** The messages of Common/Protobuf/bin/Struct.proto and Protocol.proto, as values: the fields each
    one writes, how each takes a field it reads, and how two are merged, as in Server/Struct.pb.cc
    and Server/Protocol.pb.cc.

    The theorems: parsing what was serialized merges it into the message parsed into, exactly when
    every string is valid UTF-8 (Encoding specification, section "Last One Wins"); so a
    serialization read into a fresh message gives the message back. */
module Messages {
  import opened Wire

  datatype Player = Player(id: nat, name: seq<byte>, roomId: nat)
  datatype RoomInfo = RoomInfo(id: nat, playerCount: nat, players: seq<Player>)
  datatype SLogin = SLogin(success: bool, isNewId: bool, player: Option<Player>, roomInfos: seq<RoomInfo>)
  datatype SEnterGame = SEnterGame(success: bool, roomInfo: Option<RoomInfo>, roomInfos: seq<RoomInfo>)
  datatype SChat = SChat(roomInfo: Option<RoomInfo>, player: Option<Player>, msg: seq<byte>)

  const NO_PLAYER := Player(0, [], 0)
  const NO_ROOM := RoomInfo(0, 0, [])
  const NO_LOGIN := SLogin(false, false, None, [])
  const NO_ENTER := SEnterGame(false, None, [])
  const NO_CHAT := SChat(None, None, [])

  /** What IsStructurallyValidUTF8 accepts: well-formed sequences without surrogates. */
  predicate ValidUtf8(s: seq<byte>) {
    if s == [] then true
    else if s[0] < 0x80 then ValidUtf8(s[1..])
    else if |s| >= 2 && 0xC2 <= s[0] < 0xE0 && Tail(s[1], 0x80, 0xBF) then ValidUtf8(s[2..])
    else if |s| >= 3 && 0xE0 <= s[0] < 0xF0 && Tail(s[2], 0x80, 0xBF)
            && Tail(s[1], if s[0] == 0xE0 then 0xA0 else 0x80, if s[0] == 0xED then 0x9F else 0xBF)
    then ValidUtf8(s[3..])
    else if |s| >= 4 && 0xF0 <= s[0] < 0xF5 && Tail(s[2], 0x80, 0xBF) && Tail(s[3], 0x80, 0xBF)
            && Tail(s[1], if s[0] == 0xF0 then 0x90 else 0x80, if s[0] == 0xF4 then 0x8F else 0xBF)
    then ValidUtf8(s[4..])
    else false
  }

  predicate Tail(b: byte, low: int, high: int) { low <= b <= high }

  function OrElse<T>(o: Option<T>, default: T): T {
    match o case Some(v) => v case None => default
  }

  function FlagField(tag: byte, b: bool): seq<Field> {
    if b then [VarintField(tag, 1)] else []
  }

  function NumberField(tag: byte, n: nat): seq<Field> {
    if n != 0 then [VarintField(tag, n)] else []
  }

  function TextField(tag: byte, text: seq<byte>): seq<Field> {
    if text != [] then [BytesField(tag, text)] else []
  }

  // ----- Player -----

  function PlayerFields(p: Player): seq<Field> {
    NumberField(8, p.id) + TextField(18, p.name) + NumberField(24, p.roomId)
  }

  function PlayerBytes(p: Player): seq<byte> { Encode(PlayerFields(p)) }

  function TakePlayer(m: Player, f: Field): Read<Player> {
    match f
    case VarintField(8, v) => Got(m.(id := v))
    case BytesField(18, payload) => if ValidUtf8(payload) then Got(m.(name := payload)) else Malformed
    case VarintField(24, v) => Got(m.(roomId := v % UINT32))
    case _ => Unusual
  }

  function ParsePlayer(m: Player, s: seq<byte>): Read<Player> { ParseWith(TakePlayer, m, s) }

  function MergePlayer(to: Player, from: Player): Player {
    Player(if from.id != 0 then from.id else to.id,
           if from.name != [] then from.name else to.name,
           if from.roomId != 0 then from.roomId else to.roomId)
  }

  predicate PlayerOk(p: Player) {
    p.id < UINT64 && p.roomId < UINT32 && |p.name| <= MAX_SIZE
  }

  predicate PlayerText(p: Player) { ValidUtf8(p.name) }

  lemma TakePlayerFields(m: Player, p: Player)
    requires PlayerOk(p)
    ensures forall f :: f in PlayerFields(p) ==> FieldOk(f)
    ensures TakeAll(TakePlayer, m, PlayerFields(p)) == if PlayerText(p) then Got(MergePlayer(m, p)) else Malformed
  {
    var a, b, c := NumberField(8, p.id), TextField(18, p.name), NumberField(24, p.roomId);
    TakeAllConcat(TakePlayer, m, a + b, c);
    TakeAllConcat(TakePlayer, m, a, b);
  }

  /** Parsing a serialized player into `m` merges it into `m`, and then reads on. */
  lemma ParsePlayerBytes(m: Player, p: Player, rest: seq<byte>)
    requires PlayerOk(p)
    ensures ParsePlayer(m, PlayerBytes(p) + rest)
         == if PlayerText(p) then ParsePlayer(MergePlayer(m, p), rest) else Malformed
  {
    TakePlayerFields(m, p);
    ParseOfEncoded(TakePlayer, m, PlayerFields(p), rest);
  }

  lemma ParsePlayerExactly(m: Player, p: Player)
    requires PlayerOk(p)
    ensures ParsePlayer(m, PlayerBytes(p)) == if PlayerText(p) then Got(MergePlayer(m, p)) else Malformed
  {
    ParsePlayerBytes(m, p, []);
    assert PlayerBytes(p) + [] == PlayerBytes(p);
  }

  // ----- RoomInfo -----

  function PlayersFields(ps: seq<Player>): (fs: seq<Field>)
    ensures |fs| == |ps|
  {
    seq(|ps|, i requires 0 <= i < |ps| => BytesField(26, PlayerBytes(ps[i])))
  }

  function RoomFields(r: RoomInfo): seq<Field> {
    NumberField(8, r.id) + NumberField(16, r.playerCount) + PlayersFields(r.players)
  }

  function RoomBytes(r: RoomInfo): seq<byte> { Encode(RoomFields(r)) }

  function TakeRoom(m: RoomInfo, f: Field): Read<RoomInfo> {
    match f
    case VarintField(8, v) => Got(m.(id := v % UINT32))
    case VarintField(16, v) => Got(m.(playerCount := v % UINT32))
    case BytesField(26, payload) =>
      (match ParsePlayer(NO_PLAYER, payload)
       case Got(p) => Got(m.(players := m.players + [p]))
       case Malformed => Malformed
       case Unusual => Unusual)
    case _ => Unusual
  }

  function ParseRoom(m: RoomInfo, s: seq<byte>): Read<RoomInfo> { ParseWith(TakeRoom, m, s) }

  function MergeRoom(to: RoomInfo, from: RoomInfo): RoomInfo {
    RoomInfo(if from.id != 0 then from.id else to.id,
             if from.playerCount != 0 then from.playerCount else to.playerCount,
             to.players + from.players)
  }

  predicate RoomOk(r: RoomInfo) {
    && r.id < UINT32 && r.playerCount < UINT32
    && forall i :: 0 <= i < |r.players| ==> PlayerOk(r.players[i]) && |PlayerBytes(r.players[i])| <= MAX_SIZE
  }

  predicate RoomText(r: RoomInfo) { forall p :: p in r.players ==> PlayerText(p) }

  function AppendPlayers(m: RoomInfo, es: seq<Player>): RoomInfo { m.(players := m.players + es) }

  lemma AppendPlayersLaws()
    ensures forall x: RoomInfo :: AppendPlayers(x, []) == x
    ensures forall x: RoomInfo, a: seq<Player>, b: seq<Player> ::
              AppendPlayers(AppendPlayers(x, a), b) == AppendPlayers(x, a + b)
  {
    forall x: RoomInfo ensures AppendPlayers(x, []) == x {
      assert x.players + [] == x.players;
    }
    forall x: RoomInfo, a: seq<Player>, b: seq<Player>
      ensures AppendPlayers(AppendPlayers(x, a), b) == AppendPlayers(x, a + b)
    {
      Associative(x.players, a, b);
    }
  }

  lemma TakeOnePlayer(m: RoomInfo, p: Player)
    requires PlayerOk(p)
    ensures TakeRoom(m, BytesField(26, PlayerBytes(p)))
         == if PlayerText(p) then Got(m.(players := m.players + [p])) else Malformed
  {
    ParsePlayerExactly(NO_PLAYER, p);
  }

  lemma TakePlayersFields(m: RoomInfo, ps: seq<Player>)
    requires forall p :: p in ps ==> PlayerOk(p)
    ensures TakeAll(TakeRoom, m, PlayersFields(ps))
         == if forall p :: p in ps ==> PlayerText(p) then Got(m.(players := m.players + ps)) else Malformed
  {
    AppendPlayersLaws();
    forall x: RoomInfo, i | 0 <= i < |ps|
      ensures TakeRoom(x, PlayersFields(ps)[i])
           == if PlayerText(ps[i]) then Got(AppendPlayers(x, [ps[i]])) else Malformed
    {
      TakeOnePlayer(x, ps[i]);
    }
    TakeRepeated(TakeRoom, AppendPlayers, PlayerText, m, ps, PlayersFields(ps));
  }

  lemma TakeRoomNumbers(m: RoomInfo, r: RoomInfo)
    requires RoomOk(r)
    ensures TakeAll(TakeRoom, m, NumberField(8, r.id) + NumberField(16, r.playerCount))
         == Got(MergeRoom(m, r.(players := [])))
  {
    TakeAllConcat(TakeRoom, m, NumberField(8, r.id), NumberField(16, r.playerCount));
    assert m.players + [] == m.players;
  }

  lemma TakeRoomFields(m: RoomInfo, r: RoomInfo)
    requires RoomOk(r)
    ensures forall f :: f in RoomFields(r) ==> FieldOk(f)
    ensures TakeAll(TakeRoom, m, RoomFields(r)) == if RoomText(r) then Got(MergeRoom(m, r)) else Malformed
  {
    TakeAllConcat(TakeRoom, m, NumberField(8, r.id) + NumberField(16, r.playerCount), PlayersFields(r.players));
    TakeRoomNumbers(m, r);
    TakePlayersFields(MergeRoom(m, r.(players := [])), r.players);
    assert m.players + [] == m.players;
  }

  /** Parsing a serialized room merges it in: numbers overwrite, players are appended. */
  lemma ParseRoomBytes(m: RoomInfo, r: RoomInfo, rest: seq<byte>)
    requires RoomOk(r)
    ensures ParseRoom(m, RoomBytes(r) + rest)
         == if RoomText(r) then ParseRoom(MergeRoom(m, r), rest) else Malformed
  {
    TakeRoomFields(m, r);
    ParseOfEncoded(TakeRoom, m, RoomFields(r), rest);
  }

  lemma ParseRoomExactly(m: RoomInfo, r: RoomInfo)
    requires RoomOk(r)
    ensures ParseRoom(m, RoomBytes(r)) == if RoomText(r) then Got(MergeRoom(m, r)) else Malformed
  {
    ParseRoomBytes(m, r, []);
    assert RoomBytes(r) + [] == RoomBytes(r);
  }

  lemma RoomIntoFresh(r: RoomInfo)
    ensures MergeRoom(NO_ROOM, r) == r
  {
    assert [] + r.players == r.players;
  }

  // ----- submessages -----

  function PlayerField(tag: byte, o: Option<Player>): seq<Field> {
    match o case Some(p) => [BytesField(tag, PlayerBytes(p))] case None => []
  }

  function RoomField(tag: byte, o: Option<RoomInfo>): seq<Field> {
    match o case Some(r) => [BytesField(tag, RoomBytes(r))] case None => []
  }

  function RoomsFields(tag: byte, rs: seq<RoomInfo>): (fs: seq<Field>)
    ensures |fs| == |rs|
  {
    seq(|rs|, i requires 0 <= i < |rs| => BytesField(tag, RoomBytes(rs[i])))
  }

  function MergeOptionalPlayer(to: Option<Player>, from: Option<Player>): Option<Player> {
    match from case Some(p) => Some(MergePlayer(OrElse(to, NO_PLAYER), p)) case None => to
  }

  function MergeOptionalRoom(to: Option<RoomInfo>, from: Option<RoomInfo>): Option<RoomInfo> {
    match from case Some(r) => Some(MergeRoom(OrElse(to, NO_ROOM), r)) case None => to
  }

  predicate SubPlayerOk(o: Option<Player>) {
    o.Some? ==> PlayerOk(o.value) && |PlayerBytes(o.value)| <= MAX_SIZE
  }

  predicate SubRoomOk(o: Option<RoomInfo>) {
    o.Some? ==> RoomOk(o.value) && |RoomBytes(o.value)| <= MAX_SIZE
  }

  predicate RoomsOk(rs: seq<RoomInfo>) {
    forall i :: 0 <= i < |rs| ==> RoomOk(rs[i]) && |RoomBytes(rs[i])| <= MAX_SIZE
  }

  predicate RoomsText(rs: seq<RoomInfo>) { forall r :: r in rs ==> RoomText(r) }

  // ----- S_LOGIN -----

  function LoginFields(m: SLogin): seq<Field> {
    FlagField(8, m.success) + FlagField(16, m.isNewId) + PlayerField(26, m.player) + RoomsFields(34, m.roomInfos)
  }

  function LoginBytes(m: SLogin): seq<byte> { Encode(LoginFields(m)) }

  function TakeLogin(m: SLogin, f: Field): Read<SLogin> {
    match f
    case VarintField(8, v) => Got(m.(success := v != 0))
    case VarintField(16, v) => Got(m.(isNewId := v != 0))
    case BytesField(26, payload) =>
      (match ParsePlayer(OrElse(m.player, NO_PLAYER), payload)
       case Got(p) => Got(m.(player := Some(p)))
       case Malformed => Malformed
       case Unusual => Unusual)
    case BytesField(34, payload) =>
      (match ParseRoom(NO_ROOM, payload)
       case Got(r) => Got(m.(roomInfos := m.roomInfos + [r]))
       case Malformed => Malformed
       case Unusual => Unusual)
    case _ => Unusual
  }

  function ParseLogin(m: SLogin, s: seq<byte>): Read<SLogin> { ParseWith(TakeLogin, m, s) }

  function MergeLogin(to: SLogin, from: SLogin): SLogin {
    SLogin(to.success || from.success, to.isNewId || from.isNewId,
           MergeOptionalPlayer(to.player, from.player), to.roomInfos + from.roomInfos)
  }

  predicate LoginOk(m: SLogin) { SubPlayerOk(m.player) && RoomsOk(m.roomInfos) }

  predicate LoginText(m: SLogin) {
    (m.player.Some? ==> PlayerText(m.player.value)) && RoomsText(m.roomInfos)
  }

  function AppendLoginRooms(m: SLogin, es: seq<RoomInfo>): SLogin { m.(roomInfos := m.roomInfos + es) }

  lemma AppendLoginRoomsLaws()
    ensures forall x: SLogin :: AppendLoginRooms(x, []) == x
    ensures forall x: SLogin, a: seq<RoomInfo>, b: seq<RoomInfo> ::
              AppendLoginRooms(AppendLoginRooms(x, a), b) == AppendLoginRooms(x, a + b)
  {
    forall x: SLogin ensures AppendLoginRooms(x, []) == x {
      assert x.roomInfos + [] == x.roomInfos;
    }
    forall x: SLogin, a: seq<RoomInfo>, b: seq<RoomInfo>
      ensures AppendLoginRooms(AppendLoginRooms(x, a), b) == AppendLoginRooms(x, a + b)
    {
      Associative(x.roomInfos, a, b);
    }
  }

  lemma TakeLoginRoom(m: SLogin, r: RoomInfo)
    requires RoomOk(r)
    ensures TakeLogin(m, BytesField(34, RoomBytes(r)))
         == if RoomText(r) then Got(m.(roomInfos := m.roomInfos + [r])) else Malformed
  {
    ParseRoomExactly(NO_ROOM, r);
    RoomIntoFresh(r);
  }

  lemma TakeLoginRooms(m: SLogin, rs: seq<RoomInfo>)
    requires RoomsOk(rs)
    ensures TakeAll(TakeLogin, m, RoomsFields(34, rs))
         == if RoomsText(rs) then Got(m.(roomInfos := m.roomInfos + rs)) else Malformed
  {
    AppendLoginRoomsLaws();
    forall x: SLogin, i | 0 <= i < |rs|
      ensures TakeLogin(x, RoomsFields(34, rs)[i])
           == if RoomText(rs[i]) then Got(AppendLoginRooms(x, [rs[i]])) else Malformed
    {
      TakeLoginRoom(x, rs[i]);
    }
    TakeRepeated(TakeLogin, AppendLoginRooms, RoomText, m, rs, RoomsFields(34, rs));
  }

  lemma TakeLoginFlags(m: SLogin, b: SLogin)
    ensures TakeAll(TakeLogin, m, FlagField(8, b.success) + FlagField(16, b.isNewId))
         == Got(m.(success := m.success || b.success, isNewId := m.isNewId || b.isNewId))
  {
    TakeAllConcat(TakeLogin, m, FlagField(8, b.success), FlagField(16, b.isNewId));
  }

  lemma TakeLoginPlayer(m: SLogin, o: Option<Player>)
    requires SubPlayerOk(o)
    ensures TakeAll(TakeLogin, m, PlayerField(26, o))
         == if o.Some? ==> PlayerText(o.value) then Got(m.(player := MergeOptionalPlayer(m.player, o))) else Malformed
  {
    if o.Some? {
      ParsePlayerExactly(OrElse(m.player, NO_PLAYER), o.value);
    }
  }

  lemma TakeLoginHead(m: SLogin, b: SLogin)
    requires LoginOk(b)
    ensures TakeAll(TakeLogin, m, FlagField(8, b.success) + FlagField(16, b.isNewId) + PlayerField(26, b.player))
         == if b.player.Some? ==> PlayerText(b.player.value)
            then Got(MergeLogin(m, b.(roomInfos := []))) else Malformed
  {
    var flags := FlagField(8, b.success) + FlagField(16, b.isNewId);
    TakeAllConcat(TakeLogin, m, flags, PlayerField(26, b.player));
    TakeLoginFlags(m, b);
    TakeLoginPlayer(m.(success := m.success || b.success, isNewId := m.isNewId || b.isNewId), b.player);
    assert m.roomInfos + [] == m.roomInfos;
  }

  lemma LoginFieldsOk(b: SLogin)
    requires LoginOk(b)
    ensures forall f :: f in LoginFields(b) ==> FieldOk(f)
  {
  }

  lemma TakeLoginFields(m: SLogin, b: SLogin)
    requires LoginOk(b)
    ensures TakeAll(TakeLogin, m, LoginFields(b)) == if LoginText(b) then Got(MergeLogin(m, b)) else Malformed
  {
    var head := FlagField(8, b.success) + FlagField(16, b.isNewId) + PlayerField(26, b.player);
    TakeAllConcat(TakeLogin, m, head, RoomsFields(34, b.roomInfos));
    TakeLoginHead(m, b);
    var m' := MergeLogin(m, b.(roomInfos := []));
    assert m'.roomInfos == m.roomInfos;
    TakeLoginRooms(m', b.roomInfos);
  }

  lemma ParseLoginBytes(m: SLogin, b: SLogin, rest: seq<byte>)
    requires LoginOk(b)
    ensures ParseLogin(m, LoginBytes(b) + rest)
         == if LoginText(b) then ParseLogin(MergeLogin(m, b), rest) else Malformed
  {
    LoginFieldsOk(b);
    TakeLoginFields(m, b);
    ParseOfEncoded(TakeLogin, m, LoginFields(b), rest);
  }

  // ----- S_ENTER_GAME -----

  function EnterFields(m: SEnterGame): seq<Field> {
    FlagField(8, m.success) + RoomField(18, m.roomInfo) + RoomsFields(26, m.roomInfos)
  }

  function EnterBytes(m: SEnterGame): seq<byte> { Encode(EnterFields(m)) }

  function TakeEnter(m: SEnterGame, f: Field): Read<SEnterGame> {
    match f
    case VarintField(8, v) => Got(m.(success := v != 0))
    case BytesField(18, payload) =>
      (match ParseRoom(OrElse(m.roomInfo, NO_ROOM), payload)
       case Got(r) => Got(m.(roomInfo := Some(r)))
       case Malformed => Malformed
       case Unusual => Unusual)
    case BytesField(26, payload) =>
      (match ParseRoom(NO_ROOM, payload)
       case Got(r) => Got(m.(roomInfos := m.roomInfos + [r]))
       case Malformed => Malformed
       case Unusual => Unusual)
    case _ => Unusual
  }

  function ParseEnter(m: SEnterGame, s: seq<byte>): Read<SEnterGame> { ParseWith(TakeEnter, m, s) }

  function MergeEnter(to: SEnterGame, from: SEnterGame): SEnterGame {
    SEnterGame(to.success || from.success, MergeOptionalRoom(to.roomInfo, from.roomInfo),
               to.roomInfos + from.roomInfos)
  }

  predicate EnterOk(m: SEnterGame) { SubRoomOk(m.roomInfo) && RoomsOk(m.roomInfos) }

  predicate EnterText(m: SEnterGame) {
    (m.roomInfo.Some? ==> RoomText(m.roomInfo.value)) && RoomsText(m.roomInfos)
  }

  function AppendEnterRooms(m: SEnterGame, es: seq<RoomInfo>): SEnterGame { m.(roomInfos := m.roomInfos + es) }

  lemma AppendEnterRoomsLaws()
    ensures forall x: SEnterGame :: AppendEnterRooms(x, []) == x
    ensures forall x: SEnterGame, a: seq<RoomInfo>, b: seq<RoomInfo> ::
              AppendEnterRooms(AppendEnterRooms(x, a), b) == AppendEnterRooms(x, a + b)
  {
    forall x: SEnterGame ensures AppendEnterRooms(x, []) == x {
      assert x.roomInfos + [] == x.roomInfos;
    }
    forall x: SEnterGame, a: seq<RoomInfo>, b: seq<RoomInfo>
      ensures AppendEnterRooms(AppendEnterRooms(x, a), b) == AppendEnterRooms(x, a + b)
    {
      Associative(x.roomInfos, a, b);
    }
  }

  lemma TakeEnterRoom(m: SEnterGame, r: RoomInfo)
    requires RoomOk(r)
    ensures TakeEnter(m, BytesField(26, RoomBytes(r)))
         == if RoomText(r) then Got(m.(roomInfos := m.roomInfos + [r])) else Malformed
  {
    ParseRoomExactly(NO_ROOM, r);
    RoomIntoFresh(r);
  }

  lemma TakeEnterRooms(m: SEnterGame, rs: seq<RoomInfo>)
    requires RoomsOk(rs)
    ensures TakeAll(TakeEnter, m, RoomsFields(26, rs))
         == if RoomsText(rs) then Got(m.(roomInfos := m.roomInfos + rs)) else Malformed
  {
    AppendEnterRoomsLaws();
    forall x: SEnterGame, i | 0 <= i < |rs|
      ensures TakeEnter(x, RoomsFields(26, rs)[i])
           == if RoomText(rs[i]) then Got(AppendEnterRooms(x, [rs[i]])) else Malformed
    {
      TakeEnterRoom(x, rs[i]);
    }
    TakeRepeated(TakeEnter, AppendEnterRooms, RoomText, m, rs, RoomsFields(26, rs));
  }

  lemma TakeEnterCurrent(m: SEnterGame, o: Option<RoomInfo>)
    requires SubRoomOk(o)
    ensures TakeAll(TakeEnter, m, RoomField(18, o))
         == if o.Some? ==> RoomText(o.value) then Got(m.(roomInfo := MergeOptionalRoom(m.roomInfo, o))) else Malformed
  {
    if o.Some? {
      ParseRoomExactly(OrElse(m.roomInfo, NO_ROOM), o.value);
    }
  }

  lemma TakeEnterHead(m: SEnterGame, b: SEnterGame)
    requires EnterOk(b)
    ensures TakeAll(TakeEnter, m, FlagField(8, b.success) + RoomField(18, b.roomInfo))
         == if b.roomInfo.Some? ==> RoomText(b.roomInfo.value)
            then Got(MergeEnter(m, b.(roomInfos := []))) else Malformed
  {
    TakeAllConcat(TakeEnter, m, FlagField(8, b.success), RoomField(18, b.roomInfo));
    TakeEnterCurrent(m.(success := m.success || b.success), b.roomInfo);
    assert m.roomInfos + [] == m.roomInfos;
  }

  lemma EnterFieldsOk(b: SEnterGame)
    requires EnterOk(b)
    ensures forall f :: f in EnterFields(b) ==> FieldOk(f)
  {
  }

  lemma TakeEnterFields(m: SEnterGame, b: SEnterGame)
    requires EnterOk(b)
    ensures TakeAll(TakeEnter, m, EnterFields(b)) == if EnterText(b) then Got(MergeEnter(m, b)) else Malformed
  {
    var head := FlagField(8, b.success) + RoomField(18, b.roomInfo);
    TakeAllConcat(TakeEnter, m, head, RoomsFields(26, b.roomInfos));
    TakeEnterHead(m, b);
    var m' := MergeEnter(m, b.(roomInfos := []));
    assert m'.roomInfos == m.roomInfos;
    TakeEnterRooms(m', b.roomInfos);
  }

  lemma ParseEnterBytes(m: SEnterGame, b: SEnterGame, rest: seq<byte>)
    requires EnterOk(b)
    ensures ParseEnter(m, EnterBytes(b) + rest)
         == if EnterText(b) then ParseEnter(MergeEnter(m, b), rest) else Malformed
  {
    EnterFieldsOk(b);
    TakeEnterFields(m, b);
    ParseOfEncoded(TakeEnter, m, EnterFields(b), rest);
  }

  // ----- S_CHAT -----

  function ChatFields(m: SChat): seq<Field> {
    RoomField(10, m.roomInfo) + PlayerField(18, m.player) + TextField(26, m.msg)
  }

  function ChatBytes(m: SChat): seq<byte> { Encode(ChatFields(m)) }

  function TakeChat(m: SChat, f: Field): Read<SChat> {
    match f
    case BytesField(10, payload) =>
      (match ParseRoom(OrElse(m.roomInfo, NO_ROOM), payload)
       case Got(r) => Got(m.(roomInfo := Some(r)))
       case Malformed => Malformed
       case Unusual => Unusual)
    case BytesField(18, payload) =>
      (match ParsePlayer(OrElse(m.player, NO_PLAYER), payload)
       case Got(p) => Got(m.(player := Some(p)))
       case Malformed => Malformed
       case Unusual => Unusual)
    case BytesField(26, payload) => if ValidUtf8(payload) then Got(m.(msg := payload)) else Malformed
    case _ => Unusual
  }

  function ParseChat(m: SChat, s: seq<byte>): Read<SChat> { ParseWith(TakeChat, m, s) }

  function MergeChat(to: SChat, from: SChat): SChat {
    SChat(MergeOptionalRoom(to.roomInfo, from.roomInfo), MergeOptionalPlayer(to.player, from.player),
          if from.msg != [] then from.msg else to.msg)
  }

  predicate ChatOk(m: SChat) { SubRoomOk(m.roomInfo) && SubPlayerOk(m.player) && |m.msg| <= MAX_SIZE }

  predicate ChatText(m: SChat) {
    && (m.roomInfo.Some? ==> RoomText(m.roomInfo.value))
    && (m.player.Some? ==> PlayerText(m.player.value))
    && ValidUtf8(m.msg)
  }

  lemma TakeChatRoom(m: SChat, o: Option<RoomInfo>)
    requires SubRoomOk(o)
    ensures TakeAll(TakeChat, m, RoomField(10, o))
         == if o.Some? ==> RoomText(o.value) then Got(m.(roomInfo := MergeOptionalRoom(m.roomInfo, o))) else Malformed
  {
    if o.Some? {
      ParseRoomExactly(OrElse(m.roomInfo, NO_ROOM), o.value);
    }
  }

  lemma TakeChatPlayer(m: SChat, o: Option<Player>)
    requires SubPlayerOk(o)
    ensures TakeAll(TakeChat, m, PlayerField(18, o))
         == if o.Some? ==> PlayerText(o.value) then Got(m.(player := MergeOptionalPlayer(m.player, o))) else Malformed
  {
    if o.Some? {
      ParsePlayerExactly(OrElse(m.player, NO_PLAYER), o.value);
    }
  }

  lemma TakeChatHead(m: SChat, b: SChat)
    requires ChatOk(b)
    ensures TakeAll(TakeChat, m, RoomField(10, b.roomInfo) + PlayerField(18, b.player))
         == if ChatText(b.(msg := [])) then Got(MergeChat(m, b.(msg := []))) else Malformed
  {
    TakeAllConcat(TakeChat, m, RoomField(10, b.roomInfo), PlayerField(18, b.player));
    TakeChatRoom(m, b.roomInfo);
    TakeChatPlayer(m.(roomInfo := MergeOptionalRoom(m.roomInfo, b.roomInfo)), b.player);
  }

  lemma ChatFieldsOk(b: SChat)
    requires ChatOk(b)
    ensures forall f :: f in ChatFields(b) ==> FieldOk(f)
  {
  }

  lemma TakeChatFields(m: SChat, b: SChat)
    requires ChatOk(b)
    ensures TakeAll(TakeChat, m, ChatFields(b)) == if ChatText(b) then Got(MergeChat(m, b)) else Malformed
  {
    var head, text := RoomField(10, b.roomInfo) + PlayerField(18, b.player), TextField(26, b.msg);
    TakeAllConcat(TakeChat, m, head, text);
    TakeChatHead(m, b);
  }

  lemma ParseChatBytes(m: SChat, b: SChat, rest: seq<byte>)
    requires ChatOk(b)
    ensures ParseChat(m, ChatBytes(b) + rest)
         == if ChatText(b) then ParseChat(MergeChat(m, b), rest) else Malformed
  {
    ChatFieldsOk(b);
    TakeChatFields(m, b);
    ParseOfEncoded(TakeChat, m, ChatFields(b), rest);
  }

  // ----- the theorems -----

  /** Merging into a fresh message is copying. */
  lemma MergeIntoFresh(p: Player, r: RoomInfo, l: SLogin, e: SEnterGame, c: SChat)
    ensures MergePlayer(NO_PLAYER, p) == p && MergeRoom(NO_ROOM, r) == r
    ensures MergeLogin(NO_LOGIN, l) == l && MergeEnter(NO_ENTER, e) == e && MergeChat(NO_CHAT, c) == c
  {
    assert [] + r.players == r.players && [] + l.roomInfos == l.roomInfos && [] + e.roomInfos == e.roomInfos;
    if l.player.Some? {
      assert MergePlayer(NO_PLAYER, l.player.value) == l.player.value;
    }
    if e.roomInfo.Some? {
      assert [] + e.roomInfo.value.players == e.roomInfo.value.players;
    }
    if c.roomInfo.Some? {
      assert [] + c.roomInfo.value.players == c.roomInfo.value.players;
    }
    if c.player.Some? {
      assert MergePlayer(NO_PLAYER, c.player.value) == c.player.value;
    }
  }

  /** Round trip: a serialization reads back as the message, if and only if its strings are valid. */
  lemma LoginRoundTrip(m: SLogin)
    requires LoginOk(m)
    ensures ParseLogin(NO_LOGIN, LoginBytes(m)) == if LoginText(m) then Got(m) else Malformed
  {
    ParseLoginBytes(NO_LOGIN, m, []);
    assert LoginBytes(m) + [] == LoginBytes(m);
    MergeIntoFresh(NO_PLAYER, NO_ROOM, m, NO_ENTER, NO_CHAT);
  }

  lemma EnterRoundTrip(m: SEnterGame)
    requires EnterOk(m)
    ensures ParseEnter(NO_ENTER, EnterBytes(m)) == if EnterText(m) then Got(m) else Malformed
  {
    ParseEnterBytes(NO_ENTER, m, []);
    assert EnterBytes(m) + [] == EnterBytes(m);
    MergeIntoFresh(NO_PLAYER, NO_ROOM, NO_LOGIN, m, NO_CHAT);
  }

  lemma ChatRoundTrip(m: SChat)
    requires ChatOk(m)
    ensures ParseChat(NO_CHAT, ChatBytes(m)) == if ChatText(m) then Got(m) else Malformed
  {
    ParseChatBytes(NO_CHAT, m, []);
    assert ChatBytes(m) + [] == ChatBytes(m);
    MergeIntoFresh(NO_PLAYER, NO_ROOM, NO_LOGIN, NO_ENTER, m);
  }

  /** Concatenating two serializations and parsing once is merging the second into the first. */
  lemma ConcatenationMerges(a: SLogin, b: SLogin)
    requires LoginOk(a) && LoginOk(b) && LoginText(a)
    ensures ParseLogin(NO_LOGIN, LoginBytes(a) + LoginBytes(b))
         == if LoginText(b) then Got(MergeLogin(a, b)) else Malformed
  {
    ParseLoginBytes(NO_LOGIN, a, LoginBytes(b));
    ParseLoginBytes(a, b, []);
    assert LoginBytes(b) + [] == LoginBytes(b);
    MergeIntoFresh(NO_PLAYER, NO_ROOM, a, NO_ENTER, NO_CHAT);
  }

  lemma EnterConcatenationMerges(a: SEnterGame, b: SEnterGame)
    requires EnterOk(a) && EnterOk(b) && EnterText(a)
    ensures ParseEnter(NO_ENTER, EnterBytes(a) + EnterBytes(b))
         == if EnterText(b) then Got(MergeEnter(a, b)) else Malformed
  {
    ParseEnterBytes(NO_ENTER, a, EnterBytes(b));
    ParseEnterBytes(a, b, []);
    assert EnterBytes(b) + [] == EnterBytes(b);
    MergeIntoFresh(NO_PLAYER, NO_ROOM, NO_LOGIN, a, NO_CHAT);
  }

  lemma ChatConcatenationMerges(a: SChat, b: SChat)
    requires ChatOk(a) && ChatOk(b) && ChatText(a)
    ensures ParseChat(NO_CHAT, ChatBytes(a) + ChatBytes(b))
         == if ChatText(b) then Got(MergeChat(a, b)) else Malformed
  {
    ParseChatBytes(NO_CHAT, a, ChatBytes(b));
    ParseChatBytes(a, b, []);
    assert ChatBytes(b) + [] == ChatBytes(b);
    MergeIntoFresh(NO_PLAYER, NO_ROOM, NO_LOGIN, NO_ENTER, a);
  }

  // ----- messages cut off -----

  /** Of a serialization that is cut inside a field, every parse fails, into whatever message. */
  lemma CutPlayerIsRefused(m: Player, p: Player, n: nat)
    requires PlayerOk(p) && CutsField(PlayerFields(p), n)
    ensures ParsePlayer(m, PlayerBytes(p)[..n]) == Malformed
  {
    TakePlayerFields(m, p);
    CutIsRefused(TakePlayer, m, PlayerFields(p), n);
  }

  lemma CutRoomIsRefused(m: RoomInfo, r: RoomInfo, n: nat)
    requires RoomOk(r) && CutsField(RoomFields(r), n)
    ensures ParseRoom(m, RoomBytes(r)[..n]) == Malformed
  {
    TakeRoomFields(m, r);
    CutIsRefused(TakeRoom, m, RoomFields(r), n);
  }

  lemma CutLoginIsRefused(m: SLogin, b: SLogin, n: nat)
    requires LoginOk(b) && CutsField(LoginFields(b), n)
    ensures ParseLogin(m, LoginBytes(b)[..n]) == Malformed
  {
    LoginFieldsOk(b);
    TakeLoginFields(m, b);
    CutIsRefused(TakeLogin, m, LoginFields(b), n);
  }

  lemma CutEnterIsRefused(m: SEnterGame, b: SEnterGame, n: nat)
    requires EnterOk(b) && CutsField(EnterFields(b), n)
    ensures ParseEnter(m, EnterBytes(b)[..n]) == Malformed
  {
    EnterFieldsOk(b);
    TakeEnterFields(m, b);
    CutIsRefused(TakeEnter, m, EnterFields(b), n);
  }

  lemma CutChatIsRefused(m: SChat, b: SChat, n: nat)
    requires ChatOk(b) && CutsField(ChatFields(b), n)
    ensures ParseChat(m, ChatBytes(b)[..n]) == Malformed
  {
    ChatFieldsOk(b);
    TakeChatFields(m, b);
    CutIsRefused(TakeChat, m, ChatFields(b), n);
  }

  /** A text that announces five bytes and has two. */
  lemma ShortTextIsRefused(m: SChat)
    ensures ParseChat(m, [26, 5, 104, 105]) == Malformed
  {
    var f := BytesField(26, [104, 105, 33, 33, 33]);
    assert EncodeField(f)[..4] == [26, 5, 104, 105];
    CutFieldIsRefused(f, 4);
  }

  // ----- later values win -----

  /** Of two numbers or texts for one field, wherever they come, only the later counts (Encoding
      specification, section "Last One Wins"), a default value included. */
  lemma LaterNumberOfPlayerWins(m: Player, tag: byte, a: nat, b: nat, rest: seq<byte>)
    requires tag in {8, 24} && a < UINT64 && b < UINT64
    ensures var f, g := VarintField(tag, a), VarintField(tag, b);
            ParsePlayer(m, EncodeField(f) + (EncodeField(g) + rest)) == ParsePlayer(m, EncodeField(g) + rest)
  {
    FieldsJoin(TakePlayer, m, VarintField(tag, a), VarintField(tag, b), VarintField(tag, b), rest);
  }

  lemma LaterNameOfPlayerWins(m: Player, a: seq<byte>, b: seq<byte>, rest: seq<byte>)
    requires |a| <= MAX_SIZE && |b| <= MAX_SIZE && ValidUtf8(a)
    ensures var f, g := BytesField(18, a), BytesField(18, b);
            ParsePlayer(m, EncodeField(f) + (EncodeField(g) + rest)) == ParsePlayer(m, EncodeField(g) + rest)
  {
    FieldsJoin(TakePlayer, m, BytesField(18, a), BytesField(18, b), BytesField(18, b), rest);
  }

  lemma LaterNumberOfRoomWins(m: RoomInfo, tag: byte, a: nat, b: nat, rest: seq<byte>)
    requires tag in {8, 16} && a < UINT64 && b < UINT64
    ensures var f, g := VarintField(tag, a), VarintField(tag, b);
            ParseRoom(m, EncodeField(f) + (EncodeField(g) + rest)) == ParseRoom(m, EncodeField(g) + rest)
  {
    FieldsJoin(TakeRoom, m, VarintField(tag, a), VarintField(tag, b), VarintField(tag, b), rest);
  }

  lemma LaterFlagOfLoginWins(m: SLogin, tag: byte, a: nat, b: nat, rest: seq<byte>)
    requires tag in {8, 16} && a < UINT64 && b < UINT64
    ensures var f, g := VarintField(tag, a), VarintField(tag, b);
            ParseLogin(m, EncodeField(f) + (EncodeField(g) + rest)) == ParseLogin(m, EncodeField(g) + rest)
  {
    FieldsJoin(TakeLogin, m, VarintField(tag, a), VarintField(tag, b), VarintField(tag, b), rest);
  }

  lemma LaterFlagOfEnterWins(m: SEnterGame, a: nat, b: nat, rest: seq<byte>)
    requires a < UINT64 && b < UINT64
    ensures var f, g := VarintField(8, a), VarintField(8, b);
            ParseEnter(m, EncodeField(f) + (EncodeField(g) + rest)) == ParseEnter(m, EncodeField(g) + rest)
  {
    FieldsJoin(TakeEnter, m, VarintField(8, a), VarintField(8, b), VarintField(8, b), rest);
  }

  lemma LaterTextOfChatWins(m: SChat, a: seq<byte>, b: seq<byte>, rest: seq<byte>)
    requires |a| <= MAX_SIZE && |b| <= MAX_SIZE && ValidUtf8(a)
    ensures var f, g := BytesField(26, a), BytesField(26, b);
            ParseChat(m, EncodeField(f) + (EncodeField(g) + rest)) == ParseChat(m, EncodeField(g) + rest)
  {
    FieldsJoin(TakeChat, m, BytesField(26, a), BytesField(26, b), BytesField(26, b), rest);
  }

  // ----- submessages merge -----

  /** Two submessages for one field are what their concatenation is: the second is merged into the first. */
  lemma LoginPlayersMerge(m: SLogin, a: Player, b: Player, rest: seq<byte>)
    requires PlayerOk(a) && PlayerOk(b) && PlayerText(a) && |PlayerBytes(a) + PlayerBytes(b)| <= MAX_SIZE
    ensures var f, g := BytesField(26, PlayerBytes(a)), BytesField(26, PlayerBytes(b));
            var both := BytesField(26, PlayerBytes(a) + PlayerBytes(b));
            ParseLogin(m, EncodeField(f) + (EncodeField(g) + rest)) == ParseLogin(m, EncodeField(both) + rest)
  {
    var into := OrElse(m.player, NO_PLAYER);
    ParsePlayerExactly(into, a);
    ParsePlayerBytes(into, a, PlayerBytes(b));
    FieldsJoin(TakeLogin, m, BytesField(26, PlayerBytes(a)), BytesField(26, PlayerBytes(b)),
               BytesField(26, PlayerBytes(a) + PlayerBytes(b)), rest);
  }

  lemma ChatPlayersMerge(m: SChat, a: Player, b: Player, rest: seq<byte>)
    requires PlayerOk(a) && PlayerOk(b) && PlayerText(a) && |PlayerBytes(a) + PlayerBytes(b)| <= MAX_SIZE
    ensures var f, g := BytesField(18, PlayerBytes(a)), BytesField(18, PlayerBytes(b));
            var both := BytesField(18, PlayerBytes(a) + PlayerBytes(b));
            ParseChat(m, EncodeField(f) + (EncodeField(g) + rest)) == ParseChat(m, EncodeField(both) + rest)
  {
    var into := OrElse(m.player, NO_PLAYER);
    ParsePlayerExactly(into, a);
    ParsePlayerBytes(into, a, PlayerBytes(b));
    FieldsJoin(TakeChat, m, BytesField(18, PlayerBytes(a)), BytesField(18, PlayerBytes(b)),
               BytesField(18, PlayerBytes(a) + PlayerBytes(b)), rest);
  }

  lemma EnterRoomsMerge(m: SEnterGame, a: RoomInfo, b: RoomInfo, rest: seq<byte>)
    requires RoomOk(a) && RoomOk(b) && RoomText(a) && |RoomBytes(a) + RoomBytes(b)| <= MAX_SIZE
    ensures var f, g := BytesField(18, RoomBytes(a)), BytesField(18, RoomBytes(b));
            var both := BytesField(18, RoomBytes(a) + RoomBytes(b));
            ParseEnter(m, EncodeField(f) + (EncodeField(g) + rest)) == ParseEnter(m, EncodeField(both) + rest)
  {
    var into := OrElse(m.roomInfo, NO_ROOM);
    ParseRoomExactly(into, a);
    ParseRoomBytes(into, a, RoomBytes(b));
    FieldsJoin(TakeEnter, m, BytesField(18, RoomBytes(a)), BytesField(18, RoomBytes(b)),
               BytesField(18, RoomBytes(a) + RoomBytes(b)), rest);
  }

  lemma ChatRoomsMerge(m: SChat, a: RoomInfo, b: RoomInfo, rest: seq<byte>)
    requires RoomOk(a) && RoomOk(b) && RoomText(a) && |RoomBytes(a) + RoomBytes(b)| <= MAX_SIZE
    ensures var f, g := BytesField(10, RoomBytes(a)), BytesField(10, RoomBytes(b));
            var both := BytesField(10, RoomBytes(a) + RoomBytes(b));
            ParseChat(m, EncodeField(f) + (EncodeField(g) + rest)) == ParseChat(m, EncodeField(both) + rest)
  {
    var into := OrElse(m.roomInfo, NO_ROOM);
    ParseRoomExactly(into, a);
    ParseRoomBytes(into, a, RoomBytes(b));
    FieldsJoin(TakeChat, m, BytesField(10, RoomBytes(a)), BytesField(10, RoomBytes(b)),
               BytesField(10, RoomBytes(a) + RoomBytes(b)), rest);
  }

  // ----- numbers too large for their field -----

  /** A 32-bit field keeps the low 32 bits of a larger number, and a flag is set by any number but 0. */
  lemma PlayerNumbersNarrow(m: Player, v: nat, rest: seq<byte>)
    requires v < UINT64
    ensures ParsePlayer(m, EncodeField(VarintField(24, v)) + rest)
         == ParsePlayer(m, EncodeField(VarintField(24, v % UINT32)) + rest)
  {
    FieldsAlike(TakePlayer, m, VarintField(24, v), VarintField(24, v % UINT32), rest);
  }

  lemma RoomNumbersNarrow(m: RoomInfo, tag: byte, v: nat, rest: seq<byte>)
    requires tag in {8, 16} && v < UINT64
    ensures ParseRoom(m, EncodeField(VarintField(tag, v)) + rest)
         == ParseRoom(m, EncodeField(VarintField(tag, v % UINT32)) + rest)
  {
    FieldsAlike(TakeRoom, m, VarintField(tag, v), VarintField(tag, v % UINT32), rest);
  }

  lemma LoginFlagsAreBooleans(m: SLogin, tag: byte, v: nat, rest: seq<byte>)
    requires tag in {8, 16} && 0 < v < UINT64
    ensures ParseLogin(m, EncodeField(VarintField(tag, v)) + rest)
         == ParseLogin(m, EncodeField(VarintField(tag, 1)) + rest)
  {
    FieldsAlike(TakeLogin, m, VarintField(tag, v), VarintField(tag, 1), rest);
  }

  lemma EnterFlagIsBoolean(m: SEnterGame, v: nat, rest: seq<byte>)
    requires 0 < v < UINT64
    ensures ParseEnter(m, EncodeField(VarintField(8, v)) + rest) == ParseEnter(m, EncodeField(VarintField(8, 1)) + rest)
  {
    FieldsAlike(TakeEnter, m, VarintField(8, v), VarintField(8, 1), rest);
  }

  // ----- what is written -----

  lemma PlayerAscends(p: Player)
    ensures Ascending(PlayerFields(p))
  {
  }

  lemma RoomAscends(r: RoomInfo)
    ensures Ascending(RoomFields(r))
  {
  }

  lemma LoginAscends(l: SLogin)
    ensures Ascending(LoginFields(l))
  {
  }

  lemma EnterAscends(e: SEnterGame)
    ensures Ascending(EnterFields(e))
  {
  }

  lemma ChatAscends(c: SChat)
    ensures Ascending(ChatFields(c))
  {
  }

  /** Fields are written in the order of their numbers. */
  lemma FieldsAscend(p: Player, r: RoomInfo, l: SLogin, e: SEnterGame, c: SChat)
    ensures Ascending(PlayerFields(p)) && Ascending(RoomFields(r)) && Ascending(LoginFields(l))
    ensures Ascending(EnterFields(e)) && Ascending(ChatFields(c))
  {
    PlayerAscends(p);
    RoomAscends(r);
    LoginAscends(l);
    EnterAscends(e);
    ChatAscends(c);
  }

  /** Default values are not written: a message is serialized to nothing if and only if it is the default. */
  lemma NothingIsWrittenExactly(p: Player, r: RoomInfo, l: SLogin, e: SEnterGame, c: SChat)
    ensures PlayerBytes(p) == [] <==> p == NO_PLAYER
    ensures RoomBytes(r) == [] <==> r == NO_ROOM
    ensures LoginBytes(l) == [] <==> l == NO_LOGIN
    ensures EnterBytes(e) == [] <==> e == NO_ENTER
    ensures ChatBytes(c) == [] <==> c == NO_CHAT
  {
    EncodeNothing(PlayerFields(p));
    EncodeNothing(RoomFields(r));
    EncodeNothing(LoginFields(l));
    EncodeNothing(EnterFields(e));
    EncodeNothing(ChatFields(c));
  }
}
