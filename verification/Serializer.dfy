/** ByteSizeLong and _InternalSerialize. The size pass leaves the size of every submessage cached;
    the write pass takes its length prefixes from that cache and visits the fields in another order.
    Together they write exactly the bytes `Messages` describes, and exactly as many as announced. */
module Serializer {
  import opened Wire
  import opened Messages

  // ----- sizes -----

  /** The `_cached_size_` members below a message, and its own; a size is cast to 32 bits. */
  datatype RoomSizes = RoomSizes(players: seq<nat>, self: nat)
  datatype LoginSizes = LoginSizes(player: nat, roomInfos: seq<RoomSizes>)
  datatype EnterSizes = EnterSizes(roomInfo: RoomSizes, roomInfos: seq<RoomSizes>)
  datatype ChatSizes = ChatSizes(roomInfo: RoomSizes, player: nat)

  const NO_SIZES := RoomSizes([], 0)

  predicate RoomCached(r: RoomInfo, z: RoomSizes) {
    && z.self == |RoomBytes(r)| % UINT32
    && |z.players| == |r.players|
    && forall i :: 0 <= i < |r.players| ==> z.players[i] == |PlayerBytes(r.players[i])|
  }

  predicate RoomsCached(rs: seq<RoomInfo>, zs: seq<RoomSizes>) {
    |zs| == |rs| && forall i :: 0 <= i < |rs| ==> RoomCached(rs[i], zs[i])
  }

  predicate LoginCached(m: SLogin, z: LoginSizes) {
    (m.player.Some? ==> z.player == |PlayerBytes(m.player.value)|) && RoomsCached(m.roomInfos, z.roomInfos)
  }

  predicate EnterCached(m: SEnterGame, z: EnterSizes) {
    (m.roomInfo.Some? ==> RoomCached(m.roomInfo.value, z.roomInfo)) && RoomsCached(m.roomInfos, z.roomInfos)
  }

  predicate ChatCached(m: SChat, z: ChatSizes) {
    && (m.roomInfo.Some? ==> RoomCached(m.roomInfo.value, z.roomInfo))
    && (m.player.Some? ==> z.player == |PlayerBytes(m.player.value)|)
  }

  /** The length prefix is sized as a 32-bit number. */
  function LengthDelimitedSize(length: nat): nat {
    length + VarintSize(length % UINT32)
  }

  function NumberSize(n: nat): nat { if n != 0 then 1 + VarintSize(n) else 0 }

  lemma NumberSizeOf(tag: byte, n: nat)
    ensures SizeOf(NumberField(tag, n)) == NumberSize(n)
  {
    if n != 0 {
      assert SizeOf([VarintField(tag, n)]) == FieldSize(VarintField(tag, n)) + SizeOf([]);
    }
  }

  lemma FlagSizeOf(tag: byte, b: bool)
    ensures SizeOf(FlagField(tag, b)) == if b then 2 else 0
  {
    if b {
      assert SizeOf([VarintField(tag, 1)]) == 1 + VarintSize(1) + SizeOf([]);
    }
  }

  lemma TextSizeOf(tag: byte, text: seq<byte>)
    requires |text| <= MAX_SIZE
    ensures SizeOf(TextField(tag, text)) == if text != [] then 1 + LengthDelimitedSize(|text|) else 0
  {
    BytesSizeOf(tag, text);
  }

  lemma BytesSizeOf(tag: byte, payload: seq<byte>)
    requires |payload| <= MAX_SIZE
    ensures SizeOf([BytesField(tag, payload)]) == 1 + LengthDelimitedSize(|payload|)
  {
    OneSize(BytesField(tag, payload));
    assert |payload| % UINT32 == |payload|;
  }

  lemma OneSize(f: Field)
    ensures SizeOf([f]) == FieldSize(f)
  {
    assert SizeOf([f]) == FieldSize(f) + SizeOf([]);
  }

  lemma Sizes3(a: seq<Field>, b: seq<Field>, c: seq<Field>)
    requires forall f :: f in a + b + c ==> FieldOk(f)
    ensures |Encode(a + b + c)| == SizeOf(a) + SizeOf(b) + SizeOf(c)
  {
    SizeOfIsLength(a + b + c);
    SizeOfConcat(a + b, c);
    SizeOfConcat(a, b);
  }

  method PlayerByteSize(p: Player) returns (size: nat)
    requires PlayerOk(p)
    ensures size == |PlayerBytes(p)|
  {
    size := 0;
    if p.name != [] {
      size := size + 1 + LengthDelimitedSize(|p.name|);
    }
    size := size + NumberSize(p.id);
    size := size + NumberSize(p.roomId);
    TakePlayerFields(NO_PLAYER, p);
    Sizes3(NumberField(8, p.id), TextField(18, p.name), NumberField(24, p.roomId));
    NumberSizeOf(8, p.id);
    TextSizeOf(18, p.name);
    NumberSizeOf(24, p.roomId);
  }

  lemma OneMorePlayer(ps: seq<Player>, i: nat)
    requires i < |ps|
    ensures PlayersFields(ps[..i + 1]) == PlayersFields(ps[..i]) + [BytesField(26, PlayerBytes(ps[i]))]
  {
  }

  lemma OneMorePlayerSize(ps: seq<Player>, i: nat)
    requires i < |ps| && |PlayerBytes(ps[i])| <= MAX_SIZE
    ensures SizeOf(PlayersFields(ps[..i + 1]))
         == SizeOf(PlayersFields(ps[..i])) + 1 + LengthDelimitedSize(|PlayerBytes(ps[i])|)
  {
    var payload := PlayerBytes(ps[i]);
    OneMorePlayer(ps, i);
    SizeOfConcat(PlayersFields(ps[..i]), [BytesField(26, payload)]);
    BytesSizeOf(26, payload);
  }

  lemma RoomSizeOf(r: RoomInfo)
    requires RoomOk(r)
    ensures |RoomBytes(r)| == NumberSize(r.id) + NumberSize(r.playerCount) + SizeOf(PlayersFields(r.players))
  {
    TakeRoomFields(NO_ROOM, r);
    Sizes3(NumberField(8, r.id), NumberField(16, r.playerCount), PlayersFields(r.players));
    NumberSizeOf(8, r.id);
    NumberSizeOf(16, r.playerCount);
  }

  /** The loop over `players`: a tag each, then the sizes of the submessages. */
  method PlayersByteSize(ps: seq<Player>) returns (size: nat, sizes: seq<nat>)
    requires forall k :: 0 <= k < |ps| ==> PlayerOk(ps[k]) && |PlayerBytes(ps[k])| <= MAX_SIZE
    ensures size == SizeOf(PlayersFields(ps))
    ensures |sizes| == |ps| && forall k :: 0 <= k < |ps| ==> sizes[k] == |PlayerBytes(ps[k])|
  {
    size := |ps|;
    sizes := [];
    for i := 0 to |ps|
      invariant size == |ps| - i + SizeOf(PlayersFields(ps[..i]))
      invariant |sizes| == i && forall k :: 0 <= k < i ==> sizes[k] == |PlayerBytes(ps[k])|
    {
      var one := PlayerByteSize(ps[i]);
      OneMorePlayerSize(ps, i);
      sizes := sizes + [one];
      size := size + LengthDelimitedSize(one);
    }
    assert ps[..|ps|] == ps;
  }

  method RoomByteSize(r: RoomInfo) returns (size: nat, cache: RoomSizes)
    requires RoomOk(r)
    ensures size == |RoomBytes(r)| && RoomCached(r, cache)
  {
    var sizes;
    size, sizes := PlayersByteSize(r.players);
    size := size + NumberSize(r.id);
    size := size + NumberSize(r.playerCount);
    RoomSizeOf(r);
    cache := RoomSizes(sizes, size % UINT32);
  }

  lemma OneMoreRoom(tag: byte, rs: seq<RoomInfo>, i: nat)
    requires i < |rs|
    ensures RoomsFields(tag, rs[..i + 1]) == RoomsFields(tag, rs[..i]) + [BytesField(tag, RoomBytes(rs[i]))]
  {
  }

  lemma OneMoreRoomSize(tag: byte, rs: seq<RoomInfo>, i: nat)
    requires i < |rs| && |RoomBytes(rs[i])| <= MAX_SIZE
    ensures SizeOf(RoomsFields(tag, rs[..i + 1]))
         == SizeOf(RoomsFields(tag, rs[..i])) + 1 + LengthDelimitedSize(|RoomBytes(rs[i])|)
  {
    var payload := RoomBytes(rs[i]);
    OneMoreRoom(tag, rs, i);
    SizeOfConcat(RoomsFields(tag, rs[..i]), [BytesField(tag, payload)]);
    BytesSizeOf(tag, payload);
  }

  /** The loop over a repeated RoomInfo, which S_LOGIN and S_ENTER_GAME both start with. */
  method RoomsByteSize(ghost tag: byte, rs: seq<RoomInfo>) returns (size: nat, cache: seq<RoomSizes>)
    requires RoomsOk(rs)
    ensures size == SizeOf(RoomsFields(tag, rs)) && RoomsCached(rs, cache)
  {
    size, cache := |rs|, [];
    for i := 0 to |rs|
      invariant size == |rs| - i + SizeOf(RoomsFields(tag, rs[..i]))
      invariant |cache| == i && forall k :: 0 <= k < i ==> RoomCached(rs[k], cache[k])
    {
      var one, sizes := RoomByteSize(rs[i]);
      OneMoreRoomSize(tag, rs, i);
      cache := cache + [sizes];
      size := size + LengthDelimitedSize(one);
    }
    assert rs[..|rs|] == rs;
  }

  method LoginByteSize(m: SLogin) returns (size: nat, cache: LoginSizes)
    requires LoginOk(m)
    ensures size == |LoginBytes(m)| && LoginCached(m, cache)
  {
    var roomSizes, player;
    size, roomSizes := RoomsByteSize(34, m.roomInfos);
    player := 0;
    if m.player.Some? {
      player := PlayerByteSize(m.player.value);
      size := size + 1 + LengthDelimitedSize(player);
      BytesSizeOf(26, PlayerBytes(m.player.value));
    }
    if m.success {
      size := size + 1 + 1;
    }
    if m.isNewId {
      size := size + 1 + 1;
    }
    cache := LoginSizes(player, roomSizes);
    LoginFieldsOk(m);
    var flags := FlagField(8, m.success) + FlagField(16, m.isNewId);
    Sizes3(flags, PlayerField(26, m.player), RoomsFields(34, m.roomInfos));
    SizeOfConcat(FlagField(8, m.success), FlagField(16, m.isNewId));
    FlagSizeOf(8, m.success);
    FlagSizeOf(16, m.isNewId);
  }

  method EnterByteSize(m: SEnterGame) returns (size: nat, cache: EnterSizes)
    requires EnterOk(m)
    ensures size == |EnterBytes(m)| && EnterCached(m, cache)
  {
    var roomSizes;
    size, roomSizes := RoomsByteSize(26, m.roomInfos);
    var room := NO_SIZES;
    if m.roomInfo.Some? {
      var one;
      one, room := RoomByteSize(m.roomInfo.value);
      size := size + 1 + LengthDelimitedSize(one);
      BytesSizeOf(18, RoomBytes(m.roomInfo.value));
    }
    if m.success {
      size := size + 1 + 1;
    }
    cache := EnterSizes(room, roomSizes);
    EnterFieldsOk(m);
    Sizes3(FlagField(8, m.success), RoomField(18, m.roomInfo), RoomsFields(26, m.roomInfos));
    FlagSizeOf(8, m.success);
  }

  method ChatByteSize(m: SChat) returns (size: nat, cache: ChatSizes)
    requires ChatOk(m)
    ensures size == |ChatBytes(m)| && ChatCached(m, cache)
  {
    size := 0;
    if m.msg != [] {
      size := size + 1 + LengthDelimitedSize(|m.msg|);
    }
    var room, player := NO_SIZES, 0;
    if m.roomInfo.Some? {
      var one;
      one, room := RoomByteSize(m.roomInfo.value);
      size := size + 1 + LengthDelimitedSize(one);
      BytesSizeOf(10, RoomBytes(m.roomInfo.value));
    }
    if m.player.Some? {
      player := PlayerByteSize(m.player.value);
      size := size + 1 + LengthDelimitedSize(player);
      BytesSizeOf(18, PlayerBytes(m.player.value));
    }
    cache := ChatSizes(room, player);
    ChatFieldsOk(m);
    Sizes3(RoomField(10, m.roomInfo), PlayerField(18, m.player), TextField(26, m.msg));
    TextSizeOf(26, m.msg);
  }

  // ----- writing -----

  /** `b | 0x80`. */
  function WithContinuation(b: byte): byte { if b < 128 then b + 128 else b }

  lemma LowByte(v: nat)
    requires v >= 128
    ensures WithContinuation(v % 256) == v % 128 + 128
  {
  }

  /** UnsafeVarint: the low byte of the value is stored first; its continuation bit is turned on once
      more is seen to follow. */
  method WriteVarint(target: seq<byte>, value: nat) returns (out: seq<byte>)
    ensures out == target + Varint(value)
  {
    var v := value;
    out := target + [v % 256];
    ghost var done := target;
    while v >= 128
      invariant out == done + [v % 256] && done + Varint(v) == target + Varint(value)
      decreases v
    {
      var last := |out| - 1;
      out := out[last := WithContinuation(out[last])];
      LowByte(v);
      assert out == done + [v % 128 + 128];
      Associative(done, [v % 128 + 128], Varint(v / 128));
      done := out;
      v := v / 128;
      out := out + [v % 256];
    }
  }

  method WriteNumber(target: seq<byte>, tag: byte, n: nat) returns (out: seq<byte>)
    ensures out == target + Encode(NumberField(tag, n))
  {
    out := target;
    if n != 0 {
      out := WriteVarint(target + [tag], n);
      EncodeOne(VarintField(tag, n));
    }
  }

  method WriteFlag(target: seq<byte>, tag: byte, b: bool) returns (out: seq<byte>)
    ensures out == target + Encode(FlagField(tag, b))
  {
    out := target;
    if b {
      out := WriteVarint(target + [tag], 1);
      EncodeOne(VarintField(tag, 1));
    }
  }

  method WriteText(target: seq<byte>, tag: byte, text: seq<byte>) returns (out: seq<byte>)
    ensures out == target + Encode(TextField(tag, text))
  {
    out := target;
    if text != [] {
      out := WriteVarint(target + [tag], |text|);
      out := out + text;
      EncodeOne(BytesField(tag, text));
    }
  }

  lemma Append3(target: seq<byte>, a: seq<Field>, b: seq<Field>, c: seq<Field>)
    ensures target + Encode(a) + Encode(b) + Encode(c) == target + Encode(a + b + c)
  {
    EncodeConcat(a + b, c);
    EncodeConcat(a, b);
    Associative(target, Encode(a), Encode(b));
    Associative(target, Encode(a) + Encode(b), Encode(c));
  }

  method SerializePlayer(p: Player, target: seq<byte>) returns (out: seq<byte>)
    ensures out == target + PlayerBytes(p)
  {
    out := WriteNumber(target, 8, p.id);
    out := WriteText(out, 18, p.name);
    out := WriteNumber(out, 24, p.roomId);
    Append3(target, NumberField(8, p.id), TextField(18, p.name), NumberField(24, p.roomId));
  }

  /** InternalWriteMessage: the tag, the cached size, then the submessage. */
  method WritePlayer(target: seq<byte>, tag: byte, p: Player, cached: nat) returns (out: seq<byte>)
    requires cached == |PlayerBytes(p)|
    ensures out == target + EncodeField(BytesField(tag, PlayerBytes(p)))
  {
    out := WriteVarint(target + [tag], cached);
    out := SerializePlayer(p, out);
  }

  lemma AppendOne(target: seq<byte>, fs: seq<Field>, f: Field)
    ensures target + Encode(fs) + EncodeField(f) == target + Encode(fs + [f])
  {
    EncodeConcat(fs, [f]);
    EncodeOne(f);
    Associative(target, Encode(fs), EncodeField(f));
  }

  method SerializeRoom(r: RoomInfo, cache: RoomSizes, target: seq<byte>) returns (out: seq<byte>)
    requires RoomOk(r) && RoomCached(r, cache)
    ensures out == target + RoomBytes(r)
  {
    out := WriteNumber(target, 8, r.id);
    out := WriteNumber(out, 16, r.playerCount);
    ghost var head := out;
    for i := 0 to |r.players|
      invariant out == head + Encode(PlayersFields(r.players[..i]))
    {
      AppendOne(head, PlayersFields(r.players[..i]), BytesField(26, PlayerBytes(r.players[i])));
      OneMorePlayer(r.players, i);
      out := WritePlayer(out, 26, r.players[i], cache.players[i]);
    }
    assert r.players[..|r.players|] == r.players;
    Append3(target, NumberField(8, r.id), NumberField(16, r.playerCount), PlayersFields(r.players));
  }

  method WriteRoom(target: seq<byte>, tag: byte, r: RoomInfo, cache: RoomSizes) returns (out: seq<byte>)
    requires RoomOk(r) && RoomCached(r, cache) && |RoomBytes(r)| <= MAX_SIZE
    ensures out == target + EncodeField(BytesField(tag, RoomBytes(r)))
  {
    out := WriteVarint(target + [tag], cache.self);
    out := SerializeRoom(r, cache, out);
  }

  method WriteOptionalRoom(target: seq<byte>, tag: byte, o: Option<RoomInfo>, cache: RoomSizes) returns (out: seq<byte>)
    requires SubRoomOk(o) && (o.Some? ==> RoomCached(o.value, cache))
    ensures out == target + Encode(RoomField(tag, o))
  {
    out := target;
    if o.Some? {
      out := WriteRoom(target, tag, o.value, cache);
      EncodeOne(BytesField(tag, RoomBytes(o.value)));
    }
  }

  method WriteOptionalPlayer(target: seq<byte>, tag: byte, o: Option<Player>, cached: nat) returns (out: seq<byte>)
    requires o.Some? ==> cached == |PlayerBytes(o.value)|
    ensures out == target + Encode(PlayerField(tag, o))
  {
    out := target;
    if o.Some? {
      out := WritePlayer(target, tag, o.value, cached);
      EncodeOne(BytesField(tag, PlayerBytes(o.value)));
    }
  }

  method WriteRooms(target: seq<byte>, tag: byte, rs: seq<RoomInfo>, cache: seq<RoomSizes>) returns (out: seq<byte>)
    requires RoomsOk(rs) && RoomsCached(rs, cache)
    ensures out == target + Encode(RoomsFields(tag, rs))
  {
    out := target;
    for i := 0 to |rs|
      invariant out == target + Encode(RoomsFields(tag, rs[..i]))
    {
      AppendOne(target, RoomsFields(tag, rs[..i]), BytesField(tag, RoomBytes(rs[i])));
      OneMoreRoom(tag, rs, i);
      out := WriteRoom(out, tag, rs[i], cache[i]);
    }
    assert rs[..|rs|] == rs;
  }

  method SerializeLogin(m: SLogin, cache: LoginSizes, target: seq<byte>) returns (out: seq<byte>)
    requires LoginOk(m) && LoginCached(m, cache)
    ensures out == target + LoginBytes(m)
  {
    out := WriteFlag(target, 8, m.success);
    out := WriteFlag(out, 16, m.isNewId);
    out := WriteOptionalPlayer(out, 26, m.player, cache.player);
    out := WriteRooms(out, 34, m.roomInfos, cache.roomInfos);
    var a, b := FlagField(8, m.success), FlagField(16, m.isNewId);
    var c, d := PlayerField(26, m.player), RoomsFields(34, m.roomInfos);
    Append3(target, a, b, c);
    Append3(target, a + b + c, d, []);
    assert a + b + c + d + [] == a + b + c + d;
  }

  method SerializeEnter(m: SEnterGame, cache: EnterSizes, target: seq<byte>) returns (out: seq<byte>)
    requires EnterOk(m) && EnterCached(m, cache)
    ensures out == target + EnterBytes(m)
  {
    out := WriteFlag(target, 8, m.success);
    out := WriteOptionalRoom(out, 18, m.roomInfo, cache.roomInfo);
    out := WriteRooms(out, 26, m.roomInfos, cache.roomInfos);
    Append3(target, FlagField(8, m.success), RoomField(18, m.roomInfo), RoomsFields(26, m.roomInfos));
  }

  method SerializeChat(m: SChat, cache: ChatSizes, target: seq<byte>) returns (out: seq<byte>)
    requires ChatOk(m) && ChatCached(m, cache)
    ensures out == target + ChatBytes(m)
  {
    out := WriteOptionalRoom(target, 10, m.roomInfo, cache.roomInfo);
    out := WriteOptionalPlayer(out, 18, m.player, cache.player);
    out := WriteText(out, 26, m.msg);
    Append3(target, RoomField(10, m.roomInfo), PlayerField(18, m.player), TextField(26, m.msg));
  }
}
