/** The loops of the generated code: parsing moves a position over the bytes up to the limit,
    serializing appends to a target, ByteSizeLong adds up sizes and leaves them cached. Each method
    is proved against the message functions of `Messages`.

    A message object is a value here: a method that updates one returns the updated value. */
module Codec {
  import opened Wire
  import opened Messages

  // ----- reading -----

  lemma ModAbsorbs(x: int, y: int, m: int)
    requires m == UINT32 || m == UINT64
    ensures (x % m + y) % m == (x + y) % m
  {
  }

  lemma MultipleVanishes(low: int, k: int)
    ensures (low + UINT32 * k) % UINT32 == low % UINT32
  {
  }

  /** The sixth byte and those after it are worth multiples of 2^35. */
  lemma SixthByteVanishes(low: nat, high: nat)
    ensures (low + Pow128(5) * high) % UINT32 == (low + Pow128(5)) % UINT32
  {
    Pow128Of10();
    MultipleVanishes(low, 8 * high);
    MultipleVanishes(low, 8);
  }

  /** The value of `n` bytes worth `low` followed by a last byte, or by one more continued byte. */
  function WithLast(low: nat, n: nat, b: byte): nat { low + Pow128(n) * b }

  function WithMore(low: nat, n: nat, b: byte): nat
    requires b >= 128
  {
    low + Pow128(n) * (b - 128)
  }

  /** A varint whose first `n` bytes are worth `low`, given how the rest reads. */
  function Prefixed(low: nat, n: nat, r: Option<(nat, nat)>): Option<(nat, nat)> {
    match r case None => None case Some(p) => Some((low + Pow128(n) * p.0, n + p.1))
  }

  /** ReadVarint with a moving position in place of a shrinking sequence. */
  function VarintAt(s: seq<byte>, pos: nat, max: nat): Option<(nat, nat)>
    decreases |s| - pos
  {
    if max == 0 || pos >= |s| then None
    else if s[pos] < 128 then Some((s[pos], 1))
    else match VarintAt(s, pos + 1, max - 1)
      case None => None
      case Some(p) => Some((s[pos] - 128 + 128 * p.0, p.1 + 1))
  }

  lemma {:induction false} VarintAtIsReadVarint(s: seq<byte>, pos: nat, max: nat)
    requires pos <= |s|
    ensures VarintAt(s, pos, max) == ReadVarint(s[pos..], max)
    decreases max
  {
    if max > 0 && pos < |s| {
      VarintAtIsReadVarint(s, pos + 1, max - 1);
      assert s[pos..][0] == s[pos] && s[pos..][1..] == s[pos + 1..];
    }
  }

  lemma VarintStep(s: seq<byte>, pos: nat, max: nat, low: nat, n: nat)
    requires pos < |s| && max > 0
    ensures Prefixed(low, n, VarintAt(s, pos, max))
         == if s[pos] < 128 then Some((WithLast(low, n, s[pos]), n + 1))
            else Prefixed(WithMore(low, n, s[pos]), n + 1, VarintAt(s, pos + 1, max - 1))
  {
    var b: int, w := s[pos], Pow128(n);
    if b >= 128 && VarintAt(s, pos + 1, max - 1).Some? {
      var v := VarintAt(s, pos + 1, max - 1).value.0;
      assert w * (b - 128 + 128 * v) == w * (b - 128) + 128 * w * v;
    }
  }

  lemma PrefixedByNothing(r: Option<(nat, nat)>)
    ensures Prefixed(0, 0, r) == r
  {
  }

  lemma ShiftedBack(low: int, w: int, b: int)
    ensures (low + w) + (b - 1) * w == low + w * b
    ensures low + w * b == (low + w * (b - 128)) + 128 * w
  {
  }

  /** `res += (byte - 1) << 7 * i`: takes back the continuation bit of the byte before and, by its
      own high bit, runs one ahead again. */
  method AddByte(res: nat, b: byte, i: nat, modulus: int, ghost low: nat) returns (res': nat)
    requires modulus == UINT32 || modulus == UINT64
    requires if i == 0 then res == low == 0 else res == (low + Pow128(i)) % modulus
    ensures res' == WithLast(low, i, b) % modulus
    ensures b >= 128 ==> res' == (WithMore(low, i, b) + Pow128(i + 1)) % modulus
  {
    var byte: int, w: int := b, Pow128(i);
    ShiftedBack(low, w, byte);
    if i == 0 {
      res' := byte % modulus;
    } else {
      var added := (byte - 1) * w;
      ModAbsorbs(low + w, added, modulus);
      res' := (res + added) % modulus;
    }
  }

  /** The adding loop of VarintParse and its slow paths. A varint cut off by the limit fails. */
  method AddBytes(s: seq<byte>, pos: nat, max: nat, modulus: int, ghost more: nat)
    returns (r: Option<(nat, nat)>, res: nat, ghost low: nat)
    requires pos <= |s| && max > 0 && (modulus == UINT32 || modulus == UINT64)
    ensures r.Some? ==> r == Reduced(VarintAt(s, pos, max + more), pos, modulus)
    ensures r.None? && pos + max > |s| ==> VarintAt(s, pos, max + more) == None
    ensures r.None? && pos + max <= |s| ==>
              && res == (low + Pow128(max)) % modulus
              && VarintAt(s, pos, max + more) == Prefixed(low, max, VarintAt(s, pos + max, more))
  {
    res, low := 0, 0;
    var i := 0;
    PrefixedByNothing(VarintAt(s, pos, max + more));
    while i < max && pos + i < |s|
      invariant 0 <= i <= max && pos + i <= |s|
      invariant if i == 0 then res == low == 0 else res == (low + Pow128(i)) % modulus
      invariant VarintAt(s, pos, max + more) == Prefixed(low, i, VarintAt(s, pos + i, max + more - i))
    {
      var b := s[pos + i];
      VarintStep(s, pos + i, max + more - i, low, i);
      res := AddByte(res, b, i, modulus, low);
      if b < 128 {
        return Some((res, pos + i + 1)), res, low;
      }
      low := WithMore(low, i, b);
      i := i + 1;
    }
    r := None;
  }

  function Reduced(r: Option<(nat, nat)>, pos: nat, modulus: nat): Option<(nat, nat)>
    requires modulus > 0
  {
    match r case None => None case Some(p) => Some((p.0 % modulus, pos + p.1))
  }

  method ReadVarint64(s: seq<byte>, pos: nat) returns (r: Option<(nat, nat)>)
    requires pos <= |s|
    ensures r == Reduced(ReadVarint(s[pos..], 10), pos, UINT64)
  {
    var res; ghost var low;
    r, res, low := AddBytes(s, pos, 10, UINT64, 0);
    VarintAtIsReadVarint(s, pos, 10);
  }

  method ReadTag(s: seq<byte>, pos: nat) returns (r: Option<(nat, nat)>)
    requires pos <= |s|
    ensures r == Reduced(ReadVarint(s[pos..], 5), pos, UINT32)
  {
    var res; ghost var low;
    r, res, low := AddBytes(s, pos, 5, UINT32, 0);
    VarintAtIsReadVarint(s, pos, 5);
  }

  /** VarintParse<uint32_t>: the bytes after the fifth are skipped, not added. */
  method ReadVarint32(s: seq<byte>, pos: nat) returns (r: Option<(nat, nat)>)
    requires pos <= |s|
    ensures r == Reduced(ReadVarint(s[pos..], 10), pos, UINT32)
  {
    var res; ghost var low;
    r, res, low := AddBytes(s, pos, 5, UINT32, 5);
    if r.None? && pos + 5 <= |s| {
      ghost var high;
      r, high := SkipBytes(s, pos, res);
      SixthByteVanishes(low, high);
    }
    VarintAtIsReadVarint(s, pos, 10);
  }

  /** The second loop of VarintParseSlow32. */
  method SkipBytes(s: seq<byte>, pos: nat, res: nat) returns (r: Option<(nat, nat)>, ghost high: nat)
    requires pos + 5 <= |s|
    ensures r.None? ==> VarintAt(s, pos + 5, 5) == None
    ensures r.Some? ==> r.value.0 == res && VarintAt(s, pos + 5, 5) == Some((high, r.value.1 - pos - 5))
  {
    var i := 5;
    high := 0;
    PrefixedByNothing(VarintAt(s, pos + 5, 5));
    while i < 10 && pos + i < |s|
      invariant 5 <= i <= 10 && pos + i <= |s|
      invariant VarintAt(s, pos + 5, 5) == Prefixed(high, i - 5, VarintAt(s, pos + i, 10 - i))
    {
      var b := s[pos + i];
      VarintStep(s, pos + i, 10 - i, high, i - 5);
      if b < 128 {
        high := WithLast(high, i - 5, b);
        return Some((res, pos + i + 1)), high;
      }
      high := WithMore(high, i - 5, b);
      i := i + 1;
    }
    r := None;
  }

  lemma {:induction false} VarintBound(s: seq<byte>, max: nat)
    requires ReadVarint(s, max).Some?
    ensures ReadVarint(s, max).value.0 < Pow128(max)
    decreases max
  {
    if s[0] >= 128 {
      VarintBound(s[1..], max - 1);
    } else {
      assert Pow128(max) == 128 * Pow128(max - 1);
      PowPositive(max - 1);
    }
  }

  lemma {:induction false} PowPositive(i: nat)
    ensures Pow128(i) >= 1
  {
    if i > 0 {
      PowPositive(i - 1);
    }
  }

  method ReadSizeAt(s: seq<byte>, pos: nat) returns (r: Option<(nat, nat)>)
    requires pos <= |s|
    ensures r == match ReadSize(s[pos..]) case None => None case Some(p) => Some((p.0, pos + p.1))
  {
    var res; ghost var low;
    r, res, low := AddBytes(s, pos, 5, UINT64, 0);
    VarintAtIsReadVarint(s, pos, 5);
    if r.Some? {
      VarintBound(s[pos..], 5);
      Pow128Of10();
      if r.value.0 > MAX_SIZE {
        r := None;
      }
    }
  }

  // ----- the pieces of a parse loop -----

  lemma TagAt<M>(take: (M, Field) -> Read<M>, m: M, s: seq<byte>, pos: nat)
    requires pos < |s|
    ensures match Reduced(ReadVarint(s[pos..], 5), pos, UINT32)
            case None => ParseWith(take, m, s[pos..]) == Malformed
            case Some(t) =>
              pos < t.1 <= |s| && ParseWith(take, m, s[pos..]) == ParseAfterTag(take, m, t.0, s[t.1..])
  {
    var r := ReadVarint(s[pos..], 5);
    if r.Some? {
      TagFirst(take, m, s[pos..], r.value.0, r.value.1);
      assert s[pos..][r.value.1..] == s[pos + r.value.1..];
    }
  }

  /** DataAvailable in a submessage: the end of the data, or of the submessage, whichever is first. */
  function Within(dataEnd: int, start: nat, length: nat): (r: int)
    ensures r <= length
  {
    if dataEnd - start <= length then dataEnd - start else length
  }

  function Failed<T, U>(r: Read<T>): Read<U>
    requires !r.Got?
  {
    if r.Malformed? then Malformed else Unusual
  }

  /** The field after a tag at `at` is `f`, and the next one starts at `next`. */
  ghost predicate FieldIs(tag: nat, s: seq<byte>, at: nat, f: Field, next: nat) {
    at < next <= |s| && FieldAfterTag(tag, s[at..]) == Got((f, next - at))
  }

  lemma FieldAt<M>(take: (M, Field) -> Read<M>, m: M, tag: nat, s: seq<byte>, at: nat, f: Field, next: nat)
    requires FieldIs(tag, s, at, f, next)
    ensures ParseAfterTag(take, m, tag, s[at..])
         == match take(m, f)
            case Got(m') => ParseWith(take, m', s[next..])
            case Malformed => Malformed
            case Unusual => Unusual
  {
    assert s[at..][next - at..] == s[next..];
  }

  /** The field after a tag at `at` has been taken: `r` and `pos` are where the parse goes on, or how
      it ends. */
  ghost predicate Goes<M>(take: (M, Field) -> Read<M>, m: M, tag: nat, s: seq<byte>, at: nat, r: Read<M>, pos: nat)
    requires at <= |s|
  {
    if r.Got? then at < pos <= |s| && ParseAfterTag(take, m, tag, s[at..]) == ParseWith(take, r.value, s[pos..])
    else r == ParseAfterTag(take, m, tag, s[at..])
  }

  /** What ExpectTag<tag> sees after an element is a tag the outer loop would have read: going round
      the greedy loop is going round the outer one. */
  lemma NextElement<M>(take: (M, Field) -> Read<M>, m: M, tag: byte, s: seq<byte>, at: nat, f: Field, next: nat)
    requires FieldIs(tag, s, at, f, next) && next < |s| && s[next] == tag < 128
    ensures take(m, f).Got? ==>
              ParseAfterTag(take, m, tag, s[at..]) == ParseAfterTag(take, take(m, f).value, tag, s[next + 1..])
  {
    FieldAt(take, m, tag, s, at, f, next);
    if take(m, f).Got? {
      OneByteTagFirst(take, take(m, f).value, tag, s[next + 1..]);
      assert s[next..] == [tag] + s[next + 1..];
    }
  }

  lemma NarrowsTwice(v: nat)
    ensures v % UINT64 % UINT32 == v % UINT32
  {
  }

  /** A varint field of 64 bits, or one narrowed to 32. */
  method ReadNumber(tag: byte, s: seq<byte>, at: nat, wide: bool) returns (v: nat, next: nat, ok: bool, ghost raw: nat)
    requires at <= |s| && tag >= 8 && tag % 8 == 0
    ensures ok ==> FieldIs(tag, s, at, VarintField(tag, raw), next) && v == if wide then raw else raw % UINT32
    ensures !ok ==> FieldAfterTag(tag, s[at..]) == Malformed
  {
    var r;
    if wide {
      r := ReadVarint64(s, at);
    } else {
      r := ReadVarint32(s, at);
    }
    v, next, ok, raw := 0, at, r.Some?, 0;
    if ok {
      v, next := r.value.0, r.value.1;
      raw := ReadVarint(s[at..], 10).value.0 % UINT64;
      NarrowsTwice(ReadVarint(s[at..], 10).value.0);
    }
  }

  /** A length-delimited field: ReadSize and the check against the enclosing limit. */
  method ReadPayload(tag: byte, s: seq<byte>, at: nat) returns (payload: seq<byte>, next: nat, ok: bool)
    requires at <= |s| && tag >= 8 && tag % 8 == 2
    ensures ok ==> FieldIs(tag, s, at, BytesField(tag, payload), next)
    ensures !ok ==> FieldAfterTag(tag, s[at..]) == Malformed
  {
    payload, next, ok := [], at, false;
    var size := ReadSizeAt(s, at);
    if size.Some? && size.value.1 + size.value.0 <= |s| {
      var (n, start) := size.value;
      assert s[at..][start - at..start - at + n] == s[start..start + n];
      payload, next, ok := s[start..start + n], start + n, true;
    }
  }

  /** A tag no case of the switch took: an end of message or an unknown field. */
  method HandleUnusual(tag: nat, s: seq<byte>, at: nat) returns (malformed: bool)
    requires at <= |s|
    ensures malformed <==> FieldAfterTag(tag, s[at..]).Malformed?
  {
    if tag == 0 || tag % 8 == 4 {
      return true;
    }
    if tag / 8 == 0 || tag % 8 > 5 {
      return true;
    }
    if tag >= 256 || tag % 8 == 1 || tag % 8 == 3 || tag % 8 == 5 {
      return false;
    }
    var ok;
    if tag % 8 == 0 {
      var v, next; ghost var raw;
      v, next, ok, raw := ReadNumber(tag, s, at, true);
    } else {
      var payload, next;
      payload, next, ok := ReadPayload(tag, s, at);
    }
    malformed := !ok;
  }

  // ----- Player -----

  /** A string must be valid UTF-8. */
  method ParsePlayerName(m: Player, s: seq<byte>, at: nat) returns (r: Read<Player>, pos: nat)
    requires at <= |s|
    ensures Goes(TakePlayer, m, 18, s, at, r, pos)
  {
    var name, ok;
    name, pos, ok := ReadPayload(18, s, at);
    if !ok {
      return Malformed, pos;
    }
    FieldAt(TakePlayer, m, 18, s, at, BytesField(18, name), pos);
    r := if ValidUtf8(name) then Got(m.(name := name)) else Malformed;
  }

  method ParsePlayerLoop(m: Player, s: seq<byte>) returns (r: Read<Player>)
    ensures r == ParsePlayer(m, s)
  {
    var msg, pos, ok := m, 0, true;
    ghost var goal := ParseWith(TakePlayer, m, s);
    assert s[0..] == s;
    while pos < |s|
      invariant 0 <= pos <= |s|
      invariant goal == ParseWith(TakePlayer, msg, s[pos..])
      decreases |s| - pos
    {
      TagAt(TakePlayer, msg, s, pos);
      var t := ReadTag(s, pos);
      if t.None? {
        return Malformed;
      }
      var (tag, at) := t.value;
      if tag == 8 || tag == 24 {
        var v; ghost var raw;
        v, pos, ok, raw := ReadNumber(tag, s, at, tag == 8);
        if !ok {
          return Malformed;
        }
        FieldAt(TakePlayer, msg, tag, s, at, VarintField(tag, raw), pos);
        msg := if tag == 8 then msg.(id := v) else msg.(roomId := v);
      } else if tag == 18 {
        var taken;
        taken, pos := ParsePlayerName(msg, s, at);
        if !taken.Got? {
          return taken;
        }
        msg := taken.value;
      } else {
        var malformed := HandleUnusual(tag, s, at);
        return if malformed then Malformed else Unusual;
      }
    }
    r := Got(msg);
  }

  // ----- RoomInfo -----

  /** The greedy loop for the repeated field, the tag of its first element just read. It goes on
      while more data is known to be available (`dataEnd` is where that knowledge ends, anywhere up
      to the limit); the result does not depend on it. */
  method ParseRoomRepeated(m: RoomInfo, s: seq<byte>, at: nat, dataEnd: int) returns (r: Read<RoomInfo>, pos: nat)
    requires at <= |s| && dataEnd <= |s|
    ensures Goes(TakeRoom, m, 26, s, at, r, pos)
  {
    var msg, ok := m, true;
    pos := at;
    ghost var goal := ParseAfterTag(TakeRoom, m, 26, s[at..]);
    while true
      invariant at <= pos <= |s|
      invariant goal == ParseAfterTag(TakeRoom, msg, 26, s[pos..])
      decreases |s| - pos
    {
      var payload, next;
      payload, next, ok := ReadPayload(26, s, pos);
      if !ok {
        return Malformed, pos;
      }
      FieldAt(TakeRoom, msg, 26, s, pos, BytesField(26, payload), next);
      var sub := ParsePlayerLoop(NO_PLAYER, payload);
      if !sub.Got? {
        return Failed(sub), pos;
      }
      if next >= dataEnd || s[next] != 26 {
        return Got(msg.(players := msg.players + [sub.value])), next;
      }
      NextElement(TakeRoom, msg, 26, s, pos, BytesField(26, payload), next);
      msg := msg.(players := msg.players + [sub.value]);
      ghost var tail := s[next + 1..];
      pos := next + 1;
      assert s[pos..] == tail;
    }
  }

  method ParseRoomLoop(m: RoomInfo, s: seq<byte>, dataEnd: int) returns (r: Read<RoomInfo>)
    requires dataEnd <= |s|
    ensures r == ParseRoom(m, s)
  {
    var msg, pos, ok := m, 0, true;
    ghost var goal := ParseWith(TakeRoom, m, s);
    assert s[0..] == s;
    while pos < |s|
      invariant 0 <= pos <= |s|
      invariant goal == ParseWith(TakeRoom, msg, s[pos..])
      decreases |s| - pos
    {
      TagAt(TakeRoom, msg, s, pos);
      var t := ReadTag(s, pos);
      if t.None? {
        return Malformed;
      }
      var (tag, at) := t.value;
      if tag == 8 || tag == 16 {
        var v; ghost var raw;
        v, pos, ok, raw := ReadNumber(tag, s, at, false);
        if !ok {
          return Malformed;
        }
        FieldAt(TakeRoom, msg, tag, s, at, VarintField(tag, raw), pos);
        msg := if tag == 8 then msg.(id := v) else msg.(playerCount := v);
      } else if tag == 26 {
        var repeated;
        repeated, pos := ParseRoomRepeated(msg, s, at, dataEnd);
        if !repeated.Got? {
          return repeated;
        }
        msg := repeated.value;
      } else {
        var malformed := HandleUnusual(tag, s, at);
        return if malformed then Malformed else Unusual;
      }
    }
    r := Got(msg);
  }

  // ----- S_LOGIN, S_ENTER_GAME, S_CHAT -----

  /** The greedy loop for the repeated field, the tag of its first element just read. */
  method ParseLoginRepeated(m: SLogin, s: seq<byte>, at: nat, dataEnd: int) returns (r: Read<SLogin>, pos: nat)
    requires at <= |s| && dataEnd <= |s|
    ensures Goes(TakeLogin, m, 34, s, at, r, pos)
  {
    var msg, ok := m, true;
    pos := at;
    ghost var goal := ParseAfterTag(TakeLogin, m, 34, s[at..]);
    while true
      invariant at <= pos <= |s|
      invariant goal == ParseAfterTag(TakeLogin, msg, 34, s[pos..])
      decreases |s| - pos
    {
      var payload, next;
      payload, next, ok := ReadPayload(34, s, pos);
      if !ok {
        return Malformed, pos;
      }
      FieldAt(TakeLogin, msg, 34, s, pos, BytesField(34, payload), next);
      var sub := ParseRoomLoop(NO_ROOM, payload, Within(dataEnd, next - |payload|, |payload|));
      if !sub.Got? {
        return Failed(sub), pos;
      }
      if next >= dataEnd || s[next] != 34 {
        return Got(msg.(roomInfos := msg.roomInfos + [sub.value])), next;
      }
      NextElement(TakeLogin, msg, 34, s, pos, BytesField(34, payload), next);
      msg := msg.(roomInfos := msg.roomInfos + [sub.value]);
      ghost var tail := s[next + 1..];
      pos := next + 1;
      assert s[pos..] == tail;
    }
  }

  /** ParseMessage on the submessage, merging into the one that is there. */
  method ParseLoginPlayer(m: SLogin, s: seq<byte>, at: nat) returns (r: Read<SLogin>, pos: nat)
    requires at <= |s|
    ensures Goes(TakeLogin, m, 26, s, at, r, pos)
  {
    var payload, ok;
    payload, pos, ok := ReadPayload(26, s, at);
    if !ok {
      return Malformed, pos;
    }
    FieldAt(TakeLogin, m, 26, s, at, BytesField(26, payload), pos);
    var sub := ParsePlayerLoop(OrElse(m.player, NO_PLAYER), payload);
    r := if sub.Got? then Got(m.(player := Some(sub.value))) else Failed(sub);
  }

  method ParseLoginLoop(m: SLogin, s: seq<byte>, dataEnd: int) returns (r: Read<SLogin>)
    requires dataEnd <= |s|
    ensures r == ParseLogin(m, s)
  {
    var msg, pos, ok := m, 0, true;
    ghost var goal := ParseWith(TakeLogin, m, s);
    assert s[0..] == s;
    while pos < |s|
      invariant 0 <= pos <= |s|
      invariant goal == ParseWith(TakeLogin, msg, s[pos..])
      decreases |s| - pos
    {
      TagAt(TakeLogin, msg, s, pos);
      var t := ReadTag(s, pos);
      if t.None? {
        return Malformed;
      }
      var (tag, at) := t.value;
      if tag == 8 || tag == 16 {
        var v; ghost var raw;
        v, pos, ok, raw := ReadNumber(tag, s, at, true);
        if !ok {
          return Malformed;
        }
        FieldAt(TakeLogin, msg, tag, s, at, VarintField(tag, raw), pos);
        msg := if tag == 8 then msg.(success := v != 0) else msg.(isNewId := v != 0);
      } else if tag == 26 {
        var taken;
        taken, pos := ParseLoginPlayer(msg, s, at);
        if !taken.Got? {
          return taken;
        }
        msg := taken.value;
      } else if tag == 34 {
        var repeated;
        repeated, pos := ParseLoginRepeated(msg, s, at, dataEnd);
        if !repeated.Got? {
          return repeated;
        }
        msg := repeated.value;
      } else {
        var malformed := HandleUnusual(tag, s, at);
        return if malformed then Malformed else Unusual;
      }
    }
    r := Got(msg);
  }

  /** The greedy loop for the repeated field, the tag of its first element just read. */
  method ParseEnterRepeated(m: SEnterGame, s: seq<byte>, at: nat, dataEnd: int) returns (r: Read<SEnterGame>, pos: nat)
    requires at <= |s| && dataEnd <= |s|
    ensures Goes(TakeEnter, m, 26, s, at, r, pos)
  {
    var msg, ok := m, true;
    pos := at;
    ghost var goal := ParseAfterTag(TakeEnter, m, 26, s[at..]);
    while true
      invariant at <= pos <= |s|
      invariant goal == ParseAfterTag(TakeEnter, msg, 26, s[pos..])
      decreases |s| - pos
    {
      var payload, next;
      payload, next, ok := ReadPayload(26, s, pos);
      if !ok {
        return Malformed, pos;
      }
      FieldAt(TakeEnter, msg, 26, s, pos, BytesField(26, payload), next);
      var sub := ParseRoomLoop(NO_ROOM, payload, Within(dataEnd, next - |payload|, |payload|));
      if !sub.Got? {
        return Failed(sub), pos;
      }
      if next >= dataEnd || s[next] != 26 {
        return Got(msg.(roomInfos := msg.roomInfos + [sub.value])), next;
      }
      NextElement(TakeEnter, msg, 26, s, pos, BytesField(26, payload), next);
      msg := msg.(roomInfos := msg.roomInfos + [sub.value]);
      ghost var tail := s[next + 1..];
      pos := next + 1;
      assert s[pos..] == tail;
    }
  }

  method ParseEnterRoom(m: SEnterGame, s: seq<byte>, at: nat, dataEnd: int) returns (r: Read<SEnterGame>, pos: nat)
    requires at <= |s| && dataEnd <= |s|
    ensures Goes(TakeEnter, m, 18, s, at, r, pos)
  {
    var payload, ok;
    payload, pos, ok := ReadPayload(18, s, at);
    if !ok {
      return Malformed, pos;
    }
    FieldAt(TakeEnter, m, 18, s, at, BytesField(18, payload), pos);
    var sub := ParseRoomLoop(OrElse(m.roomInfo, NO_ROOM), payload, Within(dataEnd, pos - |payload|, |payload|));
    r := if sub.Got? then Got(m.(roomInfo := Some(sub.value))) else Failed(sub);
  }

  method ParseEnterLoop(m: SEnterGame, s: seq<byte>, dataEnd: int) returns (r: Read<SEnterGame>)
    requires dataEnd <= |s|
    ensures r == ParseEnter(m, s)
  {
    var msg, pos, ok := m, 0, true;
    ghost var goal := ParseWith(TakeEnter, m, s);
    assert s[0..] == s;
    while pos < |s|
      invariant 0 <= pos <= |s|
      invariant goal == ParseWith(TakeEnter, msg, s[pos..])
      decreases |s| - pos
    {
      TagAt(TakeEnter, msg, s, pos);
      var t := ReadTag(s, pos);
      if t.None? {
        return Malformed;
      }
      var (tag, at) := t.value;
      if tag == 8 {
        var v; ghost var raw;
        v, pos, ok, raw := ReadNumber(tag, s, at, true);
        if !ok {
          return Malformed;
        }
        FieldAt(TakeEnter, msg, tag, s, at, VarintField(tag, raw), pos);
        msg := msg.(success := v != 0);
      } else if tag == 18 {
        var taken;
        taken, pos := ParseEnterRoom(msg, s, at, dataEnd);
        if !taken.Got? {
          return taken;
        }
        msg := taken.value;
      } else if tag == 26 {
        var repeated;
        repeated, pos := ParseEnterRepeated(msg, s, at, dataEnd);
        if !repeated.Got? {
          return repeated;
        }
        msg := repeated.value;
      } else {
        var malformed := HandleUnusual(tag, s, at);
        return if malformed then Malformed else Unusual;
      }
    }
    r := Got(msg);
  }

  method ParseChatRoom(m: SChat, s: seq<byte>, at: nat, dataEnd: int) returns (r: Read<SChat>, pos: nat)
    requires at <= |s| && dataEnd <= |s|
    ensures Goes(TakeChat, m, 10, s, at, r, pos)
  {
    var payload, ok;
    payload, pos, ok := ReadPayload(10, s, at);
    if !ok {
      return Malformed, pos;
    }
    FieldAt(TakeChat, m, 10, s, at, BytesField(10, payload), pos);
    var sub := ParseRoomLoop(OrElse(m.roomInfo, NO_ROOM), payload, Within(dataEnd, pos - |payload|, |payload|));
    r := if sub.Got? then Got(m.(roomInfo := Some(sub.value))) else Failed(sub);
  }

  method ParseChatPlayer(m: SChat, s: seq<byte>, at: nat) returns (r: Read<SChat>, pos: nat)
    requires at <= |s|
    ensures Goes(TakeChat, m, 18, s, at, r, pos)
  {
    var payload, ok;
    payload, pos, ok := ReadPayload(18, s, at);
    if !ok {
      return Malformed, pos;
    }
    FieldAt(TakeChat, m, 18, s, at, BytesField(18, payload), pos);
    var sub := ParsePlayerLoop(OrElse(m.player, NO_PLAYER), payload);
    r := if sub.Got? then Got(m.(player := Some(sub.value))) else Failed(sub);
  }

  method ParseChatText(m: SChat, s: seq<byte>, at: nat) returns (r: Read<SChat>, pos: nat)
    requires at <= |s|
    ensures Goes(TakeChat, m, 26, s, at, r, pos)
  {
    var text, ok;
    text, pos, ok := ReadPayload(26, s, at);
    if !ok {
      return Malformed, pos;
    }
    FieldAt(TakeChat, m, 26, s, at, BytesField(26, text), pos);
    r := if ValidUtf8(text) then Got(m.(msg := text)) else Malformed;
  }

  method ParseChatLoop(m: SChat, s: seq<byte>, dataEnd: int) returns (r: Read<SChat>)
    requires dataEnd <= |s|
    ensures r == ParseChat(m, s)
  {
    var msg, pos := m, 0;
    ghost var goal := ParseWith(TakeChat, m, s);
    assert s[0..] == s;
    while pos < |s|
      invariant 0 <= pos <= |s|
      invariant goal == ParseWith(TakeChat, msg, s[pos..])
      decreases |s| - pos
    {
      TagAt(TakeChat, msg, s, pos);
      var t := ReadTag(s, pos);
      if t.None? {
        return Malformed;
      }
      var (tag, at) := t.value;
      if tag == 10 {
        var taken;
        taken, pos := ParseChatRoom(msg, s, at, dataEnd);
        if !taken.Got? {
          return taken;
        }
        msg := taken.value;
      } else if tag == 18 {
        var taken;
        taken, pos := ParseChatPlayer(msg, s, at);
        if !taken.Got? {
          return taken;
        }
        msg := taken.value;
      } else if tag == 26 {
        var taken;
        taken, pos := ParseChatText(msg, s, at);
        if !taken.Got? {
          return taken;
        }
        msg := taken.value;
      } else {
        var malformed := HandleUnusual(tag, s, at);
        return if malformed then Malformed else Unusual;
      }
    }
    r := Got(msg);
  }
}
