/** The Protocol Buffers wire format (Encoding specification, sections "Base 128 Varints", "Message
    Structure" and "Length-Delimited Records"), as the generated code and parse_context.h/.cc read
    it. A message is a run of fields; `ParseWith` folds them into a message, whatever the message. */
module Wire {
  import opened Bits
  type byte = x: int | 0 <= x < 256

  datatype Option<+T> = None | Some(value: T)

  const UINT32 := 0x1_0000_0000
  const UINT64 := 0x1_0000_0000_0000_0000
  /** ReadSize refuses lengths closer to INT_MAX than the slop region. */
  const MAX_SIZE := 0x7FFF_FFFF - 16

  // ----- varints -----

  /** Seven bits a byte, least significant first, the high bit meaning that more follow. */
  function Varint(v: nat): (s: seq<byte>)
    ensures |s| >= 1
    decreases v
  {
    if v < 128 then [v] else [v % 128 + 128] + Varint(v / 128)
  }

  /** Value and length of the varint at the front, if it ends within `max` bytes. */
  function ReadVarint(s: seq<byte>, max: nat): (r: Option<(nat, nat)>)
    ensures r.Some? ==> 1 <= r.value.1 <= |s| && r.value.1 <= max
    decreases |s|
  {
    if max == 0 || s == [] then None
    else if s[0] < 128 then Some((s[0], 1))
    else match ReadVarint(s[1..], max - 1)
      case None => None
      case Some((v, n)) => Some((s[0] - 128 + 128 * v, n + 1))
  }

  function Pow128(i: nat): nat { if i == 0 then 1 else 128 * Pow128(i - 1) }

  lemma FitsBelow(v: nat, max: nat)
    requires v < Pow128(max) && v >= 128
    ensures max > 1 && v / 128 < Pow128(max - 1) && v == v % 128 + 128 * (v / 128)
  {
    assert Pow128(0) == 1 && Pow128(1) == 128 * Pow128(0);
  }

  lemma Associative<T>(a: seq<T>, b: seq<T>, c: seq<T>)
    ensures a + b + c == a + (b + c)
  {
  }

  lemma ReadContinued(b: byte, s: seq<byte>, max: nat, v: nat, n: nat)
    requires b >= 128 && max > 0 && ReadVarint(s, max - 1) == Some((v, n))
    ensures ReadVarint([b] + s, max) == Some((b - 128 + 128 * v, n + 1))
  {
    assert ([b] + s)[1..] == s;
  }

  lemma {:induction false} ReadVarintOfVarint(v: nat, max: nat, rest: seq<byte>)
    requires max > 0 && v < Pow128(max)
    ensures |Varint(v)| <= max
    ensures ReadVarint(Varint(v) + rest, max) == Some((v, |Varint(v)|))
    decreases v
  {
    if v < 128 {
      assert ([v] + rest)[0] == v;
    } else {
      var low, high := v % 128, v / 128;
      FitsBelow(v, max);
      ReadVarintOfVarint(high, max - 1, rest);
      ReadContinued(low + 128, Varint(high) + rest, max, high, |Varint(high)|);
      Associative([low + 128], Varint(high), rest);
    }
  }

  /** What a longer input adds cannot change a varint that has already ended. */
  lemma {:induction false} ReadVarintPrefix(a: seq<byte>, b: seq<byte>, max: nat)
    requires ReadVarint(a, max).Some?
    ensures ReadVarint(a + b, max) == ReadVarint(a, max)
    decreases max
  {
    if a[0] >= 128 {
      ReadVarintPrefix(a[1..], b, max - 1);
      assert (a + b)[1..] == a[1..] + b;
    }
  }

  // ----- sizes -----

  /** `value | 1`. */
  function OrOne(v: nat): nat { if v % 2 == 0 then v + 1 else v }

  /** CodedOutputStream::VarintSize64, a multiplication in place of a division by seven. */
  function VarintSize(v: nat): nat {
    (Log2(OrOne(v)) * 9 + 73) / 64
  }

  lemma Log2Of128(n: nat)
    requires n >= 128
    ensures Log2(n) == 7 + Log2(n / 128)
  {
    assert Log2(n) == 1 + Log2(n / 2) == 2 + Log2(n / 2 / 2) == 3 + Log2(n / 2 / 2 / 2);
    var m := n / 2 / 2 / 2;
    assert Log2(m) == 1 + Log2(m / 2) == 2 + Log2(m / 2 / 2) == 3 + Log2(m / 2 / 2 / 2);
    assert Log2(m / 2 / 2 / 2) == 1 + Log2(m / 2 / 2 / 2 / 2);
    assert m / 2 / 2 / 2 / 2 == n / 128;
  }

  lemma {:induction false} VarintLengthIsLog(v: nat)
    ensures |Varint(v)| == Log2(OrOne(v)) / 7 + 1
    decreases v
  {
    if v >= 128 {
      VarintLengthIsLog(v / 128);
      Log2Of128(OrOne(v));
      Log2OfOrOne(v / 128);
      assert OrOne(v) / 128 == v / 128;
    } else {
      SmallLog2(OrOne(v), 7);
    }
  }

  lemma Log2OfOrOne(v: nat)
    requires v > 0
    ensures Log2(v) == Log2(OrOne(v))
  {
    assert OrOne(v) / 2 == v / 2;
  }

  lemma {:induction false} SmallLog2(n: nat, k: nat)
    requires 0 < n < Pow2(k)
    ensures Log2(n) < k
  {
    if n > 1 {
      SmallLog2(n / 2, k - 1);
    }
  }

  /** The size the generated code computes is the length of what it writes. */
  lemma VarintSizeIsLength(v: nat)
    requires v < UINT64
    ensures VarintSize(v) == |Varint(v)|
  {
    VarintLengthIsLog(v);
    Pow2Of64();
    SmallLog2(OrOne(v), 64);
    SevenBySixtyFour(Log2(OrOne(v)));
  }

  lemma SevenBySixtyFour(l: nat)
    requires l < 64
    ensures (l * 9 + 73) / 64 == l / 7 + 1
  {
  }

  // ----- fields -----

  /** Every field of these messages has a one-byte tag and wire type 0 or 2. */
  datatype Field = VarintField(tag: byte, value: nat) | BytesField(tag: byte, payload: seq<byte>)

  predicate FieldOk(f: Field) {
    match f
    case VarintField(tag, v) => 8 <= tag < 128 && tag % 8 == 0 && v < UINT64
    case BytesField(tag, payload) => 8 <= tag < 128 && tag % 8 == 2 && |payload| <= MAX_SIZE
  }

  function EncodeField(f: Field): seq<byte> {
    match f
    case VarintField(tag, v) => [tag] + Varint(v)
    case BytesField(tag, payload) => [tag] + Varint(|payload|) + payload
  }

  function Encode(fs: seq<Field>): seq<byte> {
    if fs == [] then [] else EncodeField(fs[0]) + Encode(fs[1..])
  }

  function FieldSize(f: Field): nat {
    match f
    case VarintField(_, v) => 1 + VarintSize(v)
    case BytesField(_, payload) => 1 + VarintSize(|payload|) + |payload|
  }

  lemma FieldSizeIsLength(f: Field)
    requires FieldOk(f)
    ensures FieldSize(f) == |EncodeField(f)|
  {
    VarintSizeIsLength(if f.VarintField? then f.value else |f.payload|);
  }

  lemma {:induction false} EncodeConcat(a: seq<Field>, b: seq<Field>)
    ensures Encode(a + b) == Encode(a) + Encode(b)
  {
    if a == [] {
      assert a + b == b;
    } else {
      var head := EncodeField(a[0]);
      calc {
        Encode(a + b);
        { assert (a + b)[0] == a[0] && (a + b)[1..] == a[1..] + b; }
        head + Encode(a[1..] + b);
        { EncodeConcat(a[1..], b); }
        head + (Encode(a[1..]) + Encode(b));
        { Associative(head, Encode(a[1..]), Encode(b)); }
        head + Encode(a[1..]) + Encode(b);
        Encode(a) + Encode(b);
      }
    }
  }

  function SizeOf(fs: seq<Field>): nat {
    if fs == [] then 0 else FieldSize(fs[0]) + SizeOf(fs[1..])
  }

  lemma {:induction false} SizeOfIsLength(fs: seq<Field>)
    requires forall f :: f in fs ==> FieldOk(f)
    ensures SizeOf(fs) == |Encode(fs)|
  {
    if fs != [] {
      FieldSizeIsLength(fs[0]);
      SizeOfIsLength(fs[1..]);
    }
  }

  lemma {:induction false} SizeOfConcat(a: seq<Field>, b: seq<Field>)
    ensures SizeOf(a + b) == SizeOf(a) + SizeOf(b)
  {
    if a == [] {
      assert a + b == b;
    } else {
      SizeOfConcat(a[1..], b);
      assert (a + b)[0] == a[0] && (a + b)[1..] == a[1..] + b;
    }
  }

  lemma EncodeOne(f: Field)
    ensures Encode([f]) == EncodeField(f)
  {
    assert Encode([f]) == EncodeField(f) + Encode([]);
  }

  /** Outcome of reading: `Unusual` is an unknown field, which this model does not follow. */
  datatype Read<+T> = Got(value: T) | Malformed | Unusual

  /** A length that leaves the enclosing limit makes the whole parse fail. */
  function ReadSize(s: seq<byte>): (r: Option<(nat, nat)>)
    ensures r.Some? ==> 1 <= r.value.1 <= |s|
  {
    match ReadVarint(s, 5)
    case Some((size, n)) => if size <= MAX_SIZE then Some((size, n)) else None
    case None => None
  }

  /** The field whose tag has just been read. Tag 0 and an end-group tag leave `last_tag_minus_1_`
      set, which every caller of these messages takes for a failure; field number 0 and the wire
      types 6 and 7 fail. */
  function FieldAfterTag(tag: nat, s: seq<byte>): (r: Read<(Field, nat)>)
    ensures r.Got? ==> 1 <= r.value.1 <= |s|
  {
    if tag < 8 || tag % 8 == 4 || tag % 8 > 5 then Malformed
    else if tag >= 256 then Unusual
    else if tag % 8 == 0 then
      match ReadVarint(s, 10)
      case None => Malformed
      case Some((v, k)) => Got((VarintField(tag, v % UINT64), k))
    else if tag % 8 == 2 then
      match ReadSize(s)
      case None => Malformed
      case Some((size, k)) =>
        if k + size > |s| then Malformed else Got((BytesField(tag, s[k..k + size]), k + size))
    else Unusual
  }

  /** The field at the front, and its length. */
  function NextField(s: seq<byte>): (r: Read<(Field, nat)>)
    ensures r.Got? ==> 2 <= r.value.1 <= |s|
  {
    match ReadVarint(s, 5)
    case None => Malformed
    case Some((raw, n)) =>
      match FieldAfterTag(raw % UINT32, s[n..])
      case Got((f, k)) => Got((f, n + k))
      case Malformed => Malformed
      case Unusual => Unusual
  }

  lemma Pow128Of10()
    ensures Pow128(5) == 0x8_0000_0000 && Pow128(10) > UINT64
  {
    assert Pow128(5) == 128 * 128 * 128 * 128 * 128;
    assert Pow128(10) == 128 * 128 * 128 * 128 * 128 * Pow128(5);
  }

  lemma ReadSizeOfSize(size: nat, rest: seq<byte>)
    requires size <= MAX_SIZE
    ensures ReadSize(Varint(size) + rest) == Some((size, |Varint(size)|))
  {
    Pow128Of10();
    ReadVarintOfVarint(size, 5, rest);
  }

  lemma AfterVarintTag(tag: byte, v: nat, rest: seq<byte>)
    requires FieldOk(VarintField(tag, v))
    ensures FieldAfterTag(tag, Varint(v) + rest) == Got((VarintField(tag, v), |Varint(v)|))
  {
    Pow128Of10();
    ReadVarintOfVarint(v, 10, rest);
  }

  lemma AfterBytesTag(tag: byte, payload: seq<byte>, rest: seq<byte>)
    requires FieldOk(BytesField(tag, payload))
    ensures FieldAfterTag(tag, Varint(|payload|) + (payload + rest))
         == Got((BytesField(tag, payload), |Varint(|payload|)| + |payload|))
  {
    var prefix := Varint(|payload|);
    ReadSizeOfSize(|payload|, payload + rest);
    assert (prefix + (payload + rest))[|prefix|..|prefix| + |payload|] == payload;
  }

  /** A one-byte tag reads as itself. */
  lemma OneByteTag(tag: byte, s: seq<byte>)
    requires tag < 128
    ensures NextField([tag] + s)
         == match FieldAfterTag(tag, s)
            case Got((f, k)) => Got((f, 1 + k))
            case Malformed => Malformed
            case Unusual => Unusual
  {
    assert ([tag] + s)[1..] == s;
    assert ReadVarint([tag] + s, 5) == Some((tag, 1));
  }

  lemma NextFieldOfEncoded(f: Field, rest: seq<byte>)
    requires FieldOk(f)
    ensures NextField(EncodeField(f) + rest) == Got((f, |EncodeField(f)|))
  {
    match f
    case VarintField(tag, v) =>
      AfterVarintTag(tag, v, rest);
      OneByteTag(tag, Varint(v) + rest);
      Associative([tag], Varint(v), rest);
    case BytesField(tag, payload) =>
      AfterBytesTag(tag, payload, rest);
      OneByteTag(tag, Varint(|payload|) + (payload + rest));
      Associative([tag], Varint(|payload|), payload + rest);
      Associative([tag] + Varint(|payload|), payload, rest);
  }

  // ----- fields cut off -----

  /** A varint cut off before its last byte does not read. */
  lemma {:induction false} CutVarint(v: nat, k: nat, max: nat)
    requires k < |Varint(v)|
    ensures ReadVarint(Varint(v)[..k], max).None?
    decreases v
  {
    if k > 0 && max > 0 {
      var more := Varint(v / 128);
      CutVarint(v / 128, k - 1, max - 1);
      assert Varint(v)[..k][1..] == more[..k - 1] && Varint(v)[..k][0] == v % 128 + 128;
    }
  }

  lemma CutNumber(tag: byte, v: nat, k: nat)
    requires FieldOk(VarintField(tag, v)) && k < |Varint(v)|
    ensures FieldAfterTag(tag, Varint(v)[..k]).Malformed?
  {
    CutVarint(v, k, 10);
  }

  lemma CutPrefix(tag: byte, payload: seq<byte>, k: nat)
    requires FieldOk(BytesField(tag, payload)) && k < |Varint(|payload|)|
    ensures FieldAfterTag(tag, Varint(|payload|)[..k]).Malformed?
  {
    CutVarint(|payload|, k, 5);
  }

  lemma CutPayload(tag: byte, payload: seq<byte>, k: nat)
    requires FieldOk(BytesField(tag, payload)) && k < |payload|
    ensures FieldAfterTag(tag, Varint(|payload|) + payload[..k]).Malformed?
  {
    ReadSizeOfSize(|payload|, payload[..k]);
    TooFewBytes(tag, Varint(|payload|) + payload[..k], |payload|, |Varint(|payload|)|);
  }

  lemma TooFewBytes(tag: byte, s: seq<byte>, size: nat, n: nat)
    requires 8 <= tag < 128 && tag % 8 == 2 && ReadSize(s) == Some((size, n)) && n + size > |s|
    ensures FieldAfterTag(tag, s).Malformed?
  {
  }

  lemma CutInTwo<T>(a: seq<T>, b: seq<T>, k: nat)
    requires k <= |a + b|
    ensures (a + b)[..k] == if k <= |a| then a[..k] else a + b[..k - |a|]
  {
  }

  /** A field whose tag is there and whose rest is cut off is refused. */
  lemma CutAfterTag(f: Field, k: nat)
    requires FieldOk(f) && k < |Behind(f)|
    ensures FieldAfterTag(f.tag, Behind(f)[..k]).Malformed?
  {
    match f
    case VarintField(tag, v) => CutNumber(tag, v, k);
    case BytesField(tag, payload) =>
      var prefix := Varint(|payload|);
      CutInTwo(prefix, payload, k);
      if k < |prefix| {
        CutPrefix(tag, payload, k);
      } else {
        assert k == |prefix| ==> prefix[..k] == prefix + payload[..0];
        CutPayload(tag, payload, k - |prefix|);
      }
  }

  /** A field's bytes behind its tag. */
  function Behind(f: Field): seq<byte> {
    match f
    case VarintField(_, v) => Varint(v)
    case BytesField(_, payload) => Varint(|payload|) + payload
  }

  lemma TagThenRest(f: Field)
    ensures EncodeField(f) == [f.tag] + Behind(f)
  {
    if f.BytesField? {
      Associative([f.tag], Varint(|f.payload|), f.payload);
    }
  }

  /** A field cut off anywhere is refused. */
  lemma CutFieldIsRefused(f: Field, k: nat)
    requires FieldOk(f) && 0 < k < |EncodeField(f)|
    ensures NextField(EncodeField(f)[..k]).Malformed?
  {
    TagThenRest(f);
    CutInTwo([f.tag], Behind(f), k);
    CutAfterTag(f, k - 1);
    OneByteTag(f.tag, Behind(f)[..k - 1]);
    assert k == 1 ==> [f.tag][..1] == [f.tag] + Behind(f)[..0];
  }

  lemma BytesAfterTag(tag: nat, s: seq<byte>, f: Field, k: nat) returns (j: nat)
    requires FieldAfterTag(tag, s) == Got((f, k)) && f.BytesField?
    ensures f.tag == tag && ReadVarint(s, 5) == Some((|f.payload|, j))
    ensures k == j + |f.payload| <= |s| && f.payload == s[j..k]
  {
    j := ReadVarint(s, 5).value.1;
  }

  lemma NumberAfterTag(tag: nat, s: seq<byte>, f: Field, k: nat)
    requires FieldAfterTag(tag, s) == Got((f, k)) && f.VarintField?
    ensures f.tag == tag && ReadVarint(s, 10).Some? && k == ReadVarint(s, 10).value.1 <= |s|
    ensures f.value == ReadVarint(s, 10).value.0 % UINT64
  {
  }

  /** What is behind the tag of a field that was read, and how far it goes. */
  lemma TagOfField(s: seq<byte>, f: Field, n: nat) returns (raw: nat, k: nat)
    requires NextField(s) == Got((f, n))
    ensures ReadVarint(s, 5) == Some((raw, k)) && k < n <= |s|
    ensures FieldAfterTag(raw % UINT32, s[k..]) == Got((f, n - k))
  {
    raw, k := ReadVarint(s, 5).value.0, ReadVarint(s, 5).value.1;
  }

  /** Of any bytes whatever: a length-delimited field that is read lies within them, behind its tag and a
      length prefix that says exactly how long it is. */
  lemma ReadBytesAreWhole(s: seq<byte>, f: Field, n: nat) returns (raw: nat, k: nat, j: nat)
    requires NextField(s) == Got((f, n)) && f.BytesField?
    ensures ReadVarint(s, 5) == Some((raw, k)) && f.tag == raw % UINT32 && k <= n <= |s|
    ensures ReadVarint(s[k..], 5) == Some((|f.payload|, j))
    ensures n == k + j + |f.payload| && f.payload == s[k + j..n]
  {
    raw, k := TagOfField(s, f, n);
    j := BytesAfterTag(raw % UINT32, s[k..], f, n - k);
    assert s[k..][j..n - k] == s[k + j..n];
  }

  /** And a number that is read is the varint behind its tag. */
  lemma ReadNumbersAreWhole(s: seq<byte>, f: Field, n: nat) returns (raw: nat, k: nat)
    requires NextField(s) == Got((f, n)) && f.VarintField?
    ensures ReadVarint(s, 5) == Some((raw, k)) && f.tag == raw % UINT32 && k <= n <= |s|
    ensures var number := ReadVarint(s[k..], 10);
            number.Some? && f.value == number.value.0 % UINT64 && n == k + number.value.1
  {
    raw, k := TagOfField(s, f, n);
    NumberAfterTag(raw % UINT32, s[k..], f, n - k);
  }

  // ----- parsing any message -----

  /** The generated parse loop: until the limit, read a field and let the message take it. */
  function ParseWith<M>(take: (M, Field) -> Read<M>, m: M, s: seq<byte>): Read<M>
    decreases |s|
  {
    if s == [] then Got(m)
    else match NextField(s)
      case Malformed => Malformed
      case Unusual => Unusual
      case Got((f, n)) =>
        match take(m, f)
        case Got(m') => ParseWith(take, m', s[n..])
        case Malformed => Malformed
        case Unusual => Unusual
  }

  /** The rest of a parse whose next tag has already been read. */
  function ParseAfterTag<M>(take: (M, Field) -> Read<M>, m: M, tag: nat, s: seq<byte>): Read<M> {
    match FieldAfterTag(tag, s)
    case Malformed => Malformed
    case Unusual => Unusual
    case Got((f, n)) =>
      match take(m, f)
      case Got(m') => ParseWith(take, m', s[n..])
      case Malformed => Malformed
      case Unusual => Unusual
  }

  /** Splitting a parse after the tag it starts with, `n` bytes long. */
  lemma TagFirst<M>(take: (M, Field) -> Read<M>, m: M, s: seq<byte>, raw: nat, n: nat)
    requires ReadVarint(s, 5) == Some((raw, n))
    ensures ParseWith(take, m, s) == ParseAfterTag(take, m, raw % UINT32, s[n..])
  {
    NextFieldSplits(s, raw, n);
    match FieldAfterTag(raw % UINT32, s[n..])
    case Got((f, k)) =>
      DropTwice(s, n, k);
      ParseByField(take, m, s, f, n + k);
    case Malformed =>
    case Unusual =>
  }

  lemma ParseByField<M>(take: (M, Field) -> Read<M>, m: M, s: seq<byte>, f: Field, n: nat)
    requires NextField(s) == Got((f, n)) && n <= |s|
    ensures ParseWith(take, m, s)
         == match take(m, f)
            case Got(m') => ParseWith(take, m', s[n..])
            case Malformed => Malformed
            case Unusual => Unusual
  {
  }

  lemma DropTwice<T>(s: seq<T>, i: nat, j: nat)
    requires i + j <= |s|
    ensures s[i..][j..] == s[i + j..]
  {
  }

  lemma NextFieldSplits(s: seq<byte>, raw: nat, n: nat)
    requires ReadVarint(s, 5) == Some((raw, n))
    ensures var field := FieldAfterTag(raw % UINT32, s[n..]);
            NextField(s) == if field.Got? then Got((field.value.0, n + field.value.1))
                            else if field.Malformed? then Malformed else Unusual
  {
  }

  lemma OneByteTagFirst<M>(take: (M, Field) -> Read<M>, m: M, tag: byte, s: seq<byte>)
    requires tag < 128
    ensures ParseWith(take, m, [tag] + s) == ParseAfterTag(take, m, tag, s)
  {
    OneByteTag(tag, s);
    var field := FieldAfterTag(tag, s);
    if field.Got? {
      assert ([tag] + s)[1 + field.value.1..] == s[field.value.1..];
    }
  }

  function TakeAll<M>(take: (M, Field) -> Read<M>, m: M, fs: seq<Field>): Read<M> {
    if fs == [] then Got(m)
    else match take(m, fs[0])
      case Got(m') => TakeAll(take, m', fs[1..])
      case Malformed => Malformed
      case Unusual => Unusual
  }

  /** Parsing what was encoded is taking the fields one by one, whatever follows. */
  lemma {:induction false} ParseOfEncoded<M>(take: (M, Field) -> Read<M>, m: M, fs: seq<Field>, rest: seq<byte>)
    requires forall f :: f in fs ==> FieldOk(f)
    ensures ParseWith(take, m, Encode(fs) + rest)
         == match TakeAll(take, m, fs)
            case Got(m') => ParseWith(take, m', rest)
            case Malformed => Malformed
            case Unusual => Unusual
    decreases |fs|
  {
    if fs == [] {
      assert Encode(fs) + rest == rest;
    } else {
      var head, tail := EncodeField(fs[0]), Encode(fs[1..]) + rest;
      NextFieldOfEncoded(fs[0], tail);
      Associative(head, Encode(fs[1..]), rest);
      assert (head + tail)[|head|..] == tail;
      if take(m, fs[0]).Got? {
        ParseOfEncoded(take, take(m, fs[0]).value, fs[1..], rest);
      }
    }
  }

  lemma {:induction false} TakeAllConcat<M>(take: (M, Field) -> Read<M>, m: M, a: seq<Field>, b: seq<Field>)
    ensures TakeAll(take, m, a + b)
         == match TakeAll(take, m, a)
            case Got(m') => TakeAll(take, m', b)
            case Malformed => Malformed
            case Unusual => Unusual
    decreases |a|
  {
    if a == [] {
      assert a + b == b;
    } else {
      assert (a + b)[1..] == a[1..] + b;
      if take(m, a[0]).Got? {
        TakeAllConcat(take, take(m, a[0]).value, a[1..], b);
      }
    }
  }

  /** A repeated field: taking one encoded element after the other appends them all, unless one of
      them is refused. */
  lemma {:induction false} TakeRepeated<M(!new), E(!new)>(
      take: (M, Field) -> Read<M>, append: (M, seq<E>) -> M, ok: E -> bool,
      m: M, es: seq<E>, fs: seq<Field>)
    requires |fs| == |es|
    requires forall x: M, i :: 0 <= i < |es| ==>
               take(x, fs[i]) == if ok(es[i]) then Got(append(x, [es[i]])) else Malformed
    requires forall x: M :: append(x, []) == x
    requires forall x: M, a: seq<E>, b: seq<E> :: append(append(x, a), b) == append(x, a + b)
    ensures TakeAll(take, m, fs) == if forall e :: e in es ==> ok(e) then Got(append(m, es)) else Malformed
    decreases |fs|
  {
    if es == [] {
      assert es == [];
    } else {
      assert es == [es[0]] + es[1..];
      assert take(m, fs[0]) == if ok(es[0]) then Got(append(m, [es[0]])) else Malformed;
      if ok(es[0]) {
        var m' := append(m, [es[0]]);
        TakeRepeated(take, append, ok, m', es[1..], fs[1..]);
        assert append(m', es[1..]) == append(m, es);
      }
      assert (forall e :: e in es ==> ok(e)) <==> ok(es[0]) && forall e :: e in es[1..] ==> ok(e);
    }
  }

  // ----- encodings cut off -----

  /** How many fields lie whole within the first `n` bytes. */
  function WholeFields(fs: seq<Field>, n: nat): (i: nat)
    ensures i <= |fs|
  {
    if fs == [] || n < |EncodeField(fs[0])| then 0 else 1 + WholeFields(fs[1..], n - |EncodeField(fs[0])|)
  }

  lemma EncodeFirst(fs: seq<Field>, i: nat)
    requires 1 <= i <= |fs|
    ensures Encode(fs[..i]) == EncodeField(fs[0]) + Encode(fs[1..][..i - 1])
    ensures |Encode(fs[..i])| == |EncodeField(fs[0])| + |Encode(fs[1..][..i - 1])|
  {
    assert fs[..i][1..] == fs[1..][..i - 1];
  }

  /** `i` fields fit within `n` bytes, and no more. */
  predicate Fit(fs: seq<Field>, n: nat, i: nat) {
    i <= |fs| && |Encode(fs[..i])| <= n && (i < |fs| ==> n < |Encode(fs[..i + 1])|)
  }

  lemma OneMoreFits(fs: seq<Field>, n: nat, i: nat)
    requires fs != [] && n >= |EncodeField(fs[0])| && Fit(fs[1..], n - |EncodeField(fs[0])|, i)
    ensures Fit(fs, n, i + 1)
  {
    EncodeFirst(fs, i + 1);
    if i + 1 < |fs| {
      EncodeFirst(fs, i + 2);
    }
  }

  lemma {:induction false} WholeFieldsFit(fs: seq<Field>, n: nat)
    ensures Fit(fs, n, WholeFields(fs, n))
    decreases |fs|
  {
    if fs == [] {
    } else if n < |EncodeField(fs[0])| {
      EncodeFirst(fs, 1);
    } else {
      WholeFieldsFit(fs[1..], n - |EncodeField(fs[0])|);
      OneMoreFits(fs, n, WholeFields(fs[1..], n - |EncodeField(fs[0])|));
    }
  }

  lemma ParseFirst<M>(take: (M, Field) -> Read<M>, m: M, f: Field, rest: seq<byte>)
    requires FieldOk(f)
    ensures ParseWith(take, m, EncodeField(f) + rest)
         == match take(m, f)
            case Got(m') => ParseWith(take, m', rest)
            case Malformed => Malformed
            case Unusual => Unusual
  {
    NextFieldOfEncoded(f, rest);
    assert (EncodeField(f) + rest)[|EncodeField(f)|..] == rest;
  }

  lemma TakeFirst<M>(take: (M, Field) -> Read<M>, m: M, fs: seq<Field>, i: nat)
    requires 1 <= i <= |fs|
    ensures TakeAll(take, m, fs[..i])
         == match take(m, fs[0])
            case Got(m') => TakeAll(take, m', fs[1..][..i - 1])
            case Malformed => Malformed
            case Unusual => Unusual
  {
    assert fs[..i][1..] == fs[1..][..i - 1];
  }

  function Refuse<M>(r: Read<M>): Read<M> { if r.Got? then Malformed else r }

  /** The first `n` bytes of an encoding: the whole fields are taken, and if they are not all of it, the
      field cut off makes the parse fail. */
  lemma {:induction false} ParseOfCut<M>(take: (M, Field) -> Read<M>, m: M, fs: seq<Field>, n: nat)
    requires n <= |Encode(fs)| && forall f :: f in fs ==> FieldOk(f)
    ensures var i := WholeFields(fs, n); var r := TakeAll(take, m, fs[..i]);
            ParseWith(take, m, Encode(fs)[..n]) == if n == |Encode(fs[..i])| then r else Refuse(r)
    decreases |fs|
  {
    if fs == [] {
      assert Encode(fs)[..n] == [];
    } else if n < |EncodeField(fs[0])| {
      CutInTwo(EncodeField(fs[0]), Encode(fs[1..]), n);
      if n > 0 {
        CutFieldIsRefused(fs[0], n);
      }
    } else {
      var f, rest := fs[0], n - |EncodeField(fs[0])|;
      var tail := Encode(fs[1..])[..rest];
      var j := WholeFields(fs[1..], rest);
      CutInTwo(EncodeField(f), Encode(fs[1..]), n);
      assert Encode(fs)[..n] == EncodeField(f) + tail;
      ParseFirst(take, m, f, tail);
      EncodeFirst(fs, j + 1);
      TakeFirst(take, m, fs, j + 1);
      if take(m, f).Got? {
        ParseOfCut(take, take(m, f).value, fs[1..], rest);
      }
    }
  }

  /** Cut inside a field: behind no number of whole fields. */
  predicate CutsField(fs: seq<Field>, n: nat) {
    n <= |Encode(fs)| && forall i :: 0 <= i <= |fs| ==> n != |Encode(fs[..i])|
  }

  lemma CutIsRefused<M>(take: (M, Field) -> Read<M>, m: M, fs: seq<Field>, n: nat)
    requires CutsField(fs, n) && !TakeAll(take, m, fs).Unusual? && forall f :: f in fs ==> FieldOk(f)
    ensures ParseWith(take, m, Encode(fs)[..n]) == Malformed
  {
    var i := WholeFields(fs, n);
    ParseOfCut(take, m, fs, n);
    assert n != |Encode(fs[..i])| && fs == fs[..i] + fs[i..];
    TakeAllConcat(take, m, fs[..i], fs[i..]);
  }

  // ----- later values win -----

  /** Where taking two fields is taking a third one, so is parsing them. */
  lemma FieldsJoin<M>(take: (M, Field) -> Read<M>, m: M, f: Field, g: Field, h: Field, rest: seq<byte>)
    requires FieldOk(f) && FieldOk(g) && FieldOk(h)
    requires take(m, f).Got? && take(take(m, f).value, g) == take(m, h)
    ensures ParseWith(take, m, EncodeField(f) + (EncodeField(g) + rest)) == ParseWith(take, m, EncodeField(h) + rest)
  {
    ParseFirst(take, m, f, EncodeField(g) + rest);
    ParseFirst(take, take(m, f).value, g, rest);
    ParseFirst(take, m, h, rest);
  }

  /** Where taking two fields is the same, so is parsing them. */
  lemma FieldsAlike<M>(take: (M, Field) -> Read<M>, m: M, f: Field, g: Field, rest: seq<byte>)
    requires FieldOk(f) && FieldOk(g) && take(m, f) == take(m, g)
    ensures ParseWith(take, m, EncodeField(f) + rest) == ParseWith(take, m, EncodeField(g) + rest)
  {
    ParseFirst(take, m, f, rest);
    ParseFirst(take, m, g, rest);
  }

  /** Tags come in the order of the field numbers. */
  predicate Ascending(fs: seq<Field>) {
    forall i, j :: 0 <= i < j < |fs| ==> fs[i].tag <= fs[j].tag
  }

  lemma EncodeNothing(fs: seq<Field>)
    ensures Encode(fs) == [] <==> fs == []
  {
    if fs != [] {
      TagThenRest(fs[0]);
    }
  }
}
