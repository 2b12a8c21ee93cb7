/**
 * The protobuf form of ExtensionOptionsWeb3Tx: marshaller, parser and unknown-field skipper
 * (ethereum/eip712/web3.pb.go).
 */
module Web3Codec {
  import opened Common
  import V = Varint

  type byte = V.byte

  /** The range of Go's int: indices and lengths wrap negative from here on. */
  const INT_LIMIT: int := 0x8000_0000_0000_0000

  datatype Msg = Msg(chainId: nat, feePayer: seq<byte>, feePayerSig: seq<byte>)

  const EMPTY: Msg := Msg(0, [], [])

  datatype Error =
    | IntOverflow | UnexpectedEOF | InvalidLength | EndGroupForNonGroup | IllegalTag | WrongWireType
    | UnexpectedEndOfGroup | IllegalWireType

  datatype Parse<+T> = Ok(value: T) | Err(error: Error)

  function ToError(e: V.ReadError): Error {
    if e == V.IntOverflow then IntOverflow else UnexpectedEOF
  }

  // --- What is written ---

  function ChainIdField(m: Msg): seq<byte> {
    if m.chainId == 0 then [] else [0x8] + V.Encode(m.chainId)
  }

  function BytesField(tag: byte, b: seq<byte>): seq<byte> {
    if b == [] then [] else [tag] + V.Encode(|b|) + b
  }

  function Encode(m: Msg): seq<byte> {
    ChainIdField(m) + BytesField(0x12, m.feePayer) + BytesField(0x1a, m.feePayerSig)
  }

  /** Size. */
  function Size(m: Msg): nat {
    (if m.chainId != 0 then 1 + V.Size(m.chainId) else 0)
    + (if |m.feePayer| > 0 then 1 + |m.feePayer| + V.Size(|m.feePayer|) else 0)
    + (if |m.feePayerSig| > 0 then 1 + |m.feePayerSig| + V.Size(|m.feePayerSig|) else 0)
  }

  /** Size is exactly the number of bytes of the encoding. */
  lemma SizeIsLength(m: Msg)
    ensures |Encode(m)| == Size(m)
    ensures |ChainIdField(m)| == if m.chainId != 0 then 1 + V.Size(m.chainId) else 0
    ensures |BytesField(0x12, m.feePayer)| == if |m.feePayer| > 0 then 1 + |m.feePayer| + V.Size(|m.feePayer|) else 0
    ensures |BytesField(0x1a, m.feePayerSig)| == if |m.feePayerSig| > 0
            then 1 + |m.feePayerSig| + V.Size(|m.feePayerSig|) else 0
  {
    V.SizeIsLength(m.chainId);
    V.SizeIsLength(|m.feePayer|);
    V.SizeIsLength(|m.feePayerSig|);
  }

  // --- What is read ---

  /** int32(x): the low 32 bits as a signed number. */
  function ToInt32(x: nat): (r: int)
    ensures -0x8000_0000 <= r < 0x8000_0000 && (x - r) % 0x1_0000_0000 == 0
  {
    var y := x % 0x1_0000_0000;
    if y < 0x8000_0000 then y else y - 0x1_0000_0000
  }

  /** A length-delimited payload at the front of data, when `base` bytes of the whole input came before it. */
  function ReadBytes(data: seq<byte>, base: nat): (r: Parse<(seq<byte>, nat)>)
    ensures r.Ok? ==> 0 < r.value.1 <= |data|
  {
    var len := V.Decode(data);
    if len.Failed? then Err(ToError(len.error))
    else if len.v >= INT_LIMIT then Err(InvalidLength)
    else if base + len.size + len.v >= INT_LIMIT then Err(InvalidLength)
    else if len.size + len.v > |data| then Err(UnexpectedEOF)
    else Ok((data[len.size..len.size + len.v], len.size + len.v))
  }

  /** What one turn of skipWeb3's loop does after the tag: how many bytes it passes, and the new depth. */
  function SkipBody(data: seq<byte>, wireType: nat, depth: nat): (r: Parse<(nat, nat)>) {
    match wireType
    case 0 =>
      var v := V.Decode(data);
      if v.Failed? then Err(ToError(v.error)) else Ok((v.size, depth))
    case 1 => Ok((8, depth))
    case 2 =>
      var len := V.Decode(data);
      if len.Failed? then Err(ToError(len.error))
      else if len.v >= INT_LIMIT then Err(InvalidLength)
      else Ok((len.size + len.v, depth))
    case 3 => Ok((0, depth + 1))
    case 4 => if depth == 0 then Err(UnexpectedEndOfGroup) else Ok((0, depth - 1))
    case 5 => Ok((4, depth))
    case _ => Err(IllegalWireType)
  }

  /** skipWeb3 with `pos` bytes behind it and `depth` groups open: where the field ends, possibly past the data. */
  function Skip(data: seq<byte>, depth: nat, pos: nat): (r: Parse<nat>)
    ensures r.Ok? ==> r.value > pos
    decreases |data|
  {
    if data == [] then Err(UnexpectedEOF)
    else
      var wire := V.Decode(data);
      if wire.Failed? then Err(ToError(wire.error))
      else
        var body := SkipBody(data[wire.size..], wire.v % 8, depth);
        if body.Err? then Err(body.error)
        else
          var n := wire.size + body.value.0;
          if pos + n >= INT_LIMIT then Err(InvalidLength)
          else if body.value.1 == 0 then Ok(pos + n)
          else if n >= |data| then Err(UnexpectedEOF)
          else Skip(data[n..], body.value.1, pos + n)
  }

  /** One field at the front of data: the message after it and the bytes it took. */
  function ParseOne(data: seq<byte>, base: nat, m: Msg): (r: Parse<(Msg, nat)>)
    requires data != []
    ensures r.Ok? ==> 0 < r.value.1 <= |data|
  {
    var wire := V.Decode(data);
    if wire.Failed? then Err(ToError(wire.error))
    else
      var fieldNum := ToInt32(wire.v / 8);
      var wireType := wire.v % 8;
      var rest := data[wire.size..];
      if wireType == 4 then Err(EndGroupForNonGroup)
      else if fieldNum <= 0 then Err(IllegalTag)
      else if fieldNum == 1 then
        if wireType != 0 then Err(WrongWireType)
        else
          var v := V.Decode(rest);
          if v.Failed? then Err(ToError(v.error)) else Ok((m.(chainId := v.v), wire.size + v.size))
      else if fieldNum == 2 || fieldNum == 3 then
        if wireType != 2 then Err(WrongWireType)
        else
          var b := ReadBytes(rest, base + wire.size);
          if b.Err? then Err(b.error)
          else if fieldNum == 2 then Ok((m.(feePayer := b.value.0), wire.size + b.value.1))
          else Ok((m.(feePayerSig := b.value.0), wire.size + b.value.1))
      else
        var n := Skip(data, 0, 0);
        if n.Err? then Err(n.error)
        else if base + n.value >= INT_LIMIT then Err(InvalidLength)
        else if n.value > |data| then Err(UnexpectedEOF)
        else Ok((m, n.value))
  }

  /** Unmarshal: field after field until the data is used up. */
  function Decode(data: seq<byte>, base: nat, m: Msg): (r: Parse<Msg>)
    decreases |data|
  {
    if data == [] then Ok(m)
    else
      var one := ParseOne(data, base, m);
      if one.Err? then Err(one.error) else Decode(data[one.value.1..], base + one.value.1, one.value.0)
  }

  // --- Reading does not depend on what follows ---

  lemma DecodeVarintIsLocal(data: seq<byte>, rest: seq<byte>)
    requires V.Decode(data).Value?
    ensures V.Decode(data + rest) == V.Decode(data)
    ensures (data + rest)[V.Decode(data).size..] == data[V.Decode(data).size..] + rest
  {
    V.ReadIsLocal(data, 0, 0, rest);
  }

  lemma ReadBytesIsLocal(data: seq<byte>, base: nat, rest: seq<byte>)
    requires ReadBytes(data, base).Ok?
    ensures ReadBytes(data + rest, base) == ReadBytes(data, base)
  {
    DecodeVarintIsLocal(data, rest);
    var len := V.Decode(data);
    assert (data + rest)[len.size..len.size + len.v] == data[len.size..len.size + len.v];
  }

  lemma SkipBodyIsLocal(data: seq<byte>, wireType: nat, depth: nat, rest: seq<byte>)
    requires SkipBody(data, wireType, depth).Ok?
    ensures SkipBody(data + rest, wireType, depth) == SkipBody(data, wireType, depth)
  {
    hide V.Decode;
    if wireType == 0 || wireType == 2 { DecodeVarintIsLocal(data, rest); }
  }

  lemma {:induction false} SkipIsLocal(data: seq<byte>, depth: nat, pos: nat, rest: seq<byte>)
    requires Skip(data, depth, pos).Ok? && Skip(data, depth, pos).value <= pos + |data|
    ensures Skip(data + rest, depth, pos) == Skip(data, depth, pos)
    decreases |data|
  {
    hide V.Decode, SkipBody;
    DecodeVarintIsLocal(data, rest);
    var wire := V.Decode(data);
    SkipBodyIsLocal(data[wire.size..], wire.v % 8, depth, rest);
    var body := SkipBody(data[wire.size..], wire.v % 8, depth).value;
    if body.1 != 0 {
      var n := wire.size + body.0;
      assert (data + rest)[n..] == data[n..] + rest;
      SkipIsLocal(data[n..], body.1, pos + n, rest);
    }
  }

  lemma ParseOneIsLocal(data: seq<byte>, base: nat, m: Msg, rest: seq<byte>)
    requires data != [] && ParseOne(data, base, m).Ok?
    ensures ParseOne(data + rest, base, m) == ParseOne(data, base, m)
  {
    hide V.Decode, Skip, ReadBytes;
    DecodeVarintIsLocal(data, rest);
    var wire := V.Decode(data);
    var tail := data[wire.size..];
    var fieldNum := ToInt32(wire.v / 8);
    if fieldNum == 1 {
      DecodeVarintIsLocal(tail, rest);
    } else if fieldNum == 2 || fieldNum == 3 {
      ReadBytesIsLocal(tail, base + wire.size, rest);
    } else {
      SkipIsLocal(data, 0, 0, rest);
    }
  }

  /** Bytes after a well-formed message are parsed on top of it. */
  lemma {:induction false} DecodeContinues(data: seq<byte>, base: nat, m: Msg, rest: seq<byte>)
    requires Decode(data, base, m).Ok?
    ensures Decode(data + rest, base, m) == Decode(rest, base + |data|, Decode(data, base, m).value)
    decreases |data|
  {
    hide ParseOne;
    if data == [] {
      assert data + rest == rest;
    } else {
      ParseOneIsLocal(data, base, m, rest);
      var n := ParseOne(data, base, m).value.1;
      assert (data + rest)[n..] == data[n..] + rest;
      DecodeContinues(data[n..], base + n, ParseOne(data, base, m).value.0, rest);
    }
  }

  // --- Round trip ---

  /** A message that fits: the chain id is a uint64 and the whole encoding an int. */
  ghost predicate Fits(m: Msg, base: nat) {
    m.chainId < UINT64_LIMIT && base + |Encode(m)| < INT_LIMIT
  }

  /** A one-byte tag is read as itself. */
  lemma SmallTag(tag: byte, rest: seq<byte>)
    requires tag < 128
    ensures V.Decode([tag] + rest) == V.Value(tag, 1) && ([tag] + rest)[1..] == rest
  {
    assert V.Encode(tag) == [tag];
    V.RoundTrip(tag, rest);
  }

  lemma ChainIdReadsBack(m: Msg, base: nat, acc: Msg)
    requires m.chainId < UINT64_LIMIT
    ensures Decode(ChainIdField(m), base, acc) == Ok(if m.chainId == 0 then acc else acc.(chainId := m.chainId))
  {
    hide V.Decode, V.Encode, ReadBytes, Skip;
    if m.chainId != 0 {
      var data, rest := ChainIdField(m), V.Encode(m.chainId);
      SmallTag(0x8, rest);
      V.RoundTrip(m.chainId, []);
      assert rest + [] == rest;
      assert ParseOne(data, base, acc) == Ok((acc.(chainId := m.chainId), |data|));
      assert data[|data|..] == [];
    }
  }

  lemma BytesReadBack(b: seq<byte>, base: nat)
    requires base + |V.Encode(|b|)| + |b| < INT_LIMIT
    ensures ReadBytes(V.Encode(|b|) + b, base) == Ok((b, |V.Encode(|b|) + b|))
  {
    hide V.Decode, V.Encode;
    V.RoundTrip(|b|, b);
    assert (V.Encode(|b|) + b)[|V.Encode(|b|)|..|V.Encode(|b|)| + |b|] == b;
  }

  lemma BytesFieldReadsBack(tag: byte, b: seq<byte>, base: nat, acc: Msg)
    requires tag == 0x12 || tag == 0x1a
    requires base + |BytesField(tag, b)| < INT_LIMIT
    ensures Decode(BytesField(tag, b), base, acc)
            == Ok(if b == [] then acc else if tag == 0x12 then acc.(feePayer := b) else acc.(feePayerSig := b))
  {
    hide V.Decode, V.Encode, ReadBytes, Skip;
    if b != [] {
      var data, rest := BytesField(tag, b), V.Encode(|b|) + b;
      assert data == [tag] + rest;
      SmallTag(tag, rest);
      BytesReadBack(b, base + 1);
      var after := if tag == 0x12 then acc.(feePayer := b) else acc.(feePayerSig := b);
      var n: nat := |data|;
      assert ParseOne(data, base, acc) == Ok((after, n));
      assert data[|data|..] == [];
    }
  }

  /** The bytes on the wire: tags 8, 18 and 26, lengths and the chain id as varints. */
  lemma WireExample()
    ensures Encode(Msg(300, [1, 2], [3])) == [0x8, 0xac, 0x2, 0x12, 2, 1, 2, 0x1a, 1, 3]
  {
    assert V.Encode(300) == [300 % 128 + 128] + V.Encode(300 / 128) && V.Encode(300 / 128) == [2];
    assert V.Encode(2) == [2] && V.Encode(1) == [1];
  }

  /**
   * What a one-byte tag means, three bits of wire type below the field number: an end of group and a field 0
   * are errors, and so is any wire type of fields 1 to 3 but varint, bytes and bytes.
   */
  lemma TagErrors(tag: byte, rest: seq<byte>, base: nat, m: Msg)
    requires tag < 128
    ensures var r := ParseOne([tag] + rest, base, m);
            && (r == Err(EndGroupForNonGroup) <== tag % 8 == 4)
            && (r == Err(IllegalTag) <== tag < 8 && tag != 4)
            && (r == Err(WrongWireType) <== 8 <= tag < 32 && tag !in {8, 12, 18, 20, 26, 28})
            && (tag in {8, 18, 26} ==> r != Err(EndGroupForNonGroup) && r != Err(IllegalTag) && r != Err(WrongWireType))
  {
    SmallTag(tag, rest);
  }

  /**
   * The three fields, tag behind them: a varint cut off or too long is that error, a length that runs past the
   * data is a premature end, one past the range of int is invalid, and nothing else fails.
   */
  lemma FieldErrors(tag: byte, rest: seq<byte>, base: nat, m: Msg)
    requires tag in {8, 18, 26}
    ensures var r := ParseOne([tag] + rest, base, m);
            var n := V.Decode(rest);
            && (r == Err(IntOverflow) <==> n == V.Failed(V.IntOverflow))
            && (r == Err(InvalidLength) <==> tag != 8 && n.Value? && base + 1 + n.size + n.v >= INT_LIMIT)
            && (r == Err(UnexpectedEOF) <==>
                  || n == V.Failed(V.UnexpectedEOF)
                  || (tag != 8 && n.Value? && n.size + n.v > |rest| && base + 1 + n.size + n.v < INT_LIMIT))
            && (r.Err? ==> r.error in {IntOverflow, InvalidLength, UnexpectedEOF})
            && (r.Ok? && tag == 8 ==> r.value == (m.(chainId := n.v), 1 + n.size))
            && (r.Ok? && tag != 8 ==>
                  var payload := rest[n.size..n.size + n.v];
                  && r.value.1 == 1 + n.size + n.v
                  && r.value.0 == if tag == 18 then m.(feePayer := payload) else m.(feePayerSig := payload))
  {
    hide V.Decode;
    SmallTag(tag, rest);
  }

  /** Unmarshalling what Marshal wrote into a reset message gives the message back. */
  lemma RoundTrip(m: Msg)
    requires Fits(m, 0)
    ensures Decode(Encode(m), 0, EMPTY) == Ok(m)
  {
    hide ParseOne, ChainIdField, BytesField;
    var c, p, s := ChainIdField(m), BytesField(0x12, m.feePayer), BytesField(0x1a, m.feePayerSig);
    ChainIdReadsBack(m, 0, EMPTY);
    var m1 := EMPTY.(chainId := m.chainId);
    BytesFieldReadsBack(0x12, m.feePayer, |c|, m1);
    var m2 := m1.(feePayer := m.feePayer);
    BytesFieldReadsBack(0x1a, m.feePayerSig, |c| + |p|, m2);
    DecodeContinues(c, 0, EMPTY, p);
    DecodeContinues(c + p, 0, EMPTY, s);
  }

  // --- Unknown fields ---

  /** A well-formed field of a number this message does not know; groups nest. */
  datatype Unknown =
    | UVarint(num: nat, v: nat)
    | UFixed64(num: nat, bytes: seq<byte>)
    | UBytes(num: nat, bytes: seq<byte>)
    | UGroup(num: nat, fields: seq<Unknown>)
    | UFixed32(num: nat, bytes: seq<byte>)

  ghost predicate WellFormed(u: Unknown) {
    && 0 < u.num < 0x2000_0000
    && match u
       case UVarint(_, v) => v < UINT64_LIMIT
       case UFixed64(_, b) => |b| == 8
       case UBytes(_, b) => |b| < INT_LIMIT
       case UGroup(_, fs) => forall i :: 0 <= i < |fs| ==> WellFormed(fs[i])
       case UFixed32(_, b) => |b| == 4
  }

  function Tag(num: nat, wireType: nat): seq<byte> { V.Encode(num * 8 + wireType) }

  function WireType(u: Unknown): (t: nat)
    ensures t < 8 && t != 4
  {
    match u
    case UVarint(_, _) => 0
    case UFixed64(_, _) => 1
    case UBytes(_, _) => 2
    case UGroup(_, _) => 3
    case UFixed32(_, _) => 5
  }

  function EncodeUnknown(u: Unknown): seq<byte>
    decreases u, 1
  {
    Tag(u.num, WireType(u)) + Body(u)
  }

  function Body(u: Unknown): seq<byte>
    decreases u, 0
  {
    match u
    case UVarint(_, v) => V.Encode(v)
    case UFixed64(_, b) => b
    case UBytes(_, b) => V.Encode(|b|) + b
    case UGroup(num, fs) => EncodeAll(fs) + Tag(num, 4)
    case UFixed32(_, b) => b
  }

  /** The fields of a group, one after another. */
  function EncodeAll(fs: seq<Unknown>): seq<byte> {
    if fs == [] then [] else EncodeAll(fs[..|fs| - 1]) + EncodeUnknown(fs[|fs| - 1])
  }

  lemma TagReadsBack(num: nat, wireType: nat, rest: seq<byte>)
    requires 0 < num < 0x2000_0000 && wireType < 8
    ensures V.Decode(Tag(num, wireType) + rest) == V.Value(num * 8 + wireType, |Tag(num, wireType)|)
    ensures (num * 8 + wireType) % 8 == wireType && (num * 8 + wireType) / 8 == num
    ensures (Tag(num, wireType) + rest)[|Tag(num, wireType)|..] == rest
    ensures |Tag(num, wireType)| > 0
  {
    hide V.Decode, V.Encode;
    V.RoundTrip(num * 8 + wireType, rest);
  }

  /** What skipping must do after a whole field: stop at depth 0, go on otherwise. */
  ghost function After(rest: seq<byte>, depth: nat, pos: nat): Parse<nat> {
    if depth == 0 then Ok(pos) else Skip(rest, depth, pos)
  }

  /** One turn of the skip loop over a tag whose body takes n more bytes and leaves the depth at d. */
  lemma SkipTurn(num: nat, wireType: nat, tail: seq<byte>, depth: nat, pos: nat, n: nat, d: nat)
    requires 0 < num < 0x2000_0000 && wireType < 8 && n <= |tail|
    requires SkipBody(tail, wireType, depth) == Ok((n, d))
    requires pos + |Tag(num, wireType)| + |tail| < INT_LIMIT
    ensures Skip(Tag(num, wireType) + tail, depth, pos) == After(tail[n..], d, pos + |Tag(num, wireType)| + n)
  {
    hide V.Decode, V.Encode, SkipBody, Tag;
    var data, t := Tag(num, wireType) + tail, |Tag(num, wireType)|;
    TagReadsBack(num, wireType, tail);
    assert data[t + n..] == tail[n..];
    assert data != [];
  }

  /** The body of a field that opens no group is passed in one turn. */
  lemma PlainBody(u: Unknown, depth: nat, rest: seq<byte>)
    requires WellFormed(u) && !u.UGroup?
    ensures SkipBody(Body(u) + rest, WireType(u), depth) == Ok((|Body(u)|, depth))
  {
    hide V.Decode, V.Encode;
    match u
    case UVarint(_, v) => V.RoundTrip(v, rest);
    case UBytes(_, b) =>
      V.RoundTrip(|b|, b + rest);
      assert V.Encode(|b|) + b + rest == V.Encode(|b|) + (b + rest);
    case _ =>
  }

  /** A whole field is skipped exactly, nested groups and all, whatever follows it. */
  lemma {:induction false} SkipsWholeField(u: Unknown, depth: nat, pos: nat, rest: seq<byte>)
    requires WellFormed(u) && pos + |EncodeUnknown(u)| + |rest| < INT_LIMIT
    ensures Skip(EncodeUnknown(u) + rest, depth, pos) == After(rest, depth, pos + |EncodeUnknown(u)|)
    decreases u, 1
  {
    hide Skip, SkipBody, Tag;
    var tag, body := Tag(u.num, WireType(u)), Body(u);
    assert EncodeUnknown(u) + rest == tag + (body + rest);
    if u.UGroup? {
      SkipsGroup(u, depth, pos, rest);
    } else {
      PlainBody(u, depth, rest);
      SkipTurn(u.num, WireType(u), body + rest, depth, pos, |body|, depth);
      assert (body + rest)[|body|..] == rest;
    }
  }

  /** A group: open it, skip its fields, close it. */
  lemma {:induction false} SkipsGroup(u: Unknown, depth: nat, pos: nat, rest: seq<byte>)
    requires WellFormed(u) && u.UGroup? && pos + |EncodeUnknown(u)| + |rest| < INT_LIMIT
    ensures Skip(Tag(u.num, 3) + (Body(u) + rest), depth, pos) == After(rest, depth, pos + |EncodeUnknown(u)|)
    decreases u, 0
  {
    hide Skip, Tag;
    var fields, close := EncodeAll(u.fields), Tag(u.num, 4);
    var tail := fields + (close + rest);
    assert Body(u) + rest == tail;
    SkipTurn(u.num, 3, tail, depth, pos, 0, depth + 1);
    assert tail[0..] == tail;
    var inside := pos + |Tag(u.num, 3)|;
    SkipsFields(u.fields, depth + 1, inside, close + rest);
    SkipTurn(u.num, 4, rest, depth + 1, inside + |fields|, 0, depth);
    assert rest[0..] == rest;
  }

  lemma {:induction false} SkipsFields(fs: seq<Unknown>, depth: nat, pos: nat, rest: seq<byte>)
    requires (forall i :: 0 <= i < |fs| ==> WellFormed(fs[i])) && depth > 0
    requires pos + |EncodeAll(fs)| + |rest| < INT_LIMIT
    ensures Skip(EncodeAll(fs) + rest, depth, pos) == Skip(rest, depth, pos + |EncodeAll(fs)|)
    decreases fs
  {
    hide Skip, EncodeUnknown, WellFormed;
    if fs == [] {
      assert EncodeAll(fs) + rest == rest;
    } else {
      var front, f := fs[..|fs| - 1], fs[|fs| - 1];
      assert EncodeAll(fs) + rest == EncodeAll(front) + (EncodeUnknown(f) + rest);
      SkipsFields(front, depth, pos, EncodeUnknown(f) + rest);
      SkipsWholeField(f, depth, pos + |EncodeAll(front)|, rest);
    }
  }

  predicate IsKnown(num: nat) { num == 1 || num == 2 || num == 3 }

  lemma UnknownIsPassedOver(u: Unknown, base: nat, m: Msg, rest: seq<byte>)
    requires WellFormed(u) && !IsKnown(u.num) && base + |EncodeUnknown(u)| + |rest| < INT_LIMIT
    ensures ParseOne(EncodeUnknown(u) + rest, base, m) == Ok((m, |EncodeUnknown(u)|))
  {
    hide Skip, V.Decode, Tag, Body, WellFormed;
    SkipsWholeField(u, 0, 0, rest);
    NumInRange(u);
    assert EncodeUnknown(u) + rest == Tag(u.num, WireType(u)) + (Body(u) + rest);
    TagReadsBack(u.num, WireType(u), Body(u) + rest);
  }

  lemma NumInRange(u: Unknown)
    requires WellFormed(u)
    ensures 0 < u.num < 0x2000_0000 && ToInt32(u.num) == u.num
  {
  }

  /** Appending a well-formed unknown field to any well-formed input changes nothing. */
  lemma UnknownFieldIsIgnored(data: seq<byte>, m: Msg, u: Unknown)
    requires Decode(data, 0, m).Ok? && WellFormed(u) && !IsKnown(u.num)
    requires |data| + |EncodeUnknown(u)| < INT_LIMIT
    ensures Decode(data + EncodeUnknown(u), 0, m) == Decode(data, 0, m)
  {
    hide ParseOne, Tag, Body, WellFormed;
    var e := EncodeUnknown(u);
    var acc := Decode(data, 0, m).value;
    DecodeContinues(data, 0, m, e);
    UnknownIsPassedOver(u, |data|, acc, []);
    assert e + [] == e;
    assert e[|e|..] == [];
  }

  // --- The code itself ---

  /** s with x written over the part from j on. */
  function Patched(s: seq<byte>, j: nat, x: seq<byte>): (r: seq<byte>)
    requires j + |x| <= |s|
    ensures |r| == |s|
  {
    s[..j] + x + s[j + |x|..]
  }

  /** Writing x right before y is writing x and y. */
  lemma PatchedBefore(s: seq<byte>, j: nat, x: seq<byte>, y: seq<byte>)
    requires j + |x| + |y| <= |s|
    ensures Patched(Patched(s, j + |x|, y), j, x) == Patched(s, j, x + y)
  {
  }

  lemma PatchedNothing(s: seq<byte>, j: nat)
    requires j <= |s|
    ensures Patched(s, j, []) == s
  {
  }

  lemma PatchedNext(s: seq<byte>, j: nat, x: seq<byte>, b: byte)
    requires j + |x| < |s|
    ensures Patched(s, j, x)[j + |x| := b] == Patched(s, j, x + [b])
  {
  }

  /** encodeVarintWeb3: write v so that it ends at offset; returns where it begins. */
  method EncodeVarint(dAtA: array<byte>, offset: nat, v: nat) returns (base: nat)
    requires V.Size(v) <= offset <= dAtA.Length
    modifies dAtA
    ensures base == offset - V.Size(v) && |V.Encode(v)| == V.Size(v)
    ensures dAtA[..] == Patched(old(dAtA[..]), base, V.Encode(v))
  {
    hide Patched;
    V.SizeIsLength(v);
    base := offset - V.Size(v);
    var o, w := base, v;
    ghost var s, done: seq<byte> := dAtA[..], [];
    PatchedNothing(s, base);
    while w >= 128
      invariant o == base + |done| && o + |V.Encode(w)| == offset
      invariant V.Encode(v) == done + V.Encode(w)
      invariant dAtA[..] == Patched(s, base, done)
    {
      PatchedNext(s, base, done, w % 128 + 128);
      assert done + V.Encode(w) == (done + [w % 128 + 128]) + V.Encode(w / 128);
      dAtA[o] := w % 128 + 128;
      done := done + [w % 128 + 128];
      w := w / 128;
      o := o + 1;
    }
    PatchedNext(s, base, done, w);
    dAtA[o] := w;
  }

  /** copy(dAtA[j:], b) */
  method Copy(dAtA: array<byte>, j: nat, b: seq<byte>)
    requires j + |b| <= dAtA.Length
    modifies dAtA
    ensures dAtA[..] == Patched(old(dAtA[..]), j, b)
  {
    forall k | 0 <= k < |b| { dAtA[j + k] := b[k]; }
  }

  method PutByte(dAtA: array<byte>, j: nat, b: byte)
    requires j < dAtA.Length
    modifies dAtA
    ensures dAtA[..] == Patched(old(dAtA[..]), j, [b])
  {
    dAtA[j] := b;
  }

  /** The length and the bytes of a length-delimited field, written so that they end at i. */
  method WritePayload(dAtA: array<byte>, i: nat, b: seq<byte>) returns (j: nat)
    requires |V.Encode(|b|)| + |b| <= i <= dAtA.Length
    modifies dAtA
    ensures j == i - |b| - |V.Encode(|b|)|
    ensures dAtA[..] == Patched(old(dAtA[..]), j, V.Encode(|b|) + b)
  {
    hide Patched, V.Encode, V.Size;
    V.SizeIsLength(|b|);
    Copy(dAtA, i - |b|, b);
    j := EncodeVarint(dAtA, i - |b|, |b|);
    PatchedBefore(old(dAtA[..]), j, V.Encode(|b|), b);
  }

  /** A length-delimited field written so that it ends at i. */
  method WriteBytesField(dAtA: array<byte>, i: nat, tag: byte, b: seq<byte>) returns (j: nat)
    requires |b| > 0 && |BytesField(tag, b)| <= i <= dAtA.Length
    modifies dAtA
    ensures j == i - |BytesField(tag, b)|
    ensures dAtA[..] == Patched(old(dAtA[..]), j, BytesField(tag, b))
  {
    hide Patched, V.Encode;
    ghost var payload := V.Encode(|b|) + b;
    assert [tag] + payload == BytesField(tag, b);
    j := WritePayload(dAtA, i, b);
    j := j - 1;
    PutByte(dAtA, j, tag);
    PatchedBefore(old(dAtA[..]), j, [tag], payload);
  }

  method WriteChainId(dAtA: array<byte>, i: nat, m: Msg) returns (j: nat)
    requires m.chainId != 0 && |ChainIdField(m)| <= i <= dAtA.Length
    modifies dAtA
    ensures j == i - |ChainIdField(m)|
    ensures dAtA[..] == Patched(old(dAtA[..]), j, ChainIdField(m))
  {
    hide Patched, V.Encode, V.Size;
    ghost var s := dAtA[..];
    V.SizeIsLength(m.chainId);
    j := EncodeVarint(dAtA, i, m.chainId);
    j := j - 1;
    PutByte(dAtA, j, 0x8);
    PatchedBefore(s, j, [0x8], V.Encode(m.chainId));
  }

  /** MarshalToSizedBuffer: the fields from the last to the first, backwards from the end of the buffer. */
  method MarshalToSizedBuffer(m: Msg, dAtA: array<byte>) returns (n: nat)
    requires Size(m) <= dAtA.Length
    modifies dAtA
    ensures n == Size(m) == |Encode(m)|
    ensures dAtA[..] == Patched(old(dAtA[..]), dAtA.Length - n, Encode(m))
  {
    hide Patched, BytesField, ChainIdField, V.Encode, V.Size;
    SizeIsLength(m);
    NoFields(m);
    ghost var s, c, p, q := dAtA[..], ChainIdField(m), BytesField(0x12, m.feePayer), BytesField(0x1a, m.feePayerSig);
    assert Encode(m) == c + (p + q);
    var i := dAtA.Length;
    if |m.feePayerSig| > 0 {
      i := WriteBytesField(dAtA, i, 0x1a, m.feePayerSig);
    } else {
      PatchedNothing(s, i);
    }
    assert dAtA[..] == Patched(s, i, q);
    if |m.feePayer| > 0 {
      i := WriteBytesField(dAtA, i, 0x12, m.feePayer);
      PatchedBefore(s, i, p, q);
    } else {
      assert p + q == q;
    }
    assert dAtA[..] == Patched(s, i, p + q);
    if m.chainId != 0 {
      i := WriteChainId(dAtA, i, m);
      PatchedBefore(s, i, c, p + q);
    } else {
      assert c + (p + q) == p + q;
    }
    n := dAtA.Length - i;
  }

  lemma NoFields(m: Msg)
    ensures m.chainId == 0 ==> ChainIdField(m) == []
    ensures m.feePayer == [] ==> BytesField(0x12, m.feePayer) == []
    ensures m.feePayerSig == [] ==> BytesField(0x1a, m.feePayerSig) == []
  {
  }

  /** Marshal: exactly Size bytes, the encoding. */
  method Marshal(m: Msg) returns (data: seq<byte>)
    ensures |data| == Size(m) && data == Encode(m)
  {
    var buffer := new byte[Size(m)](_ => 0);
    var n := MarshalToSizedBuffer(m, buffer);
    data := buffer[..n];
    assert data == buffer[..];
  }

  /** The varint loop of the parser, from index i. */
  method ReadVarint(data: seq<byte>, i: nat) returns (r: V.Read, next: nat)
    requires i <= |data|
    ensures r == V.Decode(data[i..])
    ensures r.Value? ==> next == i + r.size <= |data|
  {
    var k: nat, acc: nat := 0, 0;
    next := i;
    while true
      invariant i <= next <= |data| && next == i + k && k <= 10
      invariant V.ReadFrom(data[next..], k, acc) == V.Decode(data[i..])
      decreases 10 - k
    {
      if k >= 10 {
        return V.Failed(V.IntOverflow), next;
      }
      if next >= |data| {
        return V.Failed(V.UnexpectedEOF), next;
      }
      var b := data[next];
      acc := acc + V.Placed(b, k);
      assert data[next..][1..] == data[next + 1..] && data[next..][0] == b;
      next := next + 1;
      k := k + 1;
      if b < 128 {
        return V.Value(acc, k), next;
      }
    }
  }

  /** skipWeb3: the loop over tags with its depth counter. */
  method SkipWeb3(data: seq<byte>) returns (r: Parse<nat>)
    requires |data| < INT_LIMIT
    ensures r == Skip(data, 0, 0)
  {
    hide V.Decode, SkipBody;
    var i, depth := 0, 0;
    assert data[0..] == data;
    while i < |data|
      invariant 0 <= i <= |data|
      invariant Skip(data[i..], depth, i) == Skip(data, 0, 0)
      decreases |data| - i
    {
      var wire, next := ReadVarint(data, i);
      if wire.Failed? {
        return Err(ToError(wire.error));
      }
      assert data[i..][wire.size..] == data[next..];
      var body := SkipTag(data, next, wire.v % 8, depth);
      if body.Err? {
        return Err(body.error);
      }
      var end := next + body.value.0;
      depth := body.value.1;
      if end >= INT_LIMIT {
        return Err(InvalidLength);
      }
      if depth == 0 {
        return Ok(end);
      }
      if end >= |data| {
        return Err(UnexpectedEOF);
      }
      assert data[i..][end - i..] == data[end..];
      i := end;
    }
    return Err(UnexpectedEOF);
  }

  /** The switch of skipWeb3. */
  method SkipTag(data: seq<byte>, i: nat, wireType: nat, depth: nat) returns (r: Parse<(nat, nat)>)
    requires i <= |data| && wireType < 8
    ensures r == SkipBody(data[i..], wireType, depth)
  {
    match wireType {
      case 0 =>
        var v, next := ReadVarint(data, i);
        return if v.Failed? then Err(ToError(v.error)) else Ok((v.size, depth));
      case 1 => return Ok((8, depth));
      case 2 =>
        var len, next := ReadVarint(data, i);
        if len.Failed? {
          return Err(ToError(len.error));
        }
        return if len.v >= INT_LIMIT then Err(InvalidLength) else Ok((len.size + len.v, depth));
      case 3 => return Ok((0, depth + 1));
      case 4 => return if depth == 0 then Err(UnexpectedEndOfGroup) else Ok((0, depth - 1));
      case 5 => return Ok((4, depth));
      case _ => return Err(IllegalWireType);
    }
  }

  /** The payload of a length-delimited field from index i; `next` is where it ends. */
  method ReadPayload(data: seq<byte>, i: nat) returns (r: Parse<seq<byte>>, next: nat)
    requires i <= |data| < INT_LIMIT
    ensures r.Err? ==> ReadBytes(data[i..], i) == Err(r.error)
    ensures r.Ok? ==> i < next <= |data| && ReadBytes(data[i..], i) == Ok((r.value, next - i))
  {
    var len, at := ReadVarint(data, i);
    next := i;
    if len.Failed? {
      return Err(ToError(len.error)), i;
    }
    if len.v >= INT_LIMIT || at + len.v >= INT_LIMIT {
      return Err(InvalidLength), i;
    }
    if at + len.v > |data| {
      return Err(UnexpectedEOF), i;
    }
    assert data[i..][len.size..len.size + len.v] == data[at..at + len.v];
    return Ok(data[at..at + len.v]), at + len.v;
  }

  /** One turn of Unmarshal's loop. */
  method UnmarshalField(data: seq<byte>, i: nat, m: Msg) returns (r: Parse<Msg>, next: nat)
    requires i < |data| < INT_LIMIT
    ensures r.Err? ==> ParseOne(data[i..], i, m) == Err(r.error)
    ensures r.Ok? ==> i < next <= |data| && ParseOne(data[i..], i, m) == Ok((r.value, next - i))
  {
    hide Skip, V.Decode;
    next := i;
    var wire, at := ReadVarint(data, i);
    if wire.Failed? {
      return Err(ToError(wire.error)), i;
    }
    assert data[i..][wire.size..] == data[at..];
    var fieldNum := ToInt32(wire.v / 8);
    var wireType := wire.v % 8;
    if wireType == 4 {
      return Err(EndGroupForNonGroup), i;
    }
    if fieldNum <= 0 {
      return Err(IllegalTag), i;
    }
    if fieldNum == 1 {
      if wireType != 0 {
        return Err(WrongWireType), i;
      }
      var v, end := ReadVarint(data, at);
      if v.Failed? {
        return Err(ToError(v.error)), i;
      }
      return Ok(m.(chainId := v.v)), end;
    }
    if fieldNum == 2 || fieldNum == 3 {
      if wireType != 2 {
        return Err(WrongWireType), i;
      }
      var b, end := ReadPayload(data, at);
      if b.Err? {
        return Err(b.error), i;
      }
      return Ok(if fieldNum == 2 then m.(feePayer := b.value) else m.(feePayerSig := b.value)), end;
    }
    var n := SkipWeb3(data[i..]);
    if n.Err? {
      return Err(n.error), i;
    }
    if i + n.value >= INT_LIMIT {
      return Err(InvalidLength), i;
    }
    if i + n.value > |data| {
      return Err(UnexpectedEOF), i;
    }
    return Ok(m), i + n.value;
  }

  /** Unmarshal into m. */
  method Unmarshal(data: seq<byte>, m: Msg) returns (r: Parse<Msg>)
    requires |data| < INT_LIMIT
    ensures r == Decode(data, 0, m)
  {
    hide ParseOne;
    var i, acc := 0, m;
    assert data[0..] == data;
    while i < |data|
      invariant 0 <= i <= |data|
      invariant Decode(data[i..], i, acc) == Decode(data, 0, m)
      decreases |data| - i
    {
      var one, next := UnmarshalField(data, i, acc);
      if one.Err? {
        return Err(one.error);
      }
      assert data[i..][next - i..] == data[next..];
      i, acc := next, one.value;
    }
    return Ok(acc);
  }
}
