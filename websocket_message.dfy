/** WebsocketMessage: the 2-byte header [clientId, type] plus an optional payload,
    and the static helpers that write fields into a caller's byte[] at a
    `ref int offset` (modelled as an offset passed in and returned). */
module WebsocketMessages {
  import opened Runtime
  import opened Utf8
  import opened Wire
  import opened WebSocketEvents

  /** The struct: the raw buffer (or null) and the two header fields (C#'s `type` is `kind` here). The
      constructors WebsocketMessage(type, clientId) and WebsocketMessage(type) are
      this datatype's constructor with `data` null (and clientId 0 for the second). */
  datatype WebsocketMessage = WebsocketMessage(data: array?<byte>, clientId: byte, kind: WebSocketEvent)

  /** ArraySegment<byte> (its Array is `buffer` here); the default segment is (null, 0, 0). */
  datatype Segment = Segment(buffer: array?<byte>, offset: nat, count: nat)

  /** What the ArraySegment constructor guarantees about its fields. */
  predicate ValidSegment(s: Segment) {
    if s.buffer == null then s.offset == 0 && s.count == 0
    else s.offset + s.count <= s.buffer.Length
  }

  /** The bytes a segment stands for. */
  function SegmentBytes(s: Segment): seq<byte>
    requires ValidSegment(s)
    reads s.buffer
  {
    if s.buffer == null then [] else s.buffer[s.offset..s.offset + s.count]
  }

  /** The header every message starts with. */
  function Header(clientId: byte, kind: WebSocketEvent): seq<byte> {
    [clientId, ToWire(kind)]
  }

  // ------------------------------------------------------------------ message

  /** new WebsocketMessage(byte[] data): the header fields are read from data[0]
      and data[1], the type by a plain cast. */
  function FromData(data: array?<byte>): (r: Result<WebsocketMessage>)
    reads data
    ensures r.Ok? <==> data != null && data.Length >= 2
  {
    if data == null then Err(NullReference)
    else if data.Length < 2 then Err(IndexOutOfRange)
    else Ok(WebsocketMessage(data, data[0], FromWire(data[1])))
  }

  /** ArraySegment(): the bytes after the header, or the default (empty) segment
      when there is no data or nothing after the header. */
  function ArraySegment(m: WebsocketMessage): (s: Segment)
    ensures ValidSegment(s)
  {
    if m.data != null && m.data.Length > 2 then Segment(m.data, 2, m.data.Length - 2)
    else Segment(null, 0, 0)
  }

  /** Deserialize(data, out clientId, out type) */
  method Deserialize(data: array?<byte>) returns (r: Result<(byte, WebSocketEvent)>)
    ensures r.Ok? <==> data != null && data.Length >= 2
    ensures r.Ok? ==> r.value == (data[0], FromWire(data[1]))
    ensures r.Err? ==> r.fault == (if data == null then NullReference else IndexOutOfRange)
  {
    if data == null {
      return Err(NullReference);
    }
    if data.Length < 2 {
      return Err(IndexOutOfRange);
    }
    r := Ok((data[0], FromWire(data[1])));
  }

  /** Reading a buffer that starts with a header gives back the clientId and the
      kind that were written, through either the constructor or Deserialize. */
  lemma HeaderRoundTrip(data: array<byte>, clientId: byte, kind: WebSocketEvent)
    requires data.Length >= 2 && data[..2] == Header(clientId, kind) && IsNamed(kind)
    ensures FromData(data) == Ok(WebsocketMessage(data, clientId, kind))
  {
    assert data[0] == data[..2][0] && data[1] == data[..2][1];
    WireRoundTrip(kind);
  }

  /** ArraySegment() covers exactly the bytes after the header; it is empty when
      data is null or holds no more than the header. */
  lemma ArraySegmentIsPayload(m: WebsocketMessage)
    ensures m.data != null && m.data.Length >= 2 ==> SegmentBytes(ArraySegment(m)) == m.data[2..]
    ensures m.data == null || m.data.Length <= 2 ==> SegmentBytes(ArraySegment(m)) == []
  {
  }

  // ------------------------------------------------------------------ whole messages

  /** Serialize(clientId, type): a bare header. */
  method Serialize(clientId: byte, kind: WebSocketEvent) returns (buffer: array<byte>)
    ensures fresh(buffer) && buffer[..] == Header(clientId, kind)
  {
    buffer := new byte[2];
    buffer[0] := clientId;
    buffer[1] := ToWire(kind);
  }

  /** Serialize(clientId, type, byte[] payload): the header, then the payload. */
  method SerializePayload(clientId: byte, kind: WebSocketEvent, payload: array?<byte>)
    returns (r: Result<array<byte>>)
    ensures r.Ok? <==> payload != null
    ensures r.Ok? ==> fresh(r.value) && r.value[..] == Header(clientId, kind) + payload[..]
    ensures r.Err? ==> r.fault == NullReference
  {
    if payload == null {
      return Err(NullReference);
    }
    var buffer := new byte[2 + payload.Length];
    buffer[0] := clientId;
    buffer[1] := ToWire(kind);
    BlockCopy(payload, 0, buffer, 2, payload.Length);
    assert buffer[..] == Header(clientId, kind) + payload[..];
    r := Ok(buffer);
  }

  /** Serialize(clientId, type, ArraySegment<byte> payload): the header, then the
      `Count` bytes from `Offset` on; a default segment (null array) makes
      Buffer.BlockCopy throw. */
  method SerializeSegment(clientId: byte, kind: WebSocketEvent, payload: Segment)
    returns (r: Result<array<byte>>)
    requires ValidSegment(payload)
    ensures r.Ok? <==> payload.buffer != null
    ensures r.Ok? ==> fresh(r.value) && r.value[..] == Header(clientId, kind) + SegmentBytes(payload)
    ensures r.Err? ==> r.fault == ArgumentNull
  {
    if payload.buffer == null {
      return Err(ArgumentNull);
    }
    var buffer := new byte[2 + payload.count];
    buffer[0] := clientId;
    buffer[1] := ToWire(kind);
    BlockCopy(payload.buffer, payload.offset, buffer, 2, payload.count);
    assert buffer[..] == Header(clientId, kind) + SegmentBytes(payload);
    r := Ok(buffer);
  }

  /** Buffer.BlockCopy between two distinct arrays. */
  method BlockCopy(src: array<byte>, srcOffset: nat, dst: array<byte>, dstOffset: nat, count: nat)
    requires src != dst
    requires srcOffset + count <= src.Length && dstOffset + count <= dst.Length
    modifies dst
    ensures dst[..] == old(dst[..dstOffset]) + src[srcOffset..srcOffset + count] + old(dst[dstOffset + count..])
  {
    var i := 0;
    while i < count
      invariant 0 <= i <= count
      invariant forall j :: 0 <= j < dst.Length ==>
        dst[j] == if dstOffset <= j < dstOffset + i then src[srcOffset + (j - dstOffset)] else old(dst[j])
    {
      dst[dstOffset + i] := src[srcOffset + i];
      i := i + 1;
    }
    assert dst[..] == old(dst[..dstOffset]) + src[srcOffset..srcOffset + count] + old(dst[dstOffset + count..]);
  }

  // ------------------------------------------------------------------ connect messages

  /** The buffer of `size` zeros with the header written into it by two SerializeByte calls. */
  function HeaderCursor(size: nat, clientId: byte, kind: WebSocketEvent): Result<Cursor> {
    var c1 :- PutByte(Cursor(Zeros(size), 0), clientId);
    PutByte(c1, ToWire(kind))
  }

  /** The contents SerializeConnect (host, creates a lobby) returns: a zeroed buffer
      of 3 + 3 * sizeof(int) + the three lengths, filled field by field. */
  function ConnectHostBytes(clientId: byte, kind: WebSocketEvent, lobbyCode: string, lobbyName: string,
                            memberName: string, isPrivate: bool): Result<seq<byte>>
  {
    var size := 3 + 3 * 4 + CsLength(lobbyCode) + CsLength(lobbyName) + CsLength(memberName);
    var c2 :- HeaderCursor(size, clientId, kind);
    Written(PutStrings(PutBool(c2, isPrivate), [lobbyCode, lobbyName, memberName]))
  }

  /** The contents SerializeConnect (guest, joins a lobby) returns: a zeroed buffer
      of 2 + 2 * sizeof(int) + the two lengths. */
  function ConnectGuestBytes(clientId: byte, kind: WebSocketEvent, lobbyCode: string,
                             memberName: string): Result<seq<byte>>
  {
    var size := 2 + 2 * 4 + CsLength(lobbyCode) + CsLength(memberName);
    var c2 :- HeaderCursor(size, clientId, kind);
    Written(PutStrings(c2, [lobbyCode, memberName]))
  }

  /** The header lands in the first two bytes of any buffer of two bytes or more. */
  lemma HeaderCursorZeros(size: nat, clientId: byte, kind: WebSocketEvent)
    requires 2 <= size
    ensures HeaderCursor(size, clientId, kind) == Ok(Cursor(Header(clientId, kind) + Zeros(size - 2), 2))
  {
    assert Zeros(size) == [] + Zeros(size);
    PutByteStep([], size, clientId);
    assert [] + [clientId] == [clientId];
    PutByteStep([clientId], size - 1, ToWire(kind));
    assert [clientId] + [ToWire(kind)] == Header(clientId, kind);
  }

  /** SerializeConnect(clientId, type, lobbyCode, lobbyName, memberName, isPrivate) */
  method SerializeConnectHost(clientId: byte, kind: WebSocketEvent, lobbyCode: string, lobbyName: string,
                              memberName: string, isPrivate: bool) returns (r: Result<array<byte>>)
    ensures var spec := ConnectHostBytes(clientId, kind, lobbyCode, lobbyName, memberName, isPrivate);
      && r.Ok? == spec.Ok?
      && (r.Ok? ==> fresh(r.value) && r.value[..] == spec.value)
      && (r.Err? ==> r.fault == spec.fault)
  {
    var buffer := new byte[3 + 3 * 4 + CsLength(lobbyCode) + CsLength(lobbyName) + CsLength(memberName)](_ => 0);
    ghost var c0 := Cursor(buffer[..], 0);
    assert c0.bytes == Zeros(buffer.Length);
    var step := SerializeByte(clientId, buffer, 0);
    ghost var c1 := Cursor(buffer[..], 1);
    assert PutByte(c0, clientId) == Ok(c1) && step == Ok(1);
    step := SerializeByte(ToWire(kind), buffer, 1);
    ghost var c2 := Cursor(buffer[..], 2);
    assert PutByte(c1, ToWire(kind)) == Ok(c2) && step == Ok(2);
    var offset := SerializeBool(isPrivate, buffer, 2);
    ghost var c3 := Cursor(buffer[..], 3);
    assert PutBool(c2, isPrivate) == c3 && offset == 3;
    ghost var ss := [lobbyCode, lobbyName, memberName];
    assert HeaderCursor(buffer.Length, clientId, kind) == Ok(c2);
    ConnectHostFrom(clientId, kind, lobbyCode, lobbyName, memberName, isPrivate, buffer.Length, c2);
    step := SerializeString(lobbyCode, buffer, 3);
    if step.Err? {
      assert PutStrings(c3, ss) == Err(step.fault);
      return Err(step.fault);
    }
    ghost var c4 := Cursor(buffer[..], step.value);
    assert PutStrings(c3, ss) == PutStrings(c4, ss[1..]);
    step := SerializeString(lobbyName, buffer, step.value);
    if step.Err? {
      assert PutStrings(c4, ss[1..]) == Err(step.fault);
      return Err(step.fault);
    }
    ghost var c5 := Cursor(buffer[..], step.value);
    assert PutStrings(c4, ss[1..]) == PutStrings(c5, ss[2..]);
    step := SerializeString(memberName, buffer, step.value);
    if step.Err? {
      assert PutStrings(c5, ss[2..]) == Err(step.fault);
      return Err(step.fault);
    }
    assert ss[2..][1..] == [];
    assert PutStrings(c5, ss[2..]) == Ok(Cursor(buffer[..], step.value));
    r := Ok(buffer);
  }

  /** SerializeConnect(clientId, type, lobbyCode, memberName) */
  method SerializeConnectGuest(clientId: byte, kind: WebSocketEvent, lobbyCode: string, memberName: string)
    returns (r: Result<array<byte>>)
    ensures var spec := ConnectGuestBytes(clientId, kind, lobbyCode, memberName);
      && r.Ok? == spec.Ok?
      && (r.Ok? ==> fresh(r.value) && r.value[..] == spec.value)
      && (r.Err? ==> r.fault == spec.fault)
  {
    var buffer := new byte[2 + 2 * 4 + CsLength(lobbyCode) + CsLength(memberName)](_ => 0);
    ghost var c0 := Cursor(buffer[..], 0);
    assert c0.bytes == Zeros(buffer.Length);
    var step := SerializeByte(clientId, buffer, 0);
    ghost var c1 := Cursor(buffer[..], 1);
    assert PutByte(c0, clientId) == Ok(c1) && step == Ok(1);
    step := SerializeByte(ToWire(kind), buffer, 1);
    ghost var c2 := Cursor(buffer[..], 2);
    assert PutByte(c1, ToWire(kind)) == Ok(c2) && step == Ok(2);
    ghost var ss := [lobbyCode, memberName];
    assert HeaderCursor(buffer.Length, clientId, kind) == Ok(c2);
    ConnectGuestFrom(clientId, kind, lobbyCode, memberName, buffer.Length, c2);
    step := SerializeString(lobbyCode, buffer, 2);
    if step.Err? {
      assert PutStrings(c2, ss) == Err(step.fault);
      return Err(step.fault);
    }
    ghost var c3 := Cursor(buffer[..], step.value);
    assert PutStrings(c2, ss) == PutStrings(c3, ss[1..]);
    step := SerializeString(memberName, buffer, step.value);
    if step.Err? {
      assert PutStrings(c3, ss[1..]) == Err(step.fault);
      return Err(step.fault);
    }
    assert ss[1..][1..] == [];
    assert PutStrings(c3, ss[1..]) == Ok(Cursor(buffer[..], step.value));
    r := Ok(buffer);
  }

  /** The fields of a host's connect message, as the relay reads them back. */
  datatype HostConnect = HostConnect(isPrivate: bool, lobbyCode: string, lobbyName: string, memberName: string)

  /** The fields of a guest's connect message, as the relay reads them back. */
  datatype GuestConnect = GuestConnect(lobbyCode: string, memberName: string)

  /** The relay's reading of a host's connect message: DeserializeBool at offset 2,
      then three DeserializeString calls. */
  function ReadConnectHost(bytes: seq<byte>): Result<HostConnect> {
    var p :- GetBool(bytes, 2);
    var code :- GetString(bytes, p.next);
    var name :- GetString(bytes, code.next);
    var member :- GetString(bytes, name.next);
    Ok(HostConnect(p.value, code.value, name.value, member.value))
  }

  /** The relay's reading of a guest's connect message: two DeserializeString calls
      from offset 2 on. */
  function ReadConnectGuest(bytes: seq<byte>): Result<GuestConnect> {
    var code :- GetString(bytes, 2);
    var member :- GetString(bytes, code.next);
    Ok(GuestConnect(code.value, member.value))
  }

  /** For carried strings the host's message is the header, the flag and the three
      strings, then 9 bytes that are allocated (3 * sizeof(int) - 3) but never written. */
  lemma ConnectHostLayout(clientId: byte, kind: WebSocketEvent, lobbyCode: string, lobbyName: string,
                          memberName: string, isPrivate: bool)
    requires Carried(lobbyCode) && Carried(lobbyName) && Carried(memberName)
    ensures ConnectHostBytes(clientId, kind, lobbyCode, lobbyName, memberName, isPrivate)
         == Ok(Header(clientId, kind) + [BoolByte(isPrivate)] + StringBytes(lobbyCode)
               + StringBytes(lobbyName) + StringBytes(memberName) + Zeros(9))
  {
    var size := 15 + |lobbyCode| + |lobbyName| + |memberName|;
    var h := Header(clientId, kind);
    var l3 := h + [BoolByte(isPrivate)];
    var ss := [lobbyCode, lobbyName, memberName];
    var w := StringBytes(lobbyCode) + StringBytes(lobbyName) + StringBytes(memberName);
    ThreeCarried(lobbyCode, lobbyName, memberName);
    HeaderCursorZeros(size, clientId, kind);
    UpdateZeros(h, size - 2, BoolByte(isPrivate));
    PutStringsZeros(l3, size - 3, ss);
    ConnectHostFrom(clientId, kind, lobbyCode, lobbyName, memberName, isPrivate, size,
                    Cursor(h + Zeros(size - 2), 2));
    ConcatAssoc(l3, StringBytes(lobbyCode) + StringBytes(lobbyName), StringBytes(memberName));
    ConcatAssoc(l3, StringBytes(lobbyCode), StringBytes(lobbyName));
  }

  /** The sizes the host's message is built from, for carried strings. */
  lemma ThreeCarried(a: string, b: string, d: string)
    requires Carried(a) && Carried(b) && Carried(d)
    ensures CsLength(a) == |a| && CsLength(b) == |b| && CsLength(d) == |d|
    ensures StringsBytes([a, b, d]) == StringBytes(a) + StringBytes(b) + StringBytes(d)
    ensures |StringsBytes([a, b, d])| == 3 + |a| + |b| + |d|
    ensures forall s :: s in [a, b, d] ==> Carried(s)
  {
    EncodeAscii(a);
    EncodeAscii(b);
    EncodeAscii(d);
    StringsBytesThree(a, b, d);
  }

  /** ConnectHostBytes, one step at a time. */
  lemma ConnectHostFrom(clientId: byte, kind: WebSocketEvent, lobbyCode: string, lobbyName: string,
                        memberName: string, isPrivate: bool, size: nat, c2: Cursor)
    requires size == 15 + CsLength(lobbyCode) + CsLength(lobbyName) + CsLength(memberName)
    requires HeaderCursor(size, clientId, kind) == Ok(c2)
    requires 0 <= c2.offset < |c2.bytes|
    ensures ConnectHostBytes(clientId, kind, lobbyCode, lobbyName, memberName, isPrivate)
         == Written(PutStrings(PutBool(c2, isPrivate), [lobbyCode, lobbyName, memberName]))
  {
  }

  /** For carried strings the guest's message is the header and the two strings,
      then 6 bytes that are allocated (2 * sizeof(int) - 2) but never written. */
  lemma ConnectGuestLayout(clientId: byte, kind: WebSocketEvent, lobbyCode: string, memberName: string)
    requires Carried(lobbyCode) && Carried(memberName)
    ensures ConnectGuestBytes(clientId, kind, lobbyCode, memberName)
         == Ok(Header(clientId, kind) + StringBytes(lobbyCode) + StringBytes(memberName) + Zeros(6))
  {
    var size := 10 + |lobbyCode| + |memberName|;
    var h := Header(clientId, kind);
    var w := StringBytes(lobbyCode) + StringBytes(memberName);
    TwoCarried(lobbyCode, memberName);
    HeaderCursorZeros(size, clientId, kind);
    PutStringsZeros(h, size - 2, [lobbyCode, memberName]);
    ConnectGuestFrom(clientId, kind, lobbyCode, memberName, size,
                     Cursor(h + Zeros(size - 2), 2));
    ConcatAssoc(h, StringBytes(lobbyCode), StringBytes(memberName));
  }

  /** The sizes the guest's message is built from, for carried strings. */
  lemma TwoCarried(a: string, b: string)
    requires Carried(a) && Carried(b)
    ensures CsLength(a) == |a| && CsLength(b) == |b|
    ensures StringsBytes([a, b]) == StringBytes(a) + StringBytes(b)
    ensures |StringsBytes([a, b])| == 2 + |a| + |b|
    ensures forall s :: s in [a, b] ==> Carried(s)
  {
    EncodeAscii(a);
    EncodeAscii(b);
    StringsBytesTwo(a, b);
  }

  /** ConnectGuestBytes, one step at a time. */
  lemma ConnectGuestFrom(clientId: byte, kind: WebSocketEvent, lobbyCode: string, memberName: string,
                         size: nat, c2: Cursor)
    requires size == 10 + CsLength(lobbyCode) + CsLength(memberName)
    requires HeaderCursor(size, clientId, kind) == Ok(c2)
    ensures ConnectGuestBytes(clientId, kind, lobbyCode, memberName) == Written(PutStrings(c2, [lobbyCode, memberName]))
  {
    assert 2 + 2 * 4 + CsLength(lobbyCode) + CsLength(memberName) == size;
  }

  /** Two carried strings, one after the other from `at` on, read back in turn. */
  lemma TwoStringsAt(bytes: seq<byte>, at: int, a: string, b: string)
    requires Carried(a) && Carried(b)
    requires Holds(bytes, at, StringBytes(a)) && Holds(bytes, at + |StringBytes(a)|, StringBytes(b))
    ensures GetString(bytes, at) == Ok(Read(a, at + |StringBytes(a)|))
    ensures GetString(bytes, at + |StringBytes(a)|) == Ok(Read(b, at + |StringBytes(a)| + |StringBytes(b)|))
  {
    GetStringAt(bytes, at, a);
    GetStringAt(bytes, at + |StringBytes(a)|, b);
  }

  /** The relay reads the host's fields back from wherever the host wrote them. */
  lemma HostFieldsAt(bytes: seq<byte>, isPrivate: bool, lobbyCode: string, lobbyName: string, memberName: string)
    requires Carried(lobbyCode) && Carried(lobbyName) && Carried(memberName)
    requires |bytes| > 2 && bytes[2] == BoolByte(isPrivate)
    requires Holds(bytes, 3, StringBytes(lobbyCode))
    requires Holds(bytes, 3 + |StringBytes(lobbyCode)|, StringBytes(lobbyName))
    requires Holds(bytes, 3 + |StringBytes(lobbyCode)| + |StringBytes(lobbyName)|, StringBytes(memberName))
    ensures ReadConnectHost(bytes) == Ok(HostConnect(isPrivate, lobbyCode, lobbyName, memberName))
  {
    GetStringAt(bytes, 3, lobbyCode);
    TwoStringsAt(bytes, 3 + |StringBytes(lobbyCode)|, lobbyName, memberName);
  }

  /** The relay reads the guest's fields back from wherever the guest wrote them. */
  lemma GuestFieldsAt(bytes: seq<byte>, lobbyCode: string, memberName: string)
    requires Carried(lobbyCode) && Carried(memberName)
    requires Holds(bytes, 2, StringBytes(lobbyCode))
    requires Holds(bytes, 2 + |StringBytes(lobbyCode)|, StringBytes(memberName))
    ensures ReadConnectGuest(bytes) == Ok(GuestConnect(lobbyCode, memberName))
  {
    TwoStringsAt(bytes, 2, lobbyCode, memberName);
  }

  /** For carried strings SerializeConnect (host) builds a message 9 bytes longer
      than what it writes, those 9 staying zero, and the relay reads every field back. */
  lemma ConnectHostRoundTrip(clientId: byte, kind: WebSocketEvent, lobbyCode: string, lobbyName: string,
                             memberName: string, isPrivate: bool)
    requires Carried(lobbyCode) && Carried(lobbyName) && Carried(memberName)
    ensures var r := ConnectHostBytes(clientId, kind, lobbyCode, lobbyName, memberName, isPrivate);
      && r.Ok?
      && |r.value| == 15 + |lobbyCode| + |lobbyName| + |memberName|
      && r.value[..2] == Header(clientId, kind)
      && r.value[|r.value| - 9..] == Zeros(9)
      && ReadConnectHost(r.value) == Ok(HostConnect(isPrivate, lobbyCode, lobbyName, memberName))
  {
    ConnectHostLayout(clientId, kind, lobbyCode, lobbyName, memberName, isPrivate);
    EncodeAscii(lobbyCode);
    EncodeAscii(lobbyName);
    EncodeAscii(memberName);
    var w1, w2, w3 := StringBytes(lobbyCode), StringBytes(lobbyName), StringBytes(memberName);
    HostLayoutHolds(Header(clientId, kind), BoolByte(isPrivate), w1, w2, w3);
    HostFieldsAt(Header(clientId, kind) + [BoolByte(isPrivate)] + w1 + w2 + w3 + Zeros(9),
                 isPrivate, lobbyCode, lobbyName, memberName);
  }

  /** Where each field of the host's message stands. */
  lemma HostLayoutHolds(h: seq<byte>, b: byte, w1: seq<byte>, w2: seq<byte>, w3: seq<byte>)
    requires |h| == 2
    ensures var bytes := h + [b] + w1 + w2 + w3 + Zeros(9);
      && |bytes| == 12 + |w1| + |w2| + |w3|
      && bytes[..2] == h && bytes[|bytes| - 9..] == Zeros(9) && bytes[2] == b
      && Holds(bytes, 3, w1) && Holds(bytes, 3 + |w1|, w2) && Holds(bytes, 3 + |w1| + |w2|, w3)
  {
    var p := h + [b];
    var bytes := p + w1 + w2 + w3 + Zeros(9);
    HoldsPrefix(p + w1 + w2 + w3, Zeros(9));
    HoldsConcat(bytes, 0, p + w1 + w2, w3);
    HoldsConcat(bytes, 0, p + w1, w2);
    HoldsConcat(bytes, 0, p, w1);
    assert bytes[..2] == h;
    assert bytes[|bytes| - 9..] == Zeros(9);
  }

  /** For carried strings SerializeConnect (guest) builds a message 6 bytes longer
      than what it writes, those 6 staying zero, and the relay reads both strings back. */
  lemma ConnectGuestRoundTrip(clientId: byte, kind: WebSocketEvent, lobbyCode: string, memberName: string)
    requires Carried(lobbyCode) && Carried(memberName)
    ensures var r := ConnectGuestBytes(clientId, kind, lobbyCode, memberName);
      && r.Ok?
      && |r.value| == 10 + |lobbyCode| + |memberName|
      && r.value[..2] == Header(clientId, kind)
      && r.value[|r.value| - 6..] == Zeros(6)
      && ReadConnectGuest(r.value) == Ok(GuestConnect(lobbyCode, memberName))
  {
    ConnectGuestLayout(clientId, kind, lobbyCode, memberName);
    EncodeAscii(lobbyCode);
    EncodeAscii(memberName);
    var w1, w2 := StringBytes(lobbyCode), StringBytes(memberName);
    GuestLayoutHolds(Header(clientId, kind), w1, w2);
    GuestFieldsAt(Header(clientId, kind) + w1 + w2 + Zeros(6), lobbyCode, memberName);
  }

  /** Where each field of the guest's message stands. */
  lemma GuestLayoutHolds(h: seq<byte>, w1: seq<byte>, w2: seq<byte>)
    requires |h| == 2
    ensures var bytes := h + w1 + w2 + Zeros(6);
      && |bytes| == 8 + |w1| + |w2|
      && bytes[..2] == h && bytes[|bytes| - 6..] == Zeros(6)
      && Holds(bytes, 2, w1) && Holds(bytes, 2 + |w1|, w2)
  {
    var bytes := h + w1 + w2 + Zeros(6);
    HoldsPrefix(h + w1 + w2, Zeros(6));
    HoldsConcat(bytes, 0, h + w1, w2);
    HoldsConcat(bytes, 0, h, w1);
    assert bytes[..2] == h;
    assert bytes[|bytes| - 6..] == Zeros(6);
  }

  /** The guest's buffer is sized by s.Length but filled with UTF-8 bytes: the
      message is built exactly when each string's extra UTF-8 bytes fit into the
      slack the allocation leaves; otherwise SerializeString throws. */
  lemma ConnectGuestFits(clientId: byte, kind: WebSocketEvent, lobbyCode: string, memberName: string)
    ensures ConnectGuestBytes(clientId, kind, lobbyCode, memberName).Ok?
        <==> |Encode(lobbyCode)| <= 7 + CsLength(lobbyCode) + CsLength(memberName)
             && |Encode(memberName)| <= 6 + CsLength(memberName)
    ensures ConnectGuestBytes(clientId, kind, lobbyCode, memberName).Err?
        ==> ConnectGuestBytes(clientId, kind, lobbyCode, memberName).fault == Argument
  {
    var size := 10 + CsLength(lobbyCode) + CsLength(memberName);
    var c2 := Cursor(Header(clientId, kind) + Zeros(size - 2), 2);
    var ss := [lobbyCode, memberName];
    HeaderCursorZeros(size, clientId, kind);
    ConnectGuestFrom(clientId, kind, lobbyCode, memberName, size, c2);
    assert ss[1..] == [memberName];
    match PutString(c2, lobbyCode)
    case Err(f) =>
      assert PutStrings(c2, ss) == Err(f);
    case Ok(c3) =>
      assert c3.offset == 3 + CsLength(lobbyCode) && |c3.bytes| == size;
      assert PutStrings(c2, ss) == PutString(c3, memberName) by {
        PutStringsOne(c3, memberName);
      }
  }

  // ------------------------------------------------------------------ primitive fields

  method SerializeByte(b: byte, buffer: array<byte>, offset: int) returns (r: Result<int>)
    modifies buffer
    ensures Performed(PutByte(Cursor(old(buffer[..]), offset), b), r, buffer[..])
  {
    if !(0 <= offset < buffer.Length) {
      return Err(IndexOutOfRange);
    }
    buffer[offset] := b;
    r := Ok(offset + 1);
  }

  method DeserializeByte(buffer: array<byte>, offset: int) returns (r: Result<Read<byte>>)
    ensures r.Ok? <==> 0 <= offset < buffer.Length
    ensures r.Ok? ==> r.value == Read(buffer[offset], offset + 1)
    ensures r == GetByte(buffer[..], offset)
  {
    if !(0 <= offset < buffer.Length) {
      return Err(IndexOutOfRange);
    }
    r := Ok(Read(buffer[offset], offset + 1));
  }

  method SerializeBool(b: bool, buffer: array<byte>, offset: int) returns (next: int)
    requires 0 <= offset < buffer.Length
    modifies buffer
    ensures buffer[..] == PutBool(Cursor(old(buffer[..]), offset), b).bytes
    ensures next == offset + 1
  {
    buffer[offset] := BoolByte(b);
    next := offset + 1;
  }

  method DeserializeBool(buffer: array<byte>, offset: int) returns (r: Result<Read<bool>>)
    ensures r.Ok? <==> 0 <= offset < buffer.Length
    ensures r.Ok? ==> r.value == Read(buffer[offset] != 0, offset + 1)
    ensures r == GetBool(buffer[..], offset)
  {
    if !(0 <= offset < buffer.Length) {
      return Err(ArgumentOutOfRange);
    }
    r := Ok(Read(buffer[offset] != 0, offset + 1));
  }

  method SerializeInt(i: int32, buffer: array<byte>, offset: int) returns (next: int)
    requires 0 <= offset && offset + 4 <= buffer.Length
    modifies buffer
    ensures buffer[..] == PutInt(Cursor(old(buffer[..]), offset), i).bytes
    ensures next == offset + 4
  {
    var w := IntBytes(i);
    buffer[offset], buffer[offset + 1], buffer[offset + 2], buffer[offset + 3] := w[0], w[1], w[2], w[3];
    next := offset + 4;
    assert buffer[..] == old(buffer[..])[..offset] + w + old(buffer[..])[offset + 4..];
  }

  method DeserializeInt(buffer: array<byte>, offset: int) returns (r: Result<Read<int32>>)
    ensures r.Ok? <==> 0 <= offset && offset + 4 <= buffer.Length
    ensures r == GetInt(buffer[..], offset)
  {
    if !(0 <= offset < buffer.Length) {
      return Err(ArgumentOutOfRange);
    }
    if offset + 4 > buffer.Length {
      return Err(Argument);
    }
    r := Ok(Read(Int(buffer[offset..offset + 4]), offset + 4));
  }

  method SerializeString(s: string, buffer: array<byte>, offset: int) returns (r: Result<int>)
    modifies buffer
    ensures Performed(PutString(Cursor(old(buffer[..]), offset), s), r, buffer[..])
  {
    if !(0 <= offset < buffer.Length) {
      return Err(IndexOutOfRange);
    }
    var lengthByte := ToByte(CsLength(s));
    buffer[offset] := lengthByte;
    var utf8 := Encode(s);
    if offset + 1 + |utf8| > buffer.Length {
      return Err(Argument);
    }
    CopyInto(utf8, buffer, offset + 1);
    SpliceAfterByte(old(buffer[..]), offset, lengthByte, utf8);
    r := Ok(offset + 1 + CsLength(s));
  }

  /** Encoding.GetBytes into `buffer` from `at` on: the bytes are stored one by one. */
  method CopyInto(w: seq<byte>, buffer: array<byte>, at: nat)
    requires at + |w| <= buffer.Length
    modifies buffer
    ensures buffer[..] == Splice(old(buffer[..]), at, w)
  {
    var i := 0;
    while i < |w|
      invariant 0 <= i <= |w|
      invariant forall j :: 0 <= j < buffer.Length ==>
        buffer[j] == if at <= j < at + i then w[j - at] else old(buffer[j])
    {
      buffer[at + i] := w[i];
      i := i + 1;
    }
    assert buffer[..] == Splice(old(buffer[..]), at, w);
  }

  method DeserializeString(buffer: array<byte>, offset: int) returns (r: Result<Read<string>>)
    ensures r == GetString(buffer[..], offset)
  {
    if !(0 <= offset < buffer.Length) {
      return Err(IndexOutOfRange);
    }
    var length := buffer[offset] as int;
    var at := offset + 1;
    if at + length > buffer.Length {
      return Err(ArgumentOutOfRange);
    }
    r := Ok(Read(Decode(buffer[at..at + length]), at + length));
  }
}
