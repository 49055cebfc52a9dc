/** LobbyMember: one member of a lobby as the relay protocol carries it, the
    clientId byte followed by the name as a length-prefixed string. */
module LobbyMembers {
  import opened Runtime
  import opened Utf8
  import opened Wire
  import opened WebsocketMessages

  /** The C# struct: a null string field is None. `id` is the relay-side ID,
      `isLocal` marks the member that is this client. */
  datatype LobbyMember = LobbyMember(clientId: byte, name: Option<string>, id: Option<string>, isLocal: bool)

  /** `new LobbyMember()`: every field at its default. */
  const Default: LobbyMember := LobbyMember(0, None, None, false)

  /** new LobbyMember(clientId, ID, name) */
  function Create(clientId: byte, id: Option<string>, name: Option<string>): (m: LobbyMember)
    ensures m.clientId == clientId && m.name == name && m.id == id && !m.isLocal
  {
    LobbyMember(clientId, name, id, false)
  }

  /** What a member looks like after a trip over the wire: ID and isLocal are
      not carried, Deserialize sets them to null and false. */
  function Received(m: LobbyMember): LobbyMember {
    m.(id := None, isLocal := false)
  }

  /** The bytes Serialize lays down for a member with a name. */
  function MemberBytes(clientId: byte, name: string): seq<byte> {
    [clientId] + StringBytes(name)
  }

  /** Serialize: SerializeByte(clientId), then SerializeString(name); a null name
      throws on `s.Length` once the clientId byte is written. */
  function PutMember(c: Cursor, m: LobbyMember): Result<Cursor> {
    var c1 :- PutByte(c, m.clientId);
    if m.name.None? then Err(NullReference) else PutString(c1, m.name.value)
  }

  /** Deserialize: DeserializeByte, then DeserializeString; ID and isLocal are reset. */
  function GetMember(bytes: seq<byte>, offset: int): (r: Result<Read<LobbyMember>>)
    ensures r.Ok? ==> r.value.value.id.None? && !r.value.value.isLocal && r.value.value.name.Some?
  {
    var b :- GetByte(bytes, offset);
    var s :- GetString(bytes, b.next);
    Ok(Read(LobbyMember(b.value, Some(s.value), None, false), s.next))
  }

  /** SerializedSize(): 1 + 1 + name.Length, NullReference for a null name. */
  function SerializedSize(m: LobbyMember): Result<int> {
    if m.name.None? then Err(NullReference) else Ok(2 + CsLength(m.name.value))
  }

  // ------------------------------------------------------------------ methods

  /** LobbyMember.Serialize(buffer, ref offset) */
  method Serialize(m: LobbyMember, buffer: array<byte>, offset: int) returns (r: Result<int>)
    modifies buffer
    ensures Performed(PutMember(Cursor(old(buffer[..]), offset), m), r, buffer[..])
  {
    var step := SerializeByte(m.clientId, buffer, offset);
    if step.Err? {
      return step;
    }
    if m.name.None? {
      return Err(NullReference);
    }
    r := SerializeString(m.name.value, buffer, step.value);
  }

  /** LobbyMember.Deserialize(buffer, ref offset): the struct's new value and the new offset. */
  method Deserialize(buffer: array<byte>, offset: int) returns (r: Result<Read<LobbyMember>>)
    ensures r == GetMember(buffer[..], offset)
  {
    var b := DeserializeByte(buffer, offset);
    if b.Err? {
      return Err(b.fault);
    }
    var s := DeserializeString(buffer, b.value.next);
    if s.Err? {
      return Err(s.fault);
    }
    r := Ok(Read(LobbyMember(b.value.value, Some(s.value.value), None, false), s.value.next));
  }

  // ------------------------------------------------------------------ properties

  /** For every name, not only ASCII ones, Serialize moves the offset by exactly
      SerializedSize(): the size counts characters, and so does the offset. */
  lemma SizeIsAdvance(c: Cursor, m: LobbyMember)
    requires PutMember(c, m).Ok?
    ensures SerializedSize(m).Ok?
    ensures PutMember(c, m).value.offset == c.offset + SerializedSize(m).value
  {
  }

  /** A member without a name cannot be serialized: NullReference, or
      IndexOutOfRange when not even the clientId byte fits. */
  lemma NullNameFails(c: Cursor, m: LobbyMember)
    requires m.name.None?
    ensures PutMember(c, m).Err? && SerializedSize(m).Err?
    ensures PutMember(c, m).fault == if 0 <= c.offset < |c.bytes| then NullReference else IndexOutOfRange
  {
  }

  /** With a carried name that fits, Serialize lays down MemberBytes, whose length
      is SerializedSize(). */
  lemma PutMemberCarried(c: Cursor, m: LobbyMember)
    requires m.name.Some? && Carried(m.name.value)
    requires Fits(c, MemberBytes(m.clientId, m.name.value))
    ensures |MemberBytes(m.clientId, m.name.value)| == SerializedSize(m).value
    ensures PutMember(c, m) == Ok(Write(c, MemberBytes(m.clientId, m.name.value)))
  {
    var w := StringBytes(m.name.value);
    EncodeAscii(m.name.value);
    WriteWrite(c, [m.clientId], w);
    PutByteWrite(c, m.clientId);
    PutStringAscii(Write(c, [m.clientId]), m.name.value);
  }

  /** Deserialize reads a member back from wherever its MemberBytes stand. */
  lemma GetMemberAt(bytes: seq<byte>, at: int, m: LobbyMember)
    requires m.name.Some? && Carried(m.name.value)
    requires Holds(bytes, at, MemberBytes(m.clientId, m.name.value))
    ensures GetMember(bytes, at) == Ok(Read(Received(m), at + |MemberBytes(m.clientId, m.name.value)|))
  {
    var w := StringBytes(m.name.value);
    HoldsConcat(bytes, at, [m.clientId], w);
    GetStringAt(bytes, at + 1, m.name.value);
  }

  /** Deserialize after Serialize restores clientId and name (ASCII, at most 255
      characters) and ends at the same offset; ID and isLocal come back reset. */
  lemma MemberRoundTrip(c: Cursor, m: LobbyMember)
    requires m.name.Some? && Carried(m.name.value) && PutMember(c, m).Ok?
    ensures GetMember(PutMember(c, m).value.bytes, c.offset) == Ok(Read(Received(m), PutMember(c, m).value.offset))
  {
    var w := MemberBytes(m.clientId, m.name.value);
    EncodeAscii(m.name.value);
    assert Fits(c, w);
    PutMemberCarried(c, m);
    WriteHolds(c, w);
    GetMemberAt(Write(c, w).bytes, c.offset, m);
  }
}
