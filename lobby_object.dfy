/** The Lobby struct as the program uses it: a value whose Deserialize methods
    overwrite its fields in place and refill its member dictionary. */
module LobbyObjects {
  import opened Runtime
  import opened Utf8
  import opened Wire
  import opened WebsocketMessages
  import opened LobbyMembers
  import opened Lobbies

  class Lobby {
    var id: int32
    var code: Option<string>
    var name: Option<string>
    var isPrivate: bool
    var members: Option<Members>

    /** The fields, as one value. */
    function Value(): LobbyValue
      reads this
    {
      LobbyValue(id, code, name, isPrivate, members)
    }

    /** new Lobby(code, name, isPrivate): the id is derived from the code and the
        member dictionary starts empty. */
    constructor (code: string, name: string, isPrivate: bool)
      ensures Value() == LobbyValue(IdFromCode(code), Some(code), Some(name), isPrivate, Some([]))
      ensures IsEmpty()
    {
      this.code := Some(code);
      this.id := IdFromCode(code);
      this.name := Some(name);
      this.isPrivate := isPrivate;
      this.members := Some([]);
    }

    /** Lobby.Empty(), i.e. `new Lobby()`: every field at its default. */
    constructor Empty()
      ensures Value() == LobbyValue(0, None, None, false, None)
      ensures IsEmpty()
    {
      id := 0;
      code := None;
      name := None;
      isPrivate := false;
      members := None;
    }

    /** IsEmpty: no dictionary, or a dictionary without entries. */
    predicate IsEmpty()
      reads this
    {
      members.None? || |members.value| == 0
    }

    /** LocalMember: the first member flagged isLocal, in enumeration order (`First` throws when there is none). */
    function LocalMember(): (r: Result<LobbyMember>)
      reads this
      ensures r.Ok? ==> (members.Some? && r.value.isLocal
                         && exists i :: 0 <= i < |members.value| && members.value[i].1 == r.value
                                       && forall j :: 0 <= j < i ==> !members.value[j].1.isLocal)
      ensures r.Err? ==> r.fault == if members.None? then ArgumentNull else InvalidOperation
      ensures r.Err? && members.Some? ==> forall i :: 0 <= i < |members.value| ==> !members.value[i].1.isLocal
      ensures r.Ok? ==> FirstLocal(members.value).Some?
                        && r.value == members.value[FirstLocal(members.value).value].1
    {
      if members.None? then Err(ArgumentNull)
      else
        match FirstLocal(members.value)
        case None => Err(InvalidOperation)
        case Some(i) => Ok(members.value[i].1)
    }

    /** SerializedSizeLight() */
    function SerializedSizeLight(): Result<int>
      reads this
    {
      SizeLight(Value())
    }

    /** Serialize(buffer, ref offset): code, name and the member count, as
        SerializeLight writes them, then every member. */
    method Serialize(buffer: array<byte>, offset: int) returns (r: Result<int>)
      modifies buffer
      ensures Performed(PutLobby(Cursor(old(buffer[..]), offset), Value()), r, buffer[..])
    {
      LightThenMembers(Cursor(buffer[..], offset), Value());
      r := SerializeLight(buffer, offset);
      if r.Err? {
        return;
      }
      var d := members.value;
      var at := r.value;
      ghost var start := Cursor(buffer[..], at);
      var i := 0;
      while i < |d|
        invariant 0 <= i <= |d|
        invariant PutMembers(Cursor(buffer[..], at), d[i..]) == PutMembers(start, d)
      {
        assert d[i..][0] == d[i] && d[i..][1..] == d[i + 1..];
        var step := LobbyMembers.Serialize(d[i].1, buffer, at);
        if step.Err? {
          return step;
        }
        at := step.value;
        i := i + 1;
      }
      r := Ok(at);
    }

    /** Deserialize(buffer, ref offset): isPrivate is cleared, code, id and name are
        overwritten and the dictionary is emptied and refilled, each member under its
        own clientId. */
    method Deserialize(buffer: array<byte>, offset: int) returns (r: Result<int>)
      modifies this
      ensures match ReadLobby(buffer[..], offset)
        case Ok(rd) => r == Ok(rd.next) && Value() == rd.value
        case Err(f) => r == Err(f) && !isPrivate
    {
      ghost var bytes := buffer[..];
      isPrivate := false;
      var codeRead := DeserializeString(buffer, offset);
      if codeRead.Err? {
        return Err(codeRead.fault);
      }
      code := Some(codeRead.value.value);
      id := IdFromCode(codeRead.value.value);
      var nameRead := DeserializeString(buffer, codeRead.value.next);
      if nameRead.Err? {
        return Err(nameRead.fault);
      }
      name := Some(nameRead.value.value);
      var countRead := DeserializeByte(buffer, nameRead.value.next);
      if countRead.Err? {
        return Err(countRead.fault);
      }
      var count := countRead.value.value as nat;
      members := Some([]);
      ReadLobbyHeadRead(bytes, offset, codeRead.value, nameRead.value, countRead.value);
      var at := countRead.value.next;
      var i := 0;
      while i < count
        invariant 0 <= i <= count
        invariant members.Some? && buffer[..] == bytes
        invariant GetMembers(bytes, countRead.value.next, count, []) == GetMembers(bytes, at, count - i, members.value)
        invariant code == Some(codeRead.value.value) && id == IdFromCode(codeRead.value.value)
        invariant name == Some(nameRead.value.value) && !isPrivate
      {
        var member := LobbyMembers.Deserialize(buffer, at);
        GetMembersStep(bytes, at, count - i, members.value);
        if member.Err? {
          return Err(member.fault);
        }
        members := Some(Set(members.value, member.value.value.clientId, member.value.value));
        at := member.value.next;
        i := i + 1;
      }
      r := Ok(at);
    }

    /** SerializedSize(): the light size plus each member's size, accumulated. */
    method SerializedSize() returns (r: Result<int>)
      ensures r == Size(Value())
    {
      if code.None? || name.None? {
        return Err(NullReference);
      }
      var size := 2 + CsLength(code.value) + CsLength(name.value) + 1;
      if members.None? {
        return Err(NullReference);
      }
      var d := members.value;
      var i := 0;
      while i < |d|
        invariant 0 <= i <= |d|
        invariant MembersSize(d[i..], size) == Size(Value())
      {
        assert d[i..][0] == d[i] && d[i..][1..] == d[i + 1..];
        var s := LobbyMembers.SerializedSize(d[i].1);
        if s.Err? {
          return Err(s.fault);
        }
        size := size + s.value;
        i := i + 1;
      }
      r := Ok(size);
    }

    /** SerializeLight(buffer, ref offset): code, name and the member count. */
    method SerializeLight(buffer: array<byte>, offset: int) returns (r: Result<int>)
      modifies buffer
      ensures Performed(PutLobbyLight(Cursor(old(buffer[..]), offset), Value()), r, buffer[..])
    {
      if code.None? {
        return Err(NullReference);
      }
      var step := SerializeString(code.value, buffer, offset);
      if step.Err? {
        return step;
      }
      if name.None? {
        return Err(NullReference);
      }
      step := SerializeString(name.value, buffer, step.value);
      if step.Err? {
        return step;
      }
      if members.None? {
        return Err(NullReference);
      }
      r := SerializeByte(CountByte(members.value), buffer, step.value);
    }

    /** DeserializeLight(buffer, ref offset): like Deserialize, but the dictionary is
        refilled with `count` default members under the keys 0..count-1. */
    method DeserializeLight(buffer: array<byte>, offset: int) returns (r: Result<int>)
      modifies this
      ensures match ReadLobbyLight(buffer[..], offset)
        case Ok(rd) => r == Ok(rd.next) && Value() == rd.value
        case Err(f) => r == Err(f) && !isPrivate
    {
      isPrivate := false;
      var codeRead := DeserializeString(buffer, offset);
      if codeRead.Err? {
        return Err(codeRead.fault);
      }
      code := Some(codeRead.value.value);
      id := IdFromCode(codeRead.value.value);
      var nameRead := DeserializeString(buffer, codeRead.value.next);
      if nameRead.Err? {
        return Err(nameRead.fault);
      }
      name := Some(nameRead.value.value);
      var countRead := DeserializeByte(buffer, nameRead.value.next);
      if countRead.Err? {
        return Err(countRead.fault);
      }
      var count := countRead.value.value as nat;
      members := Some([]);
      var i := 0;
      while i < count
        invariant 0 <= i <= count
        invariant members == Some(Placeholders(i))
        invariant code == Some(codeRead.value.value) && id == IdFromCode(codeRead.value.value)
        invariant name == Some(nameRead.value.value) && !isPrivate
      {
        PlaceholdersStep(i);
        members := Some(Set(members.value, i as byte, Default));
        i := i + 1;
      }
      r := Ok(countRead.value.next);
    }
  }
}
