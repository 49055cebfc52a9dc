/** Lobby: the data of a lobby and its two wire forms, the full one (code, name,
    member count, members) and the light one without members that makes up the
    public lobby list. */
module Lobbies {
  import opened Runtime
  import opened Utf8
  import opened Wire
  import opened WebsocketMessages
  import opened LobbyMembers

  // ------------------------------------------------------------------ members dictionary

  /** Dictionary<byte, LobbyMember> as its entries in enumeration order. The core
      only adds entries and clears the whole dictionary, so that order is the order
      of insertion. */
  type Members = seq<(byte, LobbyMember)>

  function Keys(d: Members): seq<byte> {
    seq(|d|, i requires 0 <= i < |d| => d[i].0)
  }

  /** `members[key] = value`: the value is replaced in place when the key is
      present, and a new entry is appended otherwise. */
  function Set(d: Members, key: byte, value: LobbyMember): (r: Members)
    ensures key in Keys(r)
    ensures |r| == if key in Keys(d) then |d| else |d| + 1
    decreases |d|
  {
    if d == [] then
      var r := [(key, value)];
      assert Keys(r)[0] == key;
      r
    else if d[0].0 == key then
      assert Keys(d)[0] == key;
      var r := [(key, value)] + d[1..];
      assert Keys(r)[0] == key;
      r
    else
      assert Keys(d) == [d[0].0] + Keys(d[1..]);
      var r := [d[0]] + Set(d[1..], key, value);
      assert Keys(r) == [d[0].0] + Keys(Set(d[1..], key, value));
      r
  }

  /** Each key is the clientId of its member, as the relay fills the dictionary. */
  predicate KeyedByClientId(d: Members) {
    forall i :: 0 <= i < |d| ==> d[i].0 == d[i].1.clientId
  }

  predicate DistinctKeys(d: Members) {
    forall i, j :: 0 <= i < j < |d| ==> d[i].0 != d[j].0
  }

  /** Every member has a name the codec carries faithfully. */
  predicate CarriedNames(d: Members) {
    forall i :: 0 <= i < |d| ==> d[i].1.name.Some? && Carried(d[i].1.name.value)
  }

  /** The members as Deserialize rebuilds them: same keys, ID and isLocal reset. */
  function ReceivedAll(d: Members): (r: Members)
    ensures |r| == |d| && Keys(r) == Keys(d)
  {
    seq(|d|, i requires 0 <= i < |d| => (d[i].0, Received(d[i].1)))
  }

  /** DeserializeLight's members: `count` default members under the keys 0..count-1. */
  function Placeholders(count: nat): (r: Members)
    requires count <= 0x100
    ensures |r| == count
  {
    seq(count, i requires 0 <= i < count => (i as byte, Default))
  }

  /** Where `members.First(member => member.Value.isLocal)` stops: the index of the
      first entry whose member is local, None when there is none. */
  function FirstLocal(d: Members): (r: Option<nat>)
    ensures r.Some? ==> (r.value < |d| && d[r.value].1.isLocal
                         && forall j :: 0 <= j < r.value ==> !d[j].1.isLocal)
    ensures r.None? ==> forall j :: 0 <= j < |d| ==> !d[j].1.isLocal
    decreases |d|
  {
    if d == [] then None
    else if d[0].1.isLocal then Some(0)
    else
      match FirstLocal(d[1..])
      case None => None
      case Some(k) => Some(k + 1)
  }

  // ------------------------------------------------------------------ lobby values

  /** IdFromCode(joincode) */
  function IdFromCode(code: string): int32 {
    StringHashCode(code)
  }

  /** The fields of the Lobby struct; a null string or dictionary is None (as in
      `new Lobby()`). */
  datatype LobbyValue = LobbyValue(id: int32, code: Option<string>, name: Option<string>, isPrivate: bool,
                                   members: Option<Members>)

  /** The member count as the full and the light form write it: `(byte)members.Count`. */
  function CountByte(d: Members): byte {
    ToByte(|d|)
  }

  /** SerializeString of a field that may be null: `s.Length` throws first. */
  function PutField(c: Cursor, s: Option<string>): Result<Cursor> {
    if s.None? then Err(NullReference) else PutString(c, s.value)
  }

  /** Serialize: code, name, the member count, then each member in turn. */
  function PutLobby(c: Cursor, v: LobbyValue): Result<Cursor> {
    var c1 :- PutField(c, v.code);
    var c2 :- PutField(c1, v.name);
    if v.members.None? then Err(NullReference)
    else
      var c3 :- PutByte(c2, CountByte(v.members.value));
      PutMembers(c3, v.members.value)
  }

  function PutMembers(c: Cursor, d: Members): Result<Cursor>
    decreases |d|
  {
    if d == [] then Ok(c)
    else
      var c1 :- PutMember(c, d[0].1);
      PutMembers(c1, d[1..])
  }

  /** SerializeLight: code, name and the member count only. */
  function PutLobbyLight(c: Cursor, v: LobbyValue): Result<Cursor> {
    var c1 :- PutField(c, v.code);
    var c2 :- PutField(c1, v.name);
    if v.members.None? then Err(NullReference) else PutByte(c2, CountByte(v.members.value))
  }

  /** Deserialize: the lobby read at `offset`; isPrivate is false and the id is
      recomputed from the code; each member is stored under its own clientId. */
  function ReadLobby(bytes: seq<byte>, offset: int): Result<Read<LobbyValue>> {
    var code :- GetString(bytes, offset);
    var name :- GetString(bytes, code.next);
    var count :- GetByte(bytes, name.next);
    var d :- GetMembers(bytes, count.next, count.value as nat, []);
    Ok(Read(LobbyValue(IdFromCode(code.value), Some(code.value), Some(name.value), false, Some(d.value)), d.next))
  }

  /** The `for` loop of Deserialize: `count` more members, added to `acc`. */
  function GetMembers(bytes: seq<byte>, offset: int, count: nat, acc: Members): Result<Read<Members>>
    decreases count
  {
    if count == 0 then Ok(Read(acc, offset))
    else
      var m :- GetMember(bytes, offset);
      GetMembers(bytes, m.next, count - 1, Set(acc, m.value.clientId, m.value))
  }

  /** One turn of Deserialize's loop: the member read at `offset` is stored and
      the rest are read after it, or its fault is the loop's. */
  lemma GetMembersStep(bytes: seq<byte>, offset: int, count: nat, acc: Members)
    requires count > 0
    ensures match GetMember(bytes, offset)
      case Ok(m) => GetMembers(bytes, offset, count, acc) == GetMembers(bytes, m.next, count - 1, Set(acc, m.value.clientId, m.value))
      case Err(f) => GetMembers(bytes, offset, count, acc) == Err(f)
  {
  }

  /** Deserialize once code, name and count are read: what is left is the loop. */
  lemma ReadLobbyHeadRead(bytes: seq<byte>, offset: int, code: Read<string>, name: Read<string>, count: Read<byte>)
    requires GetString(bytes, offset) == Ok(code) && GetString(bytes, code.next) == Ok(name)
    requires GetByte(bytes, name.next) == Ok(count)
    ensures match GetMembers(bytes, count.next, count.value as nat, [])
      case Ok(d) => ReadLobby(bytes, offset)
                    == Ok(Read(LobbyValue(IdFromCode(code.value), Some(code.value), Some(name.value), false, Some(d.value)), d.next))
      case Err(f) => ReadLobby(bytes, offset) == Err(f)
  {
  }

  /** DeserializeLight: code, name, count; the members are placeholders. */
  function ReadLobbyLight(bytes: seq<byte>, offset: int): (r: Result<Read<LobbyValue>>)
    ensures r.Ok? ==> r.value.next >= offset + 3
  {
    var code :- GetString(bytes, offset);
    var name :- GetString(bytes, code.next);
    var count :- GetByte(bytes, name.next);
    Ok(Read(LobbyValue(IdFromCode(code.value), Some(code.value), Some(name.value), false,
                       Some(Placeholders(count.value as nat))),
            count.next))
  }

  /** SerializedSizeLight(): 2 + code.Length + name.Length + 1, NullReference
      when a string is null. */
  function SizeLight(v: LobbyValue): Result<int> {
    if v.code.None? || v.name.None? then Err(NullReference)
    else Ok(2 + CsLength(v.code.value) + CsLength(v.name.value) + 1)
  }

  /** SerializedSize(): the light size plus every member's size, NullReference when
      the dictionary or a member's name is null. */
  function Size(v: LobbyValue): Result<int> {
    var light :- SizeLight(v);
    if v.members.None? then Err(NullReference) else MembersSize(v.members.value, light)
  }

  /** The foreach of SerializedSize, with `size` the running total. */
  function MembersSize(d: Members, size: int): Result<int>
    decreases |d|
  {
    if d == [] then Ok(size)
    else
      var s :- SerializedSize(d[0].1);
      MembersSize(d[1..], size + s)
  }

  // ------------------------------------------------------------------ layouts

  /** The bytes Serialize lays down for members whose names are carried. */
  function MembersBytes(d: Members): seq<byte>
    requires CarriedNames(d)
    decreases |d|
  {
    if d == [] then []
    else
      assert CarriedNames(d[1..]) by {
        forall i | 0 <= i < |d[1..]| ensures d[1..][i] == d[i + 1] { }
      }
      MemberBytes(d[0].1.clientId, d[0].1.name.value) + MembersBytes(d[1..])
  }

  /** A lobby the full form carries faithfully: ASCII code, name and member names
      of at most 255 characters, at most 255 members, each keyed by its clientId. */
  predicate Carriable(v: LobbyValue) {
    && CarriedText(v) && v.members.Some?
    && |v.members.value| <= 0xFF
    && CarriedNames(v.members.value) && KeyedByClientId(v.members.value) && DistinctKeys(v.members.value)
  }

  /** A lobby the light form carries faithfully: ASCII code and name of at most
      255 characters, and a member dictionary. */
  predicate LightCarriable(v: LobbyValue) {
    CarriedText(v) && v.members.Some?
  }

  /** Code and name are present, ASCII and of at most 255 characters. */
  predicate CarriedText(v: LobbyValue) {
    v.code.Some? && v.name.Some? && Carried(v.code.value) && Carried(v.name.value)
  }

  function LobbyBytes(v: LobbyValue): seq<byte>
    requires v.code.Some? && v.name.Some? && v.members.Some? && CarriedNames(v.members.value)
  {
    StringBytes(v.code.value) + StringBytes(v.name.value) + [CountByte(v.members.value)] + MembersBytes(v.members.value)
  }

  function LightBytes(v: LobbyValue): seq<byte>
    requires v.code.Some? && v.name.Some? && v.members.Some?
  {
    StringBytes(v.code.value) + StringBytes(v.name.value) + [CountByte(v.members.value)]
  }

  /** A lobby as Deserialize rebuilds it. */
  function Decoded(v: LobbyValue): LobbyValue
    requires v.code.Some? && v.members.Some?
  {
    LobbyValue(IdFromCode(v.code.value), v.code, v.name, false, Some(ReceivedAll(v.members.value)))
  }

  /** A lobby as DeserializeLight rebuilds it: the count survives (modulo 256), the
      members do not. */
  function LightDecoded(v: LobbyValue): LobbyValue
    requires v.code.Some? && v.members.Some?
  {
    LobbyValue(IdFromCode(v.code.value), v.code, v.name, false, Some(Placeholders(CountByte(v.members.value) as nat)))
  }

  // ------------------------------------------------------------------ dictionary properties

  /** Setting an absent key appends the entry. */
  lemma {:induction false} SetAbsent(d: Members, key: byte, value: LobbyMember)
    requires key !in Keys(d)
    ensures Set(d, key, value) == d + [(key, value)]
    decreases |d|
  {
    if d != [] {
      assert Keys(d)[0] == d[0].0;
      assert key !in Keys(d[1..]) by {
        forall i | 0 <= i < |d[1..]| ensures Keys(d[1..])[i] == Keys(d)[i + 1] { }
      }
      SetAbsent(d[1..], key, value);
      assert [d[0]] + (d[1..] + [(key, value)]) == d + [(key, value)];
    }
  }

  /** Setting a present key replaces its value where it stands; nothing else changes. */
  lemma {:induction false} SetPresent(d: Members, key: byte, value: LobbyMember, i: nat)
    requires i < |d| && d[i].0 == key
    requires forall j :: 0 <= j < i ==> d[j].0 != key
    ensures Set(d, key, value) == d[i := (key, value)]
    decreases |d|
  {
    if i > 0 {
      SetPresent(d[1..], key, value, i - 1);
      assert [d[0]] + d[1..][i - 1 := (key, value)] == d[i := (key, value)];
    }
  }

  lemma KeysAppend(d: Members, e: (byte, LobbyMember))
    ensures Keys(d + [e]) == Keys(d) + [e.0]
  {
  }

  /** DeserializeLight's loop: placing a default member under key i after the
      keys 0..i-1 appends it. */
  lemma PlaceholdersStep(i: nat)
    requires i < 0x100
    ensures Set(Placeholders(i), i as byte, Default) == Placeholders(i + 1)
  {
    assert i as byte !in Keys(Placeholders(i)) by {
      forall j | 0 <= j < i ensures Keys(Placeholders(i))[j] != i as byte {
        assert Keys(Placeholders(i))[j] == j as byte;
      }
    }
    SetAbsent(Placeholders(i), i as byte, Default);
  }

  // ------------------------------------------------------------------ wire properties

  lemma CarriedNamesTail(d: Members)
    requires d != [] && CarriedNames(d)
    ensures CarriedNames(d[1..]) && d[0].1.name.Some? && Carried(d[0].1.name.value)
    ensures MembersBytes(d) == MemberBytes(d[0].1.clientId, d[0].1.name.value) + MembersBytes(d[1..])
  {
    assert d[0] == d[0];
  }

  /** Members with carried names are laid down as MembersBytes, one after the other. */
  lemma {:induction false} PutMembersCarried(c: Cursor, d: Members)
    requires CarriedNames(d) && Fits(c, MembersBytes(d))
    ensures PutMembers(c, d) == Ok(Write(c, MembersBytes(d)))
    decreases |d|
  {
    if d == [] {
      assert Splice(c.bytes, c.offset, []) == c.bytes;
    } else {
      CarriedNamesTail(d);
      var m := d[0].1;
      var w := MemberBytes(m.clientId, m.name.value);
      WriteWrite(c, w, MembersBytes(d[1..]));
      PutMemberCarried(c, m);
      PutMembersCarried(Write(c, w), d[1..]);
    }
  }

  /** The members a carried dictionary's bytes hold, as LobbyMember.Deserialize
      returns them, in order. */
  function ReceivedList(d: Members): (r: seq<LobbyMember>)
    ensures |r| == |d|
  {
    seq(|d|, i requires 0 <= i < |d| => Received(d[i].1))
  }

  /** `count` members read one after the other, before any is stored. */
  function ReadMembers(bytes: seq<byte>, offset: int, count: nat): Result<Read<seq<LobbyMember>>>
    decreases count
  {
    if count == 0 then Ok(Read([], offset))
    else
      var m :- GetMember(bytes, offset);
      var rest :- ReadMembers(bytes, m.next, count - 1);
      Ok(Read([m.value] + rest.value, rest.next))
  }

  /** Each member stored under its clientId, in order. */
  function SetAll(acc: Members, ms: seq<LobbyMember>): Members
    decreases |ms|
  {
    if ms == [] then acc else SetAll(Set(acc, ms[0].clientId, ms[0]), ms[1..])
  }

  /** Deserialize's loop, which stores each member as soon as it is read, ends
      like reading them all first and storing them afterwards. */
  lemma {:induction false} GetMembersFold(bytes: seq<byte>, offset: int, count: nat, acc: Members)
    ensures GetMembers(bytes, offset, count, acc)
         == match ReadMembers(bytes, offset, count)
            case Ok(r) => Ok(Read(SetAll(acc, r.value), r.next))
            case Err(f) => Err(f)
    decreases count
  {
    if count > 0 {
      match GetMember(bytes, offset) {
        case Ok(m) =>
          GetMembersFold(bytes, m.next, count - 1, Set(acc, m.value.clientId, m.value));
          match ReadMembers(bytes, m.next, count - 1) {
            case Ok(r) =>
              assert ([m.value] + r.value)[1..] == r.value;
            case Err(_) =>
          }
        case Err(_) =>
      }
    }
  }

  /** Each member of `d`, one after the other from `at` on, reads back as
      LobbyMember.Deserialize returns it. */
  predicate MembersRead(bytes: seq<byte>, at: int, d: Members)
    requires CarriedNames(d)
    decreases |d|
  {
    if d == [] then true
    else
      assert CarriedNames(d[1..]) by {
        CarriedNamesTail(d);
      }
      && GetMember(bytes, at) == Ok(Read(Received(d[0].1), NextAt(at, d)))
      && MembersRead(bytes, NextAt(at, d), d[1..])
  }

  /** Where the second member's bytes start when the first one's start at `at`. */
  function NextAt(at: int, d: Members): int
    requires d != [] && CarriedNames(d)
  {
    at + |MemberBytes(d[0].1.clientId, d[0].1.name.value)|
  }

  /** Members with carried names read back from wherever their MembersBytes stand. */
  lemma {:induction false} HoldsMembersRead(bytes: seq<byte>, at: int, d: Members)
    requires CarriedNames(d) && Holds(bytes, at, MembersBytes(d))
    ensures MembersRead(bytes, at, d)
    decreases |d|
  {
    if d != [] {
      MembersSplit(bytes, at, d);
      GetMemberAt(bytes, at, d[0].1);
      HoldsMembersRead(bytes, NextAt(at, d), d[1..]);
    }
  }

  /** The bytes of a dictionary with carried names: the first member's, then
      the others' right after them. */
  lemma MembersSplit(bytes: seq<byte>, at: int, d: Members)
    requires d != [] && CarriedNames(d) && Holds(bytes, at, MembersBytes(d))
    ensures d[0].1.name.Some? && Carried(d[0].1.name.value)
    ensures Holds(bytes, at, MemberBytes(d[0].1.clientId, d[0].1.name.value))
    ensures CarriedNames(d[1..]) && Holds(bytes, NextAt(at, d), MembersBytes(d[1..]))
  {
    CarriedNamesTail(d);
    HoldsConcat(bytes, at, MemberBytes(d[0].1.clientId, d[0].1.name.value), MembersBytes(d[1..]));
  }

  /** The members read back one after the other are read back together. */
  lemma {:induction false} ReadMembersAt(bytes: seq<byte>, at: int, d: Members)
    requires CarriedNames(d) && MembersRead(bytes, at, d)
    ensures ReadMembers(bytes, at, |d|) == Ok(Read(ReceivedList(d), at + |MembersBytes(d)|))
    decreases |d|
  {
    if d == [] {
      assert ReceivedList(d) == [];
    } else {
      CarriedNamesTail(d);
      ReadMembersAt(bytes, NextAt(at, d), d[1..]);
      ReadMembersCons(bytes, at, d, at + |MembersBytes(d)|);
    }
  }

  /** ReadMembersAt's step: the first member in front of the others read back. */
  lemma ReadMembersCons(bytes: seq<byte>, at: int, d: Members, end: int)
    requires d != [] && CarriedNames(d)
    requires GetMember(bytes, at) == Ok(Read(Received(d[0].1), NextAt(at, d)))
    requires ReadMembers(bytes, NextAt(at, d), |d[1..]|) == Ok(Read(ReceivedList(d[1..]), end))
    ensures ReadMembers(bytes, at, |d|) == Ok(Read(ReceivedList(d), end))
  {
    assert |d| - 1 == |d[1..]|;
    assert [Received(d[0].1)] + ReceivedList(d[1..]) == ReceivedList(d);
  }

  /** Storing members under fresh, distinct keys appends them in order. */
  lemma {:induction false} SetAllFresh(acc: Members, d: Members)
    requires KeyedByClientId(d) && DistinctKeys(d)
    requires forall i :: 0 <= i < |d| ==> d[i].0 !in Keys(acc)
    ensures SetAll(acc, ReceivedList(d)) == acc + ReceivedAll(d)
    decreases |d|
  {
    if d == [] {
      assert acc + ReceivedAll(d) == acc;
    } else {
      var d' := d[1..];
      var e := (d[0].0, Received(d[0].1));
      assert ReceivedList(d)[1..] == ReceivedList(d');
      assert Set(acc, ReceivedList(d)[0].clientId, ReceivedList(d)[0]) == acc + [e] by {
        SetAbsent(acc, d[0].0, Received(d[0].1));
      }
      assert forall i :: 0 <= i < |d'| ==> d'[i].0 !in Keys(acc + [e]) by {
        KeysAppend(acc, e);
        forall i | 0 <= i < |d'| ensures d'[i].0 !in Keys(acc + [e]) {
          assert d'[i] == d[i + 1];
        }
      }
      assert KeyedByClientId(d') && DistinctKeys(d') by {
        forall i | 0 <= i < |d'| ensures d'[i] == d[i + 1] { }
      }
      SetAllFresh(acc + [e], d');
      assert (acc + [e]) + ReceivedAll(d') == acc + ReceivedAll(d);
    }
  }

  /** Deserialize's loop reads a carriable dictionary back, from the empty
      dictionary: every key is new, so each member is appended in turn. */
  lemma GetAllMembersAt(bytes: seq<byte>, at: int, d: Members, count: nat)
    requires CarriedNames(d) && KeyedByClientId(d) && DistinctKeys(d)
    requires Holds(bytes, at, MembersBytes(d)) && count == |d|
    ensures GetMembers(bytes, at, count, []) == Ok(Read(ReceivedAll(d), at + |MembersBytes(d)|))
  {
    assert ReadMembers(bytes, at, count) == Ok(Read(ReceivedList(d), at + |MembersBytes(d)|)) by {
      HoldsMembersRead(bytes, at, d);
      ReadMembersAt(bytes, at, d);
    }
    assert SetAll([], ReceivedList(d)) == ReceivedAll(d) by {
      SetAllFresh([], d);
      assert [] + ReceivedAll(d) == ReceivedAll(d);
    }
    GetMembersRead(bytes, at, count, ReceivedList(d), at + |MembersBytes(d)|);
  }

  /** GetMembersFold from the empty dictionary, once the members read are known. */
  lemma GetMembersRead(bytes: seq<byte>, at: int, count: nat, ms: seq<LobbyMember>, end: int)
    requires ReadMembers(bytes, at, count) == Ok(Read(ms, end))
    ensures GetMembers(bytes, at, count, []) == Ok(Read(SetAll([], ms), end))
  {
    GetMembersFold(bytes, at, count, []);
  }

  /** For every dictionary, not only carried ones, the member loop moves the offset
      by the sum of the members' SerializedSize(). */
  lemma {:induction false} MembersAdvance(c: Cursor, d: Members, size: int)
    requires PutMembers(c, d).Ok?
    ensures MembersSize(d, size).Ok?
    ensures PutMembers(c, d).value.offset - c.offset == MembersSize(d, size).value - size
    decreases |d|
  {
    if d != [] {
      LobbyMembers.SizeIsAdvance(c, d[0].1);
      var c1 := PutMember(c, d[0].1).value;
      MembersAdvance(c1, d[1..], size + SerializedSize(d[0].1).value);
    }
  }

  /** Serialize moves the offset by exactly SerializedSize(), whatever the strings:
      both count characters. */
  lemma SizeIsAdvance(c: Cursor, v: LobbyValue)
    requires PutLobby(c, v).Ok?
    ensures Size(v).Ok? && PutLobby(c, v).value.offset == c.offset + Size(v).value
  {
    var c1 := PutString(c, v.code.value).value;
    var c2 := PutString(c1, v.name.value).value;
    var c3 := PutByte(c2, CountByte(v.members.value)).value;
    MembersAdvance(c3, v.members.value, SizeLight(v).value);
  }

  /** SerializeLight moves the offset by exactly SerializedSizeLight(). */
  lemma LightSizeIsAdvance(c: Cursor, v: LobbyValue)
    requires PutLobbyLight(c, v).Ok?
    ensures SizeLight(v).Ok? && PutLobbyLight(c, v).value.offset == c.offset + SizeLight(v).value
  {
  }

  /** A lobby whose code, name and member names are carried is laid down as LobbyBytes. */
  lemma PutLobbyCarried(c: Cursor, v: LobbyValue)
    requires CarriedText(v) && v.members.Some? && CarriedNames(v.members.value)
    requires Fits(c, LobbyBytes(v))
    ensures PutLobby(c, v) == Ok(Write(c, LobbyBytes(v)))
  {
    var d := v.members.value;
    var a, b, n := StringBytes(v.code.value), StringBytes(v.name.value), [CountByte(d)];
    var c1, c2, c3 := Write(c, a), Write(c, a + b), Write(c, a + b + n);
    assert PutField(c, v.code) == Ok(c1) by {
      WriteWrite(c, a, b + n + MembersBytes(d));
      PutStringAscii(c, v.code.value);
    }
    assert PutField(c1, v.name) == Ok(c2) by {
      WriteWrite(c, a + b, n + MembersBytes(d));
      WriteWrite(c, a, b);
      PutStringAscii(c1, v.name.value);
    }
    assert PutByte(c2, CountByte(d)) == Ok(c3) by {
      WriteWrite(c, a + b + n, MembersBytes(d));
      WriteWrite(c, a + b, n);
      PutByteWrite(c2, CountByte(d));
    }
    assert PutMembers(c3, d) == Ok(Write(c, LobbyBytes(v))) by {
      WriteWrite(c, a + b + n, MembersBytes(d));
      PutMembersCarried(c3, d);
    }
    PutLobbyHead(c, v, c1, c2, c3, Write(c, LobbyBytes(v)));
  }

  /** The full form starts with the light form: Serialize is SerializeLight followed
      by the members. */
  lemma LightThenMembers(c: Cursor, v: LobbyValue)
    ensures PutLobbyLight(c, v).Err? ==> PutLobby(c, v) == Err(PutLobbyLight(c, v).fault)
    ensures PutLobbyLight(c, v).Ok? ==> v.members.Some? && PutLobby(c, v) == PutMembers(PutLobbyLight(c, v).value, v.members.value)
  {
  }

  /** PutLobby, once each of its steps is known. */
  lemma PutLobbyHead(c: Cursor, v: LobbyValue, c1: Cursor, c2: Cursor, c3: Cursor, c4: Cursor)
    requires v.members.Some?
    requires PutField(c, v.code) == Ok(c1) && PutField(c1, v.name) == Ok(c2)
    requires PutByte(c2, CountByte(v.members.value)) == Ok(c3) && PutMembers(c3, v.members.value) == Ok(c4)
    ensures PutLobby(c, v) == Ok(c4)
  {
  }

  /** The three fields both forms start with: code, name and the count byte, read
      back from wherever they stand, followed by `rest`. */
  lemma HeadAt(bytes: seq<byte>, at: int, code: string, name: string, count: byte, rest: seq<byte>)
    requires Carried(code) && Carried(name)
    requires Holds(bytes, at, StringBytes(code) + StringBytes(name) + [count] + rest)
    ensures var at1 := at + |StringBytes(code)|;
            var at2 := at1 + |StringBytes(name)|;
            && GetString(bytes, at) == Ok(Read(code, at1))
            && GetString(bytes, at1) == Ok(Read(name, at2))
            && GetByte(bytes, at2) == Ok(Read(count, at2 + 1))
            && Holds(bytes, at2 + 1, rest)
  {
    var a, b, n := StringBytes(code), StringBytes(name), [count];
    HoldsConcat(bytes, at, a + b + n, rest);
    HoldsConcat(bytes, at, a + b, n);
    HoldsConcat(bytes, at, a, b);
    GetStringAt(bytes, at, code);
    GetStringAt(bytes, at + |a|, name);
  }

  /** Deserialize reads a carriable lobby back from wherever its LobbyBytes stand. */
  lemma GetLobbyAt(bytes: seq<byte>, at: int, v: LobbyValue)
    requires Carriable(v) && Holds(bytes, at, LobbyBytes(v))
    ensures ReadLobby(bytes, at) == Ok(Read(Decoded(v), at + |LobbyBytes(v)|))
  {
    ReadLobbyAt(bytes, at, v.code.value, v.name.value, v.members.value);
  }

  /** GetLobbyAt, field by field. */
  lemma ReadLobbyAt(bytes: seq<byte>, at: int, code: string, name: string, d: Members)
    requires Carried(code) && Carried(name) && |d| <= 0xFF
    requires CarriedNames(d) && KeyedByClientId(d) && DistinctKeys(d)
    requires Holds(bytes, at, StringBytes(code) + StringBytes(name) + [CountByte(d)] + MembersBytes(d))
    ensures ReadLobby(bytes, at)
         == Ok(Read(LobbyValue(IdFromCode(code), Some(code), Some(name), false, Some(ReceivedAll(d))),
                    at + |StringBytes(code)| + |StringBytes(name)| + 1 + |MembersBytes(d)|))
  {
    LobbyFieldsAt(bytes, at, code, name, d);
    ReadLobbyHead(bytes, at, code, name, CountByte(d), at + |StringBytes(code)|,
                  at + |StringBytes(code)| + |StringBytes(name)|, ReceivedAll(d),
                  at + |StringBytes(code)| + |StringBytes(name)| + 1 + |MembersBytes(d)|);
  }

  /** Each field of a carriable lobby reads back from where Serialize put it. */
  lemma LobbyFieldsAt(bytes: seq<byte>, at: int, code: string, name: string, d: Members)
    requires Carried(code) && Carried(name) && |d| <= 0xFF
    requires CarriedNames(d) && KeyedByClientId(d) && DistinctKeys(d)
    requires Holds(bytes, at, StringBytes(code) + StringBytes(name) + [CountByte(d)] + MembersBytes(d))
    ensures GetString(bytes, at) == Ok(Read(code, at + |StringBytes(code)|))
    ensures GetString(bytes, at + |StringBytes(code)|) == Ok(Read(name, at + |StringBytes(code)| + |StringBytes(name)|))
    ensures GetByte(bytes, at + |StringBytes(code)| + |StringBytes(name)|)
         == Ok(Read(CountByte(d), at + |StringBytes(code)| + |StringBytes(name)| + 1))
    ensures GetMembers(bytes, at + |StringBytes(code)| + |StringBytes(name)| + 1, CountByte(d) as nat, [])
         == Ok(Read(ReceivedAll(d), at + |StringBytes(code)| + |StringBytes(name)| + 1 + |MembersBytes(d)|))
  {
    HeadAt(bytes, at, code, name, CountByte(d), MembersBytes(d));
    CountByteSmall(d);
    GetAllMembersAt(bytes, at + |StringBytes(code)| + |StringBytes(name)| + 1, d, CountByte(d) as nat);
  }

  /** ReadLobby, once its three head fields and the member loop are known. */
  lemma ReadLobbyHead(bytes: seq<byte>, at: int, code: string, name: string, count: byte,
                      at1: int, at2: int, d: Members, end: int)
    requires GetString(bytes, at) == Ok(Read(code, at1))
    requires GetString(bytes, at1) == Ok(Read(name, at2))
    requires GetByte(bytes, at2) == Ok(Read(count, at2 + 1))
    requires GetMembers(bytes, at2 + 1, count as nat, []) == Ok(Read(d, end))
    ensures ReadLobby(bytes, at) == Ok(Read(LobbyValue(IdFromCode(code), Some(code), Some(name), false, Some(d)), end))
  {
  }

  /** A count below 256 survives the byte cast. */
  lemma CountByteSmall(d: Members)
    requires |d| <= 0xFF
    ensures CountByte(d) as int == |d|
  {
  }

  /** SerializedSize() of a carriable lobby is the length of its bytes. */
  lemma SizeCarried(v: LobbyValue)
    requires Carriable(v)
    ensures Size(v) == Ok(|LobbyBytes(v)|)
  {
    var c := Cursor(Zeros(|LobbyBytes(v)|), 0);
    PutLobbyCarried(c, v);
    SizeIsAdvance(c, v);
  }

  /** A lobby whose code and name are carried is laid down as LightBytes. */
  lemma PutLightCarried(c: Cursor, v: LobbyValue)
    requires LightCarriable(v) && Fits(c, LightBytes(v))
    ensures PutLobbyLight(c, v) == Ok(Write(c, LightBytes(v)))
    ensures SizeLight(v) == Ok(|LightBytes(v)|)
  {
    var a, b, n := StringBytes(v.code.value), StringBytes(v.name.value), [CountByte(v.members.value)];
    EncodeAscii(v.code.value);
    EncodeAscii(v.name.value);
    WriteWrite(c, a + b, n);
    WriteWrite(c, a, b);
    PutStringAscii(c, v.code.value);
    PutStringAscii(Write(c, a), v.name.value);
    PutByteWrite(Write(c, a + b), CountByte(v.members.value));
  }

  /** DeserializeLight reads code and name back and makes as many placeholder
      members as the count byte says: the member count modulo 256. */
  lemma GetLightAt(bytes: seq<byte>, at: int, v: LobbyValue)
    requires LightCarriable(v) && Holds(bytes, at, LightBytes(v))
    ensures ReadLobbyLight(bytes, at) == Ok(Read(LightDecoded(v), at + |LightBytes(v)|))
    ensures CountByte(v.members.value) as int == |v.members.value| % 0x100
  {
    ReadLightAt(bytes, at, v.code.value, v.name.value, CountByte(v.members.value));
  }

  /** GetLightAt, field by field. */
  lemma ReadLightAt(bytes: seq<byte>, at: int, code: string, name: string, count: byte)
    requires Carried(code) && Carried(name)
    requires Holds(bytes, at, StringBytes(code) + StringBytes(name) + [count])
    ensures ReadLobbyLight(bytes, at)
         == Ok(Read(LobbyValue(IdFromCode(code), Some(code), Some(name), false, Some(Placeholders(count as nat))),
                    at + |StringBytes(code)| + |StringBytes(name)| + 1))
  {
    assert StringBytes(code) + StringBytes(name) + [count] + [] == StringBytes(code) + StringBytes(name) + [count];
    HeadAt(bytes, at, code, name, count, []);
    ReadLightHead(bytes, at, code, name, count, at + |StringBytes(code)|, at + |StringBytes(code)| + |StringBytes(name)|);
  }

  /** ReadLobbyLight, once its three fields are known. */
  lemma ReadLightHead(bytes: seq<byte>, at: int, code: string, name: string, count: byte, at1: int, at2: int)
    requires GetString(bytes, at) == Ok(Read(code, at1))
    requires GetString(bytes, at1) == Ok(Read(name, at2))
    requires GetByte(bytes, at2) == Ok(Read(count, at2 + 1))
    ensures ReadLobbyLight(bytes, at)
         == Ok(Read(LobbyValue(IdFromCode(code), Some(code), Some(name), false, Some(Placeholders(count as nat))), at2 + 1))
  {
  }
}
