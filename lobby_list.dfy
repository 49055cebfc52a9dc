/** The public lobby list: the light forms of every non-private lobby, back to
    back in one buffer, and its reading back into a list of lobbies. */
module LobbyLists {
  import opened Runtime
  import opened Utf8
  import opened Wire
  import opened LobbyMembers
  import opened Lobbies
  import opened LobbyObjects

  // ------------------------------------------------------------------ specification

  /** The lobbies SerializeLobbies keeps: the non-private ones, in order. */
  function Public(vs: seq<LobbyValue>): seq<LobbyValue>
    decreases |vs|
  {
    if vs == [] then []
    else if vs[0].isPrivate then Public(vs[1..])
    else [vs[0]] + Public(vs[1..])
  }

  /** Public keeps exactly the non-private lobbies. */
  lemma {:induction false} PublicKeeps(vs: seq<LobbyValue>)
    ensures |Public(vs)| <= |vs|
    ensures forall i :: 0 <= i < |Public(vs)| ==> !Public(vs)[i].isPrivate && Public(vs)[i] in vs
    ensures forall i :: 0 <= i < |vs| && !vs[i].isPrivate ==> vs[i] in Public(vs)
    ensures PublicCarriable(vs) ==> forall i :: 0 <= i < |Public(vs)| ==> LightCarriable(Public(vs)[i])
    decreases |vs|
  {
    if vs != [] {
      PublicKeeps(vs[1..]);
      assert forall v :: v in vs[1..] ==> v in vs;
      assert forall i :: 1 <= i < |vs| ==> vs[i] == vs[1..][i - 1];
    }
  }

  /** Every public lobby has a carried code and name. */
  predicate PublicCarriable(vs: seq<LobbyValue>) {
    forall i :: 0 <= i < |vs| && !vs[i].isPrivate ==> LightCarriable(vs[i])
  }

  /** The first loop of SerializeLobbies: `size` plus SerializedSizeLight() of each
      public lobby; a private lobby is skipped before any of its fields is read. */
  function LightsSize(vs: seq<LobbyValue>, size: int): (r: Result<int>)
    decreases |vs|
  {
    if vs == [] then Ok(size)
    else if vs[0].isPrivate then LightsSize(vs[1..], size)
    else
      var s :- SizeLight(vs[0]);
      LightsSize(vs[1..], size + s)
  }

  /** The second loop: SerializeLight of each public lobby, one after the other. */
  function PutLights(c: Cursor, vs: seq<LobbyValue>): (r: Result<Cursor>)
    decreases |vs|
  {
    if vs == [] then Ok(c)
    else if vs[0].isPrivate then PutLights(c, vs[1..])
    else
      var c1 :- PutLobbyLight(c, vs[0]);
      PutLights(c1, vs[1..])
  }

  /** SerializeLobbies: a zeroed buffer of the first loop's size, filled by the second. */
  function SerializedLobbies(vs: seq<LobbyValue>): (r: Result<seq<byte>>)
  {
    var size :- LightsSize(vs, 0);
    if size < 0 then Err(Overflow)
    else
      var c :- PutLights(Cursor(Zeros(size), 0), vs);
      Ok(c.bytes)
  }

  /** The `while` loop of DeserializeLobbies: light lobbies read one after the other
      until the offset reaches the end of the buffer. */
  function ReadLights(bytes: seq<byte>, offset: int): (r: Result<seq<LobbyValue>>)
    decreases |bytes| - offset
  {
    if offset >= |bytes| then Ok([])
    else
      var l :- ReadLobbyLight(bytes, offset);
      var rest :- ReadLights(bytes, l.next);
      Ok([l.value] + rest)
  }

  /** The lobbies read so far in front of what the rest of the loop reads. */
  function Prefixed(done: seq<LobbyValue>, rest: Result<seq<LobbyValue>>): Result<seq<LobbyValue>> {
    if rest.Ok? then Ok(done + rest.value) else rest
  }

  /** One turn of the reading loop, in terms of what has been read before it. */
  lemma ReadLightsStep(bytes: seq<byte>, offset: int, done: seq<LobbyValue>)
    requires offset < |bytes|
    ensures match ReadLobbyLight(bytes, offset)
      case Ok(l) => Prefixed(done, ReadLights(bytes, offset)) == Prefixed(done + [l.value], ReadLights(bytes, l.next))
      case Err(f) => Prefixed(done, ReadLights(bytes, offset)) == Err(f)
  {
    if ReadLobbyLight(bytes, offset).Ok? {
      var l := ReadLobbyLight(bytes, offset).value;
      if ReadLights(bytes, l.next).Ok? {
        assert done + ([l.value] + ReadLights(bytes, l.next).value) == done + [l.value] + ReadLights(bytes, l.next).value;
      }
    }
  }

  /** The list as DeserializeLobbies rebuilds it. */
  function LightsDecoded(vs: seq<LobbyValue>): (r: seq<LobbyValue>)
    requires forall i :: 0 <= i < |vs| ==> LightCarriable(vs[i])
    decreases |vs|
  {
    if vs == [] then []
    else
      assert LightCarriable(vs[0]);
      assert forall i :: 0 <= i < |vs[1..]| ==> LightCarriable(vs[1..][i]) by {
        forall i | 0 <= i < |vs[1..]| ensures vs[1..][i] == vs[i + 1] { }
      }
      [LightDecoded(vs[0])] + LightsDecoded(vs[1..])
  }

  /** The light forms of a list of lobbies, back to back. */
  function LightsBytes(vs: seq<LobbyValue>): seq<byte>
    requires forall i :: 0 <= i < |vs| ==> LightCarriable(vs[i])
    decreases |vs|
  {
    if vs == [] then []
    else
      assert LightCarriable(vs[0]);
      assert forall i :: 0 <= i < |vs[1..]| ==> LightCarriable(vs[1..][i]) by {
        forall i | 0 <= i < |vs[1..]| ensures vs[1..][i] == vs[i + 1] { }
      }
      LightBytes(vs[0]) + LightsBytes(vs[1..])
  }

  // ------------------------------------------------------------------ properties

  /** The first loop never lowers the running size. */
  lemma {:induction false} LightsSizeGrows(vs: seq<LobbyValue>, size: int)
    requires LightsSize(vs, size).Ok?
    ensures LightsSize(vs, size).value >= size
    decreases |vs|
  {
    if vs != [] {
      if vs[0].isPrivate {
        LightsSizeGrows(vs[1..], size);
      } else {
        LightsSizeGrows(vs[1..], size + SizeLight(vs[0]).value);
      }
    }
  }

  /** SerializeLobbies allocates exactly the sum of SerializedSizeLight() over the
      public lobbies: the buffer has no slack and no overflow. */
  lemma SerializedLength(vs: seq<LobbyValue>)
    requires SerializedLobbies(vs).Ok?
    ensures LightsSize(vs, 0).Ok? && |SerializedLobbies(vs).value| == LightsSize(vs, 0).value
  {
    var size := LightsSize(vs, 0).value;
    PutLightsLength(Cursor(Zeros(size), 0), vs);
  }

  lemma {:induction false} PutLightsLength(c: Cursor, vs: seq<LobbyValue>)
    requires PutLights(c, vs).Ok?
    ensures |PutLights(c, vs).value.bytes| == |c.bytes|
    decreases |vs|
  {
    if vs != [] {
      if vs[0].isPrivate {
        PutLightsLength(c, vs[1..]);
      } else {
        var c1 := PutLobbyLight(c, vs[0]).value;
        PutLightsLength(c1, vs[1..]);
      }
    }
  }

  /** A private lobby contributes nothing, whatever its fields hold (even null
      strings): the list is that of the public lobbies alone. */
  lemma PrivateOmitted(vs: seq<LobbyValue>)
    ensures SerializedLobbies(vs) == SerializedLobbies(Public(vs))
  {
    LightsSizePublic(vs, 0);
    var size := LightsSize(vs, 0);
    if size.Ok? && size.value >= 0 {
      PutLightsPublic(Cursor(Zeros(size.value), 0), vs);
    }
  }

  lemma {:induction false} LightsSizePublic(vs: seq<LobbyValue>, size: int)
    ensures LightsSize(vs, size) == LightsSize(Public(vs), size)
    decreases |vs|
  {
    if vs != [] {
      if vs[0].isPrivate {
        LightsSizePublic(vs[1..], size);
      } else {
        assert ([vs[0]] + Public(vs[1..]))[1..] == Public(vs[1..]);
        var s := SizeLight(vs[0]);
        if s.Ok? {
          LightsSizePublic(vs[1..], size + s.value);
        }
      }
    }
  }

  lemma {:induction false} PutLightsPublic(c: Cursor, vs: seq<LobbyValue>)
    ensures PutLights(c, vs) == PutLights(c, Public(vs))
    decreases |vs|
  {
    if vs != [] {
      if vs[0].isPrivate {
        PutLightsPublic(c, vs[1..]);
      } else {
        assert ([vs[0]] + Public(vs[1..]))[1..] == Public(vs[1..]);
        var c1 := PutLobbyLight(c, vs[0]);
        if c1.Ok? {
          PutLightsPublic(c1.value, vs[1..]);
        }
      }
    }
  }

  /** Public lobbies with carried text: the size is the length of their light forms. */
  lemma {:induction false} LightsSizeCarried(vs: seq<LobbyValue>, size: int)
    requires forall i :: 0 <= i < |vs| ==> LightCarriable(vs[i]) && !vs[i].isPrivate
    ensures LightsSize(vs, size) == Ok(size + |LightsBytes(vs)|)
    decreases |vs|
  {
    if vs != [] {
      PutLightCarried(Cursor(LightBytes(vs[0]), 0), vs[0]);
      LightsSizeCarried(vs[1..], size + |LightBytes(vs[0])|);
    }
  }

  /** ... and the second loop lays the light forms down one after the other. */
  lemma {:induction false} PutLightsCarried(c: Cursor, vs: seq<LobbyValue>)
    requires forall i :: 0 <= i < |vs| ==> LightCarriable(vs[i]) && !vs[i].isPrivate
    requires Fits(c, LightsBytes(vs))
    ensures PutLights(c, vs) == Ok(Write(c, LightsBytes(vs)))
    decreases |vs|
  {
    if vs == [] {
      assert Splice(c.bytes, c.offset, []) == c.bytes;
    } else {
      var w := LightBytes(vs[0]);
      WriteWrite(c, w, LightsBytes(vs[1..]));
      PutLightCarried(c, vs[0]);
      PutLightsCarried(Write(c, w), vs[1..]);
    }
  }

  /** The reading loop recovers a list of light forms filling the end of a buffer. */
  lemma {:induction false} ReadLightsAt(bytes: seq<byte>, at: int, vs: seq<LobbyValue>)
    requires forall i :: 0 <= i < |vs| ==> LightCarriable(vs[i])
    requires 0 <= at <= |bytes| && bytes[at..] == LightsBytes(vs)
    ensures ReadLights(bytes, at) == Ok(LightsDecoded(vs))
    decreases |vs|
  {
    if vs == [] {
      assert LightsDecoded(vs) == [];
    } else {
      var next := FirstLightAt(bytes, at, vs);
      ReadLightsAt(bytes, next, vs[1..]);
      LightCons(bytes, at, vs[0], next, LightsDecoded(vs[1..]));
    }
  }

  /** The first light form of a list stands at the front, and the rest from `next` on. */
  lemma FirstLightAt(bytes: seq<byte>, at: int, vs: seq<LobbyValue>) returns (next: int)
    requires vs != [] && forall i :: 0 <= i < |vs| ==> LightCarriable(vs[i])
    requires 0 <= at <= |bytes| && bytes[at..] == LightsBytes(vs)
    ensures next == at + |LightBytes(vs[0])|
    ensures LightCarriable(vs[0])
    ensures forall i :: 0 <= i < |vs[1..]| ==> LightCarriable(vs[1..][i])
    ensures LightsDecoded(vs) == [LightDecoded(vs[0])] + LightsDecoded(vs[1..])
    ensures Holds(bytes, at, LightBytes(vs[0]))
    ensures next <= |bytes| && bytes[next..] == LightsBytes(vs[1..])
  {
    var w, rest := LightBytes(vs[0]), LightsBytes(vs[1..]);
    SliceSplit(bytes, at, w, rest);
    HoldsSlice(bytes, at, w);
    next := at + |w|;
  }

  /** A light form read back in front of the lobbies read after it. */
  lemma LightCons(bytes: seq<byte>, at: int, v: LobbyValue, next: int, rest: seq<LobbyValue>)
    requires LightCarriable(v) && Holds(bytes, at, LightBytes(v)) && next == at + |LightBytes(v)|
    requires ReadLights(bytes, next) == Ok(rest)
    ensures ReadLights(bytes, at) == Ok([LightDecoded(v)] + rest)
  {
    GetLightAt(bytes, at, v);
    ReadLightsCons(bytes, at, LightDecoded(v), next, rest);
  }

  /** One turn of the reading loop. */
  lemma ReadLightsCons(bytes: seq<byte>, at: int, v: LobbyValue, next: int, rest: seq<LobbyValue>)
    requires at < next && ReadLobbyLight(bytes, at) == Ok(Read(v, next))
    requires ReadLights(bytes, next) == Ok(rest)
    ensures ReadLights(bytes, at) == Ok([v] + rest)
  {
  }

  /** DeserializeLobbies(SerializeLobbies(ls)) is the list of the public lobbies of
      `ls`, in order, each with its code, name and id, isPrivate false and as many
      placeholder members as it had members (modulo 256). Private lobbies may hold
      anything. */
  lemma LobbiesRoundTrip(vs: seq<LobbyValue>)
    requires PublicCarriable(vs)
    ensures forall i :: 0 <= i < |Public(vs)| ==> LightCarriable(Public(vs)[i])
    ensures SerializedLobbies(vs).Ok?
    ensures ReadLights(SerializedLobbies(vs).value, 0) == Ok(LightsDecoded(Public(vs)))
  {
    PublicKeeps(vs);
    var ps := Public(vs);
    var w := LightsBytes(ps);
    PrivateOmitted(vs);
    SerializedCarried(ps);
    assert w[0..] == w;
    ReadLightsAt(w, 0, ps);
  }

  /** Public lobbies with carried text are serialized as their light forms, back to back. */
  lemma SerializedCarried(vs: seq<LobbyValue>)
    requires forall i :: 0 <= i < |vs| ==> LightCarriable(vs[i]) && !vs[i].isPrivate
    ensures SerializedLobbies(vs) == Ok(LightsBytes(vs))
  {
    var w := LightsBytes(vs);
    LightsSizeWhole(vs);
    PutLightsCarried(Cursor(Zeros(|w|), 0), vs);
    SpliceWhole(Zeros(|w|), w);
    SerializedFrom(vs, |w|, Write(Cursor(Zeros(|w|), 0), w));
  }

  lemma LightsSizeWhole(vs: seq<LobbyValue>)
    requires forall i :: 0 <= i < |vs| ==> LightCarriable(vs[i]) && !vs[i].isPrivate
    ensures LightsSize(vs, 0) == Ok(|LightsBytes(vs)|)
  {
    LightsSizeCarried(vs, 0);
  }

  /** SerializeLobbies, once both loops are known. */
  lemma SerializedFrom(vs: seq<LobbyValue>, size: nat, c: Cursor)
    requires LightsSize(vs, 0) == Ok(size) && PutLights(Cursor(Zeros(size), 0), vs) == Ok(c)
    ensures SerializedLobbies(vs) == Ok(c.bytes)
  {
  }

  // ------------------------------------------------------------------ methods

  /** The values of a list of Lobby structs. */
  function Values(ls: seq<Lobby>): seq<LobbyValue>
    reads ls
  {
    seq(|ls|, i requires 0 <= i < |ls| reads ls => ls[i].Value())
  }

  /** Lobby.SerializeLobbies(lobbies) */
  method SerializeLobbies(lobbies: seq<Lobby>) returns (r: Result<array<byte>>)
    ensures var spec := SerializedLobbies(Values(lobbies));
      && r.Ok? == spec.Ok?
      && (r.Ok? ==> fresh(r.value) && r.value[..] == spec.value)
      && (r.Err? ==> r.fault == spec.fault)
  {
    ghost var vs := Values(lobbies);
    var size := 0;
    var i := 0;
    while i < |lobbies|
      invariant 0 <= i <= |lobbies|
      invariant LightsSize(vs[i..], size) == LightsSize(vs, 0)
    {
      assert vs[i..][0] == lobbies[i].Value() && vs[i..][1..] == vs[i + 1..];
      if !lobbies[i].isPrivate {
        var s := lobbies[i].SerializedSizeLight();
        if s.Err? {
          return Err(s.fault);
        }
        size := size + s.value;
      }
      i := i + 1;
    }
    if size < 0 {
      return Err(Overflow);
    }
    var bytes := new byte[size](_ => 0);
    assert bytes[..] == Zeros(size);
    var offset := 0;
    i := 0;
    while i < |lobbies|
      invariant 0 <= i <= |lobbies|
      invariant PutLights(Cursor(bytes[..], offset), vs[i..]) == PutLights(Cursor(Zeros(size), 0), vs)
    {
      assert vs[i..][0] == lobbies[i].Value() && vs[i..][1..] == vs[i + 1..];
      if !lobbies[i].isPrivate {
        var s := lobbies[i].SerializeLight(bytes, offset);
        if s.Err? {
          return Err(s.fault);
        }
        offset := s.value;
      }
      i := i + 1;
    }
    r := Ok(bytes);
  }

  /** Lobby.DeserializeLobbies(bytes): a null buffer gives the empty list. */
  method DeserializeLobbies(bytes: array?<byte>) returns (r: Result<seq<Lobby>>)
    ensures bytes == null ==> r == Ok([])
    ensures bytes != null ==> var spec := ReadLights(bytes[..], 0);
      && r.Ok? == spec.Ok?
      && (r.Ok? ==> (forall l :: l in r.value ==> fresh(l)) && Values(r.value) == spec.value)
      && (r.Err? ==> r.fault == spec.fault)
  {
    if bytes == null {
      return Ok([]);
    }
    var lobbies: seq<Lobby> := [];
    ghost var done: seq<LobbyValue> := [];
    var offset := 0;
    assert Prefixed(done, ReadLights(bytes[..], offset)) == ReadLights(bytes[..], 0) by {
      if ReadLights(bytes[..], 0).Ok? {
        assert [] + ReadLights(bytes[..], 0).value == ReadLights(bytes[..], 0).value;
      }
    }
    while offset < bytes.Length
      invariant 0 <= offset
      invariant forall l :: l in lobbies ==> fresh(l)
      invariant Values(lobbies) == done
      invariant ReadLights(bytes[..], 0) == Prefixed(done, ReadLights(bytes[..], offset))
      decreases bytes.Length - offset
    {
      var lobby := new Lobby.Empty();
      var step := lobby.DeserializeLight(bytes, offset);
      ReadLightsStep(bytes[..], offset, done);
      if step.Err? {
        return Err(step.fault);
      }
      assert Values(lobbies + [lobby]) == done + [lobby.Value()];
      lobbies := lobbies + [lobby];
      done := done + [lobby.Value()];
      offset := step.value;
    }
    r := Ok(lobbies);
  }
}
