/** WebSocketEvent: the kind of a relay message, carried in the second header byte. */
module WebSocketEvents {
  import opened Runtime

  /** A C# enum is its underlying int: every int value is a WebSocketEvent,
      and nine of them have a name. */
  newtype WebSocketEvent = x: int | -0x8000_0000 <= x < 0x8000_0000

  const Data: WebSocketEvent := 0
  const Connect: WebSocketEvent := 1
  const Disconnect: WebSocketEvent := 2
  const TransportFailure: WebSocketEvent := 3
  const Nothing: WebSocketEvent := 4
  const ConnectServer: WebSocketEvent := 5
  const ConnectClient: WebSocketEvent := 6
  const ClientUnreachable: WebSocketEvent := 7
  const LobbyUpdate: WebSocketEvent := 9

  const Named: seq<WebSocketEvent> :=
    [Data, Connect, Disconnect, TransportFailure, Nothing,
     ConnectServer, ConnectClient, ClientUnreachable, LobbyUpdate]

  predicate IsNamed(e: WebSocketEvent) {
    e in Named
  }

  /** `(byte)type`, as the header writes it. */
  function ToWire(e: WebSocketEvent): (b: byte)
    ensures IsNamed(e) ==> b as int == e as int
  {
    ToByte(e as int)
  }

  /** `(WebSocketEvent)data[1]`, as the header is read: a plain cast, no validation. */
  function FromWire(b: byte): (e: WebSocketEvent)
    ensures 0 <= e as int < 0x100
    ensures IsNamed(e) <==> b < 8 || b == 9
  {
    b as int as WebSocketEvent
  }

  /** The named kinds have distinct values, all in one byte. */
  lemma NamedValues()
    ensures forall i, j :: 0 <= i < j < |Named| ==> Named[i] != Named[j]
    ensures forall i :: 0 <= i < |Named| ==> 0 <= Named[i] as int < 0x100
  {
  }

  /** Writing a named kind into the header and reading it back gives the kind back;
      so `(byte)type` is injective on the named kinds. */
  lemma WireRoundTrip(e: WebSocketEvent)
    requires IsNamed(e)
    ensures FromWire(ToWire(e)) == e
  {
  }

  lemma ToWireInjective(e1: WebSocketEvent, e2: WebSocketEvent)
    requires IsNamed(e1) && IsNamed(e2) && ToWire(e1) == ToWire(e2)
    ensures e1 == e2
  {
  }

  /** Byte 8 and bytes 10..255 decode to a kind without a name, not to an error. */
  lemma UnnamedBytes(b: byte)
    requires b == 8 || b >= 10
    ensures !IsNamed(FromWire(b)) && FromWire(b) as int == b as int
  {
  }
}
