/** Directions and roles shared by the protocols, and what every wire format writes for them. */
module Types {
  import opened Bytes

  /** The tags of both authenticators. */
  const TAG_LEN := 16

  datatype Direction = ClientToServer | ServerToClient {
    function Opposite(): Direction {
      if this == ClientToServer then ServerToClient else ClientToServer
    }
  }

  datatype Role = Client | Server {
    function SendDirection(): Direction {
      if this == Client then ClientToServer else ServerToClient
    }
  }

  function DirectionWire(d: Direction): byte {
    if d == ClientToServer then 0x01 else 0x02
  }

  function DirectionFromWire(v: byte): Option<Direction> {
    if v == 0x01 then Some(ClientToServer) else if v == 0x02 then Some(ServerToClient) else None
  }
}
