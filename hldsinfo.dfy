/**
 * The A2S_INFO reply decoder of hldsinfo (Valve's Source/GoldSrc server
 * queries): the `Info` and `InfoExtra` records, the request payload, the
 * decoder as a function of the received bytes (`Response`), and the decoder
 * as the cursor-driven method of `Get` (`Decode`), proved equal to it.
 */
module HldsInfo {
  import opened Wire
  import opened Cursor

  /** The optional tail of a reply; each field is present only if its EDF bit is set. */
  datatype InfoExtra = InfoExtra(
    port: u16,
    steamID: u64,
    sourceTVPort: u16,
    sourceTVName: seq<Byte>,
    keywords: seq<Byte>,
    gameID: u64)

  /** A server's status snapshot. Strings are the raw bytes of Go's `string`. */
  datatype Info = Info(
    header: Byte,
    protocol: Byte,
    name: seq<Byte>,
    mapName: seq<Byte>,
    folder: seq<Byte>,
    game: seq<Byte>,
    id: u16,
    players: Byte,
    maxPlayers: Byte,
    bots: Byte,
    serverType: seq<Byte>,
    environment: seq<Byte>,
    visibility: Byte,
    vac: Byte,
    version: seq<Byte>,
    edf: Byte,
    extraData: InfoExtra)

  /** The zero value of `InfoExtra`. */
  const NoExtra: InfoExtra := InfoExtra(0, 0, 0, [], [], 0)

  /** The four all-ones bytes that open every single-packet message. */
  const Marker: seq<Byte> := [0xFF, 0xFF, 0xFF, 0xFF]

  /** The header tag of an A2S_INFO reply ('I'). */
  const InfoTag: Byte := 0x49

  /** The EDF bits, in the order their fields follow the base record. */
  const EdfPort: Byte := 0x80
  const EdfSteamID: Byte := 0x10
  const EdfSourceTV: Byte := 0x40
  const EdfKeywords: Byte := 0x20
  const EdfGameID: Byte := 0x01

  /** Go's `edf&bit != 0` for a single-bit mask `bit`: that bit of `edf` is set. */
  predicate Has(edf: Byte, bit: Byte)
  {
    bit > 0 && (edf / bit) % 2 == 1
  }

  /** The ASCII bytes of the query text "TSource Engine Query". */
  const Query: seq<Byte> :=
    [0x54, 0x53, 0x6F, 0x75, 0x72, 0x63, 0x65, 0x20, 0x45, 0x6E,
     0x67, 0x69, 0x6E, 0x65, 0x20, 0x51, 0x75, 0x65, 0x72, 0x79]

  /** The A2S_INFO request `Get` sends: the marker, the query text and its NUL terminator. */
  const A2SInfo: seq<Byte> := Marker + Query + [0]

  /** The marker read as a little-endian `uint32` is all ones (`^uint32(0)`). */
  lemma MarkerValue()
    ensures LittleEndian(Marker) == 0xFFFF_FFFF
  {
    assert LittleEndian(Marker[3..]) == 255;
    assert LittleEndian(Marker[2..]) == 255 + 256 * 255;
    assert LittleEndian(Marker[1..]) == 255 + 256 * (255 + 256 * 255);
  }

  /**
   * The request is 25 bytes and has the framing of a reply: the cursor reads
   * the marker from it, then the query text as one NUL-terminated string
   * that ends exactly at the end of the request.
   */
  lemma RequestPayload()
    ensures |A2SInfo| == 25
    ensures U32At(A2SInfo, 0) == Ok(Read(0xFFFF_FFFF, 4))
    ensures StringAt(A2SInfo, 4) == Ok(Read(Query, |A2SInfo|))
  {
    MarkerValue();
    assert A2SInfo[0..4] == Marker;
    assert A2SInfo[4..25] == Query + [0];
    StringFromWindow(A2SInfo, 4, Query);
  }

  // ---------------------------------------------------------------------------
  // The decoder as a function of the received bytes

  /** The base fields from `off` on, in wire order, ending with EDF. */
  function BaseAt(s: seq<Byte>, off: nat, header: Byte): Result<Read<Info>>
  {
    var protocol :- ByteAt(s, off);
    var name :- StringAt(s, protocol.next);
    var mapName :- StringAt(s, name.next);
    var folder :- StringAt(s, mapName.next);
    var game :- StringAt(s, folder.next);
    var id :- U16At(s, game.next);
    var players :- ByteAt(s, id.next);
    var maxPlayers :- ByteAt(s, players.next);
    var bots :- ByteAt(s, maxPlayers.next);
    var serverType :- CharAt(s, bots.next);
    var environment :- CharAt(s, serverType.next);
    var visibility :- ByteAt(s, environment.next);
    var vac :- ByteAt(s, visibility.next);
    var version :- StringAt(s, vac.next);
    var edf :- ByteAt(s, version.next);
    Ok(Read(Info(header, protocol.value, name.value, mapName.value, folder.value, game.value,
                 id.value, players.value, maxPlayers.value, bots.value,
                 serverType.value, environment.value, visibility.value, vac.value,
                 version.value, edf.value, NoExtra),
            edf.next))
  }

  /** An optional field: read only if `present`, otherwise zero and nothing consumed. */
  function OptU16At(s: seq<Byte>, off: nat, present: bool): Result<Read<u16>>
  {
    if present then U16At(s, off) else Ok(Read(0, off))
  }

  function OptU64At(s: seq<Byte>, off: nat, present: bool): Result<Read<u64>>
  {
    if present then U64At(s, off) else Ok(Read(0, off))
  }

  function OptStringAt(s: seq<Byte>, off: nat, present: bool): Result<Read<seq<Byte>>>
  {
    if present then StringAt(s, off) else Ok(Read([], off))
  }

  /** Every optional field whose EDF bit is clear keeps its zero value. */
  predicate AbsentZero(x: InfoExtra, edf: Byte)
  {
    && (!Has(edf, EdfPort) ==> x.port == 0)
    && (!Has(edf, EdfSteamID) ==> x.steamID == 0)
    && (!Has(edf, EdfSourceTV) ==> x.sourceTVPort == 0 && x.sourceTVName == [])
    && (!Has(edf, EdfKeywords) ==> x.keywords == [])
    && (!Has(edf, EdfGameID) ==> x.gameID == 0)
  }

  /**
   * The optional fields from `off` on, in wire order; each one is read only
   * if its EDF bit is set. Nothing is consumed when no bit is set.
   */
  function ExtraAt(s: seq<Byte>, off: nat, edf: Byte): Result<Read<InfoExtra>>
  {
    var port :- OptU16At(s, off, Has(edf, EdfPort));
    var steamID :- OptU64At(s, port.next, Has(edf, EdfSteamID));
    var tvPort :- OptU16At(s, steamID.next, Has(edf, EdfSourceTV));
    var tvName :- OptStringAt(s, tvPort.next, Has(edf, EdfSourceTV));
    var keywords :- OptStringAt(s, tvName.next, Has(edf, EdfKeywords));
    var gameID :- OptU64At(s, keywords.next, Has(edf, EdfGameID));
    Ok(Read(InfoExtra(port.value, steamID.value, tvPort.value, tvName.value, keywords.value, gameID.value),
            gameID.next))
  }

  /**
   * The decoded reply and the offset where decoding stopped: the marker, the
   * header tag, the base fields, then the optional fields EDF selects.
   */
  function Response(s: seq<Byte>): Result<Read<Info>>
  {
    var marker :- U32At(s, 0);
    if marker.value != 0xFFFF_FFFF then Err(UnexpectedResponse) else
    var header :- ByteAt(s, marker.next);
    if header.value != InfoTag then Err(UnexpectedResponse) else
    var base :- BaseAt(s, header.next, header.value);
    var extra :- ExtraAt(s, base.next, base.value.edf);
    Ok(Read(base.value.(extraData := extra.value), extra.next))
  }

  /** What the decoding part of `Get` returns for a received datagram. */
  function Parse(s: seq<Byte>): Result<Info>
  {
    Project(Response(s))
  }

  // ---------------------------------------------------------------------------
  // The decoder as `Get` runs it: a cursor over the received bytes

  /**
   * The decoding part of `Get`: `received[..n]` is what `conn.Read` stored
   * in the receive buffer. The first failing read ends the decode with its
   * error and no record.
   */
  method Decode(received: array<Byte>, n: nat) returns (r: Result<Info>)
    requires n <= received.Length
    ensures r == Parse(received[..n])
  {
    var buf := new Buffer(received, n);
    var marker :- buf.ReadUInt32();
    if marker != 0xFFFF_FFFF {
      return Err(UnexpectedResponse);
    }
    var header :- buf.ReadByte();
    if header != InfoTag {
      return Err(UnexpectedResponse);
    }
    var info :- DecodeBase(buf, header);
    var extra :- DecodeExtra(buf, info.edf);
    return Ok(info.(extraData := extra));
  }

  /** The base fields of `Get`, read one by one in wire order. */
  method DecodeBase(buf: Buffer, header: Byte) returns (r: Result<Info>)
    requires buf.Valid()
    modifies buf
    ensures buf.Valid()
    ensures BaseAt(buf.Contents, old(buf.offset), header) == if r.Ok? then Ok(Read(r.value, buf.offset)) else Err(r.error)
  {
    var protocol :- buf.ReadByte();
    var name :- buf.ReadString();
    var mapName :- buf.ReadString();
    var folder :- buf.ReadString();
    var game :- buf.ReadString();
    var id :- buf.ReadUInt16();
    var players :- buf.ReadByte();
    var maxPlayers :- buf.ReadByte();
    var bots :- buf.ReadByte();
    var serverType :- buf.ReadChar();
    var environment :- buf.ReadChar();
    var visibility :- buf.ReadByte();
    var vac :- buf.ReadByte();
    var version :- buf.ReadString();
    var edf :- buf.ReadByte();
    return Ok(Info(header, protocol, name, mapName, folder, game, id, players, maxPlayers, bots,
                   serverType, environment, visibility, vac, version, edf, NoExtra));
  }

  /** The optional fields of `Get`: each block runs only if its EDF bit is set. */
  method DecodeExtra(buf: Buffer, edf: Byte) returns (r: Result<InfoExtra>)
    requires buf.Valid()
    modifies buf
    ensures buf.Valid()
    ensures ExtraAt(buf.Contents, old(buf.offset), edf) == if r.Ok? then Ok(Read(r.value, buf.offset)) else Err(r.error)
  {
    var port: u16, steamID: u64, tvPort: u16, tvName: seq<Byte>, keywords: seq<Byte>, gameID: u64
      := 0, 0, 0, [], [], 0;
    if Has(edf, EdfPort) {
      port :- buf.ReadUInt16();
    }
    if Has(edf, EdfSteamID) {
      steamID :- buf.ReadUInt64();
    }
    if Has(edf, EdfSourceTV) {
      tvPort :- buf.ReadUInt16();
      tvName :- buf.ReadString();
    }
    if Has(edf, EdfKeywords) {
      keywords :- buf.ReadString();
    }
    if Has(edf, EdfGameID) {
      gameID :- buf.ReadUInt64();
    }
    return Ok(InfoExtra(port, steamID, tvPort, tvName, keywords, gameID));
  }
}
