/** The payloads that server and client exchange, each written by the one and read by the other, after
    src/server/server.cpp and src/client/module/scripting_experiments.cpp. */
module Messages {
  import opened Words
  import opened ByteSlices
  import opened ByteBuffer
  import opened GameStructs

  /** What a handler makes of a payload: a read threw, the protocol number was another one, or it was read. */
  datatype Parsed<+T> = Threw | Foreign | Parsed(value: T)

  function Head(): (h: seq<Byte>)
    ensures |h| == DWORD_SIZE
  {
    Encode32(PROTOCOL)
  }

  /** `read<uint32_t>()` and the comparison with the protocol number. */
  function ReadHead(data: seq<Byte>): (r: Parsed<nat>)
    ensures r.Parsed? ==> r.value == DWORD_SIZE <= |data|
  {
    match ReadField(data, 0, FixedShape(DWORD_SIZE))
    case Thrown(_) => Threw
    case Done(f, o) => if Decode32(f.data) != PROTOCOL then Foreign else Parsed(o)
  }

  /** `read_string()` twice, after the head. */
  function ReadTexts(data: seq<Byte>): Parsed<(seq<Byte>, seq<Byte>)> {
    match ReadHead(data)
    case Threw => Threw
    case Foreign => Foreign
    case Parsed(o) =>
      match ReadText(data, o)
      case Thrown(_) => Threw
      case Done(first, p) =>
        match ReadText(data, p)
        case Thrown(_) => Threw
        case Done(second, _) => Parsed((first.data, second.data))
  }

  /** The answer to a challenge: a public key and a signature. */
  function AuthResponse(key: seq<Byte>, signature: seq<Byte>): seq<Byte> {
    Head() + (Encoding(Text(key)) + Encoding(Text(signature)))
  }

  /** A challenge. */
  function AuthRequest(nonce: seq<Byte>): seq<Byte> {
    Head() + Encoding(Text(nonce))
  }

  function ReadAuthRequest(data: seq<Byte>): Parsed<seq<Byte>> {
    match ReadHead(data)
    case Threw => Threw
    case Foreign => Foreign
    case Parsed(o) =>
      match ReadText(data, o)
      case Thrown(_) => Threw
      case Done(nonce, _) => Parsed(nonce.data)
  }

  /** A player's own state. */
  function StateMessage(p: Player): seq<Byte> {
    Head() + EncodePlayer(p)
  }

  function ReadState(data: seq<Byte>): Parsed<Player> {
    match ReadHead(data)
    case Threw => Threw
    case Foreign => Foreign
    case Parsed(o) =>
      match ReadField(data, o, FixedShape(PLAYER_SIZE))
      case Thrown(_) => Threw
      case Done(f, _) => Parsed(DecodePlayer(f.data))
  }

  /** A kill report or its notification: one guid. */
  function KillMessage(guid: Word): seq<Byte> {
    Head() + Encode64(guid)
  }

  function ReadGuid(data: seq<Byte>): Parsed<Word> {
    match ReadHead(data)
    case Threw => Threw
    case Foreign => Foreign
    case Parsed(o) =>
      match ReadField(data, o, FixedShape(WORD_SIZE))
      case Thrown(_) => Threw
      case Done(f, _) => Parsed(Decode64(f.data))
  }

  /** A snapshot of players. */
  function StatesMessage(players: seq<Player>): seq<Byte> {
    Head() + Encoding(Items(PLAYER_SIZE, PlayerItems(players)))
  }

  function ReadStates(data: seq<Byte>): Parsed<seq<Player>> {
    match ReadHead(data)
    case Threw => Threw
    case Foreign => Foreign
    case Parsed(o) =>
      match ReadItems(data, o, PLAYER_SIZE)
      case Thrown(_) => Threw
      case Done(f, _) =>
        ItemsAgain(data, o, PLAYER_SIZE);
        Parsed(PlayersOf(f.items))
  }

  lemma HeadArrives(body: seq<Byte>)
    ensures var data := Head() + body;
            ReadHead(data) == Parsed(DWORD_SIZE) && Holds(data, DWORD_SIZE, body)
  {
    var data := Head() + body;
    assert data[0..|data|] == data;
    HoldsParts(data, 0, Head(), body);
    Codec32(PROTOCOL);
    hide Encode32, Decode32;
  }

  /** The protocol number in four bytes, least significant first. */
  lemma HeadOnTheWire()
    ensures Head() == [6, 0, 0, 0]
  {
    assert LittleEndian(6, 2) == [6, 0];
    assert LittleEndian(0, 2) == [0, 0];
    assert LittleEndian(6, 3) == [6] + LittleEndian(0, 2);
    assert LittleEndian(0, 3) == [0] + LittleEndian(0, 2);
    assert LittleEndian(6, DWORD_SIZE) == [6] + LittleEndian(0, 3);
  }

  /** The messages of fixed size: the protocol number, and a player or a guid. */
  lemma FixedMessagesOnTheWire(p: Player, guid: Word)
    ensures StateMessage(p) == [6, 0, 0, 0] + EncodePlayer(p)
    ensures |KillMessage(guid)| == 12 && KillMessage(guid)[..4] == [6, 0, 0, 0]
    ensures forall k: nat | k < 8 :: KillMessage(guid)[4 + k] == guid / Pow256(k) % 256
  {
    HeadOnTheWire();
    forall k: nat | k < 8
      ensures KillMessage(guid)[4 + k] == guid / Pow256(k) % 256
    {
      LittleEndianDigit(guid, WORD_SIZE, k);
    }
    hide LittleEndian, Pow256, EncodePlayer;
  }

  /** The messages of the handshake: a challenge, and a public key with a signature behind it. */
  lemma HandshakeOnTheWire(nonce: seq<Byte>, key: seq<Byte>, signature: seq<Byte>)
    ensures AuthRequest(nonce) == [6, 0, 0, 0] + Encoding(Text(nonce))
    ensures var data := AuthResponse(key, signature);
            && |data| == 12 + |key| + |signature| && data[..4] == [6, 0, 0, 0]
            && data[8..8 + |key|] == key && data[12 + |key|..] == signature
            && data[4..8 + |key|] == Encoding(Text(key)) && data[8 + |key|..] == Encoding(Text(signature))
  {
    HeadOnTheWire();
    Sliced(Head(), Encode32(Cast32(|key|)), key, Encode32(Cast32(|signature|)), signature);
    hide Encode32, Cast32, Head;
  }

  lemma Sliced(head: seq<Byte>, c: seq<Byte>, key: seq<Byte>, d: seq<Byte>, signature: seq<Byte>)
    requires |head| == |c| == |d| == 4
    ensures var data := head + ((c + key) + (d + signature));
            && |data| == 12 + |key| + |signature| && data[..4] == head
            && data[8..8 + |key|] == key && data[12 + |key|..] == signature
            && data[4..8 + |key|] == c + key && data[8 + |key|..] == d + signature
  {
  }

  /** Byte `j` of player `i` in a vector of players. */
  lemma PlayersOnTheWire(players: seq<Player>, i: nat, j: nat)
    requires i < |players| && j < 176
    ensures var body := Encoding(Items(PLAYER_SIZE, PlayerItems(players)));
            && |body| == 4 + 176 * |players| && 4 + 176 * i + j < |body|
            && body[4 + 176 * i + j] == EncodePlayer(players[i])[j]
            && forall k: nat | k < 4 :: body[k] == |players| % 0x1_0000_0000 / Pow256(k) % 256
  {
    PlayersRoundTrip(players);
    hide Encoding, Pow256, EncodePlayer, Span;
    ItemsOnTheWire(PLAYER_SIZE, PlayerItems(players), i, j);
  }

  /** A snapshot: the protocol number and the number of players, and 176 bytes for each. */
  lemma SnapshotOnTheWire(players: seq<Player>)
    requires players != []
    ensures var data := StatesMessage(players);
            && |data| == 8 + 176 * |players| && data[..4] == [6, 0, 0, 0]
            && forall k: nat | k < 4 :: data[4 + k] == |players| % 0x1_0000_0000 / Pow256(k) % 256
  {
    hide *;
    HeadOnTheWire();
    PlayersOnTheWire(players, 0, 0);
    StatesAre(players);
    Behind(Head(), Encoding(Items(PLAYER_SIZE, PlayerItems(players))), StatesMessage(players));
  }

  /** Player `i` of a snapshot stands behind those before, field by field as `PlayerOnTheWire` says. */
  lemma SnapshotPlayerOnTheWire(players: seq<Player>, i: nat)
    requires i < |players|
    ensures var data, from := StatesMessage(players), 8 + 176 * i;
            from + 176 <= |data| && data[from..from + 176] == EncodePlayer(players[i])
  {
    hide *;
    HeadOnTheWire();
    StatesAre(players);
    var body := Encoding(Items(PLAYER_SIZE, PlayerItems(players)));
    PlayerStands(players, i, body);
    Behind(Head(), body, StatesMessage(players));
    BehindSlice(Head(), body, StatesMessage(players), 4 + 176 * i, EncodePlayer(players[i]));
  }

  lemma StatesAre(players: seq<Player>)
    ensures StatesMessage(players) == Head() + Encoding(Items(PLAYER_SIZE, PlayerItems(players)))
  {
    hide Encoding, Head;
  }

  lemma PlayerStands(players: seq<Player>, i: nat, body: seq<Byte>)
    requires i < |players| && body == Encoding(Items(PLAYER_SIZE, PlayerItems(players)))
    ensures |EncodePlayer(players[i])| == 176 && 4 + 176 * i + 176 <= |body|
    ensures forall j: nat | j < 176 :: body[4 + 176 * i + j] == EncodePlayer(players[i])[j]
  {
    assert |EncodePlayer(players[i])| == 176;
    hide *;
    PlayersOnTheWire(players, i, 175);
    forall j: nat | j < 176
      ensures body[4 + 176 * i + j] == EncodePlayer(players[i])[j]
    {
      PlayersOnTheWire(players, i, j);
    }
  }

  lemma Behind(head: seq<Byte>, body: seq<Byte>, data: seq<Byte>)
    requires data == head + body && |head| == 4
    ensures |data| == 4 + |body| && data[..4] == head
    ensures forall k: nat | k < 4 && k < |body| :: data[4 + k] == body[k]
  {
  }

  lemma BehindSlice(head: seq<Byte>, body: seq<Byte>, data: seq<Byte>, from: nat, part: seq<Byte>)
    requires data == head + body && |head| == 4 && from + |part| <= |body|
    requires forall j: nat | j < |part| :: body[from + j] == part[j]
    ensures data[4 + from..4 + from + |part|] == part
  {
    assert body[from..from + |part|] == part;
  }

  lemma StateArrives(p: Player)
    ensures ReadState(StateMessage(p)) == Parsed(p)
  {
    HeadArrives(EncodePlayer(p));
    PlayerRoundTrip(p);
    hide ReadHead, EncodePlayer, DecodePlayer, Head;
  }

  lemma GuidArrives(guid: Word)
    ensures ReadGuid(KillMessage(guid)) == Parsed(guid)
  {
    HeadArrives(Encode64(guid));
    Codec64(guid);
    hide ReadHead, Encode64, Decode64, Head;
  }

  lemma AuthRequestArrives(nonce: seq<Byte>)
    requires |nonce| < TWO_32
    ensures ReadAuthRequest(AuthRequest(nonce)) == Parsed(nonce)
  {
    hide ReadHead, Encoding, Head, ReadText;
    HeadArrives(Encoding(Text(nonce)));
    TextArrives(nonce, AuthRequest(nonce), DWORD_SIZE);
  }

  lemma TextArrives(text: seq<Byte>, data: seq<Byte>, offset: nat)
    requires |text| < TWO_32 && Holds(data, offset, Encoding(Text(text)))
    ensures ReadText(data, offset) == Done(Text(text), offset + |Encoding(Text(text))|)
  {
    ReadUndoesWriteExactlyWhen(Text(text), data, offset);
    hide ReadText, Encoding;
  }

  lemma AuthResponseArrives(key: seq<Byte>, signature: seq<Byte>)
    requires |key| < TWO_32 && |signature| < TWO_32
    ensures ReadTexts(AuthResponse(key, signature)) == Parsed((key, signature))
  {
    hide ReadHead, Encoding, Head, ReadText, Holds;
    var data := AuthResponse(key, signature);
    var first, second := Encoding(Text(key)), Encoding(Text(signature));
    HeadArrives(first + second);
    HoldsParts(data, DWORD_SIZE, first, second);
    TextArrives(key, data, DWORD_SIZE);
    TextArrives(signature, data, DWORD_SIZE + |first|);
  }

  /** A snapshot arrives as it was sent, up to the 32-bit count. */
  lemma StatesArrive(players: seq<Player>)
    requires |players| < TWO_32
    ensures ReadStates(StatesMessage(players)) == Parsed(players)
  {
    hide ReadHead, Encoding, Head, ReadItems, EncodePlayer, DecodePlayer;
    var items := PlayerItems(players);
    PlayersRoundTrip(players);
    HeadArrives(Encoding(Items(PLAYER_SIZE, items)));
    ItemsArrive(items, StatesMessage(players), DWORD_SIZE);
  }

  lemma ItemsArrive(items: seq<seq<Byte>>, data: seq<Byte>, offset: nat)
    requires |items| < TWO_32 && Holds(data, offset, Encoding(Items(PLAYER_SIZE, items)))
    requires forall item | item in items :: |item| == PLAYER_SIZE
    ensures var r := ReadItems(data, offset, PLAYER_SIZE); r.Done? && r.value == Items(PLAYER_SIZE, items)
  {
    ReadUndoesWriteExactlyWhen(Items(PLAYER_SIZE, items), data, offset);
    hide ReadItems, Encoding;
  }
}
