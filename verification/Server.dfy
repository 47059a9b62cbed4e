/** The game server of src/server/server.cpp: its table of clients, the three packet handlers and the frame. */
module Server {
  import opened Options
  import opened Words
  import opened ByteBuffer
  import opened GameStructs
  import opened Messages

  /** Network addresses and keys are only compared. */
  type Address = nat
  type Key = nat

  /** The cryptographic library: importing a key, hashing it, and verifying a signature over a message. */
  datatype Crypto = Crypto(
    load: seq<Byte> -> Option<Key>,
    hash: Key -> Word,
    verify: (Key, seq<Byte>, seq<Byte>) -> bool)

  /** Times are nanoseconds of the steady clock. */
  const TIMEOUT: int := 20_000_000_000

  datatype Client = Client(
    lastPacket: int,
    guid: Word,
    name: seq<Byte>,
    currentState: PlayerState,
    nonce: seq<Byte>,
    publicKey: Option<Key>,
    stateId: Word,
    printedFailure: bool)

  type Clients = map<Address, Client>

  function NewClient(): Client {
    Client(0, 0, [], PlayerState(Zeros(BODY_SIZE), 0), [], None, 0, false)
  }

  predicate Authenticated(c: Client) {
    c.publicKey.Some?
  }

  /** `clients[source]`, which makes a new entry when there is none. */
  function Entry(clients: Clients, a: Address): Client {
    if a in clients then clients[a] else NewClient()
  }

  datatype Datagram = Datagram(to: Address, command: string, data: seq<Byte>)

  // ---- What each event does to the table ----

  predicate Accepts(crypto: Crypto, c: Client, key: Key, signature: seq<Byte>) {
    c.nonce != [] && crypto.hash(key) == c.guid && crypto.verify(key, c.nonce, signature)
  }

  function AfterAuthResponse(crypto: Crypto, clients: Clients, a: Address, data: seq<Byte>, now: int): Clients {
    match ReadTexts(data)
    case Threw => clients
    case Foreign => clients
    case Parsed((keyText, signature)) =>
      match crypto.load(keyText)
      case None => clients
      case Some(key) =>
        var c := Entry(clients, a);
        clients[a := if Accepts(crypto, c, key, signature) then c.(publicKey := Some(key), lastPacket := now)
                     else c.(printedFailure := true)]
  }

  function AfterState(clients: Clients, a: Address, data: seq<Byte>, now: int, challenge: seq<Byte>): Clients {
    match ReadState(data)
    case Threw => clients
    case Foreign => clients
    case Parsed(p) =>
      var c := Refreshed(Entry(clients, a), p, now);
      clients[a := if Authenticated(c) then c else c.(nonce := if c.nonce == [] then challenge else c.nonce)]
  }

  /** An entry after a state packet; the counter is 64 bits wide. */
  function Refreshed(c: Client, p: Player, now: int): Client {
    c.(lastPacket := now, guid := p.guid, name := CString(p.name), currentState := p.state,
       stateId := Wrap(c.stateId + 1))
  }

  /** A kill report makes an entry before it asks whether its sender is known. */
  function AfterKill(clients: Clients, a: Address, data: seq<Byte>): Clients {
    if ReadHead(data).Parsed? then clients[a := Entry(clients, a)] else clients
  }

  predicate Stale(c: Client, now: int) {
    now - c.lastPacket > TIMEOUT
  }

  function AfterFrame(clients: Clients, now: int): Clients {
    map a | a in clients && !Stale(clients[a], now) :: clients[a]
  }

  // ---- What is sent ----

  function PlayerOf(c: Client): Player {
    Player(c.guid, PadName(c.name), c.currentState.(stateId := c.stateId))
  }

  /** The authenticated players, in the order in which the table is walked. */
  function Snapshot(clients: Clients, order: seq<Address>): seq<Player>
    requires forall a | a in order :: a in clients
  {
    if order == [] then []
    else
      var a := order[|order| - 1];
      Snapshot(clients, order[..|order| - 1]) + if Authenticated(clients[a]) then [PlayerOf(clients[a])] else []
  }

  function Broadcast(clients: Clients, order: seq<Address>, data: seq<Byte>): seq<Datagram>
    requires forall a | a in order :: a in clients
  {
    if order == [] then []
    else
      var a := order[|order| - 1];
      Broadcast(clients, order[..|order| - 1], data) +
      if Authenticated(clients[a]) then [Datagram(a, "states", data)] else []
  }

  /** A walk over the table meets every entry once. */
  ghost predicate Walks(order: seq<Address>, clients: Clients) {
    && (forall a | a in order :: a in clients)
    && (forall a | a in clients :: a in order)
    && (forall i, j | 0 <= i < j < |order| :: order[i] != order[j])
  }

  class Server {
    var clients: Clients
    const crypto: Crypto

    constructor (crypto: Crypto)
      ensures clients == map[] && this.crypto == crypto
    {
      this.crypto := crypto;
      clients := map[];
    }

    /** `send_authentication_request`: an entry without a nonce gets the new challenge. */
    method SendAuthenticationRequest(source: Address, challenge: seq<Byte>) returns (sent: seq<Datagram>)
      requires source in clients
      modifies this
      ensures var c := old(clients[source]);
              var nonce := if c.nonce == [] then challenge else c.nonce;
              && clients == old(clients)[source := c.(nonce := nonce)]
              && sent == [Datagram(source, "authRequest", AuthRequest(nonce))]
    {
      if clients[source].nonce == [] {
        clients := clients[source := clients[source].(nonce := challenge)];
      }
      var buffer := new Serializer();
      buffer.Write(Encode32(PROTOCOL));
      assert buffer.buffer == Head();
      hide Encoding, Head;
      buffer.WriteString(clients[source].nonce);
      sent := [Datagram(source, "authRequest", buffer.buffer)];
    }

    /** `handle_player_state`. */
    method HandlePlayerState(source: Address, data: seq<Byte>, now: int, challenge: seq<Byte>)
      returns (sent: seq<Datagram>)
      requires |data| <= OBJECT_MAX
      modifies this
      ensures clients == AfterState(old(clients), source, data, now, challenge)
      ensures sent == if ReadState(data).Parsed? && !Authenticated(clients[source])
                      then [Datagram(source, "authRequest", AuthRequest(clients[source].nonce))] else []
    {
      sent := [];
      var player := ReceiveState(data);
      if !player.Parsed? {
        return;
      }
      hide ReadState, Refreshed, AuthRequest;
      clients := clients[source := Refreshed(Entry(clients, source), player.value, now)];
      if !Authenticated(clients[source]) {
        sent := SendAuthenticationRequest(source, challenge);
      }
    }

    /** The part of `handle_player_state` that reads. */
    method ReceiveState(data: seq<Byte>) returns (r: Parsed<Player>)
      requires |data| <= OBJECT_MAX
      ensures r == ReadState(data)
    {
      var buffer := new Deserializer(data);
      var protocol := buffer.ReadFixed(DWORD_SIZE);
      if protocol.Thrown? {
        return Threw;
      }
      if Decode32(protocol.value.data) != PROTOCOL {
        return Foreign;
      }
      var player := buffer.ReadFixed(PLAYER_SIZE);
      hide DecodePlayer, Decode32;
      r := if player.Thrown? then Threw else Parsed(DecodePlayer(player.value.data));
    }

    /** `handle_authentication_response`. */
    method HandleAuthenticationResponse(source: Address, data: seq<Byte>, now: int)
      requires |data| <= OBJECT_MAX
      modifies this
      ensures clients == AfterAuthResponse(crypto, old(clients), source, data, now)
    {
      var buffer := new Deserializer(data);
      var protocol := buffer.ReadFixed(DWORD_SIZE);
      if protocol.Thrown? || Decode32(protocol.value.data) != PROTOCOL {
        return;
      }
      var keyText := buffer.ReadString();
      if keyText.Thrown? {
        return;
      }
      var signature := buffer.ReadString();
      if signature.Thrown? {
        return;
      }
      var loaded := crypto.load(keyText.value.data);
      if loaded.None? {
        return;
      }
      var key := loaded.value;
      clients := clients[source := Entry(clients, source)];
      var c := clients[source];
      if c.nonce == [] || crypto.hash(key) != c.guid || !crypto.verify(key, c.nonce, signature.value.data) {
        clients := clients[source := c.(printedFailure := true)];
        return;
      }
      clients := clients[source := c.(publicKey := Some(key), lastPacket := now)];
    }

    /** `handle_player_kill`; `order` is the order in which the table is walked. The first authenticated
        player with the reported guid is told who killed it, if the reporter is authenticated. */
    method HandlePlayerKill(source: Address, data: seq<Byte>, order: seq<Address>) returns (sent: seq<Datagram>)
      requires |data| <= OBJECT_MAX && Walks(order, clients[source := Entry(clients, source)])
      modifies this
      ensures clients == AfterKill(old(clients), source, data)
      ensures |sent| <= 1
      ensures sent != [] <==> ReadGuid(data).Parsed? && Authenticated(Entry(old(clients), source))
                              && exists a | a in old(clients) :: IsVictim(old(clients)[a], ReadGuid(data).value)
      ensures forall d | d in sent :: d.to in old(clients) && IsVictim(old(clients)[d.to], ReadGuid(data).value)
                                   && d == Datagram(d.to, "killed", KillMessage(Entry(old(clients), source).guid))
      ensures forall d | d in sent :: exists i :: 0 <= i < |order| && order[i] == d.to
                                                && NoVictim(old(clients), order[..i], ReadGuid(data).value)
    {
      sent := [];
      var buffer := new Deserializer(data);
      var protocol := buffer.ReadFixed(DWORD_SIZE);
      if protocol.Thrown? || Decode32(protocol.value.data) != PROTOCOL {
        return;
      }
      clients := clients[source := Entry(clients, source)];
      var killer := clients[source];
      if !Authenticated(killer) {
        return;
      }
      var guid := buffer.ReadFixed(WORD_SIZE);
      if guid.Thrown? {
        return;
      }
      var playerGuid := Decode64(guid.value.data);
      assert ReadGuid(data) == Parsed(playerGuid);
      hide ReadGuid, Decode64, ReadHead;
      var i := 0;
      while i < |order|
        invariant 0 <= i <= |order|
        invariant forall j | 0 <= j < i :: !IsVictim(clients[order[j]], playerGuid)
        invariant clients == old(clients)
      {
        var client := clients[order[i]];
        if Authenticated(client) && client.guid == playerGuid {
          assert order[i] in old(clients) && IsVictim(old(clients)[order[i]], playerGuid);
          assert NoVictim(old(clients), order[..i], playerGuid);
          sent := [Datagram(order[i], "killed", KillMessage(killer.guid))];
          return;
        }
        i := i + 1;
      }
      forall a | a in old(clients)
        ensures !IsVictim(old(clients)[a], playerGuid)
      {
        assert a in order;
      }
    }

    /** The first half of `send_state`. */
    method CollectStates(order: seq<Address>) returns (states: seq<Player>)
      requires Walks(order, clients)
      ensures states == Snapshot(clients, order)
    {
      hide PadName;
      states := [];
      var i := 0;
      while i < |order|
        invariant 0 <= i <= |order|
        invariant states == Snapshot(clients, order[..i])
      {
        var val := clients[order[i]];
        assert order[..i + 1][..i] == order[..i];
        i := i + 1;
        if !Authenticated(val) {
          continue;
        }
        states := states + [Player(val.guid, PadName(val.name), val.currentState.(stateId := val.stateId))];
      }
      assert order[..i] == order;
    }

    /** `send_state`. */
    method SendState(order: seq<Address>) returns (sent: seq<Datagram>)
      requires Walks(order, clients)
      ensures sent == Broadcast(clients, order, StatesMessage(Snapshot(clients, order)))
    {
      var states := CollectStates(order);
      var buffer := new Serializer();
      buffer.Write(Encode32(PROTOCOL));
      assert buffer.buffer == Head();
      hide Snapshot, Encoding, Head;
      buffer.WriteVector(PLAYER_SIZE, PlayerItems(states));
      sent := SendToAll(order, buffer.buffer);
    }

    /** The second half of `send_state`. */
    method SendToAll(order: seq<Address>, data: seq<Byte>) returns (sent: seq<Datagram>)
      requires Walks(order, clients)
      ensures sent == Broadcast(clients, order, data)
    {
      sent := [];
      var j := 0;
      while j < |order|
        invariant 0 <= j <= |order|
        invariant sent == Broadcast(clients, order[..j], data)
      {
        assert order[..j + 1][..j] == order[..j];
        if Authenticated(clients[order[j]]) {
          sent := sent + [Datagram(order[j], "states", data)];
        }
        j := j + 1;
      }
      assert order[..j] == order;
    }

    /** The first half of `run_frame`: stale entries go while the table is walked. */
    method EraseStale(now: int, order: seq<Address>) returns (kept: seq<Address>)
      requires Walks(order, clients)
      modifies this
      ensures clients == AfterFrame(old(clients), now)
      ensures Walks(kept, clients)
    {
      hide Stale;
      kept := [];
      var i := 0;
      while i < |order|
        invariant 0 <= i <= |order|
        invariant forall j | i <= j < |order| :: order[j] in clients
        invariant forall j | 0 <= j < i :: order[j] in clients <==> !Stale(old(clients)[order[j]], now)
        invariant forall a | a in clients :: a in old(clients) && clients[a] == old(clients)[a]
        invariant forall j | 0 <= j < i && order[j] in clients :: order[j] in kept
        invariant forall k | 0 <= k < |kept| :: kept[k] in clients
        invariant forall k, j | 0 <= k < |kept| && i <= j < |order| :: kept[k] != order[j]
        invariant forall k, m | 0 <= k < m < |kept| :: kept[k] != kept[m]
      {
        var a := order[i];
        if Stale(clients[a], now) {
          clients := clients - {a};
        } else {
          kept := kept + [a];
        }
        i := i + 1;
      }
      OnlyTimely(old(clients), clients, order, now);
    }

    /** `run_frame`; `kept` is the walk over the remaining entries. */
    method RunFrame(now: int, order: seq<Address>) returns (sent: seq<Datagram>, kept: seq<Address>)
      requires Walks(order, clients)
      modifies this
      ensures clients == AfterFrame(old(clients), now)
      ensures Walks(kept, clients)
      ensures sent == Broadcast(clients, kept, StatesMessage(Snapshot(clients, kept)))
    {
      kept := EraseStale(now, order);
      sent := SendState(kept);
    }
  }

  /** What is left when the walk has erased the stale entries. */
  lemma OnlyTimely(was: Clients, left: Clients, order: seq<Address>, now: int)
    requires Walks(order, was)
    requires forall j | 0 <= j < |order| :: order[j] in was && (order[j] in left <==> !Stale(was[order[j]], now))
    requires forall a | a in left :: a in was && left[a] == was[a]
    ensures left == AfterFrame(was, now)
  {
    hide Stale;
  }

  predicate IsVictim(c: Client, guid: Word) {
    Authenticated(c) && c.guid == guid
  }

  ghost predicate NoVictim(clients: Clients, walked: seq<Address>, guid: Word) {
    forall a | a in walked && a in clients :: !IsVictim(clients[a], guid)
  }
}
