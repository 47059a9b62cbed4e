/** The client's picture of the other players, after src/client/module/scripting_experiments.cpp: snapshots
    are received from the server, and the game script polls for states it has not seen. */
module PlayerStates {
  import opened Options
  import opened Words
  import opened ByteBuffer
  import opened GameStructs
  import opened Messages

  /** The last snapshot without the player itself, and the last state id polled for each guid. */
  datatype View = View(infos: seq<Player>, ids: map<Word, Word>)

  function Others(own: Word, players: seq<Player>): seq<Player> {
    if players == [] then []
    else
      var last := players[|players| - 1];
      Others(own, players[..|players| - 1]) + if last.guid == own then [] else [last]
  }

  predicate Present(players: seq<Player>, g: Word) {
    exists p | p in players :: p.guid == g
  }

  function Received(own: Word, view: View, players: seq<Player>): View {
    var infos := Others(own, players);
    View(infos, map g | g in view.ids && Present(infos, g) :: view.ids[g])
  }

  /** The last id polled for a guid; a guid not met before starts at zero. */
  function LastId(ids: map<Word, Word>, g: Word): Word {
    if g in ids then ids[g] else 0
  }

  /** The ids after the first `n` entries have been polled, in order, each overwriting what was there. */
  function IdsAfter(view: View, n: nat): map<Word, Word>
    requires n <= |view.infos|
  {
    if n == 0 then view.ids
    else IdsAfter(view, n - 1)[view.infos[n - 1].guid := view.infos[n - 1].state.stateId]
  }

  /** Whether the poll attaches the state of entry `i`. */
  predicate Fresh(view: View, i: nat)
    requires i < |view.infos|
  {
    view.infos[i].state.stateId > LastId(IdsAfter(view, i), view.infos[i].guid)
  }

  function Polled(view: View): View {
    View(view.infos, IdsAfter(view, |view.infos|))
  }

  /** A player as the script sees it: with one state when it is fresh, with none otherwise. */
  datatype ScriptPlayer = ScriptPlayer(guid: Word, name: seq<Byte>, states: seq<Body>)

  function Converted(p: Player, attach: bool): ScriptPlayer {
    ScriptPlayer(p.guid, CString(p.name), if attach then [p.state.body] else [])
  }

  /** What a poll returns for the first `n` entries. */
  function Results(view: View, n: nat): (r: seq<ScriptPlayer>)
    requires n <= |view.infos|
    ensures |r| == n
  {
    if n == 0 then [] else Results(view, n - 1) + [Converted(view.infos[n - 1], Fresh(view, n - 1))]
  }

  /** What a poll should return for a player: guid and name, the name up to its first NUL, and the state exactly
      when it is new. */
  ghost predicate Tells(told: ScriptPlayer, p: Player, isNew: bool) {
    && told.guid == p.guid && told.name == CString(p.name)
    && told.states == if isNew then [p.state.body] else []
  }

  /** The id last polled for the guid of entry `i`, in this poll or before it; 0 when there is none. */
  ghost function PolledBefore(view: View, i: nat): Word
    requires i < |view.infos|
  {
    LastOf(view, view.infos[i].guid, i)
  }

  ghost function LastOf(view: View, g: Word, n: nat): Word
    requires n <= |view.infos|
  {
    if n == 0 then if g in view.ids then view.ids[g] else 0
    else if view.infos[n - 1].guid == g then view.infos[n - 1].state.stateId
    else LastOf(view, g, n - 1)
  }

  lemma {:induction false} LastOfIs(view: View, g: Word, n: nat)
    requires n <= |view.infos|
    ensures LastId(IdsAfter(view, n), g) == LastOf(view, g, n)
  {
    if n > 0 {
      LastOfIs(view, g, n - 1);
    }
  }

  lemma ResultsNext(view: View, n: nat)
    requires n < |view.infos|
    ensures Results(view, n + 1) == Results(view, n) + [Converted(view.infos[n], Fresh(view, n))]
  {
  }

  lemma {:induction false} ResultsTell(view: View, n: nat)
    requires n <= |view.infos|
    ensures forall i | 0 <= i < n ::
              Tells(Results(view, n)[i], view.infos[i], view.infos[i].state.stateId > PolledBefore(view, i))
  {
    hide *;
    if n > 0 {
      ResultsTell(view, n - 1);
      ResultsNext(view, n - 1);
      OneTells(view, n - 1);
      var front, all := Results(view, n - 1), Results(view, n);
      assert forall i | 0 <= i < n - 1 :: all[i] == front[i];
    }
  }

  lemma OneTells(view: View, i: nat)
    requires i < |view.infos|
    ensures Tells(Converted(view.infos[i], Fresh(view, i)), view.infos[i],
                  view.infos[i].state.stateId > PolledBefore(view, i))
  {
    LastOfIs(view, view.infos[i].guid, i);
    hide IdsAfter, LastOf, CString;
  }

  class Players {
    var infos: seq<Player>
    var ids: map<Word, Word>

    constructor ()
      ensures Value() == View([], map[])
    {
      infos, ids := [], map[];
    }

    ghost function Value(): View
      reads this
    {
      View(infos, ids)
    }

    /** `receive_player_states`. Only the master server is listened to. */
    method ReceivePlayerStates(fromMaster: bool, data: seq<Byte>, own: Word)
      requires |data| <= OBJECT_MAX
      modifies this
      ensures Value() ==
              if fromMaster && ReadStates(data).Parsed? then Received(own, old(Value()), ReadStates(data).value)
              else old(Value())
    {
      if !fromMaster {
        return;
      }
      var buffer := new Deserializer(data);
      var protocol := buffer.ReadFixed(DWORD_SIZE);
      if protocol.Thrown? || Decode32(protocol.value.data) != PROTOCOL {
        return;
      }
      var vector := buffer.ReadVector(PLAYER_SIZE);
      if vector.Thrown? {
        return;
      }
      ItemsAgain(data, DWORD_SIZE, PLAYER_SIZE);
      var players := PlayersOf(vector.value.items);
      assert ReadStates(data) == Parsed(players);
      hide ReadStates;
      Replace(players, own);
    }

    /** What is done with the players under the lock. */
    method Replace(players: seq<Player>, own: Word)
      modifies this
      ensures Value() == Received(own, old(Value()), players)
    {
      infos := [];
      var guids: set<Word> := {};
      var i := 0;
      while i < |players|
        invariant 0 <= i <= |players|
        invariant infos == Others(own, players[..i])
        invariant forall g :: g in guids <==> Present(infos, g)
        invariant ids == old(ids)
      {
        var player := players[i];
        assert players[..i + 1][..i] == players[..i];
        i := i + 1;
        if player.guid == own {
          continue;
        }
        guids := guids + {player.guid};
        forall g
          ensures Present(infos + [player], g) <==> Present(infos, g) || g == player.guid
        {
          PresentMore(infos, player, g);
        }
        infos := infos + [player];
      }
      assert players[..i] == players;
      var left := ids.Keys;
      while left != {}
        invariant left <= ids.Keys <= old(ids).Keys
        invariant forall g | g in ids :: ids[g] == old(ids)[g]
        invariant forall g | g in old(ids) :: g in ids <==> g in left || g in guids
        invariant infos == Others(own, players)
        decreases left
      {
        var g :| g in left;
        left := left - {g};
        if g !in guids {
          ids := ids - {g};
        }
      }
    }

    /** `get_player_states`. */
    method GetPlayerStates() returns (result: seq<ScriptPlayer>)
      modifies this
      ensures Value() == Polled(old(Value()))
      ensures result == Results(old(Value()), |old(infos)|) && |result| == |old(infos)|
      ensures forall i | 0 <= i < |result| ::
                Tells(result[i], old(infos)[i], old(infos)[i].state.stateId > PolledBefore(old(Value()), i))
    {
      ResultsTell(Value(), |infos|);
      hide Tells, Results, IdsAfter, PolledBefore;
      result := [];
      if infos == [] {
        return;
      }
      result := PollEntries();
    }

    /** The loop of `get_player_states`. */
    method PollEntries() returns (result: seq<ScriptPlayer>)
      modifies this
      ensures Value() == Polled(old(Value()))
      ensures result == Results(old(Value()), |old(infos)|)
    {
      hide Fresh, Converted;
      result := [];
      var i := 0;
      ghost var view := Value();
      while i < |infos|
        invariant 0 <= i <= |infos| && infos == view.infos
        invariant ids == IdsAfter(view, i)
        invariant result == Results(view, i)
      {
        ResultsNext(view, i);
        var one := PollOne(infos[i], view, i);
        result := result + [one];
        i := i + 1;
      }
    }

    /** The poll of one entry. */
    method PollOne(info: Player, ghost view: View, ghost i: nat) returns (player: ScriptPlayer)
      requires i < |view.infos| && info == view.infos[i] && ids == IdsAfter(view, i)
      modifies this`ids
      ensures ids == IdsAfter(view, i + 1)
      ensures player == Converted(info, Fresh(view, i))
    {
      PollStep(view, i);
      hide Fresh, IdsAfter;
      var isNew := info.state.stateId > LastId(ids, info.guid);
      ids := ids[info.guid := info.state.stateId];
      player := Converted(info, isNew);
    }
  }

  lemma PollStep(view: View, i: nat)
    requires i < |view.infos|
    ensures var info, ids := view.infos[i], IdsAfter(view, i);
            && (Fresh(view, i) <==> info.state.stateId > LastId(ids, info.guid))
            && IdsAfter(view, i + 1) == ids[info.guid := info.state.stateId]
  {
  }

  lemma PresentMore(players: seq<Player>, p: Player, g: Word)
    ensures Present(players + [p], g) <==> Present(players, g) || g == p.guid
  {
    if g == p.guid {
      assert p in players + [p];
    }
  }

  /** `receive_auth_request`: the answer to a challenge from the master server. */
  method ReceiveAuthRequest(fromMaster: bool, data: seq<Byte>, publicKey: seq<Byte>, sign: seq<Byte> -> seq<Byte>)
    returns (reply: Option<seq<Byte>>)
    requires |data| <= OBJECT_MAX
    ensures reply == if fromMaster && ReadAuthRequest(data).Parsed?
                     then Some(AuthResponse(publicKey, sign(ReadAuthRequest(data).value))) else None
  {
    if !fromMaster {
      return None;
    }
    var buffer := new Deserializer(data);
    var protocol := buffer.ReadFixed(DWORD_SIZE);
    if protocol.Thrown? || Decode32(protocol.value.data) != PROTOCOL {
      return None;
    }
    var nonce := buffer.ReadString();
    if nonce.Thrown? {
      return None;
    }
    assert ReadAuthRequest(data) == Parsed(nonce.value.data);
    hide *;
    var response := AnswerChallenge(publicKey, sign(nonce.value.data));
    reply := Some(response);
  }

  method AnswerChallenge(publicKey: seq<Byte>, signature: seq<Byte>) returns (data: seq<Byte>)
    ensures data == AuthResponse(publicKey, signature)
  {
    var response := new Serializer();
    response.Write(Encode32(PROTOCOL));
    assert response.buffer == Head();
    hide Encoding, Head;
    response.WriteString(publicKey);
    response.WriteString(signature);
    Grouped(Head(), Encoding(Text(publicKey)), Encoding(Text(signature)));
    data := response.buffer;
  }

  lemma Grouped(a: seq<Byte>, b: seq<Byte>, c: seq<Byte>)
    ensures a + b + c == a + (b + c)
  {
  }

  /** `store_player_state`: the message a player sends about itself. */
  method StorePlayerState(guid: Word, username: seq<Byte>, body: Body) returns (data: seq<Byte>)
    ensures ReadState(data) == Parsed(Player(guid, PadName(username), PlayerState(body, 0)))
  {
    var player := Player(guid, PadName(username), PlayerState(body, 0));
    StateArrives(player);
    hide ReadState, PadName, EncodePlayer;
    var buffer := new Serializer();
    buffer.Write(Encode32(PROTOCOL));
    assert buffer.buffer == Head();
    hide Head;
    buffer.Write(EncodePlayer(player));
    data := buffer.buffer;
  }

  // ---- One snapshot, one poll ----

  ghost predicate Distinct(players: seq<Player>) {
    forall i, j | 0 <= i < j < |players| :: players[i].guid != players[j].guid
  }

  /** Receiving keeps the order of the players and leaves out none but the player itself. */
  lemma {:induction false} OthersJoin(own: Word, a: seq<Player>, b: seq<Player>)
    ensures Others(own, a + b) == Others(own, a) + Others(own, b)
    decreases |b|
  {
    if b == [] {
      assert a + b == a;
    } else {
      var n := |b| - 1;
      assert a + b == (a + b[..n]) + [b[n]] && b == b[..n] + [b[n]];
      OthersMore(own, a + b[..n], b[n]);
      OthersMore(own, b[..n], b[n]);
      hide Others;
      OthersJoin(own, a, b[..n]);
    }
  }

  lemma OthersMore(own: Word, players: seq<Player>, p: Player)
    ensures Others(own, players + [p]) == Others(own, players) + if p.guid == own then [] else [p]
  {
    assert (players + [p])[..|players|] == players;
  }

  lemma {:induction false} OthersMembers(own: Word, players: seq<Player>)
    ensures forall p :: p in Others(own, players) <==> p in players && p.guid != own
    decreases |players|
  {
    if players != [] {
      var n := |players| - 1;
      OthersMembers(own, players[..n]);
      assert players == players[..n] + [players[n]];
    }
  }

  /** The ids known are always of players in the picture, and the player itself is never in it. */
  ghost predicate Tidy(own: Word, view: View) {
    && !Present(view.infos, own)
    && forall g | g in view.ids :: Present(view.infos, g)
  }

  lemma ReceivedIsTidy(own: Word, view: View, players: seq<Player>)
    ensures Tidy(own, Received(own, view, players))
  {
    OthersMembers(own, players);
  }

  lemma {:induction false} IdsAfterKeys(view: View, n: nat)
    requires n <= |view.infos|
    ensures forall g :: g in IdsAfter(view, n) <==> g in view.ids || Present(view.infos[..n], g)
    decreases n
  {
    if n > 0 {
      IdsAfterKeys(view, n - 1);
      assert view.infos[..n] == view.infos[..n - 1] + [view.infos[n - 1]];
      forall g
        ensures Present(view.infos[..n], g) <==> Present(view.infos[..n - 1], g) || g == view.infos[n - 1].guid
      {
        PresentMore(view.infos[..n - 1], view.infos[n - 1], g);
      }
      hide Present;
    }
  }

  lemma PolledIsTidy(own: Word, view: View)
    requires Tidy(own, view)
    ensures Tidy(own, Polled(view))
    ensures forall g :: g in Polled(view).ids <==> Present(view.infos, g)
  {
    IdsAfterKeys(view, |view.infos|);
    assert view.infos[..|view.infos|] == view.infos;
  }

  lemma OnlyOne(players: seq<Player>, i: nat)
    requires Distinct(players) && i < |players|
    ensures forall k | 0 <= k < |players| && k != i :: players[k].guid != players[i].guid
  {
  }

  lemma {:induction false} IdsElsewhere(view: View, g: Word, from: nat, n: nat)
    requires from <= n <= |view.infos| && forall i | from <= i < n :: view.infos[i].guid != g
    ensures LastId(IdsAfter(view, n), g) == LastId(IdsAfter(view, from), g)
    ensures g in IdsAfter(view, n) <==> g in IdsAfter(view, from)
    decreases n
  {
    if from < n {
      IdsElsewhere(view, g, from, n - 1);
    }
  }

  /** With distinct guids, a state is attached exactly when its id exceeds the one last polled for its guid,
      and afterwards the id last polled is its own. */
  lemma FreshExactlyWhen(view: View, i: nat)
    requires Distinct(view.infos) && i < |view.infos|
    ensures Fresh(view, i) <==> view.infos[i].state.stateId > LastId(view.ids, view.infos[i].guid)
    ensures var g := view.infos[i].guid; g in Polled(view).ids && Polled(view).ids[g] == view.infos[i].state.stateId
  {
    var g := view.infos[i].guid;
    OnlyOne(view.infos, i);
    hide Distinct;
    IdsElsewhere(view, g, 0, i);
    IdsElsewhere(view, g, i + 1, |view.infos|);
  }

  // ---- Sequences of snapshots and polls ----

  datatype Happening = Delivered(players: seq<Player>) | PolledNow

  function ViewAfter(own: Word, hs: seq<Happening>): View {
    if hs == [] then View([], map[])
    else
      var before := ViewAfter(own, hs[..|hs| - 1]);
      match hs[|hs| - 1]
      case Delivered(players) => Received(own, before, players)
      case PolledNow => Polled(before)
  }

  /** The ids of the states that a poll attaches for a guid. */
  function AttachedIn(view: View, g: Word, n: nat): seq<Word>
    requires n <= |view.infos|
  {
    if n == 0 then []
    else
      AttachedIn(view, g, n - 1) +
      if view.infos[n - 1].guid == g && Fresh(view, n - 1) then [view.infos[n - 1].state.stateId] else []
  }

  /** The ids attached for a guid since it last came into the picture. */
  function AttachedIds(own: Word, hs: seq<Happening>, g: Word): seq<Word> {
    if hs == [] then []
    else
      var before := hs[..|hs| - 1];
      match hs[|hs| - 1]
      case Delivered(_) => if Present(ViewAfter(own, hs).infos, g) then AttachedIds(own, before, g) else []
      case PolledNow =>
        var view := ViewAfter(own, before);
        AttachedIds(own, before, g) + AttachedIn(view, g, |view.infos|)
  }

  /** The state id a snapshot has for a guid, zero when it has none. */
  function IdIn(players: seq<Player>, g: Word): Word {
    if players == [] then 0
    else
      var last := players[|players| - 1];
      if last.guid == g then last.state.stateId else IdIn(players[..|players| - 1], g)
  }

  /** Snapshots as a server in good order sends them: distinct guids, ids from one up and never going back
      while the player stays. */
  ghost predicate Ordered(own: Word, hs: seq<Happening>, g: Word) {
    hs != [] ==>
      var before, h := hs[..|hs| - 1], hs[|hs| - 1];
      && Ordered(own, before, g)
      && (h.Delivered? ==>
            && Distinct(h.players)
            && (Present(h.players, g) ==>
                  IdIn(h.players, g) >= 1 && IdIn(h.players, g) >= IdIn(ViewAfter(own, before).infos, g)))
  }

  predicate Increasing(s: seq<Word>) {
    forall i, j | 0 <= i < j < |s| :: s[i] < s[j]
  }

  lemma {:induction false} OthersDistinct(own: Word, players: seq<Player>)
    requires Distinct(players)
    ensures Distinct(Others(own, players))
    decreases |players|
  {
    if players != [] {
      var n := |players| - 1;
      var front := Others(own, players[..n]);
      OthersDistinct(own, players[..n]);
      OthersMembers(own, players[..n]);
      forall i | 0 <= i < |front|
        ensures front[i].guid != players[n].guid
      {
        assert front[i] in players[..n];
      }
    }
  }

  lemma {:induction false} OthersId(own: Word, players: seq<Player>, g: Word)
    requires g != own
    ensures IdIn(Others(own, players), g) == IdIn(players, g)
    decreases |players|
  {
    if players != [] {
      var n := |players| - 1;
      OthersId(own, players[..n], g);
      var front, last := Others(own, players[..n]), players[n];
      assert last.guid != own ==> (front + [last])[..|front|] == front;
      assert front + [] == front;
    }
  }

  lemma OthersPresent(own: Word, players: seq<Player>, g: Word)
    requires g != own
    ensures Present(Others(own, players), g) <==> Present(players, g)
  {
    OthersMembers(own, players);
  }

  lemma {:induction false} IdOfEntry(players: seq<Player>, i: nat)
    requires Distinct(players) && i < |players|
    ensures IdIn(players, players[i].guid) == players[i].state.stateId
    decreases |players|
  {
    if i < |players| - 1 {
      IdOfEntry(players[..|players| - 1], i);
    }
  }

  lemma {:induction false} NoId(players: seq<Player>, g: Word)
    requires !Present(players, g)
    ensures IdIn(players, g) == 0
    decreases |players|
  {
    if players != [] {
      var n := |players| - 1;
      assert players == players[..n] + [players[n]];
      PresentMore(players[..n], players[n], g);
      NoId(players[..n], g);
    }
  }

  lemma {:induction false} AttachedElsewhere(view: View, g: Word, from: nat, n: nat)
    requires from <= n <= |view.infos| && forall i | from <= i < n :: view.infos[i].guid != g
    ensures AttachedIn(view, g, n) == AttachedIn(view, g, from)
    decreases n
  {
    if from < n {
      AttachedElsewhere(view, g, from, n - 1);
    }
  }

  /** One poll, seen from one guid. */
  lemma PollOf(view: View, g: Word)
    requires Distinct(view.infos)
    ensures var n, id := |view.infos|, IdIn(view.infos, g);
            if Present(view.infos, g) then
              && g in Polled(view).ids && Polled(view).ids[g] == id
              && AttachedIn(view, g, n) == (if id > LastId(view.ids, g) then [id] else [])
            else
              && AttachedIn(view, g, n) == []
              && (g in Polled(view).ids <==> g in view.ids) && LastId(Polled(view).ids, g) == LastId(view.ids, g)
  {
    var n := |view.infos|;
    if Present(view.infos, g) {
      var p :| p in view.infos && p.guid == g;
      var i :| 0 <= i < n && view.infos[i] == p;
      hide IdIn, AttachedIn, IdsAfter, Fresh, LastId;
      PollOfEntry(view, i);
    } else {
      assert forall i | 0 <= i < n :: view.infos[i] in view.infos;
      hide IdIn, Present, Distinct, LastId;
      AttachedElsewhere(view, g, 0, n);
      IdsElsewhere(view, g, 0, n);
    }
  }

  lemma AttachedNext(view: View, g: Word, i: nat)
    requires i < |view.infos|
    ensures AttachedIn(view, g, i + 1) == AttachedIn(view, g, i) +
              if view.infos[i].guid == g && Fresh(view, i) then [view.infos[i].state.stateId] else []
  {
  }

  lemma PollOfEntry(view: View, i: nat)
    requires Distinct(view.infos) && i < |view.infos|
    ensures var g, id, n := view.infos[i].guid, view.infos[i].state.stateId, |view.infos|;
            && IdIn(view.infos, g) == id
            && g in Polled(view).ids && Polled(view).ids[g] == id
            && AttachedIn(view, g, n) == (if id > LastId(view.ids, g) then [id] else [])
  {
    var g, n := view.infos[i].guid, |view.infos|;
    OnlyOne(view.infos, i);
    IdOfEntry(view.infos, i);
    FreshExactlyWhen(view, i);
    AttachedOnce(view, i);
    hide *;
  }

  lemma AttachedOnce(view: View, i: nat)
    requires i < |view.infos|
    requires forall k | 0 <= k < |view.infos| && k != i :: view.infos[k].guid != view.infos[i].guid
    ensures AttachedIn(view, view.infos[i].guid, |view.infos|) ==
            if Fresh(view, i) then [view.infos[i].state.stateId] else []
  {
    var g := view.infos[i].guid;
    assert AttachedIn(view, g, 0) == [];
    AttachedNext(view, g, i);
    hide Fresh, AttachedIn;
    AttachedElsewhere(view, g, 0, i);
    AttachedElsewhere(view, g, i + 1, |view.infos|);
    var x: seq<Word> := if Fresh(view, i) then [view.infos[i].state.stateId] else [];
    assert [] + x == x;
  }

  /** What is known of one guid after a sequence of snapshots and polls. */
  ghost predicate Seen(view: View, attached: seq<Word>, g: Word) {
    && Distinct(view.infos)
    && (Present(view.infos, g) ==> IdIn(view.infos, g) >= 1)
    && Increasing(attached)
    && (g in view.ids <==> attached != [])
    && (g in view.ids ==> Present(view.infos, g) && attached[|attached| - 1] == view.ids[g] <= IdIn(view.infos, g))
  }

  lemma SeenReceived(own: Word, view: View, attached: seq<Word>, g: Word, players: seq<Player>)
    requires g != own && Seen(view, attached, g) && Distinct(players)
    requires Present(players, g) ==> IdIn(players, g) >= 1 && IdIn(players, g) >= IdIn(view.infos, g)
    ensures var after := Received(own, view, players);
            Seen(after, if Present(after.infos, g) then attached else [], g)
  {
    var none: seq<Word> := [];
    assert Increasing(none);
    hide Others, IdIn, Present, Distinct, Increasing;
    OthersDistinct(own, players);
    OthersId(own, players, g);
    OthersPresent(own, players, g);
  }

  lemma SeenPolled(view: View, attached: seq<Word>, g: Word)
    requires Seen(view, attached, g)
    ensures Seen(Polled(view), attached + AttachedIn(view, g, |view.infos|), g)
    ensures Present(view.infos, g) ==> g in Polled(view).ids && Polled(view).ids[g] == IdIn(view.infos, g)
  {
    hide IdIn, AttachedIn, IdsAfter, Present, Distinct;
    PollOf(view, g);
  }

  lemma {:induction false} AlwaysSeen(own: Word, hs: seq<Happening>, g: Word)
    requires g != own && Ordered(own, hs, g)
    ensures Seen(ViewAfter(own, hs), AttachedIds(own, hs, g), g)
    decreases |hs|
  {
    if hs != [] {
      var before := hs[..|hs| - 1];
      AlwaysSeen(own, before, g);
      match hs[|hs| - 1] {
        case Delivered(players) =>
          SeenReceived(own, ViewAfter(own, before), AttachedIds(own, before, g), g, players);
        case PolledNow =>
          SeenPolled(ViewAfter(own, before), AttachedIds(own, before, g), g);
      }
    }
  }

  /** While a player stays in the picture its attached states have strictly increasing ids, so none comes
      twice; and once polled, the state in the picture has been attached, the first one included. */
  lemma FreshStatesOnly(own: Word, hs: seq<Happening>, g: Word)
    requires g != own && Ordered(own, hs, g)
    ensures Increasing(AttachedIds(own, hs, g))
    ensures hs != [] && hs[|hs| - 1].PolledNow? && Present(ViewAfter(own, hs).infos, g) ==>
              var attached := AttachedIds(own, hs, g);
              attached != [] && attached[|attached| - 1] == IdIn(ViewAfter(own, hs).infos, g)
  {
    AlwaysSeen(own, hs, g);
    if hs != [] && hs[|hs| - 1].PolledNow? {
      var before := hs[..|hs| - 1];
      AlwaysSeen(own, before, g);
      SeenPolled(ViewAfter(own, before), AttachedIds(own, before, g), g);
      hide AttachedIds;
    }
  }

  /** Whatever arrives: the picture stays tidy. */
  lemma {:induction false} AlwaysTidy(own: Word, hs: seq<Happening>)
    ensures Tidy(own, ViewAfter(own, hs))
    decreases |hs|
  {
    if hs != [] {
      AlwaysTidy(own, hs[..|hs| - 1]);
      match hs[|hs| - 1] {
        case Delivered(players) => ReceivedIsTidy(own, ViewAfter(own, hs[..|hs| - 1]), players);
        case PolledNow => PolledIsTidy(own, ViewAfter(own, hs[..|hs| - 1]));
      }
    }
  }

  // ---- What polls return ----

  function IdsOf(states: seq<PlayerState>): (ids: seq<Word>)
    ensures |ids| == |states|
  {
    seq(|states|, i requires 0 <= i < |states| => states[i].stateId)
  }

  function BodiesOf(states: seq<PlayerState>): (bodies: seq<Body>)
    ensures |bodies| == |states|
  {
    seq(|states|, i requires 0 <= i < |states| => states[i].body)
  }

  /** All the bodies the result of a poll has for a guid. */
  function BodiesFor(result: seq<ScriptPlayer>, g: Word): seq<Body> {
    if result == [] then []
    else
      var last := result[|result| - 1];
      BodiesFor(result[..|result| - 1], g) + if last.guid == g then last.states else []
  }

  /** The bodies polls have returned for a guid since it last came into the picture. */
  function Returned(own: Word, hs: seq<Happening>, g: Word): seq<Body> {
    if hs == [] then []
    else
      var before := hs[..|hs| - 1];
      match hs[|hs| - 1]
      case Delivered(_) => if Present(ViewAfter(own, hs).infos, g) then Returned(own, before, g) else []
      case PolledNow =>
        var view := ViewAfter(own, before);
        Returned(own, before, g) + BodiesFor(Results(view, |view.infos|), g)
  }

  /** The states a poll attaches for a guid, with their ids. */
  ghost function StatesIn(view: View, g: Word, n: nat): seq<PlayerState>
    requires n <= |view.infos|
  {
    if n == 0 then []
    else
      StatesIn(view, g, n - 1) +
      if view.infos[n - 1].guid == g && Fresh(view, n - 1) then [view.infos[n - 1].state] else []
  }

  /** The states attached for a guid since it last came into the picture. */
  ghost function AttachedStates(own: Word, hs: seq<Happening>, g: Word): seq<PlayerState> {
    if hs == [] then []
    else
      var before := hs[..|hs| - 1];
      match hs[|hs| - 1]
      case Delivered(_) => if Present(ViewAfter(own, hs).infos, g) then AttachedStates(own, before, g) else []
      case PolledNow =>
        var view := ViewAfter(own, before);
        AttachedStates(own, before, g) + StatesIn(view, g, |view.infos|)
  }

  lemma {:induction false} PollReturns(view: View, g: Word, n: nat)
    requires n <= |view.infos|
    ensures IdsOf(StatesIn(view, g, n)) == AttachedIn(view, g, n)
    ensures BodiesOf(StatesIn(view, g, n)) == BodiesFor(Results(view, n), g)
  {
    hide *;
    if n == 0 {
      NothingReturned(view, g);
    } else {
      PollReturns(view, g, n - 1);
      var p := view.infos[n - 1];
      var one: seq<PlayerState> := if p.guid == g && Fresh(view, n - 1) then [p.state] else [];
      StatesNext(view, g, n - 1);
      ResultsNext(view, n - 1);
      BodiesNext(Results(view, n - 1), p, Fresh(view, n - 1), g);
      IdsOfJoin(StatesIn(view, g, n - 1), one);
    }
  }

  lemma NothingReturned(view: View, g: Word)
    ensures IdsOf(StatesIn(view, g, 0)) == AttachedIn(view, g, 0)
    ensures BodiesOf(StatesIn(view, g, 0)) == BodiesFor(Results(view, 0), g)
  {
  }

  lemma StatesNext(view: View, g: Word, i: nat)
    requires i < |view.infos|
    ensures var p := view.infos[i];
            var one: seq<PlayerState> := if p.guid == g && Fresh(view, i) then [p.state] else [];
            && StatesIn(view, g, i + 1) == StatesIn(view, g, i) + one
            && AttachedIn(view, g, i + 1) == AttachedIn(view, g, i) + IdsOf(one)
  {
    hide Fresh;
  }

  lemma BodiesNext(result: seq<ScriptPlayer>, p: Player, attach: bool, g: Word)
    ensures BodiesFor(result + [Converted(p, attach)], g) ==
            BodiesFor(result, g) + BodiesOf(if p.guid == g && attach then [p.state] else [])
  {
    assert (result + [Converted(p, attach)])[..|result|] == result;
    hide CString;
  }

  lemma IdsOfJoin(a: seq<PlayerState>, b: seq<PlayerState>)
    ensures IdsOf(a + b) == IdsOf(a) + IdsOf(b) && BodiesOf(a + b) == BodiesOf(a) + BodiesOf(b)
  {
  }

  /** What polls return for a guid are the bodies of the states whose ids count as attached, no more and no fewer, in
      the same order; and each of these states was delivered under that guid. */
  lemma {:induction false} ReturnedAreAttached(own: Word, hs: seq<Happening>, g: Word)
    ensures var states := AttachedStates(own, hs, g);
            && IdsOf(states) == AttachedIds(own, hs, g)
            && BodiesOf(states) == Returned(own, hs, g)
            && forall s | s in states :: WasDelivered(hs, g, s)
    decreases |hs|
  {
    if hs != [] {
      var before := hs[..|hs| - 1];
      ReturnedAreAttached(own, before, g);
      hide IdsOf, BodiesOf, Present, StatesIn, BodiesFor, Results, AttachedIn, WasDelivered;
      forall s | WasDelivered(before, g, s)
        ensures WasDelivered(hs, g, s)
      {
        StillDelivered(hs, g, s);
      }
      if hs[|hs| - 1].PolledNow? {
        var view := ViewAfter(own, before);
        PollReturns(view, g, |view.infos|);
        IdsOfJoin(AttachedStates(own, before, g), StatesIn(view, g, |view.infos|));
        PictureWasDelivered(own, before);
        StatesWereDelivered(view, g, |view.infos|, before);
      }
    }
  }

  ghost predicate WasDelivered(hs: seq<Happening>, g: Word, s: PlayerState) {
    exists h, p :: h in hs && h.Delivered? && p in h.players && p.guid == g && p.state == s
  }

  lemma StillDelivered(hs: seq<Happening>, g: Word, s: PlayerState)
    requires hs != [] && WasDelivered(hs[..|hs| - 1], g, s)
    ensures WasDelivered(hs, g, s)
  {
    var h, p :| h in hs[..|hs| - 1] && h.Delivered? && p in h.players && p.guid == g && p.state == s;
    assert h in hs;
  }

  /** Whoever is in the picture was delivered so. */
  lemma {:induction false} PictureWasDelivered(own: Word, hs: seq<Happening>)
    ensures forall p | p in ViewAfter(own, hs).infos :: WasDelivered(hs, p.guid, p.state)
    decreases |hs|
  {
    if hs != [] {
      var before, h := hs[..|hs| - 1], hs[|hs| - 1];
      PictureWasDelivered(own, before);
      assert h in hs;
      hide IdsAfter, Present;
      forall p | p in ViewAfter(own, hs).infos
        ensures WasDelivered(hs, p.guid, p.state)
      {
        if h.Delivered? {
          OthersMembers(own, h.players);
          assert p in h.players;
        } else {
          StillDelivered(hs, p.guid, p.state);
        }
      }
    }
  }

  lemma {:induction false} StatesWereDelivered(view: View, g: Word, n: nat, hs: seq<Happening>)
    requires n <= |view.infos| && forall p | p in view.infos :: WasDelivered(hs, p.guid, p.state)
    ensures forall s | s in StatesIn(view, g, n) :: WasDelivered(hs, g, s)
  {
    if n > 0 {
      StatesWereDelivered(view, g, n - 1, hs);
      assert view.infos[n - 1] in view.infos;
      hide WasDelivered, Fresh;
    }
  }

  // ---- Exactly when attached ids increase ----

  /** The ids polled for a guid since it last came into the picture, attached or not. */
  function PolledIds(own: Word, hs: seq<Happening>, g: Word): seq<Word> {
    if hs == [] then []
    else
      var before := hs[..|hs| - 1];
      match hs[|hs| - 1]
      case Delivered(_) => if Present(ViewAfter(own, hs).infos, g) then PolledIds(own, before, g) else []
      case PolledNow =>
        var infos := ViewAfter(own, before).infos;
        PolledIds(own, before, g) + if Present(infos, g) then [IdIn(infos, g)] else []
  }

  /** The id polled before position `k`, zero at first. */
  function Previous(ids: seq<Word>, k: nat): Word
    requires k <= |ids|
  {
    if k == 0 then 0 else ids[k - 1]
  }

  /** The ids that exceed the one just before them. */
  function Rises(ids: seq<Word>): seq<Word> {
    if ids == [] then []
    else
      var n := |ids| - 1;
      Rises(ids[..n]) + if ids[n] > Previous(ids, n) then [ids[n]] else []
  }

  /** Whenever an id exceeds the one just before it, it exceeds all before it. */
  ghost predicate RisesAreRecords(ids: seq<Word>) {
    forall k | 0 <= k < |ids| && ids[k] > Previous(ids, k) :: Record(ids, k)
  }

  ghost predicate Record(ids: seq<Word>, k: nat)
    requires k < |ids|
  {
    forall j | 0 <= j < k :: ids[k] > ids[j]
  }

  ghost predicate DistinctAlways(hs: seq<Happening>) {
    forall h | h in hs && h.Delivered? :: Distinct(h.players)
  }

  /** What is known of one guid, whatever the ids: the last id polled is the last of the ids polled. */
  ghost predicate Followed(view: View, polled: seq<Word>, g: Word) {
    && Distinct(view.infos)
    && (g in view.ids <==> polled != [])
    && (g in view.ids ==> Present(view.infos, g) && view.ids[g] == polled[|polled| - 1])
  }

  lemma FollowedReceived(own: Word, view: View, polled: seq<Word>, g: Word, players: seq<Player>)
    requires g != own && Followed(view, polled, g) && Distinct(players)
    ensures var after := Received(own, view, players);
            Followed(after, if Present(after.infos, g) then polled else [], g)
  {
    OthersDistinct(own, players);
    hide Others, Present, Distinct;
  }

  lemma FollowedPolled(view: View, polled: seq<Word>, g: Word)
    requires Followed(view, polled, g)
    ensures var more := if Present(view.infos, g) then [IdIn(view.infos, g)] else [];
            && Followed(Polled(view), polled + more, g)
            && Rises(polled) + AttachedIn(view, g, |view.infos|) == Rises(polled + more)
  {
    hide IdIn, AttachedIn, IdsAfter, Present, Distinct, Rises;
    PollOf(view, g);
    if Present(view.infos, g) {
      OneMoreRise(polled, IdIn(view.infos, g));
    } else {
      var none: seq<Word> := [];
      assert polled + none == polled && Rises(polled) + none == Rises(polled);
    }
  }

  lemma OneMoreRise(ids: seq<Word>, id: Word)
    ensures Rises(ids + [id]) == Rises(ids) + if id > Previous(ids, |ids|) then [id] else []
  {
    var all := ids + [id];
    assert all[..|all| - 1] == ids && Previous(all, |ids|) == Previous(ids, |ids|);
  }

  /** With distinct guids, for any ids at all: what is attached is what exceeds the previous poll. */
  lemma {:induction false} AttachedAreRises(own: Word, hs: seq<Happening>, g: Word)
    requires g != own && DistinctAlways(hs)
    ensures Followed(ViewAfter(own, hs), PolledIds(own, hs, g), g)
    ensures AttachedIds(own, hs, g) == Rises(PolledIds(own, hs, g))
    decreases |hs|
  {
    if hs != [] {
      var before := hs[..|hs| - 1];
      assert hs[|hs| - 1] in hs && forall h | h in before :: h in hs;
      hide Followed, Rises, Received, Polled, Present, Distinct;
      AttachedAreRises(own, before, g);
      match hs[|hs| - 1] {
        case Delivered(players) =>
          FollowedReceived(own, ViewAfter(own, before), PolledIds(own, before, g), g, players);
          NoRises();
        case PolledNow =>
          FollowedPolled(ViewAfter(own, before), PolledIds(own, before, g), g);
      }
    }
  }

  lemma NoRises()
    ensures Rises([]) == []
  {
  }

  lemma IncreasingAppend(s: seq<Word>, x: Word)
    ensures Increasing(s + [x]) <==> Increasing(s) && (s != [] ==> s[|s| - 1] < x)
  {
    var all := s + [x];
    if Increasing(all) {
      assert forall i | 0 <= i < |s| :: all[i] == s[i];
      assert s != [] ==> all[|s| - 1] < all[|s|];
    }
  }

  /** The rises without the last id, and what the last id adds to them. */
  lemma RisesOfFront(ids: seq<Word>)
    requires ids != []
    ensures var n, front := |ids| - 1, Rises(ids[..|ids| - 1]);
            && Rises(ids) == (if ids[n] > Previous(ids, n) then front + [ids[n]] else front)
            && (Increasing(Rises(ids)) <==>
                  Increasing(front) && (ids[n] > Previous(ids, n) && front != [] ==> front[|front| - 1] < ids[n]))
  {
    var n := |ids| - 1;
    var front := Rises(ids[..n]);
    assert Rises(ids) == front + if ids[n] > Previous(ids, n) then [ids[n]] else [];
    hide Increasing, Previous, Rises;
    if ids[n] > Previous(ids, n) {
      IncreasingAppend(front, ids[n]);
    } else {
      var none: seq<Word> := [];
      assert front + none == front;
    }
  }

  /** Rises that increase leave nothing above the last of them. */
  lemma {:induction false} LastRiseIsHighest(ids: seq<Word>, j: nat)
    requires Increasing(Rises(ids)) && j < |ids|
    ensures if Rises(ids) == [] then ids[j] == 0 else ids[j] <= Rises(ids)[|Rises(ids)| - 1]
    decreases |ids|
  {
    hide Rises, Increasing;
    var n := |ids| - 1;
    RisesOfFront(ids);
    if j < n {
      LastRiseIsHighest(ids[..n], j);
    } else if n > 0 {
      LastRiseIsHighest(ids[..n], n - 1);
    }
  }

  lemma {:induction false} RisesAreAmong(ids: seq<Word>)
    ensures forall x | x in Rises(ids) :: x in ids
    decreases |ids|
  {
    if ids != [] {
      RisesAreAmong(ids[..|ids| - 1]);
    }
  }

  lemma {:induction false} RisesIncreaseExactlyWhen(ids: seq<Word>)
    ensures Increasing(Rises(ids)) <==> RisesAreRecords(ids)
    decreases |ids|
  {
    hide Increasing, Rises, RisesAreRecords;
    if ids == [] {
      NoRecords();
    } else {
      var n := |ids| - 1;
      var front := ids[..n];
      RisesIncreaseExactlyWhen(front);
      RecordsOfFront(ids);
      RisesOfFront(ids);
      if Increasing(Rises(front)) {
        LastAboveAll(front, ids[n]);
      }
    }
  }

  lemma NoRecords()
    ensures Increasing(Rises([])) && RisesAreRecords([])
  {
  }

  /** What exceeds the last of increasing rises exceeds everything, and the other way round. */
  lemma LastAboveAll(ids: seq<Word>, x: Word)
    requires Increasing(Rises(ids))
    ensures var rises := Rises(ids);
            x > 0 ==> ((rises != [] ==> rises[|rises| - 1] < x) <==> forall j | 0 <= j < |ids| :: x > ids[j])
  {
    RisesAreAmong(ids);
    var rises := Rises(ids);
    forall j | 0 <= j < |ids|
      ensures if rises == [] then ids[j] == 0 else ids[j] <= rises[|rises| - 1]
    {
      LastRiseIsHighest(ids, j);
    }
    hide Increasing, Rises;
    assert rises != [] ==> rises[|rises| - 1] in ids;
  }

  lemma RecordsOfFront(ids: seq<Word>)
    requires ids != []
    ensures var n := |ids| - 1;
            RisesAreRecords(ids) <==>
              RisesAreRecords(ids[..n]) && (ids[n] > Previous(ids, n) ==> forall j | 0 <= j < n :: ids[n] > ids[..n][j])
  {
    var n := |ids| - 1;
    RecordAtEnd(ids);
    hide Record, Previous;
    if RisesAreRecords(ids[..n]) && (ids[n] > Previous(ids, n) ==> Record(ids, n)) {
      forall k | 0 <= k < |ids| && ids[k] > Previous(ids, k)
        ensures Record(ids, k)
      {
        if k < n {
          RecordInFront(ids, k);
        }
      }
    }
    if RisesAreRecords(ids) {
      forall k | 0 <= k < n && ids[..n][k] > Previous(ids[..n], k)
        ensures Record(ids[..n], k)
      {
        RecordInFront(ids, k);
      }
    }
  }

  lemma RecordAtEnd(ids: seq<Word>)
    requires ids != []
    ensures var n := |ids| - 1; Record(ids, n) <==> forall j | 0 <= j < n :: ids[n] > ids[..n][j]
  {
    var n := |ids| - 1;
    assert forall j | 0 <= j < n :: ids[..n][j] == ids[j];
  }

  lemma RecordInFront(ids: seq<Word>, k: nat)
    requires k < |ids| - 1
    ensures var front := ids[..|ids| - 1];
            && front[k] == ids[k] && Previous(front, k) == Previous(ids, k)
            && (Record(front, k) <==> Record(ids, k))
  {
    assert forall j | 0 <= j < k :: ids[..|ids| - 1][j] == ids[j];
  }

  /** With distinct guids, and whatever ids the snapshots carry: while a player stays in the picture the ids of
      its attached states strictly increase exactly when every polled id that exceeds the one polled just
      before it exceeds all polled before. */
  lemma AttachedIdsIncreaseExactlyWhen(own: Word, hs: seq<Happening>, g: Word)
    requires g != own && DistinctAlways(hs)
    ensures Increasing(AttachedIds(own, hs, g)) <==> RisesAreRecords(PolledIds(own, hs, g))
  {
    AttachedAreRises(own, hs, g);
    RisesIncreaseExactlyWhen(PolledIds(own, hs, g));
    hide *;
  }

  // ---- Exactly when no state is attached twice ----

  ghost predicate NoneTwice(s: seq<Word>) {
    forall j, k | 0 <= j < k < |s| :: s[j] != s[k]
  }

  ghost predicate RiseAt(ids: seq<Word>, k: nat) {
    k < |ids| && ids[k] > Previous(ids, k)
  }

  /** No id is polled twice right after a smaller one. */
  ghost predicate RisesDiffer(ids: seq<Word>) {
    forall j: nat, k: nat | j < k && RiseAt(ids, j) && RiseAt(ids, k) :: ids[j] != ids[k]
  }

  lemma NoneTwiceAppend(s: seq<Word>, x: Word)
    ensures NoneTwice(s + [x]) <==> NoneTwice(s) && x !in s
  {
    var all := s + [x];
    if NoneTwice(all) {
      assert forall j | 0 <= j < |s| :: all[j] == s[j];
      assert all[|s|] == x;
    }
  }

  lemma RiseInFront(ids: seq<Word>, k: nat)
    requires ids != [] && k < |ids| - 1
    ensures RiseAt(ids[..|ids| - 1], k) <==> RiseAt(ids, k)
  {
  }

  /** The rises are the ids at the positions where an id exceeds the one before it. */
  lemma {:induction false} RisesAreAtRises(ids: seq<Word>, x: Word)
    ensures x in Rises(ids) <==> HasRise(ids, x)
    decreases |ids|
  {
    hide Rises, HasRise, RiseAt, Previous;
    if ids == [] {
      NoRiseAtAll(x);
    } else {
      RisesAreAtRises(ids[..|ids| - 1], x);
      LastRise(ids, x);
      RiseOfFront(ids, x);
    }
  }

  lemma NoRiseAtAll(x: Word)
    ensures x !in Rises([]) && !HasRise([], x)
  {
  }

  lemma LastRise(ids: seq<Word>, x: Word)
    requires ids != []
    ensures var n := |ids| - 1; x in Rises(ids) <==> x in Rises(ids[..n]) || (RiseAt(ids, n) && ids[n] == x)
  {
    RisesOfFront(ids);
    hide Rises, Increasing;
  }

  lemma RiseOfFront(ids: seq<Word>, x: Word)
    requires ids != []
    ensures var n := |ids| - 1; HasRise(ids, x) <==> HasRise(ids[..n], x) || (RiseAt(ids, n) && ids[n] == x)
  {
    var n := |ids| - 1;
    var front := ids[..n];
    forall k: nat | k < n
      ensures front[k] == ids[k] && (RiseAt(front, k) <==> RiseAt(ids, k))
    {
      RiseInFront(ids, k);
    }
    RisesBelow(ids);
    RisesBelow(front);
    hide RiseAt;
    if k: nat :| RiseAt(ids, k) && ids[k] == x {
      assert k < n ==> RiseAt(front, k) && front[k] == x;
    }
    if k: nat :| RiseAt(front, k) && front[k] == x {
      assert RiseAt(ids, k) && ids[k] == x;
    }
  }

  lemma RisesBelow(ids: seq<Word>)
    ensures forall k: nat | RiseAt(ids, k) :: k < |ids|
  {
  }

  ghost predicate HasRise(ids: seq<Word>, x: Word) {
    exists k: nat :: RiseAt(ids, k) && ids[k] == x
  }

  lemma RisesDifferInFront(ids: seq<Word>)
    requires ids != []
    ensures var n, front := |ids| - 1, ids[..|ids| - 1];
            RisesDiffer(ids) <==> RisesDiffer(front) && (RiseAt(ids, n) ==> !HasRise(front, ids[n]))
  {
    var n, front := |ids| - 1, ids[..|ids| - 1];
    if RisesDiffer(ids) {
      DifferInFront(ids);
    }
    if RisesDiffer(front) && (RiseAt(ids, n) ==> !HasRise(front, ids[n])) {
      forall j: nat, k: nat | j < k && RiseAt(ids, j) && RiseAt(ids, k)
        ensures ids[j] != ids[k]
      {
        RiseInFront(ids, j);
        if k < n {
          RiseInFront(ids, k);
        }
        hide RiseAt;
        assert front[j] == ids[j] && RiseAt(front, j);
      }
    }
  }

  lemma DifferInFront(ids: seq<Word>)
    requires ids != [] && RisesDiffer(ids)
    ensures var n, front := |ids| - 1, ids[..|ids| - 1];
            RisesDiffer(front) && (RiseAt(ids, n) ==> !HasRise(front, ids[n]))
  {
    var n, front := |ids| - 1, ids[..|ids| - 1];
    forall j: nat, k: nat | j < k && RiseAt(front, j) && RiseAt(front, k)
      ensures front[j] != front[k]
    {
      RiseInFront(ids, j);
      RiseInFront(ids, k);
    }
    if RiseAt(ids, n) && HasRise(front, ids[n]) {
      var k: nat :| RiseAt(front, k) && front[k] == ids[n];
      RiseInFront(ids, k);
      assert false;
    }
  }

  lemma {:induction false} RisesTwiceExactlyWhen(ids: seq<Word>)
    ensures NoneTwice(Rises(ids)) <==> RisesDiffer(ids)
    decreases |ids|
  {
    if ids != [] {
      var n := |ids| - 1;
      var front := ids[..n];
      RisesTwiceExactlyWhen(front);
      RisesDifferInFront(ids);
      RisesOfFront(ids);
      RisesAreAtRises(front, ids[n]);
      NoneTwiceAppend(Rises(front), ids[n]);
      assert RiseAt(ids, n) <==> ids[n] > Previous(ids, n);
      hide NoneTwice, Rises, RisesDiffer, Increasing, RiseAt, Previous;
    }
  }

  /** With distinct guids, and whatever ids the snapshots carry: while a player stays in the picture none of its
      states is attached twice exactly when no id is polled twice right after a smaller one. */
  lemma NoStateTwiceExactlyWhen(own: Word, hs: seq<Happening>, g: Word)
    requires g != own && DistinctAlways(hs)
    ensures NoneTwice(AttachedIds(own, hs, g)) <==> RisesDiffer(PolledIds(own, hs, g))
  {
    AttachedAreRises(own, hs, g);
    RisesTwiceExactlyWhen(PolledIds(own, hs, g));
    hide *;
  }

  /** Increasing ids is more than no state twice: after a fall, a rise below the top attaches a new state. */
  lemma RisingBelowTheTop(top: Word, low: Word, mid: Word)
    requires top > mid > low
    ensures RisesDiffer([top, low, mid]) && !RisesAreRecords([top, low, mid])
  {
    var ids := [top, low, mid];
    assert RiseAt(ids, 2) && !RiseAt(ids, 1);
    assert !Record(ids, 2);
  }

  /** A witness: when a smaller id comes in between, the same state is attached twice, because the smaller id
      overwrites the larger; its id is then polled twice right after a smaller one. */
  lemma OutOfOrderAttachesTwice(own: Word, newer: Player, older: Player)
    requires newer.guid == older.guid != own && newer.state.stateId > older.state.stateId
    ensures var hs := [Delivered([newer]), PolledNow, Delivered([older]), PolledNow, Delivered([newer]), PolledNow];
            && AttachedIds(own, hs, newer.guid) == [newer.state.stateId, newer.state.stateId]
            && !RisesDiffer(PolledIds(own, hs, newer.guid))
  {
    var hs := [Delivered([newer]), PolledNow, Delivered([older]), PolledNow, Delivered([newer]), PolledNow];
    OutOfOrderRun(own, newer, older);
    assert DistinctAlways(hs);
    NoStateTwiceExactlyWhen(own, hs, newer.guid);
    hide AttachedIds, PolledIds, RisesDiffer;
    var attached := AttachedIds(own, hs, newer.guid);
    assert attached[0] == attached[1];
  }

  lemma OutOfOrderRun(own: Word, newer: Player, older: Player)
    requires newer.guid == older.guid != own && newer.state.stateId > older.state.stateId
    ensures var hs := [Delivered([newer]), PolledNow, Delivered([older]), PolledNow, Delivered([newer]), PolledNow];
            AttachedIds(own, hs, newer.guid) == [newer.state.stateId, newer.state.stateId]
  {
    var g, h1 := newer.guid, [Delivered([newer])];
    var h2 := h1 + [PolledNow];
    var h3 := h2 + [Delivered([older])];
    var h4 := h3 + [PolledNow];
    var h5 := h4 + [Delivered([newer])];
    OneDelivered(own, [], newer);
    OnePolled(own, h1, newer);
    OneDelivered(own, h2, older);
    OnePolled(own, h3, older);
    OneDelivered(own, h4, newer);
    OnePolled(own, h5, newer);
    assert h5 + [PolledNow] ==
        [Delivered([newer]), PolledNow, Delivered([older]), PolledNow, Delivered([newer]), PolledNow];
    hide ViewAfter, AttachedIds;
    assert [Delivered([newer])] == [] + h1;
  }

  lemma OneDelivered(own: Word, before: seq<Happening>, p: Player)
    requires p.guid != own
    ensures var hs, g, view := before + [Delivered([p])], p.guid, ViewAfter(own, before);
            && ViewAfter(own, hs).infos == [p]
            && LastId(ViewAfter(own, hs).ids, g) == LastId(view.ids, g)
            && AttachedIds(own, hs, g) == AttachedIds(own, before, g)
  {
    assert (before + [Delivered([p])])[..|before|] == before;
    assert Others(own, [p]) == [p] by {
      assert [p][..0] == [];
    }
    assert p in [p];
  }

  lemma OnePolled(own: Word, before: seq<Happening>, p: Player)
    requires ViewAfter(own, before).infos == [p]
    ensures var hs, g, id := before + [PolledNow], p.guid, p.state.stateId;
            && ViewAfter(own, hs).infos == [p]
            && LastId(ViewAfter(own, hs).ids, g) == id
            && AttachedIds(own, hs, g) == AttachedIds(own, before, g) +
                 (if id > LastId(ViewAfter(own, before).ids, g) then [id] else [])
  {
    assert (before + [PolledNow])[..|before|] == before;
    var view := ViewAfter(own, before);
    assert view.infos[0] == p && p in view.infos;
    PollOf(view, p.guid);
    IdOfEntry(view.infos, 0);
    hide AttachedIn, IdIn, IdsAfter;
  }
}
