/** Server and one client together, over a channel that may lose snapshots but keeps their order: the server
    of src/server/server.cpp broadcasts, the client of src/client/module/scripting_experiments.cpp receives
    and polls. */
module Session {
  import opened Words
  import opened GameStructs
  import opened Messages
  import Server
  import ServerRuns
  import opened PlayerStates

  /** The server's table, the snapshots on their way to the client, and what the client has gone through. */
  datatype World = World(clients: Server.Clients, channel: seq<seq<Byte>>, seen: seq<Happening>)

  /** A server event, with the walk over the table it leads to; or the first snapshot on its way is lost or
      delivered; or the client polls. */
  datatype Moment = Serves(e: ServerRuns.Event, order: seq<Server.Address>) | Loses | Delivers | Polls

  /** The parties: the client's own address and guid, and the server's cryptography. */
  datatype Setting = Setting(crypto: Server.Crypto, us: Server.Address, own: Word)

  /** A walk visits the table as it is after the frame; a table has fewer than 2^32 entries. */
  ghost predicate Possible(s: Setting, w: World, m: Moment) {
    m.Serves? ==> Server.Walks(m.order, ServerRuns.Step(s.crypto, w.clients, m.e)) && |m.order| < TWO_32
  }

  function Next(s: Setting, w: World, m: Moment): World
    requires Possible(s, w, m)
  {
    match m
    case Serves(e, order) =>
      var clients := ServerRuns.Step(s.crypto, w.clients, e);
      World(clients, w.channel + Sent(s, clients, e, order), w.seen)
    case Loses => if w.channel == [] then w else w.(channel := w.channel[1..])
    case Delivers =>
      if w.channel == [] then w
      else World(w.clients, w.channel[1..], w.seen + Arrival(w.channel[0]))
    case Polls => w.(seen := w.seen + [PolledNow])
  }

  /** A frame broadcasts to the client when it is authenticated. */
  function Sent(s: Setting, clients: Server.Clients, e: ServerRuns.Event, order: seq<Server.Address>): seq<seq<Byte>>
    requires forall a | a in order :: a in clients
  {
    if e.Frame? && s.us in clients && Server.Authenticated(clients[s.us])
    then [StatesMessage(Server.Snapshot(clients, order))] else []
  }

  /** What the client makes of a datagram. */
  function Arrival(data: seq<Byte>): seq<Happening> {
    match ReadStates(data)
    case Threw => []
    case Foreign => []
    case Parsed(players) => [Delivered(players)]
  }

  /** The players a datagram tells of. */
  function Told(data: seq<Byte>): seq<Player> {
    match ReadStates(data)
    case Threw => []
    case Foreign => []
    case Parsed(players) => players
  }

  /** Authenticated players have different guids. */
  ghost predicate DifferentGuids(clients: Server.Clients) {
    forall a, b | a in clients && b in clients && a != b ::
      Server.Authenticated(clients[a]) && Server.Authenticated(clients[b]) ==> clients[a].guid != clients[b].guid
  }

  /** Nobody but `a` plays under the guid. */
  ghost predicate HeldBy(clients: Server.Clients, g: Word, a: Server.Address) {
    forall b | b in clients && Server.Authenticated(clients[b]) && clients[b].guid == g :: b == a
  }

  /** One lifetime of the entry at `a`: it is not erased, its counter is short of wrapping, and guids are
      what they should be. */
  ghost predicate Calm(s: Setting, w: World, m: Moment, g: Word, a: Server.Address)
    requires Possible(s, w, m)
  {
    var after := Next(s, w, m).clients;
    && (a in w.clients ==> a in after && w.clients[a].stateId < TWO_64 - 1)
    && DifferentGuids(after) && HeldBy(after, g, a)
  }

  ghost predicate CalmRun(s: Setting, w: World, ms: seq<Moment>, g: Word, a: Server.Address)
    decreases |ms|
  {
    ms != [] ==>
      && Possible(s, w, ms[0]) && Calm(s, w, ms[0], g, a)
      && CalmRun(s, Next(s, w, ms[0]), ms[1..], g, a)
  }

  ghost function End(s: Setting, w: World, ms: seq<Moment>, g: Word, a: Server.Address): World
    requires CalmRun(s, w, ms, g, a)
    decreases |ms|
  {
    if ms == [] then w else End(s, Next(s, w, ms[0]), ms[1..], g, a)
  }

  // ---- The invariant ----

  /** The counter of the entry at `a`. */
  function CounterOf(clients: Server.Clients, a: Server.Address): int {
    if a in clients then clients[a].stateId else 0
  }

  /** A datagram that tells of the player at all tells of it once, with an id from one up. */
  ghost predicate Proper(data: seq<Byte>, g: Word) {
    ReadStates(data).Parsed? && Distinct(Told(data)) && (Present(Told(data), g) ==> IdIn(Told(data), g) >= 1)
  }

  /** Ids of the player never go back: from the client's picture through the channel to the server's counter. */
  ghost predicate Chained(picture: seq<Player>, channel: seq<seq<Byte>>, counter: int, g: Word) {
    && IdIn(picture, g) <= counter
    && (forall k | 0 <= k < |channel| :: ToldId(channel[k], g) <= counter)
    && (forall k | 0 <= k < |channel| && Present(Told(channel[k]), g) :: IdIn(picture, g) <= ToldId(channel[k], g))
    && (forall j, k | 0 <= j < k < |channel| && Present(Told(channel[k]), g) ::
        ToldId(channel[j], g) <= ToldId(channel[k], g))
  }

  function ToldId(data: seq<Byte>, g: Word): int {
    IdIn(Told(data), g)
  }

  /** An entry that has a nonce or is authenticated has reported at least once. */
  ghost predicate Reported(clients: Server.Clients, a: Server.Address) {
    a in clients && (clients[a].nonce != [] || Server.Authenticated(clients[a])) ==> clients[a].stateId >= 1
  }

  ghost predicate Good(s: Setting, w: World, g: Word, a: Server.Address) {
    && Reported(w.clients, a)
    && Ordered(s.own, w.seen, g)
    && (forall k | 0 <= k < |w.channel| :: Proper(w.channel[k], g))
    && Chained(ViewAfter(s.own, w.seen).infos, w.channel, CounterOf(w.clients, a), g)
  }

  // ---- What the server sends ----

  lemma {:induction false} SnapshotDistinct(clients: Server.Clients, order: seq<Server.Address>)
    requires forall a | a in order :: a in clients
    requires forall i, j | 0 <= i < j < |order| :: order[i] != order[j]
    requires DifferentGuids(clients)
    ensures Distinct(Server.Snapshot(clients, order))
    decreases |order|
  {
    if order != [] {
      var n := |order| - 1;
      SnapshotDistinct(clients, order[..n]);
      ServerRuns.SnapshotMembers(clients, order[..n]);
      var front := Server.Snapshot(clients, order[..n]);
      if Server.Authenticated(clients[order[n]]) {
        forall i | 0 <= i < |front|
          ensures front[i].guid != clients[order[n]].guid
        {
          assert front[i] in front;
          var a :| a in order[..n] && Server.Authenticated(clients[a]) && Server.PlayerOf(clients[a]) == front[i];
        }
      }
    }
  }

  /** A snapshot tells of the player exactly when its one holder is authenticated, and with its counter. */
  lemma SnapshotOfHolder(clients: Server.Clients, order: seq<Server.Address>, g: Word, a: Server.Address)
    requires Server.Walks(order, clients) && DifferentGuids(clients) && HeldBy(clients, g, a)
    ensures var players := Server.Snapshot(clients, order);
            && Distinct(players)
            && (Present(players, g) <==> a in clients && Server.Authenticated(clients[a]) && clients[a].guid == g)
            && IdIn(players, g) == (if Present(players, g) then clients[a].stateId else 0)
  {
    SnapshotDistinct(clients, order);
    ServerRuns.SnapshotMembers(clients, order);
    var players := Server.Snapshot(clients, order);
    hide Server.Snapshot, IdIn;
    assert a in clients && Server.Authenticated(clients[a]) && clients[a].guid == g ==>
           a in order && Server.PlayerOf(clients[a]) in players;
    if Present(players, g) {
      var p :| p in players && p.guid == g;
      var b :| b in order && Server.Authenticated(clients[b]) && Server.PlayerOf(clients[b]) == p;
      assert b == a;
      var i :| 0 <= i < |players| && players[i] == p;
      IdOfEntry(players, i);
    } else {
      NoId(players, g);
    }
  }

  lemma {:induction false} SnapshotSize(clients: Server.Clients, order: seq<Server.Address>)
    requires forall a | a in order :: a in clients
    ensures |Server.Snapshot(clients, order)| <= |order|
    decreases |order|
  {
    if order != [] {
      SnapshotSize(clients, order[..|order| - 1]);
    }
  }

  /** Within one lifetime the counter never goes back, and an entry with a nonce has reported. */
  lemma CounterGrows(s: Setting, clients: Server.Clients, e: ServerRuns.Event, a: Server.Address)
    requires Reported(clients, a)
    requires a in clients ==> a in ServerRuns.Step(s.crypto, clients, e) && clients[a].stateId < TWO_64 - 1
    ensures var after := ServerRuns.Step(s.crypto, clients, e);
            CounterOf(clients, a) <= CounterOf(after, a) && Reported(after, a)
  {
    var after := ServerRuns.Step(s.crypto, clients, e);
    if a in after {
      ServerRuns.EntryStep(s.crypto, clients, e, a);
      hide ServerRuns.Step, ServerRuns.Reports, ServerRuns.Proves, ServerRuns.ProvenKey, ReadState;
      var c: Server.Client := Server.Entry(clients, a);
      OneMore(c.stateId);
      hide Wrap;
    }
  }

  lemma OneMore(x: Word)
    requires x < TWO_64 - 1
    ensures Wrap(x + 1) == x + 1
  {
  }

  // ---- Every moment keeps the invariant ----

  lemma HigherCounter(picture: seq<Player>, channel: seq<seq<Byte>>, low: int, high: int, g: Word)
    requires Chained(picture, channel, low, g) && low <= high
    ensures Chained(picture, channel, high, g)
  {
    hide IdIn, ToldId, Told, Present;
  }

  lemma OneMoreSent(picture: seq<Player>, channel: seq<seq<Byte>>, counter: int, g: Word, data: seq<Byte>)
    requires Chained(picture, channel, counter, g) && ToldId(data, g) <= counter
    requires Present(Told(data), g) ==> ToldId(data, g) == counter
    ensures Chained(picture, channel + [data], counter, g)
  {
    hide IdIn, ToldId, Told, Present;
  }

  lemma SentIsProper(s: Setting, clients: Server.Clients, order: seq<Server.Address>, g: Word, a: Server.Address)
    requires Server.Walks(order, clients) && |order| < TWO_32
    requires DifferentGuids(clients) && HeldBy(clients, g, a) && Reported(clients, a)
    ensures var data := StatesMessage(Server.Snapshot(clients, order));
            && Proper(data, g) && ToldId(data, g) <= CounterOf(clients, a)
            && (Present(Told(data), g) ==> ToldId(data, g) == CounterOf(clients, a))
  {
    SnapshotSize(clients, order);
    SnapshotOfHolder(clients, order, g, a);
    hide ReadStates, StatesMessage, Server.Snapshot, IdIn, Distinct, Present, DifferentGuids, HeldBy, Server.Walks;
    var players := Server.Snapshot(clients, order);
    StatesArrive(players);
    var data := StatesMessage(players);
    assert Told(data) == players && ToldId(data, g) == IdIn(players, g);
    hide Told, ToldId;
  }

  lemma ServesKeepsGood(s: Setting, w: World, m: Moment, g: Word, a: Server.Address)
    requires m.Serves? && Possible(s, w, m) && Calm(s, w, m, g, a) && Good(s, w, g, a)
    ensures Good(s, Next(s, w, m), g, a)
  {
    CounterGrows(s, w.clients, m.e, a);
    var after := Next(s, w, m).clients;
    var picture := ViewAfter(s.own, w.seen).infos;
    var sent := Sent(s, after, m.e, m.order);
    SentIsProper(s, after, m.order, g, a);
    hide ServerRuns.Step, Server.Walks, Reported, Ordered, Proper, CounterOf, HeldBy, DifferentGuids, ViewAfter,
         Chained, StatesMessage, Server.Snapshot;
    HigherCounter(picture, w.channel, CounterOf(w.clients, a), CounterOf(after, a), g);
    if sent == [] {
      assert w.channel + sent == w.channel;
    } else {
      OneMoreSent(picture, w.channel, CounterOf(after, a), g, sent[0]);
      assert sent == [sent[0]];
    }
  }

  lemma TailChained(picture: seq<Player>, channel: seq<seq<Byte>>, counter: int, g: Word, next: seq<Player>)
    requires channel != [] && Chained(picture, channel, counter, g)
    requires IdIn(next, g) == IdIn(picture, g) || IdIn(next, g) == ToldId(channel[0], g)
    ensures Chained(next, channel[1..], counter, g)
  {
    hide IdIn, ToldId, Told, Present;
  }

  lemma LosesKeepsGood(s: Setting, w: World, g: Word, a: Server.Address)
    requires Good(s, w, g, a)
    ensures Good(s, Next(s, w, Loses), g, a)
  {
    if w.channel != [] {
      var picture := ViewAfter(s.own, w.seen).infos;
      TailChained(picture, w.channel, CounterOf(w.clients, a), g, picture);
      hide Reported, Ordered, Proper, CounterOf, ViewAfter, Chained;
    }
  }

  lemma OrderedDelivered(own: Word, seen: seq<Happening>, players: seq<Player>, g: Word)
    requires Ordered(own, seen, g) && Distinct(players)
    requires Present(players, g) ==> IdIn(players, g) >= 1 && IdIn(players, g) >= IdIn(ViewAfter(own, seen).infos, g)
    ensures Ordered(own, seen + [Delivered(players)], g)
    ensures ViewAfter(own, seen + [Delivered(players)]).infos == Others(own, players)
  {
    assert (seen + [Delivered(players)])[..|seen|] == seen;
    hide Distinct, Present, IdIn, Others;
  }

  lemma DeliversKeepsGood(s: Setting, w: World, g: Word, a: Server.Address)
    requires g != s.own && Good(s, w, g, a)
    ensures Good(s, Next(s, w, Delivers), g, a)
  {
    if w.channel != [] {
      var head := w.channel[0];
      var players, picture := Told(head), ViewAfter(s.own, w.seen).infos;
      assert Proper(head, g);
      assert Present(players, g) ==> IdIn(picture, g) <= ToldId(head, g);
      assert Arrival(head) == [Delivered(players)];
      OthersId(s.own, players, g);
      hide Reported, ReadStates, CounterOf, IdIn, Others, Ordered, ViewAfter, Distinct, Present;
      OrderedDelivered(s.own, w.seen, players, g);
      hide Proper, Told, Arrival;
      TailChained(picture, w.channel, CounterOf(w.clients, a), g, Others(s.own, players));
    }
  }

  lemma PollChangesNoPicture(own: Word, seen: seq<Happening>, g: Word)
    ensures Ordered(own, seen + [PolledNow], g) <==> Ordered(own, seen, g)
    ensures ViewAfter(own, seen + [PolledNow]).infos == ViewAfter(own, seen).infos
  {
    assert (seen + [PolledNow])[..|seen|] == seen;
    hide IdsAfter, Distinct, Present, IdIn;
  }

  lemma PollsKeepsGood(s: Setting, w: World, g: Word, a: Server.Address)
    requires Good(s, w, g, a)
    ensures Good(s, Next(s, w, Polls), g, a)
  {
    PollChangesNoPicture(s.own, w.seen, g);
    hide Reported, CounterOf, Proper, Chained, Ordered, ViewAfter;
  }

  lemma MomentKeepsGood(s: Setting, w: World, m: Moment, g: Word, a: Server.Address)
    requires g != s.own && Possible(s, w, m) && Calm(s, w, m, g, a) && Good(s, w, g, a)
    ensures Good(s, Next(s, w, m), g, a)
  {
    match m {
      case Serves(_, _) => ServesKeepsGood(s, w, m, g, a);
      case Loses => LosesKeepsGood(s, w, g, a);
      case Delivers => DeliversKeepsGood(s, w, g, a);
      case Polls => PollsKeepsGood(s, w, g, a);
    }
    hide *;
  }

  lemma {:induction false} RunKeepsGood(s: Setting, w: World, ms: seq<Moment>, g: Word, a: Server.Address)
    requires g != s.own && CalmRun(s, w, ms, g, a) && Good(s, w, g, a)
    ensures Good(s, End(s, w, ms, g, a), g, a)
    decreases |ms|
  {
    if ms != [] {
      hide Good, Next, Calm, Possible;
      MomentKeepsGood(s, w, ms[0], g, a);
      RunKeepsGood(s, Next(s, w, ms[0]), ms[1..], g, a);
    }
  }

  /** From before the player joined, through every interleaving of packets, frames, losses, deliveries and
      polls in one lifetime of its entry: the client's attached states of the player have strictly
      increasing ids while it stays in the picture, none comes twice, and after a poll the state in the
      picture has been attached, the first one included. */
  lemma SessionAttachesFreshStates(s: Setting, clients: Server.Clients, ms: seq<Moment>, g: Word, a: Server.Address)
    requires g != s.own && a !in clients
    requires CalmRun(s, World(clients, [], []), ms, g, a)
    ensures var hs := End(s, World(clients, [], []), ms, g, a).seen;
            && Increasing(AttachedIds(s.own, hs, g))
            && (hs != [] && hs[|hs| - 1].PolledNow? && Present(ViewAfter(s.own, hs).infos, g) ==>
                  var attached := AttachedIds(s.own, hs, g);
                  attached != [] && attached[|attached| - 1] == IdIn(ViewAfter(s.own, hs).infos, g))
            && IdsOf(AttachedStates(s.own, hs, g)) == AttachedIds(s.own, hs, g)
            && BodiesOf(AttachedStates(s.own, hs, g)) == Returned(s.own, hs, g)
            && Tidy(s.own, ViewAfter(s.own, hs))
  {
    var w := World(clients, [], []);
    StartIsGood(s, clients, g, a);
    hide Good, CalmRun, End, AttachedIds, Increasing, Tidy, IdIn, Present, Ordered, ViewAfter, IdsOf, BodiesOf,
         Returned;
    RunKeepsGood(s, w, ms, g, a);
    var hs := End(s, w, ms, g, a).seen;
    FreshStatesOnly(s.own, hs, g);
    ReturnedAreAttached(s.own, hs, g);
    AlwaysTidy(s.own, hs);
  }

  // ---- From one player's report to another player's script ----

  /** A player's report of itself, with its time, the challenge that would be drawn and the walk it leads to, and
      the time of the frame after it with its walk. */
  datatype Report = Report(p: Player, now: int, challenge: seq<Byte>, order: seq<Server.Address>, later: int,
                           kept: seq<Server.Address>)

  function Sending(a: Server.Address, r: Report): Moment {
    Serves(ServerRuns.State(a, StateMessage(r.p), r.now, r.challenge), r.order)
  }

  function Telling(r: Report): Moment {
    Serves(ServerRuns.Frame(r.later), r.kept)
  }

  /** The player at `a` is authenticated and nothing is on its way; it reports, and a frame follows in time, after
      which the client is still there. */
  ghost predicate Reporting(s: Setting, w: World, r: Report, g: Word, a: Server.Address) {
    && w.channel == [] && a in w.clients && Server.Authenticated(w.clients[a])
    && r.p.guid == g && r.later - r.now <= 20_000_000_000
    && Possible(s, w, Sending(a, r)) && Calm(s, w, Sending(a, r), g, a)
    && var w1 := Next(s, w, Sending(a, r));
    && Possible(s, w1, Telling(r)) && Calm(s, w1, Telling(r), g, a)
    && var w2 := Next(s, w1, Telling(r));
    && s.us in w2.clients && Server.Authenticated(w2.clients[s.us])
  }

  /** After the report, the frame and the delivery of its snapshot. */
  ghost function AfterDelivery(s: Setting, w: World, r: Report, g: Word, a: Server.Address): World
    requires Reporting(s, w, r, g, a)
  {
    Next(s, Next(s, Next(s, w, Sending(a, r)), Telling(r)), Delivers)
  }

  /** The result of the next poll has this entry, and no other for the guid. */
  ghost predicate NextPollTells(own: Word, seen: seq<Happening>, told: ScriptPlayer) {
    var view := ViewAfter(own, seen);
    exists i :: 0 <= i < |view.infos| && Results(view, |view.infos|)[i] == told
             && forall k | 0 <= k < |view.infos| && k != i :: Results(view, |view.infos|)[k].guid != told.guid
  }

  /** After any interleaving of its entry's lifetime that has left nothing on the way: when an authenticated player
      reports its state, a frame follows in time, its snapshot is delivered, and the other client polls, the poll
      returns just that state, under the player's guid and its name as far as it fits. */
  lemma StateReachesScript(s: Setting, clients: Server.Clients, ms: seq<Moment>, r: Report, g: Word,
                           a: Server.Address)
    requires g != s.own && a !in clients && CalmRun(s, World(clients, [], []), ms, g, a)
    requires Reporting(s, End(s, World(clients, [], []), ms, g, a), r, g, a)
    ensures var w := End(s, World(clients, [], []), ms, g, a);
            NextPollTells(s.own, AfterDelivery(s, w, r, g, a).seen,
                          ScriptPlayer(g, CString(PadName(r.p.name)), [r.p.state.body]))
  {
    hide *;
    StartIsGood(s, clients, g, a);
    RunKeepsGood(s, World(clients, [], []), ms, g, a);
    GoodReportIsTold(s, End(s, World(clients, [], []), ms, g, a), r, g, a);
  }

  lemma StartIsGood(s: Setting, clients: Server.Clients, g: Word, a: Server.Address)
    requires a !in clients
    ensures Good(s, World(clients, [], []), g, a)
  {
  }

  lemma GoodReportIsTold(s: Setting, w: World, r: Report, g: Word, a: Server.Address)
    requires g != s.own && Good(s, w, g, a) && Reporting(s, w, r, g, a)
    ensures NextPollTells(s.own, AfterDelivery(s, w, r, g, a).seen,
                          ScriptPlayer(g, CString(PadName(r.p.name)), [r.p.state.body]))
  {
    SnapshotSent(s, w, r, g, a);
    assert r.p.guid == g && a in w.clients;
    var told := AfterTelling(s, w, r, g, a);
    assert AfterDelivery(s, w, r, g, a) == Next(s, told, Delivers);
    hide *;
    SnapshotTells(s, w, told, r, g, a);
    DeliveredNext(s, told, Server.Snapshot(told.clients, r.kept));
    PollTellsOfReport(s, w, g, a, r.p, Next(s, told, Delivers).seen, Server.Snapshot(told.clients, r.kept));
  }

  /** After the report and the frame. */
  ghost function AfterTelling(s: Setting, w: World, r: Report, g: Word, a: Server.Address): World
    requires Reporting(s, w, r, g, a)
  {
    Next(s, Next(s, w, Sending(a, r)), Telling(r))
  }

  /** The snapshot of the frame is alone on its way, from the table as the report and the frame left it. */
  lemma SnapshotSent(s: Setting, w: World, r: Report, g: Word, a: Server.Address)
    requires Reporting(s, w, r, g, a)
    ensures var told := AfterTelling(s, w, r, g, a);
            && Possible(s, told, Delivers)
            && TableTold(s, w, told, r, a) && told.seen == w.seen
            && told.channel == [StatesMessage(Server.Snapshot(told.clients, r.kept))]
            && w.clients[a].stateId + 1 < 0x1_0000_0000_0000_0000 && DifferentGuids(told.clients)
  {
    hide StatesMessage, StateMessage, ServerRuns.Step, Server.Snapshot, DifferentGuids, HeldBy;
  }

  ghost predicate TableTold(s: Setting, w: World, told: World, r: Report, a: Server.Address) {
    && told.clients == ServerRuns.Step(s.crypto, ServerRuns.Step(s.crypto, w.clients,
                           ServerRuns.State(a, StateMessage(r.p), r.now, r.challenge)), ServerRuns.Frame(r.later))
    && Server.Walks(r.kept, told.clients) && |r.kept| < 0x1_0000_0000
    && a in w.clients && Server.Authenticated(w.clients[a]) && r.later - r.now <= 20_000_000_000
    && (forall b | b in r.kept :: b in told.clients)
  }

  lemma SnapshotTells(s: Setting, w: World, told: World, r: Report, g: Word, a: Server.Address)
    requires TableTold(s, w, told, r, a) && r.p.guid == g && a in w.clients && DifferentGuids(told.clients)
    requires forall b | b in r.kept :: b in told.clients
    requires w.clients[a].stateId + 1 < 0x1_0000_0000_0000_0000
    ensures var players := Server.Snapshot(told.clients, r.kept);
            && Player(g, PadName(r.p.name), PlayerState(r.p.state.body, w.clients[a].stateId + 1)) in players
            && Distinct(players) && ReadStates(StatesMessage(players)) == Parsed(players)
  {
    hide *;
    NotWrapped(w.clients[a].stateId + 1);
    TellingParts(s, w, told, r, a);
    ServerRuns.StateIsBroadcast(s.crypto, w.clients, a, r.p, r.now, r.challenge, r.later, r.kept);
    SnapshotDistinct(told.clients, r.kept);
    SnapshotSize(told.clients, r.kept);
  }

  lemma NotWrapped(x: int)
    requires 0 <= x < 0x1_0000_0000_0000_0000
    ensures Wrap(x) == x
  {
  }

  lemma TellingParts(s: Setting, w: World, told: World, r: Report, a: Server.Address)
    requires TableTold(s, w, told, r, a)
    ensures Server.Walks(r.kept, told.clients) && |r.kept| < 0x1_0000_0000
    ensures forall i, j | 0 <= i < j < |r.kept| :: r.kept[i] != r.kept[j]
    ensures a in w.clients && Server.Authenticated(w.clients[a]) && r.later - r.now <= Server.TIMEOUT
    ensures |r.kept| < TWO_32
    ensures told.clients == ServerRuns.Step(s.crypto, ServerRuns.Step(s.crypto, w.clients,
                ServerRuns.State(a, StateMessage(r.p), r.now, r.challenge)), ServerRuns.Frame(r.later))
  {
  }

  lemma DeliveredNext(s: Setting, w: World, players: seq<Player>)
    requires w.channel == [StatesMessage(players)] && ReadStates(StatesMessage(players)) == Parsed(players)
    requires Possible(s, w, Delivers)
    ensures Next(s, w, Delivers).seen == w.seen + [Delivered(players)]
  {
    hide StatesMessage, ReadStates;
  }

  /** A report with a higher counter than anything in the picture is new to the next poll. */
  lemma PollTellsOfReport(s: Setting, w: World, g: Word, a: Server.Address, p: Player, seen: seq<Happening>,
                          players: seq<Player>)
    requires g != s.own && Good(s, w, g, a) && a in w.clients
    requires w.clients[a].stateId + 1 < 0x1_0000_0000_0000_0000
    requires Player(g, PadName(p.name), PlayerState(p.state.body, w.clients[a].stateId + 1)) in players
    requires Distinct(players) && seen == w.seen + [Delivered(players)]
    ensures NextPollTells(s.own, seen, ScriptPlayer(g, CString(PadName(p.name)), [p.state.body]))
  {
    var before, view := ViewAfter(s.own, w.seen), ViewAfter(s.own, seen);
    var q := Player(g, PadName(p.name), PlayerState(p.state.body, w.clients[a].stateId + 1));
    LastPolledIsOld(s, w, g, a);
    assert seen[..|w.seen|] == w.seen;
    assert view == Received(s.own, before, players);
    assert LastId(view.ids, g) <= w.clients[a].stateId;
    OthersMembers(s.own, players);
    OthersDistinct(s.own, players);
    hide Good, Others, ViewAfter, Received, PadName, CString, LastId, Present;
    var i :| 0 <= i < |view.infos| && view.infos[i] == q;
    FreshExactlyWhen(view, i);
    NewEntryTold(view, i);
  }

  lemma LastPolledIsOld(s: Setting, w: World, g: Word, a: Server.Address)
    requires g != s.own && Good(s, w, g, a) && a in w.clients
    ensures LastId(ViewAfter(s.own, w.seen).ids, g) <= w.clients[a].stateId
  {
    AlwaysSeen(s.own, w.seen, g);
    hide ViewAfter, AttachedIds, IdIn, Present, Distinct, Increasing, Proper, Reported, Ordered, ToldId, Told;
  }

  lemma NewEntryTold(view: View, i: nat)
    requires Distinct(view.infos) && i < |view.infos| && Fresh(view, i)
    ensures var result := Results(view, |view.infos|);
            && result[i] == ScriptPlayer(view.infos[i].guid, CString(view.infos[i].name), [view.infos[i].state.body])
            && forall k | 0 <= k < |result| && k != i :: result[k].guid != view.infos[i].guid
  {
    ResultsTell(view, |view.infos|);
    LastOfIs(view, view.infos[i].guid, i);
    hide Results, IdsAfter, LastOf, CString;
    OnlyOne(view.infos, i);
  }
}
