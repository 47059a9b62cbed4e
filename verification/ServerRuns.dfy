/** What holds in every run of the server of src/server/server.cpp over arbitrary packets and frames. */
module ServerRuns {
  import opened Options
  import opened Words
  import opened GameStructs
  import opened Messages
  import opened Server

  /** One thing that happens to the server. A state packet carries the challenge that would be drawn now. */
  datatype Event =
    | State(source: Address, data: seq<Byte>, now: int, challenge: seq<Byte>)
    | Kill(source: Address, data: seq<Byte>)
    | AuthAnswer(source: Address, data: seq<Byte>, now: int)
    | Frame(now: int)

  function Step(crypto: Crypto, clients: Clients, e: Event): Clients {
    match e
    case State(source, data, now, challenge) => AfterState(clients, source, data, now, challenge)
    case Kill(source, data) => AfterKill(clients, source, data)
    case AuthAnswer(source, data, now) => AfterAuthResponse(crypto, clients, source, data, now)
    case Frame(now) => AfterFrame(clients, now)
  }

  function Run(crypto: Crypto, events: seq<Event>): Clients {
    if events == [] then map[]
    else Step(crypto, Run(crypto, events[..|events| - 1]), events[|events| - 1])
  }

  /** The event is a state packet from this address that decodes. */
  predicate Reports(e: Event, a: Address) {
    e.State? && e.source == a && ReadState(e.data).Parsed?
  }

  /** The event is an answer from this address that proves a key to an entry: the key hashes to the guid the entry
      has, and the signature over the nonce it has verifies. */
  predicate Proves(crypto: Crypto, c: Client, e: Event, a: Address) {
    && e.AuthAnswer? && e.source == a && ReadTexts(e.data).Parsed?
    && var (keyText, signature) := ReadTexts(e.data).value;
    && crypto.load(keyText).Some? && c.nonce != []
    && crypto.hash(crypto.load(keyText).value) == c.guid
    && crypto.verify(crypto.load(keyText).value, c.nonce, signature)
  }

  /** The event is an answer from this address whose key can be imported. */
  predicate Answers(crypto: Crypto, e: Event, a: Address) {
    e.AuthAnswer? && e.source == a && ReadTexts(e.data).Parsed? && crypto.load(ReadTexts(e.data).value.0).Some?
  }

  function ProvenKey(crypto: Crypto, e: Event): Option<Key>
    requires e.AuthAnswer? && ReadTexts(e.data).Parsed?
  {
    crypto.load(ReadTexts(e.data).value.0)
  }

  // ---- One step, seen from one entry ----

  /** Everything a step does to the identity of an entry that is there afterwards. */
  lemma EntryStep(crypto: Crypto, clients: Clients, e: Event, a: Address)
    requires a in Step(crypto, clients, e)
    ensures var c, d := Entry(clients, a), Step(crypto, clients, e)[a];
            && d.stateId == (if Reports(e, a) then Wrap(c.stateId + 1) else c.stateId)
            && d.guid == (if Reports(e, a) then ReadState(e.data).value.guid else c.guid)
            && d.nonce == (if Reports(e, a) && !Authenticated(c) && c.nonce == [] then e.challenge else c.nonce)
            && d.publicKey == (if Proves(crypto, c, e, a) then ProvenKey(crypto, e) else c.publicKey)
            && d.lastPacket == (if Reports(e, a) || Proves(crypto, c, e, a) then e.now else c.lastPacket)
  {
  }

  /** The rest of an entry: what it shows of its player, and the flag of the server's console. */
  lemma EntryShowsStep(crypto: Crypto, clients: Clients, e: Event, a: Address)
    requires a in Step(crypto, clients, e)
    ensures var c, d := Entry(clients, a), Step(crypto, clients, e)[a];
            && d.guid == (if Reports(e, a) then ReadState(e.data).value.guid else c.guid)
            && d.name == (if Reports(e, a) then CString(ReadState(e.data).value.name) else c.name)
            && d.currentState == (if Reports(e, a) then ReadState(e.data).value.state else c.currentState)
            && (d.printedFailure <==> c.printedFailure || (Answers(crypto, e, a) && !Proves(crypto, c, e, a)))
  {
  }

  /** Who is in the table after a step: whoever was there and is not erased, and the sender of a state that decodes,
      of a kill report whose head does, or of an answer whose key can be imported. */
  lemma PresentExactlyWhen(crypto: Crypto, clients: Clients, e: Event, a: Address)
    ensures a in Step(crypto, clients, e) <==>
            || (a in clients && !(e.Frame? && e.now - clients[a].lastPacket > 20_000_000_000))
            || Reports(e, a) || Answers(crypto, e, a)
            || (e.Kill? && e.source == a && ReadHead(e.data).Parsed?)
  {
  }

  /** An entry goes exactly in a frame that finds it silent for more than twenty seconds. */
  lemma ErasedExactlyWhen(crypto: Crypto, clients: Clients, e: Event, a: Address)
    requires a in clients
    ensures a !in Step(crypto, clients, e) <==> e.Frame? && e.now - clients[a].lastPacket > 20_000_000_000
  {
  }

  /** A packet whose payload a handler cannot use changes nothing at all. */
  lemma UndecodableChangesNothing(crypto: Crypto, clients: Clients, e: Event)
    requires e.State? ==> !ReadState(e.data).Parsed?
    requires e.AuthAnswer? ==> !ReadTexts(e.data).Parsed?
    requires e.Kill? ==> !ReadHead(e.data).Parsed?
    requires !e.Frame?
    ensures Step(crypto, clients, e) == clients
  {
  }

  /** A kill report leaves the table alone exactly when its head does not decode or its sender has an entry:
      a stranger's report makes one, even when the guid behind the head is missing. */
  lemma KillChangesNothingExactlyWhen(crypto: Crypto, clients: Clients, source: Address, data: seq<Byte>)
    ensures Step(crypto, clients, Kill(source, data)) == clients <==> !ReadHead(data).Parsed? || source in clients
  {
  }

  lemma StrangersReport(crypto: Crypto, source: Address)
    ensures ReadGuid(Head()) == Threw
    ensures Step(crypto, map[], Kill(source, Head())) == map[source := NewClient()]
  {
    assert Head() + [] == Head();
    HeadArrives([]);
  }

  // ---- Whole runs ----

  /** How many valid state packets an entry has had since it was made. */
  function ReportCount(crypto: Crypto, events: seq<Event>, a: Address): nat {
    if events == [] || a !in Run(crypto, events) then 0
    else ReportCount(crypto, events[..|events| - 1], a) + if Reports(events[|events| - 1], a) then 1 else 0
  }

  /** When the server last accepted a packet of an entry: a valid state, or an answer that proved a key. */
  function LastHeard(crypto: Crypto, events: seq<Event>, a: Address): int {
    if events == [] || a !in Run(crypto, events) then 0
    else
      var before, e := events[..|events| - 1], events[|events| - 1];
      if Reports(e, a) || Proves(crypto, Entry(Run(crypto, before), a), e, a) then e.now
      else LastHeard(crypto, before, a)
  }

  /** What a frame measures silence from is the last accepted packet: kill reports, failed answers and
      undecodable packets keep nobody in the table. */
  lemma {:induction false} SilenceCountsFromLastHeard(crypto: Crypto, events: seq<Event>, a: Address)
    requires a in Run(crypto, events)
    ensures Run(crypto, events)[a].lastPacket == LastHeard(crypto, events, a)
    decreases |events|
  {
    if events != [] {
      var before, e := events[..|events| - 1], events[|events| - 1];
      OneMoreEvent(crypto, events, a);
      EntryStep(crypto, Run(crypto, before), e, a);
      hide Step, Reports, Proves, Run;
      if a in Run(crypto, before) {
        SilenceCountsFromLastHeard(crypto, before, a);
      }
    }
  }

  lemma NothingCounted(crypto: Crypto, events: seq<Event>, a: Address)
    requires a !in Run(crypto, events)
    ensures ReportCount(crypto, events, a) == 0
  {
  }

  /** The counter of every entry is the number of its valid state packets, as far as 64 bits go; a nonce
      needs one of them, and authentication needs a nonce. */
  lemma {:induction false} CountersCount(crypto: Crypto, events: seq<Event>, a: Address)
    requires a in Run(crypto, events)
    ensures var c := Run(crypto, events)[a];
            && c.stateId == Wrap(ReportCount(crypto, events, a))
            && (c.nonce != [] ==> ReportCount(crypto, events, a) >= 1)
            && (Authenticated(c) ==> c.nonce != [])
    decreases |events|
  {
    if events != [] {
      var before, e := events[..|events| - 1], events[|events| - 1];
      OneMoreEvent(crypto, events, a);
      hide Run, ReportCount, Step, Reports, Wrap, Answers, CString, ReadState, ReadTexts;
      EntryStep(crypto, Run(crypto, before), e, a);
      ProofNeedsNonce(crypto, Entry(Run(crypto, before), a), e, a);
      hide Proves;
      WrapPlus(ReportCount(crypto, before, a), 1);
      if a in Run(crypto, before) {
        CountersCount(crypto, before, a);
      } else {
        NothingCounted(crypto, before, a);
      }
    }
  }

  lemma OneMoreEvent(crypto: Crypto, events: seq<Event>, a: Address)
    requires events != [] && a in Run(crypto, events)
    ensures var before, e := events[..|events| - 1], events[|events| - 1];
            && Run(crypto, events) == Step(crypto, Run(crypto, before), e)
            && ReportCount(crypto, events, a) == ReportCount(crypto, before, a) + if Reports(e, a) then 1 else 0
  {
    hide Step, Reports;
  }

  lemma ProofNeedsNonce(crypto: Crypto, c: Client, e: Event, a: Address)
    ensures Proves(crypto, c, e, a) ==> c.nonce != []
  {
  }

  /** The identity of an entry survives every step that the entry survives: a nonce, once set, stays, and
      so does authentication; the key only changes for one that was proven. */
  lemma StepKeepsIdentity(crypto: Crypto, clients: Clients, e: Event, a: Address)
    requires a in clients && a in Step(crypto, clients, e)
    ensures var c, d := clients[a], Step(crypto, clients, e)[a];
            && (c.nonce != [] ==> d.nonce == c.nonce)
            && (Authenticated(c) ==> Authenticated(d))
            && (d.publicKey != c.publicKey ==> Proves(crypto, c, e, a) && d.publicKey == ProvenKey(crypto, e))
  {
    EntryStep(crypto, clients, e, a);
    hide Step;
  }

  /** The entry has been there after every event from the first `i` on. */
  ghost predicate AliveSince(crypto: Crypto, events: seq<Event>, a: Address, i: nat) {
    forall j | i <= j <= |events| :: a in Run(crypto, events[..j])
  }

  lemma AliveLonger(crypto: Crypto, events: seq<Event>, a: Address, i: nat)
    requires events != [] && i <= |events| && a in Run(crypto, events)
    requires i < |events| ==> AliveSince(crypto, events[..|events| - 1], a, i)
    ensures AliveSince(crypto, events, a, i)
  {
    hide Run;
    assert events[..|events|] == events;
    forall j | i <= j <= |events|
      ensures a in Run(crypto, events[..j])
    {
      if j < |events| {
        assert events[..|events| - 1][..j] == events[..j];
      }
    }
  }

  /** Event `i` was this entry's state packet for which its nonce was drawn. */
  ghost predicate IssuedAt(crypto: Crypto, events: seq<Event>, a: Address, nonce: seq<Byte>, i: nat) {
    i < |events| && Reports(events[i], a) && events[i].challenge == nonce && AliveSince(crypto, events, a, i + 1)
  }

  /** Every nonce in the table was drawn for its own entry, within the entry's life. */
  lemma {:induction false} NonceWasIssued(crypto: Crypto, events: seq<Event>, a: Address) returns (i: nat)
    requires a in Run(crypto, events) && Run(crypto, events)[a].nonce != []
    ensures IssuedAt(crypto, events, a, Run(crypto, events)[a].nonce, i)
    decreases |events|
  {
    var n := |events| - 1;
    var before, e := events[..n], events[n];
    EntryStep(crypto, Run(crypto, before), e, a);
    var c := Entry(Run(crypto, before), a);
    hide Step, Reports;
    if c.nonce != [] {
      i := NonceWasIssued(crypto, before, a);
      AliveLonger(crypto, events, a, i + 1);
    } else {
      i := n;
      AliveLonger(crypto, events, a, n + 1);
    }
  }

  /** Event `i` was this entry's answer that proved `key` against the nonce the entry has now: the key hashed
      to the guid of that moment and the signature verified. */
  ghost predicate ProvedAt(crypto: Crypto, events: seq<Event>, a: Address, nonce: seq<Byte>, key: Key, i: nat) {
    && i < |events|
    && AliveSince(crypto, events, a, i)
    && Proves(crypto, Entry(Run(crypto, events[..i]), a), events[i], a)
    && ProvenKey(crypto, events[i]) == Some(key)
    && Entry(Run(crypto, events[..i]), a).nonce == nonce
  }

  lemma ProvedBefore(crypto: Crypto, events: seq<Event>, a: Address, nonce: seq<Byte>, key: Key, i: nat)
    requires events != [] && a in Run(crypto, events)
    requires ProvedAt(crypto, events[..|events| - 1], a, nonce, key, i)
    ensures ProvedAt(crypto, events, a, nonce, key, i)
  {
    AliveLonger(crypto, events, a, i);
    assert events[..|events| - 1][..i] == events[..i];
    hide Run, Proves;
  }

  /** Whoever is authenticated proved the stored key within the life of the entry, over the nonce that was
      drawn for it earlier in that life. */
  lemma {:induction false} AuthenticationWasProved(crypto: Crypto, events: seq<Event>, a: Address) returns (i: nat)
    requires a in Run(crypto, events) && Authenticated(Run(crypto, events)[a])
    ensures var c := Run(crypto, events)[a];
            ProvedAt(crypto, events, a, c.nonce, c.publicKey.value, i)
    decreases |events|
  {
    var n := |events| - 1;
    var before, e := events[..n], events[n];
    EntryStep(crypto, Run(crypto, before), e, a);
    var c := Entry(Run(crypto, before), a);
    var d := Run(crypto, events)[a];
    if Proves(crypto, c, e, a) {
      i := n;
      ProofNeedsEntry(crypto, Run(crypto, before), e, a);
      assert before[..n] == before;
      AliveHere(crypto, events, a);
    } else {
      hide Step, Reports, Proves;
      CountersCount(crypto, before, a);
      i := AuthenticationWasProved(crypto, before, a);
      ProvedBefore(crypto, events, a, d.nonce, d.publicKey.value, i);
    }
  }

  lemma ProofNeedsEntry(crypto: Crypto, clients: Clients, e: Event, a: Address)
    requires Proves(crypto, Entry(clients, a), e, a)
    ensures a in clients
  {
  }

  lemma AliveHere(crypto: Crypto, events: seq<Event>, a: Address)
    requires events != [] && a in Run(crypto, events) && a in Run(crypto, events[..|events| - 1])
    ensures AliveSince(crypto, events, a, |events| - 1)
  {
    hide Run;
    var n := |events|;
    forall j | n - 1 <= j <= n
      ensures a in Run(crypto, events[..j])
    {
      if j == n {
        assert events[..j] == events;
      }
    }
  }

  // ---- The guid of an authenticated entry ----

  /** The player in the last valid state packet of an entry. */
  function LastReport(crypto: Crypto, events: seq<Event>, a: Address): Option<Player> {
    if events == [] || a !in Run(crypto, events) then None
    else
      var e := events[|events| - 1];
      if Reports(e, a) then Some(ReadState(e.data).value) else LastReport(crypto, events[..|events| - 1], a)
  }

  /** The entry plays under the guid and name of a report, in its state. */
  ghost predicate Shows(c: Client, report: Option<Player>) {
    match report
    case Some(p) => c.guid == p.guid && c.name == CString(p.name) && c.currentState == p.state
    case None => c.guid == 0 && c.name == [] && c.currentState == PlayerState(Zeros(BODY_SIZE), 0)
  }

  /** In every run: an entry shows what it reported last, whether or not it is authenticated. */
  lemma {:induction false} EntryShowsLastReport(crypto: Crypto, events: seq<Event>, a: Address)
    requires a in Run(crypto, events)
    ensures Shows(Run(crypto, events)[a], LastReport(crypto, events, a))
    decreases |events|
  {
    if events != [] {
      var before, e := events[..|events| - 1], events[|events| - 1];
      OneMoreEvent(crypto, events, a);
      EntryShowsStep(crypto, Run(crypto, before), e, a);
      hide Step, Reports, Proves, Answers, Run, CString;
      if a in Run(crypto, before) {
        EntryShowsLastReport(crypto, before, a);
      }
    }
  }

  /** The guid in the last valid state packet of an entry. */
  function LastReported(crypto: Crypto, events: seq<Event>, a: Address): Word {
    match LastReport(crypto, events, a)
    case None => 0
    case Some(p) => p.guid
  }

  /** In every run: an entry plays under the guid it reported last, whether or not it is authenticated. So the
      guid of an authenticated entry is the hash of its key exactly when its last valid state carried that
      hash; the proof it once gave says nothing about what it reports later. */
  lemma GuidIsKeyHashExactlyWhen(crypto: Crypto, events: seq<Event>, a: Address)
    requires a in Run(crypto, events)
    ensures var c := Run(crypto, events)[a];
            && c.guid == LastReported(crypto, events, a)
            && (Authenticated(c) ==>
                  (c.guid == crypto.hash(c.publicKey.value) <==>
                     LastReported(crypto, events, a) == crypto.hash(c.publicKey.value)))
  {
    EntryShowsLastReport(crypto, events, a);
    hide Run, LastReport, CString;
  }

  /** A witness: any guid can be reported after authentication, and the entry stays authenticated under it. */
  lemma AnyGuidCanBeReported(crypto: Crypto, clients: Clients, a: Address, p: Player, now: int, challenge: seq<Byte>)
    requires a in clients && Authenticated(clients[a])
    ensures var after := Step(crypto, clients, State(a, StateMessage(p), now, challenge));
            a in after && after[a].publicKey == clients[a].publicKey && after[a].guid == p.guid
  {
    StateArrives(p);
    hide StateMessage, ReadState, CString;
  }

  // ---- No replay ----

  /** Challenges are drawn afresh. */
  ghost predicate FreshChallenges(events: seq<Event>) {
    forall i, j | 0 <= i < j < |events| && events[i].State? && events[j].State? ::
        events[i].challenge != events[j].challenge
  }

  /** Two entries never share a nonce, so no answer to one can be an answer to the other. */
  lemma NoncesDiffer(crypto: Crypto, events: seq<Event>, a: Address, b: Address)
    requires FreshChallenges(events) && a != b
    requires a in Run(crypto, events) && b in Run(crypto, events)
    requires Run(crypto, events)[a].nonce != []
    ensures Run(crypto, events)[a].nonce != Run(crypto, events)[b].nonce
  {
    if Run(crypto, events)[b].nonce != [] {
      var i := NonceWasIssued(crypto, events, a);
      var j := NonceWasIssued(crypto, events, b);
      hide Run;
      assert i != j;
    }
  }

  /** An entry that was erased and made anew never gets its old nonce back: answers recorded in an earlier
      life are worthless in a later one. */
  lemma OldNonceIsDead(crypto: Crypto, events: seq<Event>, a: Address, k: nat, gone: nat)
    requires FreshChallenges(events) && k <= gone <= |events|
    requires a in Run(crypto, events[..k]) && a !in Run(crypto, events[..gone]) && a in Run(crypto, events)
    requires Run(crypto, events[..k])[a].nonce != []
    ensures Run(crypto, events)[a].nonce != Run(crypto, events[..k])[a].nonce
  {
    var was := NonceWasIssued(crypto, events[..k], a);
    if Run(crypto, events)[a].nonce != [] {
      var i := NonceWasIssued(crypto, events, a);
      hide Run;
      assert gone < i + 1;
      assert was < k && events[..k][was] == events[was];
    }
  }

  // ---- The handshake goes through ----

  /** A client that holds the key its guid is the hash of gets authenticated: its first state packet is
      answered with a challenge it can read, and signing that challenge completes the handshake. */
  lemma HandshakeCompletes(crypto: Crypto, clients: Clients, a: Address, p: Player, keyText: seq<Byte>, key: Key,
                           sign: seq<Byte> -> seq<Byte>, now: int, challenge: seq<Byte>, later: int)
    requires challenge != [] && |challenge| < TWO_32 && |keyText| < TWO_32
    requires forall m :: |sign(m)| < TWO_32 && crypto.verify(key, m, sign(m))
    requires crypto.load(keyText) == Some(key) && crypto.hash(key) == p.guid
    requires a in clients ==> !Authenticated(clients[a]) && |clients[a].nonce| < TWO_32
    ensures var asked := Step(crypto, clients, State(a, StateMessage(p), now, challenge));
            && a in asked && !Authenticated(asked[a])
            && ReadAuthRequest(AuthRequest(asked[a].nonce)) == Parsed(asked[a].nonce)
            && var answered := Step(crypto, asked, AuthAnswer(a, AuthResponse(keyText, sign(asked[a].nonce)), later));
            && a in answered && answered[a].publicKey == Some(key)
  {
    StateArrives(p);
    hide StateMessage, ReadState, CString;
    var asked := AfterState(clients, a, StateMessage(p), now, challenge);
    var nonce := asked[a].nonce;
    AuthRequestArrives(nonce);
    AuthResponseArrives(keyText, sign(nonce));
    hide AuthResponse, AuthRequest, ReadAuthRequest, ReadTexts;
  }

  // ---- What a snapshot says ----

  lemma {:induction false} SnapshotMembers(clients: Clients, order: seq<Address>)
    requires forall a | a in order :: a in clients
    ensures forall p :: p in Snapshot(clients, order) <==>
                        exists a :: a in order && Authenticated(clients[a]) && PlayerOf(clients[a]) == p
    decreases |order|
  {
    if order != [] {
      var n := |order| - 1;
      SnapshotMembers(clients, order[..n]);
      assert order == order[..n] + [order[n]];
      hide PlayerOf, Authenticated;
    }
  }

  /** After a frame the broadcast says exactly the authenticated players that were heard from in time. */
  lemma SnapshotIsExact(clients: Clients, now: int, kept: seq<Address>)
    requires Walks(kept, AfterFrame(clients, now))
    ensures forall p :: p in Snapshot(AfterFrame(clients, now), kept) <==>
                        exists a :: a in clients && now - clients[a].lastPacket <= TIMEOUT
                                 && Authenticated(clients[a]) && PlayerOf(clients[a]) == p
  {
    var after := AfterFrame(clients, now);
    SnapshotMembers(after, kept);
    hide PlayerOf, Authenticated, Snapshot;
    assert forall a :: a in kept <==> a in clients && now - clients[a].lastPacket <= TIMEOUT;
    forall p
      ensures p in Snapshot(after, kept) <==>
              exists a ::
                && a in clients && now - clients[a].lastPacket <= TIMEOUT
                && Authenticated(clients[a]) && PlayerOf(clients[a]) == p
    {
      if p in Snapshot(after, kept) {
        var a :| a in kept && Authenticated(after[a]) && PlayerOf(after[a]) == p;
        assert a in clients && after[a] == clients[a];
      }
      if a :|
        && a in clients && now - clients[a].lastPacket <= TIMEOUT
        && Authenticated(clients[a]) && PlayerOf(clients[a]) == p
      {
        assert a in kept && after[a] == clients[a];
      }
    }
  }

  /** From one player to all others: the state an authenticated client sends is in the next snapshot under
      its guid, with its name as far as it fits, its body untouched and the entry's next counter value. */
  lemma StateIsBroadcast(crypto: Crypto, clients: Clients, a: Address, p: Player, now: int, challenge: seq<Byte>,
                         later: int, kept: seq<Address>)
    requires a in clients && Authenticated(clients[a]) && later - now <= TIMEOUT
    requires Walks(kept, Step(crypto, Step(crypto, clients, State(a, StateMessage(p), now, challenge)), Frame(later)))
    ensures var told := Step(crypto, clients, State(a, StateMessage(p), now, challenge));
            var players := Snapshot(Step(crypto, told, Frame(later)), kept);
            && Player(p.guid, PadName(p.name), PlayerState(p.state.body, Wrap(clients[a].stateId + 1))) in players
            && (|players| < TWO_32 ==> ReadStates(StatesMessage(players)) == Parsed(players))
  {
    assert forall b | b in kept ::
        b in Step(crypto, Step(crypto, clients, State(a, StateMessage(p), now, challenge)), Frame(later));
    hide *;
    var told := Step(crypto, clients, State(a, StateMessage(p), now, challenge));
    ReportedEntry(crypto, clients, a, p, now, challenge);
    FrameKeeps(crypto, told, a, later, kept);
    var players := Snapshot(Step(crypto, told, Frame(later)), kept);
    if |players| < TWO_32 {
      StatesArrive(players);
    }
  }

  lemma ReportedEntry(crypto: Crypto, clients: Clients, a: Address, p: Player, now: int, challenge: seq<Byte>)
    requires a in clients && Authenticated(clients[a])
    ensures var told := Step(crypto, clients, State(a, StateMessage(p), now, challenge));
            && a in told && told[a].lastPacket == now && Authenticated(told[a])
            && PlayerOf(told[a]) ==
                Player(p.guid, PadName(p.name), PlayerState(p.state.body, Wrap(clients[a].stateId + 1)))
  {
    StateArrives(p);
    CStringTwice(p.name);
    hide PadName, CString, Wrap, StateMessage, ReadState;
  }

  /** What a snapshot should say of an entry, told from the events alone: guid, name as far as it fits, and body of
      its last valid state packet, with the number of such packets since the entry was made. */
  ghost function Told(crypto: Crypto, events: seq<Event>, a: Address): Player
    requires LastReport(crypto, events, a).Some?
  {
    var p := LastReport(crypto, events, a).value;
    Player(p.guid, PadName(p.name), PlayerState(p.state.body, Wrap(ReportCount(crypto, events, a))))
  }

  lemma {:induction false} CountedIsReported(crypto: Crypto, events: seq<Event>, a: Address)
    requires ReportCount(crypto, events, a) >= 1
    ensures LastReport(crypto, events, a).Some?
    decreases |events|
  {
    if !Reports(events[|events| - 1], a) {
      CountedIsReported(crypto, events[..|events| - 1], a);
    }
  }

  /** An authenticated entry has reported, and is told of as it last did. */
  lemma AuthenticatedIsTold(crypto: Crypto, events: seq<Event>, a: Address)
    requires a in Run(crypto, events) && Authenticated(Run(crypto, events)[a])
    ensures LastReport(crypto, events, a).Some?
    ensures PlayerOf(Run(crypto, events)[a]) == Told(crypto, events, a)
  {
    hide Run, ReportCount, LastReport, Wrap, PadName, CString;
    CountersCount(crypto, events, a);
    CountedIsReported(crypto, events, a);
    EntryShowsLastReport(crypto, events, a);
    CStringTwice(LastReport(crypto, events, a).value.name);
  }

  /** In every run, a frame tells exactly of the authenticated players that were heard from in time, each as its last
      valid state packet said, no matter whether that packet came before or after the authentication. */
  lemma SnapshotTellsLastReports(crypto: Crypto, events: seq<Event>, later: int, kept: seq<Address>)
    requires Walks(kept, Run(crypto, events + [Frame(later)]))
    ensures forall q :: q in Snapshot(Run(crypto, events + [Frame(later)]), kept) <==>
                        exists a :: TimelyAndTold(crypto, events, later, a, q)
  {
    var clients := Run(crypto, events);
    assert (events + [Frame(later)])[..|events|] == events;
    assert Run(crypto, events + [Frame(later)]) == AfterFrame(clients, later);
    assert forall a | a in kept :: a in AfterFrame(clients, later);
    hide Run, AfterFrame, Snapshot, Told;
    SnapshotIsExact(clients, later, kept);
    forall a | a in clients && Authenticated(clients[a])
      ensures LastReport(crypto, events, a).Some? && PlayerOf(clients[a]) == Told(crypto, events, a)
      ensures clients[a].lastPacket == LastHeard(crypto, events, a)
    {
      AuthenticatedIsTold(crypto, events, a);
      SilenceCountsFromLastHeard(crypto, events, a);
    }
    hide LastHeard, LastReport, PlayerOf;
    forall q
      ensures q in Snapshot(AfterFrame(clients, later), kept) <==>
              exists a :: TimelyAndTold(crypto, events, later, a, q)
    {
      if a :| TimelyAndTold(crypto, events, later, a, q) {
        assert a in clients && Authenticated(clients[a]) && PlayerOf(clients[a]) == q;
      }
      if q in Snapshot(AfterFrame(clients, later), kept) {
        var a :| a in clients && later - clients[a].lastPacket <= TIMEOUT
                 && Authenticated(clients[a]) && PlayerOf(clients[a]) == q;
        assert TimelyAndTold(crypto, events, later, a, q);
      }
    }
  }

  ghost predicate TimelyAndTold(crypto: Crypto, events: seq<Event>, later: int, a: Address, q: Player) {
    && a in Run(crypto, events) && Authenticated(Run(crypto, events)[a])
    && later - LastHeard(crypto, events, a) <= 20_000_000_000
    && LastReport(crypto, events, a).Some? && q == Told(crypto, events, a)
  }

  lemma FrameKeeps(crypto: Crypto, told: Clients, a: Address, later: int, kept: seq<Address>)
    requires a in told && Authenticated(told[a]) && later - told[a].lastPacket <= TIMEOUT
    requires Walks(kept, Step(crypto, told, Frame(later)))
    ensures PlayerOf(told[a]) in Snapshot(Step(crypto, told, Frame(later)), kept)
  {
    hide PlayerOf, Snapshot, Authenticated;
    SnapshotIsExact(told, later, kept);
  }

  lemma CStringTwice(name: seq<Byte>)
    ensures |name| == NAME_SIZE ==> PadName(CString(name)) == PadName(name)
  {
    CStringWhole(CString(name));
  }

  /** Exactly the authenticated players are told, each once. */
  lemma {:induction false} BroadcastReaches(clients: Clients, order: seq<Address>, data: seq<Byte>)
    requires forall a | a in order :: a in clients
    requires forall i, j | 0 <= i < j < |order| :: order[i] != order[j]
    ensures var sent := Broadcast(clients, order, data);
            && (forall d ::
                  d in sent <==> d.to in order && Authenticated(clients[d.to]) && d == Datagram(d.to, "states", data))
            && (forall i, j | 0 <= i < j < |sent| :: sent[i].to != sent[j].to)
    decreases |order|
  {
    if order != [] {
      var n := |order| - 1;
      BroadcastReaches(clients, order[..n], data);
      assert order == order[..n] + [order[n]];
      hide Authenticated;
      var front := Broadcast(clients, order[..n], data);
      forall i | 0 <= i < |front|
        ensures front[i].to != order[n]
      {
        assert front[i] in front;
      }
    }
  }
}
