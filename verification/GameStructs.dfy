/** The structures of src/common/game/structs.hpp as they travel: copied byte for byte, without padding. */
module GameStructs {
  import opened Words

  const PROTOCOL: Dword := 6
  const NAME_SIZE: nat := 64
  const BODY_SIZE: nat := 96
  const PLAYER_SIZE: nat := 176

  type Name = s: seq<Byte> | |s| == NAME_SIZE witness seq(NAME_SIZE, _ => 0)

  /** Angles, position, velocity, speed and move type, which nothing here looks into. */
  type Body = s: seq<Byte> | |s| == BODY_SIZE witness seq(BODY_SIZE, _ => 0)

  datatype PlayerState = PlayerState(body: Body, stateId: Word)

  datatype Player = Player(guid: Word, name: Name, state: PlayerState)

  function EncodePlayer(p: Player): (s: seq<Byte>)
    ensures |s| == PLAYER_SIZE
  {
    Encode64(p.guid) + p.name + p.state.body + Encode64(p.state.stateId)
  }

  function DecodePlayer(s: seq<Byte>): Player
    requires |s| == PLAYER_SIZE
  {
    Player(Decode64(s[..8]), s[8..72], PlayerState(s[72..168], Decode64(s[168..])))
  }

  /** A player byte by byte: the guid, the name, the body and the state id, the numbers least significant byte
      first. */
  lemma PlayerOnTheWire(p: Player, k: nat)
    requires k < 176
    ensures EncodePlayer(p)[k] ==
            if k < 8 then p.guid / Pow256(k) % 256
            else if k < 72 then p.name[k - 8]
            else if k < 168 then p.state.body[k - 72]
            else p.state.stateId / Pow256(k - 168) % 256
  {
    if k < 8 {
      LittleEndianDigit(p.guid, WORD_SIZE, k);
    } else if k >= 168 {
      LittleEndianDigit(p.state.stateId, WORD_SIZE, k - 168);
    }
    hide LittleEndian, Pow256;
  }

  lemma PlayerRoundTrip(p: Player)
    ensures DecodePlayer(EncodePlayer(p)) == p
  {
    Codec64(p.guid);
    Codec64(p.state.stateId);
    var s := EncodePlayer(p);
    hide Encode64, Decode64;
    assert s[..8] == Encode64(p.guid) && s[8..72] == p.name;
    assert s[72..168] == p.state.body && s[168..] == Encode64(p.state.stateId);
  }

  lemma PlayerRoundTripBack(s: seq<Byte>)
    requires |s| == PLAYER_SIZE
    ensures EncodePlayer(DecodePlayer(s)) == s
  {
    Codec64Inverse(s[..8]);
    Codec64Inverse(s[168..]);
    hide Encode64, Decode64;
    assert s[..8] + s[8..72] == s[..72];
    assert s[..72] + s[72..168] == s[..168];
    assert s[..168] + s[168..] == s;
  }

  function Zeros(n: nat): (s: seq<Byte>)
    ensures |s| == n
  {
    seq(n, _ => 0)
  }

  /** The bytes before the first NUL, as `strnlen` counts them. */
  function CString(s: seq<Byte>): (t: seq<Byte>)
    ensures |t| <= |s| && t == s[..|t|] && 0 !in t
    ensures |t| < |s| ==> s[|t|] == 0
  {
    if s == [] || s[0] == 0 then [] else [s[0]] + CString(s[1..])
  }

  /** `string::copy` into a zeroed name: the last byte is always a NUL. */
  function PadName(text: seq<Byte>): (name: Name)
    ensures name[NAME_SIZE - 1] == 0
  {
    var shown := CString(text);
    var n := if |shown| < NAME_SIZE then |shown| else NAME_SIZE - 1;
    shown[..n] + Zeros(NAME_SIZE - n)
  }

  /** A name in its field: the text up to its first NUL as far as 63 bytes go, and zeros. */
  lemma NamePadded(text: seq<Byte>, i: nat)
    requires i < 64
    ensures PadName(text)[i] == if i < 63 && i < |CString(text)| then text[i] else 0
  {
    assert CString(text) == text[..|CString(text)|];
    hide CString;
  }

  lemma {:induction false} CStringStops(s: seq<Byte>, rest: seq<Byte>)
    requires 0 !in s && rest != [] && rest[0] == 0
    ensures CString(s + rest) == s
  {
    if s == [] {
      assert s + rest == rest;
    } else {
      assert s[0] in s && forall b | b in s[1..] :: b in s;
      assert (s + rest)[1..] == s[1..] + rest;
      CStringStops(s[1..], rest);
    }
  }

  lemma {:induction false} CStringWhole(s: seq<Byte>)
    requires 0 !in s
    ensures CString(s) == s
  {
    if s != [] {
      assert s[0] in s && forall b | b in s[1..] :: b in s;
      CStringWhole(s[1..]);
    }
  }

  /** A name survives being stored and sent on exactly when it is shorter than its field: a name that fills
      all 64 bytes loses its last character. */
  lemma NameSurvivesExactlyWhen(name: Name)
    ensures CString(PadName(CString(name))) ==
            CString(name)[..if |CString(name)| == NAME_SIZE then NAME_SIZE - 1 else |CString(name)|]
    ensures CString(PadName(CString(name))) == CString(name) <==> exists b | b in name :: b == 0
  {
    var shown := CString(name);
    CStringWhole(shown);
    var n := if |shown| < NAME_SIZE then |shown| else NAME_SIZE - 1;
    assert forall b | b in shown[..n] :: b in shown;
    CStringStops(shown[..n], Zeros(NAME_SIZE - n));
    if |shown| < NAME_SIZE {
      assert name[|shown|] in name;
      assert shown[..n] == shown;
    } else {
      assert shown == name;
      assert |shown[..n]| != |shown|;
    }
  }

  // ---- A vector of players ----

  function PlayerItems(players: seq<Player>): (items: seq<seq<Byte>>)
    ensures |items| == |players|
    ensures forall i | 0 <= i < |items| :: items[i] == EncodePlayer(players[i])
  {
    seq(|players|, i requires 0 <= i < |players| => EncodePlayer(players[i]))
  }

  function PlayersOf(items: seq<seq<Byte>>): (players: seq<Player>)
    requires forall item | item in items :: |item| == PLAYER_SIZE
    ensures |players| == |items|
  {
    seq(|items|, i requires 0 <= i < |items| => DecodePlayer(items[i]))
  }

  lemma PlayersRoundTrip(players: seq<Player>)
    ensures forall item | item in PlayerItems(players) :: |item| == PLAYER_SIZE
    ensures PlayersOf(PlayerItems(players)) == players
  {
    hide EncodePlayer, DecodePlayer;
    forall i | 0 <= i < |players|
      ensures DecodePlayer(PlayerItems(players)[i]) == players[i]
    {
      PlayerRoundTrip(players[i]);
    }
  }
}
