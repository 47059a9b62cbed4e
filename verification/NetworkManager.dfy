/** Framing and dispatch of connectionless packets, after src/common/network/manager.cpp, with the command
    normaliser of src/common/utils/string.cpp. Commands and payloads are byte strings. */
module NetworkManager {
  import opened Options
  import opened Words
  import opened ByteBuffer

  const SPACE: Byte := 32
  const NEWLINE: Byte := 10
  const MAGIC_SIZE: nat := 4

  function Magic(): (m: seq<Byte>)
    ensures |m| == MAGIC_SIZE
  {
    [0xFF, 0xFF, 0xFF, 0xFF]
  }

  predicate IsDivider(b: Byte) {
    b == SPACE || b == NEWLINE
  }

  /** A command that can be told apart from its payload. */
  predicate Plain(command: seq<Byte>) {
    command != [] && forall b | b in command :: !IsDivider(b)
  }

  // ---- Upper and lower case, "C" locale ----

  function LowerByte(b: Byte): Byte {
    if 65 <= b <= 90 then b + 32 else b
  }

  function ToLower(text: seq<Byte>): (lower: seq<Byte>)
    ensures |lower| == |text|
  {
    seq(|text|, i requires 0 <= i < |text| => LowerByte(text[i]))
  }

  function Capitals(): string {
    "ABCDEFGHIJKLMNOPQRSTUVWXYZ"
  }

  function Smalls(): string {
    "abcdefghijklmnopqrstuvwxyz"
  }

  /** The twenty-six capitals are lowered, each to its own small letter, and nothing else is. */
  lemma LowersCapitalsOnly(b: Byte)
    ensures |Capitals()| == |Smalls()| == 26
    ensures (b as char) in Capitals() ==>
              exists k: nat :: k < 26 && Capitals()[k] == b as char && Smalls()[k] == LowerByte(b) as char
    ensures (b as char) !in Capitals() ==> LowerByte(b) == b
  {
    if 65 <= b <= 90 {
      LetterAt(b - 65);
    } else if (b as char) in Capitals() {
      var k: nat :| k < 26 && Capitals()[k] == b as char;
      LetterAt(k);
      assert false;
    }
  }

  lemma LetterAt(k: nat)
    requires k < 26
    ensures Capitals()[k] as int == 65 + k && Smalls()[k] as int == 97 + k
  {
    FirstLetters(k);
    LastLetters(k);
  }

  lemma FirstLetters(k: nat)
    requires k < 26
    ensures k < 13 ==> Capitals()[k] as int == 65 + k && Smalls()[k] as int == 97 + k
  {
    assert k == 0 || k == 1 || k == 2 || k == 3 || k == 4 || k == 5 || k == 6 || k == 7 || k == 8 || k == 9
        || k == 10 || k == 11 || k == 12 || k >= 13;
  }

  lemma LastLetters(k: nat)
    requires k < 26
    ensures k >= 13 ==> Capitals()[k] as int == 65 + k && Smalls()[k] as int == 97 + k
  {
    assert k == 13 || k == 14 || k == 15 || k == 16 || k == 17 || k == 18 || k == 19 || k == 20 || k == 21 || k == 22
        || k == 23 || k == 24 || k == 25 || k < 13;
  }

  lemma LowerTwice(text: seq<Byte>)
    ensures ToLower(ToLower(text)) == ToLower(text)
  {
    var once := ToLower(text);
    forall i | 0 <= i < |text|
      ensures ToLower(once)[i] == once[i]
    {
    }
  }

  method Lowered(text: seq<Byte>) returns (result: seq<Byte>)
    ensures result == ToLower(text)
  {
    result := text;
    var i := 0;
    while i < |result|
      invariant 0 <= i <= |result| == |text|
      invariant forall j | 0 <= j < i :: result[j] == LowerByte(text[j])
      invariant forall j | i <= j < |text| :: result[j] == text[j]
    {
      hide LowerByte;
      result := result[i := LowerByte(result[i])];
      i := i + 1;
    }
  }

  // ---- Packets ----

  function Frame(command: seq<Byte>, data: seq<Byte>, separator: Byte): seq<Byte> {
    Magic() + command + [separator] + data
  }

  /** The position of the first divider, or the length when there is none. */
  function FirstDivider(s: seq<Byte>): (i: nat)
    ensures i <= |s|
    ensures i < |s| ==> IsDivider(s[i])
    ensures forall j | 0 <= j < i :: !IsDivider(s[j])
  {
    if s == [] || IsDivider(s[0]) then 0 else 1 + FirstDivider(s[1..])
  }

  datatype Message = Message(command: seq<Byte>, data: seq<Byte>)

  /** What a packet says, or None when it is dropped without a look at the callbacks. */
  function Receive(packet: seq<Byte>): Option<Message> {
    if |packet| < MAGIC_SIZE + 1 || packet[..MAGIC_SIZE] != Magic() then None
    else
      var buffer := packet[MAGIC_SIZE..];
      var divider := FirstDivider(buffer);
      if divider == |buffer| || divider == 0 then None
      else Some(Message(ToLower(buffer[..divider]), buffer[divider + 1..]))
  }

  lemma BodyOfFrame(command: seq<Byte>, data: seq<Byte>, separator: Byte)
    ensures var packet := Frame(command, data, separator);
            && |packet| >= MAGIC_SIZE + 1 && packet[..MAGIC_SIZE] == Magic()
            && packet[MAGIC_SIZE..] == command + [separator] + data
  {
  }

  /** A framed message arrives under the lower-cased command with the payload it was sent with, exactly when
      the command is not empty, has no divider in it, and the separator is one. */
  lemma SentIsReceivedExactlyWhen(command: seq<Byte>, data: seq<Byte>, separator: Byte)
    ensures Receive(Frame(command, data, separator)) == Some(Message(ToLower(command), data))
            <==> Plain(command) && IsDivider(separator)
    ensures Plain(command) && IsDivider(separator) <==>
            command != [] && 32 !in command && 10 !in command && (separator == 32 || separator == 10)
  {
    assert Plain(command) <==> command != [] && 32 !in command && 10 !in command;
    BodyOfFrame(command, data, separator);
    var buffer := command + [separator] + data;
    var divider := FirstDivider(buffer);
    if Plain(command) && IsDivider(separator) {
      assert buffer[|command|] == separator;
      assert forall j | 0 <= j < |command| :: buffer[j] == command[j] && command[j] in command;
      assert divider == |command|;
      assert buffer[..divider] == command && buffer[divider + 1..] == data;
    } else if Receive(Frame(command, data, separator)) == Some(Message(ToLower(command), data)) {
      assert |ToLower(buffer[..divider])| == divider == |command|;
      assert buffer[divider] == separator;
      forall b | b in command
        ensures !IsDivider(b)
      {
        var j :| 0 <= j < |command| && command[j] == b;
        assert buffer[j] == b;
      }
    }
  }

  /** Whatever is received was framed: a packet yields a message exactly when it is the frame of a plain
      command in any capitalisation, a divider and that payload. */
  lemma ReceivedExactlyWhenFramed(packet: seq<Byte>, m: Message)
    ensures Receive(packet) == Some(m) <==>
            exists raw, separator :: Plain(raw) && IsDivider(separator) && ToLower(raw) == m.command
                                  && packet == Frame(raw, m.data, separator)
  {
    if Receive(packet) == Some(m) {
      var buffer := packet[MAGIC_SIZE..];
      var divider := FirstDivider(buffer);
      var raw, separator := buffer[..divider], buffer[divider];
      assert packet == packet[..MAGIC_SIZE] + buffer;
      assert buffer == raw + [separator] + m.data;
      assert Magic() + (raw + [separator] + m.data) == Frame(raw, m.data, separator);
      assert Plain(raw) && IsDivider(separator) && ToLower(raw) == m.command;
    }
    if raw, separator :|
        Plain(raw) && IsDivider(separator) && ToLower(raw) == m.command && packet == Frame(raw, m.data, separator) {
      SentIsReceivedExactlyWhen(raw, m.data, separator);
    }
  }

  /** Typed values sent as one message arrive as the same values, with nothing left over. */
  lemma ValuesArrive(command: seq<Byte>, values: seq<Field>, separator: Byte)
    requires Plain(command) && IsDivider(separator) && Writable(values)
    ensures var received := Receive(Frame(command, Encodings(values), separator));
            && received.Some? && received.value.command == ToLower(command)
            && ReadFields(received.value.data, 0, ShapesOf(values)) == Done(values, |received.value.data|)
  {
    var data := Encodings(values);
    SentIsReceivedExactlyWhen(command, data, separator);
    assert data[0..|data|] == data;
    ReadsUndoWrites(values, data, 0);
  }

  // ---- The manager ----

  /** A registered handler, known by its number. */
  type Handler = nat

  datatype Call = Call(handler: Handler, data: seq<Byte>)

  /** The call a packet leads to. */
  function Dispatched(callbacks: map<seq<Byte>, Handler>, packet: seq<Byte>): Option<Call> {
    match Receive(packet)
    case None => None
    case Some(m) => if m.command in callbacks then Some(Call(callbacks[m.command], m.data)) else None
  }

  function Registered(callbacks: map<seq<Byte>, Handler>, command: seq<Byte>, handler: Handler)
    : map<seq<Byte>, Handler>
  {
    callbacks[ToLower(command) := handler]
  }

  /** Commands are the same when they agree up to case: a registration takes over every message of its
      command, whole payload, and touches no message of another. */
  lemma RegisteredThenSent(callbacks: map<seq<Byte>, Handler>, registered: seq<Byte>, handler: Handler,
                           sent: seq<Byte>, data: seq<Byte>, separator: Byte)
    requires Plain(sent) && IsDivider(separator)
    ensures var after := Dispatched(Registered(callbacks, registered, handler), Frame(sent, data, separator));
            if ToLower(sent) == ToLower(registered) then after == Some(Call(handler, data))
            else after == Dispatched(callbacks, Frame(sent, data, separator))
  {
    SentIsReceivedExactlyWhen(sent, data, separator);
  }

  /** A handler is called with some data exactly when the packet is the frame of a command it is registered for, in
      any capitalisation, with that data; every other packet calls nobody. */
  lemma DispatchedExactlyWhen(callbacks: map<seq<Byte>, Handler>, packet: seq<Byte>, call: Call)
    ensures Dispatched(callbacks, packet) == Some(call) <==>
            exists raw, separator :: Plain(raw) && IsDivider(separator) && packet == Frame(raw, call.data, separator)
                                  && ToLower(raw) in callbacks && callbacks[ToLower(raw)] == call.handler
  {
    hide Receive, Frame, ToLower, Plain, IsDivider;
    if Dispatched(callbacks, packet) == Some(call) {
      ReceivedExactlyWhenFramed(packet, Receive(packet).value);
    }
    if raw, separator :|
        Plain(raw) && IsDivider(separator) && packet == Frame(raw, call.data, separator)
        && ToLower(raw) in callbacks && callbacks[ToLower(raw)] == call.handler {
      ReceivedExactlyWhenFramed(packet, Message(ToLower(raw), call.data));
    }
  }

  class Manager {
    var callbacks: map<seq<Byte>, Handler>

    constructor ()
      ensures callbacks == map[]
    {
      callbacks := map[];
    }

    /** Every key is in lower case. */
    ghost predicate Valid()
      reads this
    {
      forall c | c in callbacks :: ToLower(c) == c
    }

    method On(command: seq<Byte>, handler: Handler)
      requires Valid()
      modifies this
      ensures Valid() && callbacks == Registered(old(callbacks), command, handler)
    {
      var key := Lowered(command);
      LowerTwice(command);
      callbacks := callbacks[key := handler];
    }

    /** The packet `send` puts on the wire. */
    method Send(command: seq<Byte>, data: seq<Byte>, separator: Byte) returns (packet: seq<Byte>)
      ensures packet == Frame(command, data, separator)
      ensures packet == [0xFF, 0xFF, 0xFF, 0xFF] + command + [separator] + data
    {
      packet := Magic();
      packet := packet + command;
      packet := packet + [separator];
      packet := packet + data;
    }

    /** `handle_data` and `dispatch_command`: the handler that is called, if any, and what it is given. */
    method HandleData(packet: seq<Byte>) returns (call: Option<Call>)
      ensures call == Dispatched(callbacks, packet)
    {
      if |packet| < MAGIC_SIZE + 1 || packet[..MAGIC_SIZE] != Magic() {
        return None;
      }
      var buffer := packet[MAGIC_SIZE..];
      var divider := 0;
      while divider < |buffer| && !IsDivider(buffer[divider])
        invariant 0 <= divider <= |buffer|
        invariant forall j | 0 <= j < divider :: !IsDivider(buffer[j])
      {
        divider := divider + 1;
      }
      assert divider == FirstDivider(buffer);
      if divider == |buffer| || divider == 0 {
        return None;
      }
      var command := buffer[..divider];
      var data := buffer[divider + 1..];
      var lower := Lowered(command);
      if lower in callbacks {
        call := Some(Call(callbacks[lower], data));
      } else {
        call := None;
      }
    }
  }
}
