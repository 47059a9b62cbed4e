/** Byte patterns: their text form as src/common/utils/signature.cpp reads it and src/common/utils/string.cpp
    prints it, and what it means for memory to match one. */
module Pattern {
  import opened Options
  import opened Words

  datatype Token = Exact(b: Byte) | Wildcard

  // ---- Text ----

  function HexValue(c: char): (r: Option<Byte>)
    ensures r.Some? ==> r.value < 16
  {
    if '0' <= c <= '9' then Some((c as int) - ('0' as int))
    else if 'A' <= c <= 'F' then Some((c as int) - ('A' as int) + 10)
    else if 'a' <= c <= 'f' then Some((c as int) - ('a' as int) + 10)
    else None
  }

  /** Reading on from a text position with the tokens so far and perhaps half a byte. None is the exception
      for a character that is neither hex, blank nor wildcard. */
  function ParseFrom(text: string, tokens: seq<Token>, nibble: Option<Byte>): Option<(seq<Token>, Option<Byte>)>
    requires nibble.Some? ==> nibble.value < 16
    decreases |text|
  {
    if text == [] then Some((tokens, nibble))
    else if text[0] == ' ' then ParseFrom(text[1..], tokens, nibble)
    else if text[0] == '?' then ParseFrom(text[1..], tokens + [Wildcard], nibble)
    else
      match HexValue(text[0])
      case None => None
      case Some(v) =>
        if nibble.None? then ParseFrom(text[1..], tokens, Some(v))
        else ParseFrom(text[1..], tokens + [Exact(16 * nibble.value + v)], None)
  }

  /** Trailing wildcards are dropped. */
  function Trim(tokens: seq<Token>): seq<Token> {
    if tokens != [] && tokens[|tokens| - 1].Wildcard? then Trim(tokens[..|tokens| - 1]) else tokens
  }

  /** The tokens of a pattern text, or None when `load_pattern` throws. */
  function Parse(text: string): Option<seq<Token>> {
    match ParseFrom(text, [], None)
    case None => None
    case Some((tokens, nibble)) => if nibble.Some? then None else Some(Trim(tokens))
  }

  predicate Readable(c: char) {
    c == ' ' || c == '?' || HexValue(c).Some?
  }

  function HexCount(text: string): nat {
    if text == [] then 0
    else HexCount(text[1..]) + if text[0] != ' ' && text[0] != '?' && HexValue(text[0]).Some? then 1 else 0
  }

  lemma {:induction false} ParseFromThrows(text: string, tokens: seq<Token>, nibble: Option<Byte>)
    requires nibble.Some? ==> nibble.value < 16
    ensures var r := ParseFrom(text, tokens, nibble);
            && (r.Some? <==> forall c | c in text :: Readable(c))
            && (r.Some? ==> (r.value.1.Some? <==> (HexCount(text) + if nibble.Some? then 1 else 0) % 2 == 1))
    decreases |text|
  {
    if text != [] {
      var c, rest := text[0], text[1..];
      assert forall d | d in text :: d == c || d in rest;
      assert text == [c] + rest;
      if c == ' ' {
        ParseFromThrows(rest, tokens, nibble);
      } else if c == '?' {
        ParseFromThrows(rest, tokens + [Wildcard], nibble);
      } else if HexValue(c).Some? {
        if nibble.None? {
          ParseFromThrows(rest, tokens, HexValue(c));
        } else {
          ParseFromThrows(rest, tokens + [Exact(16 * nibble.value + HexValue(c).value)], None);
        }
      } else {
        assert c in text && !Readable(c);
      }
    }
  }

  /** Loading throws exactly on a foreign character or an odd number of hex digits. */
  lemma ParseThrowsExactlyWhen(text: string)
    ensures Parse(text).None? <==> (exists c | c in text :: !Readable(c)) || HexCount(text) % 2 == 1
  {
    ParseFromThrows(text, [], None);
  }

  // ---- Printing ----

  function HexDigit(v: Byte): char
    requires v < 16
  {
    if v < 10 then ('0' as int + v) as char else ('A' as int + v - 10) as char
  }

  /** `%02X`. */
  function HexByte(b: Byte): string {
    [HexDigit(b / 16), HexDigit(b % 16)]
  }

  function TokenText(t: Token): string {
    match t
    case Exact(b) => HexByte(b)
    case Wildcard => "?"
  }

  predicate Blank(s: string) {
    forall c | c in s :: c == ' '
  }

  /** Tokens as text, each behind its own gap. */
  function Render(tokens: seq<Token>, gaps: seq<string>): string
    requires |gaps| == |tokens|
  {
    if tokens == [] then []
    else gaps[0] + TokenText(tokens[0]) + Render(tokens[1..], gaps[1..])
  }

  /** `dump_hex`. */
  function DumpHex(data: seq<Byte>, separator: string): string {
    if data == [] then []
    else if |data| == 1 then HexByte(data[0])
    else DumpHex(data[..|data| - 1], separator) + separator + HexByte(data[|data| - 1])
  }

  /** The loop of `dump_hex`; its counter is 32 bits wide. */
  method PrintHex(data: seq<Byte>, separator: string) returns (result: string)
    requires |data| < TWO_32
    ensures result == DumpHex(data, separator)
  {
    result := "";
    var i := 0;
    while i < |data|
      invariant 0 <= i <= |data|
      invariant result == DumpHex(data[..i], separator)
    {
      assert data[..i + 1][..i] == data[..i];
      hide HexByte;
      if i > 0 {
        result := result + separator;
      }
      result := result + HexByte(data[i]);
      i := i + 1;
    }
    assert data[..i] == data;
  }

  function HexDigits(): string {
    "0123456789ABCDEF"
  }

  /** A byte is printed as its two hexadecimal digits, the higher one first. */
  lemma HexByteDigits(b: Byte)
    ensures |HexDigits()| == 16
    ensures HexByte(b) == [HexDigits()[b / 16], HexDigits()[b % 16]]
  {
    DigitAt(b / 16);
    DigitAt(b % 16);
  }

  lemma DigitAt(v: Byte)
    requires v < 16
    ensures |HexDigits()| == 16 && HexDigits()[v] == HexDigit(v)
  {
    assert v == 0 || v == 1 || v == 2 || v == 3 || v == 4 || v == 5 || v == 6 || v == 7 || v == 8 || v == 9
        || v == 10 || v == 11 || v == 12 || v == 13 || v == 14 || v == 15;
  }

  function SmallDigits(): string {
    "0123456789abcdef"
  }

  /** A character is read as a digit exactly when it is a hexadecimal one, large or small, and as its place in their
      order. */
  lemma HexValueExactlyWhen(c: char, v: Byte)
    ensures |HexDigits()| == |SmallDigits()| == 16
    ensures HexValue(c) == Some(v) <==> v < 16 && (c == HexDigits()[v] || c == SmallDigits()[v])
  {
    if v < 16 {
      DigitAt(v);
      SmallDigitAt(v);
    }
    hide HexDigits, SmallDigits;
  }

  lemma SmallDigitAt(v: Byte)
    requires v < 16
    ensures |SmallDigits()| == 16
    ensures SmallDigits()[v] as int == if v < 10 then ('0' as int) + v else ('a' as int) + v - 10
  {
    assert v == 0 || v == 1 || v == 2 || v == 3 || v == 4 || v == 5 || v == 6 || v == 7 || v == 8 || v == 9
        || v == 10 || v == 11 || v == 12 || v == 13 || v == 14 || v == 15;
  }

  /** The same text with its small hexadecimal digits as capitals. */
  function Raised(text: string): (raised: string)
    ensures |raised| == |text|
  {
    seq(|text|, i requires 0 <= i < |text| =>
      if 'a' <= text[i] <= 'f' then ((text[i] as int) - ('a' as int) + ('A' as int)) as char else text[i])
  }

  lemma {:induction false} ParseFromRaised(text: string, tokens: seq<Token>, nibble: Option<Byte>)
    requires nibble.Some? ==> nibble.value < 16
    ensures ParseFrom(Raised(text), tokens, nibble) == ParseFrom(text, tokens, nibble)
    decreases |text|
  {
    if text != [] {
      var c := Raised(text)[0];
      assert Raised(text)[1..] == Raised(text[1..]);
      assert HexValue(c) == HexValue(text[0]) && (c == ' ' <==> text[0] == ' ') && (c == '?' <==> text[0] == '?');
      hide Raised, HexValue;
      if text[0] == ' ' {
        ParseFromRaised(text[1..], tokens, nibble);
      } else if text[0] == '?' {
        ParseFromRaised(text[1..], tokens + [Wildcard], nibble);
      } else if HexValue(text[0]).Some? {
        if nibble.None? {
          ParseFromRaised(text[1..], tokens, HexValue(text[0]));
        } else {
          ParseFromRaised(text[1..], tokens + [Exact(16 * nibble.value + HexValue(text[0]).value)], None);
        }
      }
    }
  }

  /** Small and capital hexadecimal digits mean the same. */
  lemma ParseIgnoresCase(text: string)
    ensures Parse(Raised(text)) == Parse(text)
  {
    ParseFromRaised(text, [], None);
    hide ParseFrom, Raised;
  }

  lemma HexDigitValue(v: Byte)
    requires v < 16
    ensures HexValue(HexDigit(v)) == Some(v) && HexDigit(v) != ' ' && HexDigit(v) != '?'
  {
  }

  lemma {:induction false} ParseSkipsBlank(gap: string, text: string, tokens: seq<Token>)
    requires Blank(gap)
    ensures ParseFrom(gap + text, tokens, None) == ParseFrom(text, tokens, None)
    decreases |gap|
  {
    if gap == [] {
      assert gap + text == text;
    } else {
      assert gap[0] in gap && forall c | c in gap[1..] :: c in gap;
      assert (gap + text)[1..] == gap[1..] + text;
      ParseSkipsBlank(gap[1..], text, tokens);
    }
  }

  lemma ParseToken(t: Token, text: string, tokens: seq<Token>)
    ensures ParseFrom(TokenText(t) + text, tokens, None) == ParseFrom(text, tokens + [t], None)
  {
    var all := TokenText(t) + text;
    match t {
      case Wildcard =>
        assert all[1..] == text;
      case Exact(b) =>
        HexDigitValue(b / 16);
        HexDigitValue(b % 16);
        assert all[0] == HexDigit(b / 16) && all[1] == HexDigit(b % 16);
        assert all[1..][1..] == text;
        assert all[1..][0] == HexDigit(b % 16);
        assert 16 * (b / 16) + b % 16 == b;
    }
  }

  lemma {:induction false} ParseRendered(tokens: seq<Token>, gaps: seq<string>, tail: string, before: seq<Token>)
    requires |gaps| == |tokens| && Blank(tail) && forall g | g in gaps :: Blank(g)
    ensures ParseFrom(Render(tokens, gaps) + tail, before, None) == Some((before + tokens, None))
    decreases |tokens|
  {
    if tokens == [] {
      ParseSkipsBlank(tail, "", before);
      assert Render(tokens, gaps) + tail == tail + "" && before + tokens == before;
    } else {
      var rest := Render(tokens[1..], gaps[1..]) + tail;
      assert Render(tokens, gaps) + tail == gaps[0] + (TokenText(tokens[0]) + rest);
      hide ParseFrom, Render, TokenText, Blank;
      ParseSkipsBlank(gaps[0], TokenText(tokens[0]) + rest, before);
      ParseToken(tokens[0], rest, before);
      ParseRendered(tokens[1..], gaps[1..], tail, before + [tokens[0]]);
      assert before + [tokens[0]] + tokens[1..] == before + tokens;
    }
  }

  /** Parsing undoes printing: bytes in hex with wildcards in between, and blanks wherever one likes before,
      between and behind the tokens, read back to the same tokens without the trailing wildcards. */
  lemma ParseUndoesRender(tokens: seq<Token>, gaps: seq<string>, tail: string)
    requires |gaps| == |tokens| && Blank(tail) && forall g | g in gaps :: Blank(g)
    ensures Parse(Render(tokens, gaps) + tail) == Some(Trim(tokens))
  {
    ParseRendered(tokens, gaps, tail, []);
    assert [] + tokens == tokens;
    hide ParseFrom, Render, Trim;
  }

  function ExactTokens(data: seq<Byte>): (s: seq<Token>)
    ensures |s| == |data|
  {
    seq(|data|, i requires 0 <= i < |data| => Exact(data[i]))
  }

  function Gaps(n: nat, separator: string): (s: seq<string>)
    ensures |s| == n
  {
    seq(n, i requires 0 <= i < n => if i == 0 then "" else separator)
  }

  lemma {:induction false} RenderAppend(tokens: seq<Token>, gaps: seq<string>, t: Token, gap: string)
    requires |gaps| == |tokens|
    ensures Render(tokens + [t], gaps + [gap]) == Render(tokens, gaps) + gap + TokenText(t)
    decreases |tokens|
  {
    if tokens != [] {
      assert (tokens + [t])[1..] == tokens[1..] + [t] && (gaps + [gap])[1..] == gaps[1..] + [gap];
      RenderAppend(tokens[1..], gaps[1..], t, gap);
    }
  }

  lemma {:induction false} DumpIsRender(data: seq<Byte>, separator: string)
    ensures DumpHex(data, separator) == Render(ExactTokens(data), Gaps(|data|, separator))
    decreases |data|
  {
    if data != [] {
      var n := |data| - 1;
      DumpIsRender(data[..n], separator);
      assert ExactTokens(data) == ExactTokens(data[..n]) + [Exact(data[n])];
      assert Gaps(|data|, separator) == Gaps(n, separator) + [if n == 0 then "" else separator];
      RenderAppend(ExactTokens(data[..n]), Gaps(n, separator), Exact(data[n]), if n == 0 then "" else separator);
    }
  }

  lemma {:induction false} TrimKeepsExact(tokens: seq<Token>)
    requires tokens == [] || tokens[|tokens| - 1].Exact?
    ensures Trim(tokens) == tokens
  {
  }

  /** Dumping bytes with any blank separator and loading the text gives the bytes back. */
  lemma ParseUndoesDump(data: seq<Byte>, separator: string)
    requires Blank(separator)
    ensures Parse(DumpHex(data, separator)) == Some(ExactTokens(data))
  {
    DumpIsRender(data, separator);
    ParseUndoesRender(ExactTokens(data), Gaps(|data|, separator), "");
    assert DumpHex(data, separator) + "" == DumpHex(data, separator);
    TrimKeepsExact(ExactTokens(data));
  }

  // ---- Matching ----

  /** The window of memory at `i` fits the pattern. */
  predicate MatchesAt(mem: seq<Byte>, i: nat, tokens: seq<Token>) {
    && i + |tokens| <= |mem|
    && forall j | 0 <= j < |tokens| && tokens[j].Exact? :: mem[i + j] == tokens[j].b
  }

  /** Dropping trailing wildcards changes no match whose whole window lies in memory. */
  lemma {:induction false} TrimKeepsMatches(mem: seq<Byte>, i: nat, tokens: seq<Token>)
    requires i + |tokens| <= |mem|
    ensures MatchesAt(mem, i, Trim(tokens)) <==> MatchesAt(mem, i, tokens)
    decreases |tokens|
  {
    if tokens != [] && tokens[|tokens| - 1].Wildcard? {
      var front := tokens[..|tokens| - 1];
      TrimKeepsMatches(mem, i, front);
      assert MatchesAt(mem, i, front) <==> MatchesAt(mem, i, tokens);
    }
  }

  /** The addresses `base + i` of all matches at offsets `from <= i < from + n`, ascending. */
  function Matches(mem: seq<Byte>, base: nat, tokens: seq<Token>, from: nat, n: nat): seq<nat>
    decreases n
  {
    if n == 0 then []
    else
      Matches(mem, base, tokens, from, n - 1) +
      if MatchesAt(mem, from + n - 1, tokens) then [base + from + n - 1] else []
  }

  predicate Ascending(s: seq<nat>) {
    forall i, j | 0 <= i < j < |s| :: s[i] < s[j]
  }

  /** The list holds exactly the matching addresses of the range, in strictly ascending order. */
  lemma {:induction false} MatchesAreAll(mem: seq<Byte>, base: nat, tokens: seq<Token>, from: nat, n: nat)
    ensures var s := Matches(mem, base, tokens, from, n);
            && Ascending(s)
            && forall a: nat :: a in s <==> base + from <= a < base + from + n && MatchesAt(mem, a - base, tokens)
    decreases n
  {
    if n > 0 {
      MatchesAreAll(mem, base, tokens, from, n - 1);
      var front := Matches(mem, base, tokens, from, n - 1);
      forall k | 0 <= k < |front|
        ensures front[k] < base + from + n - 1
      {
        assert front[k] in front;
      }
    }
  }

  /** Scanning two adjacent ranges is scanning their union. */
  lemma {:induction false} MatchesConcat(mem: seq<Byte>, base: nat, tokens: seq<Token>, from: nat, n: nat, m: nat)
    ensures Matches(mem, base, tokens, from, n) + Matches(mem, base, tokens, from + n, m)
         == Matches(mem, base, tokens, from, n + m)
    decreases m
  {
    var front := Matches(mem, base, tokens, from, n);
    if m == 0 {
      assert front + [] == front;
    } else {
      MatchesConcat(mem, base, tokens, from, n, m - 1);
      assert from + (n + m) - 1 == from + n + m - 1;
      var last := if MatchesAt(mem, from + n + m - 1, tokens) then [base + from + n + m - 1] else [];
      assert front + (Matches(mem, base, tokens, from + n, m - 1) + last)
          == (front + Matches(mem, base, tokens, from + n, m - 1)) + last;
    }
  }
}
