/** Where byte sequences stand within longer ones. */
module ByteSlices {
  import opened Words

  /** The bytes stand at this offset of the buffer. */
  predicate Holds(buffer: seq<Byte>, offset: nat, data: seq<Byte>) {
    offset + |data| <= |buffer| && buffer[offset..offset + |data|] == data
  }

  lemma HoldsParts(buffer: seq<Byte>, offset: nat, first: seq<Byte>, second: seq<Byte>)
    ensures Holds(buffer, offset, first + second) <==>
            Holds(buffer, offset, first) && Holds(buffer, offset + |first|, second)
  {
    var n, m := |first|, |second|;
    if offset + n + m <= |buffer| {
      var both := buffer[offset..offset + n + m];
      assert both[..n] == buffer[offset..offset + n] && both[n..] == buffer[offset + n..offset + n + m];
      assert both == both[..n] + both[n..];
      assert (first + second)[..n] == first && (first + second)[n..] == second;
    }
  }

  lemma HoldsPrefix(buffer: seq<Byte>, offset: nat, data: seq<Byte>, k: nat)
    requires Holds(buffer, offset, data) && k <= |data|
    ensures Holds(buffer, offset, data[..k])
    ensures offset + k <= |buffer| && buffer[offset..offset + k] == data[..k]
  {
    assert data == data[..k] + data[k..];
    HoldsParts(buffer, offset, data[..k], data[k..]);
  }

  lemma HoldsSlices(buffer: seq<Byte>, a: nat, b: nat, c: nat)
    requires a <= b <= c <= |buffer|
    ensures Holds(buffer, a, buffer[a..b]) && Holds(buffer, b, buffer[b..c])
  {
  }

  lemma SubSlice(data: seq<Byte>, from: nat, n: nat, x: nat, y: nat)
    requires x <= y <= n && from + n <= |data|
    ensures data[from..from + n][x..y] == data[from + x..from + y]
  {
    var left, right := data[from..from + n][x..y], data[from + x..from + y];
    assert |left| == |right| && forall k | 0 <= k < y - x :: left[k] == right[k];
  }

  lemma HeadAndTail<T>(s: seq<T>)
    requires s != []
    ensures [s[0]] + s[1..] == s
  {
  }
}
