/** Bytes, and the copies and spans the drivers make of byte buffers. */
module Bytes {
  newtype byte = x: int | 0 <= x < 256

  /** `s` with the bytes from `pos` on overwritten by `payload`. */
  function Splice(s: seq<byte>, pos: nat, payload: seq<byte>): (r: seq<byte>)
    requires pos + |payload| <= |s|
    ensures |r| == |s|
  {
    s[..pos] + payload + s[pos + |payload|..]
  }

  lemma SpliceIs(s: seq<byte>, pos: nat, payload: seq<byte>, r: seq<byte>)
    requires pos + |payload| <= |s| == |r|
    ensures r == Splice(s, pos, payload) <==>
            forall b | 0 <= b < |s| :: r[b] == if pos <= b < pos + |payload| then payload[b - pos] else s[b]
  {
    var t := Splice(s, pos, payload);
    assert forall b | 0 <= b < |s| :: t[b] == if pos <= b < pos + |payload| then payload[b - pos] else s[b];
  }

  /** A slice of a slice. */
  lemma SubSlice(s: seq<byte>, lo: nat, hi: nat, i: nat, j: nat)
    requires i <= j && lo + j <= hi <= |s|
    ensures s[lo..hi][i..j] == s[lo + i..lo + j]
  {
    assert forall k | 0 <= k < j - i :: s[lo..hi][i..j][k] == s[lo + i..lo + j][k];
  }

  /** memcpy between two different arrays, or between disjoint ranges of one. */
  method Memcpy(dst: array<byte>, to: nat, src: array<byte>, from: nat, n: nat)
    requires to + n <= dst.Length && from + n <= src.Length
    requires dst != src || to + n <= from || from + n <= to
    modifies dst
    ensures dst[..] == Splice(old(dst[..]), to, old(src[from..from + n]))
  {
    var i := 0;
    while i < n
      invariant i <= n
      invariant forall b | 0 <= b < dst.Length ::
                  dst[b] == if to <= b < to + i then old(src[from + b - to]) else old(dst[b])
    {
      dst[to + i] := src[from + i];
      i := i + 1;
    }
    SpliceIs(old(dst[..]), to, old(src[from..from + n]), dst[..]);
  }
}
