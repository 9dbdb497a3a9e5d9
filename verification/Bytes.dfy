/** Bytes, and writing some of them over others. */
module Bytes {
  type Byte = x: int | 0 <= x < 256

  // `s` with `data` written over it at `at`.
  function Patch(s: seq<Byte>, at: nat, data: seq<Byte>): (r: seq<Byte>)
    requires at + |data| <= |s|
    ensures |r| == |s| && forall x {:trigger r[x]} :: 0 <= x < |r| ==>
            r[x] == if at <= x < at + |data| then data[x - at] else s[x]
  {
    s[..at] + data + s[at + |data|..]
  }

  lemma PatchInside(s: seq<Byte>, start: nat, line: seq<Byte>, at: nat, bytes: seq<Byte>)
    requires start + |line| <= |s| && at + |bytes| <= |line|
    ensures Patch(s, start, Patch(line, at, bytes)) == Patch(Patch(s, start, line), start + at, bytes)
  {
  }

  lemma PatchSame(s: seq<Byte>, start: nat, n: nat)
    requires start + n <= |s|
    ensures Patch(s, start, s[start..start + n]) == s
  {
  }

  lemma PatchJoin(s: seq<Byte>, at: nat, a: seq<Byte>, b: seq<Byte>)
    requires at + |a| + |b| <= |s|
    ensures Patch(Patch(s, at, a), at + |a|, b) == Patch(s, at, a + b)
  {
  }

  lemma PatchPrefix(s: seq<Byte>, at: nat, data: seq<Byte>)
    requires at + |data| <= |s|
    ensures Patch(s, at, data)[..at + |data|] == s[..at] + data
  {
  }

  lemma Slice(s: seq<Byte>, at: nat, n: nat, i: nat, j: nat)
    requires i <= j <= n && at + n <= |s|
    ensures s[at..at + n][i..j] == s[at + i..at + j]
  {
    var l, r := s[at..at + n][i..j], s[at + i..at + j];
    assert forall k :: 0 <= k < |l| ==> l[k] == r[k];
  }
}
