/** Bytes, options and chunked byte streams: what arrives from a PTY channel. */
module Bytes {

  type byte = b: int | 0 <= b < 256

  datatype Option<+T> = None | Some(value: T)

  const LF: byte := 10
  const CR: byte := 13
  const COLON: byte := 58
  const UNDERSCORE: byte := 95

  const U64_MAX: nat := 0xFFFF_FFFF_FFFF_FFFF

  /** `saturating_add(1)` on a `u64`. */
  function SaturatingNext(n: nat): (m: nat) {
    if n >= U64_MAX then U64_MAX else n + 1
  }

  predicate IsDigit(b: byte) {
    48 <= b <= 57
  }

  /** The stream a sequence of chunks carries. */
  function Flatten(chunks: seq<seq<byte>>): (s: seq<byte>) {
    if chunks == [] then [] else chunks[0] + Flatten(chunks[1..])
  }

  lemma {:induction false} FlattenConcat(a: seq<seq<byte>>, b: seq<seq<byte>>)
    ensures Flatten(a + b) == Flatten(a) + Flatten(b)
  {
    if a == [] {
      assert a + b == b;
    } else {
      assert (a + b)[1..] == a[1..] + b;
      FlattenConcat(a[1..], b);
    }
  }

  lemma FlattenPrefixStep(chunks: seq<seq<byte>>, k: nat)
    requires k < |chunks|
    ensures Flatten(chunks[..k + 1]) == Flatten(chunks[..k]) + chunks[k]
    ensures Flatten(chunks[k..]) == chunks[k] + Flatten(chunks[k + 1..])
  {
    assert chunks[..k + 1] == chunks[..k] + [chunks[k]];
    FlattenConcat(chunks[..k], [chunks[k]]);
    assert Flatten([chunks[k]]) == chunks[k] + Flatten([]);
  }

  lemma SliceOfSlice(s: seq<byte>, h: nat, c: nat, i: nat, j: nat)
    requires h <= c <= |s| && i <= j <= c - h
    ensures s[h..c][i..j] == s[h + i..h + j]
  {
    var a, b := s[h..c][i..j], s[h + i..h + j];
    assert forall k :: 0 <= k < j - i ==> a[k] == s[h..c][i + k] == s[h + i + k] == b[k];
  }

  lemma FlattenSplit(chunks: seq<seq<byte>>, k: nat)
    requires k <= |chunks|
    ensures Flatten(chunks) == Flatten(chunks[..k]) + Flatten(chunks[k..])
  {
    assert chunks == chunks[..k] + chunks[k..];
    FlattenConcat(chunks[..k], chunks[k..]);
  }
}
