/**
 Byte strings, and the two views of a buffer that every packet reader and writer uses:
 a writer splices bytes in at a position, a reader finds bytes at a position.
 */
module Bytes {
  type byte = x: int | 0 <= x < 256
  type bytes = seq<byte>

  datatype Option<+T> = None | Some(value: T)

  /** The buffer s after writing data at position p, all other bytes unchanged. */
  function Splice(s: bytes, p: nat, data: bytes): (r: bytes)
    requires p + |data| <= |s|
    ensures |r| == |s|
  {
    s[..p] + data + s[p + |data|..]
  }

  lemma SpliceNothing(s: bytes, p: nat)
    requires p <= |s|
    ensures Splice(s, p, []) == s
  {
  }

  /** Two adjacent writes are one write of the concatenation. */
  lemma SpliceTwice(s: bytes, p: nat, a: bytes, b: bytes)
    requires p + |a| + |b| <= |s|
    ensures Splice(Splice(s, p, a), p + |a|, b) == Splice(s, p, a + b)
  {
  }

  /** The bytes b stand in s at position p. */
  ghost predicate At(s: bytes, p: nat, b: bytes) {
    p + |b| <= |s| && s[p..p + |b|] == b
  }

  lemma AtSplit(s: bytes, p: nat, a: bytes, b: bytes)
    requires At(s, p, a + b)
    ensures At(s, p, a) && At(s, p + |a|, b)
  {
    var w := s[p..p + |a + b|];
    assert s[p..p + |a|] == w[..|a|] == a;
    assert s[p + |a|..p + |a| + |b|] == w[|a|..] == b;
  }

  lemma AtJoin(s: bytes, p: nat, a: bytes, b: bytes)
    requires At(s, p, a) && At(s, p + |a|, b)
    ensures At(s, p, a + b)
  {
    assert s[p..p + |a + b|] == s[p..p + |a|] + s[p + |a|..p + |a| + |b|];
  }

  lemma SpliceAt(s: bytes, p: nat, data: bytes)
    requires p + |data| <= |s|
    ensures At(Splice(s, p, data), p, data)
  {
  }

  lemma Regroup<T>(a: seq<T>, b: seq<T>, c: seq<T>)
    ensures a + (b + c) == a + b + c
  {
  }

  function Flatten(parts: seq<bytes>): (r: bytes) {
    if parts == [] then [] else parts[0] + Flatten(parts[1..])
  }

  lemma {:induction false} FlattenAppend(parts: seq<bytes>, last: bytes)
    ensures Flatten(parts + [last]) == Flatten(parts) + last
  {
    if parts == [] {
      assert [] + [last] == [last];
      assert Flatten([last]) == last + Flatten([]);
    } else {
      FlattenAppend(parts[1..], last);
      assert (parts + [last])[1..] == parts[1..] + [last];
    }
  }
}
