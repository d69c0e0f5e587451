/** Byte blocks: where a sequence of bytes lies inside a larger one. */
module Blocks {
  import opened ByteOrder

  /** The bytes b lie in s at position pos. */
  predicate BlockAt(s: seq<byte>, pos: nat, b: seq<byte>) {
    pos + |b| <= |s| && Matches(s, pos, b)
  }

  /** The bytes of s from pos on agree with b, compared one by one. */
  predicate Matches(s: seq<byte>, pos: nat, b: seq<byte>)
    decreases |b|
  {
    b == [] || (pos < |s| && s[pos] == b[0] && Matches(s, pos + 1, b[1..]))
  }

  lemma {:induction false} BlockAtIsSlice(s: seq<byte>, pos: nat, b: seq<byte>)
    ensures BlockAt(s, pos, b) <==> pos + |b| <= |s| && s[pos .. pos + |b|] == b
    decreases |b|
  {
    if b != [] {
      BlockAtIsSlice(s, pos + 1, b[1..]);
      if pos + |b| <= |s| {
        assert s[pos .. pos + |b|] == [s[pos]] + s[pos + 1 .. pos + |b|];
        assert b == [b[0]] + b[1..];
      }
    }
  }

  lemma BlockSplit(s: seq<byte>, pos: nat, b1: seq<byte>, b2: seq<byte>)
    requires BlockAt(s, pos, b1 + b2)
    ensures BlockAt(s, pos, b1) && BlockAt(s, pos + |b1|, b2)
  {
    BlockAtIsSlice(s, pos, b1 + b2);
    BlockAtIsSlice(s, pos, b1);
    BlockAtIsSlice(s, pos + |b1|, b2);
    forall i | 0 <= i < |b1|
      ensures s[pos .. pos + |b1|][i] == b1[i]
    {
      assert s[pos .. pos + |b1 + b2|][i] == (b1 + b2)[i];
    }
    forall i | 0 <= i < |b2|
      ensures s[pos + |b1| .. pos + |b1| + |b2|][i] == b2[i]
    {
      assert s[pos .. pos + |b1 + b2|][|b1| + i] == (b1 + b2)[|b1| + i];
    }
  }

  lemma BlockNest(s: seq<byte>, pos: nat, b: seq<byte>, q: nat, d: seq<byte>)
    requires BlockAt(s, pos, b) && BlockAt(b, q, d)
    ensures BlockAt(s, pos + q, d)
  {
    BlockAtIsSlice(s, pos, b);
    BlockAtIsSlice(b, q, d);
    BlockAtIsSlice(s, pos + q, d);
    forall i | 0 <= i < |d|
      ensures s[pos + q .. pos + q + |d|][i] == d[i]
    {
      assert s[pos .. pos + |b|][q + i] == b[q + i];
      assert b[q .. q + |d|][i] == d[i];
    }
  }

  lemma BlockWhole(s: seq<byte>)
    ensures BlockAt(s, 0, s)
  {
    BlockAtIsSlice(s, 0, s);
    assert s[0 .. |s|] == s;
  }

  lemma BlockInPrefix(a: seq<byte>, b: seq<byte>, q: nat, d: seq<byte>)
    requires BlockAt(a, q, d)
    ensures BlockAt(a + b, q, d)
  {
    BlockAtIsSlice(a, q, d);
    BlockAtIsSlice(a + b, q, d);
    assert (a + b)[q .. q + |d|] == a[q .. q + |d|];
  }

  lemma BlockAtSuffix(a: seq<byte>, b: seq<byte>)
    ensures BlockAt(a + b, |a|, b)
  {
    BlockAtIsSlice(a + b, |a|, b);
    assert (a + b)[|a| .. |a| + |b|] == b;
  }

  /** Three pieces laid one after the other. */
  lemma Pieces(a: seq<byte>, b: seq<byte>, c: seq<byte>)
    ensures BlockAt(a + b + c, 0, a)
    ensures BlockAt(a + b + c, |a|, b)
    ensures BlockAt(a + b + c, |a| + |b|, c)
  {
    BlockWhole(a);
    BlockInPrefix(a, b, 0, a);
    BlockInPrefix(a + b, c, 0, a);
    BlockAtSuffix(a, b);
    BlockInPrefix(a + b, c, |a|, b);
    BlockAtSuffix(a + b, c);
  }
}
