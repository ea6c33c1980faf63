/** Sequences of descriptor addresses: the free list in list order, and the
    space a list of blocks occupies. */
module Seqs {
  import opened Layout

  /** No address occurs twice. */
  predicate Distinct(s: seq<nat>)
  {
    forall i, j :: 0 <= i < j < |s| ==> s[i] != s[j]
  }

  /** Every address in `s` has a recorded length. */
  predicate Tracked(len: map<nat, nat>, s: seq<nat>)
  {
    forall a :: a in s ==> a in len
  }

  /** `s` with the entry at position `i` unlinked. */
  function RemoveAt(s: seq<nat>, i: nat): (r: seq<nat>)
    requires i < |s|
    ensures |r| == |s| - 1
    ensures forall k :: 0 <= k < i ==> r[k] == s[k]
    ensures forall k :: i <= k < |r| ==> r[k] == s[k + 1]
  {
    s[..i] + s[i + 1..]
  }

  lemma RemoveAtElements(s: seq<nat>, i: nat)
    requires i < |s|
    ensures forall x :: x in RemoveAt(s, i) ==> x in s
    ensures forall x :: x in s && x != s[i] ==> x in RemoveAt(s, i)
  {
    var r := RemoveAt(s, i);
    forall x | x in s && x != s[i]
      ensures x in r
    {
      var k :| 0 <= k < |s| && s[k] == x;
      if k < i {
        assert r[k] == x;
      } else {
        assert r[k - 1] == x;
      }
    }
  }

  lemma RemoveAtDistinct(s: seq<nat>, i: nat)
    requires i < |s|
    ensures Distinct(s) ==> Distinct(RemoveAt(s, i)) && s[i] !in RemoveAt(s, i)
  {
  }

  /** Pushing an address that is not yet listed keeps a list duplicate-free. */
  lemma PushDistinct(x: nat, s: seq<nat>)
    requires Distinct(s) && x !in s
    ensures Distinct([x] + s)
  {
    var r := [x] + s;
    forall i, j | 0 <= i < j < |r|
      ensures r[i] != r[j]
    {
      assert r[j] == s[j - 1];
      if i > 0 {
        assert r[i] == s[i - 1];
      }
    }
  }

  /** The position of the first occurrence of `x`: what a walk from the
      list head that stops at `x` reaches. */
  function Pos(s: seq<nat>, x: nat): (i: nat)
    requires x in s
    ensures i < |s| && s[i] == x
    ensures forall k :: 0 <= k < i ==> s[k] != x
  {
    if s[0] == x then 0 else 1 + Pos(s[1..], x)
  }

  lemma PosOfDistinct(s: seq<nat>, i: nat)
    requires Distinct(s) && i < |s|
    ensures Pos(s, s[i]) == i
  {
  }

  /** Sum of `H + len[a]` over the blocks `a` of `s`: the bytes the blocks
      occupy, descriptors included. */
  function Span(len: map<nat, nat>, s: seq<nat>): nat
    requires Tracked(len, s)
  {
    if |s| == 0 then 0 else H + len[s[0]] + Span(len, s[1..])
  }

  lemma {:induction false} SpanConcat(len: map<nat, nat>, a: seq<nat>, b: seq<nat>)
    requires Tracked(len, a) && Tracked(len, b)
    ensures Span(len, a + b) == Span(len, a) + Span(len, b)
  {
    if |a| == 0 {
      assert a + b == b;
    } else {
      assert (a + b)[1..] == a[1..] + b;
      SpanConcat(len, a[1..], b);
    }
  }

  /** The span depends only on the lengths of the listed blocks. */
  lemma {:induction false} SpanAgree(len: map<nat, nat>, len2: map<nat, nat>, s: seq<nat>)
    requires Tracked(len, s) && Tracked(len2, s)
    requires forall a :: a in s ==> len[a] == len2[a]
    ensures Span(len, s) == Span(len2, s)
  {
    if |s| > 0 {
      SpanAgree(len, len2, s[1..]);
    }
  }

  /** Unlinking entry `i` removes exactly that block's bytes from the span. */
  lemma SpanRemoveAt(len: map<nat, nat>, s: seq<nat>, i: nat)
    requires Tracked(len, s) && i < |s|
    ensures Span(len, s) == Span(len, RemoveAt(s, i)) + H + len[s[i]]
  {
    assert s == s[..i] + ([s[i]] + s[i + 1..]);
    SpanConcat(len, s[..i], [s[i]] + s[i + 1..]);
    SpanConcat(len, s[..i], s[i + 1..]);
  }

  /** Changing the length of one block that occurs once in `s` changes the
      span by exactly the difference. */
  lemma {:induction false} SpanUpdate(len: map<nat, nat>, s: seq<nat>, k: nat, v: nat)
    requires Tracked(len, s) && Distinct(s) && k in s
    ensures Tracked(len[k := v], s)
    ensures Span(len[k := v], s) + len[k] == Span(len, s) + v
  {
    var len2 := len[k := v];
    if s[0] == k {
      SpanAgree(len, len2, s[1..]);
    } else {
      SpanUpdate(len, s[1..], k, v);
    }
  }

  /** Unlinking an entry other than `x` keeps `x` and shifts it left iff
      the unlinked entry came before it; entries before `x` stay before it. */
  lemma RemoveAtPos(s: seq<nat>, j: nat, x: nat)
    requires Distinct(s) && j < |s| && x in s && s[j] != x
    ensures x in RemoveAt(s, j)
    ensures Pos(RemoveAt(s, j), x) == if j < Pos(s, x) then Pos(s, x) - 1 else Pos(s, x)
    ensures forall a :: a in RemoveAt(s, j)[..Pos(RemoveAt(s, j), x)] ==> a in s[..Pos(s, x)]
  {
    var r := RemoveAt(s, j);
    var k := Pos(s, x);
    var k' := if j < k then k - 1 else k;
    assert r[k'] == x;
    RemoveAtDistinct(s, j);
    PosOfDistinct(r, k');
    forall a | a in r[..k']
      ensures a in s[..k]
    {
      var m :| 0 <= m < k' && r[m] == a;
      if m < j {
        assert s[..k][m] == a;
      } else {
        assert s[..k][m + 1] == a;
      }
    }
  }
}
