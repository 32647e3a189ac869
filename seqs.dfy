/** Facts about sequences that the thread list and the trim step rely on. */
module Seqs {

  /** The entries at `i` and `j` differ. */
  predicate Apart<T(==)>(s: seq<T>, i: int, j: int)
    requires 0 <= i < |s| && 0 <= j < |s|
  {
    s[i] != s[j]
  }

  /** No entry occurs twice. */
  predicate Distinct<T(==)>(s: seq<T>) {
    forall i, j {:trigger Apart(s, i, j)} :: 0 <= i < |s| && 0 <= j < |s| && i != j ==> Apart(s, i, j)
  }

  /** In a distinct sequence the entry at `k` occurs nowhere else. */
  lemma DistinctAt<T>(s: seq<T>, k: nat)
    requires Distinct(s) && k < |s|
    ensures forall j :: 0 <= j < |s| && j != k ==> s[j] != s[k]
  {
    forall j | 0 <= j < |s| && j != k
      ensures s[j] != s[k]
    {
      assert Apart(s, j, k);
    }
  }

  /** A new entry in front keeps a sequence distinct. */
  lemma PrependKeepsDistinct<T>(x: T, s: seq<T>)
    requires Distinct(s) && x !in s
    ensures Distinct([x] + s)
  {
    var r := [x] + s;
    forall i, j | 0 <= i < |r| && 0 <= j < |r| && i != j
      ensures Apart(r, i, j)
    {
      if i > 0 && j > 0 {
        assert Apart(s, i - 1, j - 1);
      }
    }
  }

  /** `a` is `b` with some entries taken out and the rest kept in order. */
  predicate SubSeq<T(==)>(a: seq<T>, b: seq<T>)
    decreases |b|
  {
    if b == [] then a == []
    else
      (|a| > 0 && a[|a| - 1] == b[|b| - 1] && SubSeq(a[..|a| - 1], b[..|b| - 1]))
      || SubSeq(a, b[..|b| - 1])
  }

  lemma {:induction false} SubSeqMembers<T>(a: seq<T>, b: seq<T>)
    requires SubSeq(a, b)
    ensures |a| <= |b|
    ensures forall x :: x in a ==> x in b
    decreases |b|
  {
    if b != [] {
      var b' := b[..|b| - 1];
      if |a| > 0 && a[|a| - 1] == b[|b| - 1] && SubSeq(a[..|a| - 1], b') {
        SubSeqMembers(a[..|a| - 1], b');
        assert a == a[..|a| - 1] + [a[|a| - 1]];
        assert b == b' + [b[|b| - 1]];
      } else {
        SubSeqMembers(a, b');
        assert b == b' + [b[|b| - 1]];
      }
    }
  }

  lemma {:induction false} SubSeqRefl<T>(a: seq<T>)
    ensures SubSeq(a, a)
    decreases |a|
  {
    if a != [] {
      SubSeqRefl(a[..|a| - 1]);
    }
  }

  /** Keeping the next entry, or dropping it, both extend a subsequence. */
  lemma SubSeqExtend<T>(a: seq<T>, b: seq<T>, x: T)
    requires SubSeq(a, b)
    ensures SubSeq(a + [x], b + [x]) && SubSeq(a, b + [x])
  {
    assert (a + [x])[..|a|] == a && (b + [x])[..|b|] == b;
  }

  /** Keeping the next entry or not, an ordered selection stays ordered
      and within what it was selected from. */
  lemma SubSeqKeep<T>(a: seq<T>, b: seq<T>, x: T, keep: bool)
    requires SubSeq(a, b) && forall y :: y in a ==> y in b
    ensures SubSeq(a + (if keep then [x] else []), b + [x])
    ensures forall y :: y in a + (if keep then [x] else []) ==> y in b + [x]
  {
    SubSeqExtend(a, b, x);
    assert a + [] == a;
  }

  lemma {:induction false} SubSeqTrans<T>(a: seq<T>, b: seq<T>, c: seq<T>)
    requires SubSeq(a, b) && SubSeq(b, c)
    ensures SubSeq(a, c)
    decreases |c|
  {
    if c == [] {
    } else {
      var c' := c[..|c| - 1];
      if |b| > 0 && b[|b| - 1] == c[|c| - 1] && SubSeq(b[..|b| - 1], c') {
        var b' := b[..|b| - 1];
        if |a| > 0 && a[|a| - 1] == b[|b| - 1] && SubSeq(a[..|a| - 1], b') {
          SubSeqTrans(a[..|a| - 1], b', c');
        } else {
          assert SubSeq(a, b');
          SubSeqTrans(a, b', c');
        }
      } else {
        SubSeqTrans(a, b, c');
      }
    }
  }

  /** Taking out the entry at `k` leaves a subsequence. */
  lemma {:induction false} SubSeqRemove<T>(s: seq<T>, k: nat)
    requires k < |s|
    ensures SubSeq(s[..k] + s[k + 1..], s)
    decreases |s|
  {
    var r := s[..k] + s[k + 1..];
    if k == |s| - 1 {
      assert r == s[..|s| - 1];
      SubSeqRefl(r);
    } else {
      SubSeqRemove(s[..|s| - 1], k);
      var s' := s[..|s| - 1];
      assert s'[..k] + s'[k + 1..] == r[..|r| - 1];
      assert r[|r| - 1] == s[|s| - 1];
    }
  }

  /** `List.Remove(x)`: drops the first occurrence of `x`, if any. */
  function Without<T(==)>(s: seq<T>, x: T): (r: seq<T>)
    ensures x !in s ==> r == s
    ensures x in s ==> |r| == |s| - 1
  {
    if s == [] then []
    else if s[0] == x then s[1..]
    else [s[0]] + Without(s[1..], x)
  }

  /** When the first occurrence of `s[k]` is at `k`, Without cuts out
      exactly that position. */
  lemma {:induction false} WithoutAt<T>(s: seq<T>, k: nat)
    requires k < |s|
    requires forall j :: 0 <= j < k ==> s[j] != s[k]
    ensures Without(s, s[k]) == s[..k] + s[k + 1..]
  {
    if k > 0 {
      WithoutAt(s[1..], k - 1);
      assert s[..k] + s[k + 1..] == [s[0]] + (s[1..][..k - 1] + s[1..][k..]);
    }
  }

  /** A walk over `s` that has matched `s[..i]` as a subsequence of
      `a[..k]`, with `s[i..] == a[k..]` still to go, moves past an entry
      it keeps ... */
  lemma StepKept<T>(s: seq<T>, a: seq<T>, i: nat, k: nat, i': nat, k': nat)
    requires i < |s| && k <= |a| && i' == i + 1 && k' == k + 1
    requires s[i..] == a[k..] && SubSeq(s[..i], a[..k])
    ensures k < |a| && s[i'..] == a[k'..] && SubSeq(s[..i'], a[..k'])
  {
    assert s[i] == s[i..][0] == a[k..][0] == a[k];
    assert s[i + 1..] == s[i..][1..];
    assert a[k + 1..] == a[k..][1..];
    assert s[..i + 1] == s[..i] + [s[i]];
    assert a[..k + 1] == a[..k] + [a[k]];
    SubSeqExtend(s[..i], a[..k], a[k]);
  }

  /** ... and past an entry it takes out, whose first occurrence is at `i`. */
  lemma StepDropped<T>(s: seq<T>, a: seq<T>, i: nat, k: nat, k': nat)
    requires i < |s| && k <= |a| && k' == k + 1
    requires s[i..] == a[k..] && SubSeq(s[..i], a[..k])
    requires forall j :: 0 <= j < i ==> s[j] != s[i]
    ensures k < |a|
    ensures var r := Without(s, s[i]);
      i <= |r| && r[i..] == a[k'..] && SubSeq(r[..i], a[..k'])
  {
    assert s[i] == s[i..][0] == a[k..][0] == a[k];
    WithoutAt(s, i);
    var r := s[..i] + s[i + 1..];
    assert r[..i] == s[..i];
    assert r[i..] == s[i + 1..] == s[i..][1..];
    assert a[k + 1..] == a[k..][1..];
    assert a[..k + 1] == a[..k] + [a[k]];
    SubSeqExtend(s[..i], a[..k], a[k]);
  }

  /** A walk whose list is `done + s[k..]` is at `s[k]`, at index `|done|`;
      keeping it or taking it out leaves the rest of `s` to go. */
  lemma WalkAt<T>(done: seq<T>, s: seq<T>, k: nat)
    requires k < |s|
    ensures var w := done + s[k..];
      && w[|done|] == s[k]
      && w[..|done|] == done && w[|done| + 1..] == s[k + 1..]
      && w == (done + [s[k]]) + s[k + 1..]
  {
    assert s[k..] == [s[k]] + s[k + 1..];
  }

  /** Without on a distinct sequence takes out `x` and nothing else. */
  lemma WithoutKeepsDistinct<T>(s: seq<T>, x: T)
    requires Distinct(s)
    ensures Distinct(Without(s, x))
    ensures forall y :: y in Without(s, x) <==> y in s && y != x
  {
    if x in s {
      var k :| 0 <= k < |s| && s[k] == x;
      DistinctAt(s, k);
      WithoutAt(s, k);
      RemoveKeepsDistinct(s, k);
    }
  }

  /** Taking out the entry at `k` keeps the others distinct. */
  lemma RemoveKeepsDistinct<T>(s: seq<T>, k: nat)
    requires k < |s| && Distinct(s)
    ensures Distinct(s[..k] + s[k + 1..])
    ensures forall x :: x in s[..k] + s[k + 1..] <==> x in s && x != s[k]
  {
    var r := s[..k] + s[k + 1..];
    forall i, j | 0 <= i < |r| && 0 <= j < |r| && i != j
      ensures Apart(r, i, j)
    {
      var i' := if i < k then i else i + 1;
      var j' := if j < k then j else j + 1;
      assert r[i] == s[i'] && r[j] == s[j'];
      assert Apart(s, i', j');
    }
    DistinctAt(s, k);
    forall x | x in s && x != s[k]
      ensures x in r
    {
      var i :| 0 <= i < |s| && s[i] == x;
      if i < k {
        assert r[i] == x;
      } else {
        assert r[i - 1] == x;
      }
    }
  }

  /** `Max()` of a non-empty sequence. */
  function Max(s: seq<int>): (m: int)
    requires |s| > 0
    ensures m in s
    ensures forall x :: x in s ==> x <= m
  {
    if |s| == 1 then s[0]
    else
      var t := Max(s[1..]);
      assert forall x :: x in s ==> x == s[0] || x in s[1..];
      if s[0] >= t then s[0] else t
  }

  /** `First(x => x == v)`: the position of the first occurrence of `v`. */
  function FirstIndex(s: seq<int>, v: int): (k: nat)
    requires v in s
    ensures k < |s| && s[k] == v
    ensures forall j :: 0 <= j < k ==> s[j] != v
  {
    if s[0] == v then 0
    else
      assert v in s[1..];
      1 + FirstIndex(s[1..], v)
  }
}
