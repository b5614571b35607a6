/** Small value types and sequence helpers shared by the cast model. */
module Basics {

  datatype Option<+T> = None | Some(value: T)

  /** Index of the first occurrence of `x` in `s`, or `|s|` when `x` does not
      occur (the position `std::find` stops at). */
  function IndexOf<T(==)>(s: seq<T>, x: T): (k: nat)
    ensures k <= |s|
    ensures k < |s| ==> s[k] == x
    ensures x !in s[..k]
    ensures k == |s| <==> x !in s
  {
    if |s| == 0 then 0
    else if s[0] == x then 0
    else
      var k := 1 + IndexOf(s[1..], x);
      assert s[..k] == [s[0]] + s[1..][..k - 1];
      k
  }

  /** Erase the first occurrence of `x` (`std::find` followed by `erase`);
      a sequence without `x` is returned unchanged. */
  function RemoveFirst<T(==)>(s: seq<T>, x: T): (r: seq<T>)
    ensures |r| <= |s|
  {
    var k := IndexOf(s, x);
    if k == |s| then s else s[..k] + s[k + 1..]
  }

  /** Exactly one occurrence of `x` goes, when there is one. */
  lemma {:induction false} RemoveFirstCount<T>(s: seq<T>, x: T)
    ensures x !in s ==> RemoveFirst(s, x) == s
    ensures x in s ==> |RemoveFirst(s, x)| == |s| - 1
    ensures multiset(RemoveFirst(s, x)) == multiset(s) - multiset{x}
  {
    var k := IndexOf(s, x);
    if k < |s| {
      assert s == s[..k] + [x] + s[k + 1..];
    }
  }

  /** Appending is associative; used to regroup an effects log that grew in
      several steps. */
  lemma {:induction false} AppendAssoc<T>(a: seq<T>, b: seq<T>, c: seq<T>)
    ensures a + b + c == a + (b + c)
  {
  }

  /** Removing the first occurrence keeps the order of everything else: the
      result is `s` with exactly the element at `IndexOf(s, x)` left out. */
  lemma {:induction false} RemoveFirstAt<T>(s: seq<T>, x: T)
    requires x in s
    ensures var k := IndexOf(s, x);
      forall i :: 0 <= i < |s| - 1 ==> RemoveFirst(s, x)[i] == (if i < k then s[i] else s[i + 1])
  {
  }

  /** Erasing the element at `k` shifts everything after it down by one. */
  lemma {:induction false} EraseIndex<T>(s: seq<T>, k: nat)
    requires k < |s|
    ensures |s[..k] + s[k + 1..]| == |s| - 1
    ensures forall i :: 0 <= i < |s| - 1 ==> (s[..k] + s[k + 1..])[i] == (if i < k then s[i] else s[i + 1])
  {
    var front, back := s[..k], s[k + 1..];
    forall i | 0 <= i < |s| - 1
      ensures (front + back)[i] == (if i < k then s[i] else s[i + 1])
    {
      if i < k {
        assert (front + back)[i] == front[i];
      } else {
        assert (front + back)[i] == back[i - k];
      }
    }
  }

  predicate IsLeast(m: nat, xs: set<nat>) {
    m in xs && forall x :: x in xs ==> m <= x
  }

  /** The smallest element of a non-empty finite set of naturals. */
  ghost function Least(xs: set<nat>): (m: nat)
    requires xs != {}
    ensures m in xs
    ensures forall x :: x in xs ==> m <= x
  {
    LeastExists(xs);
    var m :| IsLeast(m, xs);
    m
  }

  lemma {:induction false} LeastExists(xs: set<nat>)
    requires xs != {}
    ensures exists m :: IsLeast(m, xs)
  {
    var y :| y in xs;
    if xs == {y} {
      assert IsLeast(y, xs);
    } else {
      LeastExists(xs - {y});
      var m :| IsLeast(m, xs - {y});
      var least := if y < m then y else m;
      forall x | x in xs
        ensures least <= x
      {
        if x != y {
          assert x in xs - {y};
        }
      }
      assert IsLeast(least, xs);
    }
  }

  /** A set has one least element. */
  lemma {:induction false} LeastIs(m: nat, xs: set<nat>)
    requires IsLeast(m, xs)
    ensures Least(xs) == m
  {
    var l := Least(xs);
    assert l <= m && m <= l;
  }
}
