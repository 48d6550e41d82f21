/** Facts about sequences that several modules use. */
module Sequences {
  lemma Assoc<T>(a: seq<T>, b: seq<T>, c: seq<T>)
    ensures a + (b + c) == (a + b) + c
  {
  }

  lemma Regroup<T>(s: seq<T>, more: seq<T>)
    requires s != []
    ensures [s[0]] + (s[1..] + more) == s + more
  {
  }

  /** Two sums agree part by part if no part of the first is longer than its fellow. */
  lemma PartsAgree<T>(a: seq<T>, b: seq<T>, c: seq<T>, d: seq<T>)
    requires |a| <= |c| && |b| <= |d|
    ensures a + b == c + d <==> a == c && b == d
  {
    if a + b == c + d {
      assert |a| == |c|;
      assert a == (a + b)[..|a|] && c == (c + d)[..|c|];
      assert b == (a + b)[|a|..] && d == (c + d)[|c|..];
    }
  }

  lemma SumFrom<T>(a: seq<T>, b: seq<T>, n: nat)
    requires n <= |a|
    ensures (a + b)[..n] == a[..n] && (a + b)[n..] == a[n..] + b
  {
  }

  lemma DropTwice<T>(s: seq<T>, m: nat, n: nat)
    requires m + n <= |s|
    ensures s[m..][n..] == s[m + n..]
  {
  }

  lemma HeadOfRest<T>(s: seq<T>, n: nat, x: T, more: seq<T>)
    requires n <= |s| && s[n..] == [x] + more
    ensures n < |s| && s[n] == x && s[n + 1..] == more
  {
    assert |s| - n == 1 + |more|;
    assert s[n] == s[n..][0] && s[n + 1..] == s[n..][1..];
  }
}
