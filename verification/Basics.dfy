/** What several of the models share. */
module Basics {

  datatype Option<T> = None | Some(value: T)

  type BadgeId = nat

  type User = nat

  lemma SuffixStep<T>(s: seq<T>, i: nat)
    requires i < |s|
    ensures |s[i..]| > 0 && s[i..][0] == s[i] && s[i..][1..] == s[i + 1..]
  {
  }

  lemma SubsetCardinality<T>(a: set<T>, b: set<T>)
    requires a <= b
    ensures |a| <= |b|
  {
    assert b == a + (b - a);
  }

  lemma OneLess<T>(s: multiset<T>, t: multiset<T>, x: T)
    requires s + multiset{x} == t + multiset{x}
    ensures s == t
  {
    assert s + multiset{x} - multiset{x} == s && t + multiset{x} - multiset{x} == t;
  }

  lemma Around<T>(s: seq<T>, x: T) returns (front: seq<T>, back: seq<T>)
    requires x in multiset(s)
    ensures s == front + ([x] + back) && multiset(s) == multiset(front + back) + multiset{x}
  {
    var k :| 0 <= k < |s| && s[k] == x;
    front, back := s[..k], s[k + 1..];
    assert s == front + ([x] + back);
  }
}
