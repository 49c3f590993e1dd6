/** A text found inside a longer one. */
module Occurrence {

  ghost predicate Occurs<T>(s: seq<T>, i: nat, t: seq<T>) {
    i + |t| <= |s| && s[i..i + |t|] == t
  }

  lemma OccursConcat<T>(s: seq<T>, i: nat, a: seq<T>, b: seq<T>)
    requires Occurs(s, i, a + b)
    ensures Occurs(s, i, a) && Occurs(s, i + |a|, b) && i + |a| + |b| <= |s|
  {
    assert s[i..i + |a + b|][..|a|] == (a + b)[..|a|] == a;
    assert s[i..i + |a + b|][|a|..] == (a + b)[|a|..] == b;
  }

  lemma OccursAt<T>(s: seq<T>, i: nat, t: seq<T>, k: nat)
    requires Occurs(s, i, t) && k < |t|
    ensures i + |t| <= |s| && s[i + k] == t[k]
  {
    assert s[i..i + |t|][k] == t[k];
  }

  /** The input from i on is the beginning of something longer. */
  ghost predicate Begins<T>(s: seq<T>, i: nat, b: seq<T>) {
    i <= |s| < i + |b| && s[i..] == b[..|s| - i]
  }

  lemma BeginsConcat<T>(s: seq<T>, i: nat, a: seq<T>, b: seq<T>)
    requires Begins(s, i, a + b)
    ensures if |s| - i < |a| then Begins(s, i, a) else Occurs(s, i, a) && Begins(s, i + |a|, b)
  {
    var n := |s| - i;
    if n < |a| {
      assert (a + b)[..n] == a[..n];
    } else {
      assert (a + b)[..n][..|a|] == a && s[i..][..|a|] == s[i..i + |a|];
      assert (a + b)[..n][|a|..] == b[..n - |a|] && s[i..][|a|..] == s[i + |a|..];
    }
  }
}
