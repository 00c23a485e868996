/** Facts about sequences that proofs state once, away from everything else in scope. */
module Seqs {
  lemma Assoc<T>(a: seq<T>, b: seq<T>, c: seq<T>)
    ensures (a + b) + c == a + (b + c)
  {
  }

  lemma DropAppend<T>(a: seq<T>, b: seq<T>, n: nat)
    requires n <= |a|
    ensures (a + b)[n..] == a[n..] + b
  {
  }

  lemma TakeAppend<T>(a: seq<T>, b: seq<T>)
    ensures (a + b)[..|a|] == a && (a + b)[|a|..] == b
  {
  }

  lemma Cut<T>(s: seq<T>, n: nat)
    requires n <= |s|
    ensures s == s[..n] + s[n..]
  {
  }

  lemma TakeOneMore<T>(s: seq<T>, n: nat)
    requires n < |s|
    ensures s[..n + 1] == s[..n] + [s[n]] && s[..n + 1][..n] == s[..n]
  {
  }

  lemma TakeMore<T>(s: seq<T>, n: nat, m: nat)
    requires n <= m <= |s|
    ensures s[..n] + s[n..m] == s[..m]
  {
  }

  lemma NotAPrefix<T>(a: seq<T>, b: seq<T>)
    requires |a| <= |b| && a != b[..|a|]
    ensures !(a <= b)
  {
  }

  lemma Whole<T>(s: seq<T>)
    ensures s[..|s|] == s && s[0..] == s && s + [] == s && [] + s == s
  {
  }

  lemma HeadTail<T>(s: seq<T>)
    requires s != []
    ensures s == [s[0]] + s[1..]
  {
  }

  lemma SliceOfDrop<T>(s: seq<T>, m: nat, n: nat)
    requires m + n <= |s|
    ensures s[m..][n..] == s[m + n..] && s[..m] + s[m..][..n] == s[..m + n]
  {
  }
}
