// Facts about concatenation that several modules need in this exact form.
module Sequences {

  lemma TailOfConcat<T>(a: seq<T>, b: seq<T>)
    requires a != []
    ensures (a + b)[0] == a[0] && (a + b)[1..] == a[1..] + b
  {
  }

  lemma ConcatAssociates<T>(a: seq<T>, b: seq<T>, c: seq<T>)
    ensures (a + b) + c == a + (b + c)
  {
  }

  // Taking the head and then m - 1 more is taking m.
  lemma HeadThenTake<T>(done: seq<T>, rest: seq<T>, m: nat)
    requires 1 <= m <= |rest|
    ensures (done + [rest[0]]) + rest[1..][..m - 1] == done + rest[..m]
    ensures rest[1..][m - 1..] == rest[m..]
  {
  }
}
