// Facts about sequences that the structural recursions over strings and lists share.

module SeqFacts {

  /** `p` followed by `q` and then `b` is `p` followed by `q`, then `b`: the step of every concatenation lemma. */
  lemma AppendChain<T>(x: seq<T>, a: seq<T>, b: seq<T>, p: seq<T>, q: seq<T>)
    requires x == p + (q + b) && a == p + q
    ensures x == a + b
  {
    assert p + (q + b) == (p + q) + b;
  }
}
