/** Small facts about sequence and map concatenation that the proofs regroup by. */
module Collections {

  lemma Associative<T>(a: seq<T>, b: seq<T>, c: seq<T>)
    ensures (a + b) + c == a + (b + c)
  {
  }

  lemma UnionUpdate<K, V>(m: map<K, V>, s: map<K, V>, k: K, v: V)
    ensures (m + s)[k := v] == m + s[k := v]
  {
  }

  lemma EmptyUnion<K, V>(m: map<K, V>)
    ensures map[] + m == m
  {
  }

  /** `f` applied to every element of `s`, in order. */
  function Mapped<A, B>(f: A -> B, s: seq<A>): seq<B>
    decreases |s|
  {
    if s == [] then [] else Mapped(f, s[..|s| - 1]) + [f(s[|s| - 1])]
  }

  lemma {:induction false} MappedAt<A, B>(f: A -> B, s: seq<A>, i: nat)
    requires i < |s|
    ensures |Mapped(f, s)| == |s| && Mapped(f, s)[i] == f(s[i])
    decreases |s|
  {
    var init := s[..|s| - 1];
    MappedLength(f, init);
    if i < |init| {
      MappedAt(f, init, i);
      assert init[i] == s[i];
    }
  }

  lemma {:induction false} MappedLength<A, B>(f: A -> B, s: seq<A>)
    ensures |Mapped(f, s)| == |s|
    decreases |s|
  {
    if s != [] {
      MappedLength(f, s[..|s| - 1]);
    }
  }
}
