/** Functions that proofs look into only where a lemma says so. `Folded(f)` equals `f` everywhere, but the
    verifier learns so at a point only where `Unfold` is called; what is defined by it stays one small term
    in all other proofs. */
module Folding {

  /** Mentioning it unfolds `Folded(f)` at `a`. */
  predicate Unfolded<A(!new), B>(f: A -> B, a: A) {
    true
  }

  ghost function Folded<A(!new), B>(f: A -> B): A -> B {
    assert forall a :: Unfolded(f, a) ==> f(a) == f(a);
    var g: A -> B :| forall a {:trigger Unfolded(f, a)} :: Unfolded(f, a) ==> g(a) == f(a);
    g
  }

  lemma Unfold<A(!new), B>(f: A -> B, a: A)
    ensures Folded(f)(a) == f(a)
  {
    assert Unfolded(f, a);
  }

  /** The same for functions of two arguments. */
  predicate Unfolded2<A(!new), B(!new), C>(f: (A, B) -> C, a: A, b: B) {
    true
  }

  ghost function Folded2<A(!new), B(!new), C>(f: (A, B) -> C): (A, B) -> C {
    assert forall a, b :: Unfolded2(f, a, b) ==> f(a, b) == f(a, b);
    var g: (A, B) -> C :| forall a, b {:trigger Unfolded2(f, a, b)} :: Unfolded2(f, a, b) ==> g(a, b) == f(a, b);
    g
  }

  lemma Unfold2<A(!new), B(!new), C>(f: (A, B) -> C, a: A, b: B)
    ensures Folded2(f)(a, b) == f(a, b)
  {
    assert Unfolded2(f, a, b);
  }
}
