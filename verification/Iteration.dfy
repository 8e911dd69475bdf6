/** Iterating a function, and what an iterated homomorphism preserves. */
module Iteration {

  function Iterate<T>(f: T -> T, x: T, k: nat): T
    decreases k
  {
    if k == 0 then x else Iterate(f, f(x), k - 1)
  }

  lemma {:induction false} IterateSum<T>(f: T -> T, x: T, j: nat, k: nat)
    ensures Iterate(f, x, j + k) == Iterate(f, Iterate(f, x, j), k)
    decreases j
  {
    if j > 0 {
      IterateSum(f, f(x), j - 1, k);
    }
  }

  lemma {:induction false} IterateHomomorphism<T(!new)>(f: T -> T, op: (T, T) -> T, a: T, b: T, k: nat)
    requires forall x, y :: f(op(x, y)) == op(f(x), f(y))
    ensures Iterate(f, op(a, b), k) == op(Iterate(f, a, k), Iterate(f, b, k))
    decreases k
  {
    if k > 0 {
      IterateHomomorphism(f, op, f(a), f(b), k - 1);
    }
  }

  /** A function that both preserves and reflects a relation does so when iterated. */
  lemma {:induction false} IterateReflects<T(!new)>(f: T -> T, same: (T, T) -> bool, a: T, b: T, k: nat)
    requires forall x, y :: same(f(x), f(y)) <==> same(x, y)
    ensures same(Iterate(f, a, k), Iterate(f, b, k)) <==> same(a, b)
    decreases k
  {
    if k > 0 {
      IterateReflects(f, same, f(a), f(b), k - 1);
    }
  }

  lemma {:induction false} IterateInvariant<T(!new), V>(f: T -> T, view: T -> V, a: T, k: nat)
    requires forall x :: view(f(x)) == view(x)
    ensures view(Iterate(f, a, k)) == view(a)
    decreases k
  {
    if k > 0 {
      IterateInvariant(f, view, f(a), k - 1);
    }
  }
}
