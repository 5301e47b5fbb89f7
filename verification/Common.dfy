// What several parts of the model share.

module Common {

  datatype Option<T> = None | Some(value: T)

  function Pow2(n: nat): nat {
    if n == 0 then 1 else 2 * Pow2(n - 1)
  }

  // A caller-supplied comparison function that orders keys or objects totally, up to
  // equivalence.
  ghost predicate Comparator<T(!new)>(cmp: (T, T) -> int) {
    && (forall a :: cmp(a, a) == 0)
    && (forall a, b {:trigger cmp(a, b)} :: cmp(a, b) < 0 <==> cmp(b, a) > 0)
    && (forall a, b, c {:trigger Transitive(cmp, a, b, c)} :: Transitive(cmp, a, b, c))
  }

  ghost predicate Transitive<T(!new)>(cmp: (T, T) -> int, a: T, b: T, c: T) {
    cmp(a, b) <= 0 && cmp(b, c) <= 0 ==> cmp(a, c) <= 0
  }
}
