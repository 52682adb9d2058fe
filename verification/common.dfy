// What several components share.
module Common {
  datatype Option<T> = None | Some(value: T)

  function Min(a: nat, b: nat): nat {
    if a < b then a else b
  }

  // ---------------------------------------------------------------------------------------
  // Endless runs.

  /** The states of an endless run, and the steps between them. */
  ghost predicate Follows<S(!new), L(!new)>(trace: nat -> S, labels: nat -> L, moves: (S, L, S) -> bool) {
    forall k: nat :: moves(trace(k), labels(k), trace(k + 1))
  }

  ghost predicate HappensAt(happens: nat -> bool, n: nat, m: nat) {
    m >= n && happens(m)
  }

  ghost predicate HappensAgain(happens: nat -> bool, n: nat) {
    exists m: nat :: HappensAt(happens, n, m)
  }

  /** It happens again and again, for ever. */
  ghost predicate Recurs(happens: nat -> bool) {
    forall n: nat :: HappensAgain(happens, n)
  }

  lemma NextTime(happens: nat -> bool, n: nat) returns (m: nat)
    requires Recurs(happens)
    ensures m >= n && happens(m)
  {
    assert HappensAgain(happens, n);
    m :| HappensAt(happens, n, m);
  }
}
