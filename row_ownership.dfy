/** Row-cyclic ownership of matrix rows by the ranks of a process group.
    Every rank stores the whole system; the owner of a row is the only rank
    that computes with it or writes it. */
module RowOwnership {

  /** The rank that owns row i when size ranks take part: i mod size. */
  function Owner(i: nat, size: nat): (r: nat)
    requires size >= 1
    ensures r < size
  {
    i % size
  }

  /** The ownership test each rank applies to a row index. */
  predicate IsOwner(i: nat, size: nat, rank: nat): (owns: bool)
    requires size >= 1
    ensures owns <==> rank == Owner(i, size)
    ensures owns ==> rank < size
  {
    i % size == rank
  }

  /** Every row has exactly one owner, and that owner is a rank of the group. */
  lemma OwnershipIsTotal(i: nat, size: nat)
    requires size >= 1
    ensures Owner(i, size) < size && IsOwner(i, size, Owner(i, size))
    ensures forall rank: nat :: IsOwner(i, size, rank) ==> rank == Owner(i, size)
  {
  }
}
