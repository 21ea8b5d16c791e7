/**
 * The staggered process assigner: a round-robin partition of the index
 * range [0, size) over NP processes, optionally repeated over several
 * contiguous blocks of that size.  Index t of a block belongs to the
 * process whose rank is t mod NP.
 */
module Assigner {
  import opened Arith

  /** Number of indices t in [0, n) with t mod np == rank, counted index by index as assign does. */
  function Counted(n: nat, np: nat, rank: nat): (c: nat)
    requires np > 0
    ensures c <= n
  {
    if n == 0 then 0 else Counted(n - 1, np, rank) + (if (n - 1) % np == rank then 1 else 0)
  }

  /** The number of values of one block owned by `rank`, in closed form. */
  function Owned(n: nat, np: nat, rank: nat): nat
    requires np > 0
  {
    if n <= rank then 0 else (n - 1 - rank) / np + 1
  }

  /** The set of indices in [0, n) that the staggered scheme gives to `rank`. */
  ghost function OwnedSet(n: nat, np: nat, rank: nat): set<nat>
    requires np > 0
  {
    set t: nat | t < n && t % np == rank
  }

  /** Sum of the per-rank counts over the ranks 0 .. k-1. */
  function CountOverRanks(n: nat, np: nat, k: nat): nat
    requires np > 0
  {
    if k == 0 then 0 else CountOverRanks(n, np, k - 1) + Owned(n, np, k - 1)
  }

  /** The rank that owns absolute index t when blocks of `blocksize` are staggered over np processes. */
  function OwnerOf(t: nat, blocksize: nat, np: nat): (r: nat)
    requires blocksize > 0 && np > 0
    ensures r < np
  {
    (t % blocksize) % np
  }

  /** The count is the size of the owned set: exactly the t in [0, n) with t mod np == rank. */
  lemma {:induction false} CountedIsCardinality(n: nat, np: nat, rank: nat)
    requires np > 0
    ensures Counted(n, np, rank) == |OwnedSet(n, np, rank)|
  {
    if n > 0 {
      CountedIsCardinality(n - 1, np, rank);
      var prev := OwnedSet(n - 1, np, rank);
      if (n - 1) % np == rank {
        assert OwnedSet(n, np, rank) == prev + {n - 1};
      } else {
        assert OwnedSet(n, np, rank) == prev;
      }
    }
  }

  /** The index-by-index count agrees with the closed form. */
  lemma {:induction false} CountedClosedForm(n: nat, np: nat, rank: nat)
    requires rank < np
    ensures Counted(n, np, rank) == Owned(n, np, rank)
  {
    if n == 0 {
    } else if n - 1 < rank {
      CountedClosedForm(n - 1, np, rank);
      CountedBelowRankStep(n, np, rank);
    } else if n - 1 == rank {
      CountedClosedForm(n - 1, np, rank);
      CountedAtRank(n, np, rank);
    } else {
      CountedClosedForm(n - 1, np, rank);
      CountedClosedFormStep(n, np, rank);
    }
  }

  lemma CountedBelowRankStep(n: nat, np: nat, rank: nat)
    requires rank < np && 0 < n <= rank && Counted(n - 1, np, rank) == 0
    ensures Counted(n, np, rank) == 0
  {
    DivModUnique(n - 1, np, 0, n - 1);
  }

  lemma CountedAtRank(n: nat, np: nat, rank: nat)
    requires rank < np && n == rank + 1 && Counted(n - 1, np, rank) == 0
    ensures Counted(n, np, rank) == (n - 1 - rank) / np + 1
  {
    DivModUnique(rank, np, 0, rank);
    DivModUnique(0, np, 0, 0);
  }

  lemma CountedClosedFormStep(n: nat, np: nat, rank: nat)
    requires rank < np && rank + 1 < n
    requires Counted(n - 1, np, rank) == (n - 2 - rank) / np + 1
    ensures Counted(n, np, rank) == (n - 1 - rank) / np + 1
  {
    var a: nat := n - 2 - rank;
    DivStep(a, np);
    ModShift(a + 1, rank, np);
    assert n - 1 == a + 1 + rank && n - 1 - rank == a + 1;
  }

  /** Relative index j is in range for `rank` exactly when rank + j * np is below n. */
  lemma OwnedIndexBound(n: nat, np: nat, rank: nat, j: nat)
    requires rank < np
    ensures j < Owned(n, np, rank) <==> rank + j * np < n
  {
    if n > rank {
      MulLeIffLeDiv(j, n - 1 - rank, np);
    }
  }

  /** Growing the range by index n-1 adds one to the count of its owner and to no other. */
  lemma OwnedStep(n: nat, np: nat, rank: nat)
    requires rank < np && n > 0
    ensures Owned(n, np, rank) == Owned(n - 1, np, rank) + (if (n - 1) % np == rank then 1 else 0)
  {
    CountedClosedForm(n, np, rank);
    CountedClosedForm(n - 1, np, rank);
  }

  /** Growing the range by index n-1 adds one to the total of the first k ranks exactly when its owner is below k. */
  lemma {:induction false} CountOverRanksStep(n: nat, np: nat, k: nat)
    requires n > 0 && k <= np && np > 0
    ensures CountOverRanks(n, np, k)
         == CountOverRanks(n - 1, np, k) + (if (n - 1) % np < k then 1 else 0)
  {
    if k > 0 {
      CountOverRanksStep(n, np, k - 1);
      OwnedStep(n, np, k - 1);
    }
  }

  /** The staggered assignment is a partition: the counts of all np ranks add up to n. */
  lemma {:induction false} StaggeredPartition(n: nat, np: nat)
    requires np > 0
    ensures CountOverRanks(n, np, np) == n
  {
    if n == 0 {
      CountOverRanksZero(np, np);
    } else {
      StaggeredPartition(n - 1, np);
      CountOverRanksStep(n, np, np);
    }
  }

  lemma {:induction false} CountOverRanksZero(np: nat, k: nat)
    requires np > 0
    ensures CountOverRanks(0, np, k) == 0
  {
    if k > 0 {
      CountOverRanksZero(np, k - 1);
    }
  }

  /** The staggered layout: relative index u lies in block u / vib at offset u mod vib, i.e. at rank + offset * np of that block. */
  function Staggered(u: nat, vib: nat, bs: nat, np: nat, rank: nat): nat
    requires vib > 0
  {
    (u / vib) * bs + rank + (u % vib) * np
  }

  /** The inverse layout: the block of t times vib, plus the position of t's offset among this rank's offsets. */
  function Unstaggered(t: nat, vib: nat, bs: nat, np: nat, rank: nat): nat
    requires bs > 0 && np > 0 && t % bs >= rank
  {
    (t / bs) * vib + (t % bs - rank) / np
  }

  /** The offset of a relative index within its block, and its position within the block. */
  lemma OffsetParts(off: nat, vib: nat, bs: nat, np: nat, rank: nat)
    requires rank < np && vib == Owned(bs, np, rank) && off < vib
    ensures rank + off * np < bs
    ensures (rank + off * np) % np == rank && (rank + off * np) / np == off
  {
    OwnedIndexBound(bs, np, rank, off);
    DivModUnique(rank + off * np, np, off, rank);
  }

  lemma AbsoluteInRange(u: nat, vib: nat, blocks: nat, bs: nat, np: nat, rank: nat)
    requires rank < np && vib == Owned(bs, np, rank) && u < blocks * vib
    ensures vib > 0 && bs > 0
    ensures Staggered(u, vib, bs, np, rank) < blocks * bs
    ensures Staggered(u, vib, bs, np, rank) / bs == u / vib
    ensures Staggered(u, vib, bs, np, rank) % bs == rank + (u % vib) * np
    ensures OwnerOf(Staggered(u, vib, bs, np, rank), bs, np) == rank
  {
    assert vib > 0;
    var b := u / vib;
    var off := u % vib;
    var p := rank + off * np;
    DivBelow(u, vib, blocks);
    OffsetParts(off, vib, bs, np, rank);
    BlockBound(b, bs, p, blocks);
    DivModUnique(b * bs + p, bs, b, p);
  }

  /** The position of an owned offset among this rank's offsets is below the per-block count. */
  lemma PositionBelow(off: nat, vib: nat, bs: nat, np: nat, rank: nat)
    requires rank < np && vib == Owned(bs, np, rank) && off < bs && off % np == rank
    ensures off >= rank && (off - rank) / np < vib
  {
    SubRemDiv(off, np, rank);
    var j := off / np;
    assert rank + j * np < bs;
    OwnedIndexBound(bs, np, rank, j);
  }

  lemma RelativeInRange(t: nat, vib: nat, blocks: nat, bs: nat, np: nat, rank: nat)
    requires rank < np && vib == Owned(bs, np, rank) && bs > 0 && t < blocks * bs
    requires OwnerOf(t, bs, np) == rank
    ensures t % bs >= rank && (t % bs - rank) / np < vib
    ensures Unstaggered(t, vib, bs, np, rank) < blocks * vib
  {
    var b := t / bs;
    var off := t % bs;
    DivBelow(t, bs, blocks);
    PositionBelow(off, vib, bs, np, rank);
    var j := (off - rank) / np;
    BlockBound(b, vib, j, blocks);
    assert Unstaggered(t, vib, bs, np, rank) == b * vib + j;
  }

  lemma StaggeredRoundTrip(u: nat, vib: nat, blocks: nat, bs: nat, np: nat, rank: nat)
    requires rank < np && vib == Owned(bs, np, rank) && u < blocks * vib
    ensures vib > 0 && bs > 0
    ensures Staggered(u, vib, bs, np, rank) % bs >= rank
    ensures Unstaggered(Staggered(u, vib, bs, np, rank), vib, bs, np, rank) == u
  {
    AbsoluteInRange(u, vib, blocks, bs, np, rank);
    OffsetParts(u % vib, vib, bs, np, rank);
    var p := rank + (u % vib) * np;
    assert (p - rank) / np == u % vib by {
      SubRemDiv(p, np, rank);
    }
  }

  lemma UnstaggeredRoundTrip(t: nat, vib: nat, bs: nat, np: nat, rank: nat)
    requires vib > 0 && bs > 0 && np > 0 && OwnerOf(t, bs, np) == rank
    requires t % bs >= rank && (t % bs - rank) / np < vib
    ensures Staggered(Unstaggered(t, vib, bs, np, rank), vib, bs, np, rank) == t
  {
    Reassemble(t, bs, np, rank);
    StaggeredOf(Unstaggered(t, vib, bs, np, rank), vib, bs, np, rank, t / bs, (t % bs - rank) / np);
  }

  lemma Reassemble(t: nat, bs: nat, np: nat, rank: nat)
    requires bs > 0 && np > 0 && (t % bs) % np == rank
    ensures t % bs >= rank
    ensures (t / bs) * bs + rank + ((t % bs - rank) / np) * np == t
  {
    SubRemDiv(t % bs, np, rank);
  }

  /**
   * With two processes, blocks of three indices and two blocks, rank 0 owns offsets 0 and 2 of each
   * block; its relative index 2 lands on absolute index 3, the first offset of the second block.
   * This layout names rank 0 as the owner of index 3, where `t mod NP` would name rank 1.
   */
  lemma DocumentedOwnerDisagrees()
    ensures Owned(3, 2, 0) == 2 && Staggered(2, 2, 3, 2, 0) == 3
    ensures OwnerOf(3, 3, 2) == 0 && 3 % 2 == 1
  {
  }

  lemma StaggeredOf(u: nat, vib: nat, bs: nat, np: nat, rank: nat, b: nat, j: nat)
    requires vib > 0 && u == b * vib + j && j < vib
    ensures Staggered(u, vib, bs, np, rank) == b * bs + rank + j * np
  {
    DivModUnique(u, vib, b, j);
  }

  /**
   * The assigner of one process.  `np` and `rank` come from the communicator
   * and are fixed for the run; `assign` records the block size, the number of
   * values of one block owned by this process, the block count and the total
   * number of values owned by this process.
   */
  class StaggeredAssigner {
    const np: nat
    const rank: nat
    var nvalues: nat
    var blocksize: nat
    var valuesInBlock: nat
    var blocks: nat

    ghost predicate Valid()
      reads this
    {
      && 0 < np && rank < np
      && valuesInBlock == Owned(blocksize, np, rank)
      && nvalues == blocks * valuesInBlock
    }

    constructor (np: nat, rank: nat)
      requires rank < np
      ensures Valid() && this.np == np && this.rank == rank
      ensures nvalues == 0 && blocksize == 0 && valuesInBlock == 0 && blocks == 0
    {
      this.np := np;
      this.rank := rank;
      nvalues, blocksize, valuesInBlock, blocks := 0, 0, 0, 0;
    }

    /** Counts the indices t in [0, size) with t mod np == rank, and repeats that for every block. */
    method Assign(size: nat, blocks: nat := 1)
      requires Valid()
      modifies this
      ensures Valid()
      ensures blocksize == size && this.blocks == blocks
      ensures valuesInBlock == |OwnedSet(size, np, rank)|
      ensures nvalues == blocks * |OwnedSet(size, np, rank)|
    {
      var count: nat := 0;
      var t: nat := 0;
      while t < size
        invariant t <= size
        invariant count == Counted(t, np, rank)
      {
        if t % np == rank {
          count := count + 1;
        }
        t := t + 1;
      }
      blocksize := size;
      valuesInBlock := count;
      this.blocks := blocks;
      nvalues := blocks * count;
      CountedClosedForm(size, np, rank);
      CountedIsCardinality(size, np, rank);
    }

    /** The total number of indices of all blocks. */
    function Total(): nat
      reads this
    {
      blocks * blocksize
    }

    /** Translates a relative index of this process into the absolute index shared by all processes. */
    function AbsoluteIndex(u: nat): (t: nat)
      reads this
      requires Valid() && u < nvalues
      ensures t < Total()
      ensures blocksize > 0 && OwnerOf(t, blocksize, np) == rank
    {
      AbsoluteInRange(u, valuesInBlock, blocks, blocksize, np, rank);
      Staggered(u, valuesInBlock, blocksize, np, rank)
    }

    /** Translates an absolute index owned by this process back into its relative index. */
    function RelativeIndex(t: nat): (u: nat)
      reads this
      requires Valid() && t < Total() && blocksize > 0 && OwnerOf(t, blocksize, np) == rank
      ensures u < nvalues
    {
      RelativeInRange(t, valuesInBlock, blocks, blocksize, np, rank);
      Unstaggered(t, valuesInBlock, blocksize, np, rank)
    }

    /** The rank of the process that owns absolute index t; it does not depend on this process's rank. */
    function RankForIndex(t: nat): (r: nat)
      reads this
      requires Valid() && blocksize > 0
      ensures r < np
    {
      OwnerOf(t, blocksize, np)
    }

    /** Different processes get different work. */
    function Parallel(): (b: bool)
      ensures b
    {
      true
    }
  }

  /** Relative to absolute and back is the identity, and the absolute index is owned by this process. */
  lemma RelativeAbsoluteRoundTrip(a: StaggeredAssigner, u: nat)
    requires a.Valid() && u < a.nvalues
    ensures a.blocksize > 0
    ensures a.RankForIndex(a.AbsoluteIndex(u)) == a.rank
    ensures a.RelativeIndex(a.AbsoluteIndex(u)) == u
  {
    StaggeredRoundTrip(u, a.valuesInBlock, a.blocks, a.blocksize, a.np, a.rank);
  }

  /** Absolute to relative and back is the identity on the indices this process owns. */
  lemma AbsoluteRelativeRoundTrip(a: StaggeredAssigner, t: nat)
    requires a.Valid() && t < a.Total() && a.blocksize > 0 && a.RankForIndex(t) == a.rank
    ensures a.AbsoluteIndex(a.RelativeIndex(t)) == t
  {
    RelativeInRange(t, a.valuesInBlock, a.blocks, a.blocksize, a.np, a.rank);
    UnstaggeredRoundTrip(t, a.valuesInBlock, a.blocksize, a.np, a.rank);
  }

  /** Distinct relative indices name distinct absolute indices. */
  lemma AbsoluteIndexInjective(a: StaggeredAssigner, u: nat, v: nat)
    requires a.Valid() && u < a.nvalues && v < a.nvalues && u != v
    ensures a.AbsoluteIndex(u) != a.AbsoluteIndex(v)
  {
    RelativeAbsoluteRoundTrip(a, u);
    RelativeAbsoluteRoundTrip(a, v);
  }

  /** With one block the index translations are the documented closed formulas. */
  lemma SingleBlockFormulas(a: StaggeredAssigner, u: nat, t: nat)
    requires a.Valid() && a.blocks == 1
    ensures a.nvalues == |OwnedSet(a.blocksize, a.np, a.rank)|
    ensures u < a.nvalues ==> a.AbsoluteIndex(u) == a.rank + u * a.np && a.AbsoluteIndex(u) < a.blocksize
    ensures t < a.blocksize ==> a.RankForIndex(t) == t % a.np
    ensures t < a.blocksize && t % a.np == a.rank ==> a.RelativeIndex(t) == (t - a.rank) / a.np
  {
    CountedClosedForm(a.blocksize, a.np, a.rank);
    CountedIsCardinality(a.blocksize, a.np, a.rank);
    if u < a.nvalues {
      DivModUnique(u, a.valuesInBlock, 0, u);
    }
    if t < a.blocksize {
      DivModUnique(t, a.blocksize, 0, t);
    }
  }

  /** Whichever process asks, every absolute index has one owner, and that owner's translation reaches it. */
  lemma OwnerReachesIndex(a: StaggeredAssigner, t: nat)
    requires a.Valid() && t < a.Total() && a.blocksize > 0 && a.RankForIndex(t) == a.rank
    ensures exists u: nat :: u < a.nvalues && a.AbsoluteIndex(u) == t
  {
    AbsoluteRelativeRoundTrip(a, t);
    var u := a.RelativeIndex(t);
    assert a.AbsoluteIndex(u) == t;
  }
}
