/**
 * The output table of the emission calculation: a 2-D table indexed on
 * (cell, wavelength).  On one process the whole table is local, so `Sync`
 * has nothing to exchange and leaves the table as it is.
 */
module Tables {
  import opened Vectors

  /** A table of `nrows` rows of `ncols` reals each, all zero. */
  function ZeroRows(nrows: nat, ncols: nat): (rows: seq<Vec>)
    ensures |rows| == nrows && forall m :: 0 <= m < nrows ==> rows[m] == Zeros(ncols)
  {
    seq(nrows, m => Zeros(ncols))
  }

  class Table {
    var initialized: bool
    var nrows: nat
    var ncols: nat
    var rows: seq<Vec>

    ghost predicate Shaped()
      reads this
    {
      |rows| == nrows && forall m :: 0 <= m < nrows ==> |rows[m]| == ncols
    }

    constructor ()
      ensures !initialized && nrows == 0 && ncols == 0 && rows == []
    {
      initialized, nrows, ncols, rows := false, 0, 0, [];
    }

    /** Allocates the storage for nrows x ncols values, all zero. */
    method Initialize(nrows: nat, ncols: nat)
      modifies this
      ensures initialized && this.nrows == nrows && this.ncols == ncols
      ensures rows == ZeroRows(nrows, ncols) && Shaped()
    {
      initialized := true;
      this.nrows, this.ncols := nrows, ncols;
      rows := ZeroRows(nrows, ncols);
    }

    /** Zeroes every value and keeps the shape. */
    method Clear()
      requires initialized
      modifies this
      ensures initialized && nrows == old(nrows) && ncols == old(ncols)
      ensures rows == ZeroRows(nrows, ncols) && Shaped()
    {
      rows := ZeroRows(nrows, ncols);
    }

    /** Replaces row m; every other row keeps its values. */
    method SetRow(m: nat, v: Vec)
      requires Shaped() && m < nrows && |v| == ncols
      modifies this
      ensures Shaped() && initialized == old(initialized) && nrows == old(nrows) && ncols == old(ncols)
      ensures rows == old(rows)[m := v]
    {
      rows := rows[m := v];
    }

    /** Reconciles the partitions of all processes; with a single process there is nothing to do. */
    method Sync()
      modifies this
      ensures unchanged(this)
    {
    }
  }
}
