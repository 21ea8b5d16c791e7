/**
 * The dust library with one entry per dust cell: each cell of this process is its own library
 * entry, so every cell's spectrum is computed from its own radiation field.
 */
module AllCellsDustLib {
  import opened Vectors
  import opened Assigner
  import opened DustLibrary

  /** The number of library entries: one per cell assigned to this process. */
  function Entries(lib: DustLib): (n: nat)
    reads lib, lib.cellAssigner
    requires lib.cellAssigner.Valid()
    ensures n == lib.cellAssigner.blocks * Owned(lib.cellAssigner.blocksize, lib.cellAssigner.np, lib.cellAssigner.rank)
  {
    lib.cellAssigner.nvalues
  }

  /** Every relative cell index maps to the identical library index. */
  ghost predicate Identity(nv: seq<int>)
  {
    forall m :: 0 <= m < |nv| ==> nv[m] == m
  }

  /**
   * The mapping from each relative cell index to the identical library index: every value is a valid
   * entry, never the -1 of a cell without emission, and no two cells share an entry.
   */
  method Mapping(a: StaggeredAssigner) returns (nv: seq<int>)
    ensures |nv| == a.nvalues && Identity(nv)
    ensures forall m :: 0 <= m < |nv| ==> 0 <= nv[m] < a.nvalues
    ensures forall m1, m2 :: 0 <= m1 < |nv| && 0 <= m2 < |nv| && nv[m1] == nv[m2] ==> m1 == m2
  {
    var arr := new int[a.nvalues];
    for m := 0 to a.nvalues
      invariant forall k :: 0 <= k < m ==> arr[k] == k
    {
      arr[m] := m;
    }
    nv := arr[..];
  }

  /** Under the identity mapping, entry n lists exactly the cell with relative index n. */
  lemma {:induction false} IdentityValues(nv: seq<int>, a: StaggeredAssigner, k: nat, n: nat)
    requires a.Valid() && k <= |nv| <= a.nvalues && Identity(nv)
    ensures Values(Inverted(nv, a, k), n) == if n < k then [a.AbsoluteIndex(n)] else []
  {
    if k > 0 {
      var prev := Inverted(nv, a, k - 1);
      var mh := Inverted(nv, a, k);
      assert mh == prev + [Pair(k - 1, a.AbsoluteIndex(k - 1))];
      assert mh[..|mh| - 1] == prev;
      IdentityValues(nv, a, k - 1, n);
    }
  }

  /** Calculates the library with one entry per cell. */
  method CalculateAllCells(lib: DustLib)
    requires lib.Valid()
    modifies lib, lib.table
    ensures lib.Valid() && lib.Calculated(Entries(lib))
    ensures |lib.nv| == lib.cellAssigner.nvalues && Identity(lib.nv)
  {
    var nlib := lib.cellAssigner.nvalues;
    var nv := Mapping(lib.cellAssigner);
    lib.Calculate(nlib, nv);
  }

  /**
   * After calculating with the identity mapping, the spectrum of each cell of this process is the
   * normalised spectrum of the dust mixes in that cell's own radiation field.
   */
  lemma OwnFieldLuminosity(lib: DustLib, r: nat, ell: nat)
    requires lib.Valid() && lib.Calculated(Entries(lib))
    requires |lib.nv| == lib.cellAssigner.nvalues && Identity(lib.nv)
    requires r < |lib.nv| && ell < lib.ph.nlambda
    ensures var x := lib.cellAssigner.AbsoluteIndex(r);
      lib.Luminosity(x, ell)
        == CellRow(lib.ph, Emissivities(lib.ph, lib.ph.meanIntensity(x)), x, Zeros(lib.ph.nlambda))[ell]
  {
    var a := lib.cellAssigner;
    var x := a.AbsoluteIndex(r);
    var mh := Inverted(lib.nv, a, |lib.nv|);
    MappedCellLuminosity(lib, Entries(lib), r, ell);
    IdentityValues(lib.nv, a, |lib.nv|, r);
    MeanOfUniformField(lib.ph, [x], lib.ph.meanIntensity(x));
  }
}
