/**
 * The dust emission library.  A mapping policy assigns each cell of this
 * process a library entry (or -1 for "no emission"); the library inverts that
 * mapping into an entry -> absolute-cell multimap, computes one averaged
 * radiation field and one set of emissivities per entry, and writes the
 * normalised emission spectrum of every mapped cell into the output table.
 */
module DustLibrary {
  import opened Vectors
  import opened Tables
  import opened Assigner

  /**
   * The collaborators the emission calculation reads: the number of
   * wavelength bins and of dust components, the mean intensity of the
   * radiation field in a cell, the density of a dust component in a cell,
   * the emissivity of a component's dust mix in a given radiation field, and
   * the wavelength bin widths.  Cells are named by absolute index.
   */
  datatype Physics = Physics(
    nlambda: nat,
    ncomp: nat,
    meanIntensity: nat -> Vec,
    density: (nat, nat) -> real,
    emissivity: (nat, Vec) -> Vec,
    dlambda: Vec)

  /** Every vector the collaborators hand out has one value per wavelength bin. */
  ghost predicate WellFormed(ph: Physics)
  {
    && |ph.dlambda| == ph.nlambda
    && (forall m: nat :: |ph.meanIntensity(m)| == ph.nlambda)
    && (forall h: nat, J: Vec :: |J| == ph.nlambda ==> |ph.emissivity(h, J)| == ph.nlambda)
  }

  // ---------------------------------------------------------------------------
  // The inverse mapping: a multimap from library entry to absolute cell index

  /** One (library entry, absolute cell index) element of the multimap. */
  datatype Pair = Pair(key: nat, value: nat)

  /**
   * The elements inserted for the relative cells 0 .. k-1, in insertion order:
   * cell mRel contributes (nv[mRel], absoluteIndex(mRel)) unless nv[mRel] is negative.
   */
  function Inverted(nv: seq<int>, a: StaggeredAssigner, k: nat): (mh: seq<Pair>)
    reads a
    requires a.Valid() && k <= |nv| <= a.nvalues
    ensures |mh| <= k
  {
    if k == 0 then []
    else Inverted(nv, a, k - 1)
         + (if nv[k - 1] >= 0 then [Pair(nv[k - 1], a.AbsoluteIndex(k - 1))] else [])
  }

  /** No absolute cell index occurs twice in the multimap. */
  ghost predicate DistinctValues(mh: seq<Pair>)
  {
    forall i, j :: 0 <= i < j < |mh| ==> mh[i].value != mh[j].value
  }

  /** The values stored under key n, most recently inserted first, as a hash multimap lists them. */
  function Values(mh: seq<Pair>, n: nat): (mv: seq<nat>)
    ensures |mv| <= |mh|
  {
    if mh == [] then []
    else
      var last := mh[|mh| - 1];
      (if last.key == n then [last.value] else []) + Values(mh[..|mh| - 1], n)
  }

  /** A cell is listed under key n exactly when the multimap holds (n, cell). */
  lemma {:induction false} ValuesContents(mh: seq<Pair>, n: nat, m: nat)
    ensures m in Values(mh, n) <==> Pair(n, m) in mh
  {
    if mh != [] {
      var prefix := mh[..|mh| - 1];
      assert mh == prefix + [mh[|mh| - 1]];
      ValuesContents(prefix, n, m);
    }
  }

  /** The library entry a cell is stored under, or -1 when the multimap does not hold the cell. */
  function EntryOf(mh: seq<Pair>, m: nat): (e: int)
    ensures e >= -1
  {
    if mh == [] then -1
    else if mh[|mh| - 1].value == m then mh[|mh| - 1].key
    else EntryOf(mh[..|mh| - 1], m)
  }

  /** The set of keys in use. */
  function Keys(mh: seq<Pair>): set<nat>
  {
    set p | p in mh :: p.key
  }

  /** The multimap holds (key, value) exactly when some relative cell in range maps to key and has absolute index value. */
  lemma {:induction false} InvertedContents(nv: seq<int>, a: StaggeredAssigner, k: nat, key: nat, value: nat)
    requires a.Valid() && k <= |nv| <= a.nvalues
    ensures Pair(key, value) in Inverted(nv, a, k)
        <==> exists r :: 0 <= r < k && nv[r] == key && a.AbsoluteIndex(r) == value
  {
    if k > 0 {
      InvertedContents(nv, a, k - 1, key, value);
      if nv[k - 1] == key && a.AbsoluteIndex(k - 1) == value {
        assert Pair(key, value) in Inverted(nv, a, k);
      }
    }
  }

  /** Every value of the multimap is an absolute index of a relative cell below k. */
  lemma {:induction false} InvertedValuesFrom(nv: seq<int>, a: StaggeredAssigner, k: nat, i: nat)
    requires a.Valid() && k <= |nv| <= a.nvalues
    requires i < |Inverted(nv, a, k)|
    ensures exists r :: 0 <= r < k && nv[r] >= 0 && Inverted(nv, a, k)[i] == Pair(nv[r], a.AbsoluteIndex(r))
  {
    var prev := Inverted(nv, a, k - 1);
    if i < |prev| {
      InvertedValuesFrom(nv, a, k - 1, i);
      assert Inverted(nv, a, k)[i] == prev[i];
    } else {
      assert Inverted(nv, a, k)[i] == Pair(nv[k - 1], a.AbsoluteIndex(k - 1));
    }
  }

  /** Because absolute indices are distinct, so are the values of the multimap. */
  lemma {:induction false} InvertedDistinct(nv: seq<int>, a: StaggeredAssigner, k: nat)
    requires a.Valid() && k <= |nv| <= a.nvalues
    ensures DistinctValues(Inverted(nv, a, k))
  {
    if k > 0 {
      InvertedDistinct(nv, a, k - 1);
      var prev := Inverted(nv, a, k - 1);
      var mh := Inverted(nv, a, k);
      if nv[k - 1] >= 0 {
        forall i | 0 <= i < |prev|
          ensures mh[i].value != mh[|prev|].value
        {
          InvertedValuesFrom(nv, a, k - 1, i);
          var r :| 0 <= r < k - 1 && nv[r] >= 0 && prev[i] == Pair(nv[r], a.AbsoluteIndex(r));
          AbsoluteIndexInjective(a, r, k - 1);
        }
      }
    }
  }

  /** Every value of the multimap addresses a row of a table with one row per absolute cell. */
  lemma InvertedInTable(nv: seq<int>, a: StaggeredAssigner, k: nat)
    requires a.Valid() && k <= |nv| <= a.nvalues
    ensures forall p :: p in Inverted(nv, a, k) ==> p.value < a.Total()
  {
    forall p | p in Inverted(nv, a, k)
      ensures p.value < a.Total()
    {
      var i :| 0 <= i < |Inverted(nv, a, k)| && Inverted(nv, a, k)[i] == p;
      InvertedValuesFrom(nv, a, k, i);
    }
  }

  /** With distinct values, a cell is stored under key n exactly when EntryOf names n. */
  lemma {:induction false} EntryOfSpec(mh: seq<Pair>, m: nat, n: nat)
    requires DistinctValues(mh)
    ensures Pair(n, m) in mh <==> EntryOf(mh, m) == n
  {
    if mh != [] {
      var prefix := mh[..|mh| - 1];
      var last := mh[|mh| - 1];
      assert mh == prefix + [last];
      assert DistinctValues(prefix);
      EntryOfSpec(prefix, m, n);
      if last.value == m {
        forall p | p in prefix
          ensures p.value != m
        {
          var i :| 0 <= i < |prefix| && prefix[i] == p;
          assert mh[i] == p;
        }
      }
    }
  }

  /** A cell absent from the multimap has no entry. */
  lemma {:induction false} EntryOfAbsent(mh: seq<Pair>, m: nat)
    requires forall p :: p in mh ==> p.value != m
    ensures EntryOf(mh, m) == -1
  {
    if mh != [] {
      var prefix := mh[..|mh| - 1];
      assert forall p :: p in prefix ==> p in mh;
      EntryOfAbsent(prefix, m);
    }
  }

  /** No element occurs twice. */
  ghost predicate Unique(s: seq<nat>)
  {
    forall i, j :: 0 <= i < j < |s| ==> s[i] != s[j]
  }

  /** With distinct values, the cells listed under one key are listed once each. */
  lemma {:induction false} ValuesNoDuplicates(mh: seq<Pair>, n: nat)
    requires DistinctValues(mh)
    ensures Unique(Values(mh, n))
  {
    if mh != [] {
      var prefix := mh[..|mh| - 1];
      var last := mh[|mh| - 1];
      assert DistinctValues(prefix);
      ValuesNoDuplicates(prefix, n);
      if last.key == n {
        forall p | p in prefix
          ensures p.value != last.value
        {
          var i :| 0 <= i < |prefix| && prefix[i] == p;
          assert mh[i] == p;
        }
        ValuesContents(prefix, n, last.value);
      }
    }
  }

  /** The keys in use are exactly the non-negative values of the mapping. */
  lemma InvertedKeys(nv: seq<int>, a: StaggeredAssigner)
    requires a.Valid() && |nv| <= a.nvalues
    ensures Keys(Inverted(nv, a, |nv|)) == set r | 0 <= r < |nv| && nv[r] >= 0 :: nv[r] as nat
  {
    var mh := Inverted(nv, a, |nv|);
    forall key: nat
      ensures key in Keys(mh) <==> exists r :: 0 <= r < |nv| && nv[r] >= 0 && nv[r] == key
    {
      if key in Keys(mh) {
        var p :| p in mh && p.key == key;
        InvertedContents(nv, a, |nv|, key, p.value);
      }
      if r :| 0 <= r < |nv| && nv[r] >= 0 && nv[r] == key {
        InvertedContents(nv, a, |nv|, key, a.AbsoluteIndex(r));
      }
    }
  }

  /** When every mapping value is below nlib, at most nlib library entries are in use. */
  lemma EntriesInUseBound(nv: seq<int>, a: StaggeredAssigner, nlib: nat)
    requires a.Valid() && |nv| <= a.nvalues
    requires forall r :: 0 <= r < |nv| ==> nv[r] < nlib
    ensures |Keys(Inverted(nv, a, |nv|))| <= nlib
  {
    InvertedKeys(nv, a);
    var keys := Keys(Inverted(nv, a, |nv|));
    assert keys <= RangeSet(nlib);
    CardinalityMonotone(keys, RangeSet(nlib));
    RangeSetSize(nlib);
  }

  /** The naturals below n. */
  function RangeSet(n: nat): (s: set<nat>)
    ensures forall k: nat :: k in s <==> k < n
  {
    if n == 0 then {} else RangeSet(n - 1) + {n - 1}
  }

  lemma {:induction false} RangeSetSize(n: nat)
    ensures |RangeSet(n)| == n
  {
    if n > 0 {
      RangeSetSize(n - 1);
    }
  }

  lemma CardinalityMonotone(s: set<nat>, t: set<nat>)
    requires s <= t
    ensures |s| <= |t|
  {
    assert t == s + (t - s);
  }

  // ---------------------------------------------------------------------------
  // What the loop body computes for one library entry

  /** Every row has w values. */
  ghost predicate RowsShaped(rows: seq<Vec>, w: nat)
  {
    forall x :: 0 <= x < |rows| ==> |rows[x]| == w
  }

  /** The mean intensities of the cells in mv added up in list order. */
  function FieldSum(ph: Physics, mv: seq<nat>): (J: Vec)
    requires WellFormed(ph)
    ensures |J| == ph.nlambda
  {
    if mv == [] then Zeros(ph.nlambda)
    else Add(FieldSum(ph, mv[..|mv| - 1]), ph.meanIntensity(mv[|mv| - 1]))
  }

  /** The radiation field of a library entry: the average over the cells mapped to it. */
  function MeanField(ph: Physics, mv: seq<nat>): (J: Vec)
    requires WellFormed(ph) && mv != []
    ensures |J| == ph.nlambda
  {
    Scale(FieldSum(ph, mv), 1.0 / |mv| as real)
  }

  /** Reference definition: the intensity in wavelength bin i summed over the cells in mv. */
  function IntensityTotal(ph: Physics, mv: seq<nat>, i: nat): real
    requires WellFormed(ph) && i < ph.nlambda
  {
    if mv == [] then 0.0 else IntensityTotal(ph, mv[..|mv| - 1], i) + ph.meanIntensity(mv[|mv| - 1])[i]
  }

  lemma {:induction false} FieldSumElement(ph: Physics, mv: seq<nat>, i: nat)
    requires WellFormed(ph) && i < ph.nlambda
    ensures FieldSum(ph, mv)[i] == IntensityTotal(ph, mv, i)
  {
    if mv != [] {
      FieldSumElement(ph, mv[..|mv| - 1], i);
    }
  }

  /** Each bin of the mean field is the arithmetic mean of that bin over the mapped cells. */
  lemma MeanFieldElement(ph: Physics, mv: seq<nat>, i: nat)
    requires WellFormed(ph) && mv != [] && i < ph.nlambda
    ensures MeanField(ph, mv)[i] == IntensityTotal(ph, mv, i) / |mv| as real
  {
    FieldSumElement(ph, mv, i);
    var c := |mv| as real;
    var t := IntensityTotal(ph, mv, i);
    assert MeanField(ph, mv)[i] == (1.0 / c) * t;
    assert (1.0 / c) * t == t / c;
  }

  lemma {:induction false} FieldSumUniform(ph: Physics, mv: seq<nat>, J: Vec)
    requires WellFormed(ph) && |J| == ph.nlambda
    requires forall m :: m in mv ==> ph.meanIntensity(m) == J
    ensures FieldSum(ph, mv) == Scale(J, |mv| as real)
  {
    if mv != [] {
      var prefix := mv[..|mv| - 1];
      assert forall m :: m in prefix ==> m in mv;
      FieldSumUniform(ph, prefix, J);
      assert ph.meanIntensity(mv[|mv| - 1]) == J;
      var c := |prefix| as real;
      assert |mv| as real == c + 1.0;
      forall i | 0 <= i < |J|
        ensures FieldSum(ph, mv)[i] == Scale(J, c + 1.0)[i]
      {
        assert FieldSum(ph, mv)[i] == c * J[i] + J[i];
      }
    }
  }

  /** When every mapped cell sees the same field, that field is the entry's field. */
  lemma MeanOfUniformField(ph: Physics, mv: seq<nat>, J: Vec)
    requires WellFormed(ph) && mv != [] && |J| == ph.nlambda
    requires forall m :: m in mv ==> ph.meanIntensity(m) == J
    ensures MeanField(ph, mv) == J
  {
    FieldSumUniform(ph, mv, J);
    var c := |mv| as real;
    forall i | 0 <= i < |J|
      ensures MeanField(ph, mv)[i] == J[i]
    {
      assert MeanField(ph, mv)[i] == (1.0 / c) * (c * J[i]);
    }
  }

  /** The emissivity of each dust component's mix in the radiation field J. */
  function Emissivities(ph: Physics, J: Vec): (evv: seq<Vec>)
    requires WellFormed(ph) && |J| == ph.nlambda
    ensures |evv| == ph.ncomp
    ensures forall h :: 0 <= h < ph.ncomp ==> |evv[h]| == ph.nlambda
  {
    seq(ph.ncomp, h requires 0 <= h < ph.ncomp => ph.emissivity(h, J))
  }

  /** The emissivities of one library entry, computed from the mean field of its cells. */
  function EntryEmissivities(ph: Physics, mv: seq<nat>): (evv: seq<Vec>)
    requires WellFormed(ph) && mv != []
    ensures |evv| == ph.ncomp
    ensures forall h :: 0 <= h < ph.ncomp ==> |evv[h]| == ph.nlambda
  {
    Emissivities(ph, MeanField(ph, mv))
  }

  /** Every emissivity has w values. */
  ghost predicate EvvShaped(evv: seq<Vec>, w: nat)
  {
    forall h :: 0 <= h < |evv| ==> |evv[h]| == w
  }

  /** prior plus the first k emissivities, each weighted by its component's density in cell m. */
  function Combined(ph: Physics, evv: seq<Vec>, m: nat, prior: Vec, k: nat): (Lv: Vec)
    requires k <= |evv| && EvvShaped(evv, |prior|)
    ensures |Lv| == |prior|
  {
    if k == 0 then prior
    else Add(Combined(ph, evv, m, prior, k - 1), Scale(evv[k - 1], ph.density(m, k - 1)))
  }

  /** Reference definition: the density-weighted emissivity of the first k components in bin i. */
  function WeightedAt(ph: Physics, evv: seq<Vec>, m: nat, i: nat, k: nat): real
    requires k <= |evv| && forall h :: 0 <= h < |evv| ==> i < |evv[h]|
  {
    if k == 0 then 0.0 else WeightedAt(ph, evv, m, i, k - 1) + ph.density(m, k - 1) * evv[k - 1][i]
  }

  lemma {:induction false} CombinedElement(ph: Physics, evv: seq<Vec>, m: nat, prior: Vec, k: nat, i: nat)
    requires k <= |evv| && EvvShaped(evv, |prior|) && i < |prior|
    ensures Combined(ph, evv, m, prior, k)[i] == prior[i] + WeightedAt(ph, evv, m, i, k)
  {
    if k > 0 {
      CombinedElement(ph, evv, m, prior, k - 1, i);
    }
  }

  /** The emission spectrum stored for cell m: the combined emissivities times the bin widths, normalised. */
  function CellRow(ph: Physics, evv: seq<Vec>, m: nat, prior: Vec): (Lv: Vec)
    requires |prior| == |ph.dlambda| && EvvShaped(evv, |prior|)
    ensures |Lv| == |prior|
  {
    Normalised(Mul(Combined(ph, evv, m, prior, |evv|), ph.dlambda))
  }

  /** Before normalisation, bin i of a cell's spectrum is (prior + weighted emissivities) times the bin width. */
  lemma CellRowUnnormalised(ph: Physics, evv: seq<Vec>, m: nat, prior: Vec, i: nat)
    requires |prior| == |ph.dlambda| && EvvShaped(evv, |prior|) && i < |prior|
    ensures Mul(Combined(ph, evv, m, prior, |evv|), ph.dlambda)[i]
         == (prior[i] + WeightedAt(ph, evv, m, i, |evv|)) * ph.dlambda[i]
  {
    CombinedElement(ph, evv, m, prior, |evv|, i);
  }

  /**
   * A cell's spectrum is the unnormalised spectrum divided by its total when that total is positive,
   * and then sums to one; otherwise it is the unnormalised spectrum.
   */
  lemma CellRowNormalised(ph: Physics, evv: seq<Vec>, m: nat, prior: Vec)
    requires |prior| == |ph.dlambda| && EvvShaped(evv, |prior|)
    ensures var L := Mul(Combined(ph, evv, m, prior, |evv|), ph.dlambda);
      && (Sum(L) > 0.0 ==>
            && Sum(CellRow(ph, evv, m, prior)) == 1.0
            && forall i :: 0 <= i < |prior| ==> CellRow(ph, evv, m, prior)[i] == L[i] / Sum(L))
      && (Sum(L) <= 0.0 ==> CellRow(ph, evv, m, prior) == L)
  {
    var L := Mul(Combined(ph, evv, m, prior, |evv|), ph.dlambda);
    if Sum(L) > 0.0 {
      NormalisedSumsToOne(L);
    }
  }

  /** The table after cells mv have had their spectra written from the emissivities evv. */
  function Emitted(ph: Physics, evv: seq<Vec>, mv: seq<nat>, rows: seq<Vec>): (r: seq<Vec>)
    requires RowsShaped(rows, |ph.dlambda|) && EvvShaped(evv, |ph.dlambda|)
    ensures |r| == |rows| && RowsShaped(r, |ph.dlambda|)
  {
    seq(|rows|, x requires 0 <= x < |rows| => if x in mv then CellRow(ph, evv, x, rows[x]) else rows[x])
  }

  /** Writing one more cell that was not written yet changes that cell's row and no other. */
  lemma EmittedStep(ph: Physics, evv: seq<Vec>, mv: seq<nat>, rows: seq<Vec>, j: nat)
    requires RowsShaped(rows, |ph.dlambda|) && EvvShaped(evv, |ph.dlambda|)
    requires Unique(mv) && j < |mv| && mv[j] < |rows|
    ensures Emitted(ph, evv, mv[..j], rows)[mv[j]] == rows[mv[j]]
    ensures Emitted(ph, evv, mv[..j + 1], rows)
         == Emitted(ph, evv, mv[..j], rows)[mv[j] := CellRow(ph, evv, mv[j], rows[mv[j]])]
  {
    assert mv[j] !in mv[..j];
    assert mv[..j + 1] == mv[..j] + [mv[j]];
  }

  /** The effect of the loop body for entry n on the table rows. */
  function BodyEffect(ph: Physics, mh: seq<Pair>, rows: seq<Vec>, n: nat): (r: seq<Vec>)
    requires WellFormed(ph) && RowsShaped(rows, ph.nlambda)
    ensures |r| == |rows| && RowsShaped(r, ph.nlambda)
  {
    var mv := Values(mh, n);
    if mv == [] then rows else Emitted(ph, EntryEmissivities(ph, mv), mv, rows)
  }

  /** The row a cell mapped to entry n receives, or prior when entry n has no cells. */
  function EntryRow(ph: Physics, mh: seq<Pair>, n: nat, x: nat, prior: Vec): (Lv: Vec)
    requires WellFormed(ph) && |prior| == ph.nlambda
    ensures |Lv| == ph.nlambda
  {
    var mv := Values(mh, n);
    if mv == [] then prior else CellRow(ph, EntryEmissivities(ph, mv), x, prior)
  }

  /** The row of cell x, starting from prior, after the loop bodies for entries 0 .. k-1 ran in order. */
  function CellAfter(ph: Physics, mh: seq<Pair>, x: nat, prior: Vec, k: nat): (Lv: Vec)
    requires WellFormed(ph) && |prior| == ph.nlambda
    ensures |Lv| == ph.nlambda
  {
    if k == 0 then prior
    else
      var before := CellAfter(ph, mh, x, prior, k - 1);
      if Pair(k - 1, x) in mh then EntryRow(ph, mh, k - 1, x, before) else before
  }

  /** The table after the loop bodies for entries 0 .. k-1 ran in order. */
  function Run(ph: Physics, mh: seq<Pair>, rows: seq<Vec>, k: nat): (r: seq<Vec>)
    requires WellFormed(ph) && RowsShaped(rows, ph.nlambda)
    ensures |r| == |rows| && RowsShaped(r, ph.nlambda)
  {
    seq(|rows|, x requires 0 <= x < |rows| => CellAfter(ph, mh, x, rows[x], k))
  }

  /** The loop body for entry n rewrites exactly the rows of the cells stored under n. */
  lemma BodyEffectAt(ph: Physics, mh: seq<Pair>, rows: seq<Vec>, n: nat, x: nat)
    requires WellFormed(ph) && RowsShaped(rows, ph.nlambda) && x < |rows|
    ensures BodyEffect(ph, mh, rows, n)[x]
         == if Pair(n, x) in mh then EntryRow(ph, mh, n, x, rows[x]) else rows[x]
  {
    ValuesContents(mh, n, x);
  }

  /** Before any loop body the table is as it was. */
  lemma RunZero(ph: Physics, mh: seq<Pair>, rows: seq<Vec>)
    requires WellFormed(ph) && RowsShaped(rows, ph.nlambda)
    ensures Run(ph, mh, rows, 0) == rows
  {
  }

  /** Running the loop body for entry k after entries 0 .. k-1 gives the table after entries 0 .. k. */
  lemma RunStep(ph: Physics, mh: seq<Pair>, rows: seq<Vec>, k: nat)
    requires WellFormed(ph) && RowsShaped(rows, ph.nlambda)
    ensures BodyEffect(ph, mh, Run(ph, mh, rows, k), k) == Run(ph, mh, rows, k + 1)
  {
    var before := Run(ph, mh, rows, k);
    forall x | 0 <= x < |rows|
      ensures BodyEffect(ph, mh, before, k)[x] == Run(ph, mh, rows, k + 1)[x]
    {
      BodyEffectAt(ph, mh, before, k, x);
    }
  }

  /** A table that is the run up to k, changed by the body for entry k, is the run up to k + 1. */
  lemma RunAdvance(ph: Physics, mh: seq<Pair>, rows: seq<Vec>, k: nat, before: seq<Vec>, after: seq<Vec>)
    requires WellFormed(ph) && RowsShaped(rows, ph.nlambda)
    requires before == Run(ph, mh, rows, k) && after == BodyEffect(ph, mh, before, k)
    ensures after == Run(ph, mh, rows, k + 1)
  {
    RunStep(ph, mh, rows, k);
  }

  /**
   * Each cell is written at most once: after entries 0 .. k-1, the row of cell x is the spectrum of its
   * library entry when that entry is below k, and is the prior row otherwise.
   */
  lemma {:induction false} CellAfterClosedForm(ph: Physics, mh: seq<Pair>, x: nat, prior: Vec, k: nat)
    requires WellFormed(ph) && |prior| == ph.nlambda && DistinctValues(mh)
    ensures CellAfter(ph, mh, x, prior, k)
         == (var n := EntryOf(mh, x); if 0 <= n < k then EntryRow(ph, mh, n, x, prior) else prior)
  {
    if k > 0 {
      CellAfterClosedForm(ph, mh, x, prior, k - 1);
      EntryOfSpec(mh, x, k - 1);
    }
  }

  /** A relative cell's absolute index is stored under its mapping value, or not at all when that is negative. */
  lemma EntryOfInverted(nv: seq<int>, a: StaggeredAssigner, r: nat)
    requires a.Valid() && |nv| <= a.nvalues && r < |nv|
    ensures EntryOf(Inverted(nv, a, |nv|), a.AbsoluteIndex(r)) == if nv[r] >= 0 then nv[r] else -1
  {
    var mh := Inverted(nv, a, |nv|);
    var x := a.AbsoluteIndex(r);
    InvertedDistinct(nv, a, |nv|);
    if nv[r] >= 0 {
      InvertedContents(nv, a, |nv|, nv[r], x);
      EntryOfSpec(mh, x, nv[r]);
    } else {
      forall p | p in mh
        ensures p.value != x
      {
        var i :| 0 <= i < |mh| && mh[i] == p;
        InvertedValuesFrom(nv, a, |nv|, i);
        var s :| 0 <= s < |nv| && nv[s] >= 0 && mh[i] == Pair(nv[s], a.AbsoluteIndex(s));
        AbsoluteIndexInjective(a, r, s);
      }
      EntryOfAbsent(mh, x);
    }
  }

  /** A cell that no relative cell with a non-negative mapping value names has no entry. */
  lemma EntryOfUnmapped(nv: seq<int>, a: StaggeredAssigner, x: nat)
    requires a.Valid() && |nv| <= a.nvalues
    requires forall r :: 0 <= r < |nv| && nv[r] >= 0 ==> a.AbsoluteIndex(r) != x
    ensures EntryOf(Inverted(nv, a, |nv|), x) == -1
  {
    var mh := Inverted(nv, a, |nv|);
    forall p | p in mh
      ensures p.value != x
    {
      var i :| 0 <= i < |mh| && mh[i] == p;
      InvertedValuesFrom(nv, a, |nv|, i);
    }
    EntryOfAbsent(mh, x);
  }

  // ---------------------------------------------------------------------------
  // The calculator object and the library

  /** Computes the emission of the library entries one at a time and writes it into the table. */
  class EmissionCalculator {
    const table: Table
    const ph: Physics
    const mh: seq<Pair>
    const nused: nat

    ghost predicate Valid()
      reads this, table
    {
      && WellFormed(ph)
      && table.Shaped() && table.ncols == ph.nlambda
      && DistinctValues(mh)
      && (forall p :: p in mh ==> p.value < table.nrows)
    }

    /** Inverts the mapping nv of this process's cells into the entry -> absolute cell multimap. */
    constructor (table: Table, nv: seq<int>, nlib: nat, ph: Physics, a: StaggeredAssigner)
      requires a.Valid() && |nv| <= a.nvalues
      ensures this.table == table && this.ph == ph
      ensures mh == Inverted(nv, a, |nv|)
      ensures nused == |set r | 0 <= r < |nv| && nv[r] >= 0 :: nv[r] as nat|
      ensures (forall r :: 0 <= r < |nv| ==> nv[r] < nlib) ==> nused <= nlib
    {
      var pairs: seq<Pair> := [];
      var mRel := 0;
      while mRel < |nv|
        invariant mRel <= |nv| && pairs == Inverted(nv, a, mRel)
      {
        var key := nv[mRel];
        var value := a.AbsoluteIndex(mRel);
        if key >= 0 {
          pairs := pairs + [Pair(key, value)];
        }
        mRel := mRel + 1;
      }
      InvertedKeys(nv, a);
      if forall r :: 0 <= r < |nv| ==> nv[r] < nlib {
        EntriesInUseBound(nv, a, nlib);
      }
      this.table := table;
      this.ph := ph;
      mh := pairs;
      nused := |Keys(pairs)|;
    }

    /** The average of the mean intensities of the cells in mv. */
    method AverageField(mv: seq<nat>) returns (Jv: Vec)
      requires WellFormed(ph) && mv != []
      ensures Jv == MeanField(ph, mv)
    {
      Jv := Zeros(ph.nlambda);
      var i := 0;
      while i < |mv|
        invariant i <= |mv| && Jv == FieldSum(ph, mv[..i])
      {
        assert mv[..i + 1][..i] == mv[..i];
        Jv := Add(Jv, ph.meanIntensity(mv[i]));
        i := i + 1;
      }
      assert mv[..|mv|] == mv;
      Jv := Scale(Jv, 1.0 / |mv| as real);
    }

    /** The emissivity of every dust component's mix in the field Jv. */
    method ComponentEmissivities(Jv: Vec) returns (evv: seq<Vec>)
      requires WellFormed(ph) && |Jv| == ph.nlambda
      ensures evv == Emissivities(ph, Jv)
    {
      evv := [];
      var h := 0;
      while h < ph.ncomp
        invariant h <= ph.ncomp && evv == Emissivities(ph, Jv)[..h]
      {
        evv := evv + [ph.emissivity(h, Jv)];
        h := h + 1;
      }
    }

    /** The normalised spectrum of cell m, accumulated onto its current row Lv0. */
    method Spectrum(evv: seq<Vec>, m: nat, Lv0: Vec) returns (Lv: Vec)
      requires |evv| == ph.ncomp && |Lv0| == |ph.dlambda| && EvvShaped(evv, |Lv0|)
      ensures Lv == CellRow(ph, evv, m, Lv0)
    {
      Lv := Lv0;
      var h := 0;
      while h < ph.ncomp
        invariant h <= ph.ncomp && Lv == Combined(ph, evv, m, Lv0, h)
      {
        Lv := Add(Lv, Scale(evv[h], ph.density(m, h)));
        h := h + 1;
      }
      Lv := Mul(Lv, ph.dlambda);
      var total := Sum(Lv);
      if total > 0.0 {
        Lv := Scale(Lv, 1.0 / total);
      }
    }

    /** Writes the normalised spectrum of each cell in mv, computed from the emissivities evv. */
    method WriteSpectra(mv: seq<nat>, evv: seq<Vec>)
      requires Valid() && Unique(mv) && (forall m :: m in mv ==> m < table.nrows)
      requires |evv| == ph.ncomp && EvvShaped(evv, ph.nlambda)
      modifies table
      ensures Valid()
      ensures table.initialized == old(table.initialized)
      ensures table.nrows == old(table.nrows) && table.ncols == old(table.ncols)
      ensures table.rows == Emitted(ph, evv, mv, old(table.rows))
    {
      ghost var rows0 := table.rows;
      var j := 0;
      while j < |mv|
        invariant j <= |mv| && Valid()
        invariant table.initialized == old(table.initialized)
        invariant table.nrows == old(table.nrows) && table.ncols == old(table.ncols)
        invariant table.rows == Emitted(ph, evv, mv[..j], rows0)
      {
        var m := mv[j];
        assert m in mv && |rows0| == table.nrows;
        EmittedStep(ph, evv, mv, rows0, j);
        var Lv := Spectrum(evv, m, table.rows[m]);
        table.SetRow(m, Lv);
        j := j + 1;
      }
      assert mv[..|mv|] == mv;
    }

    /** The emission calculation for library entry n: writes the spectrum of every cell mapped to n. */
    method Body(n: nat)
      requires Valid()
      modifies table
      ensures Valid()
      ensures table.initialized == old(table.initialized)
      ensures table.nrows == old(table.nrows) && table.ncols == old(table.ncols)
      ensures table.rows == BodyEffect(ph, mh, old(table.rows), n)
    {
      var mv := Values(mh, n);
      if |mv| > 0 {
        var Jv := AverageField(mv);
        var evv := ComponentEmissivities(Jv);
        ValuesNoDuplicates(mh, n);
        forall m | m in mv
          ensures m < table.nrows
        {
          ValuesContents(mh, n, m);
        }
        WriteSpectra(mv, evv);
      }
    }

    /** The loop bodies for entries 0 .. nlib-1, run in order. */
    method Bodies(nlib: nat)
      requires Valid()
      modifies table
      ensures Valid()
      ensures table.initialized == old(table.initialized)
      ensures table.nrows == old(table.nrows) && table.ncols == old(table.ncols)
      ensures table.rows == Run(ph, mh, old(table.rows), nlib)
    {
      ghost var rows0 := table.rows;
      RunZero(ph, mh, rows0);
      var n := 0;
      while n < nlib
        invariant n <= nlib && Valid()
        invariant table.initialized == old(table.initialized)
        invariant table.nrows == old(table.nrows) && table.ncols == old(table.ncols)
        invariant table.rows == Run(ph, mh, rows0, n)
      {
        ghost var before := table.rows;
        Body(n);
        RunAdvance(ph, mh, rows0, n, before, table.rows);
        n := n + 1;
      }
    }
  }

  /** A dust library: the emission spectra of the dust cells, shared by cells mapped to the same entry. */
  class DustLib {
    const cellAssigner: StaggeredAssigner
    const table: Table
    const ph: Physics
    var nv: seq<int>

    ghost predicate Valid()
      reads this, cellAssigner, table
    {
      && cellAssigner.Valid() && WellFormed(ph)
      && (table.initialized ==> table.Shaped() && table.nrows == cellAssigner.Total() && table.ncols == ph.nlambda)
    }

    constructor (cellAssigner: StaggeredAssigner, ph: Physics)
      requires cellAssigner.Valid() && WellFormed(ph)
      ensures Valid() && fresh(table) && !table.initialized
      ensures this.cellAssigner == cellAssigner && this.ph == ph && nv == []
    {
      this.cellAssigner := cellAssigner;
      this.ph := ph;
      table := new Table();
      nv := [];
    }

    /** The table holds what the library computes for nlib entries from the current mapping. */
    ghost predicate Calculated(nlib: nat)
      reads this, cellAssigner, table
      requires Valid()
    {
      && table.initialized && |nv| <= cellAssigner.nvalues
      && table.rows == Run(ph, Inverted(nv, cellAssigner, |nv|), ZeroRows(cellAssigner.Total(), ph.nlambda), nlib)
    }

    /** Recalculates the spectra for library entries 0 .. nlib-1 from the given cell mapping. */
    method Calculate(nlib: nat, mapping: seq<int>)
      requires Valid() && |mapping| <= cellAssigner.nvalues
      modifies this, table
      ensures Valid() && nv == mapping && Calculated(nlib)
    {
      if !table.initialized {
        table.Initialize(cellAssigner.Total(), ph.nlambda);
      } else {
        table.Clear();
      }
      nv := mapping;
      var calculator := new EmissionCalculator(table, nv, nlib, ph, cellAssigner);
      InvertedDistinct(nv, cellAssigner, |nv|);
      InvertedInTable(nv, cellAssigner, |nv|);
      calculator.Bodies(nlib);
      table.Sync();
    }

    /** The luminosity fraction of cell m in wavelength bin ell. */
    function Luminosity(m: nat, ell: nat): real
      reads this, table
      requires table.Shaped() && m < table.nrows && ell < table.ncols
    {
      table.rows[m][ell]
    }
  }

  /**
   * After a calculation, the spectrum of this process's relative cell r is the spectrum of its library
   * entry when 0 <= nv[r] < nlib, and zero when the cell has no emission or an entry beyond nlib.
   */
  lemma MappedCellLuminosity(lib: DustLib, nlib: nat, r: nat, ell: nat)
    requires lib.Valid() && lib.Calculated(nlib) && r < |lib.nv| && ell < lib.ph.nlambda
    ensures var x := lib.cellAssigner.AbsoluteIndex(r);
      var mh := Inverted(lib.nv, lib.cellAssigner, |lib.nv|);
      lib.Luminosity(x, ell)
        == if 0 <= lib.nv[r] < nlib then EntryRow(lib.ph, mh, lib.nv[r], x, Zeros(lib.ph.nlambda))[ell] else 0.0
  {
    var a := lib.cellAssigner;
    var x := a.AbsoluteIndex(r);
    var mh := Inverted(lib.nv, a, |lib.nv|);
    InvertedDistinct(lib.nv, a, |lib.nv|);
    EntryOfInverted(lib.nv, a, r);
    CellAfterClosedForm(lib.ph, mh, x, Zeros(lib.ph.nlambda), nlib);
  }

  /**
   * A cell of this process that no relative cell with a non-negative mapping value names keeps a
   * zero spectrum. Rows of other processes' cells are filled by the exchange in sync, which is not
   * part of this model, so nothing is stated about them.
   */
  lemma UnmappedCellLuminosity(lib: DustLib, nlib: nat, x: nat, ell: nat)
    requires lib.Valid() && lib.Calculated(nlib) && x < lib.cellAssigner.Total() && ell < lib.ph.nlambda
    requires lib.cellAssigner.blocksize > 0 && lib.cellAssigner.RankForIndex(x) == lib.cellAssigner.rank
    requires forall r :: 0 <= r < |lib.nv| && lib.nv[r] >= 0 ==> lib.cellAssigner.AbsoluteIndex(r) != x
    ensures lib.Luminosity(x, ell) == 0.0
  {
    var a := lib.cellAssigner;
    var mh := Inverted(lib.nv, a, |lib.nv|);
    InvertedDistinct(lib.nv, a, |lib.nv|);
    EntryOfUnmapped(lib.nv, a, x);
    CellAfterClosedForm(lib.ph, mh, x, Zeros(lib.ph.nlambda), nlib);
  }
}
