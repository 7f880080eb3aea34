/**
  The thresholding and non-maximum-suppression scan of the Harris corner
  detector (detKeypointsHarris). The corner response map has already been
  computed, normalised to 0..255 and truncated to integers; the scan walks it
  row by row and reconciles every strong pixel with the keypoints found so far.
 */
module HarrisNms {
  import opened KeyPoints

  /** Aperture of the Sobel operator used by the response computation. */
  const ApertureSize: int := 3
  /** Pixels whose response is at most this are ignored. */
  const MinResponse: int := 100
  /** Diameter given to every keypoint the scan creates. */
  const HarrisSize: int := 2 * ApertureSize

  /** Every row of the map has the same number of columns. */
  predicate IsRectangular(g: seq<seq<int>>)
  {
    forall r :: 0 <= r < |g| ==> |g[r]| == |g[0]|
  }

  /** The truncated response map, rows of pixel values. */
  type ResponseMap = g: seq<seq<int>> | IsRectangular(g)

  function Cols(g: ResponseMap): (n: nat)
    ensures forall r :: 0 <= r < |g| ==> |g[r]| == n
  {
    if |g| == 0 then 0 else |g[0]|
  }

  /** The keypoint made from the pixel at (row, col) with response v. */
  function Candidate(row: int, col: int, v: int): KeyPoint
  {
    KeyPoint(col, row, v, HarrisSize)
  }

  /** Some keypoint already in `kps` overlaps the candidate. */
  predicate HasConflict(kps: seq<KeyPoint>, cand: KeyPoint)
  {
    exists i :: 0 <= i < |kps| && Overlaps(cand, kps[i])
  }

  /** The candidate takes the place of `k`: they overlap and the candidate's
      response is strictly greater. */
  predicate Replaces(cand: KeyPoint, k: KeyPoint)
  {
    Overlaps(cand, k) && cand.response > k.response
  }

  /** One pass of the reconciliation loop over a single keypoint. */
  function Resolve(k: KeyPoint, cand: KeyPoint): KeyPoint
  {
    if Replaces(cand, k) then cand else k
  }

  /** The keypoint vector after the candidate has been compared with every
      keypoint in it: a conflict overwrites every weaker conflicting entry and
      suppresses the candidate, no conflict appends it. */
  function Reconcile(kps: seq<KeyPoint>, cand: KeyPoint): seq<KeyPoint>
  {
    if HasConflict(kps, cand) then seq(|kps|, i requires 0 <= i < |kps| => Resolve(kps[i], cand))
    else kps + [cand]
  }

  /** What one candidate does to the vector, entry by entry. */
  lemma ReconcileEffect(kps: seq<KeyPoint>, cand: KeyPoint)
    ensures var r := Reconcile(kps, cand);
      // appended if and only if nothing present overlaps it, else the length stays
      && |r| == (if HasConflict(kps, cand) then |kps| else |kps| + 1)
      && (|r| > |kps| ==> r[|kps|] == cand && forall i :: 0 <= i < |kps| ==> !Overlaps(cand, kps[i]))
      // a conflicting entry with smaller response is overwritten by the candidate
      && (forall i :: 0 <= i < |kps| && Overlaps(cand, kps[i]) && cand.response > kps[i].response ==> r[i] == cand)
      // a conflicting entry with equal or greater response is untouched
      && (forall i :: 0 <= i < |kps| && Overlaps(cand, kps[i]) && cand.response <= kps[i].response ==> r[i] == kps[i])
      // a non-conflicting entry is untouched
      && (forall i :: 0 <= i < |kps| && !Overlaps(cand, kps[i]) ==> r[i] == kps[i])
      // no stored response decreases
      && (forall i :: 0 <= i < |kps| ==> r[i].response >= kps[i].response)
  {
  }

  /** The effect of visiting pixel (row, col). */
  function Step(g: ResponseMap, row: nat, col: nat, kps: seq<KeyPoint>): seq<KeyPoint>
    requires row < |g| && col < Cols(g)
  {
    if g[row][col] > MinResponse then Reconcile(kps, Candidate(row, col, g[row][col])) else kps
  }

  /** Visit columns col, col + 1, ... of one row, left to right. */
  function ScanRow(g: ResponseMap, row: nat, col: nat, kps: seq<KeyPoint>): seq<KeyPoint>
    requires row < |g| && col <= Cols(g)
    decreases Cols(g) - col
  {
    if col == Cols(g) then kps else ScanRow(g, row, col + 1, Step(g, row, col, kps))
  }

  /** Visit rows row, row + 1, ..., each one completely, top to bottom. */
  function ScanRows(g: ResponseMap, row: nat, kps: seq<KeyPoint>): seq<KeyPoint>
    requires row <= |g|
    decreases |g| - row
  {
    if row == |g| then kps else ScanRows(g, row + 1, ScanRow(g, row, 0, kps))
  }

  /** The keypoint vector after the whole row-major scan of `g`. */
  function Suppress(g: ResponseMap, kps: seq<KeyPoint>): seq<KeyPoint>
  {
    ScanRows(g, 0, kps)
  }

  /** Compare the candidate with every keypoint in place, then append it if
      nothing overlapped it. */
  method ReconcileCandidate(keypoints: seq<KeyPoint>, cand: KeyPoint) returns (kps: seq<KeyPoint>)
    ensures kps == Reconcile(keypoints, cand)
  {
    kps := keypoints;
    var overlapOccurred := false;
    var i := 0;
    while i < |kps|
      invariant 0 <= i <= |kps| == |keypoints|
      invariant forall j :: 0 <= j < i ==> kps[j] == Resolve(keypoints[j], cand)
      invariant forall j :: i <= j < |kps| ==> kps[j] == keypoints[j]
      invariant overlapOccurred <==> exists j :: 0 <= j < i && Overlaps(cand, keypoints[j])
    {
      if Overlaps(cand, kps[i]) {
        overlapOccurred := true;
        if cand.response > kps[i].response {
          kps := kps[i := cand];
        }
      }
      i := i + 1;
    }
    if !overlapOccurred {
      kps := kps + [cand];
    }
  }

  /** The detector's scan: rows outer, columns inner, every pixel above
      MinResponse reconciled with the keypoints found so far. */
  method DetectKeypointsHarris(g: ResponseMap, keypoints: seq<KeyPoint>) returns (kps: seq<KeyPoint>)
    ensures kps == Suppress(g, keypoints)
  {
    kps := keypoints;
    var row := 0;
    while row < |g|
      invariant 0 <= row <= |g|
      invariant ScanRows(g, row, kps) == Suppress(g, keypoints)
    {
      var col := 0;
      while col < Cols(g)
        invariant 0 <= col <= Cols(g)
        invariant ScanRows(g, row + 1, ScanRow(g, row, col, kps)) == Suppress(g, keypoints)
      {
        ghost var before := kps;
        var pixelIntensity := g[row][col];
        if pixelIntensity > MinResponse {
          kps := ReconcileCandidate(kps, Candidate(row, col, pixelIntensity));
        }
        assert kps == Step(g, row, col, before);
        col := col + 1;
      }
      assert ScanRow(g, row, Cols(g), kps) == kps;
      row := row + 1;
    }
  }

  // ---------------------------------------------------------------------
  // Entries are never removed and their responses never go down.

  /** `after` keeps every index of `before`, and no response stored at such an
      index went down. */
  predicate Dominates(before: seq<KeyPoint>, after: seq<KeyPoint>)
  {
    |before| <= |after| && forall i :: 0 <= i < |before| ==> after[i].response >= before[i].response
  }

  lemma DominatesTransitive(a: seq<KeyPoint>, b: seq<KeyPoint>, c: seq<KeyPoint>)
    requires Dominates(a, b) && Dominates(b, c)
    ensures Dominates(a, c)
  {
    forall i | 0 <= i < |a| ensures c[i].response >= a[i].response {
      assert b[i].response >= a[i].response;
    }
  }

  lemma {:induction false} ScanRowDominates(g: ResponseMap, row: nat, col: nat, kps: seq<KeyPoint>)
    requires row < |g| && col <= Cols(g)
    ensures Dominates(kps, ScanRow(g, row, col, kps))
    decreases Cols(g) - col
  {
    if col < Cols(g) {
      var next := Step(g, row, col, kps);
      ScanRowDominates(g, row, col + 1, next);
      DominatesTransitive(kps, next, ScanRow(g, row, col + 1, next));
    }
  }

  lemma {:induction false} ScanRowsDominates(g: ResponseMap, row: nat, kps: seq<KeyPoint>)
    requires row <= |g|
    ensures Dominates(kps, ScanRows(g, row, kps))
    decreases |g| - row
  {
    if row < |g| {
      var next := ScanRow(g, row, 0, kps);
      ScanRowDominates(g, row, 0, kps);
      ScanRowsDominates(g, row + 1, next);
      DominatesTransitive(kps, next, ScanRows(g, row + 1, next));
    }
  }

  /** The scan never removes a keypoint the vector held on entry and never
      lowers the response stored at any of those indices. */
  lemma SuppressNeverRemoves(g: ResponseMap, kps: seq<KeyPoint>)
    ensures var r := Suppress(g, kps);
      |r| >= |kps| && forall i :: 0 <= i < |kps| ==> r[i].response >= kps[i].response
  {
    ScanRowsDominates(g, 0, kps);
  }

  // ---------------------------------------------------------------------
  // Every entry is an original keypoint or a keypoint made from a strong pixel.

  /** `k` is the keypoint the scan makes for a pixel of `g` above MinResponse. */
  predicate FromPixel(g: ResponseMap, k: KeyPoint)
  {
    0 <= k.y < |g| && 0 <= k.x < Cols(g) && g[k.y][k.x] > MinResponse &&
    k == Candidate(k.y, k.x, g[k.y][k.x])
  }

  /** Each entry of `kps` still holds the original keypoint at its index or
      was made from a strong pixel of `g`. */
  predicate Explained(g: ResponseMap, k0: seq<KeyPoint>, kps: seq<KeyPoint>)
  {
    |k0| <= |kps| &&
    forall i :: 0 <= i < |kps| ==> (i < |k0| && kps[i] == k0[i]) || FromPixel(g, kps[i])
  }

  lemma StepExplained(g: ResponseMap, row: nat, col: nat, k0: seq<KeyPoint>, kps: seq<KeyPoint>)
    requires row < |g| && col < Cols(g)
    requires Explained(g, k0, kps)
    ensures Explained(g, k0, Step(g, row, col, kps))
  {
    if g[row][col] > MinResponse {
      var cand := Candidate(row, col, g[row][col]);
      var r := Reconcile(kps, cand);
      assert FromPixel(g, cand);
      forall i | 0 <= i < |r| ensures (i < |k0| && r[i] == k0[i]) || FromPixel(g, r[i]) {
        if i < |kps| && r[i] != cand {
          assert r[i] == kps[i];
        }
      }
    }
  }

  lemma {:induction false} ScanRowExplained(g: ResponseMap, row: nat, col: nat, k0: seq<KeyPoint>, kps: seq<KeyPoint>)
    requires row < |g| && col <= Cols(g)
    requires Explained(g, k0, kps)
    ensures Explained(g, k0, ScanRow(g, row, col, kps))
    decreases Cols(g) - col
  {
    if col < Cols(g) {
      StepExplained(g, row, col, k0, kps);
      ScanRowExplained(g, row, col + 1, k0, Step(g, row, col, kps));
    }
  }

  lemma {:induction false} ScanRowsExplained(g: ResponseMap, row: nat, k0: seq<KeyPoint>, kps: seq<KeyPoint>)
    requires row <= |g|
    requires Explained(g, k0, kps)
    ensures Explained(g, k0, ScanRows(g, row, kps))
    decreases |g| - row
  {
    if row < |g| {
      ScanRowExplained(g, row, 0, k0, kps);
      ScanRowsExplained(g, row + 1, k0, ScanRow(g, row, 0, kps));
    }
  }

  /** Every entry of the result either is the keypoint the vector held at that
      index on entry, or was created by the scan: at a pixel (x = column,
      y = row) inside the map whose value is above MinResponse, with that value
      as response and diameter 2 * ApertureSize = 6. */
  lemma SuppressProvenance(g: ResponseMap, kps: seq<KeyPoint>)
    ensures var r := Suppress(g, kps);
      forall i :: 0 <= i < |r| ==>
        (i < |kps| && r[i] == kps[i]) ||
        (0 <= r[i].y < |g| && 0 <= r[i].x < Cols(g) &&
         r[i].response == g[r[i].y][r[i].x] && r[i].response > MinResponse && r[i].size == 6)
  {
    ScanRowsExplained(g, 0, kps, kps);
  }

  // ---------------------------------------------------------------------
  // Weak pixels change nothing.

  /** No pixel of `g` is above MinResponse. */
  predicate Quiet(g: ResponseMap)
  {
    forall r, c :: 0 <= r < |g| && 0 <= c < Cols(g) ==> g[r][c] <= MinResponse
  }

  lemma {:induction false} ScanRowQuiet(g: ResponseMap, row: nat, col: nat, kps: seq<KeyPoint>)
    requires row < |g| && col <= Cols(g) && Quiet(g)
    ensures ScanRow(g, row, col, kps) == kps
    decreases Cols(g) - col
  {
    if col < Cols(g) {
      ScanRowQuiet(g, row, col + 1, kps);
    }
  }

  lemma {:induction false} ScanRowsQuiet(g: ResponseMap, row: nat, kps: seq<KeyPoint>)
    requires row <= |g| && Quiet(g)
    ensures ScanRows(g, row, kps) == kps
    decreases |g| - row
  {
    if row < |g| {
      ScanRowQuiet(g, row, 0, kps);
      ScanRowsQuiet(g, row + 1, kps);
    }
  }

  /** A map with no pixel above MinResponse leaves the vector exactly as it was
      (in particular an all-zero or empty map yields no keypoint). */
  lemma QuietMapChangesNothing(g: ResponseMap, kps: seq<KeyPoint>)
    requires Quiet(g)
    ensures Suppress(g, kps) == kps
  {
    ScanRowsQuiet(g, 0, kps);
  }

  // ---------------------------------------------------------------------
  // At most one new keypoint per strong pixel.

  /** Number of pixels above MinResponse in columns col.. of one row. */
  function StrongInRow(g: ResponseMap, row: nat, col: nat): nat
    requires row < |g| && col <= Cols(g)
    decreases Cols(g) - col
  {
    if col == Cols(g) then 0
    else (if g[row][col] > MinResponse then 1 else 0) + StrongInRow(g, row, col + 1)
  }

  /** Number of pixels above MinResponse in rows row.. of the map. */
  function StrongFrom(g: ResponseMap, row: nat): nat
    requires row <= |g|
    decreases |g| - row
  {
    if row == |g| then 0 else StrongInRow(g, row, 0) + StrongFrom(g, row + 1)
  }

  lemma {:induction false} ScanRowGrowth(g: ResponseMap, row: nat, col: nat, kps: seq<KeyPoint>)
    requires row < |g| && col <= Cols(g)
    ensures |ScanRow(g, row, col, kps)| <= |kps| + StrongInRow(g, row, col)
    decreases Cols(g) - col
  {
    if col < Cols(g) {
      ScanRowGrowth(g, row, col + 1, Step(g, row, col, kps));
    }
  }

  lemma {:induction false} ScanRowsGrowth(g: ResponseMap, row: nat, kps: seq<KeyPoint>)
    requires row <= |g|
    ensures |ScanRows(g, row, kps)| <= |kps| + StrongFrom(g, row)
    decreases |g| - row
  {
    if row < |g| {
      ScanRowGrowth(g, row, 0, kps);
      ScanRowsGrowth(g, row + 1, ScanRow(g, row, 0, kps));
    }
  }

  /** The vector grows by at most one keypoint per pixel above MinResponse. */
  lemma SuppressGrowth(g: ResponseMap, kps: seq<KeyPoint>)
    ensures |kps| <= |Suppress(g, kps)| <= |kps| + StrongFrom(g, 0)
  {
    ScanRowsGrowth(g, 0, kps);
    ScanRowsDominates(g, 0, kps);
  }

  // ---------------------------------------------------------------------
  // Small response maps worked through by hand.

  /** A single strong pixel yields exactly one keypoint there. */
  lemma SinglePeak()
    ensures Suppress([[0, 0], [0, 200]], []) == [KeyPoint(1, 1, 200, 6)]
  {
    var g: ResponseMap := [[0, 0], [0, 200]];
    var k := KeyPoint(1, 1, 200, 6);
    assert ScanRow(g, 0, 0, []) == [];
    assert Step(g, 1, 1, []) == [k];
    assert ScanRow(g, 1, 0, []) == [k];
  }

  /** Two strong pixels 7 columns apart do not overlap: both are kept, in scan
      order. */
  lemma SeparatedPeaks()
    ensures Suppress([[150, 0, 0, 0, 0, 0, 0, 150]], [])
         == [KeyPoint(0, 0, 150, 6), KeyPoint(7, 0, 150, 6)]
  {
    var g: ResponseMap := [[150, 0, 0, 0, 0, 0, 0, 150]];
    var a, b := KeyPoint(0, 0, 150, 6), KeyPoint(7, 0, 150, 6);
    assert !Overlaps(b, a);
    assert Step(g, 0, 0, []) == [a];
    assert ScanRow(g, 0, 7, [a]) == [a, b];
    assert ScanRow(g, 0, 1, [a]) == ScanRow(g, 0, 7, [a]);
  }

  /** A weaker peak met first and a stronger overlapping peak met later: the
      stronger one takes the weaker one's place, nothing is duplicated. */
  lemma AscendingPeaks()
    ensures Suppress([[150, 0, 200]], []) == [KeyPoint(2, 0, 200, 6)]
  {
    var g: ResponseMap := [[150, 0, 200]];
    var a, b := KeyPoint(0, 0, 150, 6), KeyPoint(2, 0, 200, 6);
    assert Step(g, 0, 0, []) == [a];
    assert HasConflict([a], b) by { assert Overlaps(b, [a][0]); }
    assert Reconcile([a], b) == [b] by {
      var r := Reconcile([a], b);
      assert |r| == 1 && r[0] == Resolve(a, b) == b;
    }
    assert Step(g, 0, 2, [a]) == [b];
  }

  /** The same two peaks in the other order: the later, weaker candidate is
      suppressed and the stronger one stays. */
  lemma DescendingPeaks()
    ensures Suppress([[200, 0, 150]], []) == [KeyPoint(0, 0, 200, 6)]
  {
    var g: ResponseMap := [[200, 0, 150]];
    var a, b := KeyPoint(0, 0, 200, 6), KeyPoint(2, 0, 150, 6);
    assert HasConflict([a], b) by { assert Overlaps(b, [a][0]); }
    assert Reconcile([a], b) == [a] by {
      var r := Reconcile([a], b);
      assert |r| == 1 && r[0] == Resolve(a, b) == a;
    }
    calc {
      ScanRow(g, 0, 0, []);
      { assert Step(g, 0, 0, []) == [a]; }
      ScanRow(g, 0, 1, [a]);
      ScanRow(g, 0, 2, [a]);
      ScanRow(g, 0, 3, [a]);
    }
  }

  /** The result is not free of overlaps: a candidate that overlaps two
      separated, weaker keypoints overwrites both, leaving two identical
      entries. */
  lemma ReplacementDuplicates()
    ensures Reconcile([KeyPoint(0, 0, 150, 6), KeyPoint(7, 0, 150, 6)], KeyPoint(3, 1, 200, 6))
         == [KeyPoint(3, 1, 200, 6), KeyPoint(3, 1, 200, 6)]
  {
    var a, b, c := KeyPoint(0, 0, 150, 6), KeyPoint(7, 0, 150, 6), KeyPoint(3, 1, 200, 6);
    assert Overlaps(c, a) && Overlaps(c, b);
    var r := Reconcile([a, b], c);
    assert HasConflict([a, b], c) by { assert Overlaps(c, [a, b][0]); }
    assert |r| == 2 && r[0] == c && r[1] == c;
  }

  /** A run of weak pixels in a row changes nothing. */
  lemma {:induction false} ScanRowSkipsWeak(g: ResponseMap, row: nat, col: nat, end: nat, kps: seq<KeyPoint>)
    requires row < |g| && col <= end <= Cols(g)
    requires forall c :: col <= c < end ==> g[row][c] <= MinResponse
    ensures ScanRow(g, row, col, kps) == ScanRow(g, row, end, kps)
    decreases end - col
  {
    if col < end {
      assert Step(g, row, col, kps) == kps by { assert g[row][col] <= MinResponse; }
      ScanRowSkipsWeak(g, row, col + 1, end, kps);
    }
  }

  /** Two separated weak peaks on the first row and a stronger pixel between
      them on the second row. */
  const DuplicatingMap: ResponseMap := [[150, 0, 0, 0, 0, 0, 0, 150], [0, 0, 0, 200, 0, 0, 0, 0]]

  lemma DuplicatingMapFirstRow()
    ensures ScanRow(DuplicatingMap, 0, 0, []) == [KeyPoint(0, 0, 150, 6), KeyPoint(7, 0, 150, 6)]
  {
    var g := DuplicatingMap;
    var a, b := KeyPoint(0, 0, 150, 6), KeyPoint(7, 0, 150, 6);
    calc {
      ScanRow(g, 0, 0, []);
      ScanRow(g, 0, 1, [a]);
      { ScanRowSkipsWeak(g, 0, 1, 7, [a]); }
      ScanRow(g, 0, 7, [a]);
      { assert !Overlaps(b, a); }
      ScanRow(g, 0, 8, [a, b]);
    }
  }

  lemma DuplicatingMapSecondRow()
    ensures ScanRow(DuplicatingMap, 1, 0, [KeyPoint(0, 0, 150, 6), KeyPoint(7, 0, 150, 6)])
         == [KeyPoint(3, 1, 200, 6), KeyPoint(3, 1, 200, 6)]
  {
    var g := DuplicatingMap;
    var a, b, c := KeyPoint(0, 0, 150, 6), KeyPoint(7, 0, 150, 6), KeyPoint(3, 1, 200, 6);
    calc {
      ScanRow(g, 1, 0, [a, b]);
      { ScanRowSkipsWeak(g, 1, 0, 3, [a, b]); }
      ScanRow(g, 1, 3, [a, b]);
      { ReplacementDuplicates(); }
      ScanRow(g, 1, 4, [c, c]);
      { ScanRowSkipsWeak(g, 1, 4, 8, [c, c]); }
      ScanRow(g, 1, 8, [c, c]);
    }
  }

  /** The same effect over a whole scan: the result holds two identical,
      hence overlapping, keypoints. */
  lemma ScanLeavesOverlappingKeypoints()
    ensures var r := Suppress(DuplicatingMap, []);
      r == [KeyPoint(3, 1, 200, 6), KeyPoint(3, 1, 200, 6)] && Overlaps(r[0], r[1])
  {
    DuplicatingMapFirstRow();
    DuplicatingMapSecondRow();
    assert ScanRows(DuplicatingMap, 0, []) == ScanRows(DuplicatingMap, 2, [KeyPoint(3, 1, 200, 6), KeyPoint(3, 1, 200, 6)]);
  }
}
