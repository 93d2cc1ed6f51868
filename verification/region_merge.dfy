/**
 * Attaching mosque counts to the regions of the geometry table.
 *
 * The count column is coerced to numbers first; a cell that does not parse
 * becomes missing (`None`), which is how the model sees pandas' NaN. The two
 * tables are then left-joined on the normalised region name, geometry side
 * first: every geometry row is kept, in order, once per matching count row
 * (or once with a missing count when nothing matches). Finally every
 * missing count is filled with 0.
 */
module RegionMerge {
  import opened Results
  import TurkishText

  /** A row of the geometry table; the geometry itself is opaque here. */
  datatype GeoRow<G> = GeoRow(name: string, geometry: G)

  /** A row of the count table after numeric coercion. */
  datatype CountRow = CountRow(name: string, count: Option<int>)

  /** A row of the left join, before the fill. */
  datatype Joined<G> = Joined(name: string, geometry: G, count: Option<int>)

  /** A region as the rest of the pipeline sees it. */
  datatype Region<G> = Region(name: string, geometry: G, count: int)

  /** No two count rows share a name. */
  predicate UniqueNames(counts: seq<CountRow>) {
    forall i, j :: 0 <= i < j < |counts| ==> counts[i].name != counts[j].name
  }

  /** No count row is named `key`. */
  predicate Unmatched(key: string, counts: seq<CountRow>) {
    forall j :: 0 <= j < |counts| ==> counts[j].name != key
  }

  /** How many entries of `o` equal `x`. */
  function Occurrences(o: seq<nat>, x: nat): nat {
    if |o| == 0 then 0
    else Occurrences(o[..|o| - 1], x) + (if o[|o| - 1] == x then 1 else 0)
  }

  predicate NonDecreasing(o: seq<nat>) {
    forall k1, k2 :: 0 <= k1 <= k2 < |o| ==> o[k1] <= o[k2]
  }

  function Max1(n: nat): nat {
    if n == 0 then 1 else n
  }

  // ---------------------------------------------------------------------------
  // The join and the fill
  // ---------------------------------------------------------------------------

  /** The positions of the count rows named `key`, in increasing order. */
  function MatchPositions(key: string, counts: seq<CountRow>): (p: seq<nat>)
    ensures |p| <= |counts|
  {
    if |counts| == 0 then []
    else
      var n := |counts| - 1;
      var p := MatchPositions(key, counts[..n]);
      if counts[n].name == key then p + [n] else p
  }

  /**
   * `MatchPositions` lists every position whose row is named `key`, each in
   * range, and no other, in strictly increasing order.
   */
  lemma {:induction false} MatchPositionsExact(key: string, counts: seq<CountRow>)
    ensures forall k :: 0 <= k < |MatchPositions(key, counts)| ==>
      MatchPositions(key, counts)[k] < |counts| && counts[MatchPositions(key, counts)[k]].name == key
    ensures forall k1, k2 :: 0 <= k1 < k2 < |MatchPositions(key, counts)| ==>
      MatchPositions(key, counts)[k1] < MatchPositions(key, counts)[k2]
    ensures forall j :: 0 <= j < |counts| && counts[j].name == key ==> j in MatchPositions(key, counts)
  {
    if |counts| > 0 {
      var n := |counts| - 1;
      MatchPositionsExact(key, counts[..n]);
      var p := MatchPositions(key, counts[..n]);
      assert forall k :: 0 <= k < |p| ==> p[k] < n && counts[..n][p[k]] == counts[p[k]];
      assert forall j :: 0 <= j < n ==> counts[..n][j] == counts[j];
    }
  }

  /** The count cells of the rows named `key`, in the count table's order. */
  function MatchingCounts(key: string, counts: seq<CountRow>): (r: seq<Option<int>>)
    ensures |r| == |MatchPositions(key, counts)| <= |counts|
    ensures |r| == 0 <==> Unmatched(key, counts)
  {
    if |counts| == 0 then []
    else
      var n := |counts| - 1;
      var rest := MatchingCounts(key, counts[..n]);
      if counts[n].name == key then rest + [counts[n].count] else rest
  }

  /**
   * The matched cells are one per count row named `key`, in the count table's
   * order: entry `k` is the cell of the `k`-th such row.
   */
  lemma {:induction false} MatchingCountsAtPositions(key: string, counts: seq<CountRow>)
    ensures forall k :: 0 <= k < |MatchingCounts(key, counts)| ==>
      MatchPositions(key, counts)[k] < |counts| &&
      MatchingCounts(key, counts)[k] == counts[MatchPositions(key, counts)[k]].count
  {
    if |counts| > 0 {
      var n := |counts| - 1;
      MatchingCountsAtPositions(key, counts[..n]);
      var p := MatchPositions(key, counts[..n]);
      assert forall k :: 0 <= k < |p| ==> p[k] < n && counts[..n][p[k]] == counts[p[k]];
    }
  }

  /** The matched cells are exactly the count cells of the rows named `key`. */
  lemma MatchingCountsExact(key: string, counts: seq<CountRow>)
    ensures forall v :: v in MatchingCounts(key, counts) <==> CountRow(key, v) in counts
  {
    var r, p := MatchingCounts(key, counts), MatchPositions(key, counts);
    MatchPositionsExact(key, counts);
    MatchingCountsAtPositions(key, counts);
    forall v ensures v in r <==> CountRow(key, v) in counts {
      if v in r {
        var k :| 0 <= k < |r| && r[k] == v;
        assert counts[p[k]] == CountRow(key, v);
      }
      if CountRow(key, v) in counts {
        var j :| 0 <= j < |counts| && counts[j] == CountRow(key, v);
        var k :| 0 <= k < |p| && p[k] == j;
        assert r[k] == v;
      }
    }
  }

  /** The count cells a geometry row named `key` receives: its matches, or one missing cell. */
  function Cells(key: string, counts: seq<CountRow>): (c: seq<Option<int>>)
    ensures |c| == Max1(|MatchingCounts(key, counts)|)
    ensures Unmatched(key, counts) ==> c == [None]
    ensures !Unmatched(key, counts) ==> c == MatchingCounts(key, counts)
  {
    var ms := MatchingCounts(key, counts);
    if |ms| == 0 then [None] else ms
  }

  /** Each cell a geometry row receives is missing or the cell of a count row of that name. */
  lemma CellsComeFromTable(key: string, counts: seq<CountRow>)
    ensures forall k :: 0 <= k < |Cells(key, counts)| ==>
      Cells(key, counts)[k] == None || CountRow(key, Cells(key, counts)[k]) in counts
  {
    var c, p := Cells(key, counts), MatchPositions(key, counts);
    MatchPositionsExact(key, counts);
    MatchingCountsAtPositions(key, counts);
    forall k | 0 <= k < |c| && c[k] != None ensures CountRow(key, c[k]) in counts {
      assert counts[p[k]] == CountRow(key, c[k]);
    }
  }

  /** The join rows one geometry row contributes. */
  function JoinRow<G>(g: GeoRow<G>, counts: seq<CountRow>): (r: seq<Joined<G>>)
    ensures |r| == Max1(|MatchingCounts(g.name, counts)|)
    ensures forall k :: 0 <= k < |r| ==> r[k].name == g.name && r[k].geometry == g.geometry
    ensures forall k :: 0 <= k < |r| ==> r[k].count == Cells(g.name, counts)[k]
  {
    var cells := Cells(g.name, counts);
    seq(|cells|, k requires 0 <= k < |cells| => Joined(g.name, g.geometry, cells[k]))
  }

  /** Every count a geometry row's join rows carry is the cell of a count row of that name. */
  lemma JoinRowFromTable<G>(g: GeoRow<G>, counts: seq<CountRow>)
    ensures forall k :: 0 <= k < |JoinRow(g, counts)| ==>
      JoinRow(g, counts)[k].count == None || CountRow(g.name, JoinRow(g, counts)[k].count) in counts
  {
    CellsComeFromTable(g.name, counts);
  }

  /** `merge(how='left')` of the geometry table with the count table on the name. */
  function MergeLeft<G>(geo: seq<GeoRow<G>>, counts: seq<CountRow>): (r: seq<Joined<G>>)
    ensures |r| >= |geo|
  {
    if |geo| == 0 then []
    else MergeLeft(geo[..|geo| - 1], counts) + JoinRow(geo[|geo| - 1], counts)
  }

  /** For each join row, the position of the geometry row it came from. */
  function Origins<G>(geo: seq<GeoRow<G>>, counts: seq<CountRow>): (o: seq<nat>)
  {
    if |geo| == 0 then []
    else
      var n := |JoinRow(geo[|geo| - 1], counts)|;
      Origins(geo[..|geo| - 1], counts) + seq(n, _ => |geo| - 1)
  }

  /** `fillna({'MosqueCount': 0})`: a missing count becomes 0, a present one is kept. */
  function FillMissing<G>(rows: seq<Joined<G>>): (r: seq<Region<G>>)
    ensures |r| == |rows|
    ensures forall k :: 0 <= k < |r| ==>
      && r[k].name == rows[k].name && r[k].geometry == rows[k].geometry
      && (rows[k].count.Some? ==> r[k].count == rows[k].count.value)
      && (rows[k].count.None? ==> r[k].count == 0)
  {
    seq(|rows|, k requires 0 <= k < |rows| => Region(rows[k].name, rows[k].geometry, rows[k].count.GetOr(0)))
  }

  /** The merge followed by the fill. */
  function MergeCounts<G>(geo: seq<GeoRow<G>>, counts: seq<CountRow>): (r: seq<Region<G>>)
    ensures |r| >= |geo|
  {
    FillMissing(MergeLeft(geo, counts))
  }

  /** Both tables' names normalised, then merged and filled. */
  function MergeByName<G>(geo: seq<GeoRow<G>>, counts: seq<CountRow>): (r: seq<Region<G>>)
    ensures |r| >= |geo|
    ensures forall k :: 0 <= k < |r| ==> TurkishText.Normalize(r[k].name) == r[k].name
  {
    var geo', counts' := NormalizeGeo(geo), NormalizeCounts(counts);
    OriginsLabelRows(geo', counts');
    var r := MergeCounts(geo', counts');
    assert forall k :: 0 <= k < |r| ==> TurkishText.Normalize(r[k].name) == r[k].name by {
      forall k | 0 <= k < |r| ensures TurkishText.Normalize(r[k].name) == r[k].name {
        var i := Origins(geo', counts')[k];
        TurkishText.NormalizeIdempotent(geo[i].name);
      }
    }
    r
  }

  /** The geometry table with every name normalised. */
  function NormalizeGeo<G>(geo: seq<GeoRow<G>>): (g: seq<GeoRow<G>>)
    ensures |g| == |geo|
    ensures forall i :: 0 <= i < |g| ==>
      g[i].name == TurkishText.Normalize(geo[i].name) && g[i].geometry == geo[i].geometry
  {
    seq(|geo|, i requires 0 <= i < |geo| => GeoRow(TurkishText.Normalize(geo[i].name), geo[i].geometry))
  }

  /** The count table with every name normalised. */
  function NormalizeCounts(counts: seq<CountRow>): (c: seq<CountRow>)
    ensures |c| == |counts|
    ensures forall j :: 0 <= j < |c| ==>
      c[j].name == TurkishText.Normalize(counts[j].name) && c[j].count == counts[j].count
  {
    seq(|counts|, j requires 0 <= j < |counts| => CountRow(TurkishText.Normalize(counts[j].name), counts[j].count))
  }

  /** No two count rows have names that normalise alike. */
  predicate UniqueNormalisedNames(counts: seq<CountRow>) {
    forall j1, j2 :: 0 <= j1 < j2 < |counts| ==>
      TurkishText.Normalize(counts[j1].name) != TurkishText.Normalize(counts[j2].name)
  }

  /**
   * The whole join on normalised names: when no two count rows normalise to
   * the same name, geometry row `i` becomes one region named by its
   * normalised name, with the count of the count row whose name normalises
   * alike (0 when that count did not parse or no such row exists).
   */
  lemma MergeByNameJoinsNormalisedNames<G>(geo: seq<GeoRow<G>>, counts: seq<CountRow>)
    requires UniqueNormalisedNames(counts)
    ensures |MergeByName(geo, counts)| == |geo|
    ensures forall i :: 0 <= i < |geo| ==> RegionJoined(geo, counts, MergeByName(geo, counts), i)
  {
    var geo', counts' := NormalizeGeo(geo), NormalizeCounts(counts);
    assert UniqueNames(counts') by {
      forall j1, j2 | 0 <= j1 < j2 < |counts'| ensures counts'[j1].name != counts'[j2].name {
        assert counts'[j1].name == TurkishText.Normalize(counts[j1].name);
        assert counts'[j2].name == TurkishText.Normalize(counts[j2].name);
      }
    }
    MergeUniqueNames(geo', counts');
    var r := MergeByName(geo, counts);
    assert r == MergeCounts(geo', counts');
    forall i | 0 <= i < |geo| ensures RegionJoined(geo, counts, r, i) {
      assert geo'[i].name == TurkishText.Normalize(geo[i].name) && geo'[i].geometry == geo[i].geometry;
      RegionJoinedFromRenamed(geo, counts, counts', r, i);
    }
  }

  /**
   * Region `i` of `r` is geometry row `i` under its normalised name, with the
   * count of a count row whose name normalises alike, or 0 when none does.
   */
  ghost predicate RegionJoined<G>(geo: seq<GeoRow<G>>, counts: seq<CountRow>, r: seq<Region<G>>, i: nat)
    requires i < |geo| && i < |r|
  {
    && r[i].name == TurkishText.Normalize(geo[i].name)
    && r[i].geometry == geo[i].geometry
    && (forall j :: 0 <= j < |counts| && TurkishText.Normalize(counts[j].name) == r[i].name ==>
          r[i].count == counts[j].count.GetOr(0))
    && ((forall j :: 0 <= j < |counts| ==> TurkishText.Normalize(counts[j].name) != r[i].name) ==>
          r[i].count == 0)
  }

  lemma RegionJoinedFromRenamed<G>(geo: seq<GeoRow<G>>, counts: seq<CountRow>,
                                   counts': seq<CountRow>, r: seq<Region<G>>, i: nat)
    requires counts' == NormalizeCounts(counts)
    requires i < |geo| == |r|
    requires r[i].name == TurkishText.Normalize(geo[i].name) && r[i].geometry == geo[i].geometry
    requires Unmatched(r[i].name, counts') ==> r[i].count == 0
    requires forall j :: 0 <= j < |counts'| && counts'[j].name == r[i].name ==> r[i].count == counts'[j].count.GetOr(0)
    ensures RegionJoined(geo, counts, r, i)
  {
    var key := r[i].name;
    forall j | 0 <= j < |counts| && TurkishText.Normalize(counts[j].name) == key
      ensures r[i].count == counts[j].count.GetOr(0)
    {
      assert counts'[j].name == key && counts'[j].count == counts[j].count;
    }
    if forall j :: 0 <= j < |counts| ==> TurkishText.Normalize(counts[j].name) != key {
      assert Unmatched(key, counts');
    }
  }

  // ---------------------------------------------------------------------------
  // Properties
  // ---------------------------------------------------------------------------

  lemma {:induction false} OccurrencesAppend(a: seq<nat>, b: seq<nat>, x: nat)
    ensures Occurrences(a + b, x) == Occurrences(a, x) + Occurrences(b, x)
    decreases |b|
  {
    if |b| > 0 {
      var b' := b[..|b| - 1];
      assert (a + b)[..|a + b| - 1] == a + b';
      assert (a + b)[|a + b| - 1] == b[|b| - 1];
      OccurrencesAppend(a, b', x);
    } else {
      assert a + b == a;
    }
  }

  lemma {:induction false} OccurrencesConstant(n: nat, c: nat, x: nat)
    ensures Occurrences(seq(n, _ => c), x) == if x == c then n else 0
  {
    if n > 0 {
      OccurrencesConstant(n - 1, c, x);
      assert seq(n, _ => c)[..n - 1] == seq(n - 1, _ => c);
    }
  }

  lemma {:induction false} OccurrencesAbove(o: seq<nat>, x: nat)
    requires forall k :: 0 <= k < |o| ==> o[k] < x
    ensures Occurrences(o, x) == 0
  {
    if |o| > 0 {
      OccurrencesAbove(o[..|o| - 1], x);
    }
  }

  /**
   * Where every join row comes from: the geometry rows appear in their own
   * order, each exactly max(1, number of matches) times, with their name and
   * geometry. The rows of one geometry row carry its matched count cells in
   * the count table's order, or a single missing cell when nothing matches.
   */
  lemma MergeLeftProvenance<G>(geo: seq<GeoRow<G>>, counts: seq<CountRow>)
    ensures var r, o := MergeLeft(geo, counts), Origins(geo, counts);
      && |o| == |r|
      && (forall k :: 0 <= k < |r| ==>
            && o[k] < |geo|
            && r[k].name == geo[o[k]].name
            && r[k].geometry == geo[o[k]].geometry
            && (r[k].count == None || CountRow(r[k].name, r[k].count) in counts))
      && NonDecreasing(o)
      && (forall i :: 0 <= i < |geo| ==> Occurrences(o, i) == Max1(|MatchingCounts(geo[i].name, counts)|))
      && (forall k :: 0 <= k < |r| ==> CarriesCell(geo, counts, r, o, k))
  {
    OriginsLabelRows(geo, counts);
    var r, o := MergeLeft(geo, counts), Origins(geo, counts);
    forall k | 0 <= k < |r| ensures CarriesCell(geo, counts, r, o, k) {
      OriginCarriesCell(geo, counts, k);
    }
    OriginsSorted(geo, counts);
    OriginsMultiplicity(geo, counts);
  }

  /** How many join rows the geometry rows yield: max(1, matches) each, summed. */
  function JoinedRowCount<G>(geo: seq<GeoRow<G>>, counts: seq<CountRow>): nat {
    if |geo| == 0 then 0
    else JoinedRowCount(geo[..|geo| - 1], counts) + Max1(|MatchingCounts(geo[|geo| - 1].name, counts)|)
  }

  /** The join has exactly as many rows as the per-row counts add up to. */
  lemma {:induction false} MergeLeftLength<G>(geo: seq<GeoRow<G>>, counts: seq<CountRow>)
    ensures |MergeLeft(geo, counts)| == JoinedRowCount(geo, counts)
  {
    if |geo| > 0 {
      MergeLeftLength(geo[..|geo| - 1], counts);
    }
  }

  /**
   * Join row `k` of `r` carries the entry of `Cells` that its place in the
   * block of geometry row `o[k]` selects. The block starts after the rows of
   * all earlier geometry rows.
   */
  predicate CarriesCell<G>(geo: seq<GeoRow<G>>, counts: seq<CountRow>, r: seq<Joined<G>>, o: seq<nat>, k: nat)
  {
    && k < |r| && k < |o| && o[k] < |geo|
    && var start := JoinedRowCount(geo[..o[k]], counts);
       && start <= k < start + |Cells(geo[o[k]].name, counts)|
       && r[k].count == Cells(geo[o[k]].name, counts)[k - start]
  }

  lemma {:induction false} OriginsLabelRows<G>(geo: seq<GeoRow<G>>, counts: seq<CountRow>)
    ensures var r, o := MergeLeft(geo, counts), Origins(geo, counts);
      && |o| == |r|
      && forall k :: 0 <= k < |r| ==>
        && o[k] < |geo|
        && r[k].name == geo[o[k]].name
        && r[k].geometry == geo[o[k]].geometry
        && (r[k].count == None || CountRow(r[k].name, r[k].count) in counts)
  {
    if |geo| > 0 {
      var n: nat := |geo| - 1;
      var geo' := geo[..n];
      OriginsLabelRows(geo', counts);
      var r', o' := MergeLeft(geo', counts), Origins(geo', counts);
      var block := JoinRow(geo[n], counts);
      JoinRowFromTable(geo[n], counts);
      var r, o := MergeLeft(geo, counts), Origins(geo, counts);
      assert r == r' + block && o == o' + seq(|block|, _ => n);
      forall k | 0 <= k < |r|
        ensures o[k] < |geo| && r[k].name == geo[o[k]].name && r[k].geometry == geo[o[k]].geometry
      {
        if k < |r'| {
          assert o[k] == o'[k] && r[k] == r'[k] && geo'[o'[k]] == geo[o'[k]];
        } else {
          assert o[k] == n && r[k] == block[k - |r'|];
        }
      }
    }
  }

  /**
   * Join row `k` comes from geometry row `o[k]`, whose rows start where the
   * rows of the earlier geometry rows end, and it carries the matching entry
   * of `Cells` for that row's name.
   */
  lemma {:induction false} OriginCarriesCell<G>(geo: seq<GeoRow<G>>, counts: seq<CountRow>, k: nat)
    requires k < |MergeLeft(geo, counts)|
    ensures CarriesCell(geo, counts, MergeLeft(geo, counts), Origins(geo, counts), k)
  {
    var n: nat := |geo| - 1;
    var geo' := geo[..n];
    var r', o' := MergeLeft(geo', counts), Origins(geo', counts);
    var block := JoinRow(geo[n], counts);
    var r, o := MergeLeft(geo, counts), Origins(geo, counts);
    assert r == r' + block && o == o' + seq(|block|, _ => n);
    if k < |r'| {
      OriginCarriesCell(geo', counts, k);
      var i := o'[k];
      assert o[k] == i && r[k] == r'[k];
      assert geo'[i] == geo[i] && geo'[..i] == geo[..i];
      assert JoinedRowCount(geo'[..i], counts) == JoinedRowCount(geo[..i], counts);
    } else {
      OriginsLabelRows(geo', counts);
      MergeLeftLength(geo', counts);
      assert o[k] == n && geo[..n] == geo';
      assert JoinedRowCount(geo[..n], counts) == |r'|;
      assert r[k].count == block[k - |r'|].count == Cells(geo[n].name, counts)[k - |r'|];
    }
  }

  lemma {:induction false} OriginsBounded<G>(geo: seq<GeoRow<G>>, counts: seq<CountRow>)
    ensures forall k :: 0 <= k < |Origins(geo, counts)| ==> Origins(geo, counts)[k] < |geo|
  {
    if |geo| > 0 {
      OriginsBounded(geo[..|geo| - 1], counts);
    }
  }

  lemma {:induction false} OriginsSorted<G>(geo: seq<GeoRow<G>>, counts: seq<CountRow>)
    ensures NonDecreasing(Origins(geo, counts))
  {
    if |geo| > 0 {
      var n: nat := |geo| - 1;
      OriginsSorted(geo[..n], counts);
      OriginsBounded(geo[..n], counts);
      var o' := Origins(geo[..n], counts);
      var tail: seq<nat> := seq(|JoinRow(geo[n], counts)|, _ => n);
      var o := Origins(geo, counts);
      assert o == o' + tail;
      forall k1, k2 | 0 <= k1 <= k2 < |o| ensures o[k1] <= o[k2] {
        if k2 >= |o'| {
          assert o[k2] == tail[k2 - |o'|] == n;
          if k1 < |o'| {
            assert o[k1] == o'[k1] && o'[k1] < |geo[..n]| == n;
          } else {
            assert o[k1] == tail[k1 - |o'|] == n;
          }
        } else {
          assert o[k1] == o'[k1] && o[k2] == o'[k2];
        }
      }
    }
  }

  lemma {:induction false} OriginsMultiplicity<G>(geo: seq<GeoRow<G>>, counts: seq<CountRow>)
    ensures forall i :: 0 <= i < |geo| ==>
      Occurrences(Origins(geo, counts), i) == Max1(|MatchingCounts(geo[i].name, counts)|)
  {
    if |geo| > 0 {
      var n: nat := |geo| - 1;
      var geo' := geo[..n];
      OriginsMultiplicity(geo', counts);
      OriginsBounded(geo', counts);
      var o' := Origins(geo', counts);
      var block := JoinRow(geo[n], counts);
      var tail: seq<nat> := seq(|block|, _ => n);
      var o := Origins(geo, counts);
      assert o == o' + tail;
      forall i | 0 <= i < |geo|
        ensures Occurrences(Origins(geo, counts), i) == Max1(|MatchingCounts(geo[i].name, counts)|)
      {
        OccurrencesAppend(o', tail, i);
        OccurrencesConstant(|block|, n, i);
        if i < n {
          assert geo'[i] == geo[i];
        } else {
          OccurrencesAbove(o', n);
        }
      }
    }
  }

  /** With one count row per name, one region per geometry row, aligned with it. */
  lemma {:induction false} MergeUniqueNames<G>(geo: seq<GeoRow<G>>, counts: seq<CountRow>)
    requires UniqueNames(counts)
    ensures var r := MergeCounts(geo, counts);
      && |r| == |geo|
      && forall i :: 0 <= i < |geo| ==>
        && r[i].name == geo[i].name
        && r[i].geometry == geo[i].geometry
        && (Unmatched(geo[i].name, counts) ==> r[i].count == 0)
        && forall j :: 0 <= j < |counts| && counts[j].name == geo[i].name ==>
             r[i].count == counts[j].count.GetOr(0)
  {
    MergeLeftUniqueNames(geo, counts);
  }

  lemma MergeLeftUniqueNames<G>(geo: seq<GeoRow<G>>, counts: seq<CountRow>)
    requires UniqueNames(counts)
    ensures var r := MergeLeft(geo, counts);
      && |r| == |geo|
      && forall i :: 0 <= i < |geo| ==>
        && r[i].name == geo[i].name
        && r[i].geometry == geo[i].geometry
        && (Unmatched(geo[i].name, counts) ==> r[i].count == None)
        && forall j :: 0 <= j < |counts| && counts[j].name == geo[i].name ==> r[i].count == counts[j].count
  {
    MergeLeftUniqueLength(geo, counts);
    forall i | 0 <= i < |geo| {
      MergeLeftUniqueRow(geo, counts, i);
    }
  }

  /** With unique count names every geometry row yields exactly one join row. */
  lemma {:induction false} MergeLeftUniqueLength<G>(geo: seq<GeoRow<G>>, counts: seq<CountRow>)
    requires UniqueNames(counts)
    ensures |MergeLeft(geo, counts)| == |geo|
  {
    if |geo| > 0 {
      MergeLeftUniqueLength(geo[..|geo| - 1], counts);
      SingleJoinRow(geo[|geo| - 1], counts);
    }
  }

  /**
   * Join row `row` is geometry row `g` joined with unique count names: same
   * name and geometry, a missing count when nothing matches, and otherwise
   * the cell of the count row with that name.
   */
  ghost predicate JoinsUniquely<G>(g: GeoRow<G>, counts: seq<CountRow>, row: Joined<G>) {
    && row.name == g.name
    && row.geometry == g.geometry
    && (Unmatched(g.name, counts) ==> row.count == None)
    && forall j :: 0 <= j < |counts| && counts[j].name == g.name ==> row.count == counts[j].count
  }

  /** With unique count names join row `i` is geometry row `i` with its match's cell. */
  lemma {:induction false} MergeLeftUniqueRow<G>(geo: seq<GeoRow<G>>, counts: seq<CountRow>, i: nat)
    requires UniqueNames(counts) && i < |geo|
    ensures i < |MergeLeft(geo, counts)| && JoinsUniquely(geo[i], counts, MergeLeft(geo, counts)[i])
  {
    var n: nat := |geo| - 1;
    var geo' := geo[..n];
    var r', block := MergeLeft(geo', counts), JoinRow(geo[n], counts);
    var r := MergeLeft(geo, counts);
    assert r == r' + block;
    MergeLeftUniqueLength(geo', counts);
    if i < n {
      MergeLeftUniqueRow(geo', counts, i);
      assert r[i] == r'[i] && geo'[i] == geo[i];
    } else {
      SingleJoinRow(geo[n], counts);
      assert i == |r'|;
      assert r[i] == block[i - |r'|];
    }
  }

  /** With unique count names a geometry row yields one join row, carrying its match. */
  lemma SingleJoinRow<G>(g: GeoRow<G>, counts: seq<CountRow>)
    requires UniqueNames(counts)
    ensures |JoinRow(g, counts)| == 1
    ensures JoinsUniquely(g, counts, JoinRow(g, counts)[0])
  {
    var ms := MatchingCounts(g.name, counts);
    AtMostOneMatch(g.name, counts);
    MatchingCountsExact(g.name, counts);
    forall j | 0 <= j < |counts| && counts[j].name == g.name
      ensures JoinRow(g, counts)[0].count == counts[j].count
    {
      assert CountRow(g.name, counts[j].count) in counts;
      assert counts[j].count in ms;
    }
  }

  /** Unique names leave at most one match per key. */
  lemma {:induction false} AtMostOneMatch(key: string, counts: seq<CountRow>)
    requires UniqueNames(counts)
    ensures |MatchingCounts(key, counts)| <= 1
  {
    if |counts| > 0 {
      var n := |counts| - 1;
      var init := counts[..n];
      assert UniqueNames(init) by {
        forall i, j | 0 <= i < j < |init| ensures init[i].name != init[j].name {
          assert init[i] == counts[i] && init[j] == counts[j];
        }
      }
      AtMostOneMatch(key, init);
      if counts[n].name == key {
        assert Unmatched(key, init) by {
          forall j | 0 <= j < |init| ensures init[j].name != key {
            assert init[j] == counts[j];
          }
        }
      }
    }
  }

  /** Parsed counts that are never negative give regions whose counts are never negative. */
  lemma MergeCountsNonNegative<G>(geo: seq<GeoRow<G>>, counts: seq<CountRow>)
    requires forall j :: 0 <= j < |counts| && counts[j].count.Some? ==> counts[j].count.value >= 0
    ensures forall k :: 0 <= k < |MergeCounts(geo, counts)| ==> MergeCounts(geo, counts)[k].count >= 0
  {
    MergeLeftProvenance(geo, counts);
    var r := MergeLeft(geo, counts);
    forall k | 0 <= k < |r| && r[k].count.Some? ensures r[k].count.value >= 0 {
      var j :| 0 <= j < |counts| && counts[j] == CountRow(r[k].name, r[k].count);
    }
  }

  /** A worked example: Istanbul 100, Ankara 50, Izmir unmatched. */
  lemma ThreeCityExample()
    ensures var geo := [GeoRow("ISTANBUL", 1), GeoRow("ANKARA", 2), GeoRow("IZMIR", 3)];
      var counts := [CountRow("ISTANBUL", Some(100)), CountRow("ANKARA", Some(50))];
      MergeCounts(geo, counts) ==
        [Region("ISTANBUL", 1, 100), Region("ANKARA", 2, 50), Region("IZMIR", 3, 0)]
  {
    var geo := [GeoRow("ISTANBUL", 1), GeoRow("ANKARA", 2), GeoRow("IZMIR", 3)];
    var counts := [CountRow("ISTANBUL", Some(100)), CountRow("ANKARA", Some(50))];
    assert "ISTANBUL" != "ANKARA" && "IZMIR" != "ISTANBUL" && "IZMIR" != "ANKARA";
    MergeUniqueNames(geo, counts);
  }}
