/** Shapes and their areas.

    A planar shape is idealised as a finite set of unit cells, so its area is
    the number of cells and the overlay operations (intersection, union,
    difference) are set operations. A GeoDataFrame is a sequence of rows, each
    carrying its index label and its shape.
 */
module Regions {
  import opened Results

  datatype Cell = Cell(x: int, y: int)

  type Region = set<Cell>

  /** One GeoDataFrame row: its index label and its geometry. */
  datatype Row = Row(index: int, shape: Region)

  type Frame = seq<Row>

  /** The exceptions the area and metric code can raise. */
  datatype CalcError =
    | NotSingleItem  // `.item()` on a series that does not hold exactly one value
    | ZeroDivision   // a ratio whose denominator is zero

  /** Index labels are unique within a frame. */
  predicate DistinctLabels(f: Frame) {
    forall i, j :: 0 <= i < j < |f| ==> f[i].index != f[j].index
  }

  predicate HasLabel(f: Frame, l: int) {
    exists i :: 0 <= i < |f| && f[i].index == l
  }

  /** Every label `0 .. |f| - 1` is present, which is what the positional
      loop of `areaCalculation` needs to avoid a `KeyError`. */
  predicate LabelsCoverRange(f: Frame) {
    forall l :: 0 <= l < |f| ==> HasLabel(f, l)
  }

  /** `area[l]`: the area of the row labelled `l` (0 when there is none). */
  function AreaAtLabel(f: Frame, l: int): nat
    decreases |f|
  {
    if |f| == 0 then 0
    else if f[0].index == l then |f[0].shape|
    else AreaAtLabel(f[1..], l)
  }

  /** What the loop of `areaCalculation` has accumulated after labels
      `0 .. k - 1`. */
  function SumByLabel(f: Frame, k: nat): nat {
    if k == 0 then 0 else SumByLabel(f, k - 1) + AreaAtLabel(f, k - 1)
  }

  /** The sum of the row areas, in row order. */
  function SumRows(f: Frame): nat
    decreases |f|
  {
    if |f| == 0 then 0 else |f[0].shape| + SumRows(f[1..])
  }

  /** The union of the row shapes. */
  function Union(f: Frame): (u: Region)
    ensures forall i :: 0 <= i < |f| ==> f[i].shape <= u
    ensures forall c :: c in u ==> exists i :: 0 <= i < |f| && c in f[i].shape
    decreases |f|
  {
    if |f| == 0 then {} else f[0].shape + Union(f[1..])
  }

  /** `areaCalculation(geom_instance)`.

      The loop reads `area[i]` for `i` in `range(n)`; that lookup is by index
      label, so a label missing from `0 .. n - 1` raises `KeyError`, and the
      handler falls back to `area.item()`, which succeeds only for a single
      row. Labels are unique, as in every frame the program builds. */
  function AreaCalculation(f: Frame): (r: Result<nat, CalcError>)
    requires DistinctLabels(f)
    ensures |f| == 0 ==> r == Ok(0)
    ensures |f| == 1 ==> r == Ok(|f[0].shape|)
    ensures r.Ok? ==> r.value == SumRows(f)
    ensures r.Err? <==> |f| >= 2 && exists l :: 0 <= l < |f| && !HasLabel(f, l)
  {
    if LabelsCoverRange(f) then
      SumByLabelIsSum(f);
      Ok(SumByLabel(f, |f|))
    else if |f| == 1 then Ok(|f[0].shape|)
    else Err(NotSingleItem)
  }

  /** With unique labels, looking a row's label up finds that row. */
  lemma {:induction false} AreaAtOwnLabel(f: Frame, i: int)
    requires DistinctLabels(f)
    requires 0 <= i < |f|
    ensures AreaAtLabel(f, f[i].index) == |f[i].shape|
    decreases i
  {
    if i > 0 {
      assert f[0].index != f[i].index;
      assert f[1..][i - 1] == f[i];
      AreaAtOwnLabel(f[1..], i - 1);
    }
  }

  lemma {:induction false} SumByLabelAgree(f: Frame, g: Frame, k: nat)
    requires forall l :: 0 <= l < k ==> AreaAtLabel(f, l) == AreaAtLabel(g, l)
    ensures SumByLabel(f, k) == SumByLabel(g, k)
  {
    if k > 0 {
      SumByLabelAgree(f, g, k - 1);
    }
  }

  lemma {:induction false} SumRowsConcat(a: Frame, b: Frame)
    ensures SumRows(a + b) == SumRows(a) + SumRows(b)
    decreases |a|
  {
    if |a| > 0 {
      assert (a + b)[1..] == a[1..] + b;
      SumRowsConcat(a[1..], b);
    } else {
      assert a + b == b;
    }
  }

  /** Dropping the row labelled `|f| - 1` leaves a frame with unique labels
      covering `0 .. |f| - 2`, each still naming the same area. */
  lemma DropLastLabel(f: Frame, p: int)
    requires DistinctLabels(f) && LabelsCoverRange(f)
    requires 0 <= p < |f| && f[p].index == |f| - 1
    ensures var g := f[..p] + f[p + 1..];
            && DistinctLabels(g)
            && LabelsCoverRange(g)
            && forall l :: 0 <= l < |g| ==> AreaAtLabel(g, l) == AreaAtLabel(f, l)
  {
    var n := |f|;
    var g := f[..p] + f[p + 1..];
    assert |g| == n - 1;
    assert forall k :: 0 <= k < p ==> g[k] == f[k];
    assert forall k :: p <= k < n - 1 ==> g[k] == f[k + 1];
    assert DistinctLabels(g) by {
      forall i, j | 0 <= i < j < |g| ensures g[i].index != g[j].index {
        var fi := if i < p then i else i + 1;
        var fj := if j < p then j else j + 1;
        assert g[i] == f[fi] && g[j] == f[fj];
      }
    }
    forall l | 0 <= l < n - 1
      ensures HasLabel(g, l) && AreaAtLabel(g, l) == AreaAtLabel(f, l)
    {
      assert HasLabel(f, l);
      var i :| 0 <= i < n && f[i].index == l;
      var k := if i < p then i else i - 1;
      assert g[k] == f[i];
      AreaAtOwnLabel(f, i);
      AreaAtOwnLabel(g, k);
    }
  }

  /** Dropping one row takes its area off the row-order sum. */
  lemma SumRowsDrop(f: Frame, p: int)
    requires 0 <= p < |f|
    ensures SumRows(f) == SumRows(f[..p] + f[p + 1..]) + |f[p].shape|
  {
    assert f == f[..p] + [f[p]] + f[p + 1..];
    SumRowsConcat(f[..p] + [f[p]], f[p + 1..]);
    SumRowsConcat(f[..p], [f[p]]);
    SumRowsConcat(f[..p], f[p + 1..]);
  }

  /** Summing by label `0 .. n - 1` visits every row exactly once, so it
      equals the row-order sum whatever order the labels appear in. */
  lemma {:induction false} SumByLabelIsSum(f: Frame)
    requires DistinctLabels(f)
    requires LabelsCoverRange(f)
    ensures SumByLabel(f, |f|) == SumRows(f)
    decreases |f|
  {
    if |f| > 0 {
      var n := |f|;
      assert HasLabel(f, n - 1);
      var p :| 0 <= p < n && f[p].index == n - 1;
      var g := f[..p] + f[p + 1..];
      DropLastLabel(f, p);
      SumByLabelIsSum(g);
      SumByLabelAgree(f, g, n - 1);
      AreaAtOwnLabel(f, p);
      SumRowsDrop(f, p);
    }
  }

  /** Rows whose shapes pairwise do not overlap. */
  predicate PairwiseDisjoint(f: Frame) {
    forall i, j :: 0 <= i < j < |f| ==> f[i].shape !! f[j].shape
  }

  /** For non-overlapping rows the summed area is the area of their union;
      overlapping rows are counted once per row. */
  lemma {:induction false} DisjointSumIsUnionArea(f: Frame)
    requires PairwiseDisjoint(f)
    ensures SumRows(f) == |Union(f)|
    decreases |f|
  {
    if |f| > 0 {
      var rest := f[1..];
      assert PairwiseDisjoint(rest) by {
        forall i, j | 0 <= i < j < |rest| ensures rest[i].shape !! rest[j].shape {
          assert rest[i] == f[i + 1] && rest[j] == f[j + 1];
        }
      }
      DisjointSumIsUnionArea(rest);
      forall i | 0 <= i < |rest| ensures f[0].shape !! rest[i].shape {
        assert rest[i] == f[i + 1];
      }
      assert f[0].shape * Union(rest) == {};
    }
  }
}
