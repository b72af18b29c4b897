/**
 * The page-range arithmetic used before OCR: a PDF of more than 100 pages is cut
 * into parts of at most 100 consecutive pages each.
 */
module PdfParts {

  /** MAX_PAGES_PER_PART */
  const MaxPagesPerPart: nat := 100

  /** The pages `[start, end)` of one part, 0-based. */
  datatype PartRange = PartRange(start: nat, end: nat)

  /** Either the original file is used unchanged, or it is split into parts. */
  datatype PartPlan = Whole(pageCount: nat) | Parts(pageCount: nat, ranges: seq<PartRange>)

  function Min(a: nat, b: nat): nat
  {
    if a <= b then a else b
  }

  /** `Math.ceil(total / size)` for a whole number of pages. */
  function CeilDiv(total: nat, size: nat): (r: nat)
    requires size > 0
    ensures r * size >= total
    ensures r > 0 ==> (r - 1) * size < total
  {
    (total + size - 1) / size
  }

  /** The parts start at page 0, follow one another without gap or overlap, end
      at the last page, and all hold 100 pages except the last, which holds 1 to
      100. */
  predicate IsPartition(ranges: seq<PartRange>, total: nat)
  {
    && |ranges| > 0
    && ranges[0].start == 0
    && ranges[|ranges| - 1].end == total
    && (forall k :: 0 <= k < |ranges| - 1 ==> ranges[k].end == ranges[k + 1].start)
    && (forall k :: 0 <= k < |ranges| ==> 0 < ranges[k].end - ranges[k].start <= MaxPagesPerPart)
    && (forall k :: 0 <= k < |ranges| - 1 ==> ranges[k].end - ranges[k].start == MaxPagesPerPart)
  }

  /** The part that holds page `p` (0-based) is part number `p / 100`. */
  predicate HoldsPage(ranges: seq<PartRange>, p: nat)
  {
    p / MaxPagesPerPart < |ranges|
    && ranges[p / MaxPagesPerPart].start <= p < ranges[p / MaxPagesPerPart].end
  }

  /** preparePdfParts, without the copying: up to 100 pages keep the original file;
      otherwise `ceil(total / 100)` parts, part k covering
      `[k * 100, min(total, (k + 1) * 100))`. */
  method PreparePdfParts(totalPages: nat) returns (plan: PartPlan)
    ensures totalPages <= MaxPagesPerPart <==> plan.Whole?
    ensures plan.pageCount == totalPages
    ensures plan.Parts? ==>
      && |plan.ranges| == CeilDiv(totalPages, MaxPagesPerPart)
      && IsPartition(plan.ranges, totalPages)
      && forall p :: 0 <= p < totalPages ==> HoldsPage(plan.ranges, p)
  {
    if totalPages <= MaxPagesPerPart {
      return Whole(totalPages);
    }
    var numParts := CeilDiv(totalPages, MaxPagesPerPart);
    var ranges: seq<PartRange> := [];
    var partIndex := 0;
    while partIndex < numParts
      invariant partIndex <= numParts
      invariant |ranges| == partIndex
      invariant forall k :: 0 <= k < partIndex ==>
        ranges[k] == PartRange(k * MaxPagesPerPart, Min(totalPages, (k + 1) * MaxPagesPerPart))
    {
      var startPage := partIndex * MaxPagesPerPart;
      var endPage := Min(totalPages, (partIndex + 1) * MaxPagesPerPart);
      ranges := ranges + [PartRange(startPage, endPage)];
      partIndex := partIndex + 1;
    }
    forall p | 0 <= p < totalPages
      ensures HoldsPage(ranges, p)
    {
      var k := p / MaxPagesPerPart;
      assert k * MaxPagesPerPart <= p < (k + 1) * MaxPagesPerPart;
    }
    return Parts(totalPages, ranges);
  }
}
