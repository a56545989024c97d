/** `square_cover_image`, reduced to the image dimensions: the side of the
    square, the logged size label, and whether (and to what) the image is
    resized. */
module Squarer {
  import opened Wrappers
  import CoverSize

  datatype Dimensions = Dimensions(width: nat, height: nat)

  datatype SquarePlan = SquarePlan(side: nat, sizeLabel: string, resize: Option<Dimensions>)

  function Max(a: nat, b: nat): nat { if a >= b then a else b }

  /** The square side that is at least both sides; `None` when the image
      already is square, in which case the file is left untouched. Otherwise
      the image is resized (stretched) to that square. */
  function PlanSquare(d: Dimensions): (p: SquarePlan)
    ensures p.side >= d.width && p.side >= d.height
    ensures p.side == d.width || p.side == d.height
    ensures p.resize.None? <==> d.width == d.height
    ensures p.resize.Some? ==> p.resize.value == Dimensions(p.side, p.side)
    ensures p.sizeLabel == CoverSize.FormatCoverSize(p.side)
  {
    var side := Max(d.width, d.height);
    var text := CoverSize.FormatCoverSize(side);
    if d.width == d.height then SquarePlan(side, text, None)
    else SquarePlan(side, text, Some(Dimensions(side, side)))
  }

  /** The dimensions of the cover file after the step. */
  function Apply(d: Dimensions, p: SquarePlan): Dimensions
  {
    match p.resize
    case None => d
    case Some(target) => target
  }

  /** The resulting dimensions are square with both sides at least the
      original's, and no smaller square side would be. */
  lemma SquaredIsSmallestCover(d: Dimensions, s: nat)
    ensures var r := Apply(d, PlanSquare(d));
      r.width == r.height && r.width >= d.width && r.height >= d.height
    ensures s >= d.width && s >= d.height ==> s >= PlanSquare(d).side
  {
  }

  /** Squaring a squared cover does nothing. */
  lemma SquareIdempotent(d: Dimensions)
    ensures PlanSquare(Apply(d, PlanSquare(d))).resize.None?
    ensures Apply(d, PlanSquare(d)) == Apply(Apply(d, PlanSquare(d)), PlanSquare(Apply(d, PlanSquare(d))))
  {
  }
}
