/** The vertical concatenator: resizes every image to a common width and
    stacks them top to bottom on one background-filled canvas. */
module Concatenate {
  import opened Wrappers
  import opened Pictures
  import Extremes

  datatype ConcatError =
    | EmptyImageSet   // `max` of an empty list of widths
    | ZeroWidthImage  // division by an image width of zero when rescaling

  /** Rows added to the canvas height beyond the inputs' own heights. */
  const BottomGap := 50

  /** The strategy that selects the widest image; any other string selects
      the narrowest. */
  const MaxStrategy := "MAX"

  /** What the concatenator decides before any pixel moves: the canvas
      size and the size each input is resized to. */
  datatype Plan = Plan(width: nat, height: nat, resized: seq<Size>)

  function Sizes(pictures: seq<Picture>): seq<Size>
  {
    seq(|pictures|, k requires 0 <= k < |pictures| => SizeOf(pictures[k]))
  }

  function Widths(sizes: seq<Size>): seq<int>
  {
    seq(|sizes|, k requires 0 <= k < |sizes| => sizes[k].width)
  }

  function SumHeights(sizes: seq<Size>): nat
  {
    if sizes == [] then 0 else SumHeights(sizes[..|sizes| - 1]) + sizes[|sizes| - 1].height
  }

  /** The common width: the largest input width under "MAX", the smallest
      under any other strategy string. */
  function TargetWidth(sizes: seq<Size>, strategy: string): (w: nat)
    requires |sizes| > 0
    ensures exists k :: 0 <= k < |sizes| && sizes[k].width == w
    ensures strategy == MaxStrategy ==> forall k :: 0 <= k < |sizes| ==> sizes[k].width <= w
    ensures strategy != MaxStrategy ==> forall k :: 0 <= k < |sizes| ==> w <= sizes[k].width
  {
    var ws := Widths(sizes);
    assert forall k :: 0 <= k < |sizes| ==> ws[k] == sizes[k].width;
    var w := if strategy == MaxStrategy then Extremes.Max(ws) else Extremes.Min(ws);
    assert w in ws;
    w
  }

  /** `floor(W * h / w)`: the height that keeps an image's aspect ratio
      once its width becomes W. */
  function ScaledHeight(width: nat, s: Size): (h: nat)
    requires s.width > 0
    ensures h * s.width <= width * s.height < (h + 1) * s.width
  {
    width * s.height / s.width
  }

  predicate HasZeroWidth(sizes: seq<Size>) {
    exists k :: 0 <= k < |sizes| && sizes[k].width == 0
  }

  /** The plan of the concatenator, or the error its width arithmetic runs
      into: no images at all, or an image of width zero. */
  function PlanConcatenation(sizes: seq<Size>, strategy: string): (r: Result<Plan, ConcatError>)
    ensures |sizes| == 0 ==> r == Failure(EmptyImageSet)
    ensures |sizes| > 0 ==> (r.Failure? <==> HasZeroWidth(sizes))
    ensures |sizes| > 0 && r.Failure? ==> r.error == ZeroWidthImage
    ensures r.Success? ==> r.value.width == TargetWidth(sizes, strategy)
    ensures r.Success? ==> r.value.height == SumHeights(sizes) + BottomGap
    ensures r.Success? ==> |r.value.resized| == |sizes|
    ensures r.Success? ==> forall k :: 0 <= k < |sizes| ==>
      var s := r.value.resized[k];
      s.width == r.value.width && s.height * sizes[k].width <= r.value.width * sizes[k].height < (s.height + 1) * sizes[k].width
  {
    if |sizes| == 0 then Failure(EmptyImageSet)
    else if HasZeroWidth(sizes) then Failure(ZeroWidthImage)
    else
      var width := TargetWidth(sizes, strategy);
      Success(Plan(width, SumHeights(sizes) + BottomGap, ResizedSizes(sizes, width)))
  }

  /** The size each input takes once rescaled to `width`, aspect ratio kept. */
  function ResizedSizes(sizes: seq<Size>, width: nat): (r: seq<Size>)
    requires !HasZeroWidth(sizes)
    ensures |r| == |sizes|
    ensures forall k :: 0 <= k < |sizes| ==>
      r[k].width == width && r[k].height * sizes[k].width <= width * sizes[k].height < (r[k].height + 1) * sizes[k].width
  {
    seq(|sizes|, k requires 0 <= k < |sizes| => Size(width, ScaledHeight(width, sizes[k])))
  }

  /** The pixel at (x, y) after pasting `parts` in order, each directly
      below the previous one, over a `bgColor` canvas: the last part pasted
      over (x, y) wins. */
  function StackedPixel(parts: seq<Picture>, bgColor: Rgb, x: int, y: int): Rgb
    reads parts
  {
    if parts == [] then bgColor
    else
      var last := parts[|parts| - 1];
      var top := SumHeights(Sizes(parts[..|parts| - 1]));
      if Covers(0, top, last.Length0, last.Length1, x, y) then last[x, y - top]
      else StackedPixel(parts[..|parts| - 1], bgColor, x, y)
  }

  /** Whether `canvas` holds the stack of `parts` at each of its pixels. */
  ghost predicate IsStack(canvas: Picture, parts: seq<Picture>, bgColor: Rgb)
    reads canvas, parts
  {
    forall x, y :: InBounds(canvas, x, y) ==> canvas[x, y] == StackedPixel(parts, bgColor, x, y)
  }

  /** The paste loop: a fresh background-filled canvas, and each part
      pasted at x = 0 and at the running y offset. */
  method StackImages(parts: seq<Picture>, width: nat, height: nat, bgColor: Rgb) returns (canvas: Picture)
    ensures fresh(canvas)
    ensures SizeOf(canvas) == Size(width, height)
    ensures IsStack(canvas, parts, bgColor)
  {
    canvas := NewPicture(width, height, bgColor);
    var currentY := 0;
    for i := 0 to |parts|
      invariant currentY == SumHeights(Sizes(parts[..i]))
      invariant IsStack(canvas, parts[..i], bgColor)
    {
      Paste(canvas, parts[i], 0, currentY);
      assert parts[..i + 1][..i] == parts[..i];
      assert Sizes(parts[..i + 1])[..i] == Sizes(parts[..i]);
      currentY := currentY + parts[i].Length1;
    }
    assert parts[..|parts|] == parts;
  }

  /** Whether `resized` are pictures of the sizes the plan asks for (the
      imaging library's resampling decides their pixels). */
  predicate ResizedAsPlanned(plan: Result<Plan, ConcatError>, resized: seq<Picture>) {
    plan.Success? ==> Sizes(resized) == plan.value.resized
  }

  /** The concatenator. `resized` are what the imaging library's resize
      returns for each input at the planned size. */
  method ConcatenateImages(images: seq<Picture>, resized: seq<Picture>, strategy: string, bgColor: Rgb)
    returns (r: Result<Picture, ConcatError>)
    requires ResizedAsPlanned(PlanConcatenation(Sizes(images), strategy), resized)
    ensures r.Failure? <==> PlanConcatenation(Sizes(images), strategy).Failure?
    ensures r.Failure? ==> r.error == PlanConcatenation(Sizes(images), strategy).error
    ensures r.Success? ==> fresh(r.value)
    ensures r.Success? ==> var plan := PlanConcatenation(Sizes(images), strategy).value;
      SizeOf(r.value) == Size(plan.width, plan.height)
    ensures r.Success? ==> IsStack(r.value, resized, bgColor)
  {
    match PlanConcatenation(Sizes(images), strategy)
    case Failure(e) =>
      r := Failure(e);
    case Success(plan) =>
      var canvas := StackImages(resized, plan.width, plan.height, bgColor);
      r := Success(canvas);
  }

  lemma SizesPrefix(parts: seq<Picture>, i: nat)
    requires i <= |parts|
    ensures Sizes(parts[..i]) == Sizes(parts)[..i]
  {
  }

  /** One more part adds its height to the running offset. */
  lemma SumHeightsStep(sizes: seq<Size>, k: nat)
    requires k < |sizes|
    ensures SumHeights(sizes[..k + 1]) == SumHeights(sizes[..k]) + sizes[k].height
  {
    assert sizes[..k + 1][..k] == sizes[..k];
  }

  /** A longer prefix is at least as tall. */
  lemma {:induction false} SumHeightsPrefixMonotone(sizes: seq<Size>, i: nat, j: nat)
    requires i <= j <= |sizes|
    ensures SumHeights(sizes[..i]) <= SumHeights(sizes[..j])
    decreases j
  {
    if i < j {
      assert sizes[..j][..j - 1] == sizes[..j - 1];
      SumHeightsPrefixMonotone(sizes, i, j - 1);
    }
  }

  /** Placement: the parts land in input order, part k with its top row at
      the sum of the heights of the parts before it, and no later part
      covers it. */
  lemma {:induction false} StackedPixelAt(parts: seq<Picture>, bgColor: Rgb, k: nat, x: int, y: int)
    requires k < |parts| && InBounds(parts[k], x, y)
    ensures StackedPixel(parts, bgColor, x, SumHeights(Sizes(parts[..k])) + y) == parts[k][x, y]
    decreases |parts|
  {
    var n := |parts| - 1;
    var init := parts[..n];
    if k < n {
      var sizes := Sizes(parts);
      SizesPrefix(parts, k);
      SizesPrefix(parts, n);
      SumHeightsStep(sizes, k);
      SumHeightsPrefixMonotone(sizes, k + 1, n);
      assert SumHeights(Sizes(parts[..k])) + y < SumHeights(Sizes(init));
      assert init[..k] == parts[..k];
      StackedPixelAt(init, bgColor, k, x, y);
    }
  }

  /** Two lists of sizes, each height at most its partner's, have sums in
      the same order. */
  lemma {:induction false} SumHeightsPointwise(a: seq<Size>, b: seq<Size>)
    requires |a| == |b|
    requires forall k :: 0 <= k < |a| ==> a[k].height <= b[k].height
    ensures SumHeights(a) <= SumHeights(b)
    decreases |a|
  {
    if a != [] {
      SumHeightsPointwise(a[..|a| - 1], b[..|b| - 1]);
    }
  }

  /** Resizing to a width no larger than the original never makes an image
      taller. */
  lemma ScaledNotTaller(width: nat, s: Size)
    requires 0 < s.width && width <= s.width
    ensures ScaledHeight(width, s) <= s.height
  {
    var h := ScaledHeight(width, s);
    assert width * s.height <= s.width * s.height by {
      MultiplyMonotone(width, s.width, s.height);
    }
    if h > s.height {
      MultiplyMonotone(s.height + 1, h, s.width);
      assert false;
    }
  }

  lemma MultiplyMonotone(a: nat, b: nat, c: nat)
    requires a <= b
    ensures a * c <= b * c
  {
  }

  /** Under the "MIN" strategy (any strategy but "MAX") every image shrinks
      or keeps its height, so the resized images fit the canvas, whose
      height counts the original heights, with at least the 50-row gap to
      spare. */
  lemma MinStrategyFitsCanvas(sizes: seq<Size>, strategy: string)
    requires strategy != MaxStrategy
    requires PlanConcatenation(sizes, strategy).Success?
    ensures var plan := PlanConcatenation(sizes, strategy).value;
      SumHeights(plan.resized) + BottomGap <= plan.height
  {
    var plan := PlanConcatenation(sizes, strategy).value;
    forall k | 0 <= k < |sizes|
      ensures plan.resized[k].height <= sizes[k].height
    {
      assert !HasZeroWidth(sizes) && sizes[k].width > 0;
      ScaledNotTaller(plan.width, sizes[k]);
    }
    SumHeightsPointwise(plan.resized, sizes);
  }

  /** Under "MAX" a narrower image grows taller, and since the canvas height
      counts the original heights, the stack can run past the bottom of the
      canvas: a 100×10 and a 10×10 image are resized to 100×10 and 100×100
      on a 100×70 canvas, so the last 40 rows of the second are clipped. */
  lemma MaxStrategyCanOverflow()
    ensures var plan := PlanConcatenation([Size(100, 10), Size(10, 10)], MaxStrategy);
      plan.Success? && plan.value.height == 70 &&
      plan.value.resized == [Size(100, 10), Size(100, 100)] &&
      SumHeights(plan.value.resized) == plan.value.height + 40
  {
    var sizes := [Size(100, 10), Size(10, 10)];
    assert !HasZeroWidth(sizes);
    assert TargetWidth(sizes, MaxStrategy) == 100;
    var plan := PlanConcatenation(sizes, MaxStrategy).value;
    assert plan.resized[1] == Size(100, 100);
    assert plan.resized[0] == Size(100, 10);
    assert sizes[..1] == [Size(100, 10)] && sizes[..1][..0] == [];
    assert SumHeights(sizes[..1]) == 10;
    assert SumHeights(sizes) == 20;
    assert plan.resized[..1] == [Size(100, 10)] && plan.resized[..1][..0] == [];
    assert SumHeights(plan.resized[..1]) == 10;
  }

  /** Rescaling an image to its own width keeps its height. */
  lemma ScaledToOwnWidth(s: Size)
    requires s.width > 0
    ensures ScaledHeight(s.width, s) == s.height
  {
    var h := ScaledHeight(s.width, s);
    if h < s.height {
      MultiplyMonotone(h + 1, s.height, s.width);
    }
  }

  /** When all inputs share one width, any strategy keeps every size. */
  lemma EqualWidthsKeepSizes(sizes: seq<Size>, strategy: string)
    requires forall k :: 0 <= k < |sizes| ==> sizes[k].width == sizes[0].width
    requires PlanConcatenation(sizes, strategy).Success?
    ensures PlanConcatenation(sizes, strategy).value == Plan(sizes[0].width, SumHeights(sizes) + BottomGap, sizes)
  {
    assert !HasZeroWidth(sizes) && |sizes| > 0;
    var width := TargetWidth(sizes, strategy);
    assert width == sizes[0].width;
    ResizedToOwnWidth(sizes, width);
  }

  /** Rescaling inputs that all have width `width` to `width` keeps them. */
  lemma ResizedToOwnWidth(sizes: seq<Size>, width: nat)
    requires !HasZeroWidth(sizes)
    requires forall k :: 0 <= k < |sizes| ==> sizes[k].width == width
    ensures ResizedSizes(sizes, width) == sizes
  {
    var r := ResizedSizes(sizes, width);
    forall k | 0 <= k < |sizes|
      ensures r[k] == sizes[k]
    {
      assert sizes[k].width > 0;
      ScaledToOwnWidth(sizes[k]);
    }
  }

  /** When all inputs share one width the strategy makes no difference,
      and no image changes size. */
  lemma EqualWidthsStrategyIrrelevant(sizes: seq<Size>, strategy1: string, strategy2: string)
    requires forall k :: 0 <= k < |sizes| ==> sizes[k].width == sizes[0].width
    ensures PlanConcatenation(sizes, strategy1) == PlanConcatenation(sizes, strategy2)
    ensures PlanConcatenation(sizes, strategy1).Success? ==> PlanConcatenation(sizes, strategy1).value.resized == sizes
  {
    if PlanConcatenation(sizes, strategy1).Success? {
      EqualWidthsKeepSizes(sizes, strategy1);
      EqualWidthsKeepSizes(sizes, strategy2);
    }
  }

  /** Under the "MIN" strategy nothing is clipped: every pixel of every
      resized image appears in the concatenation, at its own x and at its
      row plus the heights of the images before it. */
  lemma MinStrategyKeepsEveryPixel(sizes: seq<Size>, resized: seq<Picture>, strategy: string, bgColor: Rgb, canvas: Picture)
    requires strategy != MaxStrategy
    requires PlanConcatenation(sizes, strategy).Success?
    requires Sizes(resized) == PlanConcatenation(sizes, strategy).value.resized
    requires SizeOf(canvas) == Size(PlanConcatenation(sizes, strategy).value.width, PlanConcatenation(sizes, strategy).value.height)
    requires IsStack(canvas, resized, bgColor)
    ensures forall k, x, y :: 0 <= k < |resized| && InBounds(resized[k], x, y) ==>
      InBounds(canvas, x, SumHeights(Sizes(resized[..k])) + y) &&
      canvas[x, SumHeights(Sizes(resized[..k])) + y] == resized[k][x, y]
  {
    MinStrategyFitsCanvas(sizes, strategy);
    var plan := PlanConcatenation(sizes, strategy).value;
    assert SumHeights(Sizes(resized)) <= canvas.Length1;
    assert forall j :: 0 <= j < |resized| ==> resized[j].Length0 <= canvas.Length0 by {
      assert forall j :: 0 <= j < |resized| ==> resized[j].Length0 == Sizes(resized)[j].width == plan.resized[j].width;
    }
    forall k, x, y | 0 <= k < |resized| && InBounds(resized[k], x, y)
      ensures InBounds(canvas, x, SumHeights(Sizes(resized[..k])) + y)
      ensures canvas[x, SumHeights(Sizes(resized[..k])) + y] == resized[k][x, y]
    {
      PixelKept(resized, bgColor, canvas, k, x, y);
    }
  }

  /** One pixel of part k lies on a canvas as tall as all the parts, and
      the stack shows it there. */
  lemma PixelKept(parts: seq<Picture>, bgColor: Rgb, canvas: Picture, k: nat, x: int, y: int)
    requires k < |parts| && InBounds(parts[k], x, y)
    requires forall j :: 0 <= j < |parts| ==> parts[j].Length0 <= canvas.Length0
    requires SumHeights(Sizes(parts)) <= canvas.Length1
    requires IsStack(canvas, parts, bgColor)
    ensures InBounds(canvas, x, SumHeights(Sizes(parts[..k])) + y)
    ensures canvas[x, SumHeights(Sizes(parts[..k])) + y] == parts[k][x, y]
  {
    SizesPrefix(parts, k);
    SizesPrefix(parts, k + 1);
    assert Sizes(parts)[..k + 1][..k] == Sizes(parts)[..k];
    SumHeightsPrefixMonotone(Sizes(parts), k + 1, |parts|);
    assert Sizes(parts)[..|parts|] == Sizes(parts);
    StackedPixelAt(parts, bgColor, k, x, y);
  }
}
