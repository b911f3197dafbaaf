/**
 * The fit-to-page rule used when the decoded image is placed on the single
 * page of the PDF: compare the image's aspect ratio with the page's, fit the
 * relatively wider one to the page width (centred vertically) and otherwise
 * to the page height (centred horizontally). Exact real arithmetic stands in
 * for the floating-point numbers of the source.
 */
module PageLayout {

  type Positive = r: real | r > 0.0 witness 1.0

  /** The box handed to `addImage`: top-left corner, then width and height. */
  datatype Placement = Placement(x: real, y: real, width: real, height: real)

  /** The box has the image's width-to-height ratio. */
  predicate KeepsAspect(p: Placement, imageWidth: Positive, imageHeight: Positive) {
    p.width * imageHeight == p.height * imageWidth
  }

  /** The box lies within [0, pageWidth] x [0, pageHeight]. */
  predicate InsidePage(p: Placement, pageWidth: Positive, pageHeight: Positive) {
    && 0.0 <= p.x && p.x + p.width <= pageWidth
    && 0.0 <= p.y && p.y + p.height <= pageHeight
  }

  /** The box has equal margins left and right, and top and bottom. */
  predicate Centred(p: Placement, pageWidth: Positive, pageHeight: Positive) {
    p.x == pageWidth - (p.x + p.width) && p.y == pageHeight - (p.y + p.height)
  }

  /** The image is relatively wider than the page: `imgRatio > pageRatio`. */
  predicate WiderThanPage(pageWidth: Positive, pageHeight: Positive, imageWidth: Positive, imageHeight: Positive) {
    imageWidth / imageHeight > pageWidth / pageHeight
  }

  /** Cross-multiplied form of the ratio comparison. */
  lemma WiderCrossMultiplied(pageWidth: Positive, pageHeight: Positive, imageWidth: Positive, imageHeight: Positive)
    ensures WiderThanPage(pageWidth, pageHeight, imageWidth, imageHeight)
        <==> imageWidth * pageHeight > pageWidth * imageHeight
  {
    var a, b := imageWidth / imageHeight, pageWidth / pageHeight;
    assert imageWidth == a * imageHeight && pageWidth == b * pageHeight;
    assert imageWidth * pageHeight == a * (imageHeight * pageHeight);
    assert pageWidth * imageHeight == b * (imageHeight * pageHeight);
    if a > b {
      assert a * (imageHeight * pageHeight) > b * (imageHeight * pageHeight);
    } else {
      assert a * (imageHeight * pageHeight) <= b * (imageHeight * pageHeight);
    }
  }

  /** The placement computed in the image's load handler. The drawn box is
      non-empty, keeps the image's aspect ratio, stays on the page and is
      centred; in the wider case it spans the page width with a strictly
      positive top margin, otherwise it spans the page height. */
  function FitToPage(pageWidth: Positive, pageHeight: Positive, imageWidth: Positive, imageHeight: Positive): (p: Placement)
    ensures p.width > 0.0 && p.height > 0.0
    ensures KeepsAspect(p, imageWidth, imageHeight)
    ensures InsidePage(p, pageWidth, pageHeight)
    ensures Centred(p, pageWidth, pageHeight)
    ensures WiderThanPage(pageWidth, pageHeight, imageWidth, imageHeight) ==>
      p.width == pageWidth && p.x == 0.0 && p.y > 0.0
    ensures !WiderThanPage(pageWidth, pageHeight, imageWidth, imageHeight) ==>
      p.height == pageHeight && p.y == 0.0 && p.x >= 0.0
  {
    var imgRatio := imageWidth / imageHeight;
    var pageRatio := pageWidth / pageHeight;
    WiderCrossMultiplied(pageWidth, pageHeight, imageWidth, imageHeight);
    if imgRatio > pageRatio then
      var w := pageWidth;
      var h := w / imgRatio;
      WideBranch(pageWidth, pageHeight, imageWidth, imageHeight, h);
      Placement(0.0, (pageHeight - h) / 2.0, w, h)
    else
      var h := pageHeight;
      var w := h * imgRatio;
      TallBranch(pageWidth, pageHeight, imageWidth, imageHeight, w);
      Placement((pageWidth - w) / 2.0, 0.0, w, h)
  }

  /** Arithmetic of the wider branch: height = pageWidth / imgRatio. */
  lemma WideBranch(pageWidth: Positive, pageHeight: Positive, imageWidth: Positive, imageHeight: Positive, h: real)
    requires imageWidth * pageHeight > pageWidth * imageHeight
    requires h == pageWidth / (imageWidth / imageHeight)
    ensures 0.0 < h < pageHeight
    ensures pageWidth * imageHeight == h * imageWidth
  {
  }

  /** Arithmetic of the other branch: width = pageHeight * imgRatio. */
  lemma TallBranch(pageWidth: Positive, pageHeight: Positive, imageWidth: Positive, imageHeight: Positive, w: real)
    requires imageWidth * pageHeight <= pageWidth * imageHeight
    requires w == pageHeight * (imageWidth / imageHeight)
    ensures 0.0 < w <= pageWidth
    ensures w * imageHeight == pageHeight * imageWidth
  {
  }

  /** Fitting is as large as possible: every box of the image's aspect ratio
      that fits on the page is no wider and no taller than the computed one. */
  lemma FitIsLargest(pageWidth: Positive, pageHeight: Positive, imageWidth: Positive, imageHeight: Positive, q: Placement)
    requires KeepsAspect(q, imageWidth, imageHeight)
    requires q.width <= pageWidth && q.height <= pageHeight
    ensures q.width <= FitToPage(pageWidth, pageHeight, imageWidth, imageHeight).width
    ensures q.height <= FitToPage(pageWidth, pageHeight, imageWidth, imageHeight).height
  {
    var p := FitToPage(pageWidth, pageHeight, imageWidth, imageHeight);
    if WiderThanPage(pageWidth, pageHeight, imageWidth, imageHeight) {
      // p.width is the page width, so only the height needs an argument
      assert q.height * imageWidth == q.width * imageHeight <= p.width * imageHeight == p.height * imageWidth;
      CancelPositive(q.height, p.height, imageWidth);
    } else {
      assert q.width * imageHeight == q.height * imageWidth <= p.height * imageWidth == p.width * imageHeight;
      CancelPositive(q.width, p.width, imageHeight);
    }
  }

  /** A positive factor can be cancelled from both sides of a comparison. */
  lemma CancelPositive(a: real, b: real, c: Positive)
    ensures a * c <= b * c <==> a <= b
    ensures a * c < b * c <==> a < b
  {
    assert a * c - b * c == (a - b) * c;
  }

  /** An image with the page's own aspect ratio fills the whole page. */
  lemma SameRatioFillsPage(pageWidth: Positive, pageHeight: Positive, scale: Positive)
    ensures FitToPage(pageWidth, pageHeight, pageWidth * scale, pageHeight * scale)
         == Placement(0.0, 0.0, pageWidth, pageHeight)
  {
  }
}
