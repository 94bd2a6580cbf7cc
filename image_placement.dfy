/** Image grid placement (app.py lines 192-212): the uploaded images of the
    plans A, B and C are laid out on slides 6, 7 and 8 (indices 5, 6, 7) in a
    grid of three columns, at most six per plan. Lengths are in EMU, the
    integer unit of the presentation format, 914400 to the inch. */
module ImagePlacement {
  import opened Strings

  /** `Inches(tenths / 10)`: every length used here is a whole number of
      tenths of an inch, so the conversion to EMU is exact. */
  function InchTenths(tenths: nat): nat {
    tenths * 91440
  }

  const MarginX: nat := InchTenths(5)
  const MarginY: nat := InchTenths(15)
  const CellW: nat := InchTenths(30)
  const CellH: nat := InchTenths(20)
  const Gap: nat := InchTenths(2)
  const Cols: nat := 3
  const MaxImages: nat := 6

  /** The width every picture is given: a cell less the gap. */
  const PictureW: int := CellW - Gap

  /** An uploaded file: its bytes, and whether the picture inserter accepts
      them as an image. */
  datatype Upload = Upload(bytes: seq<bv8>, decodable: bool)

  /** A picture added to a slide: slide index, image bytes, left and top
      offsets and width. The height follows from the image's aspect ratio. */
  datatype Picture = Picture(slide: nat, image: seq<bv8>, left: int, top: int, width: int)

  /** A failed insertion is reported with the plan's name. */
  type Warning = string

  /** The slide of each plan: "A案", "B案", "C案" go on slides 5, 6, 7. */
  function SlideOf(plan: string): Option<nat> {
    if plan == "A案" then Some(5)
    else if plan == "B案" then Some(6)
    else if plan == "C案" then Some(7)
    else None
  }

  /** The picture for the `idx`-th image of a plan: it sits at the top left
      corner of a grid cell, the cell's column and row read back from its
      offsets give `idx` in row-major order over three columns, and the
      picture fills its cell's width but for the gap. */
  function PictureAt(slide: nat, image: seq<bv8>, idx: nat): (p: Picture)
    ensures p.slide == slide && p.image == image
    ensures p.left >= MarginX && (p.left - MarginX) % CellW == 0
    ensures p.top >= MarginY && (p.top - MarginY) % CellH == 0
    ensures (p.left - MarginX) / CellW < Cols
    ensures Cols * ((p.top - MarginY) / CellH) + (p.left - MarginX) / CellW == idx
    ensures p.left + p.width + Gap == MarginX + ((p.left - MarginX) / CellW + 1) * CellW
  {
    Picture(slide, image, MarginX + (idx % Cols) * CellW, MarginY + (idx / Cols) * CellH, CellW - Gap)
  }

  /** The slide a plan's images go on, when the plan is known and the deck
      has that slide. */
  function TargetSlide(plan: string, slideCount: nat): Option<nat> {
    match SlideOf(plan)
    case Some(s) => if slideCount > s then Some(s) else None
    case None => None
  }

  /** The first six uploads of a plan, the only ones read. */
  function Placed(images: seq<Upload>): seq<Upload> {
    if |images| <= MaxImages then images else images[..MaxImages]
  }

  /** The pictures added for `images` on `slide`, the `idx`-th upload at
      grid position `idx` when it decodes. */
  function GridPictures(slide: nat, images: seq<Upload>): seq<Picture>
    decreases |images|
  {
    if images == [] then []
    else
      var n := |images| - 1;
      GridPictures(slide, images[..n]) +
        (if images[n].decodable then [PictureAt(slide, images[n].bytes, n)] else [])
  }

  /** The warnings for the uploads of `images` that do not decode. */
  function GridWarnings(plan: string, images: seq<Upload>): seq<Warning>
    decreases |images|
  {
    if images == [] then []
    else
      var n := |images| - 1;
      GridWarnings(plan, images[..n]) + (if images[n].decodable then [] else [plan])
  }

  /** The pictures added for one plan's bucket. */
  function BucketPictures(plan: string, images: seq<Upload>, slideCount: nat): seq<Picture> {
    match TargetSlide(plan, slideCount)
    case Some(s) => GridPictures(s, Placed(images))
    case None => []
  }

  function BucketWarnings(plan: string, images: seq<Upload>, slideCount: nat): seq<Warning> {
    if TargetSlide(plan, slideCount).Some? then GridWarnings(plan, Placed(images)) else []
  }

  /** The pictures added for all buckets, in bucket order. */
  function Placements(buckets: seq<(string, seq<Upload>)>, slideCount: nat): seq<Picture>
    decreases |buckets|
  {
    if buckets == [] then []
    else
      var n := |buckets| - 1;
      Placements(buckets[..n], slideCount) + BucketPictures(buckets[n].0, buckets[n].1, slideCount)
  }

  function Failures(buckets: seq<(string, seq<Upload>)>, slideCount: nat): seq<Warning>
    decreases |buckets|
  {
    if buckets == [] then []
    else
      var n := |buckets| - 1;
      Failures(buckets[..n], slideCount) + BucketWarnings(buckets[n].0, buckets[n].1, slideCount)
  }

  /** The presentation as far as image placement sees it: a fixed number of
      slides, the pictures added so far and the warnings reported. */
  class Deck {
    const slideCount: nat
    var pictures: seq<Picture>
    var warnings: seq<Warning>

    constructor(slideCount: nat)
      ensures this.slideCount == slideCount
      ensures pictures == [] && warnings == []
    {
      this.slideCount := slideCount;
      pictures := [];
      warnings := [];
    }

    /** `slide.shapes.add_picture`: appends the picture, or fails when the
        upload is not an image. */
    method AddPicture(slide: nat, upload: Upload, left: int, top: int, width: int) returns (ok: bool)
      modifies this
      ensures ok == upload.decodable
      ensures pictures == old(pictures) + (if ok then [Picture(slide, upload.bytes, left, top, width)] else [])
      ensures warnings == old(warnings)
    {
      ok := upload.decodable;
      if ok {
        pictures := pictures + [Picture(slide, upload.bytes, left, top, width)];
      }
    }

    /** The placement loop over every bucket of uploads. */
    method PlaceImages(buckets: seq<(string, seq<Upload>)>)
      modifies this
      ensures pictures == old(pictures) + Placements(buckets, slideCount)
      ensures warnings == old(warnings) + Failures(buckets, slideCount)
    {
      for b := 0 to |buckets|
        invariant pictures == old(pictures) + Placements(buckets[..b], slideCount)
        invariant warnings == old(warnings) + Failures(buckets[..b], slideCount)
      {
        var plan, images := buckets[b].0, buckets[b].1;
        PlacementsStep(buckets, b, slideCount);
        PlaceBucket(plan, images);
        AppendAssoc(old(pictures), Placements(buckets[..b], slideCount), BucketPictures(plan, images, slideCount));
        AppendAssoc(old(warnings), Failures(buckets[..b], slideCount), BucketWarnings(plan, images, slideCount));
      }
      assert buckets[..|buckets|] == buckets;
    }

    /** One bucket: skipped unless the plan has a slide in the deck, then
        its first six images placed on the grid. */
    method PlaceBucket(plan: string, images: seq<Upload>)
      modifies this
      ensures pictures == old(pictures) + BucketPictures(plan, images, slideCount)
      ensures warnings == old(warnings) + BucketWarnings(plan, images, slideCount)
    {
      var slide := SlideOf(plan);
      if slide.Some? && slideCount > slide.value {
        var s := slide.value;
        var placed := if |images| <= MaxImages then images else images[..MaxImages];
        for idx := 0 to |placed|
          invariant pictures == old(pictures) + GridPictures(s, placed[..idx])
          invariant warnings == old(warnings) + GridWarnings(plan, placed[..idx])
        {
          assert placed[..idx + 1][..idx] == placed[..idx];
          var row := idx / Cols;
          var col := idx % Cols;
          var x := MarginX + col * CellW;
          var y := MarginY + row * CellH;
          var ok := AddPicture(s, placed[idx], x, y, CellW - Gap);
          if !ok {
            warnings := warnings + [plan];
          }
          AppendAssoc(old(pictures), GridPictures(s, placed[..idx]),
            if ok then [PictureAt(s, placed[idx].bytes, idx)] else []);
          AppendAssoc(old(warnings), GridWarnings(plan, placed[..idx]), if ok then [] else [plan]);
        }
        assert placed[..|placed|] == placed;
      }
    }
  }

  /** One more bucket adds its own pictures and warnings after those of the
      buckets before it. */
  lemma PlacementsStep(buckets: seq<(string, seq<Upload>)>, b: nat, slideCount: nat)
    requires b < |buckets|
    ensures Placements(buckets[..b + 1], slideCount) ==
      Placements(buckets[..b], slideCount) + BucketPictures(buckets[b].0, buckets[b].1, slideCount)
    ensures Failures(buckets[..b + 1], slideCount) ==
      Failures(buckets[..b], slideCount) + BucketWarnings(buckets[b].0, buckets[b].1, slideCount)
  {
    assert buckets[..b + 1][..b] == buckets[..b];
  }

  /** Concatenation is associative; stated once so that loops appending to
      a field need not rediscover it element by element. */
  lemma AppendAssoc<T>(a: seq<T>, b: seq<T>, c: seq<T>)
    ensures (a + b) + c == a + (b + c)
  {
  }

  /** The lengths in EMU: half an inch, an inch and a half, three inches,
      two inches; pictures are 2.8 inches wide. */
  lemma Lengths()
    ensures MarginX == 457200 && MarginY == 1371600
    ensures CellW == 2743200 && CellH == 1828800
    ensures PictureW == 2560320
  {
  }

  /** Each upload of the grid gives a picture or a warning, never both. */
  lemma {:induction false} GridCount(slide: nat, plan: string, images: seq<Upload>)
    ensures |GridPictures(slide, images)| + |GridWarnings(plan, images)| == |images|
    ensures (forall k :: 0 <= k < |images| ==> images[k].decodable) ==> |GridPictures(slide, images)| == |images|
    decreases |images|
  {
    if images != [] {
      GridCount(slide, plan, images[..|images| - 1]);
    }
  }

  /** A bucket gives min(|images|, 6) pictures or warnings when its plan is
      A, B or C and the deck has its slide, and nothing otherwise. */
  lemma BucketCount(plan: string, images: seq<Upload>, slideCount: nat)
    ensures |BucketPictures(plan, images, slideCount)| + |BucketWarnings(plan, images, slideCount)| ==
      (if (plan == "A案" && slideCount > 5) || (plan == "B案" && slideCount > 6) || (plan == "C案" && slideCount > 7)
       then (if |images| < MaxImages then |images| else MaxImages) else 0)
    ensures (forall k :: 0 <= k < |images| ==> images[k].decodable) ==>
      |BucketPictures(plan, images, slideCount)| ==
      (if TargetSlide(plan, slideCount).Some? then (if |images| < MaxImages then |images| else MaxImages) else 0)
  {
    match TargetSlide(plan, slideCount)
    case Some(s) =>
      GridCount(s, plan, Placed(images));
    case None =>
  }

  /** When every upload decodes, the `k`-th picture of a grid is the `k`-th
      upload at grid cell `k`. */
  lemma {:induction false} GridPositions(slide: nat, images: seq<Upload>)
    requires forall k :: 0 <= k < |images| ==> images[k].decodable
    ensures |GridPictures(slide, images)| == |images|
    ensures forall k :: 0 <= k < |images| ==> GridPictures(slide, images)[k] == PictureAt(slide, images[k].bytes, k)
    decreases |images|
  {
    if images != [] {
      GridPositions(slide, images[..|images| - 1]);
    }
  }

  /** Whatever decodes, every picture of a grid is some upload at its own
      grid cell, on the grid's slide. */
  lemma {:induction false} GridPicturesAtCells(slide: nat, images: seq<Upload>)
    ensures forall p :: p in GridPictures(slide, images) ==>
      exists k :: 0 <= k < |images| && p == PictureAt(slide, images[k].bytes, k)
    decreases |images|
  {
    if images != [] {
      var n := |images| - 1;
      GridPicturesAtCells(slide, images[..n]);
      forall p | p in GridPictures(slide, images)
        ensures exists k :: 0 <= k < |images| && p == PictureAt(slide, images[k].bytes, k)
      {
        if p in GridPictures(slide, images[..n]) {
          var k :| 0 <= k < n && p == PictureAt(slide, images[..n][k].bytes, k);
          assert images[..n][k] == images[k];
        } else {
          assert p == PictureAt(slide, images[n].bytes, n);
        }
      }
    }
  }

  /** Uploads after the sixth are never read: the outcome of a bucket is
      the same with them dropped. */
  lemma OnlyFirstSix(plan: string, images: seq<Upload>, slideCount: nat)
    ensures BucketPictures(plan, images, slideCount) == BucketPictures(plan, Placed(images), slideCount)
    ensures BucketWarnings(plan, images, slideCount) == BucketWarnings(plan, Placed(images), slideCount)
    ensures |Placed(images)| <= MaxImages
    ensures forall k :: 0 <= k < |Placed(images)| ==> Placed(images)[k] == images[k]
  {
  }

  /** The grid cells are those of three columns and two rows: distinct cells
      have distinct positions, neighbours in a row are a cell width apart
      and leave a gap of 0.2 inch between pictures, and rows are a cell
      height apart. */
  lemma GridGeometry(i: nat, j: nat)
    requires i < MaxImages && j < MaxImages
    ensures i != j ==> (PictureAt(0, [], i).left, PictureAt(0, [], i).top) != (PictureAt(0, [], j).left, PictureAt(0, [], j).top)
    ensures j == i + 1 && i % Cols < Cols - 1 ==>
      PictureAt(0, [], j).top == PictureAt(0, [], i).top &&
      PictureAt(0, [], j).left - (PictureAt(0, [], i).left + PictureW) == Gap
    ensures j == i + Cols ==>
      PictureAt(0, [], j).left == PictureAt(0, [], i).left && PictureAt(0, [], j).top - PictureAt(0, [], i).top == CellH
    ensures MarginX <= PictureAt(0, [], i).left < MarginX + Cols * CellW
    ensures MarginY <= PictureAt(0, [], i).top < MarginY + 2 * CellH
  {
  }
}
