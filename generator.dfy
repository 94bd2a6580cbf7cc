/** `generate_pptx` (app.py lines 86-212) once the template is loaded: the
    replacement table is built from the proposal, every slide is walked and
    rewritten with it, and then the uploaded images are placed. */
module Generator {
  import opened Rewriter
  import opened Resolver
  import opened ShapeWalker
  import opened ImagePlacement

  /** The paragraphs of all slides, slide by slide. */
  function SlidesParagraphs(slides: seq<seq<Shape>>): seq<array<string>>
    decreases |slides|
  {
    if slides == [] then [] else SlidesParagraphs(slides[..|slides| - 1]) + Paragraphs(slides[|slides| - 1])
  }

  /** Fills the template: every paragraph of every slide is rewritten with
      the table resolved from `input`, and the deck receives the pictures of
      the uploads and the warnings of those that fail. The deck is the
      presentation whose slides are walked. */
  method GeneratePptx(input: RawInput, slides: seq<seq<Shape>>, deck: Deck, uploads: seq<(string, seq<Upload>)>)
    requires Distinct(SlidesParagraphs(slides))
    requires deck.slideCount == |slides|
    modifies deck, set p | p in SlidesParagraphs(slides)
    ensures forall p :: p in SlidesParagraphs(slides) ==> p[..] == RewrittenRuns(old(p[..]), Resolve(input))
    ensures deck.pictures == old(deck.pictures) + Placements(uploads, deck.slideCount)
    ensures deck.warnings == old(deck.warnings) + Failures(uploads, deck.slideCount)
  {
    var reps := Resolve(input);
    ghost var all := SlidesParagraphs(slides);
    ghost var before := map p | p in all :: p[..];
    SlidesAllocated(slides);
    for i := 0 to |slides|
      invariant forall p :: p in all ==> allocated(p)
      invariant forall p :: p in SlidesParagraphs(slides[..i]) ==> p in before && p[..] == RewrittenRuns(before[p], reps)
      invariant forall p :: p in all && p !in SlidesParagraphs(slides[..i]) ==> p[..] == before[p]
      invariant deck.pictures == old(deck.pictures) && deck.warnings == old(deck.warnings)
    {
      SlidesPrefixSplit(slides, i);
      DistinctParts(SlidesParagraphs(slides[..i]), Paragraphs(slides[i]), SlidesParagraphs(slides[i + 1..]));
      ghost var done := SlidesParagraphs(slides[..i]);
      ProcessShapes(slides[i], reps);
      assert SlidesParagraphs(slides[..i + 1]) == done + Paragraphs(slides[i]);
    }
    assert slides[..|slides|] == slides;
    deck.PlaceImages(uploads);
  }

  lemma SlidesPrefixSplit(s: seq<seq<Shape>>, i: nat)
    requires i < |s|
    ensures SlidesParagraphs(s) == SlidesParagraphs(s[..i]) + Paragraphs(s[i]) + SlidesParagraphs(s[i + 1..])
    ensures SlidesParagraphs(s[..i + 1]) == SlidesParagraphs(s[..i]) + Paragraphs(s[i])
  {
    SlidesStep(s, i);
    SlidesCut(s, i + 1);
  }

  lemma SlidesStep(s: seq<seq<Shape>>, i: nat)
    requires i < |s|
    ensures SlidesParagraphs(s[..i + 1]) == SlidesParagraphs(s[..i]) + Paragraphs(s[i])
  {
    assert s[..i + 1][..i] == s[..i];
  }

  lemma SlidesCut(s: seq<seq<Shape>>, k: nat)
    requires k <= |s|
    ensures SlidesParagraphs(s) == SlidesParagraphs(s[..k]) + SlidesParagraphs(s[k..])
  {
    assert s == s[..k] + s[k..];
    SlidesAppend(s[..k], s[k..]);
  }

  lemma {:induction false} SlidesAppend(a: seq<seq<Shape>>, b: seq<seq<Shape>>)
    ensures SlidesParagraphs(a + b) == SlidesParagraphs(a) + SlidesParagraphs(b)
    decreases |b|
  {
    if b != [] {
      var n := |b| - 1;
      assert (a + b)[..|a + b| - 1] == a + b[..n];
      SlidesAppend(a, b[..n]);
    } else {
      assert a + b == a;
    }
  }

  lemma {:induction false} SlidesAllocated(slides: seq<seq<Shape>>)
    ensures forall p :: p in SlidesParagraphs(slides) ==> allocated(p)
    decreases |slides|
  {
    if slides != [] {
      SlidesAllocated(slides[..|slides| - 1]);
      ShapesAllocated(slides[|slides| - 1]);
    }
  }
}
