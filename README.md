# Proposal-to-slides generator: verified model of the text and layout core

The application fills a PowerPoint template from a product proposal. The
proposal is parsed JSON. It also places the uploaded images of plans A, B
and C on their slides. This project models the part of `generate_pptx` and
its helper `replace_text_in_shape` that does the real work:

- **Field splitters** (`FieldSplitter`). The concept text is cut at the
  design marker, then at the description marker. The title is cleaned of its
  label and of the plan tags. The tone text is split into colour and
  photo/illustration parts by a three-tier fallback.
- **Placeholder resolver** (`Resolver`). The proposal comes in two schemas,
  nested under "basic information" or flat. The resolver builds from either
  one the ordered table of fourteen `{{...}}` tokens and their texts.
- **Run-preserving rewriter** (`Rewriter`). A paragraph is an array of run
  texts, rewritten in place. The run texts are concatenated, and every token
  of the table is replaced in order. When anything matched, the result goes
  into the first run and the other runs are emptied.
- **Shape walker** (`ShapeWalker`). It walks the shapes of a slide: groups
  recursively, then text frames, then every cell of every table.
- **Image grid placement** (`ImagePlacement`). A `Deck` class holds the
  pictures added so far. At most six images per plan are laid out in a
  three-column grid, and the lengths are computed exactly in EMU.
- **Generator**. It chains the steps: resolve, rewrite every slide, then
  place the images.

`Strings` models the Python string operations these rely on:

- `in` / `find`;
- `split(sep, 1)`; `split(sep)` is modelled only as the reference definition `replace` is proved against, since the application never calls it;
- `join`;
- `replace`, including Python's behaviour for an empty pattern;
- `strip()`, over the 29 code points `str.isspace` accepts;
- `lstrip(chars)`.

## Model

| member | source | states |
|---|---|---|
| Strings.ReplaceAll | app.py:76 | `str.replace`; no contract of its own: `ReplaceIsJoinOfSplit`, `ReplaceAbsent` and `ReplaceAtFirst` state its behaviour |
| Strings.Join | app.py:72 | `str.join`; no contract of its own: `SplitAllJoin` and `ReplaceIsJoinOfSplit` state its behaviour |
| Strings.IndexOf | app.py:124 | the result is the first index at which the marker occurs, and `None` exactly when it occurs nowhere |
| Strings.Contains | app.py:75 | Python's `pat in s`; no contract of its own: it holds exactly when `IndexOf`, whose ensures give the first occurrence, finds one |
| Strings.SplitAll | app.py:76 | `str.split(sep)`, the reference definition of `replace`: the result is never empty; `SplitAllJoin`, `SplitAllPiecesFree` and `ReplaceIsJoinOfSplit` state its behaviour |
| Strings.SplitOnce | app.py:125 | two parts exactly when the separator occurs; the parts rebuild the input around the separator, and the first part contains no occurrence |
| Strings.Strip | app.py:126 | the result is the input with whitespace removed from both ends only: both ends of the result are non-whitespace, and everything cut away is whitespace |
| Strings.LStrip | app.py:149 | the result is a suffix of the input; every character removed is in the set, and the result does not start with one |
| Strings.ReplaceIsJoinOfSplit | app.py:136 | replacing a non-empty pattern equals splitting on it and joining with the replacement |
| Strings.ReplaceAbsent | app.py:146 | replacing a pattern that does not occur leaves the text unchanged |
| Strings.ReplaceAtFirst | app.py:136 | replacement rewrites the first occurrence and continues after it |
| Strings.SplitAllJoin | app.py:136 | joining the pieces of a split with the separator gives back the text |
| Strings.SplitAllPiecesFree | app.py:136 | no piece of a split contains the separator |
| Strings.LStripPrefix | app.py:149 | left-stripping removes exactly a leading run of set characters |
| FieldSplitter.SplitConcept | app.py:119-136 | the concept split; no contract of its own: `DesignSplitFirst`, `DescriptionSplit`, `ConceptRoundTrip` and `LabelledConcept` state its behaviour |
| FieldSplitter.RemoveLabels | app.py:136 | the chain of `.replace(label, "")` calls; no contract of its own: `RemoveAbsentLabels` and `LabelledTitle` state its behaviour |
| FieldSplitter.CleanTitle | app.py:136 | the title cleanup; no contract of its own: `CleanTitleUndecorated` and `LabelledTitle` state its behaviour |
| FieldSplitter.SplitTone | app.py:139-152 | the three-tier tone split; no contract of its own: `ToneTiers`, `ExactPhotoLabel`, `LoosePhotoLabel` and `NoPhotoExactlyWithoutWord` state its behaviour |
| FieldSplitter.ColorOf | app.py:146-152 | the colour part with its label removed, stripped; no contract of its own: `ToneTiers` states where it applies |
| FieldSplitter.DesignSplitFirst | app.py:123-127 | with the design marker present, the design is the stripped text after its first occurrence, and title and description come from the text before it only; without the marker the design is empty |
| FieldSplitter.DescriptionSplit | app.py:129-133 | on text without the design marker, the description is the stripped text after the first description marker and the title is cleaned from the text before it; without the marker the description is empty |
| FieldSplitter.ConceptRoundTrip | app.py:119-136 | a concept assembled as title, description marker, description, design marker and design splits back into the cleaned title, the stripped description and the stripped design, whenever neither marker occurs in the title and the design marker does not occur in the description |
| FieldSplitter.LabelledConcept | app.py:119-136 | a concept that also starts with the concept-name label splits into the stripped name, description and design, whenever the name carries no label or plan tag and the description no design marker |
| FieldSplitter.LabelledTitle | app.py:136 | the concept-name label is removed from a title whose rest carries no label or plan tag, and the rest is stripped |
| FieldSplitter.CleanTitleUndecorated | app.py:136 | a title without any label or plan tag is only stripped |
| FieldSplitter.RemoveAbsentLabels | app.py:136 | removing labels that do not occur leaves the text unchanged |
| FieldSplitter.SplitOnceAtFirst | app.py:125 | `split(sep, 1)` gives the text before and after the first occurrence |
| FieldSplitter.ToneTiers | app.py:143-152 | first tier: the photo part is the stripped text after the first exact photo label, and the colour part is the text before it with the colour label removed, stripped; second tier (no exact label, bare word present): the text after the word is left-stripped of `：`, `:` and space, then stripped; third tier: no photo part, and the colour part is the whole text with the colour label removed, stripped |
| FieldSplitter.ToneExactAt | app.py:143-146 | first tier stated on the text before and after the first exact label |
| FieldSplitter.ToneLooseAt | app.py:147-150 | second tier stated on the text before and after the first bare word |
| FieldSplitter.ExactPhotoLabel | app.py:143-146 | colour, exact photo label, photo splits into the cleaned colour and the stripped photo, whenever the exact label does not occur in the colour part |
| FieldSplitter.LoosePhotoLabel | app.py:147-150 | colour, bare word, ASCII colons or spaces, photo splits into the cleaned colour and the stripped photo, whenever the bare word is not in the colour part, the exact label is not in the photo part and the photo part does not start with a stripped character |
| FieldSplitter.BareWordSplit | app.py:147-150 | the bare word, absent from the colour part and not followed by the full-width colon or by a later exact label, selects the second tier at that word |
| FieldSplitter.NoExactLabel | app.py:143 | the exact label does not occur when the bare word is absent from the colour part, the label is absent from the rest, and the word is not followed by the full-width colon |
| FieldSplitter.LooseSeparator | app.py:149 | ASCII colons and spaces are among the characters the second tier strips, and they neither form the exact label nor start with the full-width colon |
| FieldSplitter.NoPhotoExactlyWithoutWord | app.py:151-152 | the photo part is non-empty only if the photo word occurs; without it the colour part is the cleaned whole text |
| Resolver.Get | app.py:91-109 | `d.get(k, "")`; no contract of its own: `PlainFields` and `MissingCompoundFields` state its behaviour |
| Resolver.ConceptText | app.py:99-110 | the raw concept text per schema; no contract of its own: `MissingCompoundFields` and `SplitEmpty` state its behaviour |
| Resolver.ToneRaw | app.py:100-112 | the raw tone text per schema, a list joined with newlines; no contract of its own: `ToneMannerKeptWhole` and `MissingCompoundFields` state its behaviour |
| Resolver.PlainValues | app.py:91-109 | the eight plain values, each the schema's own key looked up in the schema's own object, empty when absent |
| Resolver.Table | app.py:159-176 | the dictionary literal: one entry per token, the tokens in the template's order, the first eight texts the plain values in the order of their keys |
| Resolver.Resolve | app.py:159-176 | for every input, in either schema, the table holds exactly the fourteen tokens, in the template's order |
| Resolver.TokensDistinct | app.py:159-176 | the fourteen tokens are pairwise distinct |
| Resolver.PlainFields | app.py:89-109 | each plain field is read under the schema's own key from the schema's own object, and is empty when absent |
| Resolver.MissingCompoundFields | app.py:99-111 | a missing concept or tone key gives an empty raw text, and an empty concept or tone gives empty tokens |
| Resolver.SplitEmpty | app.py:119-152 | splitting an empty concept or tone gives empty parts |
| Resolver.ToneMannerKeptWhole | app.py:111-112 | a list-valued flat tone is joined with newlines; `{{toneManner}}` holds that raw text; the list and its joined text give the same table |
| Resolver.SchemaSymmetry | app.py:89-112 | a nested and a flat input that carry the same field values give the same table: the two schemas differ only in where the values are read from |
| Rewriter.RewriteParagraph | app.py:71-83 | the runs of the paragraph become exactly `RewrittenRuns` of their old texts |
| Rewriter.RewriteFrame | app.py:68-83 | every paragraph of the frame is rewritten, and no other object changes |
| Rewriter.RewrittenRuns | app.py:79-83 | rewriting keeps the number of runs |
| Rewriter.Substitute | app.py:73-77 | the in-order token loop; no contract of its own: `SubstituteMiss`, `SubstituteUnflagged`, `SubstituteFlag` and `RewriteParagraph`'s loop invariant state its behaviour |
| Rewriter.SubstituteMiss | app.py:74-77 | when no token occurs in the text, nothing is applied and the flag stays false |
| Rewriter.SubstituteUnflagged | app.py:73-77 | when the flag is false, the working text is unchanged |
| Rewriter.SubstituteFlag | app.py:73-77 | the flag is set exactly when some token occurs in the working text at its turn |
| Rewriter.RewriteMiss | app.py:75-80 | a paragraph with no token in its text, or with no run, keeps its runs |
| Rewriter.RewriteCollapse | app.py:79-83 | after a match, run 0 holds the substituted text and every other run is empty |
| Rewriter.ParagraphText | app.py:72-83 | a paragraph with runs afterwards reads as its old text with the table applied; no text is lost or added |
| ShapeWalker.ProcessShapes | app.py:179-189 | every paragraph reached from the shapes is rewritten with the table, and nothing else changes |
| ShapeWalker.Paragraphs | app.py:180-188 | the paragraphs the walk visits, shape by shape in order; no contract of its own: `ReachedShapesVisited`, `VisitedFromReachedShapes` and `ParagraphsAppend` state its behaviour, and `ProcessShapes` is proved to rewrite exactly these |
| ShapeWalker.ShapeParagraphs | app.py:181-188 | the paragraphs visited from one shape: a group's children, a text frame's paragraphs, a table's cells, nothing for other shapes; no contract of its own: `ProcessShape` is proved to rewrite exactly these |
| ShapeWalker.RowsParagraphs | app.py:185-188 | the paragraphs of a table, row by row; no contract of its own: `ProcessTable` is proved to rewrite exactly these |
| ShapeWalker.CellsParagraphs | app.py:187-188 | the paragraphs of one row, cell by cell; no contract of its own: `ProcessRow` is proved to rewrite exactly these |
| ShapeWalker.ProcessShape | app.py:181-188 | a group is walked recursively, a text frame is rewritten, every cell of a table is rewritten, and any other shape is left alone |
| ShapeWalker.ProcessTable | app.py:185-188 | every cell of every row is rewritten |
| ShapeWalker.ProcessRow | app.py:187-188 | every cell of one row is rewritten |
| ShapeWalker.ReachedShapesVisited | app.py:180-188 | every text frame and table cell reached through nested groups is among the paragraphs visited |
| ShapeWalker.VisitedFromReachedShapes | app.py:180-188 | every visited paragraph belongs to a reached text frame or table cell; groups have no text of their own, and other shapes are not visited |
| ShapeWalker.ParagraphsAppend | app.py:180 | the walk over two shape lists visits the paragraphs of each, in order |
| ImagePlacement.Deck.AddPicture | app.py:208-212 | a decodable upload appends its picture record; otherwise the call fails and nothing is added |
| ImagePlacement.Deck.PlaceImages | app.py:198-212 | the deck gains exactly the pictures and warnings `Placements` and `Failures` specify, bucket by bucket |
| ImagePlacement.Deck.PlaceBucket | app.py:199-212 | a bucket is skipped unless its plan has a slide in the deck; otherwise its first six uploads are placed on the grid |
| ImagePlacement.Lengths | app.py:194-195 | the margins and cells are 457200, 1371600, 2743200 and 1828800 EMU, and pictures are 2560320 EMU wide |
| ImagePlacement.GridCount | app.py:202-212 | each upload gives exactly one picture or one warning |
| ImagePlacement.BucketCount | app.py:198-202 | a bucket gives min(number of uploads, 6) pictures or warnings when its plan is A案, B案 or C案 and the deck has slide 5, 6 or 7; otherwise it gives nothing |
| ImagePlacement.GridPositions | app.py:202-210 | when every upload decodes, the k-th picture is the k-th upload at column k % 3 and row k / 3 |
| ImagePlacement.GridPicturesAtCells | app.py:202-210 | every picture is some upload placed at its own grid cell on the plan's slide |
| ImagePlacement.PictureAt | app.py:203-210 | the picture sits at the top left corner of a grid cell; reading column and row back from its offsets gives the image's index in row-major order over three columns; it fills its cell's width but for the 0.2 inch gap |
| ImagePlacement.TargetSlide | app.py:192-200 | the plan's slide when it is A案, B案 or C案 and the deck has that slide; no contract of its own: `BucketCount` states its behaviour |
| ImagePlacement.SlideOf | app.py:192 | the `slide_indices` dictionary: A案, B案 and C案 go on slides 5, 6 and 7; no contract of its own: `BucketCount` states its behaviour |
| ImagePlacement.InchTenths | app.py:194-195 | `Inches` for a whole number of tenths of an inch; no contract of its own: `Lengths` states the EMU values it gives |
| ImagePlacement.Placed | app.py:202 | `images[:6]`; no contract of its own: `BucketCount` and `OnlyFirstSix` state its behaviour |
| ImagePlacement.GridWarnings | app.py:209-212 | the warnings of one grid, one per upload that fails to decode; no contract of its own: `GridCount` states its behaviour |
| ImagePlacement.BucketWarnings | app.py:198-212 | the warnings of one bucket; no contract of its own: `BucketCount` and `OnlyFirstSix` state its behaviour |
| ImagePlacement.Failures | app.py:198-212 | the warnings of all buckets in order; no contract of its own: `Deck.PlaceImages` is proved to add exactly these |
| ImagePlacement.GridPictures | app.py:202-212 | the pictures of one grid; no contract of its own: `GridCount`, `GridPositions` and `GridPicturesAtCells` state its behaviour |
| ImagePlacement.BucketPictures | app.py:198-212 | the pictures of one bucket; no contract of its own: `BucketCount` and `OnlyFirstSix` state its behaviour |
| ImagePlacement.Placements | app.py:198-212 | the pictures of all buckets in order; no contract of its own: `Deck.PlaceImages` is proved to add exactly these |
| ImagePlacement.OnlyFirstSix | app.py:202 | uploads after the sixth are never read: the bucket's outcome is the same with them dropped |
| ImagePlacement.GridGeometry | app.py:203-206 | distinct grid cells have distinct positions; neighbours in a row leave a 0.2 inch gap; rows are one cell height apart; all cells are inside the 3 by 2 grid |
| Generator.GeneratePptx | app.py:159-212 | every paragraph of every slide is rewritten with the resolved table; the deck, whose slides are the ones walked, then gains the placements and warnings of the uploads |
| Generator.SlidesParagraphs | app.py:178-188 | the paragraphs of all slides, slide by slide; no contract of its own: `GeneratePptx` is proved to rewrite exactly these |

## Left out

- Login, password rotation and `config.json` (app.py:14-61): these are UI session state and file I/O.
- The page layout, the upload widgets, the download button and the file name: these are UI.
- JSON parsing and its error path: the model takes an already-parsed proposal, as the `RawInput` datatype.
- Non-string JSON values: every field is taken to be a string, and the flat `toneManner` a string or a list of strings. Python's `str()` coercion of other values is not modelled.
- Loading the template, saving the deck, and reading the uploads into byte streams: these are file and stream I/O.
- What `add_picture` does inside: image decoding, height scaling and the exceptions it raises. An upload carries a flag saying whether it decodes. A picture record stores slide, bytes, left, top and width.
- Warning text: a failure records the plan's name only. The exception message is not modelled.
- Run styling: it is never read, so a run is its text alone.
- Pictures live in `Deck.pictures`, apart from the shape tree of the slides. The walker runs before any picture is added, so the two never meet.
- The `text_frame` guard of `replace_text_in_shape` (app.py:69-70) is not modelled. The walker only calls it on shapes that have a text frame, and on table cells, which always have one.
- ShapeWalker.ProcessShapes: requires the paragraphs it reaches to be distinct objects. Paragraph objects are distinct in a presentation, and the frame reasoning needs this.
- Strings.SplitOnce: requires a non-empty separator. Python raises on an empty one, and every separator in the source is a non-empty literal.
- FieldSplitter.CleanTitle: the title cleanup is a single left-to-right pass per label, as `str.replace` is. Removing one label can join the two halves of another into a new label, e.g. `コンセプトコンセプト名：名：`. So the model does not claim the final title is free of labels, only that it is the stripped result of the removals in order.
- Resolver.SchemaSymmetry: the schema is chosen by the caller through the `RawInput` constructor, standing for whether the parsed object has the "basic information" key. JSON parsing is not modelled, so that choice is not proved.
- Resolver.Resolve: the rewriter applies the table in order, and a replacement text may contain another token. The model keeps the source's order and does not claim the result is independent of it.
