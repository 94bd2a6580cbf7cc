/** The field splitter: cuts the compound "concept" and "tone & manner" texts
    of a proposal into the separate values the slide template shows, using the
    literal Japanese labels as split points (app.py lines 118-152). */
module FieldSplitter {
  import opened Strings

  /** "design suggestion:" — everything after it is the design note. */
  const DesignLabel: string := "デザイン示唆："
  /** "description:" — everything after it (and before the design note) is the description. */
  const DescriptionLabel: string := "説明："
  /** "concept name:" — a decoration removed from the title. */
  const ConceptNameLabel: string := "コンセプト名："
  /** The decorations removed from the title, in the order they are removed:
      the concept-name label, then the option tags for plans A to E. */
  const TitleNoise: seq<string> := [ConceptNameLabel, "【案A】", "【案B】", "【案C】", "【案D】", "【案E】"]
  /** "photo/illustration:" — everything after it is the photo style. */
  const PhotoLabel: string := "写真イラスト："
  /** "photo/illustration" without the colon, accepted when the label is written loosely. */
  const PhotoWord: string := "写真イラスト"
  /** "color:" — a decoration removed from the colour part. */
  const ColorLabel: string := "カラー："
  /** The characters `lstrip` removes after a loosely written photo label:
      the full-width colon, the ASCII colon and the space. */
  const PhotoPunctuation: set<char> := {'：', ':', ' '}

  datatype Concept = Concept(title: string, description: string, design: string)
  datatype Tone = Tone(color: string, photo: string)

  /** Removes every occurrence of each label in turn, as the chain of
      `.replace(label, "")` calls does. */
  function RemoveLabels(s: string, labels: seq<string>): string
    decreases |labels|
  {
    if labels == [] then s else RemoveLabels(ReplaceAll(s, labels[0], ""), labels[1..])
  }

  /** The title after its decorations are removed and it is stripped. */
  function CleanTitle(t: string): string {
    Strip(RemoveLabels(t, TitleNoise))
  }

  /** Splits the concept text: first at the design label, then what precedes
      it at the description label; what is left is the title. */
  function SplitConcept(raw: string): Concept {
    var (rest, design) :=
      if Contains(raw, DesignLabel) then
        var parts := SplitOnce(raw, DesignLabel);
        (parts[0], Strip(parts[1]))
      else (raw, "");
    var (head, description) :=
      if Contains(rest, DescriptionLabel) then
        var parts := SplitOnce(rest, DescriptionLabel);
        (parts[0], Strip(parts[1]))
      else (rest, "");
    Concept(CleanTitle(head), description, design)
  }

  /** The colour part: the "color:" labels removed, then stripped. */
  function ColorOf(s: string): string {
    Strip(ReplaceAll(s, ColorLabel, ""))
  }

  /** Splits the tone text with the three-tier fallback: at the exact photo
      label; else at the bare photo word, dropping the punctuation after it;
      else all of it is the colour part. */
  function SplitTone(raw: string): Tone {
    if Contains(raw, PhotoLabel) then
      var parts := SplitOnce(raw, PhotoLabel);
      Tone(ColorOf(parts[0]), Strip(parts[1]))
    else if Contains(raw, PhotoWord) then
      var parts := SplitOnce(raw, PhotoWord);
      Tone(ColorOf(parts[0]), Strip(LStrip(parts[1], PhotoPunctuation)))
    else
      Tone(ColorOf(raw), "")
  }

  /** Removing labels none of which occurs leaves the text as it is. */
  lemma {:induction false} RemoveAbsentLabels(s: string, labels: seq<string>)
    requires forall k :: 0 <= k < |labels| ==> !Contains(s, labels[k])
    ensures RemoveLabels(s, labels) == s
    decreases |labels|
  {
    if labels != [] {
      ReplaceAbsent(s, labels[0], "");
      assert forall k :: 0 <= k < |labels[1..]| ==> labels[1..][k] == labels[k + 1];
      RemoveAbsentLabels(s, labels[1..]);
    }
  }

  /** A title carrying none of the decorations is only stripped. */
  lemma CleanTitleUndecorated(t: string)
    requires forall k :: 0 <= k < |TitleNoise| ==> !Contains(t, TitleNoise[k])
    ensures CleanTitle(t) == Strip(t)
  {
    RemoveAbsentLabels(t, TitleNoise);
  }

  /** `SplitOnce` cuts at the first occurrence found by `IndexOf`. */
  lemma SplitOnceAtFirst(s: string, sep: string, i: nat)
    requires sep != [] && IndexOf(s, sep) == Some(i)
    ensures SplitOnce(s, sep) == [s[..i], s[i + |sep|..]]
  {
    var parts := SplitOnce(s, sep);
    assert OccursAt(s, sep, |parts[0]|) by {
      assert s[|parts[0]|..|parts[0]| + |sep|] == sep;
    }
    assert |parts[0]| == i;
    assert s[..i] == parts[0];
    assert s[i + |sep|..] == parts[1];
  }

  /** The design note is the stripped text after the first design label, and
      the title and description depend only on the text before that label;
      without the label the design note is empty. */
  lemma {:induction false} DesignSplitFirst(raw: string)
    ensures match IndexOf(raw, DesignLabel)
      case Some(i) =>
        SplitConcept(raw) == SplitConcept(raw[..i]).(design := Strip(raw[i + |DesignLabel|..]))
      case None =>
        SplitConcept(raw).design == ""
  {
    match IndexOf(raw, DesignLabel)
    case Some(i) =>
      SplitOnceAtFirst(raw, DesignLabel, i);
      PrefixBeforeFirst(raw, DesignLabel, i);
      assert !Contains(raw[..i], DesignLabel);
    case None =>
  }

  /** In text without a design label, the description is the stripped text
      after the first description label and the title is what precedes it;
      without the label the description is empty and all of it is the title. */
  lemma {:induction false} DescriptionSplit(rest: string)
    requires !Contains(rest, DesignLabel)
    ensures match IndexOf(rest, DescriptionLabel)
      case Some(j) =>
        SplitConcept(rest) == Concept(CleanTitle(rest[..j]), Strip(rest[j + |DescriptionLabel|..]), "")
      case None =>
        SplitConcept(rest) == Concept(CleanTitle(rest), "", "")
  {
    match IndexOf(rest, DescriptionLabel)
    case Some(j) =>
      SplitOnceAtFirst(rest, DescriptionLabel, j);
    case None =>
  }

  /** The design split at a known first occurrence of the design label. */
  lemma DesignSplitAt(raw: string, before: string, after: string)
    requires IndexOf(raw, DesignLabel) == Some(|before|)
    requires raw[..|before|] == before && raw[|before| + |DesignLabel|..] == after
    ensures SplitConcept(raw) == SplitConcept(before).(design := Strip(after))
  {
    DesignSplitFirst(raw);
  }

  /** The description split at a known first occurrence of the description label. */
  lemma DescriptionSplitAt(rest: string, before: string, after: string)
    requires !Contains(rest, DesignLabel)
    requires IndexOf(rest, DescriptionLabel) == Some(|before|)
    requires rest[..|before|] == before && rest[|before| + |DescriptionLabel|..] == after
    ensures SplitConcept(rest) == Concept(CleanTitle(before), Strip(after), "")
  {
    DescriptionSplit(rest);
  }

  /** Round trip: a concept written as title, description label, description,
      design label, design note splits back into its three parts (stripped,
      and the title cleaned), provided neither label occurs in the title and
      the design label does not occur in the description. No label can
      straddle the point where two parts meet: the first character of each
      label appears nowhere else in either label. */
  lemma ConceptRoundTrip(title: string, description: string, design: string)
    requires !Contains(title, DescriptionLabel) && !Contains(title, DesignLabel)
    requires !Contains(description, DesignLabel)
    ensures SplitConcept(title + DescriptionLabel + description + DesignLabel + design)
         == Concept(CleanTitle(title), Strip(description), Strip(design))
  {
    var a := title + DescriptionLabel + description;
    AbsentAcross(title, DescriptionLabel, description, DesignLabel);
    FirstAfterPrefix(a, DesignLabel, design);
    DesignSplitAt(a + DesignLabel + design, a, design);
    FirstAfterPrefix(title, DescriptionLabel, description);
    DescriptionSplitAt(a, title, description);
  }

  /** A title written after the concept-name label loses the label, when
      the rest carries none of the decorations. */
  lemma LabelledTitle(x: string)
    requires forall k :: 0 <= k < |TitleNoise| ==> !Contains(x, TitleNoise[k])
    ensures CleanTitle(ConceptNameLabel + x) == Strip(x)
  {
    var t := ConceptNameLabel + x;
    FirstAfterPrefix([], ConceptNameLabel, x);
    assert t == [] + ConceptNameLabel + x;
    ReplaceAtFirst(t, ConceptNameLabel, "", 0);
    assert TitleNoise[0] == ConceptNameLabel;
    ReplaceAbsent(x, ConceptNameLabel, "");
    assert ReplaceAll(t, ConceptNameLabel, "") == x;
    var tags := TitleNoise[1..];
    assert forall k :: 0 <= k < |tags| ==> tags[k] == TitleNoise[k + 1];
    RemoveAbsentLabels(x, tags);
  }

  /** A concept written in full, "コンセプト名：<name>説明：<description>デザイン示唆：<design>",
      splits into the stripped name, description and design note, when the
      name carries no decoration and neither label, and the description
      does not carry the design label. */
  lemma LabelledConcept(name: string, description: string, design: string)
    requires forall k :: 0 <= k < |TitleNoise| ==> !Contains(name, TitleNoise[k])
    requires !Contains(name, DescriptionLabel) && !Contains(name, DesignLabel)
    requires !Contains(description, DesignLabel)
    ensures SplitConcept(ConceptNameLabel + name + DescriptionLabel + description + DesignLabel + design)
         == Concept(Strip(name), Strip(description), Strip(design))
  {
    var title := ConceptNameLabel + name;
    assert title == [] + ConceptNameLabel + name;
    AbsentAcross([], ConceptNameLabel, name, DescriptionLabel);
    AbsentAcross([], ConceptNameLabel, name, DesignLabel);
    ConceptRoundTrip(title, description, design);
    LabelledTitle(name);
  }

  /** The three tiers of the tone split, in terms of the first occurrence of
      the exact label and of the bare word. */
  lemma {:induction false} ToneTiers(raw: string)
    ensures match IndexOf(raw, PhotoLabel)
      case Some(i) =>
        SplitTone(raw) == Tone(ColorOf(raw[..i]), Strip(raw[i + |PhotoLabel|..]))
      case None =>
        match IndexOf(raw, PhotoWord)
        case Some(i) =>
          SplitTone(raw) == Tone(ColorOf(raw[..i]), Strip(LStrip(raw[i + |PhotoWord|..], PhotoPunctuation)))
        case None =>
          SplitTone(raw) == Tone(ColorOf(raw), "")
  {
    match IndexOf(raw, PhotoLabel)
    case Some(i) =>
      SplitOnceAtFirst(raw, PhotoLabel, i);
    case None =>
      match IndexOf(raw, PhotoWord)
      case Some(i) =>
        SplitOnceAtFirst(raw, PhotoWord, i);
      case None =>
  }

  /** The first tier at a known first occurrence of the exact label. */
  lemma ToneExactAt(raw: string, before: string, after: string)
    requires IndexOf(raw, PhotoLabel) == Some(|before|)
    requires raw[..|before|] == before && raw[|before| + |PhotoLabel|..] == after
    ensures SplitTone(raw) == Tone(ColorOf(before), Strip(after))
  {
    ToneTiers(raw);
  }

  /** The second tier at a known first occurrence of the bare word. */
  lemma ToneLooseAt(raw: string, before: string, after: string)
    requires !Contains(raw, PhotoLabel)
    requires IndexOf(raw, PhotoWord) == Some(|before|)
    requires raw[..|before|] == before && raw[|before| + |PhotoWord|..] == after
    ensures SplitTone(raw) == Tone(ColorOf(before), Strip(LStrip(after, PhotoPunctuation)))
  {
    ToneTiers(raw);
  }

  /** A tone written as "<colour>写真イラスト：<photo>" splits into the colour
      part and the stripped photo part, when the exact label does not occur
      in the colour part. */
  lemma ExactPhotoLabel(color: string, photo: string)
    requires !Contains(color, PhotoLabel)
    ensures SplitTone(color + PhotoLabel + photo) == Tone(ColorOf(color), Strip(photo))
  {
    FirstAfterPrefix(color, PhotoLabel, photo);
    ToneExactAt(color + PhotoLabel + photo, color, photo);
  }

  /** The loose spellings of the photo label — the bare word followed by
      ASCII colons and spaces, or by nothing — give the same split as the
      exact label (see `ExactPhotoLabel`), when the bare word does not occur
      in the colour part, the exact label does not occur in the photo part
      and the photo part does not start with a character that `lstrip`
      removes. */
  lemma LoosePhotoLabel(color: string, sep: string, photo: string)
    requires !Contains(color, PhotoWord) && !Contains(photo, PhotoLabel)
    requires forall k :: 0 <= k < |sep| ==> sep[k] == ':' || sep[k] == ' '
    requires photo == [] || photo[0] !in PhotoPunctuation
    ensures SplitTone(color + PhotoWord + (sep + photo)) == Tone(ColorOf(color), Strip(photo))
  {
    LooseSeparator(sep, photo);
    BareWordSplit(color, sep + photo);
    LStripPrefix(sep, photo, PhotoPunctuation);
  }

  /** What follows a loosely written photo word carries no exact label and
      does not start with a full-width colon. */
  lemma LooseSeparator(sep: string, photo: string)
    requires !Contains(photo, PhotoLabel)
    requires forall k :: 0 <= k < |sep| ==> sep[k] == ':' || sep[k] == ' '
    requires photo == [] || photo[0] !in PhotoPunctuation
    ensures !Contains(sep + photo, PhotoLabel)
    ensures sep + photo == [] || (sep + photo)[0] != '：'
    ensures forall k :: 0 <= k < |sep| ==> sep[k] in PhotoPunctuation
  {
    var rest := sep + photo;
    forall j | 0 <= j ensures !OccursAt(rest, PhotoLabel, j) {
      if j >= |sep| {
        OccursInParts(sep, photo, PhotoLabel, j);
      } else {
        assert rest[j] == sep[j];
      }
    }
  }

  /** Without the exact label, the bare word splits the tone text. */
  lemma BareWordSplit(color: string, rest: string)
    requires !Contains(color, PhotoWord) && !Contains(rest, PhotoLabel)
    requires rest == [] || rest[0] != '：'
    ensures SplitTone(color + PhotoWord + rest) == Tone(ColorOf(color), Strip(LStrip(rest, PhotoPunctuation)))
  {
    NoExactLabel(color, rest);
    FirstAfterPrefix(color, PhotoWord, rest);
    ToneLooseAt(color + PhotoWord + rest, color, rest);
  }

  /** The exact label is the bare word and a full-width colon, so it does
      not occur in "<colour>写真イラスト<rest>" when the bare word is not in
      the colour part, the label is not in the rest and the rest does not
      start with that colon. */
  lemma NoExactLabel(color: string, rest: string)
    requires !Contains(color, PhotoWord) && !Contains(rest, PhotoLabel)
    requires rest == [] || rest[0] != '：'
    ensures !Contains(color + PhotoWord + rest, PhotoLabel)
  {
    var raw := color + PhotoWord + rest;
    FirstAfterPrefix(color, PhotoWord, rest);
    assert PhotoLabel[..|PhotoWord|] == PhotoWord;
    forall j | 0 <= j && j + |PhotoLabel| <= |raw| ensures !OccursAt(raw, PhotoLabel, j) {
      if j < |color| {
        assert !OccursAt(raw, PhotoWord, j);
        assert raw[j..j + |PhotoLabel|][..|PhotoWord|] == raw[j..j + |PhotoWord|];
      } else if j == |color| {
        assert raw[j + |PhotoWord|] == rest[0] != PhotoLabel[|PhotoWord|];
        assert raw[j..j + |PhotoLabel|][|PhotoWord|] == raw[j + |PhotoWord|];
      } else if j < |color| + |PhotoWord| {
        SoloAt(PhotoWord, j - |color|);
        assert raw[j] == PhotoWord[j - |color|];
      } else {
        assert raw == (color + PhotoWord) + rest;
        OccursInParts(color + PhotoWord, rest, PhotoLabel, j);
      }
    }
  }

  /** The exact label contains the bare word, so the third tier (no photo
      part at all) is taken exactly when the bare word does not occur. */
  lemma {:induction false} NoPhotoExactlyWithoutWord(raw: string)
    ensures SplitTone(raw).photo == "" || Contains(raw, PhotoWord)
    ensures !Contains(raw, PhotoWord) ==> SplitTone(raw) == Tone(ColorOf(raw), "")
  {
    if Contains(raw, PhotoLabel) {
      var i := IndexOf(raw, PhotoLabel).value;
      assert PhotoLabel[..|PhotoWord|] == PhotoWord;
      assert raw[i..i + |PhotoWord|] == PhotoLabel[..|PhotoWord|];
      assert OccursAt(raw, PhotoWord, i);
    }
  }
}
