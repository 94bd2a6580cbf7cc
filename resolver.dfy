/** The placeholder resolver: turns the parsed proposal data, in either of its
    two schemas, into the table of fourteen `{{...}}` tokens and the text each
    is replaced by (app.py lines 89-112 and 159-176). */
module Resolver {
  import opened Strings
  import opened FieldSplitter
  import opened Rewriter

  /** "basic information": the key whose presence selects the nested schema. */
  const BasicInfoKey: string := "基本情報"

  /** The eight plain fields under "basic information" in the nested schema:
      product name, item name, specification, target, usage scene, objective,
      strategic objective, required elements. */
  const NestedKeys: seq<string> :=
    ["製品名", "アイテム名", "仕様", "ターゲット", "使用シーン", "目的", "戦略的目的", "必須要素"]
  /** The same eight fields at the top level of the flat schema. */
  const FlatKeys: seq<string> :=
    ["productName", "itemName", "spec", "target", "scene", "objectiveA", "objectiveB", "requiredElement"]
  /** "adopted concept" and "tone and manner rules": the compound fields of the nested schema. */
  const NestedConceptKey: string := "採用コンセプト"
  const NestedToneKey: string := "トーン_and_マナー規定"
  const FlatConceptKey: string := "concept"

  /** The fourteen placeholder tokens of the template, in the order of the
      replacement table: the eight plain fields, the three concept parts, the
      two tone parts and the whole tone text kept for older templates. */
  const Tokens: seq<string> := [
    "{{productName}}", "{{itemName}}", "{{spec}}", "{{target}}", "{{scene}}",
    "{{objectiveA}}", "{{objectiveB}}", "{{requiredElement}}",
    "{{concept}}", "{{conceptDescription}}", "{{conceptDesign}}",
    "{{toneColor}}", "{{tonePhoto}}", "{{toneManner}}"
  ]

  /** The flat schema's `toneManner`: a text or a list of lines. */
  datatype ToneValue = ToneText(text: string) | ToneLines(lines: seq<string>)

  /** The parsed proposal. `Nested` stands for an object that has the
      `BasicInfoKey` key (its string fields, and the top-level string
      fields); `Flat` for one that does not (its top-level string fields, and
      `toneManner` if present). */
  datatype RawInput =
    | Nested(basicInfo: map<string, string>, top: map<string, string>)
    | Flat(top: map<string, string>, toneManner: Option<ToneValue>)

  /** `d.get(k, "")`. */
  function Get(m: map<string, string>, k: string): string {
    if k in m then m[k] else ""
  }

  /** The object the plain fields are read from, and their keys, per schema. */
  function FieldMap(input: RawInput): map<string, string> {
    match input
    case Nested(basicInfo, _) => basicInfo
    case Flat(top, _) => top
  }

  function FieldKeys(input: RawInput): seq<string> {
    if input.Nested? then NestedKeys else FlatKeys
  }

  /** The raw concept text. */
  function ConceptText(input: RawInput): string {
    match input
    case Nested(_, top) => Get(top, NestedConceptKey)
    case Flat(top, _) => Get(top, FlatConceptKey)
  }

  /** The raw tone text; a flat list of lines is joined with newlines, and a
      missing flat `toneManner` is the empty list. */
  function ToneRaw(input: RawInput): string {
    match input
    case Nested(_, top) => Get(top, NestedToneKey)
    case Flat(_, None) => Join([], "\n")
    case Flat(_, Some(ToneText(t))) => t
    case Flat(_, Some(ToneLines(lines))) => Join(lines, "\n")
  }

  /** The plain field values, in token order, each defaulting to the empty text. */
  function PlainValues(input: RawInput): (values: seq<string>)
    ensures |values| == 8
    ensures forall i :: 0 <= i < 8 ==> values[i] == Get(FieldMap(input), FieldKeys(input)[i])
  {
    var m, keys := FieldMap(input), FieldKeys(input);
    [Get(m, keys[0]), Get(m, keys[1]), Get(m, keys[2]), Get(m, keys[3]),
     Get(m, keys[4]), Get(m, keys[5]), Get(m, keys[6]), Get(m, keys[7])]
  }

  /** The dictionary literal: tokens paired with their texts. */
  function Table(plain: seq<string>, concept: Concept, tone: Tone, toneRaw: string): (r: Replacements)
    requires |plain| == 8
    ensures |r| == |Tokens|
    ensures forall i :: 0 <= i < |r| ==> r[i].0 == Tokens[i]
    ensures forall i :: 0 <= i < 8 ==> r[i].1 == plain[i]
  {
    [
      (Tokens[0], plain[0]), (Tokens[1], plain[1]), (Tokens[2], plain[2]), (Tokens[3], plain[3]),
      (Tokens[4], plain[4]), (Tokens[5], plain[5]), (Tokens[6], plain[6]), (Tokens[7], plain[7]),
      (Tokens[8], concept.title), (Tokens[9], concept.description), (Tokens[10], concept.design),
      (Tokens[11], tone.color), (Tokens[12], tone.photo),
      (Tokens[13], toneRaw)
    ]
  }

  /** The replacement table built from the input. Its tokens are always the
      fourteen of `Tokens`, in that order, whatever the input. */
  function Resolve(input: RawInput): (r: Replacements)
    ensures |r| == |Tokens|
    ensures forall i :: 0 <= i < |r| ==> r[i].0 == Tokens[i]
  {
    Table(PlainValues(input), SplitConcept(ConceptText(input)), SplitTone(ToneRaw(input)), ToneRaw(input))
  }

  /** The tokens are pairwise distinct, so the table is a proper dictionary. */
  lemma TokensDistinct()
    ensures forall i, j :: 0 <= i < j < |Tokens| ==> Tokens[i] != Tokens[j]
  {
  }

  /** Each plain field is read from the schema's own object under the schema's
      own key, and a field that is absent there becomes the empty text. */
  lemma PlainFields(input: RawInput, i: nat)
    requires i < 8
    ensures Resolve(input)[i].1 == (if FieldKeys(input)[i] in FieldMap(input) then FieldMap(input)[FieldKeys(input)[i]] else "")
    ensures FieldKeys(input)[i] !in FieldMap(input) ==> Resolve(input)[i].1 == ""
  {
    var plain := PlainValues(input);
    assert Resolve(input)[i].1 == plain[i];
  }

  /** Splitting nothing gives nothing. */
  lemma SplitEmpty()
    ensures SplitConcept("") == Concept("", "", "")
    ensures SplitTone("") == Tone("", "")
  {
    forall pat: string | pat != [] ensures ReplaceAll("", pat, "") == "" {
    }
    RemoveAbsentLabels("", TitleNoise);
  }

  /** A missing concept leaves its three tokens empty; a missing tone leaves
      its three tokens empty. */
  lemma MissingCompoundFields(input: RawInput)
    ensures ConceptText(input) == "" ==> Resolve(input)[8].1 == "" && Resolve(input)[9].1 == "" && Resolve(input)[10].1 == ""
    ensures ToneRaw(input) == "" ==> Resolve(input)[11].1 == "" && Resolve(input)[12].1 == "" && Resolve(input)[13].1 == ""
    ensures input.Flat? && input.toneManner.None? ==> ToneRaw(input) == ""
    ensures input.Nested? && NestedConceptKey !in input.top ==> ConceptText(input) == ""
    ensures input.Nested? && NestedToneKey !in input.top ==> ToneRaw(input) == ""
    ensures input.Flat? && FlatConceptKey !in input.top ==> ConceptText(input) == ""
  {
    SplitEmpty();
  }

  /** The legacy `{{toneManner}}` token keeps the tone text unsplit; a list of
      lines in the flat schema is joined with newlines, and gives the same
      table as that joined text given directly. */
  lemma ToneMannerKeptWhole(top: map<string, string>, lines: seq<string>)
    ensures Resolve(Flat(top, Some(ToneLines(lines))))[13].1 == Join(lines, "\n")
    ensures Resolve(Flat(top, Some(ToneLines(lines)))) == Resolve(Flat(top, Some(ToneText(Join(lines, "\n")))))
  {
  }

  /** The two schemas are symmetric: a nested input and a flat input that
      carry the same field values give the same replacement table. */
  lemma SchemaSymmetry(nested: RawInput, flat: RawInput)
    requires nested.Nested? && flat.Flat?
    requires forall i :: 0 <= i < 8 ==> Get(nested.basicInfo, NestedKeys[i]) == Get(flat.top, FlatKeys[i])
    requires ConceptText(nested) == ConceptText(flat)
    requires ToneRaw(nested) == ToneRaw(flat)
    ensures Resolve(nested) == Resolve(flat)
  {
  }
}
