/** The run-preserving rewriter (app.py lines 68-83). A paragraph is an array
    of run texts; the styling of a run is never read, so a run is its text.
    The placeholders of a paragraph may be split across runs, so the rewriter
    works on the concatenated text and, when anything matched, puts the whole
    result into the first run (keeping its styling) and empties the others. */
module Rewriter {
  import opened Strings

  /** An ordered replacement table: (token, text) pairs in insertion order. */
  type Replacements = seq<(string, string)>

  /** The working text after applying the pairs of `reps` in order, each only
      when its token is in the working text at its turn, and whether any was
      applied. */
  function Substitute(text: string, reps: Replacements): (string, bool)
    decreases |reps|
  {
    if reps == [] then (text, false)
    else
      var (t, any) := Substitute(text, reps[..|reps| - 1]);
      var (token, value) := reps[|reps| - 1];
      if Contains(t, token) then (ReplaceAll(t, token, value), true) else (t, any)
  }

  /** The run texts of a paragraph after the rewriter: unchanged when nothing
      matched or there is no run, otherwise the substituted text in the first
      run and every other run empty. */
  function RewrittenRuns(runs: seq<string>, reps: Replacements): (r: seq<string>)
    ensures |r| == |runs|
  {
    var (text, replaced) := Substitute(Join(runs, ""), reps);
    if replaced && |runs| > 0 then [text] + seq(|runs| - 1, _ => "") else runs
  }

  /** Rewrites one paragraph in place. */
  method RewriteParagraph(runs: array<string>, reps: Replacements)
    modifies runs
    ensures runs[..] == RewrittenRuns(old(runs[..]), reps)
  {
    var text := Join(runs[..], "");
    var replaced := false;
    var k := 0;
    while k < |reps|
      invariant 0 <= k <= |reps|
      invariant (text, replaced) == Substitute(Join(runs[..], ""), reps[..k])
    {
      assert reps[..k + 1][..k] == reps[..k];
      var (token, value) := reps[k];
      if Contains(text, token) {
        text := ReplaceAll(text, token, value);
        replaced := true;
      }
      k := k + 1;
    }
    assert reps[..k] == reps;
    if replaced && runs.Length > 0 {
      ghost var before := runs[..];
      runs[0] := text;
      for i := 1 to runs.Length
        invariant runs[0] == text
        invariant forall j :: 1 <= j < i ==> runs[j] == ""
      {
        runs[i] := "";
      }
      assert runs[..] == RewrittenRuns(before, reps);
    }
  }

  /** Paragraphs given as arrays are pairwise distinct objects. */
  predicate Distinct(paragraphs: seq<array<string>>) {
    forall i, j :: 0 <= i < j < |paragraphs| ==> paragraphs[i] != paragraphs[j]
  }

  /** `replace_text_in_shape` on a text frame: rewrites every paragraph of the
      frame and nothing else. */
  method RewriteFrame(frame: seq<array<string>>, reps: Replacements)
    requires Distinct(frame)
    modifies set p | p in frame
    ensures forall p :: p in frame ==> p[..] == RewrittenRuns(old(p[..]), reps)
  {
    for i := 0 to |frame|
      invariant forall j :: 0 <= j < i ==> frame[j][..] == RewrittenRuns(old(frame[j][..]), reps)
      invariant forall j :: i <= j < |frame| ==> frame[j][..] == old(frame[j][..])
    {
      RewriteParagraph(frame[i], reps);
    }
  }

  /** When no token of the table occurs in the text, substitution applies
      nothing and leaves the text as it is. */
  lemma {:induction false} SubstituteMiss(text: string, reps: Replacements)
    requires forall k :: 0 <= k < |reps| ==> !Contains(text, reps[k].0)
    ensures Substitute(text, reps) == (text, false)
    decreases |reps|
  {
    if reps != [] {
      SubstituteMiss(text, reps[..|reps| - 1]);
    }
  }

  /** The token of pair `k` is in the working text at its turn. */
  predicate MatchesAt(text: string, reps: Replacements, k: nat)
    requires k < |reps|
  {
    Contains(Substitute(text, reps[..k]).0, reps[k].0)
  }

  /** When the flag is unset the text is untouched. */
  lemma {:induction false} SubstituteUnflagged(text: string, reps: Replacements)
    ensures !Substitute(text, reps).1 ==> Substitute(text, reps).0 == text
    decreases |reps|
  {
    if reps != [] {
      SubstituteUnflagged(text, reps[..|reps| - 1]);
    }
  }

  /** The flag is exactly whether some token was in the working text at its
      turn. */
  lemma {:induction false} SubstituteFlag(text: string, reps: Replacements)
    ensures Substitute(text, reps).1 <==> exists k :: 0 <= k < |reps| && MatchesAt(text, reps, k)
    decreases |reps|
  {
    if reps != [] {
      var n := |reps| - 1;
      var front := reps[..n];
      SubstituteFlag(text, front);
      assert forall k :: 0 <= k < n ==> MatchesAt(text, reps, k) == MatchesAt(text, front, k) by {
        forall k | 0 <= k < n ensures MatchesAt(text, reps, k) == MatchesAt(text, front, k) {
          assert reps[..k] == front[..k];
        }
      }
      var t := Substitute(text, front).0;
      if Contains(t, reps[n].0) {
        assert MatchesAt(text, reps, n);
      }
    }
  }

  /** The text of runs that are all empty is empty. */
  lemma {:induction false} JoinEmptyRuns(n: nat)
    ensures Join(seq(n, _ => ""), "") == ""
  {
    if n > 1 {
      JoinEmptyRuns(n - 1);
      assert seq(n, _ => "")[1..] == seq(n - 1, _ => "");
    }
  }

  /** A first run followed by empty runs has the first run's text. */
  lemma JoinCollapsed(first: string, n: nat)
    ensures Join([first] + seq(n, _ => ""), "") == first
  {
    if n > 0 {
      assert ([first] + seq(n, _ => ""))[1..] == seq(n, _ => "");
      JoinEmptyRuns(n);
    }
  }

  /** A paragraph in which no token occurs keeps its runs, as does a
      paragraph without runs. */
  lemma RewriteMiss(runs: seq<string>, reps: Replacements)
    requires runs == [] || forall k :: 0 <= k < |reps| ==> !Contains(Join(runs, ""), reps[k].0)
    ensures RewrittenRuns(runs, reps) == runs
  {
    if runs != [] {
      SubstituteMiss(Join(runs, ""), reps);
    }
  }

  /** When a token matched and there are runs, the run count is kept, the
      first run holds the substituted text and every other run is empty. */
  lemma RewriteCollapse(runs: seq<string>, reps: Replacements)
    requires |runs| > 0 && Substitute(Join(runs, ""), reps).1
    ensures |RewrittenRuns(runs, reps)| == |runs|
    ensures RewrittenRuns(runs, reps)[0] == Substitute(Join(runs, ""), reps).0
    ensures forall i :: 1 <= i < |runs| ==> RewrittenRuns(runs, reps)[i] == ""
    ensures Join(RewrittenRuns(runs, reps)[1..], "") == ""
  {
    assert RewrittenRuns(runs, reps)[1..] == seq(|runs| - 1, _ => "");
    JoinEmptyRuns(|runs| - 1);
  }

  /** Whatever matched, a paragraph with runs reads afterwards as its old text
      with the table applied: the rewriter moves text between runs but never
      loses or adds any. */
  lemma ParagraphText(runs: seq<string>, reps: Replacements)
    requires |runs| > 0
    ensures Join(RewrittenRuns(runs, reps), "") == Substitute(Join(runs, ""), reps).0
  {
    var (text, replaced) := Substitute(Join(runs, ""), reps);
    SubstituteUnflagged(Join(runs, ""), reps);
    if replaced {
      JoinCollapsed(text, |runs| - 1);
    }
  }
}
