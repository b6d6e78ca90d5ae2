/** `HuggingFaceService.splitTextIntoChunks`: split the text into paragraphs
    at blank lines, trim them, drop the empty ones, and pack consecutive
    paragraphs into chunks of about `MaxInputLength` characters. */
module Chunking {
  import opened Text

  /** `maxInputLength` */
  const MaxInputLength: nat := 1024

  const ParagraphGap := "\n\n"

  // ------------------------------------------------------------ paragraphs

  /** The pattern `\n\s*\n` can match from `q` to `m + 1`: two newlines with
      only whitespace between them. */
  predicate BlankLineAt(s: string, q: nat, m: nat) {
    && q < m < |s| && s[q] == '\n' && s[m] == '\n'
    && forall k :: q < k < m ==> IsSpace(s[k])
  }

  /** The last newline in `s[lo..hi]`, or -1. */
  function LastNewline(s: string, lo: nat, hi: nat): (k: int)
    requires lo <= hi <= |s|
    ensures k == -1 || (lo <= k < hi && s[k] == '\n')
    ensures forall j :: k < j < hi && lo <= j ==> s[j] != '\n'
    decreases hi - lo
  {
    if hi == lo then -1
    else if s[hi - 1] == '\n' then hi - 1
    else LastNewline(s, lo, hi - 1)
  }

  /** End of the match of `\n\s*\n` at `q`, or 0 when there is none. The
      greedy `\s*` first takes the whole whitespace run after `q` and then
      backs off to its last newline. */
  function BreakEnd(s: string, q: nat): (e: nat)
    requires q < |s|
    ensures e > 0 ==> q + 2 <= e <= |s| && BlankLineAt(s, q, e - 1)
    ensures e > 0 ==> forall m: nat :: BlankLineAt(s, q, m) ==> m <= e - 1
    ensures e == 0 ==> forall m: nat :: !BlankLineAt(s, q, m)
  {
    if s[q] != '\n' then 0
    else
      var run := SpaceRunEnd(s, q + 1);
      var k := LastNewline(s, q + 1, run);
      BlankLineInRun(s, q, run, k);
      if k < 0 then 0 else k + 1
  }

  /** Every blank line starting at `q` ends inside the whitespace run after
      `q`, so the last newline of that run is its furthest end. */
  lemma BlankLineInRun(s: string, q: nat, run: nat, k: int)
    requires q < |s| && s[q] == '\n' && run == SpaceRunEnd(s, q + 1)
    requires k == LastNewline(s, q + 1, run)
    ensures forall m: nat :: BlankLineAt(s, q, m) ==> m <= k
    ensures k >= 0 ==> BlankLineAt(s, q, k)
  {
    forall m: nat | BlankLineAt(s, q, m)
      ensures m <= k
    {
      assert IsSpace(s[m]);
      SpaceRunCovers(s, q + 1, m);
    }
  }

  /** A stretch of whitespace lies inside the run that starts with it. */
  lemma SpaceRunCovers(s: string, i: nat, m: nat)
    requires i <= m < |s|
    requires forall k :: i <= k <= m ==> IsSpace(s[k])
    ensures m < SpaceRunEnd(s, i)
    decreases m - i
  {
    if i < m {
      SpaceRunCovers(s, i + 1, m);
    }
  }

  /** `t` is one whole match of `\n\s*\n`. */
  predicate IsBlankLine(t: string) {
    |t| >= 2 && BlankLineAt(t, 0, |t| - 1)
  }

  ghost predicate HasBlankLine(t: string) {
    exists q, m :: BlankLineAt(t, q, m)
  }

  /** `s.split(/\n\s*\n/)` continued from piece start `p`, scanning at `q`. */
  function SplitFrom(s: string, p: nat, q: nat): (pieces: seq<string>)
    requires p <= q <= |s|
    requires forall k :: p <= k < q ==> BreakEnd(s, k) == 0
    ensures |pieces| >= 1
    ensures forall k :: 0 <= k < |pieces| ==> !HasBlankLine(pieces[k])
    decreases |s| - q, |s| - p
  {
    if q == |s| then
      NoBlankLineInside(s, p, q);
      assert s[p..] == s[p..q];
      [s[p..]]
    else if BreakEnd(s, q) > 0 then
      NoBlankLineInside(s, p, q);
      [s[p..q]] + SplitFrom(s, BreakEnd(s, q), BreakEnd(s, q))
    else
      SplitFrom(s, p, q + 1)
  }

  /** A stretch where no match starts holds no blank line. */
  lemma NoBlankLineInside(s: string, p: nat, q: nat)
    requires p <= q <= |s|
    requires forall k :: p <= k < q ==> BreakEnd(s, k) == 0
    ensures !HasBlankLine(s[p..q])
  {
    var t := s[p..q];
    forall a: nat, b: nat
      ensures !BlankLineAt(t, a, b)
    {
      if a < |t| {
        assert BreakEnd(s, p + a) == 0;
        assert !BlankLineAt(s, p + a, p + b);
        BlankLineShift(s, p, q, a, b);
      }
    }
  }

  /** A blank line in a slice is a blank line of the whole string. */
  lemma BlankLineShift(s: string, p: nat, q: nat, a: nat, b: nat)
    requires p <= q <= |s|
    ensures BlankLineAt(s[p..q], a, b) ==> BlankLineAt(s, p + a, p + b)
  {
    var t := s[p..q];
    if BlankLineAt(t, a, b) {
      forall k | p + a < k < p + b
        ensures IsSpace(s[k])
      {
        assert s[k] == t[k - p];
      }
    }
  }

  /** The separators `SplitFrom` cuts out, in order. Each one is a whole
      match of `\n\s*\n`. */
  function BreaksFrom(s: string, p: nat, q: nat): (seps: seq<string>)
    requires p <= q <= |s|
    requires forall k :: p <= k < q ==> BreakEnd(s, k) == 0
    ensures |seps| + 1 == |SplitFrom(s, p, q)|
    ensures forall k :: 0 <= k < |seps| ==> IsBlankLine(seps[k])
    decreases |s| - q, |s| - p
  {
    if q == |s| then []
    else if BreakEnd(s, q) > 0 then
      var e := BreakEnd(s, q);
      assert IsBlankLine(s[q..e]) by {
        BlankLineSlice(s, q, e - 1);
      }
      [s[q..e]] + BreaksFrom(s, e, e)
    else
      BreaksFrom(s, p, q + 1)
  }

  /** A blank line cut out of its string is a blank line on its own. */
  lemma BlankLineSlice(s: string, q: nat, m: nat)
    requires BlankLineAt(s, q, m)
    ensures BlankLineAt(s[q..m + 1], 0, m - q)
  {
    var t := s[q..m + 1];
    forall k | 0 < k < m - q
      ensures IsSpace(t[k])
    {
      assert t[k] == s[q + k];
    }
  }

  /** Putting the separators back between the pieces gives the text back. */
  lemma {:induction false} SplitFromRebuilds(s: string, p: nat, q: nat)
    requires p <= q <= |s|
    requires forall k :: p <= k < q ==> BreakEnd(s, k) == 0
    ensures Interleave(SplitFrom(s, p, q), BreaksFrom(s, p, q)) == s[p..]
    decreases |s| - q, |s| - p
  {
    if q == |s| {
    } else if BreakEnd(s, q) > 0 {
      var e := BreakEnd(s, q);
      SplitFromRebuilds(s, e, e);
      InterleaveCons(s[p..q], s[q..e], SplitFrom(s, e, e), BreaksFrom(s, e, e));
      SliceThree(s, p, q, e);
    } else {
      SplitFromRebuilds(s, p, q + 1);
    }
  }

  /** With no match ahead, the rest of the text is one piece. */
  lemma {:induction false} SplitFromNoBreak(s: string, p: nat, q: nat)
    requires p <= q <= |s|
    requires forall k :: p <= k < |s| ==> BreakEnd(s, k) == 0
    ensures SplitFrom(s, p, q) == [s[p..]]
    decreases |s| - q
  {
    if q < |s| {
      SplitFromNoBreak(s, p, q + 1);
    }
  }

  /** The paragraphs of a text: no paragraph contains a blank line. */
  function Paragraphs(text: string): (ps: seq<string>)
    ensures |ps| >= 1
    ensures forall k :: 0 <= k < |ps| ==> !HasBlankLine(ps[k])
  {
    SplitFrom(text, 0, 0)
  }

  /** The blank-line separators between the paragraphs, in order. */
  function ParagraphBreaks(text: string): (seps: seq<string>)
    ensures |seps| + 1 == |Paragraphs(text)|
    ensures forall k :: 0 <= k < |seps| ==> IsBlankLine(seps[k])
  {
    BreaksFrom(text, 0, 0)
  }

  /** Nothing is lost: the paragraphs with their separators put back are
      the text. */
  lemma ParagraphsRebuild(text: string)
    ensures Interleave(Paragraphs(text), ParagraphBreaks(text)) == text
  {
    SplitFromRebuilds(text, 0, 0);
  }

  /** A text is a single paragraph exactly when it holds no blank line. */
  lemma OneParagraphIff(text: string)
    ensures Paragraphs(text) == [text] <==> !HasBlankLine(text)
  {
    assert !HasBlankLine(Paragraphs(text)[0]);
    if !HasBlankLine(text) {
      forall k | 0 <= k < |text|
        ensures BreakEnd(text, k) == 0
      {
        BreakMeansBlankLine(text, k);
      }
      SplitFromNoBreak(text, 0, 0);
      assert text[0..] == text;
    }
  }

  /** A match found at `q` is a blank line of the text. */
  lemma BreakMeansBlankLine(s: string, q: nat)
    requires q < |s|
    ensures BreakEnd(s, q) > 0 ==> HasBlankLine(s)
  {
    if BreakEnd(s, q) > 0 {
      assert BlankLineAt(s, q, BreakEnd(s, q) - 1);
    }
  }

  // ---------------------------------------------------------------- chunks

  /** The loop state: the chunks pushed so far and `currentChunk`. */
  datatype ChunkState = ChunkState(done: seq<string>, current: string)

  /** The chunks the state stands for once the final `currentChunk` is pushed. */
  function Flush(st: ChunkState): seq<string> {
    if st.current != "" then st.done + [st.current] else st.done
  }

  /** One iteration of the loop on a trimmed paragraph. The length test
      leaves out the two-character separator that the merge then inserts. */
  function Step(st: ChunkState, trimmed: string): ChunkState {
    if trimmed == "" then st
    else if |st.current + trimmed| > MaxInputLength then
      ChunkState(if st.current != "" then st.done + [st.current] else st.done, trimmed)
    else
      ChunkState(st.done, st.current + (if st.current != "" then ParagraphGap else "") + trimmed)
  }

  function Fold(st: ChunkState, paragraphs: seq<string>): ChunkState
    decreases |paragraphs|
  {
    if paragraphs == [] then st else Fold(Step(st, Trim(paragraphs[0])), paragraphs[1..])
  }

  /** The paragraphs the loop does not skip. */
  function Kept(paragraph: string): seq<string> {
    if Trim(paragraph) == "" then [] else [Trim(paragraph)]
  }

  /** A chunk is well formed when it is non-empty and either one of the kept
      paragraphs or at most two characters over the limit. */
  predicate WellFormed(chunk: string, paragraphs: seq<string>) {
    chunk != "" && (chunk in NonBlankTrimmed(paragraphs) || |chunk| <= MaxInputLength + 2)
  }

  lemma KeptIsNonBlankTrimmed(ps: seq<string>)
    requires ps != []
    ensures NonBlankTrimmed(ps) == Kept(ps[0]) + NonBlankTrimmed(ps[1..])
  {
  }

  /** Joining `a + c` puts one separator between the two joins. */
  lemma {:induction false} JoinAppend(a: seq<string>, c: seq<string>, sep: string)
    requires a != [] && c != []
    ensures Join(a + c, sep) == Join(a, sep) + sep + Join(c, sep)
    decreases |a|
  {
    if |a| == 1 {
      assert (a + c)[1..] == c;
    } else {
      assert (a + c)[1..] == a[1..] + c;
      JoinAppend(a[1..], c, sep);
    }
  }

  /** The chunks after one step, case by case. */
  lemma StepFlush(st: ChunkState, t: string)
    ensures t == "" ==> Flush(Step(st, t)) == Flush(st)
    ensures t != "" && (st.current == "" || |st.current + t| > MaxInputLength) ==>
              Flush(Step(st, t)) == Flush(st) + [t]
    ensures t != "" && st.current != "" && |st.current + t| <= MaxInputLength ==>
              Flush(Step(st, t)) == st.done + [st.current + ParagraphGap + t]
              && Flush(st) == st.done + [st.current]
  {
    if t != "" && st.current == "" {
      assert st.current + "" + t == t;
    }
  }

  /** One step adds the kept paragraph to the joined chunks. */
  lemma StepJoin(st: ChunkState, t: string)
    ensures Join(Flush(Step(st, t)), ParagraphGap) == Join(Flush(st) + (if t == "" then [] else [t]), ParagraphGap)
    ensures Flush(Step(st, t)) == [] <==> Flush(st) + (if t == "" then [] else [t]) == []
  {
    StepFlush(st, t);
    if t == "" {
      assert Flush(st) + [] == Flush(st);
    } else if st.current != "" && |st.current + t| <= MaxInputLength {
      MergeJoin(st.done, st.current, t);
    }
  }

  /** Merging the paragraph into the current chunk joins like pushing it. */
  lemma MergeJoin(done: seq<string>, current: string, t: string)
    ensures Join(done + [current + ParagraphGap + t], ParagraphGap) == Join(done + [current] + [t], ParagraphGap)
  {
    JoinSnoc(done + [current], t, ParagraphGap);
    JoinSnoc(done, current, ParagraphGap);
    JoinSnoc(done, current + ParagraphGap + t, ParagraphGap);
  }

  lemma StepKeepsNonEmpty(st: ChunkState, t: string)
    requires forall k :: 0 <= k < |Flush(st)| ==> Flush(st)[k] != ""
    ensures forall k :: 0 <= k < |Flush(Step(st, t))| ==> Flush(Step(st, t))[k] != ""
  {
    StepFlush(st, t);
    if t != "" && st.current != "" && |st.current + t| <= MaxInputLength {
      assert forall k :: 0 <= k < |st.done| ==> st.done[k] == Flush(st)[k];
    }
  }

  /** The fold adds all kept paragraphs, in order, to the joined chunks. */
  lemma {:induction false} FoldJoin(st: ChunkState, ps: seq<string>)
    requires forall k :: 0 <= k < |Flush(st)| ==> Flush(st)[k] != ""
    ensures Join(Flush(Fold(st, ps)), ParagraphGap) == Join(Flush(st) + NonBlankTrimmed(ps), ParagraphGap)
    decreases |ps|
  {
    if ps == [] {
      assert Flush(st) + NonBlankTrimmed(ps) == Flush(st);
    } else {
      var t := Trim(ps[0]);
      StepKeepsNonEmpty(st, t);
      FoldJoin(Step(st, t), ps[1..]);
      StepThenRest(st, t, NonBlankTrimmed(ps[1..]));
      KeptSplit(Flush(st), ps);
    }
  }

  lemma KeptSplit(done: seq<string>, ps: seq<string>)
    requires ps != []
    ensures done + NonBlankTrimmed(ps)
         == done + (if Trim(ps[0]) == "" then [] else [Trim(ps[0])]) + NonBlankTrimmed(ps[1..])
  {
    KeptIsNonBlankTrimmed(ps);
  }

  /** One step followed by more paragraphs joins like the paragraph and the
      rest appended to the starting chunks. */
  lemma StepThenRest(st: ChunkState, t: string, rest: seq<string>)
    ensures Join(Flush(Step(st, t)) + rest, ParagraphGap)
         == Join(Flush(st) + (if t == "" then [] else [t]) + rest, ParagraphGap)
  {
    StepJoin(st, t);
    JoinBoth(Flush(Step(st, t)), Flush(st) + (if t == "" then [] else [t]), rest);
  }

  /** Lists with equal joins, both empty or both not, stay equal when the
      same list is appended. */
  lemma JoinBoth(a: seq<string>, b: seq<string>, c: seq<string>)
    requires Join(a, ParagraphGap) == Join(b, ParagraphGap) && (a == [] <==> b == [])
    ensures Join(a + c, ParagraphGap) == Join(b + c, ParagraphGap)
  {
    if c == [] {
      assert a + c == a && b + c == b;
    } else if a == [] {
      assert a + c == c && b + c == c;
    } else {
      JoinAppend(a, c, ParagraphGap);
      JoinAppend(b, c, ParagraphGap);
    }
  }

  /** One step keeps every chunk well formed with respect to any paragraph
      list that contains the step's paragraph. */
  lemma StepKeepsWellFormed(st: ChunkState, paragraph: string, all: seq<string>)
    requires paragraph in all
    requires forall k :: 0 <= k < |Flush(st)| ==> WellFormed(Flush(st)[k], all)
    ensures forall k :: 0 <= k < |Flush(Step(st, Trim(paragraph)))| ==> WellFormed(Flush(Step(st, Trim(paragraph)))[k], all)
  {
    var t := Trim(paragraph);
    StepFlush(st, t);
    if t != "" {
      assert WellFormed(t, all) by {
        KeptParagraphListed(paragraph, all);
      }
      if st.current != "" && |st.current + t| <= MaxInputLength {
        assert forall k :: 0 <= k < |st.done| ==> WellFormed(st.done[k], all) by {
          assert forall k :: 0 <= k < |st.done| ==> st.done[k] == Flush(st)[k];
        }
        assert WellFormed(st.current + ParagraphGap + t, all);
        WellFormedSnoc(st.done, st.current + ParagraphGap + t, all);
      } else {
        WellFormedSnoc(Flush(st), t, all);
      }
    }
  }

  /** Appending a well-formed chunk keeps every chunk well formed. */
  lemma WellFormedSnoc(chunks: seq<string>, chunk: string, all: seq<string>)
    requires forall k :: 0 <= k < |chunks| ==> WellFormed(chunks[k], all)
    requires WellFormed(chunk, all)
    ensures forall k :: 0 <= k < |chunks + [chunk]| ==> WellFormed((chunks + [chunk])[k], all)
  {
  }

  /** A non-blank paragraph of the list appears, trimmed, among the kept ones. */
  lemma {:induction false} KeptParagraphListed(paragraph: string, all: seq<string>)
    requires paragraph in all && Trim(paragraph) != ""
    ensures Trim(paragraph) in NonBlankTrimmed(all)
    decreases |all|
  {
    if all[0] != paragraph {
      KeptParagraphListed(paragraph, all[1..]);
    }
  }

  /** The fold keeps every chunk well formed. */
  lemma {:induction false} FoldKeepsWellFormed(st: ChunkState, ps: seq<string>, all: seq<string>)
    requires forall k :: 0 <= k < |ps| ==> ps[k] in all
    requires forall k :: 0 <= k < |Flush(st)| ==> WellFormed(Flush(st)[k], all)
    ensures forall k :: 0 <= k < |Flush(Fold(st, ps))| ==> WellFormed(Flush(Fold(st, ps))[k], all)
    decreases |ps|
  {
    if ps != [] {
      StepKeepsWellFormed(st, ps[0], all);
      FoldKeepsWellFormed(Step(st, Trim(ps[0])), ps[1..], all);
    }
  }

  /** `splitTextIntoChunks`: no chunk is empty; joined with blank lines the
      chunks give back exactly the trimmed non-blank paragraphs joined the
      same way, so no paragraph is lost, reordered or cut; and a chunk longer
      than `MaxInputLength + 2` is a single paragraph. */
  function SplitTextIntoChunks(text: string): (chunks: seq<string>)
    ensures forall k :: 0 <= k < |chunks| ==> chunks[k] != ""
    ensures Join(chunks, ParagraphGap) == Join(NonBlankTrimmed(Paragraphs(text)), ParagraphGap)
    ensures forall k :: 0 <= k < |chunks| ==>
              chunks[k] in NonBlankTrimmed(Paragraphs(text)) || |chunks[k]| <= MaxInputLength + 2
  {
    var ps := Paragraphs(text);
    var start := ChunkState([], "");
    FoldJoin(start, ps);
    FoldKeepsWellFormed(start, ps, ps);
    assert Flush(start) + NonBlankTrimmed(ps) == NonBlankTrimmed(ps);
    Flush(Fold(start, ps))
  }

  /** The length test leaves out the separator, so a merged chunk can be two
      characters over the limit. */
  lemma MergeOverrun(current: string, paragraph: string)
    requires current != "" && paragraph != ""
    requires |current| + |paragraph| == MaxInputLength
    ensures |Step(ChunkState([], current), paragraph).current| == MaxInputLength + 2
  {
  }
}
