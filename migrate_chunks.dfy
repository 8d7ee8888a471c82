/** scripts/migrate_docs_bilingual.py, `split_translation_chunks`: a text too
    long for one translation request is cut at paragraph breaks and the
    pieces are packed greedily into chunks of bounded length. */
module MigrateChunks {
  import opened Text

  // ---------------------------------------------------------------------------
  // re.split(r"(\n\n+)", text)

  /** The first position at or after `from` where two newlines follow each other, or `|s|`. */
  function PairBreak(s: string, from: nat): (p: nat)
    requires from <= |s|
    ensures from <= p <= |s|
    ensures p < |s| ==> p + 1 < |s| && s[p] == '\n' && s[p + 1] == '\n'
    decreases |s| - from
  {
    if from + 1 >= |s| then |s|
    else if s[from] == '\n' && s[from + 1] == '\n' then from
    else PairBreak(s, from + 1)
  }

  /** No two newlines follow each other before the first break. */
  lemma {:induction false} PairBreakFirst(s: string, from: nat, i: nat)
    requires from <= |s| && from <= i && i + 1 < PairBreak(s, from) + 1 && i + 1 < |s|
    ensures !(s[i] == '\n' && s[i + 1] == '\n')
    decreases |s| - from
  {
    if i > from {
      PairBreakFirst(s, from + 1, i);
    }
  }

  /** The end of the run of newlines starting at `p`. */
  function RunEnd(s: string, p: nat): (q: nat)
    requires p <= |s|
    ensures p <= q <= |s|
    ensures q < |s| ==> s[q] != '\n'
    decreases |s| - p
  {
    if p < |s| && s[p] == '\n' then RunEnd(s, p + 1) else p
  }

  /** The run holds newlines only. */
  lemma {:induction false} RunEndNewlines(s: string, p: nat, i: nat)
    requires p <= |s| && p <= i < RunEnd(s, p)
    ensures s[i] == '\n'
    decreases |s| - p
  {
    if i > p {
      RunEndNewlines(s, p + 1, i);
    }
  }

  /** `re.split(r"(\n\n+)", text)`: the text between paragraph breaks, with
      each maximal run of two or more newlines kept as a piece of its own. */
  function SplitParagraphs(text: string): (pieces: seq<string>)
    ensures |pieces| % 2 == 1
    decreases |text|
  {
    var p := PairBreak(text, 0);
    if p == |text| then [text]
    else
      var q := RunEnd(text, p);
      [text[..p], text[p..q]] + SplitParagraphs(text[q..])
  }

  predicate AllNewlines(s: string) {
    forall i :: 0 <= i < |s| ==> s[i] == '\n'
  }

  predicate HasParagraphBreak(s: string) {
    exists i :: 0 <= i && i + 1 < |s| && s[i] == '\n' && s[i + 1] == '\n'
  }

  /** One step of the split: the text before the first break, the break,
      and the split of the rest. */
  lemma SplitParagraphsStep(text: string)
    requires PairBreak(text, 0) < |text|
    ensures var p := PairBreak(text, 0); var q := RunEnd(text, p);
      p < q && SplitParagraphs(text) == [text[..p], text[p..q]] + SplitParagraphs(text[q..])
  {
    BreakRun(text);
  }

  lemma ThreeParts(text: string, p: nat, q: nat)
    requires p <= q <= |text|
    ensures text[..p] + text[p..q] + text[q..] == text
  {
  }

  /** The pieces put back together give the text. */
  lemma {:induction false} SplitParagraphsConcat(text: string)
    ensures Concat(SplitParagraphs(text)) == text
    decreases |text|
  {
    var p := PairBreak(text, 0);
    if p == |text| {
      assert Concat([text]) == text + Concat([]);
    } else {
      var q := RunEnd(text, p);
      SplitParagraphsStep(text);
      SplitParagraphsConcat(text[q..]);
      ConcatPair(text[..p], text[p..q], SplitParagraphs(text[q..]));
      ThreeParts(text, p, q);
    }
  }

  lemma ConcatPair(a: string, b: string, rest: seq<string>)
    ensures Concat([a, b] + rest) == a + b + Concat(rest)
  {
    assert ([a, b] + rest)[1..] == [b] + rest;
    assert ([b] + rest)[1..] == rest;
  }

  /** How `re.split` with a capturing group lays out its result: text with no
      break, then alternately a break (a run of two or more newlines) and text
      with no break. */
  predicate Alternates(pieces: seq<string>)
    decreases |pieces|
  {
    && pieces != []
    && !HasParagraphBreak(pieces[0])
    && (|pieces| == 1 || (|pieces| >= 3 && |pieces[1]| >= 2 && AllNewlines(pieces[1]) && Alternates(pieces[2..])))
  }

  lemma {:induction false} SplitParagraphsShape(text: string)
    ensures Alternates(SplitParagraphs(text))
    decreases |text|
  {
    var p := PairBreak(text, 0);
    NoBreakBefore(text, p);
    if p < |text| {
      var q := RunEnd(text, p);
      var rest := SplitParagraphs(text[q..]);
      SplitParagraphsShape(text[q..]);
      var pieces := [text[..p], text[p..q]] + rest;
      assert SplitParagraphs(text) == pieces;
      BreakRun(text);
      assert pieces[2..] == rest;
    }
  }

  /** The run is newlines only. */
  lemma RunIsNewlines(text: string, p: nat)
    requires p <= |text|
    ensures AllNewlines(text[p..RunEnd(text, p)])
  {
    var run := text[p..RunEnd(text, p)];
    forall i | 0 <= i < |run|
      ensures run[i] == '\n'
    {
      assert run[i] == text[p + i];
      RunEndNewlines(text, p, p + i);
    }
  }

  /** The piece cut at a break is a run of at least two newlines. */
  lemma BreakRun(text: string)
    requires PairBreak(text, 0) < |text|
    ensures var p := PairBreak(text, 0); var q := RunEnd(text, p);
      p + 2 <= q && AllNewlines(text[p..q])
  {
    var p := PairBreak(text, 0);
    var q := RunEnd(text, p);
    assert text[p] == '\n' && text[p + 1] == '\n';
    assert q != p && q != p + 1;
    RunIsNewlines(text, p);
  }

  /** Nothing before the first break holds one. */
  lemma NoBreakBefore(text: string, p: nat)
    requires p <= |text| && p == PairBreak(text, 0)
    ensures !HasParagraphBreak(text[..p])
  {
    forall i | 0 <= i && i + 1 < |text[..p]|
      ensures !(text[..p][i] == '\n' && text[..p][i + 1] == '\n')
    {
      PairBreakFirst(text, 0, i);
    }
  }

  // ---------------------------------------------------------------------------
  // The greedy packing

  /** The loop's state: the chunks emitted so far and `current`. */
  datatype Packing = Packing(chunks: seq<string>, current: string)

  /** One iteration: the piece joins `current` when the sum fits, else a
      non-empty `current` is emitted and the piece starts the next chunk. */
  function Step(st: Packing, piece: string, maxChars: int): Packing {
    if |st.current| + |piece| <= maxChars then Packing(st.chunks, st.current + piece)
    else Packing(if st.current != "" then st.chunks + [st.current] else st.chunks, piece)
  }

  /** The state after the loop has seen `pieces`. */
  function Pack(pieces: seq<string>, maxChars: int): Packing {
    if pieces == [] then Packing([], "")
    else Step(Pack(pieces[..|pieces| - 1], maxChars), pieces[|pieces| - 1], maxChars)
  }

  /** After the loop: a non-empty `current` is the last chunk. */
  function Flush(st: Packing): seq<string> {
    if st.current != "" then st.chunks + [st.current] else st.chunks
  }

  /** What `split_translation_chunks` returns. */
  function TranslationChunks(text: string, maxChars: int): seq<string> {
    if |text| <= maxChars then [text]
    else Flush(Pack(SplitParagraphs(text), maxChars))
  }

  method SplitTranslationChunks(text: string, maxChars: int) returns (chunks: seq<string>)
    ensures chunks == TranslationChunks(text, maxChars)
  {
    if |text| <= maxChars {
      return [text];
    }
    var pieces := SplitParagraphs(text);
    chunks := [];
    var current := "";
    for i := 0 to |pieces|
      invariant Pack(pieces[..i], maxChars) == Packing(chunks, current)
    {
      assert pieces[..i + 1][..i] == pieces[..i];
      var piece := pieces[i];
      if |current| + |piece| <= maxChars {
        current := current + piece;
      } else {
        if current != "" {
          chunks := chunks + [current];
        }
        current := piece;
      }
    }
    assert pieces[..|pieces|] == pieces;
    if current != "" {
      chunks := chunks + [current];
    }
  }

  /** A chunk that is neither empty nor too long, or one piece by itself. */
  predicate Acceptable(c: string, pieces: seq<string>, maxChars: int) {
    c != "" && (|c| <= maxChars || c in pieces)
  }

  /** What the loop keeps: the emitted chunks and `current` concatenate to the
      pieces seen, every emitted chunk is acceptable, and so is `current`
      unless it is empty. */
  predicate Packed(st: Packing, pieces: seq<string>, maxChars: int) {
    && Concat(st.chunks) + st.current == Concat(pieces)
    && (forall c :: c in st.chunks ==> Acceptable(c, pieces, maxChars))
    && (st.current == "" || Acceptable(st.current, pieces, maxChars))
  }

  lemma {:induction false} PackInvariant(pieces: seq<string>, maxChars: int)
    ensures Packed(Pack(pieces, maxChars), pieces, maxChars)
  {
    if pieces != [] {
      var n := |pieces| - 1;
      var init, piece := pieces[..n], pieces[n];
      PackInvariant(init, maxChars);
      assert init + [piece] == pieces;
      StepKeeps(Pack(init, maxChars), init, piece, maxChars);
    }
  }

  /** One iteration keeps what the loop keeps. */
  lemma StepKeeps(st: Packing, init: seq<string>, piece: string, maxChars: int)
    requires Packed(st, init, maxChars)
    ensures Packed(Step(st, piece, maxChars), init + [piece], maxChars)
  {
    StepConcat(st, init, piece, maxChars);
    StepAcceptable(st, init, piece, maxChars);
  }

  lemma StepConcat(st: Packing, init: seq<string>, piece: string, maxChars: int)
    requires Concat(st.chunks) + st.current == Concat(init)
    ensures var st2 := Step(st, piece, maxChars);
      Concat(st2.chunks) + st2.current == Concat(init + [piece])
  {
    ConcatSnoc(init, piece);
    if |st.current| + |piece| > maxChars && st.current != "" {
      ConcatSnoc(st.chunks, st.current);
    }
  }

  lemma StepAcceptable(st: Packing, init: seq<string>, piece: string, maxChars: int)
    requires forall c :: c in st.chunks ==> Acceptable(c, init, maxChars)
    requires st.current == "" || Acceptable(st.current, init, maxChars)
    ensures var st2 := Step(st, piece, maxChars);
      && (forall c :: c in st2.chunks ==> Acceptable(c, init + [piece], maxChars))
      && (st2.current == "" || Acceptable(st2.current, init + [piece], maxChars))
  {
    var pieces := init + [piece];
    forall c | c in init
      ensures c in pieces
    {
    }
    assert piece in pieces;
  }

  /** The chunks concatenate back to the text; a text that fits is returned
      whole; otherwise every chunk is non-empty and fits, unless it is a
      single oversized piece. */
  lemma TranslationChunksSpec(text: string, maxChars: int)
    ensures var chunks := TranslationChunks(text, maxChars);
      && Concat(chunks) == text
      && (|text| <= maxChars ==> chunks == [text])
      && (|text| > maxChars ==> forall c :: c in chunks ==> Acceptable(c, SplitParagraphs(text), maxChars))
  {
    var chunks := TranslationChunks(text, maxChars);
    if |text| <= maxChars {
      assert Concat([text]) == text + Concat([]);
    } else {
      var pieces := SplitParagraphs(text);
      var st := Pack(pieces, maxChars);
      PackInvariant(pieces, maxChars);
      SplitParagraphsConcat(text);
      ConcatSnoc(st.chunks, st.current);
    }
  }
}
