/** The summary pipeline of `lambda-func/summary.py` (`generate_summary_pdf`):
    the transcript's tokens are cut into consecutive slices, each slice costs
    one summary completion and one markdown completion, and the formatted
    segments are joined with blank lines. The tokenizer and the completion
    backend are parameters; the rate limiter and the PDF rendering are not
    modelled. */
module Summary {
  import opened Wrappers
  import opened Text

  type Token = int

  /** `SUMMARY_RATIO`, the float 0.4, as the exact rational 2/5. */
  const SummaryRatio: real := 0.4

  /** `MAX_AVAILABLE_TOKEN_SIZE`. */
  const MaxAvailableTokenSize: nat := 3600

  /** `floor(3600 / (1 + 0.4))` in integer arithmetic: 3600 * 5 div 7. */
  const MaxPartLen: nat := MaxAvailableTokenSize * 5 / 7

  /** The integer constant is the floor of the real quotient the source computes. */
  lemma MaxPartLenIsFloor()
    ensures MaxPartLen == 2571
    ensures MaxPartLen as real <= MaxAvailableTokenSize as real / (1.0 + SummaryRatio)
    ensures MaxAvailableTokenSize as real / (1.0 + SummaryRatio) < MaxPartLen as real + 1.0
  {
  }

  /** `part_len = min(token_count, max_part_len)`. */
  function PartLen(n: nat): nat {
    if n < MaxPartLen then n else MaxPartLen
  }

  /** `iter_num = ceil(token_count / max_part_len)`. */
  function SliceCount(n: nat): (k: nat)
    ensures n == 0 <==> k == 0
    ensures n > 0 ==> (k - 1) * MaxPartLen < n <= k * MaxPartLen
    ensures n <= MaxPartLen ==> k <= 1
  {
    (n + MaxPartLen - 1) / MaxPartLen
  }

  /** A Python `slice(start, stop)` object with non-negative bounds. */
  datatype Bounds = Bounds(start: nat, stop: nat)

  /** The slice objects the source builds: `slice(i*part_len, (i+1)*part_len)`. */
  function SlicePlan(n: nat): seq<Bounds> {
    seq(SliceCount(n), i requires 0 <= i => Bounds(i * PartLen(n), (i + 1) * PartLen(n)))
  }

  /** Python's `s[b]`: both bounds clipped to the length, empty when they cross. */
  function PySlice<T>(s: seq<T>, b: Bounds): seq<T> {
    var lo := if b.start < |s| then b.start else |s|;
    var hi := if b.stop < |s| then b.stop else |s|;
    if hi <= lo then [] else s[lo..hi]
  }

  /** The token slices `tokenized_text[slice_i]`, in order. */
  function Slices(tokens: seq<Token>): seq<seq<Token>> {
    var plan := SlicePlan(|tokens|);
    seq(|plan|, i requires 0 <= i < |plan| => PySlice(tokens, plan[i]))
  }

  /** End of the i-th slice once clipped to the token count. */
  function SliceEnd(n: nat, i: nat): nat {
    if (i + 1) * PartLen(n) < n then (i + 1) * PartLen(n) else n
  }

  /** Slice i starts inside the token sequence. */
  lemma SliceStartInRange(n: nat, i: nat)
    requires i < SliceCount(n)
    ensures 0 < PartLen(n) <= MaxPartLen
    ensures i * PartLen(n) < n
    ensures (i + 1) * PartLen(n) == i * PartLen(n) + PartLen(n)
  {
    if n <= MaxPartLen {
      assert i == 0;
    } else {
      assert i * MaxPartLen <= (SliceCount(n) - 1) * MaxPartLen;
    }
  }

  /** Slice i is the token range from `i * part_len` to `SliceEnd`, which is
      non-empty and at most `MaxPartLen` long. */
  lemma SliceRange(tokens: seq<Token>, i: nat)
    requires i < |Slices(tokens)|
    ensures i * PartLen(|tokens|) < SliceEnd(|tokens|, i) <= |tokens|
    ensures SliceEnd(|tokens|, i) - i * PartLen(|tokens|) <= MaxPartLen
    ensures Slices(tokens)[i] == tokens[i * PartLen(|tokens|)..SliceEnd(|tokens|, i)]
  {
    var n := |tokens|;
    var plan := SlicePlan(n);
    SliceStartInRange(n, i);
    assert plan[i] == Bounds(i * PartLen(n), (i + 1) * PartLen(n));
    assert Slices(tokens)[i] == PySlice(tokens, plan[i]);
  }

  /** The slices taken so far cover exactly the tokens up to where the last
      of them ends. */
  lemma {:induction false} SlicesPrefix(tokens: seq<Token>, k: nat)
    requires 0 < k <= |Slices(tokens)|
    ensures Concat(Slices(tokens)[..k]) == tokens[..SliceEnd(|tokens|, k - 1)]
    decreases k
  {
    var ss := Slices(tokens);
    var n := |tokens|;
    SliceRange(tokens, k - 1);
    assert ss[..k][..k - 1] == ss[..k - 1];
    if k == 1 {
      assert ss[..1][..0] == [];
      assert PartLen(n) * 0 == 0;
    } else {
      SlicesPrefix(tokens, k - 1);
      assert SliceEnd(n, k - 2) == (k - 1) * PartLen(n);
      assert tokens[..SliceEnd(n, k - 1)]
          == tokens[..SliceEnd(n, k - 2)] + tokens[(k - 1) * PartLen(n)..SliceEnd(n, k - 1)];
    }
  }

  /** Partition: concatenating the slices, in order, gives back every token. */
  lemma SlicesPartition(tokens: seq<Token>)
    ensures Concat(Slices(tokens)) == tokens
  {
    var ss := Slices(tokens);
    var n := |tokens|;
    var k := |ss|;
    if k == 0 {
      assert n == 0;
    } else {
      SlicesPrefix(tokens, k);
      assert ss[..k] == ss;
      if n <= MaxPartLen {
        assert k == 1;
        assert SliceEnd(n, 0) == n;
      } else {
        assert k * MaxPartLen >= n;
      }
    }
  }

  /** Bounds: every slice is non-empty and at most `MaxPartLen` tokens long,
      and a transcript that fits in one part is one slice. */
  lemma SlicesBounded(tokens: seq<Token>)
    ensures |Slices(tokens)| == SliceCount(|tokens|)
    ensures forall i :: 0 <= i < |Slices(tokens)| ==> 0 < |Slices(tokens)[i]| <= MaxPartLen
    ensures 0 < |tokens| <= MaxPartLen ==> Slices(tokens) == [tokens]
  {
    forall i | 0 <= i < |Slices(tokens)|
      ensures 0 < |Slices(tokens)[i]| <= MaxPartLen
    {
      SliceRange(tokens, i);
    }
    if 0 < |tokens| <= MaxPartLen {
      SliceRange(tokens, 0);
      assert SliceEnd(|tokens|, 0) == |tokens|;
      assert Slices(tokens)[0] == tokens;
    }
  }

  /** `round(0.4 * len)`: the nearest integer to two fifths of the length
      (never a tie, see `WordTargetIsRound`). */
  function WordTarget(len: nat): (wc: nat)
    ensures wc <= len
    ensures -0.5 < wc as real - SummaryRatio * len as real < 0.5
  {
    var w := (2 * len + 2) / 5;
    assert -2 <= 5 * w - 2 * len <= 2;
    w
  }

  /** The word target is the only integer within one half of `0.4 * len`, and
      `0.4 * len` is never exactly between two integers, so Python's
      round-half-to-even never has to break a tie. */
  lemma WordTargetIsRound(len: nat, w: int)
    ensures -0.5 < w as real - SummaryRatio * len as real < 0.5 <==> w == WordTarget(len)
    ensures SummaryRatio * len as real != w as real + 0.5
  {
    var wc := WordTarget(len);
    if -0.5 < w as real - SummaryRatio * len as real < 0.5 {
      assert -1.0 < w as real - wc as real < 1.0;
    }
  }

  /** Room for the output: a part of at most `MaxPartLen` tokens plus its
      word target stays within `MAX_AVAILABLE_TOKEN_SIZE`. */
  lemma PartFitsBudget(len: nat)
    requires len <= MaxPartLen
    ensures len + WordTarget(len) <= MaxAvailableTokenSize
  {
    assert 5 * WordTarget(len) <= 2 * len + 2;
  }

  /** Every slice of every transcript, with the words its summary may use,
      fits in the token budget. */
  lemma SliceFitsBudget(tokens: seq<Token>)
    ensures forall i :: 0 <= i < |Slices(tokens)| ==>
      |Slices(tokens)[i]| + WordTarget(|Slices(tokens)[i]|) <= MaxAvailableTokenSize
  {
    SlicesBounded(tokens);
    forall i | 0 <= i < |Slices(tokens)|
      ensures |Slices(tokens)[i]| + WordTarget(|Slices(tokens)[i]|) <= MaxAvailableTokenSize
    {
      PartFitsBudget(|Slices(tokens)[i]|);
    }
  }

  /** The bound is tight: one token more than `MaxPartLen`, with its word
      target, overruns the budget. */
  lemma MaxPartLenIsTight()
    ensures MaxPartLen + 1 + WordTarget(MaxPartLen + 1) > MaxAvailableTokenSize
  {
    assert WordTarget(MaxPartLen + 1) == 1029;
  }

  const SummaryPromptHead: string :=
    "\n    Your task is to summarize a transcription of a video.\n    The transcription of the video is in between the squared brackets.\n    The summary should be maximum "
  const SummaryPromptMid: string := " words.\n\n    ["
  const SummaryPromptTail: string := "]\n    \n    Summary:\n    "

  /** `create_summary_prompt(wc, transcript_part)`. */
  function SummaryPrompt(wc: nat, part: string): string {
    SummaryPromptHead + NatToString(wc) + SummaryPromptMid + part + SummaryPromptTail
  }

  /** Reads the word target and the bracketed transcript part back out of a
      summary prompt. */
  function ParseSummaryPrompt(p: string): Option<(nat, string)> {
    ParseNumbered(p, SummaryPromptHead, SummaryPromptMid, SummaryPromptTail)
  }

  /** Parses `head + digits + mid + body + tail`. */
  function ParseNumbered(p: string, head: string, mid: string, tail: string): Option<(nat, string)> {
    if !(head <= p) then None
    else
      var rest := p[|head|..];
      var digits := TakeDigits(rest);
      match Unwrap(rest[|digits|..], mid, tail)
      case None => None
      case Some(body) => if |digits| == 0 then None else Some((ParseNat(digits), body))
  }

  lemma ParseNumberedRoundTrip(head: string, n: nat, mid: string, body: string, tail: string)
    requires |mid| > 0 && !IsDigit(mid[0])
    ensures ParseNumbered(head + NatToString(n) + mid + body + tail, head, mid, tail) == Some((n, body))
  {
    var d := NatToString(n);
    var after := mid + body + tail;
    assert head + d + mid + body + tail == head + (d + after);
    TakeDigitsOfRun(d, after);
    ParseNumberedSplit(head, d, after, mid, tail);
    ParseNatToString(n);
    UnwrapWrap(mid, body, tail);
  }

  /** One unfolding of `ParseNumbered` on a prompt already cut into its head,
      its number and the rest. */
  lemma ParseNumberedSplit(head: string, d: string, after: string, mid: string, tail: string)
    requires TakeDigits(d + after) == d
    ensures ParseNumbered(head + (d + after), head, mid, tail) ==
      match Unwrap(after, mid, tail)
      case None => None
      case Some(body) => if |d| == 0 then None else Some((ParseNat(d), body))
  {
    var p := head + (d + after);
    assert head <= p;
    assert p[|head|..] == d + after;
    assert (d + after)[|d|..] == after;
  }

  /** The summary prompt embeds the word target and the transcript part so
      that both can be recovered exactly. */
  lemma SummaryPromptRoundTrip(wc: nat, part: string)
    ensures ParseSummaryPrompt(SummaryPrompt(wc, part)) == Some((wc, part))
  {
    assert SummaryPromptMid[0] == ' ';
    ParseNumberedRoundTrip(SummaryPromptHead, wc, SummaryPromptMid, part, SummaryPromptTail);
  }

  // The markdown prompt's fixed preamble. The first two source lines are
  // each split into two halves, so every piece is at most half a line.
  const MarkdownPreamble1: string := "\n    Your task to format the text between"
  const MarkdownPreamble2: string := " the square brackets with markdown."
  const MarkdownPreamble3: string := "\n    Make it well structure use diffent type"
  const MarkdownPreamble4: string := " of titles, highlight important key words,"
  const MarkdownPreamble5: string := "\n    if it make sens create bulletpoints."
  const MarkdownPreamble6: string := "\n    "
  const MarkdownPromptHead: string :=
    MarkdownPreamble1 + MarkdownPreamble2 + MarkdownPreamble3
    + MarkdownPreamble4 + MarkdownPreamble5 + MarkdownPreamble6
  const NoTitleDirective: string := "Do not create level 1 heading."
  const MarkdownPromptMid: string := "\n\n    ["
  const MarkdownPromptTail: string := "]\n    \n    Markdown formatted text:\n    "

  function TitleDirective(createTitle: bool): string {
    if createTitle then "" else NoTitleDirective
  }

  /** `create_markdown_prompt(text, create_title)`. */
  function MarkdownPrompt(text: string, createTitle: bool): string {
    MarkdownPromptHead + TitleDirective(createTitle) + MarkdownPromptMid + text + MarkdownPromptTail
  }

  /** Reads the wrapped text and the `create_title` flag back out of a
      markdown prompt. */
  function ParseMarkdownPrompt(p: string): Option<(string, bool)> {
    ParseFlagged(p, MarkdownPromptHead, NoTitleDirective, MarkdownPromptMid, MarkdownPromptTail)
  }

  /** Parses `head + (flag or nothing) + mid + body + tail`; the flag's
      absence reads as `true`. */
  function ParseFlagged(p: string, head: string, flag: string, mid: string, tail: string): Option<(string, bool)> {
    if !(head <= p) then None
    else
      var rest := p[|head|..];
      var flagged := flag + mid <= rest;
      var after := if flagged then rest[|flag|..] else rest;
      match Unwrap(after, mid, tail)
      case None => None
      case Some(body) => Some((body, !flagged))
  }

  lemma ParseFlaggedRoundTrip(head: string, flag: string, present: bool, mid: string, body: string, tail: string)
    requires |flag| > 0 && |mid| > 0 && flag[0] != mid[0]
    ensures ParseFlagged(head + (if present then flag else "") + mid + body + tail, head, flag, mid, tail)
         == Some((body, !present))
  {
    var f := if present then flag else "";
    var after := mid + body + tail;
    var p := head + f + mid + body + tail;
    assert p == head + (f + after);
    assert p[|head|..] == f + after;
    if present {
      assert flag + mid <= f + after;
      assert (f + after)[|flag|..] == after;
    } else {
      assert f + after == after;
      assert after[0] == mid[0];
      assert !(flag + mid <= after);
    }
    UnwrapWrap(mid, body, tail);
  }

  /** The markdown prompt wraps the text and the flag so that both can be
      recovered exactly. */
  lemma MarkdownPromptRoundTrip(text: string, createTitle: bool)
    ensures ParseMarkdownPrompt(MarkdownPrompt(text, createTitle)) == Some((text, createTitle))
  {
    assert NoTitleDirective[0] == 'D' && MarkdownPromptMid[0] == '\n';
    assert TitleDirective(createTitle) == if !createTitle then NoTitleDirective else "";
    ParseFlaggedRoundTrip(MarkdownPromptHead, NoTitleDirective, !createTitle, MarkdownPromptMid, text, MarkdownPromptTail);
  }

  // Each piece of the preamble is free of the letter that opens the directive.
  lemma PreambleLacksD1() ensures 'D' !in MarkdownPreamble1 {}
  lemma PreambleLacksD2() ensures 'D' !in MarkdownPreamble2 {}
  lemma PreambleLacksD3() ensures 'D' !in MarkdownPreamble3 {}
  lemma PreambleLacksD4() ensures 'D' !in MarkdownPreamble4 {}
  lemma PreambleLacksD5() ensures 'D' !in MarkdownPreamble5 {}

  /** The directive's first character occurs nowhere in the fixed text
      before the wrapped text. */
  lemma MarkdownHeadLacksD()
    ensures 'D' !in MarkdownPromptHead + MarkdownPromptMid
  {
    PreambleLacksD1();
    PreambleLacksD2();
    PreambleLacksD3();
    PreambleLacksD4();
    PreambleLacksD5();
    assert 'D' !in MarkdownPreamble6 && 'D' !in MarkdownPromptMid;
  }

  /** Nor in the fixed text after it, which opens with the closing bracket
      that the directive never contains. */
  lemma MarkdownTailFacts()
    ensures NoTitleDirective[0] == 'D' && MarkdownPromptTail[0] == ']'
    ensures 'D' !in MarkdownPromptTail
    ensures ']' !in NoTitleDirective
  {
  }

  /** The "no level-1 heading" instruction appears in a markdown prompt
      exactly when the title is suppressed, unless the wrapped text itself
      already carries that sentence. */
  lemma MarkdownPromptDirective(text: string, createTitle: bool)
    ensures Contains(MarkdownPrompt(text, createTitle), NoTitleDirective)
        <==> !createTitle || Contains(text, NoTitleDirective)
  {
    if !createTitle {
      assert TitleDirective(createTitle) == NoTitleDirective;
      ContainsAfter(MarkdownPromptHead, NoTitleDirective, MarkdownPromptMid, text, MarkdownPromptTail);
    } else {
      MarkdownHeadLacksD();
      MarkdownTailFacts();
      assert TitleDirective(createTitle) == "";
      FramedWithEmptyDirective(MarkdownPromptHead, MarkdownPromptMid, text, MarkdownPromptTail, NoTitleDirective);
    }
  }

  lemma ContainsAfter(h: string, w: string, m: string, text: string, t: string)
    ensures Contains(h + w + m + text + t, w)
  {
    var p := h + w + m + text + t;
    assert p[|h|..] == w + (m + text + t);
  }

  lemma FramedWithEmptyDirective(h: string, m: string, text: string, t: string, w: string)
    requires |w| > 0 && |t| > 0
    requires w[0] !in h + m && w[0] !in t && t[0] !in w
    ensures Contains(h + "" + m + text + t, w) <==> Contains(text, w)
  {
    assert h + "" + m + text + t == (h + m) + text + t;
    ContainsFramed(h + m, text, t, w);
  }
  /** The tokenizer (`cl100k_base` encode and decode) and the completion
      backend. `complete(k, prompt)` is the reply to the k-th completion call
      of a run (counting from 0), so two calls with the same prompt may get
      different replies. */
  datatype Backend = Backend(
    encode: string -> seq<Token>,
    decode: seq<Token> -> string,
    complete: (nat, string) -> string)

  /** What one run of `generate_summary_pdf` produced. */
  datatype SummaryRun = SummaryRun(
    slices: seq<seq<Token>>,  // the token slices, in order
    prompts: seq<string>,     // every completion prompt, in call order
    segments: seq<string>,    // the markdown segment of each slice
    document: string,         // the markdown text handed to the PDF renderer
    path: string)             // the file name the function returns

  const OutputPrefix: string := "/tmp/summary_"
  const OutputSuffix: string := ".pdf"

  /** `f'/tmp/summary_{video_id}.pdf'`: the video id sits between the fixed
      prefix and the extension, so distinct videos get distinct files. */
  function OutputPath(videoId: string): (path: string)
    ensures OutputPrefix <= path
    ensures |path| == |OutputPrefix| + |videoId| + |OutputSuffix|
    ensures path[|OutputPrefix|..|path| - |OutputSuffix|] == videoId
    ensures path[|path| - |OutputSuffix|..] == OutputSuffix
  {
    OutputPrefix + videoId + OutputSuffix
  }

  /** The two completion calls the source issues for slice `i`: a summary
      prompt for the slice (call 2i), then a markdown prompt around that
      call's reply (call 2i+1), whose reply is the slice's segment. */
  predicate SliceCalls(b: Backend, i: nat, slice: seq<Token>,
                       summaryPrompt: string, markdownPrompt: string, segment: string)
  {
    && summaryPrompt == SummaryPrompt(WordTarget(|slice|), b.decode(slice))
    && markdownPrompt == MarkdownPrompt(b.complete(2 * i, summaryPrompt), i == 0)
    && segment == b.complete(2 * i + 1, markdownPrompt)
  }

  /** What the two prompts of a slice carry: the word target and the decoded
      slice, then the first reply and whether a title is allowed; the
      "no level-1 heading" sentence is present for every slice but the
      first (or when the first reply already has it). */
  lemma SliceCallsMeaning(b: Backend, i: nat, slice: seq<Token>,
                          summaryPrompt: string, markdownPrompt: string, segment: string)
    requires SliceCalls(b, i, slice, summaryPrompt, markdownPrompt, segment)
    ensures ParseSummaryPrompt(summaryPrompt) == Some((WordTarget(|slice|), b.decode(slice)))
    ensures ParseMarkdownPrompt(markdownPrompt) == Some((b.complete(2 * i, summaryPrompt), i == 0))
    ensures Contains(markdownPrompt, NoTitleDirective)
        <==> i != 0 || Contains(b.complete(2 * i, summaryPrompt), NoTitleDirective)
  {
    SummaryPromptRoundTrip(WordTarget(|slice|), b.decode(slice));
    MarkdownPromptRoundTrip(b.complete(2 * i, summaryPrompt), i == 0);
    MarkdownPromptDirective(b.complete(2 * i, summaryPrompt), i == 0);
  }

  /** `generate_summary_pdf(transcript_text, video_id)`, up to the PDF file
      itself: the slices partition the tokens, each slice costs exactly two
      completion calls in order, and the segments are joined with blank lines. */
  method GenerateSummaryPdf(transcript: string, videoId: string, backend: Backend) returns (run: SummaryRun)
    ensures run.slices == Slices(backend.encode(transcript))
    ensures Concat(run.slices) == backend.encode(transcript)
    ensures |run.slices| == SliceCount(|backend.encode(transcript)|)
    ensures forall i :: 0 <= i < |run.slices| ==> 0 < |run.slices[i]| <= MaxPartLen
    ensures |run.prompts| == 2 * |run.slices| && |run.segments| == |run.slices|
    ensures forall i :: 0 <= i < |run.slices| ==>
      SliceCalls(backend, i, run.slices[i], run.prompts[2 * i], run.prompts[2 * i + 1], run.segments[i])
    ensures run.document == Join("\n\n", run.segments)
    ensures run.path == OutputPath(videoId)
  {
    var tokens := backend.encode(transcript);
    var slices := Slices(tokens);
    SlicesPartition(tokens);
    SlicesBounded(tokens);
    var prompts, results := SummarizeSlices(slices, backend);
    run := SummaryRun(slices, prompts, results, Join("\n\n", results), OutputPath(videoId));
  }

  /** The loop of `generate_summary_pdf`: two completion calls per slice, in
      slice order, collecting every prompt and each slice's final reply. */
  method SummarizeSlices(slices: seq<seq<Token>>, backend: Backend) returns (prompts: seq<string>, results: seq<string>)
    ensures |prompts| == 2 * |slices| && |results| == |slices|
    ensures forall i :: 0 <= i < |slices| ==>
      SliceCalls(backend, i, slices[i], prompts[2 * i], prompts[2 * i + 1], results[i])
  {
    prompts, results := [], [];
    for i := 0 to |slices|
      invariant |prompts| == 2 * i && |results| == i
      invariant forall j :: 0 <= j < i ==>
        SliceCalls(backend, j, slices[j], prompts[2 * j], prompts[2 * j + 1], results[j])
    {
      var wc := WordTarget(|slices[i]|);
      var summaryPrompt := SummaryPrompt(wc, backend.decode(slices[i]));
      var summary := backend.complete(|prompts|, summaryPrompt);
      var markdownPrompt := MarkdownPrompt(summary, i == 0);
      var segment := backend.complete(|prompts| + 1, markdownPrompt);
      var prompts' := prompts + [summaryPrompt, markdownPrompt];
      var results' := results + [segment];
      forall j | 0 <= j < i + 1
        ensures SliceCalls(backend, j, slices[j], prompts'[2 * j], prompts'[2 * j + 1], results'[j])
      {
        if j < i {
          assert prompts'[2 * j] == prompts[2 * j];
          assert prompts'[2 * j + 1] == prompts[2 * j + 1];
          assert results'[j] == results[j];
        }
      }
      prompts, results := prompts', results';
    }
  }
}
