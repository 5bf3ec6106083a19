/** `DeepSeekLLM` (deepseek.py): the answer stream, which inserts a banner
    before the first answer chunk, and `parse_response`, which keeps the text
    after the banner's marker and takes the LAST bracketed pair of
    `\[\(?(\d{1,2}),\s*(\d{1,2})\)?\]`. */
module DeepSeek {
  import opened Wrappers
  import opened Chars
  import opened CoordPattern

  /** What `parse_response` looks for. */
  const Marker := "=== Final Answer ==="

  /** What the stream yields once, before the first answer chunk. */
  const Banner := "\n\n === Final Answer ===\n"

  // ---------------------------------------------------------------------
  // parse_response

  /** No occurrence of `m` in `s` starts in `[lo, hi)`. */
  predicate NoneBetween(s: string, m: string, lo: int, hi: int) {
    forall k :: lo <= k < hi ==> !OccursAt(s, m, k)
  }

  /** `s.find(m, i)`: the first occurrence of `m` at or after `i`. */
  function IndexFrom(s: string, m: string, i: nat): (r: Option<nat>)
    requires m != []
    ensures r.Some? ==> i <= r.value && OccursAt(s, m, r.value) && NoneBetween(s, m, i, r.value)
    ensures r.None? ==> NoneBetween(s, m, i, |s| + 1)
    decreases |s| - i
  {
    if i + |m| > |s| then None
    else if s[i..i + |m|] == m then Some(i)
    else IndexFrom(s, m, i + 1)
  }

  /** Where `s[i:].split(m)[-1]` starts: cut at the first occurrence, go on
      after it, until none is left. That is right after an occurrence of `m`
      (or at `i` itself), and no occurrence of `m` starts from there on. */
  function TailStart(s: string, m: string, i: nat): (j: nat)
    requires m != [] && i <= |s|
    ensures i <= j <= |s|
    ensures NoneBetween(s, m, j, |s| + 1)
    ensures j == i || OccursAt(s, m, j - |m|)
    decreases |s| - i
  {
    match IndexFrom(s, m, i)
    case None => i
    case Some(k) => TailStart(s, m, k + |m|)
  }

  /** `s[i:].split(m)[-1]`. */
  function SplitTail(s: string, m: string, i: nat): string
    requires m != [] && i <= |s|
  {
    s[TailStart(s, m, i)..]
  }

  /** `s.split(m)[-1] if m in s else s`. */
  function CutAfter(s: string, m: string): string
    requires m != []
  {
    if Contains(s, m) then SplitTail(s, m, 0) else s
  }

  /** The text `parse_response` searches: after the marker when there is one. */
  function FinalText(text: string): string {
    CutAfter(text, Marker)
  }

  /** `parse_response`: the last pair in the final text, or `None`. */
  function ParseResponse(text: string): (r: Option<Coord>)
    ensures r.None? <==> NoMatchIn(NarrowParens, FinalText(text), 0, |FinalText(text)|)
    ensures r.Some? ==> exists j :: 0 <= j < |FinalText(text)| && LastAt(NarrowParens, FinalText(text), j)
                                    && r.value == MatchAt(NarrowParens, FinalText(text), j).value.Coords()
  {
    LastMatch(NarrowParens, FinalText(text))
  }

  /** An occurrence within a suffix is an occurrence within the whole text. */
  lemma OccursInSuffix(s: string, m: string, j: nat, k: nat)
    requires j <= |s|
    ensures OccursAt(s[j..], m, k) <==> OccursAt(s, m, j + k)
  {
    if k + |m| <= |s[j..]| {
      assert s[j..][k..k + |m|] == s[j + k..j + k + |m|];
    }
  }

  /** A suffix starting where no occurrence starts afterwards holds none. */
  lemma NoneInSuffix(s: string, m: string, j: nat)
    requires j <= |s| && NoneBetween(s, m, j, |s| + 1)
    ensures !Contains(s[j..], m)
  {
    forall k | 0 <= k <= |s[j..]|
      ensures !OccursAt(s[j..], m, k)
    {
      OccursInSuffix(s, m, j, k);
    }
  }

  /** An occurrence lies before any point past which none starts. */
  lemma OccursBefore(s: string, m: string, j: nat, k: nat)
    requires NoneBetween(s, m, j, |s| + 1) && OccursAt(s, m, k)
    ensures k < j
  {
  }

  /** Cutting a text that holds `m` leaves what follows an occurrence of
      `m`, and no occurrence of `m`; a text without `m` is left whole. */
  lemma CutAfterLast(text: string, m: string)
    requires m != []
    ensures !Contains(text, m) ==> CutAfter(text, m) == text
    ensures Contains(text, m) ==> var j := TailStart(text, m, 0);
      |m| <= j && OccursAt(text, m, j - |m|) && CutAfter(text, m) == text[j..] && !Contains(text[j..], m)
  {
    if Contains(text, m) {
      var j := TailStart(text, m, 0);
      assert j != 0 by {
        var k :| 0 <= k <= |text| && OccursAt(text, m, k);
        OccursBefore(text, m, j, k);
      }
      assert OccursAt(text, m, j - |m|);
      assert !Contains(text[j..], m) by {
        NoneInSuffix(text, m, j);
      }
      assert CutAfter(text, m) == text[j..];
    }
  }

  /** When the text holds the marker, the searched text follows an occurrence
      of it (the one `TailStart` finds) and holds none; otherwise it is the whole text. */
  lemma FinalTextAfterMarker(text: string)
    ensures !Contains(text, Marker) ==> FinalText(text) == text
    ensures Contains(text, Marker) ==> var j := TailStart(text, Marker, 0);
      |Marker| <= j && OccursAt(text, Marker, j - |Marker|)
      && FinalText(text) == text[j..] && !Contains(FinalText(text), Marker)
  {
    CutAfterLast(text, Marker);
    assert FinalText(text) == CutAfter(text, Marker);
  }

  /** `split` cuts at the FIRST of two overlapping occurrences and then finds no
      complete one, so the searched text is not what follows the last
      occurrence: here the marker occurs again at 17, ending the text. */
  lemma SplitAtOverlap()
    ensures var text := Marker + " Final Answer ===";
      OccursAt(text, Marker, 0) && OccursAt(text, Marker, 17) && 17 + |Marker| == |text|
      && FinalText(text) == " Final Answer ==="
  {
    var tail := " Final Answer ===";
    var text := Marker + tail;
    var lead := "=== Final Answer ";
    assert text == lead + Marker;
    assert text[..20] == Marker;
    assert text[17..37] == Marker;
    assert IndexFrom(text, Marker, 0) == Some(0);
    assert IndexFrom(text, Marker, 20) == None;
    assert text[20..] == tail;
    assert TailStart(text, Marker, 20) == 20;
    assert TailStart(text, Marker, 0) == 20;
    assert OccursAt(text, Marker, 0);
    assert Contains(text, Marker);
  }

  /** Both numbers of a result are below 100. */
  lemma ParseBound(text: string)
    requires ParseResponse(text).Some?
    ensures ParseResponse(text).value.0 < 100 && ParseResponse(text).value.1 < 100
  {
    var f := FinalText(text);
    var j :| 0 <= j < |f| && LastAt(NarrowParens, f, j)
             && ParseResponse(text).value == MatchAt(NarrowParens, f, j).value.Coords();
    NarrowBound(NarrowParens, f, j);
  }

  /** A reply without the marker that ends with `[dr,dc]`, `[(dr,dc)]`,
      `[(dr,dc]` or `[dr,dc)]` (one or two digits each) yields that pair. */
  lemma ParseAppendedPair(text: string, dr: string, dc: string, gap: string, open: bool, close: bool)
    requires Numeral(NarrowParens, dr) && Numeral(NarrowParens, dc) && AllSpace(gap)
    requires !Contains(text + Spell(dr, dc, gap, open, close), Marker)
    ensures ParseResponse(text + Spell(dr, dc, gap, open, close)) == Some((Value(dr), Value(dc)))
  {
    LastMatchOfAppendedPair(NarrowParens, text, dr, dc, gap, open, close);
  }

  // ---------------------------------------------------------------------
  // get_llm_response_stream

  /** One streamed chunk: `delta.reasoning_content` and `delta.content`, a
      missing value written as the empty string (both are false in the test). */
  datatype Chunk = Chunk(reasoning: string, answer: string)

  /** What the stream yields, by origin: reasoning, the banner, or answer text. */
  datatype Piece = Thought(text: string) | Heading | Reply(text: string)

  function PieceText(p: Piece): string {
    match p
    case Thought(t) => t
    case Heading => Banner
    case Reply(t) => t
  }

  function Texts(ps: seq<Piece>): seq<string>
    decreases |ps|
  {
    if ps == [] then [] else [PieceText(ps[0])] + Texts(ps[1..])
  }

  lemma {:induction false} TextsAppend(a: seq<Piece>, b: seq<Piece>)
    ensures Texts(a + b) == Texts(a) + Texts(b)
    decreases |a|
  {
    if a == [] {
      assert a + b == b;
    } else {
      assert (a + b)[1..] == a[1..] + b;
      TextsAppend(a[1..], b);
    }
  }

  /** A chunk whose answer part is yielded: no reasoning, some answer. */
  predicate Answers(c: Chunk) {
    c.reasoning == "" && c.answer != ""
  }

  /** Some chunk of `chunks` has its answer part yielded. */
  predicate HasAnswer(chunks: seq<Chunk>)
    decreases |chunks|
  {
    chunks != [] && (Answers(chunks[0]) || HasAnswer(chunks[1..]))
  }

  lemma {:induction false} HasAnswerAt(chunks: seq<Chunk>, k: nat)
    requires k < |chunks|
    ensures HasAnswer(chunks) <== Answers(chunks[k])
    ensures !HasAnswer(chunks) ==> !Answers(chunks[k])
    decreases k
  {
    if k > 0 {
      assert chunks[1..][k - 1] == chunks[k];
      HasAnswerAt(chunks[1..], k - 1);
    }
  }

  /** No chunk before `k` answers: the first `k` chunks have no answer. */
  lemma {:induction false} NoAnswerBefore(chunks: seq<Chunk>, k: nat)
    requires k <= |chunks| && forall j :: 0 <= j < k ==> !Answers(chunks[j])
    ensures !HasAnswer(chunks[..k])
    decreases k
  {
    if k > 0 {
      assert chunks[..k][1..] == chunks[1..][..k - 1];
      NoAnswerBefore(chunks[1..], k - 1);
    }
  }

  predicate AllThoughts(ps: seq<Piece>) {
    forall i :: 0 <= i < |ps| ==> ps[i].Thought?
  }

  predicate NoHeading(ps: seq<Piece>) {
    forall i :: 0 <= i < |ps| ==> !ps[i].Heading?
  }

  /** The pieces yielded for `chunks`, `done` telling whether the banner has
      been yielded already (the source's `done_reasoning`). */
  function Pieces(chunks: seq<Chunk>, done: bool): seq<Piece>
    decreases |chunks|
  {
    if chunks == [] then []
    else
      var c := chunks[0];
      if c.reasoning != "" then [Thought(c.reasoning)] + Pieces(chunks[1..], done)
      else if c.answer != "" then (if done then [] else [Heading]) + [Reply(c.answer)] + Pieces(chunks[1..], true)
      else Pieces(chunks[1..], done)
  }

  /** The strings one chunk contributes, and whether the banner has been yielded after it. */
  function Yielded(c: Chunk, done: bool): seq<string> {
    if c.reasoning != "" then [c.reasoning]
    else if c.answer != "" then (if done then [] else [Banner]) + [c.answer]
    else []
  }

  lemma PiecesStep(chunks: seq<Chunk>, done: bool)
    requires chunks != []
    ensures Texts(Pieces(chunks, done)) == Yielded(chunks[0], done) + Texts(Pieces(chunks[1..], done || Answers(chunks[0])))
  {
    var c := chunks[0];
    if c.reasoning != "" {
      TextsAppend([Thought(c.reasoning)], Pieces(chunks[1..], done));
    } else if c.answer != "" {
      var head := (if done then [] else [Heading]) + [Reply(c.answer)];
      TextsAppend(head, Pieces(chunks[1..], true));
      assert Texts(head) == (if done then [] else [Banner]) + [c.answer] by {
        if done {
          assert Texts(head) == [c.answer] + Texts([]);
        } else {
          assert head[1..] == [Reply(c.answer)];
        }
      }
    }
  }

  lemma AppendAssoc(a: seq<string>, b: seq<string>, c: seq<string>)
    ensures a + b + c == a + (b + c)
  {
  }

  /** The generator, run to the end: the strings it yields, in order. */
  method Stream(chunks: seq<Chunk>) returns (out: seq<string>)
    ensures out == Texts(Pieces(chunks, false))
  {
    var done := false;
    out := [];
    for i := 0 to |chunks|
      invariant out + Texts(Pieces(chunks[i..], done)) == Texts(Pieces(chunks, false))
    {
      var c := chunks[i];
      ghost var before, was := out, done;
      ghost var rest := Texts(Pieces(chunks[i + 1..], done || Answers(c)));
      assert Texts(Pieces(chunks[i..], done)) == Yielded(c, done) + rest by {
        assert chunks[i..][0] == c && chunks[i..][1..] == chunks[i + 1..];
        PiecesStep(chunks[i..], done);
      }
      if c.reasoning != "" {
        out := out + [c.reasoning];
      } else if c.answer != "" {
        if !done {
          out := out + [Banner];
          done := true;
        }
        out := out + [c.answer];
      }
      assert out == before + Yielded(c, was) && done == (was || Answers(c));
      AppendAssoc(before, Yielded(c, was), rest);
    }
    assert chunks[|chunks|..] == [];
  }

  /** Reading the chunks in two parts: the second part starts with the banner
      already yielded when the first part held an answer. */
  lemma {:induction false} PiecesAppend(a: seq<Chunk>, b: seq<Chunk>, done: bool)
    ensures Pieces(a + b, done) == Pieces(a, done) + Pieces(b, done || HasAnswer(a))
    decreases |a|
  {
    if a == [] {
      assert a + b == b;
    } else {
      assert (a + b)[0] == a[0];
      assert (a + b)[1..] == a[1..] + b;
      PiecesAppend(a[1..], b, done || Answers(a[0]));
    }
  }

  /** Without an answer chunk only reasoning is yielded. */
  lemma {:induction false} OnlyThoughts(chunks: seq<Chunk>, done: bool)
    requires !HasAnswer(chunks)
    ensures AllThoughts(Pieces(chunks, done))
    decreases |chunks|
  {
    if chunks != [] {
      OnlyThoughts(chunks[1..], done);
    }
  }

  /** Once the banner is out it is never yielded again. */
  lemma {:induction false} NoSecondBanner(chunks: seq<Chunk>)
    ensures NoHeading(Pieces(chunks, true))
    decreases |chunks|
  {
    if chunks != [] {
      NoSecondBanner(chunks[1..]);
    }
  }

  /** The banner is yielded exactly once, right before the answer part of the
      first chunk that has one and after everything yielded for earlier chunks,
      which is reasoning only. */
  lemma BannerBeforeFirstAnswer(chunks: seq<Chunk>, k: nat)
    requires k < |chunks| && Answers(chunks[k]) && forall j :: 0 <= j < k ==> !Answers(chunks[j])
    ensures Pieces(chunks, false)
         == Pieces(chunks[..k], false) + [Heading, Reply(chunks[k].answer)] + Pieces(chunks[k + 1..], true)
    ensures AllThoughts(Pieces(chunks[..k], false)) && NoHeading(Pieces(chunks[k + 1..], true))
  {
    NoAnswerBefore(chunks, k);
    FirstAnswerSplit(chunks, k);
    OnlyThoughts(chunks[..k], false);
    NoSecondBanner(chunks[k + 1..]);
  }

  /** Cutting the chunks before the first that answers. */
  lemma FirstAnswerSplit(chunks: seq<Chunk>, k: nat)
    requires k < |chunks| && Answers(chunks[k]) && !HasAnswer(chunks[..k])
    ensures Pieces(chunks, false)
         == Pieces(chunks[..k], false) + [Heading, Reply(chunks[k].answer)] + Pieces(chunks[k + 1..], true)
  {
    var a, b := chunks[..k], chunks[k..];
    var pa, head, pr := Pieces(a, false), [Heading, Reply(chunks[k].answer)], Pieces(chunks[k + 1..], true);
    assert Pieces(chunks, false) == pa + (head + pr) by {
      assert chunks == a + b;
      PiecesAppend(a, b, false);
      assert b[0] == chunks[k] && b[1..] == chunks[k + 1..];
      FirstAnswerPieces(b);
      assert [Heading] + [Reply(chunks[k].answer)] == head;
    }
    assert pa + (head + pr) == pa + head + pr;
  }

  /** A first chunk that answers yields the banner, then its answer. */
  lemma FirstAnswerPieces(b: seq<Chunk>)
    requires b != [] && Answers(b[0])
    ensures Pieces(b, false) == [Heading] + [Reply(b[0].answer)] + Pieces(b[1..], true)
  {
  }

  /** With no answer chunk at all the banner never appears. */
  lemma NoAnswerNoBanner(chunks: seq<Chunk>)
    requires !HasAnswer(chunks)
    ensures AllThoughts(Pieces(chunks, false))
  {
    OnlyThoughts(chunks, false);
  }

  // ---------------------------------------------------------------------
  // The stream read back by parse_response

  /** Reasoning is never yielded after an answer part has been. */
  predicate Ordered(chunks: seq<Chunk>) {
    forall i, j :: 0 <= i < j < |chunks| && Answers(chunks[i]) ==> chunks[j].reasoning == ""
  }

  /** All reasoning text, in order. */
  function ReasoningText(chunks: seq<Chunk>): string
    decreases |chunks|
  {
    if chunks == [] then "" else chunks[0].reasoning + ReasoningText(chunks[1..])
  }

  /** All answer text that is yielded, in order. */
  function AnswerText(chunks: seq<Chunk>): string
    decreases |chunks|
  {
    if chunks == [] then "" else (if chunks[0].reasoning == "" then chunks[0].answer else "") + AnswerText(chunks[1..])
  }

  lemma {:induction false} NoReasoning(chunks: seq<Chunk>)
    requires forall j :: 0 <= j < |chunks| ==> chunks[j].reasoning == ""
    ensures ReasoningText(chunks) == ""
    decreases |chunks|
  {
    if chunks != [] {
      assert forall j :: 0 <= j < |chunks[1..]| ==> chunks[1..][j] == chunks[j + 1];
      NoReasoning(chunks[1..]);
    }
  }

  lemma ConcatCons(x: string, rest: seq<string>)
    ensures Concat([x] + rest) == x + Concat(rest)
  {
    ConcatAppend([x], rest);
    assert [x][..0] == [];
  }

  lemma OrderedTail(chunks: seq<Chunk>)
    requires Ordered(chunks) && chunks != []
    ensures Ordered(chunks[1..])
    ensures Answers(chunks[0]) ==> ReasoningText(chunks[1..]) == ""
  {
    var rest := chunks[1..];
    assert forall j :: 0 <= j < |rest| ==> rest[j] == chunks[j + 1];
    if Answers(chunks[0]) {
      NoReasoning(rest);
    }
  }

  /** The strings of a thought followed by more pieces. */
  lemma ThoughtText(t: string, ps: seq<Piece>)
    ensures Concat(Texts([Thought(t)] + ps)) == t + Concat(Texts(ps))
  {
    TextsAppend([Thought(t)], ps);
    ConcatCons(t, Texts(ps));
  }

  /** The strings of an answer part, after the banner when it is due, followed by more pieces. */
  lemma ReplyText(a: string, done: bool, ps: seq<Piece>)
    ensures Concat(Texts((if done then [] else [Heading]) + [Reply(a)] + ps))
         == BannerIf(!done) + (a + Concat(Texts(ps)))
  {
    var head := (if done then [] else [Heading]) + [Reply(a)];
    TextsAppend(head, ps);
    var tail := Texts(ps);
    ConcatCons(a, tail);
    if !done {
      assert Texts(head) == [Banner, a];
      assert Texts(head) + tail == [Banner] + ([a] + tail);
      ConcatCons(Banner, [a] + tail);
    } else {
      assert Texts(head) == [a];
    }
  }

  lemma Regroup(a: string, b: string, c: string, d: string)
    ensures a + (b + c + d) == (a + b) + c + d
  {
  }

  /** The banner when it is due, else nothing. */
  function BannerIf(due: bool): string {
    if due then Banner else ""
  }

  /** What `Transcript` states for `chunks`. */
  predicate Transcribed(chunks: seq<Chunk>, done: bool) {
    Concat(Texts(Pieces(chunks, done)))
      == ReasoningText(chunks) + BannerIf(HasAnswer(chunks) && !done) + AnswerText(chunks)
  }

  lemma TranscriptThought(chunks: seq<Chunk>, done: bool)
    requires chunks != [] && chunks[0].reasoning != "" && Transcribed(chunks[1..], done)
    ensures Transcribed(chunks, done)
  {
    var c, rest := chunks[0], chunks[1..];
    assert Pieces(chunks, done) == [Thought(c.reasoning)] + Pieces(rest, done);
    ThoughtText(c.reasoning, Pieces(rest, done));
    assert HasAnswer(chunks) == HasAnswer(rest);
    assert AnswerText(chunks) == AnswerText(rest);
    Regroup(c.reasoning, ReasoningText(rest), BannerIf(HasAnswer(rest) && !done), AnswerText(rest));
  }

  lemma ReplyUnfolds(chunks: seq<Chunk>, done: bool)
    requires chunks != [] && Answers(chunks[0]) && ReasoningText(chunks[1..]) == ""
    ensures Pieces(chunks, done) == (if done then [] else [Heading]) + [Reply(chunks[0].answer)] + Pieces(chunks[1..], true)
    ensures ReasoningText(chunks) == "" && HasAnswer(chunks)
    ensures AnswerText(chunks) == chunks[0].answer + AnswerText(chunks[1..])
  {
  }

  /** After the banner, the text is the answers alone. */
  lemma AnsweredText(rest: seq<Chunk>)
    requires ReasoningText(rest) == "" && Transcribed(rest, true)
    ensures Concat(Texts(Pieces(rest, true))) == AnswerText(rest)
  {
    assert BannerIf(HasAnswer(rest) && !true) == "";
  }

  lemma TranscriptReply(chunks: seq<Chunk>, done: bool)
    requires chunks != [] && Answers(chunks[0]) && ReasoningText(chunks[1..]) == ""
    requires Transcribed(chunks[1..], true)
    ensures Transcribed(chunks, done)
  {
    var a, rest := chunks[0].answer, chunks[1..];
    ReplyUnfolds(chunks, done);
    AnsweredText(rest);
    ReplyText(a, done, Pieces(rest, true));
    var b, tail := BannerIf(!done), AnswerText(rest);
    assert b + (a + tail) == "" + b + (a + tail);
  }

  lemma TranscriptSilent(chunks: seq<Chunk>, done: bool)
    requires chunks != [] && chunks[0].reasoning == "" && chunks[0].answer == "" && Transcribed(chunks[1..], done)
    ensures Transcribed(chunks, done)
  {
    var rest := chunks[1..];
    assert Pieces(chunks, done) == Pieces(rest, done);
    var r, a := ReasoningText(rest), AnswerText(rest);
    assert ReasoningText(chunks) == "" + r && "" + r == r;
    assert AnswerText(chunks) == "" + a && "" + a == a;
    assert HasAnswer(chunks) == HasAnswer(rest);
  }

  /** The text accumulated from the stream: all reasoning, then the banner
      if any answer part is yielded and the banner is still due, then all answers. */
  lemma {:induction false} Transcript(chunks: seq<Chunk>, done: bool)
    requires Ordered(chunks)
    ensures Concat(Texts(Pieces(chunks, done)))
         == ReasoningText(chunks) + BannerIf(HasAnswer(chunks) && !done) + AnswerText(chunks)
    decreases |chunks|
  {
    if chunks == [] {
      assert Transcribed(chunks, done);
    } else {
      var c, rest := chunks[0], chunks[1..];
      OrderedTail(chunks);
      if c.reasoning != "" {
        Transcript(rest, done);
        TranscriptThought(chunks, done);
      } else if c.answer != "" {
        Transcript(rest, true);
        TranscriptReply(chunks, done);
      } else {
        Transcript(rest, done);
        TranscriptSilent(chunks, done);
      }
    }
  }

  /** An occurrence lying inside a part of `s` that holds none is impossible. */
  lemma NotInPart(s: string, part: string, off: nat, k: nat)
    requires off + |part| <= |s| && s[off..off + |part|] == part && !Contains(part, Marker)
    requires off <= k && k + |Marker| <= off + |part|
    ensures !OccursAt(s, Marker, k)
  {
    var x, y := part[k - off..k - off + |Marker|], s[k..k + |Marker|];
    forall i | 0 <= i < |Marker| ensures x[i] == y[i] {
      assert part[k - off + i] == s[off..off + |part|][k - off + i];
    }
    assert x == y;
    assert !OccursAt(part, Marker, k - off);
  }

  /** `find` returns the first occurrence at or after `i`. */
  lemma IndexFromFirst(s: string, m: string, i: nat, p: nat)
    requires m != [] && i <= p && OccursAt(s, m, p) && NoneBetween(s, m, i, p)
    ensures IndexFrom(s, m, i) == Some(p)
  {
  }

  /** `find` fails when no occurrence starts at or after `i`. */
  lemma IndexFromNone(s: string, m: string, i: nat)
    requires m != [] && NoneBetween(s, m, i, |s| + 1)
    ensures IndexFrom(s, m, i) == None
  {
  }

  /** One step of the cut from `i`, when an occurrence starts at `p >= i`:
      it moves past the first occurrence at or after `i`, which starts by `p`. */
  lemma CutStep(s: string, m: string, i: nat, p: nat) returns (k: nat, q: nat)
    requires m != [] && i <= p && OccursAt(s, m, p)
    ensures i <= k <= p && q == k + |m| && OccursAt(s, m, k) && TailStart(s, m, i) == TailStart(s, m, q)
  {
    k := IndexFrom(s, m, i).value;
    q := k + |m|;
  }

  /** Every occurrence of `m` that starts before `p` ends by `n`. */
  predicate EndBy(s: string, m: string, p: nat, n: nat) {
    forall k :: 0 <= k < p && OccursAt(s, m, k) ==> k + |m| <= n
  }

  /** Cutting from any point up to an occurrence of `m` at `p`, when every
      occurrence before `p` ends by `n <= p` and none starts after the one at
      `p`: the cut goes on to that occurrence and stops right after it. */
  lemma {:induction false} TailStartPast(s: string, m: string, n: nat, p: nat, i: nat)
    requires m != [] && i <= p && n <= p && OccursAt(s, m, p) && EndBy(s, m, p, n)
    requires NoneBetween(s, m, p + |m|, |s| + 1)
    ensures TailStart(s, m, i) == p + |m|
    decreases p - i
  {
    var k, q := CutStep(s, m, i, p);
    if k < p {
      TailStartPast(s, m, n, p, q);
    } else {
      IndexFromNone(s, m, q);
    }
  }

  /** Reading `R + Banner + A` back: the cut stops right after the banner's
      marker, since none lies after it, so the searched text is the answer
      after a line break, whatever the reasoning holds. */
  lemma FinalTextAfterBanner(r: string, a: string)
    requires !Contains(a, Marker)
    ensures FinalText(r + Banner + a) == "\n" + a
  {
    var s := r + Banner + a;
    var p := |r| + 3;
    BannerLayout(r, a);
    assert OccursAt(s, Marker, p);
    MarkersBeforeBannerInReasoning(s, r);
    NoMarkerAfterBanner(s, a, p + |Marker|);
    TailStartPast(s, Marker, |r|, p, 0);
    assert FinalText(s) == CutAfter(s, Marker);
  }

  /** Where the pieces of `R + Banner + A` lie. */
  lemma BannerLayout(r: string, a: string)
    ensures var s, p := r + Banner + a, |r| + 3;
      s[0..|r|] == r && s[|r|] == '\n' && s[|r| + 1] == '\n' && s[|r| + 2] == ' '
      && p + |Marker| < |s| && s[p..p + |Marker|] == Marker && s[p + |Marker|..] == "\n" + a
  {
    var s := r + Banner + a;
    assert s == r + "\n\n " + Marker + ("\n" + a);
  }

  /** An occurrence that starts before the banner's marker lies wholly
      inside the reasoning: the marker holds no line break and does not start
      with one or a space. */
  lemma MarkersBeforeBannerInReasoning(s: string, r: string)
    requires |r| + 3 <= |s| && s[0..|r|] == r
    requires s[|r|] == '\n' && s[|r| + 1] == '\n' && s[|r| + 2] == ' '
    ensures forall k :: 0 <= k < |r| + 3 && OccursAt(s, Marker, k) ==> k + |Marker| <= |r|
  {
    forall k | 0 <= k < |r| + 3
      ensures OccursAt(s, Marker, k) ==> k + |Marker| <= |r|
    {
      if k + |Marker| > |r| && k + |Marker| <= |s| {
        if k <= |r| {
          assert Marker[|r| - k] != '\n';
          assert s[k..k + |Marker|][|r| - k] == s[|r|];
        } else {
          assert s[k..k + |Marker|][0] == s[k];
        }
      }
    }
  }

  /** No occurrence starts at the line break ending the banner or in the answer after it. */
  lemma NoMarkerAfterBanner(s: string, a: string, after: nat)
    requires after < |s| && s[after..] == "\n" + a && !Contains(a, Marker)
    ensures NoneBetween(s, Marker, after, |s| + 1)
  {
    assert s[after] == s[after..][0];
    assert s[after + 1..] == s[after..][1..];
    forall k | after <= k <= |s|
      ensures !OccursAt(s, Marker, k)
    {
      if k == after {
        if k + |Marker| <= |s| {
          assert s[k..k + |Marker|][0] == s[k];
        }
      } else if k + |Marker| <= |s| {
        assert s[after + 1..after + 1 + |a|] == a;
        NotInPart(s, a, after + 1, k);
      }
    }
  }

  /** The stream read back by `parse_response`: when an answer part is
      yielded, the reasoning before it and any pair in it are ignored and the
      last pair of the answer text is returned. */
  lemma StreamRoundTrip(chunks: seq<Chunk>)
    requires Ordered(chunks) && HasAnswer(chunks)
    requires !Contains(AnswerText(chunks), Marker)
    ensures ParseResponse(Concat(Texts(Pieces(chunks, false)))) == LastMatch(NarrowParens, AnswerText(chunks))
    ensures ParseResponse(Concat(Texts(Pieces(chunks, false)))) == ParseResponse(AnswerText(chunks))
  {
    Transcript(chunks, false);
    FinalTextAfterBanner(ReasoningText(chunks), AnswerText(chunks));
    LastMatchAfterPlainPrefix(NarrowParens, "\n", AnswerText(chunks));
  }

  /** With no answer part the banner is never yielded and the reasoning itself is searched. */
  lemma StreamWithoutAnswer(chunks: seq<Chunk>)
    requires Ordered(chunks) && !HasAnswer(chunks) && !Contains(ReasoningText(chunks), Marker)
    ensures ParseResponse(Concat(Texts(Pieces(chunks, false)))) == LastMatch(NarrowParens, ReasoningText(chunks))
  {
    var r := ReasoningText(chunks);
    assert Concat(Texts(Pieces(chunks, false))) == r by {
      Transcript(chunks, false);
      NoAnswerText(chunks);
      assert BannerIf(HasAnswer(chunks) && !false) == "";
      assert r + "" + "" == r;
    }
    assert FinalText(r) == r;
  }

  lemma {:induction false} NoAnswerText(chunks: seq<Chunk>)
    requires !HasAnswer(chunks)
    ensures AnswerText(chunks) == ""
    decreases |chunks|
  {
    if chunks != [] {
      NoAnswerText(chunks[1..]);
    }
  }
}
