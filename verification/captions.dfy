/**
  The caption cue builder of `src/narrator/whisper_transcribe.py`: grouping
  recognised words into fixed-size windows (`chunk_words`), the even-split
  fallback for segments without word timings, and the record loop that
  writes the SubRip file, numbering cues across all segments.

  Times are whole milliseconds. The fallback divides a segment's duration
  by its word count, so its times are real numbers; `fmt` writes them to
  the nearest millisecond, and the model applies that rounding where the
  fallback computes a cue's times (the times of words are whole
  milliseconds already, and rounding leaves them as they are).

  The loops of the source step an offset `i` through `range(0, n, size)`;
  the definitions here follow that offset rather than a window number.
 */
module Captions {
  import opened Wrappers
  import opened Text
  import opened Timestamps
  import opened Seqs

  /** One recognised word with its start and end, in milliseconds. */
  datatype Word = Word(text: string, start: nat, end: nat)

  /** One recognised segment; `words` is None when the recogniser gave no word list. */
  datatype Segment = Segment(start: nat, end: nat, text: string, words: Option<seq<Word>>)

  /**
    A caption before it is numbered: an entry of the result of
    `chunk_words`, or one word group of the fallback.
   */
  datatype Cue = Cue(text: string, start: nat, end: nat)

  /** `range(0, n, 0)` raises: a step of zero words per caption is refused. */
  datatype CaptionError = ZeroStep

  function Min(a: int, b: int): int { if a <= b then a else b }

  // ================================================================ windows

  /**
    The slices `xs[i:i + size]` for `i` in `range(from, len(xs), size)`,
    each clipped to the end of `xs` as Python clips a slice.
   */
  function WindowsFrom<T>(xs: seq<T>, from: nat, size: nat): seq<seq<T>>
    requires size >= 1
    decreases |xs| - from
  {
    if from >= |xs| then [] else [xs[from..Min(from + size, |xs|)]] + WindowsFrom(xs, from + size, size)
  }

  function Flatten<T>(ws: seq<seq<T>>): seq<T> {
    if ws == [] then [] else ws[0] + Flatten(ws[1..])
  }

  /** No window is empty or longer than `size`, and every window but the last is full. */
  lemma {:induction false} WindowsShape<T>(xs: seq<T>, from: nat, size: nat)
    requires size >= 1
    ensures forall k :: 0 <= k < |WindowsFrom(xs, from, size)| ==> 1 <= |WindowsFrom(xs, from, size)[k]| <= size
    ensures forall k :: 0 <= k < |WindowsFrom(xs, from, size)| - 1 ==> |WindowsFrom(xs, from, size)[k]| == size
    decreases |xs| - from
  {
    if from < |xs| {
      WindowsShape(xs, from + size, size);
      var w := WindowsFrom(xs, from, size);
      var rest := WindowsFrom(xs, from + size, size);
      var j := Min(from + size, |xs|);
      assert w == [xs[from..j]] + rest;
      assert w[1..] == rest;
      assert |w[0]| == j - from;
      forall k | 0 <= k < |w| ensures 1 <= |w[k]| <= size {
        if k > 0 { assert w[k] == rest[k - 1]; }
      }
      forall k | 0 <= k < |w| - 1 ensures |w[k]| == size {
        if k > 0 { assert w[k] == rest[k - 1]; } else { assert from + size < |xs|; }
      }
    }
  }

  /** The windows, in order, hold every element of `xs` from `from` on exactly once. */
  lemma {:induction false} WindowsFlatten<T>(xs: seq<T>, from: nat, size: nat)
    requires size >= 1 && from <= |xs|
    ensures Flatten(WindowsFrom(xs, from, size)) == xs[from..]
    decreases |xs| - from
  {
    if from < |xs| {
      var w := WindowsFrom(xs, from, size);
      var j := Min(from + size, |xs|);
      assert w[1..] == WindowsFrom(xs, from + size, size);
      if from + size <= |xs| {
        WindowsFlatten(xs, from + size, size);
        assert xs[from..j] + xs[from + size..] == xs[from..];
      } else {
        assert WindowsFrom(xs, from + size, size) == [];
        assert xs[from..j] + [] == xs[from..];
      }
    }
  }

  /**
    There are ceil((|xs| - from) / size) windows: the least count whose
    windows of `size` reach the end of `xs`.
   */
  lemma {:induction false} WindowsCount<T>(xs: seq<T>, from: nat, size: nat)
    requires size >= 1 && from <= |xs|
    ensures var n := |WindowsFrom(xs, from, size)|;
            && n * size >= |xs| - from
            && (n - 1) * size < |xs| - from
    decreases |xs| - from
  {
    if from < |xs| {
      var n := |WindowsFrom(xs, from, size)|;
      var m := |WindowsFrom(xs, from + size, size)|;
      assert n == m + 1;
      assert n * size == m * size + size;
      if from + size <= |xs| {
        WindowsCount(xs, from + size, size);
      }
    }
  }

  /** Every element of every window appears in the flattened sequence. */
  lemma {:induction false} FlattenMember<T>(ws: seq<seq<T>>, k: nat)
    requires k < |ws|
    ensures forall i :: 0 <= i < |ws[k]| ==> ws[k][i] in Flatten(ws)
    decreases k
  {
    if k > 0 {
      FlattenMember(ws[1..], k - 1);
      assert ws[1..][k - 1] == ws[k];
    }
  }

  // ================================================================ chunk_words

  /** Each word's text with its surrounding white space removed. */
  function StrippedTexts(ws: seq<Word>): (r: seq<string>)
    ensures |r| == |ws|
  {
    seq(|ws|, i requires 0 <= i < |ws| => Strip(ws[i].text))
  }

  /**
    The chunk of one non-empty group of words: the stripped words joined by
    single spaces, from the start of the first word to the end of the last.
   */
  function ChunkOf(group: seq<Word>): Cue
    requires group != []
  {
    Cue(JoinWith(StrippedTexts(group), " "), group[0].start, group[|group| - 1].end)
  }

  /** The chunks `chunk_words` appends from offset `from` on. */
  function ChunksFrom(words: seq<Word>, from: nat, size: nat): seq<Cue>
    requires size >= 1
    decreases |words| - from
  {
    if from >= |words| then []
    else [ChunkOf(words[from..Min(from + size, |words|)])] + ChunksFrom(words, from + size, size)
  }

  /** What `chunk_words(words, size)` returns for a positive size. */
  function ChunksOf(words: seq<Word>, size: nat): seq<Cue>
    requires size >= 1
  {
    ChunksFrom(words, 0, size)
  }

  /**
    The step of `chunk_words`'s loop: when `acc` followed by the chunks
    from offset `from` make up `all`, so do `acc` with the chunk at `from`
    and the chunks from the next offset.
   */
  lemma ChunkStep(words: seq<Word>, from: nat, size: nat, acc: seq<Cue>, all: seq<Cue>)
    requires from < |words| && size >= 1
    requires acc + ChunksFrom(words, from, size) == all
    ensures words[from..Min(from + size, |words|)] != []
    ensures (acc + [ChunkOf(words[from..Min(from + size, |words|)])]) + ChunksFrom(words, from + size, size) == all
  {
    AppendAssoc(acc, [ChunkOf(words[from..Min(from + size, |words|)])], ChunksFrom(words, from + size, size));
  }

  /**
    There is one chunk per window of words, and chunk `k` is the chunk of
    window `k`: it starts where the window's first word starts, ends where
    its last word ends, and reads as the window's stripped words.
   */
  lemma {:induction false} ChunksAreWindows(words: seq<Word>, from: nat, size: nat)
    requires size >= 1
    ensures |ChunksFrom(words, from, size)| == |WindowsFrom(words, from, size)|
    ensures forall k :: 0 <= k < |WindowsFrom(words, from, size)| ==>
              WindowsFrom(words, from, size)[k] != [] &&
              ChunksFrom(words, from, size)[k] == ChunkOf(WindowsFrom(words, from, size)[k])
    decreases |words| - from
  {
    WindowsShape(words, from, size);
    if from < |words| {
      ChunksAreWindows(words, from + size, size);
      var c := ChunksFrom(words, from, size);
      var w := WindowsFrom(words, from, size);
      var c', w' := ChunksFrom(words, from + size, size), WindowsFrom(words, from + size, size);
      var g := words[from..Min(from + size, |words|)];
      assert c == [ChunkOf(g)] + c';
      assert w == [g] + w';
      forall k | 0 <= k < |w| ensures w[k] != [] && c[k] == ChunkOf(w[k]) {
        if k > 0 { assert c[k] == c'[k - 1] && w[k] == w'[k - 1]; }
      }
    }
  }

  /**
    When every stripped word is a single token, splitting a chunk's text
    on white space gives back exactly the stripped words of its group.
   */
  lemma ChunkTextSplits(group: seq<Word>)
    requires group != []
    requires forall i :: 0 <= i < |group| ==> IsToken(Strip(group[i].text))
    ensures Words(ChunkOf(group).text) == StrippedTexts(group)
  {
    var ts := StrippedTexts(group);
    assert forall k :: 0 <= k < |ts| ==> IsToken(ts[k]) by {
      forall k | 0 <= k < |ts| ensures IsToken(ts[k]) { assert ts[k] == Strip(group[k].text); }
    }
    WordsOfJoin(ts);
  }

  /**
    `chunk_words(words, chunk_size)`: the loop over `range(0, len(words), chunk_size)`.
    A zero step raises; a negative step gives an empty range and so no chunks.
   */
  method ChunkWords(words: seq<Word>, chunkSize: int) returns (r: Result<seq<Cue>, CaptionError>)
    ensures chunkSize == 0 ==> r == Err(ZeroStep)
    ensures chunkSize < 0 ==> r == Ok([])
    ensures chunkSize > 0 ==> r == Ok(ChunksOf(words, chunkSize))
  {
    if chunkSize == 0 {
      return Err(ZeroStep);
    }
    if chunkSize < 0 {
      return Ok([]);
    }
    var chunks := ChunkLoop(words, chunkSize);
    return Ok(chunks);
  }

  /** The loop of `chunk_words` for a positive step: one chunk per non-empty window, in order. */
  method ChunkLoop(words: seq<Word>, step: nat) returns (chunks: seq<Cue>)
    requires step >= 1
    ensures chunks == ChunksOf(words, step)
  {
    ghost var all := ChunksOf(words, step);
    chunks := [];
    var i: nat := 0;
    while i < |words|
      invariant chunks + ChunksFrom(words, i, step) == all
      decreases |words| - i
    {
      var group := words[i..Min(i + step, |words|)];
      ChunkStep(words, i, step, chunks, all);
      if group != [] {
        chunks := chunks + [ChunkOf(group)];
      }
      i := i + step;
    }
    assert ChunksFrom(words, i, step) == [];
    assert chunks + [] == chunks;
  }

  // ================================================================ cues of a segment

  /** A segment takes the word-timestamp path when it has a non-empty word list. */
  predicate HasWords(seg: Segment) {
    seg.words.Some? && seg.words.value != []
  }

  /** The tokens of the fallback: `segment["text"].strip().split()`. */
  function Tokens(seg: Segment): seq<string> {
    Words(Strip(seg.text))
  }

  /** `time_per_word`: the segment's duration shared evenly by `count` tokens, 0 when there are none. */
  function TimePerWord(seg: Segment, count: nat): real {
    if count == 0 then 0.0 else (seg.end as real - seg.start as real) / count as real
  }

  /** A share `pos / count` of a distance `d` lies between 0 and `d`. */
  lemma ShareBounds(pos: nat, count: nat, d: real)
    ensures 0 < count && pos <= count && d >= 0.0 ==> 0.0 <= pos as real * (d / count as real) <= d
    ensures 0 < count && pos <= count && d < 0.0 ==> d <= pos as real * (d / count as real) <= 0.0
  {
    if 0 < count && pos <= count {
      var f := pos as real / count as real;
      assert pos as real * (d / count as real) == f * d;
      assert 0.0 <= f <= 1.0;
      assert f * d - d == (f - 1.0) * d;
    }
  }

  /**
    The fallback time at token position `pos` of `count`:
    `segment["start"] + pos * time_per_word`.
   */
  function FallbackTime(seg: Segment, pos: nat, count: nat): real {
    seg.start as real + pos as real * TimePerWord(seg, count)
  }

  /**
    The fallback time moves evenly from the segment's start (position 0)
    to its end (position `count`), never leaves the span between them, and
    so is never negative.
   */
  lemma FallbackTimeBounds(seg: Segment, pos: nat, count: nat)
    requires pos <= count
    ensures FallbackTime(seg, pos, count) >= 0.0
    ensures pos == 0 ==> FallbackTime(seg, pos, count) == seg.start as real
    ensures 0 < count == pos ==> FallbackTime(seg, pos, count) == seg.end as real
    ensures seg.start <= seg.end ==> seg.start as real <= FallbackTime(seg, pos, count) <= seg.end as real
  {
    ShareBounds(pos, count, seg.end as real - seg.start as real);
  }

  /**
    The fallback time at position `pos` as `fmt` writes it: rounded to
    whole milliseconds. The first branch is never taken for a position of
    the fallback (`FallbackTimeBounds`); it only makes the function total.
   */
  function FallbackMs(seg: Segment, pos: nat, count: nat): nat
  {
    var t := FallbackTime(seg, pos, count);
    if t < 0.0 then 0 else RoundMs(t)
  }

  /**
    The fallback caption of the token window starting at offset `from`:
    the words `tokens[from:from + size]` joined by spaces, from
    `start + from * time_per_word` to `start + (from + len(window)) * time_per_word`.
   */
  function FallbackCueAt(seg: Segment, tokens: seq<string>, from: nat, size: nat): Cue
    requires from < |tokens| && size >= 1
  {
    var group := tokens[from..Min(from + size, |tokens|)];
    Cue(JoinWith(group, " "), FallbackMs(seg, from, |tokens|), FallbackMs(seg, from + |group|, |tokens|))
  }

  /** The fallback cues from token offset `from` on, timed against all `|tokens|` tokens. */
  function FallbackFrom(seg: Segment, tokens: seq<string>, from: nat, size: nat): seq<Cue>
    requires size >= 1
    decreases |tokens| - from
  {
    if from >= |tokens| then []
    else [FallbackCueAt(seg, tokens, from, size)] + FallbackFrom(seg, tokens, from + size, size)
  }

  /**
    The fallback loop's step: when `acc` followed by the cues from offset
    `from` make up `cues`, so do `acc` with the cue at `from` and the cues
    from the next offset.
   */
  lemma FallbackStep(seg: Segment, tokens: seq<string>, from: nat, size: nat, acc: seq<Cue>, cues: seq<Cue>)
    requires from < |tokens| && size >= 1
    requires acc + FallbackFrom(seg, tokens, from, size) == cues
    ensures (acc + [FallbackCueAt(seg, tokens, from, size)]) + FallbackFrom(seg, tokens, from + size, size) == cues
  {
    AppendAssoc(acc, [FallbackCueAt(seg, tokens, from, size)], FallbackFrom(seg, tokens, from + size, size));
  }

  /** The fallback cues of a segment: token windows spread evenly over its duration. */
  function FallbackCues(seg: Segment, size: nat): seq<Cue>
    requires size >= 1
  {
    FallbackFrom(seg, Tokens(seg), 0, size)
  }

  /** The cues one segment contributes for `words_per_caption == size`. */
  function SegmentCues(seg: Segment, size: int): seq<Cue>
  {
    if size <= 0 then []
    else if HasWords(seg) then ChunksOf(seg.words.value, size)
    else FallbackCues(seg, size)
  }

  /** The cues of all segments, in segment order. */
  function AllCues(segs: seq<Segment>, size: int): seq<Cue> {
    if segs == [] then [] else AllCues(segs[..|segs| - 1], size) + SegmentCues(segs[|segs| - 1], size)
  }

  // ================================================================ fallback properties

  /** A segment without words whose text holds no token contributes no cue. */
  lemma EmptyTextNoCues(seg: Segment, size: int)
    requires !HasWords(seg) && Tokens(seg) == []
    ensures SegmentCues(seg, size) == []
  {
  }

  /**
    There is one fallback cue per window of tokens, and cue `k` reads as
    the tokens of window `k` joined by single spaces.
   */
  lemma {:induction false} FallbackAreWindows(seg: Segment, tokens: seq<string>, from: nat, size: nat)
    requires size >= 1
    ensures |FallbackFrom(seg, tokens, from, size)| == |WindowsFrom(tokens, from, size)|
    ensures forall k :: 0 <= k < |WindowsFrom(tokens, from, size)| ==>
              FallbackFrom(seg, tokens, from, size)[k].text == JoinWith(WindowsFrom(tokens, from, size)[k], " ")
    decreases |tokens| - from
  {
    if from < |tokens| {
      FallbackAreWindows(seg, tokens, from + size, size);
      var r := FallbackFrom(seg, tokens, from, size);
      var w := WindowsFrom(tokens, from, size);
      assert r[1..] == FallbackFrom(seg, tokens, from + size, size);
      assert w[1..] == WindowsFrom(tokens, from + size, size);
    }
  }

  /**
    The fallback cues from offset `from` abut: the first starts at the time
    of position `from`, each ends where the next starts, and the last ends
    at the time of the final position.
   */
  lemma {:induction false} FallbackFromSpan(seg: Segment, tokens: seq<string>, from: nat, size: nat)
    requires size >= 1
    ensures var r := FallbackFrom(seg, tokens, from, size);
            && (from < |tokens| ==> r != [] && r[0].start == FallbackMs(seg, from, |tokens|))
            && (r != [] ==> r[|r| - 1].end == FallbackMs(seg, |tokens|, |tokens|))
    ensures forall k :: 0 <= k < |FallbackFrom(seg, tokens, from, size)| - 1 ==>
              FallbackFrom(seg, tokens, from, size)[k].end == FallbackFrom(seg, tokens, from, size)[k + 1].start
    decreases |tokens| - from
  {
    if from < |tokens| {
      FallbackFromSpan(seg, tokens, from + size, size);
      var r := FallbackFrom(seg, tokens, from, size);
      var rest := FallbackFrom(seg, tokens, from + size, size);
      assert r[1..] == rest;
      if rest == [] {
        assert from + size >= |tokens|;
      } else {
        assert from + size < |tokens|;
        assert r[0].end == rest[0].start;
      }
      forall k | 0 <= k < |r| - 1 ensures r[k].end == r[k + 1].start {
        if k > 0 { assert r[k] == rest[k - 1] && r[k + 1] == rest[k]; }
      }
    }
  }

  /**
    The fallback cues of a segment span it: the first starts at the
    segment's start, each ends where the next starts, and the last ends at
    the segment's end.
   */
  lemma FallbackCuesSpan(seg: Segment, size: nat)
    requires size >= 1
    ensures var r := FallbackCues(seg, size);
            r != [] ==> r[0].start == seg.start && r[|r| - 1].end == seg.end
    ensures forall k :: 0 <= k < |FallbackCues(seg, size)| - 1 ==>
              FallbackCues(seg, size)[k].end == FallbackCues(seg, size)[k + 1].start
  {
    var n := |Tokens(seg)|;
    FallbackFromSpan(seg, Tokens(seg), 0, size);
    FallbackTimeBounds(seg, 0, n);
    FallbackTimeBounds(seg, n, n);
    RoundMsWhole(seg.start);
    RoundMsWhole(seg.end);
  }

  /** The windows of a run of tokens hold tokens only. */
  lemma TokensOfWindow(tokens: seq<string>, size: nat, k: nat)
    requires size >= 1 && forall i :: 0 <= i < |tokens| ==> IsToken(tokens[i])
    requires k < |WindowsFrom(tokens, 0, size)|
    ensures forall i :: 0 <= i < |WindowsFrom(tokens, 0, size)[k]| ==> IsToken(WindowsFrom(tokens, 0, size)[k][i])
  {
    var w := WindowsFrom(tokens, 0, size);
    WindowsFlatten(tokens, 0, size);
    FlattenMember(w, k);
  }

  /** Every token of the fallback lands in exactly one cue, in order. */
  lemma FallbackCuesCoverTokens(seg: Segment, size: nat)
    requires size >= 1
    ensures var r := FallbackCues(seg, size);
            Flatten(seq(|r|, k requires 0 <= k < |r| => Words(r[k].text))) == Tokens(seg)
  {
    var tokens := Tokens(seg);
    var r := FallbackCues(seg, size);
    var w := WindowsFrom(tokens, 0, size);
    WordsAreTokens(Strip(seg.text));
    FallbackAreWindows(seg, tokens, 0, size);
    WindowsFlatten(tokens, 0, size);
    var split := seq(|r|, k requires 0 <= k < |r| => Words(r[k].text));
    forall k | 0 <= k < |r| ensures split[k] == w[k] {
      TokensOfWindow(tokens, size, k);
      WordsOfJoin(w[k]);
    }
    assert split == w;
  }

  // ================================================================ records

  /**
    One SubRip record: the index line, the time line, the text line and a
    blank line. When the text is one line, splitting the record at its
    line breaks gives back exactly those lines, then the empty line and
    the empty remainder after the last break.
   */
  function Record(index: int, c: Cue): (r: string)
    ensures '\n' !in c.text ==>
              SplitOn(r, '\n') == [IntToString(index), Fmt(c.start) + " --> " + Fmt(c.end), c.text, "", ""]
  {
    IntToStringOneLine(index);
    FmtOneLine(c.start);
    FmtOneLine(c.end);
    var times := Fmt(c.start) + " --> " + Fmt(c.end);
    RecordLines(IntToString(index), times, c.text);
    IntToString(index) + "\n" + times + "\n" + c.text + "\n\n"
  }

  /** Three lines, a blank line and the empty remainder, joined by line breaks, split back into themselves. */
  lemma RecordLines(index: string, times: string, text: string)
    requires '\n' !in index && '\n' !in times
    ensures '\n' !in text ==> SplitOn(index + "\n" + times + "\n" + text + "\n\n", '\n') == [index, times, text, "", ""]
  {
    if '\n' !in text {
      var parts := [index, times, text, "", ""];
      assert JoinWith(parts[..1], "\n") == index;
      assert JoinWith(parts[..2], "\n") == index + "\n" + times by {
        assert parts[..2][..1] == parts[..1];
      }
      assert JoinWith(parts[..3], "\n") == index + "\n" + times + "\n" + text by {
        assert parts[..3][..2] == parts[..2];
      }
      assert JoinWith(parts[..4], "\n") == index + "\n" + times + "\n" + text + "\n" by {
        assert parts[..4][..3] == parts[..3];
      }
      assert JoinWith(parts, "\n") == index + "\n" + times + "\n" + text + "\n\n" by {
        assert parts[..4] == parts[..|parts| - 1];
      }
      SplitOfJoin(parts, '\n');
    }
  }

  /**
    The renderings of `items` one after the other, item `k` rendered with
    the number `first + k`: what a loop writes when it renders each item
    with a counter that starts at `first` and goes up by one per item.
   */
  function Numbered<C>(render: (int, C) -> string, items: seq<C>, first: int): string
    decreases |items|
  {
    if items == [] then ""
    else Numbered(render, items[..|items| - 1], first) + render(first + |items| - 1, items[|items| - 1])
  }

  /** Rendering one more item appends its rendering, numbered right after the others. */
  lemma NumberedSnoc<C>(render: (int, C) -> string, items: seq<C>, c: C, first: int)
    ensures Numbered(render, items + [c], first) == Numbered(render, items, first) + render(first + |items|, c)
  {
    assert (items + [c])[..|items|] == items;
  }

  /**
    The renderings of two runs of items are those of the first run followed
    by those of the second, numbered on from where the first stopped.
   */
  lemma {:induction false} NumberedAppend<C>(render: (int, C) -> string, a: seq<C>, b: seq<C>, first: int)
    ensures Numbered(render, a + b, first) == Numbered(render, a, first) + Numbered(render, b, first + |a|)
    decreases |b|
  {
    if b == [] {
      assert a + b == a;
    } else {
      var init, last := b[..|b| - 1], b[|b| - 1];
      var x, y, z := Numbered(render, a, first), Numbered(render, init, first + |a|), render(first + |a| + |init|, last);
      calc {
        Numbered(render, a + b, first);
        { assert a + b == (a + init) + [last]; }
        Numbered(render, (a + init) + [last], first);
        { NumberedSnoc(render, a + init, last, first); }
        Numbered(render, a + init, first) + z;
        { NumberedAppend(render, a, init, first); }
        (x + y) + z;
        x + (y + z);
        { NumberedSnoc(render, init, last, first + |a|); assert init + [last] == b; }
        x + Numbered(render, b, first + |a|);
      }
    }
  }

  /** Rendering one more item after `done + acc` appends its rendering, numbered after both. */
  lemma NumberedExtend<C>(render: (int, C) -> string, done: seq<C>, acc: seq<C>, c: C)
    ensures Numbered(render, done + (acc + [c]), 1) == Numbered(render, done + acc, 1) + render(1 + |done| + |acc|, c)
  {
    NumberedSnoc(render, done + acc, c, 1);
    AppendAssoc(done, acc, [c]);
  }

  /**
    Item `j` splits the renderings: those of the items before it, its own
    with number `j + 1`, then those of the items after it from `j + 2` on.
   */
  lemma NumberedAt<C>(render: (int, C) -> string, items: seq<C>, j: nat)
    requires j < |items|
    ensures Numbered(render, items, 1)
         == Numbered(render, items[..j], 1) + render(j + 1, items[j]) + Numbered(render, items[j + 1..], j + 2)
  {
    var before, after := items[..j], items[j + 1..];
    assert items == before + [items[j]] + after;
    NumberedSnoc(render, before, items[j], 1);
    NumberedAppend(render, before + [items[j]], after, 1);
  }

  /** The records of `cues` in order, the record of cue `k` carrying index `first + k`. */
  function RecordsText(cues: seq<Cue>, first: int): string {
    Numbered(Record, cues, first)
  }

  /** The SubRip file for `segments` with `words_per_caption == size`: all records, numbered from 1. */
  function SrtText(segments: seq<Segment>, size: int): string {
    RecordsText(AllCues(segments, size), 1)
  }

  /**
    The file splits at the record of any cue `j`: that record carries index
    `j + 1`, what precedes it is the records of the earlier cues and what
    follows it those of the later ones, numbered on from `j + 2`.
   */
  lemma SrtTextAt(segments: seq<Segment>, size: int, j: nat)
    requires j < |AllCues(segments, size)|
    ensures SrtText(segments, size)
         == RecordsText(AllCues(segments, size)[..j], 1) + Record(j + 1, AllCues(segments, size)[j])
            + RecordsText(AllCues(segments, size)[j + 1..], j + 2)
  {
    NumberedAt(Record, AllCues(segments, size), j);
  }

  /** The cues of one more segment follow those of the segments before it. */
  lemma AllCuesPrefix(segments: seq<Segment>, s: nat, size: int)
    requires s < |segments|
    ensures AllCues(segments[..s + 1], size) == AllCues(segments[..s], size) + SegmentCues(segments[s], size)
  {
    TakePrefix(segments, s);
  }

  /**
    Numbering runs on across segments: the file for one more segment is the
    file for the earlier ones followed by the new segment's records, whose
    indices continue after the last cue written so far.
   */
  lemma SrtTextSnoc(segments: seq<Segment>, seg: Segment, size: int)
    ensures SrtText(segments + [seg], size)
         == SrtText(segments, size) + RecordsText(SegmentCues(seg, size), 1 + |AllCues(segments, size)|)
  {
    SnocParts(segments, seg);
    NumberedAppend(Record, AllCues(segments, size), SegmentCues(seg, size), 1);
  }

  // ================================================================ the writer loop
  //
  // The loops below write each record with `render`, which `WriteSrt` sets
  // to the SubRip `Record`; they are proved for any record format.

  /** Writes the records of `chunks`, in order, numbering on from `index`. */
  method WriteChunkRecords(render: (int, Cue) -> string, chunks: seq<Cue>, out: string, index: int, ghost done: seq<Cue>)
    returns (o: string, next: int)
    requires out == Numbered(render, done, 1) && index == 1 + |done|
    ensures o == Numbered(render, done + chunks, 1)
    ensures next == index + |chunks|
  {
    ghost var acc: seq<Cue> := [];
    o, next := out, index;
    var j := 0;
    assert done + acc == done;
    while j < |chunks|
      invariant 0 <= j <= |chunks|
      invariant acc == chunks[..j]
      invariant next == 1 + |done| + |acc|
      invariant o == Numbered(render, done + acc, 1)
    {
      var c := chunks[j];
      NumberedExtend(render, done, acc, c);
      TakeSnoc(chunks, j);
      o := o + render(next, c);
      next := next + 1;
      acc := acc + [c];
      j := j + 1;
    }
    assert acc == chunks;
  }

  /** Writes the records of one word-timestamp segment, numbering on from `index`. */
  method WriteWordCues(render: (int, Cue) -> string, seg: Segment, size: int, out: string, index: int, ghost done: seq<Cue>)
    returns (r: Result<(string, int), CaptionError>)
    requires HasWords(seg)
    requires out == Numbered(render, done, 1) && index == 1 + |done|
    ensures size == 0 ==> r == Err(ZeroStep)
    ensures size != 0 ==> r == Ok((Numbered(render, done + SegmentCues(seg, size), 1), index + |SegmentCues(seg, size)|))
  {
    var res := ChunkWords(seg.words.value, size);
    if res.Err? {
      return Err(res.error);
    }
    var o, next := WriteChunkRecords(render, res.value, out, index, done);
    return Ok((o, next));
  }

  /** One turn of the fallback loop: the next cue moves from what is left to write to what is written. */
  lemma FallbackRecordStep(render: (int, Cue) -> string, seg: Segment, tokens: seq<string>, i: nat, size: nat,
                           done: seq<Cue>, acc: seq<Cue>, cues: seq<Cue>)
    requires i < |tokens| && size >= 1
    requires acc + FallbackFrom(seg, tokens, i, size) == cues
    ensures var c := FallbackCueAt(seg, tokens, i, size);
            && (acc + [c]) + FallbackFrom(seg, tokens, i + size, size) == cues
            && Numbered(render, done + (acc + [c]), 1) == Numbered(render, done + acc, 1) + render(1 + |done| + |acc|, c)
  {
    FallbackStep(seg, tokens, i, size, acc, cues);
    NumberedExtend(render, done, acc, FallbackCueAt(seg, tokens, i, size));
  }

  /** Writes the fallback records of `tokens` split into groups of `size`, numbering on from `index`. */
  method WriteFallbackRecords(render: (int, Cue) -> string, seg: Segment, tokens: seq<string>, size: nat,
                              out: string, index: int, ghost done: seq<Cue>)
    returns (o: string, next: int)
    requires size >= 1
    requires out == Numbered(render, done, 1) && index == 1 + |done|
    ensures o == Numbered(render, done + FallbackFrom(seg, tokens, 0, size), 1)
    ensures next == index + |FallbackFrom(seg, tokens, 0, size)|
  {
    ghost var cues := FallbackFrom(seg, tokens, 0, size);
    o, next := out, index;
    ghost var acc: seq<Cue> := [];
    assert done + acc == done;
    var i: nat := 0;
    while i < |tokens|
      invariant acc + FallbackFrom(seg, tokens, i, size) == cues
      invariant next == 1 + |done| + |acc|
      invariant o == Numbered(render, done + acc, 1)
      decreases |tokens| - i
    {
      var c := FallbackCueAt(seg, tokens, i, size);
      FallbackRecordStep(render, seg, tokens, i, size, done, acc, cues);
      o, next := o + render(next, c), next + 1;
      acc, i := acc + [c], i + size;
    }
    assert acc + [] == acc;
  }

  /** Writes the records of one segment by the even-split fallback, numbering on from `index`. */
  method WriteFallbackCues(render: (int, Cue) -> string, seg: Segment, size: int, out: string, index: int, ghost done: seq<Cue>)
    returns (r: Result<(string, int), CaptionError>)
    requires !HasWords(seg)
    requires out == Numbered(render, done, 1) && index == 1 + |done|
    ensures size == 0 ==> r == Err(ZeroStep)
    ensures size != 0 ==> r == Ok((Numbered(render, done + SegmentCues(seg, size), 1), index + |SegmentCues(seg, size)|))
  {
    if size == 0 {
      return Err(ZeroStep);
    }
    if size < 0 {
      assert done + [] == done;
      return Ok((out, index));
    }
    var o, next := WriteFallbackRecords(render, seg, Words(Strip(seg.text)), size, out, index, done);
    return Ok((o, next));
  }

  /** Writes the records of one segment, by its word timestamps when it has them, numbering on from `index`. */
  method WriteSegment(render: (int, Cue) -> string, seg: Segment, size: int, out: string, index: int, ghost done: seq<Cue>)
    returns (r: Result<(string, int), CaptionError>)
    requires out == Numbered(render, done, 1) && index == 1 + |done|
    ensures size == 0 ==> r == Err(ZeroStep)
    ensures size != 0 ==> r == Ok((Numbered(render, done + SegmentCues(seg, size), 1), index + |SegmentCues(seg, size)|))
  {
    if HasWords(seg) {
      r := WriteWordCues(render, seg, size, out, index, done);
    } else {
      r := WriteFallbackCues(render, seg, size, out, index, done);
    }
  }

  /**
    The record loop of `transcribe_and_save_captions`: the text written to
    the file. A zero `words_per_caption` raises at the first segment; with
    no segment at all the file stays empty.
   */
  method WriteSegments(render: (int, Cue) -> string, segments: seq<Segment>, wordsPerCaption: int)
    returns (r: Result<string, CaptionError>)
    ensures wordsPerCaption == 0 && segments != [] ==> r == Err(ZeroStep)
    ensures wordsPerCaption != 0 || segments == [] ==> r == Ok(Numbered(render, AllCues(segments, wordsPerCaption), 1))
  {
    var out := "";
    var captionIndex := 1;
    ghost var done: seq<Cue> := [];
    var s := 0;
    while s < |segments|
      invariant 0 <= s <= |segments|
      invariant s > 0 ==> wordsPerCaption != 0
      invariant done == AllCues(segments[..s], wordsPerCaption)
      invariant captionIndex == 1 + |done|
      invariant out == Numbered(render, done, 1)
    {
      var step := WriteSegment(render, segments[s], wordsPerCaption, out, captionIndex, done);
      if step.Err? {
        return Err(step.error);
      }
      AllCuesPrefix(segments, s, wordsPerCaption);
      out, captionIndex := step.value.0, step.value.1;
      done := done + SegmentCues(segments[s], wordsPerCaption);
      s := s + 1;
    }
    assert segments[..s] == segments;
    return Ok(out);
  }

  /** The `.srt` file `transcribe_and_save_captions` writes: every record in the SubRip format. */
  method WriteSrt(segments: seq<Segment>, wordsPerCaption: int) returns (r: Result<string, CaptionError>)
    ensures wordsPerCaption == 0 && segments != [] ==> r == Err(ZeroStep)
    ensures wordsPerCaption != 0 || segments == [] ==> r == Ok(SrtText(segments, wordsPerCaption))
  {
    r := WriteSegments(Record, segments, wordsPerCaption);
  }
}
