/**
 * The text chunker: splits a document into ordered, indexed chunks that
 * overlap. The new part of every chunk is whole paragraphs; the overlap at
 * its head is a raw tail of the previous buffer and may begin mid-paragraph.
 * A chunk exceeds the limit only when it is the carried overlap followed by a
 * single paragraph, which happens when that paragraph alone, or the overlap
 * plus it, is longer than the limit.
 *
 * A chunker is configured once with a character limit and an overlap rate
 * (`New`). Chunking (`TextChunker.ChunkText`) splits the text into
 * paragraphs (`SplitParagraphs`), then walks them greedily, growing a
 * buffer while it stays within the limit and, when the next paragraph does
 * not fit, emitting the buffer as a chunk (`MakeChunk`) and seeding the next
 * buffer with the raw tail of the old one followed by that paragraph.
 *
 * `ChunkText` is the loop as the program runs it. `TextChunker.Chunked` is the
 * same computation written as a fold (`Pack`, `Buffers`), and the lemmas at the
 * end of `TextChunker` state what the emitted buffers and chunks satisfy.
 */
module Chunker {
  import opened Wrappers
  import opened PyStr

  /** The error raised for an invalid configuration. */
  datatype ChunkingError = ChunkingError(message: string)

  const OverlapRateMessage: string := "Overlap rate must be between 0 and 1"

  /** The documented defaults of the constructor's two parameters. */
  const DefaultMaxChars: int := 4000
  const DefaultOverlapRate: real := 0.1

  /** One emitted chunk: its position, its whitespace-trimmed text and the
      length of the buffer before trimming. */
  datatype Chunk = Chunk(index: nat, text: string, count: nat)

  /** The validating constructor: the overlap rate must lie strictly between
      0 and 1, and the overlap length is the floor of `maxChars * overlapRate`.
      The character limit itself is not checked. */
  function New(maxChars: int, overlapRate: real): (r: Result<TextChunker, ChunkingError>)
    ensures r.Failure? <==> !(0.0 < overlapRate < 1.0)
    ensures r.Failure? ==> r.error == ChunkingError(OverlapRateMessage)
    ensures r.Success? ==> r.value.maxChars == maxChars
    ensures r.Success? ==>
      r.value.overlapChars as real <= maxChars as real * overlapRate < r.value.overlapChars as real + 1.0
    ensures r.Success? && maxChars > 0 ==> 0 <= r.value.overlapChars < maxChars
    ensures r.Success? && maxChars <= 0 ==> r.value.overlapChars <= 0
  {
    if !(0.0 < overlapRate < 1.0) then Failure(ChunkingError(OverlapRateMessage))
    else
      var product := maxChars as real * overlapRate;
      ProductBounds(maxChars, overlapRate);
      Success(TextChunker(maxChars, product.Floor))
  }

  lemma ProductBounds(m: int, rate: real)
    requires 0.0 < rate < 1.0
    ensures m > 0 ==> 0.0 < m as real * rate < m as real
    ensures m <= 0 ==> m as real <= m as real * rate <= 0.0
  {
    if m > 0 {
      assert m as real * rate < m as real * 1.0;
    } else {
      assert m as real * 1.0 <= m as real * rate;
    }
  }

  lemma DefaultConfiguration()
    ensures New(DefaultMaxChars, DefaultOverlapRate) == Success(TextChunker(4000, 400))
  {
    assert DefaultMaxChars as real * DefaultOverlapRate == 400.0;
  }

  /** A paragraph as the splitter produces it: a non-empty, already stripped,
      newline-free body followed by a blank line `"\n\n"`. */
  ghost predicate IsParagraph(p: string) {
    && |p| >= 3
    && p[|p| - 2..] == "\n\n"
    && var body := p[..|p| - 2];
      Strip(body) == body && '\n' !in body
  }

  ghost predicate AllParagraphs(ps: seq<string>) {
    forall k {:trigger IsParagraph(ps[k])} :: 0 <= k < |ps| ==> IsParagraph(ps[k])
  }

  /** No paragraph is blank: its body begins with a non-whitespace character. */
  lemma ParagraphNotBlank(p: string)
    requires IsParagraph(p)
    ensures !IsBlank(p)
  {
    assert p[0] == p[..|p| - 2][0];
  }

  /** The comprehension over the pieces of a split: each piece that is not
      blank, stripped and followed by `"\n\n"`, in order. */
  function Paragraphs(pieces: seq<string>): (ps: seq<string>)
    requires forall k :: 0 <= k < |pieces| ==> '\n' !in pieces[k]
    ensures |ps| <= |pieces|
    decreases |pieces|
  {
    if pieces == [] then []
    else
      var rest := Paragraphs(pieces[1..]);
      if Strip(pieces[0]) == [] then rest else [Strip(pieces[0]) + "\n\n"] + rest
  }

  /** Everything the comprehension yields is a paragraph. */
  lemma {:induction false} ParagraphsShape(pieces: seq<string>)
    requires forall k :: 0 <= k < |pieces| ==> '\n' !in pieces[k]
    ensures AllParagraphs(Paragraphs(pieces))
    decreases |pieces|
  {
    if pieces != [] {
      var rest := Paragraphs(pieces[1..]);
      ParagraphsShape(pieces[1..]);
      if Strip(pieces[0]) != [] {
        var p := Strip(pieces[0]) + "\n\n";
        PieceParagraph(pieces[0]);
        assert forall k :: 1 <= k < |rest| + 1 ==> ([p] + rest)[k] == rest[k - 1];
      }
    }
  }

  /** A non-blank line, stripped and followed by `"\n\n"`, is a paragraph. */
  lemma PieceParagraph(piece: string)
    requires '\n' !in piece && !IsBlank(piece)
    ensures IsParagraph(Strip(piece) + "\n\n")
  {
    var body := Strip(piece);
    var p := body + "\n\n";
    assert p[..|p| - 2] == body && p[|p| - 2..] == "\n\n";
    StripStrip(piece);
    StripSlice(piece);
    var i :| 0 <= i <= |piece| - |body| && piece[i..i + |body|] == body;
    forall k | 0 <= k < |body| ensures body[k] != '\n' {
      assert body[k] == piece[i + k];
    }
  }

  /** Splits the text at newlines and keeps its non-blank lines as paragraphs. */
  function SplitParagraphs(text: string): seq<string> {
    Paragraphs(Split(text))
  }

  /** Every paragraph the splitter yields is a stripped, newline-free,
      non-empty line followed by `"\n\n"`. */
  lemma SplitParagraphsShape(text: string)
    ensures AllParagraphs(SplitParagraphs(text))
  {
    ParagraphsShape(Split(text));
  }

  /** The comprehension is compositional: its result on a concatenation of
      pieces is the concatenation of its results, so it keeps input order. */
  lemma {:induction false} ParagraphsAppend(a: seq<string>, b: seq<string>)
    requires forall k :: 0 <= k < |a| ==> '\n' !in a[k]
    requires forall k :: 0 <= k < |b| ==> '\n' !in b[k]
    ensures Paragraphs(a + b) == Paragraphs(a) + Paragraphs(b)
    decreases |a|
  {
    if a == [] {
      assert a + b == b;
    } else {
      assert (a + b)[1..] == a[1..] + b;
      assert (a + b)[0] == a[0];
      ParagraphsAppend(a[1..], b);
    }
  }

  /** A blank line is dropped wherever it stands; any other line yields
      exactly one paragraph, its stripped text followed by `"\n\n"`, between
      the paragraphs of the lines before it and those of the lines after it. */
  lemma ParagraphsAround(pre: seq<string>, line: string, post: seq<string>)
    requires forall j :: 0 <= j < |pre| ==> '\n' !in pre[j]
    requires '\n' !in line
    requires forall j :: 0 <= j < |post| ==> '\n' !in post[j]
    ensures IsBlank(line) ==>
      Paragraphs(pre + [line] + post) == Paragraphs(pre) + Paragraphs(post)
    ensures !IsBlank(line) ==>
      Paragraphs(pre + [line] + post) == Paragraphs(pre) + [Strip(line) + "\n\n"] + Paragraphs(post)
  {
    var a, b := Paragraphs(pre), Paragraphs(post);
    ParagraphsBefore(pre, line, post);
    ParagraphsCons(line, post);
    if !IsBlank(line) {
      var mid := [Strip(line) + "\n\n"];
      assert a + (mid + b) == a + mid + b;
    }
  }

  lemma ParagraphsBefore(pre: seq<string>, line: string, post: seq<string>)
    requires forall j :: 0 <= j < |pre| ==> '\n' !in pre[j]
    requires '\n' !in line
    requires forall j :: 0 <= j < |post| ==> '\n' !in post[j]
    ensures Paragraphs(pre + [line] + post) == Paragraphs(pre) + Paragraphs([line] + post)
  {
    assert pre + [line] + post == pre + ([line] + post);
    ParagraphsAppend(pre, [line] + post);
  }

  lemma ParagraphsCons(x: string, rest: seq<string>)
    requires '\n' !in x
    requires forall j :: 0 <= j < |rest| ==> '\n' !in rest[j]
    ensures IsBlank(x) ==> Paragraphs([x] + rest) == Paragraphs(rest)
    ensures !IsBlank(x) ==> Paragraphs([x] + rest) == [Strip(x) + "\n\n"] + Paragraphs(rest)
  {
    assert ([x] + rest)[1..] == rest;
  }

  /** The comprehension yields nothing exactly when every piece is blank. */
  lemma {:induction false} ParagraphsEmpty(pieces: seq<string>)
    requires forall k :: 0 <= k < |pieces| ==> '\n' !in pieces[k]
    ensures Paragraphs(pieces) == [] <==> forall k :: 0 <= k < |pieces| ==> IsBlank(pieces[k])
    decreases |pieces|
  {
    if pieces != [] {
      ParagraphsEmpty(pieces[1..]);
      assert forall k :: 1 <= k < |pieces| ==> pieces[k] == pieces[1..][k - 1];
    }
  }

  /** A text has no paragraph exactly when it is blank. */
  lemma NoParagraphs(text: string)
    ensures SplitParagraphs(text) == [] <==> IsBlank(text)
  {
    JoinSplit(text);
    BlankJoin(Split(text));
    ParagraphsEmpty(Split(text));
  }

  /** A non-blank line without newline is exactly one paragraph. */
  lemma LineParagraphs(text: string)
    requires '\n' !in text && !IsBlank(text)
    ensures SplitParagraphs(text) == [Strip(text) + "\n\n"]
  {
    SplitJoin([text]);
    assert Split(text) == [text];
    assert [text][1..] == [];
  }

  /** The paragraph made of a line strips back to the stripped line. */
  lemma StripParagraph(text: string)
    ensures Strip(Strip(text) + "\n\n") == Strip(text)
  {
    assert [] + Strip(text) + "\n\n" == Strip(text) + "\n\n";
    StripOf([], Strip(text), "\n\n");
  }

  /** The chunk record for a buffer: the buffer stripped of the whitespace at
      both ends, with the length of the untrimmed buffer as its count. */
  function MakeChunk(index: nat, buffer: string): (c: Chunk)
    ensures c.index == index && c.count == |buffer|
    ensures |c.text| <= c.count
    ensures c.text == [] <==> IsBlank(buffer)
  {
    Chunk(index, Strip(buffer), |buffer|)
  }

  /** The chunk's text is its buffer with whitespace removed at both ends and
      nowhere else. */
  lemma MakeChunkTrims(index: nat, buffer: string)
    ensures Strip(MakeChunk(index, buffer).text) == MakeChunk(index, buffer).text
    ensures var t := MakeChunk(index, buffer).text;
      exists i :: 0 <= i <= |buffer| - |t| && IsBlank(buffer[..i]) &&
        buffer[i..i + |t|] == t && IsBlank(buffer[i + |t|..])
  {
    StripStrip(buffer);
    StripSlice(buffer);
  }

  /** The chunk records for a list of emitted buffers, numbered from 0: one
      chunk per buffer, in order, each holding its position in the list, the
      stripped buffer and the length of the unstripped buffer. */
  function Numbered(bs: seq<string>): (cs: seq<Chunk>)
    ensures |cs| == |bs|
    ensures forall k :: 0 <= k < |bs| ==>
      cs[k].index == k && cs[k].text == Strip(bs[k]) && cs[k].count == |bs[k]|
  {
    seq(|bs|, k requires 0 <= k < |bs| => MakeChunk(k, bs[k]))
  }

  lemma NumberedSnoc(bs: seq<string>, b: string)
    ensures Numbered(bs + [b]) == Numbered(bs) + [MakeChunk(|bs|, b)]
  {
    assert forall k :: 0 <= k < |bs| ==> (bs + [b])[k] == bs[k];
  }

  lemma NumberedOne(b: string)
    ensures Numbered([b]) == [MakeChunk(0, b)]
  {
  }

  /** The state of the packing loop: the buffers emitted so far and the
      buffer being filled. */
  datatype Packing = Packing(flushed: seq<string>, buffer: string)

  /** A chunker: the character limit and the overlap length derived from the
      overlap rate, both fixed at construction. */
  datatype TextChunker = TextChunker(maxChars: int, overlapChars: int) {

    /** The overlap carried from a buffer into the next one: its last
        `overlapChars` characters (all of it when it is shorter), or nothing
        when the overlap length is not positive. */
    function Overlap(buffer: string): (r: string)
      ensures |r| == if overlapChars <= 0 then 0 else if overlapChars < |buffer| then overlapChars else |buffer|
      ensures r == buffer[|buffer| - |r|..]
    {
      if overlapChars > 0 then Tail(buffer, overlapChars) else []
    }

    /** One iteration of the packing loop, for paragraph `p`. */
    function Step(st: Packing, p: string): Packing {
      if |st.buffer| + |p| <= maxChars then Packing(st.flushed, st.buffer + p)
      else
        var flushed := if Strip(st.buffer) != [] then st.flushed + [st.buffer] else st.flushed;
        Packing(flushed, Overlap(st.buffer) + p)
    }

    /** The loop state after the paragraphs `ps`, starting from no buffers and
        an empty buffer. */
    function Pack(ps: seq<string>): Packing
      decreases |ps|
    {
      if ps == [] then Packing([], [])
      else Step(Pack(ps[..|ps| - 1]), ps[|ps| - 1])
    }

    /** All buffers emitted for the paragraphs `ps`: those flushed by the loop
        and, when it is not blank, the buffer left at the end. */
    function Buffers(ps: seq<string>): seq<string> {
      var st := Pack(ps);
      if Strip(st.buffer) != [] then st.flushed + [st.buffer] else st.flushed
    }

    /** For each buffer the loop has started after the paragraphs `ps` (those
        flushed, then the one being filled), the position in `ps` of the first
        paragraph appended to it: a new buffer starts exactly where the loop
        flushes. */
    ghost function Starts(ps: seq<string>): seq<nat>
      decreases |ps|
    {
      if ps == [] then [0]
      else
        var init := ps[..|ps| - 1];
        var st := Pack(init);
        if |st.buffer| + |ps[|ps| - 1]| > maxChars && Strip(st.buffer) != [] then Starts(init) + [|init|]
        else Starts(init)
    }

    /** What chunking `text` returns: nothing for the empty text, otherwise
        the numbered chunks of the emitted buffers. */
    function Chunked(text: string): Option<seq<Chunk>> {
      if text == [] then None else Some(Numbered(Buffers(SplitParagraphs(text))))
    }

    /** The chunking loop. */
    method ChunkText(text: string) returns (r: Option<seq<Chunk>>)
      ensures r == Chunked(text)
      ensures r.None? <==> text == []
      ensures r.Some? ==> forall k :: 0 <= k < |r.value| ==> r.value[k].index == k
    {
      if text == [] {
        return None;
      }
      var paragraphs := SplitParagraphs(text);
      var chunks: seq<Chunk> := [];
      var current: string, chunkIdx: nat := [], 0;
      ghost var flushed: seq<string> := [];
      for i := 0 to |paragraphs|
        invariant Pack(paragraphs[..i]) == Packing(flushed, current)
        invariant chunkIdx == |flushed|
        invariant chunks == Numbered(flushed)
      {
        var p := paragraphs[i];
        PackPrefix(paragraphs, i);
        if |current| + |p| <= maxChars {
          current := current + p;
        } else {
          if Strip(current) != [] {
            NumberedSnoc(flushed, current);
            chunks := chunks + [MakeChunk(chunkIdx, current)];
            chunkIdx := chunkIdx + 1;
            flushed := flushed + [current];
          }
          var overlap := Overlap(current);
          current := overlap + p;
        }
      }
      assert paragraphs[..|paragraphs|] == paragraphs;
      if Strip(current) != [] {
        NumberedSnoc(flushed, current);
        chunks := chunks + [MakeChunk(chunkIdx, current)];
        flushed := flushed + [current];
      }
      return Some(chunks);
    }

    lemma PackPrefix(ps: seq<string>, i: int)
      requires 0 <= i < |ps|
      ensures Pack(ps[..i + 1]) == Step(Pack(ps[..i]), ps[i])
    {
      assert ps[..i + 1][..i] == ps[..i];
    }

    /** The overlap carried into the buffer that follows the buffers `earlier`. */
    ghost function Carried(earlier: seq<string>): string {
      if earlier == [] then [] else Overlap(earlier[|earlier| - 1])
    }

    /** What is carried into the buffer after the first `k` buffers is the
        overlap of the `k`-th of them. */
    lemma CarriedLast(bs: seq<string>, k: int)
      requires 0 < k <= |bs|
      ensures Carried(bs[..k]) == Overlap(bs[k - 1])
    {
      assert bs[..k][k - 1] == bs[k - 1];
    }

    /** The part of buffer `b` that is new, i.e. not carried over from the
        buffers `earlier`. */
    ghost function Fresh(earlier: seq<string>, b: string): string {
      var n := |Carried(earlier)|;
      if n <= |b| then b[n..] else b
    }

    /** The new parts of the buffers `bs`, concatenated in order. */
    ghost function FreshText(bs: seq<string>): string
      decreases |bs|
    {
      if bs == [] then []
      else FreshText(bs[..|bs| - 1]) + Fresh(bs[..|bs| - 1], bs[|bs| - 1])
    }

    /** What holds of the `k`-th of the emitted buffers `bs` for paragraphs
        `ps`: it is not blank, it begins with the overlap carried from its
        predecessor, and when it exceeds the limit its new part is one
        paragraph. */
    ghost predicate WellEmitted(ps: seq<string>, bs: seq<string>, k: int)
      requires 0 <= k < |bs|
    {
      Emitted(ps, Carried(bs[..k]), bs[k])
    }

    /** Buffer `b`, into which `c` was carried, is fit to be emitted. */
    ghost predicate Emitted(ps: seq<string>, c: string, b: string) {
      && !IsBlank(b)
      && |c| <= |b| && b[..|c|] == c
      && (|b| > maxChars ==> b[|c|..] in ps)
    }

    /** The invariant of the packing loop after paragraphs `ps`. */
    ghost predicate PackInv(ps: seq<string>, st: Packing) {
      BufferInv(ps, st) && AllWellEmitted(ps, st.flushed)
    }

    /** What holds of the buffer being filled: it is empty only before the
        first paragraph, it begins with the overlap carried into it, its new
        part completes the paragraphs so far, and it exceeds the limit only
        when its new part is the latest paragraph. */
    ghost predicate BufferInv(ps: seq<string>, st: Packing) {
      var c := Carried(st.flushed);
      && (ps == [] ==> st == Packing([], []))
      && (ps != [] ==> !IsBlank(st.buffer))
      && Continues(FreshText(st.flushed), c, st.buffer, Concat(ps))
      && (ps != [] && |st.buffer| > maxChars ==> st.buffer[|c|..] == ps[|ps| - 1])
    }

    ghost predicate AllWellEmitted(ps: seq<string>, bs: seq<string>) {
      forall k :: 0 <= k < |bs| ==> WellEmitted(ps, bs, k)
    }

    lemma EmittedGrows(ps: seq<string>, p: string, bs: seq<string>)
      requires AllWellEmitted(ps, bs)
      ensures AllWellEmitted(ps + [p], bs)
    {
      forall k | 0 <= k < |bs| ensures WellEmitted(ps + [p], bs, k) {
        assert WellEmitted(ps, bs, k);
        var c := Carried(bs[..k]);
        if |bs[k]| > maxChars {
          var j :| 0 <= j < |ps| && ps[j] == bs[k][|c|..];
          assert (ps + [p])[j] == ps[j];
        }
      }
    }

    /** The paragraph fits: it is appended to the buffer. */
    lemma FitKeepsInv(ps: seq<string>, st: Packing, p: string)
      requires IsParagraph(p) && PackInv(ps, st)
      requires |st.buffer| + |p| <= maxChars
      ensures PackInv(ps + [p], Packing(st.flushed, st.buffer + p))
    {
      FitKeepsBuffer(ps, st, p);
      EmittedGrows(ps, p, st.flushed);
    }

    lemma FitKeepsBuffer(ps: seq<string>, st: Packing, p: string)
      requires IsParagraph(p) && BufferInv(ps, st)
      requires |st.buffer| + |p| <= maxChars
      ensures BufferInv(ps + [p], Packing(st.flushed, st.buffer + p))
    {
      ContinuesAppend(FreshText(st.flushed), Carried(st.flushed), st.buffer, Concat(ps), p);
      ConcatSnoc(ps, p);
      ParagraphNotBlank(p);
      BlankAppend(st.buffer, p);
    }

    /** The first paragraph does not fit: the empty buffer is not emitted and
        the paragraph alone starts the next one. */
    lemma FirstKeepsInv(p: string)
      requires IsParagraph(p)
      ensures PackInv([p], Packing([], Overlap([]) + p))
    {
      ConcatSnoc([], p);
      ParagraphNotBlank(p);
      assert Overlap([]) + p == p;
      assert [] + [p] == [p];
    }

    /** A later paragraph does not fit: the buffer is emitted and the next one
        starts with its overlap followed by the paragraph. */
    lemma FlushKeepsInv(ps: seq<string>, st: Packing, p: string)
      requires IsParagraph(p) && PackInv(ps, st) && ps != []
      ensures PackInv(ps + [p], Packing(st.flushed + [st.buffer], Overlap(st.buffer) + p))
    {
      FlushKeepsBuffer(ps, st, p);
      FlushKeepsEmitted(ps, st, p);
    }

    lemma EmitSnoc(bs: seq<string>, b: string)
      ensures Carried(bs + [b]) == Overlap(b)
      ensures FreshText(bs + [b]) == FreshText(bs) + Fresh(bs, b)
    {
      assert (bs + [b])[..|bs|] == bs;
    }

    lemma FlushKeepsBuffer(ps: seq<string>, st: Packing, p: string)
      requires IsParagraph(p) && BufferInv(ps, st) && ps != []
      ensures BufferInv(ps + [p], Packing(st.flushed + [st.buffer], Overlap(st.buffer) + p))
    {
      var o := Overlap(st.buffer);
      EmitSnoc(st.flushed, st.buffer);
      ConcatSnoc(ps, p);
      ParagraphNotBlank(p);
      BlankAppend(o, p);
      assert (o + p)[..|o|] == o;
      assert (o + p)[|o|..] == p;
    }

    /** Emitting the buffer being filled: it is well emitted, as are those
        before it. */
    lemma EmitKeepsInv(ps: seq<string>, st: Packing)
      requires PackInv(ps, st) && ps != []
      ensures AllWellEmitted(ps, st.flushed + [st.buffer])
    {
      assert Emitted(ps, Carried(st.flushed), st.buffer) by {
        assert ps[|ps| - 1] in ps;
      }
      EmittedSnoc(ps, st.flushed, st.buffer);
    }

    /** Once emitted, the new parts of all buffers spell out the paragraphs. */
    lemma EmitFresh(ps: seq<string>, st: Packing)
      requires BufferInv(ps, st)
      ensures FreshText(st.flushed + [st.buffer]) == Concat(ps)
    {
      EmitSnoc(st.flushed, st.buffer);
    }

    lemma EmittedSnoc(ps: seq<string>, bs: seq<string>, b: string)
      requires AllWellEmitted(ps, bs) && Emitted(ps, Carried(bs), b)
      ensures AllWellEmitted(ps, bs + [b])
    {
      forall k | 0 <= k < |bs| + 1 ensures WellEmitted(ps, bs + [b], k) {
        if k < |bs| {
          assert (bs + [b])[..k] == bs[..k];
          assert WellEmitted(ps, bs, k);
        } else {
          assert (bs + [b])[..k] == bs;
        }
      }
    }

    lemma FlushKeepsEmitted(ps: seq<string>, st: Packing, p: string)
      requires PackInv(ps, st) && ps != []
      ensures AllWellEmitted(ps + [p], st.flushed + [st.buffer])
    {
      EmitKeepsInv(ps, st);
      EmittedGrows(ps, p, st.flushed + [st.buffer]);
    }

    lemma StepKeepsInv(ps: seq<string>, st: Packing, p: string)
      requires IsParagraph(p) && PackInv(ps, st)
      ensures PackInv(ps + [p], Step(st, p))
    {
      if |st.buffer| + |p| <= maxChars {
        FitKeepsInv(ps, st, p);
      } else if ps == [] {
        FirstKeepsInv(p);
      } else {
        ParagraphNotBlank(p);
        FlushKeepsInv(ps, st, p);
      }
    }

    lemma {:induction false} PackKeepsInv(ps: seq<string>)
      requires AllParagraphs(ps)
      ensures PackInv(ps, Pack(ps))
      decreases |ps|
    {
      if ps != [] {
        var init := ps[..|ps| - 1];
        assert init + [ps[|ps| - 1]] == ps;
        PackKeepsInv(init);
        StepKeepsInv(init, Pack(init), ps[|ps| - 1]);
      }
    }

    /** What every list of emitted buffers satisfies, for well-formed paragraphs:
        there is at least one buffer unless there is no paragraph, each buffer
        is well emitted, and their new parts spell out all paragraphs in order. */
    lemma BuffersInv(ps: seq<string>)
      requires AllParagraphs(ps)
      ensures Buffers(ps) == [] <==> ps == []
      ensures forall k :: 0 <= k < |Buffers(ps)| ==> WellEmitted(ps, Buffers(ps), k)
      ensures FreshText(Buffers(ps)) == Concat(ps)
    {
      PackKeepsInv(ps);
      var st := Pack(ps);
      var bs := Buffers(ps);
      if ps != [] {
        assert bs == st.flushed + [st.buffer];
        EmitKeepsInv(ps, st);
        EmitFresh(ps, st);
      }
    }

    /** What holds of the `k`-th flushed buffer of `f`, whose buffers start
        at the positions `s`: its new part is the whole paragraphs from `s[k]`
        up to the next start, it was flushed because the paragraph at that
        next start did not fit, and it exceeds the limit only when its new
        part is a single paragraph. */
    ghost predicate CutAt(ps: seq<string>, f: seq<string>, s: seq<nat>, k: int) {
      && 0 <= k < |f| && |s| == |f| + 1 && s[k] < s[k + 1] < |ps|
      && Fresh(f[..k], f[k]) == Concat(ps[s[k]..s[k + 1]])
      && |f[k]| + |ps[s[k + 1]]| > maxChars
      && (|f[k]| > maxChars ==> s[k + 1] == s[k] + 1)
    }

    /** The invariant of the packing loop about paragraph boundaries, with
        `s` the start positions of its buffers. */
    ghost predicate CutInv(ps: seq<string>, st: Packing, s: seq<nat>) {
      var f, c := st.flushed, Carried(st.flushed);
      && |s| == |f| + 1 && s[0] == 0 && Increasing(s)
      && (forall k :: 0 <= k < |f| ==> CutAt(ps, f, s, k))
      && s[|f|] <= |ps| && (ps != [] ==> s[|f|] < |ps|)
      && |c| <= |st.buffer| && st.buffer[|c|..] == Concat(ps[s[|f|]..])
      && (ps != [] && |st.buffer| > maxChars ==> s[|f|] + 1 == |ps|)
    }

    ghost predicate Increasing(s: seq<nat>) {
      forall i, j :: 0 <= i < j < |s| ==> s[i] < s[j]
    }

    lemma IncreasingSnoc(s: seq<nat>, n: nat)
      requires Increasing(s) && s != [] && s[|s| - 1] < n
      ensures Increasing(s + [n])
    {
      forall i, j | 0 <= i < j < |s| + 1 ensures (s + [n])[i] < (s + [n])[j] {
        if j == |s| && i < |s| - 1 {
          assert s[i] < s[|s| - 1];
        }
      }
    }

    lemma CutAtGrows(ps: seq<string>, p: string, f: seq<string>, s: seq<nat>, k: int)
      requires CutAt(ps, f, s, k)
      ensures CutAt(ps + [p], f, s, k)
    {
      assert (ps + [p])[s[k]..s[k + 1]] == ps[s[k]..s[k + 1]];
      assert (ps + [p])[s[k + 1]] == ps[s[k + 1]];
    }

    lemma CutAtSnoc(ps: seq<string>, f: seq<string>, b: string, s: seq<nat>, n: nat, k: int)
      requires CutAt(ps, f, s, k)
      ensures CutAt(ps, f + [b], s + [n], k)
    {
      assert (f + [b])[..k] == f[..k];
      assert (f + [b])[k] == f[k];
      assert (s + [n])[k + 1] == s[k + 1];
    }

    lemma FitKeepsCuts(ps: seq<string>, st: Packing, p: string, s: seq<nat>)
      requires CutInv(ps, st, s) && |st.buffer| + |p| <= maxChars
      ensures CutInv(ps + [p], Packing(st.flushed, st.buffer + p), s)
    {
      var f, b, c, a := st.flushed, st.buffer, Carried(st.flushed), s[|st.flushed|];
      forall k | 0 <= k < |f| ensures CutAt(ps + [p], f, s, k) {
        CutAtGrows(ps, p, f, s, k);
      }
      assert (b + p)[|c|..] == b[|c|..] + p;
      assert (ps + [p])[a..] == ps[a..] + [p];
      ConcatSnoc(ps[a..], p);
    }

    lemma FirstKeepsCuts(p: string)
      ensures CutInv([p], Packing([], Overlap([]) + p), [0])
    {
      assert Overlap([]) + p == p;
      assert [p][0..] == [] + [p];
      ConcatSnoc([], p);
    }

    lemma FlushKeepsCuts(ps: seq<string>, st: Packing, p: string, s: seq<nat>)
      requires CutInv(ps, st, s) && ps != []
      requires |st.buffer| + |p| > maxChars
      ensures CutInv(ps + [p], Packing(st.flushed + [st.buffer], Overlap(st.buffer) + p), s + [|ps|])
    {
      var f, b, o := st.flushed, st.buffer, Overlap(st.buffer);
      var f', s', ps' := f + [b], s + [|ps|], ps + [p];
      assert s'[0] == 0 && s'[|f'|] == |ps|;
      IncreasingSnoc(s, |ps|);
      FlushAllCuts(ps, st, p, s);
      assert Carried(f') == o by {
        EmitSnoc(f, b);
      }
      assert (o + p)[|o|..] == Concat(ps'[|ps|..]) by {
        assert ps'[|ps|..] == [] + [p];
        ConcatSnoc([], p);
      }
    }

    lemma FlushAllCuts(ps: seq<string>, st: Packing, p: string, s: seq<nat>)
      requires CutInv(ps, st, s) && ps != []
      requires |st.buffer| + |p| > maxChars
      ensures forall k :: 0 <= k < |st.flushed| + 1 ==>
        CutAt(ps + [p], st.flushed + [st.buffer], s + [|ps|], k)
    {
      forall k | 0 <= k < |st.flushed| + 1
        ensures CutAt(ps + [p], st.flushed + [st.buffer], s + [|ps|], k)
      {
        if k < |st.flushed| {
          FlushOldCuts(ps, st, p, s);
        } else {
          FlushNewCut(ps, st, p, s);
        }
      }
    }

    lemma FlushOldCuts(ps: seq<string>, st: Packing, p: string, s: seq<nat>)
      requires CutInv(ps, st, s)
      ensures forall k :: 0 <= k < |st.flushed| ==>
        CutAt(ps + [p], st.flushed + [st.buffer], s + [|ps|], k)
    {
      var f, b := st.flushed, st.buffer;
      forall k | 0 <= k < |f| ensures CutAt(ps + [p], f + [b], s + [|ps|], k) {
        assert CutAt(ps, f, s, k);
        CutAtSnoc(ps, f, b, s, |ps|, k);
        CutAtGrows(ps, p, f + [b], s + [|ps|], k);
      }
    }

    /** The flushed buffer holds the paragraphs from its start up to the
        paragraph that did not fit. */
    lemma FlushNewCut(ps: seq<string>, st: Packing, p: string, s: seq<nat>)
      requires CutInv(ps, st, s) && ps != []
      requires |st.buffer| + |p| > maxChars
      ensures CutAt(ps + [p], st.flushed + [st.buffer], s + [|ps|], |st.flushed|)
    {
      var f, b, ps' := st.flushed, st.buffer, ps + [p];
      var a := s[|f|];
      assert (f + [b])[..|f|] == f;
      assert (s + [|ps|])[|f|] == a;
      assert ps'[a..|ps|] == ps[a..];
    }

    lemma StepKeepsCuts(ps: seq<string>, st: Packing, p: string, s: seq<nat>)
      requires BufferInv(ps, st) && CutInv(ps, st, s)
      ensures CutInv(ps + [p], Step(st, p),
        if |st.buffer| + |p| > maxChars && Strip(st.buffer) != [] then s + [|ps|] else s)
    {
      if |st.buffer| + |p| <= maxChars {
        FitKeepsCuts(ps, st, p, s);
      } else if ps == [] {
        FirstKeepsCuts(p);
      } else {
        FlushKeepsCuts(ps, st, p, s);
      }
    }

    lemma {:induction false} PackKeepsCuts(ps: seq<string>)
      requires AllParagraphs(ps)
      ensures CutInv(ps, Pack(ps), Starts(ps))
      decreases |ps|
    {
      if ps != [] {
        var init := ps[..|ps| - 1];
        assert init + [ps[|ps| - 1]] == ps;
        PackKeepsCuts(init);
        PackKeepsInv(init);
        StepKeepsCuts(init, Pack(init), ps[|ps| - 1], Starts(init));
      } else {
        assert ps[0..] == [];
      }
    }

    /** Each emitted buffer is fit to be emitted. */
    lemma BufferEmitted(ps: seq<string>, k: int)
      requires AllParagraphs(ps)
      requires 0 <= k < |Buffers(ps)|
      ensures Emitted(ps, Carried(Buffers(ps)[..k]), Buffers(ps)[k])
    {
      BuffersInv(ps);
      assert WellEmitted(ps, Buffers(ps), k);
    }

    /** The positions `cuts` split the paragraphs `ps` into consecutive
        runs, one per buffer of `bs`: they start at 0, end at the number of
        paragraphs and strictly increase, and every buffer is made of its
        run as `Run` says. */
    ghost predicate Partition(ps: seq<string>, bs: seq<string>, cuts: seq<nat>) {
      && |cuts| == |bs| + 1 && cuts[0] == 0 && cuts[|bs|] == |ps|
      && (forall i, j :: 0 <= i < j < |cuts| ==> cuts[i] < cuts[j])
      && (forall k :: 0 <= k < |bs| ==> Run(ps, bs, cuts, k))
    }

    /** Buffer `k` of `bs` is the overlap carried into it followed by the
        whole paragraphs from `cuts[k]` up to `cuts[k + 1]`; it exceeds the
        limit only when that run is a single paragraph; and unless it is the
        last buffer, it was emitted only because the first paragraph of the
        next run would have taken it past the limit. */
    ghost predicate Run(ps: seq<string>, bs: seq<string>, cuts: seq<nat>, k: int) {
      && 0 <= k < |bs| && |cuts| == |bs| + 1 && cuts[k] <= cuts[k + 1] <= |ps|
      && bs[k] == Carried(bs[..k]) + Concat(ps[cuts[k]..cuts[k + 1]])
      && (|bs[k]| > maxChars ==> cuts[k + 1] == cuts[k] + 1)
      && (k + 1 < |bs| ==> cuts[k + 1] < |ps| && |bs[k]| + |ps[cuts[k + 1]]| > maxChars)
    }

    /** Paragraph boundaries and greedy filling: the emitted buffers are made
        of whole consecutive paragraphs, and a buffer is emitted only when
        the next paragraph does not fit. */
    lemma Boundaries(ps: seq<string>)
      requires AllParagraphs(ps)
      ensures exists cuts: seq<nat> :: Partition(ps, Buffers(ps), cuts)
    {
      var bs := Buffers(ps);
      if ps == [] {
        assert bs == [];
        assert Partition(ps, bs, [0]);
      } else {
        PackKeepsInv(ps);
        PackKeepsCuts(ps);
        var st, s := Pack(ps), Starts(ps);
        assert bs == st.flushed + [st.buffer];
        StateBoundaries(ps, st, s);
      }
    }

    /** The same for the paragraphs of a text. */
    lemma TextBoundaries(text: string)
      ensures exists cuts: seq<nat> :: Partition(SplitParagraphs(text), Buffers(SplitParagraphs(text)), cuts)
    {
      SplitParagraphsShape(text);
      Boundaries(SplitParagraphs(text));
    }

    /** The boundary facts for the loop state `st` after the paragraphs
        `ps`, with buffer starts `s`, once the buffer being filled is emitted. */
    lemma StateBoundaries(ps: seq<string>, st: Packing, s: seq<nat>)
      requires PackInv(ps, st) && CutInv(ps, st, s) && ps != []
      ensures Partition(ps, st.flushed + [st.buffer], s + [|ps|])
    {
      var bs, cuts := st.flushed + [st.buffer], s + [|ps|];
      IncreasingSnoc(s, |ps|);
      forall k | 0 <= k < |bs| ensures Run(ps, bs, cuts, k) {
        RunOf(ps, st, s, k);
      }
    }

    /** The `k`-th buffer emitted from the loop state `st` is made of the
        paragraphs from `s[k]` on to the next start. */
    lemma RunOf(ps: seq<string>, st: Packing, s: seq<nat>, k: int)
      requires PackInv(ps, st) && CutInv(ps, st, s) && ps != []
      requires 0 <= k <= |st.flushed|
      ensures Run(ps, st.flushed + [st.buffer], s + [|ps|], k)
    {
      var f, b := st.flushed, st.buffer;
      var bs, cuts := f + [b], s + [|ps|];
      if k < |f| {
        assert bs[..k] == f[..k] && bs[k] == f[k];
        assert cuts[k] == s[k] && cuts[k + 1] == s[k + 1];
        FlushedWhole(ps, st, s, k);
      } else {
        assert bs[..k] == f && bs[k] == b;
        assert cuts[k] == s[k] && cuts[k + 1] == |ps|;
        LastWhole(ps, st, s);
      }
    }

    lemma FlushedWhole(ps: seq<string>, st: Packing, s: seq<nat>, k: int)
      requires AllWellEmitted(ps, st.flushed) && CutInv(ps, st, s) && 0 <= k < |st.flushed|
      ensures s[k] < s[k + 1] < |ps|
      ensures st.flushed[k] == Carried(st.flushed[..k]) + Concat(ps[s[k]..s[k + 1]])
      ensures |st.flushed[k]| > maxChars ==> s[k + 1] == s[k] + 1
      ensures |st.flushed[k]| + |ps[s[k + 1]]| > maxChars
    {
      assert CutAt(ps, st.flushed, s, k);
      assert WellEmitted(ps, st.flushed, k);
      PrefixSplit(Carried(st.flushed[..k]), st.flushed[k]);
    }

    lemma LastWhole(ps: seq<string>, st: Packing, s: seq<nat>)
      requires BufferInv(ps, st) && CutInv(ps, st, s) && ps != []
      ensures s[|st.flushed|] < |ps|
      ensures st.buffer == Carried(st.flushed) + Concat(ps[s[|st.flushed|]..|ps|])
      ensures |st.buffer| > maxChars ==> s[|st.flushed|] + 1 == |ps|
    {
      var c, b, a := Carried(st.flushed), st.buffer, s[|st.flushed|];
      assert |c| <= |b| && b[..|c|] == c by {
        assert Continues(FreshText(st.flushed), c, b, Concat(ps));
      }
      assert b[|c|..] == Concat(ps[a..|ps|]) by {
        assert ps[a..|ps|] == ps[a..];
      }
      PrefixSplit(c, b);
    }

    /** Overlap continuity: each emitted buffer after the first begins with
        the overlap taken from the raw buffer before it. */
    lemma OverlapCarried(ps: seq<string>, k: int)
      requires AllParagraphs(ps)
      requires 0 < k < |Buffers(ps)|
      ensures var bs := Buffers(ps); var o := Overlap(bs[k - 1]);
        |o| <= |bs[k]| && bs[k][..|o|] == o
    {
      var bs := Buffers(ps);
      BufferEmitted(ps, k);
      CarriedLast(bs, k);
    }

    /** No paragraph of a text is dropped, duplicated or reordered: removing
        from each emitted buffer the overlap carried into it and
        concatenating what is left gives exactly the concatenation of all
        paragraphs of the text. */
    lemma NothingLost(text: string)
      ensures FreshText(Buffers(SplitParagraphs(text))) == Concat(SplitParagraphs(text))
    {
      SplitParagraphsShape(text);
      BuffersInv(SplitParagraphs(text));
    }

    /** Size bound: an emitted buffer longer than the limit is exactly the
        overlap carried into it followed by a single paragraph. */
    lemma OversizedIsOneParagraph(ps: seq<string>, k: int)
      requires AllParagraphs(ps)
      requires 0 <= k < |Buffers(ps)| && |Buffers(ps)[k]| > maxChars
      ensures exists j :: 0 <= j < |ps| && Buffers(ps)[k] == Carried(Buffers(ps)[..k]) + ps[j]
    {
      var bs := Buffers(ps);
      BufferEmitted(ps, k);
      var c := Carried(bs[..k]);
      var j :| 0 <= j < |ps| && ps[j] == bs[k][|c|..];
      assert bs[k] == c + ps[j] by {
        assert bs[k] == bs[k][..|c|] + bs[k][|c|..];
      }
    }

    /** The outcome of chunking: nothing for the empty text, no chunk for a
        non-empty blank text, and otherwise at least one chunk, none of them
        with empty text. */
    lemma ChunkedOutcome(text: string)
      ensures Chunked(text).None? <==> text == []
      ensures Chunked(text) == Some([]) <==> text != [] && IsBlank(text)
      ensures Chunked(text).Some? ==>
        forall k :: 0 <= k < |Chunked(text).value| ==> Chunked(text).value[k].text != []
    {
      if text != [] {
        var ps := SplitParagraphs(text);
        NoParagraphs(text);
        SplitParagraphsShape(text);
        BuffersInv(ps);
        var bs := Buffers(ps);
        forall k | 0 <= k < |bs| ensures MakeChunk(k, bs[k]).text != [] {
          assert WellEmitted(ps, bs, k);
        }
      }
    }

    /** A single non-blank line, however long, yields exactly one chunk holding
        the whole stripped line, whose count also covers the `"\n\n"` the
        splitter appended. */
    lemma LoneParagraph(text: string)
      requires '\n' !in text && !IsBlank(text)
      ensures Chunked(text) == Some([Chunk(0, Strip(text), |Strip(text)| + 2)])
    {
      var p := Strip(text) + "\n\n";
      LoneBuffer(text);
      NumberedOne(p);
      StripParagraph(text);
    }

    lemma LoneBuffer(text: string)
      requires '\n' !in text && !IsBlank(text)
      ensures Buffers(SplitParagraphs(text)) == [Strip(text) + "\n\n"]
    {
      LineParagraphs(text);
      PieceParagraph(text);
      OneBuffer(Strip(text) + "\n\n");
    }

    /** A single paragraph, whether it fits or not, is the only buffer. */
    lemma OneBuffer(p: string)
      requires IsParagraph(p)
      ensures Buffers([p]) == [p]
    {
      assert [p][..0] == [];
      assert Pack([p]) == Step(Packing([], []), p);
      assert Overlap([]) + p == p;
      ParagraphNotBlank(p);
    }
  }
}
