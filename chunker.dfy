/** `Translator._chunk_texts`: packs texts into chunks whose UTF-8 size stays within the
    chunk size, splitting a text that is too big on '.' and rejecting it when a piece is
    still too big. */
module Chunker {
  import opened Wrappers
  import Utf8
  import opened Strings

  /** `(text_id, line_id, original_text)`. */
  datatype Meta = Meta(textId: nat, lineId: nat, original: string)

  /** One chunk, `(meta, chunk)`: the metadata list and the string list sent to the service. */
  datatype Chunk = Chunk(metas: seq<Meta>, lines: seq<string>)

  /** A string with its metadata: a fragment to translate, or (after translation) the
      pair `(meta, translation)` that `zip(meta, chunk_trans)` makes. */
  datatype Fragment = Fragment(meta: Meta, text: string)

  /** The loop's state: `chunks`, `last_chunk_size` and `errors`; the last chunk of
      `chunks` is the one `last_meta`/`last_chunk` alias. */
  datatype State = State(chunks: seq<Chunk>, lastSize: int, errors: seq<Error>)

  const TooLong: string := "text too long"

  /** Python's `zip(ms, ts)`: pairs up to the shorter of the two. */
  function Zip(ms: seq<Meta>, ts: seq<string>): (r: seq<Fragment>)
    ensures |r| == if |ms| < |ts| then |ms| else |ts|
    ensures forall k :: 0 <= k < |r| ==> r[k] == Fragment(ms[k], ts[k])
  {
    if ms == [] || ts == [] then [] else [Fragment(ms[0], ts[0])] + Zip(ms[1..], ts[1..])
  }

  /** All `(meta, string)` pairs of a list of chunks, in order. */
  function Flatten(chunks: seq<Chunk>): seq<Fragment> {
    if chunks == [] then []
    else Flatten(chunks[..|chunks| - 1]) + Zip(chunks[|chunks| - 1].metas, chunks[|chunks| - 1].lines)
  }

  /** `text.split('.')`. */
  function Pieces(text: string): seq<string> {
    Split(text, '.')
  }

  /** The split path rejects a text when one of its pieces, unstripped, is over the limit. */
  predicate HasLongPiece(text: string, chunkSize: int) {
    exists k :: 0 <= k < |Pieces(text)| && Utf8.Size(Pieces(text)[k]) > chunkSize
  }

  /** A text the chunker reports as `InvalidText`. */
  predicate IsRejected(text: string, chunkSize: int) {
    Utf8.Size(text) >= chunkSize && HasLongPiece(text, chunkSize)
  }

  const Initial: State := State([Chunk([], [])], 0, [])

  /** Put one string into the current chunk, or open a new chunk when it does not fit. */
  function AddFragment(st: State, chunkSize: int, m: Meta, line: string, size: int): (r: State)
    requires st.chunks != []
    ensures |r.chunks| >= |st.chunks| && r.errors == st.errors
  {
    if st.lastSize + size > chunkSize then State(Open(st.chunks, m, line), size, st.errors)
    else State(Extend(st.chunks, m, line), st.lastSize + size, st.errors)
  }

  /** The inner loop over `enumerate(lines)` up to (not including) piece `k`. */
  function AddPieces(st: State, chunkSize: int, textId: nat, text: string, pieces: seq<string>, k: nat): (r: State)
    requires st.chunks != [] && k <= |pieces|
    ensures r.chunks != [] && r.errors == st.errors
  {
    if k == 0 then st
    else
      var prev := AddPieces(st, chunkSize, textId, text, pieces, k - 1);
      var line := Strip(pieces[k - 1]);
      if line == [] then prev
      else AddFragment(prev, chunkSize, Meta(textId, k - 1, text), line, Utf8.Size(line))
  }

  /** One iteration of the outer loop, for `texts[textId]`: a rejected text adds its
      error and leaves the chunks alone, any other text adds no error. */
  function AddText(st: State, chunkSize: int, textId: nat, text: string): (r: State)
    requires st.chunks != []
    ensures r.chunks != []
    ensures r.errors == st.errors + TextErrors(text, chunkSize)
    ensures IsRejected(text, chunkSize) ==> r.chunks == st.chunks && r.lastSize == st.lastSize
  {
    var size := Utf8.Size(text);
    if size < chunkSize then
      AddFragment(st, chunkSize, Meta(textId, 0, text), Strip(text), size)
    else if HasLongPiece(text, chunkSize) then
      State(st.chunks, st.lastSize, st.errors + [InvalidText(TooLong, text)])
    else
      AddPieces(st, chunkSize, textId, text, Pieces(text), |Pieces(text)|)
  }

  /** The state after the outer loop has seen all of `texts`. */
  function ChunkFold(texts: seq<string>, chunkSize: int): (r: State)
    ensures r.chunks != []
  {
    if texts == [] then Initial
    else AddText(ChunkFold(texts[..|texts| - 1], chunkSize), chunkSize, |texts| - 1, texts[|texts| - 1])
  }

  // ---------------------------------------------------------------------------
  // Reference definition of what the chunker emits, without the packing.

  /** The fragments a split text contributes from pieces `0..k`: every non-empty stripped piece. */
  function PieceFragments(textId: nat, text: string, pieces: seq<string>, k: nat): seq<Fragment>
    requires k <= |pieces|
  {
    if k == 0 then []
    else
      var line := Strip(pieces[k - 1]);
      PieceFragments(textId, text, pieces, k - 1)
        + if line == [] then [] else [Fragment(Meta(textId, k - 1, text), line)]
  }

  /** The fragments one text contributes. */
  function TextFragments(textId: nat, text: string, chunkSize: int): seq<Fragment> {
    if Utf8.Size(text) < chunkSize then [Fragment(Meta(textId, 0, text), Strip(text))]
    else if HasLongPiece(text, chunkSize) then []
    else PieceFragments(textId, text, Pieces(text), |Pieces(text)|)
  }

  /** The errors one text contributes. */
  function TextErrors(text: string, chunkSize: int): seq<Error> {
    if IsRejected(text, chunkSize) then [InvalidText(TooLong, text)] else []
  }

  /** Every fragment of `texts`, text by text, `text_id` being the position in `texts`. */
  function AllFragments(texts: seq<string>, chunkSize: int): seq<Fragment> {
    if texts == [] then []
    else AllFragments(texts[..|texts| - 1], chunkSize) + TextFragments(|texts| - 1, texts[|texts| - 1], chunkSize)
  }

  /** One `InvalidText` per rejected text, in input order. */
  function RejectedErrors(texts: seq<string>, chunkSize: int): seq<Error> {
    if texts == [] then []
    else RejectedErrors(texts[..|texts| - 1], chunkSize) + TextErrors(texts[|texts| - 1], chunkSize)
  }

  // ---------------------------------------------------------------------------
  // The packing invariant.

  ghost predicate Parallel(chunks: seq<Chunk>) {
    forall i :: 0 <= i < |chunks| ==> |chunks[i].metas| == |chunks[i].lines|
  }

  ghost predicate NonEmptyAfterFirst(chunks: seq<Chunk>) {
    forall i :: 0 < i < |chunks| ==> chunks[i].lines != []
  }

  ghost predicate Bounded(chunks: seq<Chunk>, chunkSize: int) {
    forall i :: 0 <= i < |chunks| && chunks[i].lines != [] ==> Utf8.TotalSize(chunks[i].lines) <= chunkSize
  }

  /** The open chunk's two lists are parallel. */
  ghost predicate LastParallel(st: State) {
    st.chunks != [] && |st.chunks[|st.chunks| - 1].metas| == |st.chunks[|st.chunks| - 1].lines|
  }

  /** `lastSize` accounts for the open (last) chunk. */
  ghost predicate OpenChunk(st: State, chunkSize: int)
    requires st.chunks != []
  {
    var last := st.chunks[|st.chunks| - 1];
    && 0 <= st.lastSize
    && Utf8.TotalSize(last.lines) <= st.lastSize
    && (last.lines == [] ==> st.lastSize == 0)
    && (last.lines != [] ==> st.lastSize <= chunkSize)
  }

  /** Every chunk keeps its two lists parallel, only the initial chunk may be empty, no
      non-empty chunk is over the limit, and `lastSize` bounds the open chunk. */
  ghost predicate Packed(st: State, chunkSize: int) {
    && st.chunks != []
    && Parallel(st.chunks)
    && NonEmptyAfterFirst(st.chunks)
    && Bounded(st.chunks, chunkSize)
    && OpenChunk(st, chunkSize)
  }

  lemma Packed0(chunkSize: int)
    ensures Packed(Initial, chunkSize) && Flatten(Initial.chunks) == [] && Initial.errors == []
  {
    assert Initial.chunks[..0] == [];
  }

  lemma ZipSnoc(ms: seq<Meta>, ts: seq<string>, m: Meta, t: string)
    requires |ms| == |ts|
    ensures Zip(ms + [m], ts + [t]) == Zip(ms, ts) + [Fragment(m, t)]
  {
  }

  lemma TotalSizeSnoc(ss: seq<string>, x: string)
    ensures Utf8.TotalSize(ss + [x]) == Utf8.TotalSize(ss) + Utf8.Size(x)
  {
    assert (ss + [x])[..|ss|] == ss;
  }

  lemma FlattenSnoc(chunks: seq<Chunk>, c: Chunk)
    ensures Flatten(chunks + [c]) == Flatten(chunks) + Zip(c.metas, c.lines)
  {
    assert (chunks + [c])[..|chunks|] == chunks;
  }

  /** The chunk list after `chunks.append(([m], [line]))`. */
  function Open(chunks: seq<Chunk>, m: Meta, line: string): seq<Chunk> {
    chunks + [Chunk([m], [line])]
  }

  /** The chunk list after appending `m` and `line` to the open chunk's two lists. */
  function Extend(chunks: seq<Chunk>, m: Meta, line: string): seq<Chunk>
    requires chunks != []
  {
    var last := chunks[|chunks| - 1];
    chunks[..|chunks| - 1] + [Chunk(last.metas + [m], last.lines + [line])]
  }

  lemma ParallelOpen(chunks: seq<Chunk>, m: Meta, line: string)
    requires Parallel(chunks)
    ensures Parallel(Open(chunks, m, line))
  {
    var r := Open(chunks, m, line);
    forall i | 0 <= i < |r| ensures |r[i].metas| == |r[i].lines| {
      if i < |chunks| { assert r[i] == chunks[i]; }
    }
  }

  lemma NonEmptyOpen(chunks: seq<Chunk>, m: Meta, line: string)
    requires NonEmptyAfterFirst(chunks)
    ensures NonEmptyAfterFirst(Open(chunks, m, line))
  {
    var r := Open(chunks, m, line);
    forall i | 0 < i < |r| ensures r[i].lines != [] {
      if i < |chunks| { assert r[i] == chunks[i]; }
    }
  }

  lemma BoundedOpen(chunks: seq<Chunk>, chunkSize: int, m: Meta, line: string)
    requires Bounded(chunks, chunkSize) && Utf8.Size(line) <= chunkSize
    ensures Bounded(Open(chunks, m, line), chunkSize)
  {
    var r := Open(chunks, m, line);
    TotalSizeSnoc([], line);
    assert [] + [line] == [line];
    forall i | 0 <= i < |r| && r[i].lines != [] ensures Utf8.TotalSize(r[i].lines) <= chunkSize {
      if i < |chunks| { assert r[i] == chunks[i]; }
    }
  }

  lemma ParallelExtend(chunks: seq<Chunk>, m: Meta, line: string)
    requires chunks != [] && Parallel(chunks)
    ensures Parallel(Extend(chunks, m, line))
  {
    var r := Extend(chunks, m, line);
    forall i | 0 <= i < |r| ensures |r[i].metas| == |r[i].lines| {
      if i < |chunks| - 1 { assert r[i] == chunks[i]; }
    }
  }

  lemma NonEmptyExtend(chunks: seq<Chunk>, m: Meta, line: string)
    requires chunks != [] && NonEmptyAfterFirst(chunks)
    ensures NonEmptyAfterFirst(Extend(chunks, m, line))
  {
    var r := Extend(chunks, m, line);
    forall i | 0 < i < |r| ensures r[i].lines != [] {
      if i < |chunks| - 1 { assert r[i] == chunks[i]; }
    }
  }

  lemma BoundedExtend(chunks: seq<Chunk>, chunkSize: int, m: Meta, line: string)
    requires chunks != [] && Bounded(chunks, chunkSize)
    requires Utf8.TotalSize(chunks[|chunks| - 1].lines) + Utf8.Size(line) <= chunkSize
    ensures Bounded(Extend(chunks, m, line), chunkSize)
  {
    var r := Extend(chunks, m, line);
    TotalSizeSnoc(chunks[|chunks| - 1].lines, line);
    forall i | 0 <= i < |r| && r[i].lines != [] ensures Utf8.TotalSize(r[i].lines) <= chunkSize {
      if i < |chunks| - 1 { assert r[i] == chunks[i]; }
    }
  }

  lemma AddFragmentNew(st: State, chunkSize: int, m: Meta, line: string, size: int)
    requires Packed(st, chunkSize)
    requires Utf8.Size(line) <= size <= chunkSize
    requires st.lastSize + size > chunkSize
    ensures Packed(AddFragment(st, chunkSize, m, line, size), chunkSize)
  {
    assert AddFragment(st, chunkSize, m, line, size) == State(Open(st.chunks, m, line), size, st.errors);
    ParallelOpen(st.chunks, m, line);
    NonEmptyOpen(st.chunks, m, line);
    BoundedOpen(st.chunks, chunkSize, m, line);
    TotalSizeSnoc([], line);
    assert [] + [line] == [line];
  }

  lemma AddFragmentJoin(st: State, chunkSize: int, m: Meta, line: string, size: int)
    requires Packed(st, chunkSize)
    requires Utf8.Size(line) <= size <= chunkSize
    requires st.lastSize + size <= chunkSize
    ensures Packed(AddFragment(st, chunkSize, m, line, size), chunkSize)
  {
    assert AddFragment(st, chunkSize, m, line, size) == State(Extend(st.chunks, m, line), st.lastSize + size, st.errors);
    ParallelExtend(st.chunks, m, line);
    NonEmptyExtend(st.chunks, m, line);
    BoundedExtend(st.chunks, chunkSize, m, line);
    TotalSizeSnoc(st.chunks[|st.chunks| - 1].lines, line);
  }

  lemma SplitLast<T>(s: seq<T>)
    requires s != []
    ensures s == s[..|s| - 1] + [s[|s| - 1]]
  {
  }

  lemma FlattenJoin(front: seq<Chunk>, last: Chunk, m: Meta, line: string)
    requires |last.metas| == |last.lines|
    ensures Flatten(front + [Chunk(last.metas + [m], last.lines + [line])]) == Flatten(front + [last]) + [Fragment(m, line)]
  {
    FlattenSnoc(front, last);
    FlattenSnoc(front, Chunk(last.metas + [m], last.lines + [line]));
    ZipSnoc(last.metas, last.lines, m, line);
  }

  lemma FlattenNew(chunks: seq<Chunk>, m: Meta, line: string)
    ensures Flatten(chunks + [Chunk([m], [line])]) == Flatten(chunks) + [Fragment(m, line)]
  {
    FlattenSnoc(chunks, Chunk([m], [line]));
    assert Zip([m], [line]) == [Fragment(m, line)];
  }

  lemma AddFragmentPacked(st: State, chunkSize: int, m: Meta, line: string, size: int)
    requires Packed(st, chunkSize)
    requires Utf8.Size(line) <= size <= chunkSize
    ensures Packed(AddFragment(st, chunkSize, m, line, size), chunkSize)
  {
    if st.lastSize + size > chunkSize {
      AddFragmentNew(st, chunkSize, m, line, size);
    } else {
      AddFragmentJoin(st, chunkSize, m, line, size);
    }
  }

  /** Adding a string appends exactly its fragment to the flattened chunks. */
  lemma AddFragmentFlatten(st: State, chunkSize: int, m: Meta, line: string, size: int)
    requires LastParallel(st)
    ensures LastParallel(AddFragment(st, chunkSize, m, line, size))
    ensures Flatten(AddFragment(st, chunkSize, m, line, size).chunks) == Flatten(st.chunks) + [Fragment(m, line)]
  {
    if st.lastSize + size > chunkSize {
      FlattenNew(st.chunks, m, line);
    } else {
      var n := |st.chunks|;
      SplitLast(st.chunks);
      FlattenJoin(st.chunks[..n - 1], st.chunks[n - 1], m, line);
    }
  }

  lemma AddPiecesPacked(st: State, chunkSize: int, textId: nat, text: string, pieces: seq<string>, k: nat)
    requires Packed(st, chunkSize) && k <= |pieces|
    requires forall j :: 0 <= j < |pieces| ==> Utf8.Size(pieces[j]) <= chunkSize
    ensures Packed(AddPieces(st, chunkSize, textId, text, pieces, k), chunkSize)
  {
    if k > 0 {
      AddPiecesPacked(st, chunkSize, textId, text, pieces, k - 1);
      var prev := AddPieces(st, chunkSize, textId, text, pieces, k - 1);
      var line := Strip(pieces[k - 1]);
      StripSpec(pieces[k - 1]);
      if line != [] {
        AddFragmentPacked(prev, chunkSize, Meta(textId, k - 1, text), line, Utf8.Size(line));
      }
    }
  }

  lemma AppendAssoc<T>(a: seq<T>, b: seq<T>, c: seq<T>)
    ensures a + b + c == a + (b + c)
  {
  }

  lemma AddPiecesFlatten(st: State, chunkSize: int, textId: nat, text: string, pieces: seq<string>, k: nat)
    requires LastParallel(st) && k <= |pieces|
    ensures LastParallel(AddPieces(st, chunkSize, textId, text, pieces, k))
    ensures Flatten(AddPieces(st, chunkSize, textId, text, pieces, k).chunks)
         == Flatten(st.chunks) + PieceFragments(textId, text, pieces, k)
  {
    if k == 0 {
      assert Flatten(st.chunks) + [] == Flatten(st.chunks);
    } else {
      var prev := AddPieces(st, chunkSize, textId, text, pieces, k - 1);
      var before := PieceFragments(textId, text, pieces, k - 1);
      AddPiecesFlatten(st, chunkSize, textId, text, pieces, k - 1);
      var line := Strip(pieces[k - 1]);
      if line == [] {
        assert PieceFragments(textId, text, pieces, k) == before + [];
        assert before + [] == before;
      } else {
        var m := Meta(textId, k - 1, text);
        assert AddPieces(st, chunkSize, textId, text, pieces, k) == AddFragment(prev, chunkSize, m, line, Utf8.Size(line));
        assert PieceFragments(textId, text, pieces, k) == before + [Fragment(m, line)];
        AddFragmentFlatten(prev, chunkSize, m, line, Utf8.Size(line));
        AppendAssoc(Flatten(st.chunks), before, [Fragment(m, line)]);
      }
    }
  }

  lemma AddTextPacked(st: State, chunkSize: int, textId: nat, text: string)
    requires Packed(st, chunkSize)
    ensures Packed(AddText(st, chunkSize, textId, text), chunkSize)
  {
    var size := Utf8.Size(text);
    if size < chunkSize {
      StripSpec(text);
      AddFragmentPacked(st, chunkSize, Meta(textId, 0, text), Strip(text), size);
    } else if !HasLongPiece(text, chunkSize) {
      AddPiecesPacked(st, chunkSize, textId, text, Pieces(text), |Pieces(text)|);
    }
  }

  lemma PackedLastParallel(st: State, chunkSize: int)
    requires Packed(st, chunkSize)
    ensures LastParallel(st)
  {
  }

  lemma AddTextFlatten(st: State, chunkSize: int, textId: nat, text: string)
    requires LastParallel(st)
    ensures LastParallel(AddText(st, chunkSize, textId, text))
    ensures Flatten(AddText(st, chunkSize, textId, text).chunks) == Flatten(st.chunks) + TextFragments(textId, text, chunkSize)
    ensures AddText(st, chunkSize, textId, text).errors == st.errors + TextErrors(text, chunkSize)
  {
    var size := Utf8.Size(text);
    if size < chunkSize {
      AddFragmentFlatten(st, chunkSize, Meta(textId, 0, text), Strip(text), size);
    } else if HasLongPiece(text, chunkSize) {
      assert Flatten(st.chunks) + [] == Flatten(st.chunks);
    } else {
      AddPiecesFlatten(st, chunkSize, textId, text, Pieces(text), |Pieces(text)|);
    }
  }

  /** The fold over all texts keeps the packing invariant and emits exactly the reference
      fragments and errors. */
  lemma {:induction false} ChunkFoldSpec(texts: seq<string>, chunkSize: int)
    ensures Packed(ChunkFold(texts, chunkSize), chunkSize)
    ensures Flatten(ChunkFold(texts, chunkSize).chunks) == AllFragments(texts, chunkSize)
    ensures ChunkFold(texts, chunkSize).errors == RejectedErrors(texts, chunkSize)
  {
    if texts == [] {
      Packed0(chunkSize);
    } else {
      var n := |texts| - 1;
      ChunkFoldSpec(texts[..n], chunkSize);
      AddTextPacked(ChunkFold(texts[..n], chunkSize), chunkSize, n, texts[n]);
      PackedLastParallel(ChunkFold(texts[..n], chunkSize), chunkSize);
      AddTextFlatten(ChunkFold(texts[..n], chunkSize), chunkSize, n, texts[n]);
    }
  }

  // ---------------------------------------------------------------------------
  // The chunking loop.

  /** `_chunk_texts(texts)`, the set's iteration order being the order of `texts`. */
  method ChunkTexts(texts: seq<string>, chunkSize: int) returns (chunks: seq<Chunk>, errors: seq<Error>)
    ensures chunks == ChunkFold(texts, chunkSize).chunks && errors == ChunkFold(texts, chunkSize).errors
    ensures chunks != [] && Parallel(chunks) && NonEmptyAfterFirst(chunks) && Bounded(chunks, chunkSize)
    ensures Flatten(chunks) == AllFragments(texts, chunkSize)
    ensures errors == RejectedErrors(texts, chunkSize)
  {
    var lastSize := 0;
    chunks, errors := [Chunk([], [])], [];
    for textId := 0 to |texts|
      invariant State(chunks, lastSize, errors) == ChunkFold(texts[..textId], chunkSize)
    {
      ChunkFoldStep(texts, chunkSize, textId);
      var text := texts[textId];
      var size := Utf8.Size(text);
      ghost var before := State(chunks, lastSize, errors);
      if size < chunkSize {
        var m := Meta(textId, 0, text);
        if lastSize + size > chunkSize {
          chunks, lastSize := chunks + [Chunk([m], [Strip(text)])], size;
        } else {
          var last := chunks[|chunks| - 1];
          chunks := chunks[..|chunks| - 1] + [Chunk(last.metas + [m], last.lines + [Strip(text)])];
          lastSize := lastSize + size;
        }
        assert State(chunks, lastSize, errors) == AddFragment(before, chunkSize, m, Strip(text), size);
      } else {
        var lines := Split(text, '.');
        if exists k :: 0 <= k < |lines| && Utf8.Size(lines[k]) > chunkSize {
          errors := errors + [InvalidText(TooLong, text)];
        } else {
          chunks, lastSize := PackPieces(chunks, lastSize, errors, chunkSize, textId, text, lines);
        }
      }
    }
    assert texts[..|texts|] == texts;
    ChunkFoldSpec(texts, chunkSize);
  }

  /** The inner loop of `_chunk_texts` over `enumerate(lines)` of a split text. */
  method PackPieces(chunks0: seq<Chunk>, lastSize0: int, ghost errors: seq<Error>, chunkSize: int,
                    textId: nat, text: string, lines: seq<string>) returns (chunks: seq<Chunk>, lastSize: int)
    requires chunks0 != []
    ensures State(chunks, lastSize, errors)
         == AddPieces(State(chunks0, lastSize0, errors), chunkSize, textId, text, lines, |lines|)
  {
    chunks, lastSize := chunks0, lastSize0;
    for lineId := 0 to |lines|
      invariant State(chunks, lastSize, errors)
             == AddPieces(State(chunks0, lastSize0, errors), chunkSize, textId, text, lines, lineId)
    {
      ghost var prev := State(chunks, lastSize, errors);
      var line := Strip(lines[lineId]);
      if line != [] {
        var lineSize := Utf8.Size(line);
        var m := Meta(textId, lineId, text);
        if lastSize + lineSize > chunkSize {
          chunks, lastSize := chunks + [Chunk([m], [line])], lineSize;
        } else {
          var last := chunks[|chunks| - 1];
          chunks := chunks[..|chunks| - 1] + [Chunk(last.metas + [m], last.lines + [line])];
          lastSize := lastSize + lineSize;
        }
        assert State(chunks, lastSize, errors) == AddFragment(prev, chunkSize, m, line, lineSize);
      }
    }
  }

  lemma ChunkFoldStep(texts: seq<string>, chunkSize: int, n: nat)
    requires n < |texts|
    ensures ChunkFold(texts[..n + 1], chunkSize) == AddText(ChunkFold(texts[..n], chunkSize), chunkSize, n, texts[n])
  {
    assert texts[..n + 1][..n] == texts[..n];
  }

  // ---------------------------------------------------------------------------
  // What the reference fragments look like.

  /** Fragment `a` comes strictly before fragment `b` in `(text_id, line_id)` order. */
  predicate Before(a: Meta, b: Meta) {
    a.textId < b.textId || (a.textId == b.textId && a.lineId < b.lineId)
  }

  ghost predicate Ascending(fs: seq<Fragment>) {
    forall i, j :: 0 <= i < j < |fs| ==> Before(fs[i].meta, fs[j].meta)
  }

  /** The fragments of `fs` that belong to text `textId`, in order. */
  function FragmentsOf(fs: seq<Fragment>, textId: nat): seq<Fragment> {
    if fs == [] then []
    else FragmentsOf(fs[..|fs| - 1], textId) + if fs[|fs| - 1].meta.textId == textId then [fs[|fs| - 1]] else []
  }

  lemma {:induction false} FragmentsOfConcat(a: seq<Fragment>, b: seq<Fragment>, textId: nat)
    ensures FragmentsOf(a + b, textId) == FragmentsOf(a, textId) + FragmentsOf(b, textId)
  {
    if b == [] {
      assert a + b == a;
    } else {
      var n := |b| - 1;
      assert (a + b)[..|a + b| - 1] == a + b[..n];
      FragmentsOfConcat(a, b[..n], textId);
    }
  }

  lemma {:induction false} FragmentsOfUniform(fs: seq<Fragment>, textId: nat, id: nat)
    requires forall i :: 0 <= i < |fs| ==> fs[i].meta.textId == textId
    ensures FragmentsOf(fs, id) == if id == textId then fs else []
  {
    if fs != [] {
      FragmentsOfUniform(fs[..|fs| - 1], textId, id);
      SplitLast(fs);
    }
  }

  /** A fragment a split text may contribute from pieces `0..k`. */
  ghost predicate PieceFragment(textId: nat, text: string, pieces: seq<string>, k: nat, f: Fragment) {
    && f.meta == Meta(textId, f.meta.lineId, text)
    && f.meta.lineId < k && f.meta.lineId < |pieces|
    && f.text == Strip(pieces[f.meta.lineId]) && f.text != []
  }

  lemma {:induction false} PieceFragmentsWellFormed(textId: nat, text: string, pieces: seq<string>, k: nat)
    requires k <= |pieces|
    ensures forall i :: 0 <= i < |PieceFragments(textId, text, pieces, k)| ==>
              PieceFragment(textId, text, pieces, k, PieceFragments(textId, text, pieces, k)[i])
  {
    if k > 0 {
      var prev := PieceFragments(textId, text, pieces, k - 1);
      var all := PieceFragments(textId, text, pieces, k);
      PieceFragmentsWellFormed(textId, text, pieces, k - 1);
      forall i | 0 <= i < |all| ensures PieceFragment(textId, text, pieces, k, all[i]) {
        if i < |prev| {
          assert all[i] == prev[i];
          assert PieceFragment(textId, text, pieces, k - 1, prev[i]);
        }
      }
    }
  }

  lemma {:induction false} PieceFragmentsOrdered(textId: nat, text: string, pieces: seq<string>, k: nat)
    requires k <= |pieces|
    ensures forall i, j :: 0 <= i < j < |PieceFragments(textId, text, pieces, k)| ==>
              PieceFragments(textId, text, pieces, k)[i].meta.lineId < PieceFragments(textId, text, pieces, k)[j].meta.lineId
  {
    if k > 0 {
      var prev := PieceFragments(textId, text, pieces, k - 1);
      var all := PieceFragments(textId, text, pieces, k);
      PieceFragmentsOrdered(textId, text, pieces, k - 1);
      PieceFragmentsWellFormed(textId, text, pieces, k - 1);
      forall i, j | 0 <= i < j < |all| ensures all[i].meta.lineId < all[j].meta.lineId {
        assert all[i] == prev[i];
        assert PieceFragment(textId, text, pieces, k - 1, prev[i]);
        if j < |prev| {
          assert all[j] == prev[j];
        }
      }
    }
  }

  lemma {:induction false} PieceFragmentsComplete(textId: nat, text: string, pieces: seq<string>, k: nat)
    requires k <= |pieces|
    ensures forall j :: 0 <= j < k && Strip(pieces[j]) != [] ==>
              Fragment(Meta(textId, j, text), Strip(pieces[j])) in PieceFragments(textId, text, pieces, k)
  {
    if k > 0 {
      var prev := PieceFragments(textId, text, pieces, k - 1);
      var all := PieceFragments(textId, text, pieces, k);
      PieceFragmentsComplete(textId, text, pieces, k - 1);
      forall j | 0 <= j < k && Strip(pieces[j]) != [] ensures Fragment(Meta(textId, j, text), Strip(pieces[j])) in all {
        if j < k - 1 {
          var f := Fragment(Meta(textId, j, text), Strip(pieces[j]));
          assert f in prev;
        } else {
          assert all[|all| - 1] == Fragment(Meta(textId, j, text), Strip(pieces[j]));
        }
      }
    }
  }

  /** Blank pieces contribute nothing. */
  lemma {:induction false} PieceFragmentsBlank(textId: nat, text: string, pieces: seq<string>, k: nat)
    requires k <= |pieces|
    requires forall j :: 0 <= j < k ==> Strip(pieces[j]) == []
    ensures PieceFragments(textId, text, pieces, k) == []
  {
    if k > 0 {
      PieceFragmentsBlank(textId, text, pieces, k - 1);
    }
  }

  /** Every fragment of a text carries that text's id and the whole text. */
  lemma TextFragmentsMeta(textId: nat, text: string, chunkSize: int)
    ensures forall i :: 0 <= i < |TextFragments(textId, text, chunkSize)| ==>
              TextFragments(textId, text, chunkSize)[i].meta.textId == textId &&
              TextFragments(textId, text, chunkSize)[i].meta.original == text
    ensures Ascending(TextFragments(textId, text, chunkSize))
  {
    var pieces := Pieces(text);
    var fs := TextFragments(textId, text, chunkSize);
    if Utf8.Size(text) >= chunkSize && !HasLongPiece(text, chunkSize) {
      PieceFragmentsWellFormed(textId, text, pieces, |pieces|);
      PieceFragmentsOrdered(textId, text, pieces, |pieces|);
      forall i, j | 0 <= i < j < |fs| ensures Before(fs[i].meta, fs[j].meta) {
        assert PieceFragment(textId, text, pieces, |pieces|, fs[i]);
        assert PieceFragment(textId, text, pieces, |pieces|, fs[j]);
      }
      forall i | 0 <= i < |fs| ensures fs[i].meta.textId == textId && fs[i].meta.original == text {
        assert PieceFragment(textId, text, pieces, |pieces|, fs[i]);
      }
    }
  }

  lemma AscendingConcat(a: seq<Fragment>, b: seq<Fragment>)
    requires Ascending(a) && Ascending(b)
    requires forall i, j :: 0 <= i < |a| && 0 <= j < |b| ==> Before(a[i].meta, b[j].meta)
    ensures Ascending(a + b)
  {
    forall i, j | 0 <= i < j < |a + b| ensures Before((a + b)[i].meta, (a + b)[j].meta) {
      if j < |a| {
        assert (a + b)[i] == a[i] && (a + b)[j] == a[j];
      } else if i >= |a| {
        assert (a + b)[i] == b[i - |a|] && (a + b)[j] == b[j - |a|];
      } else {
        assert (a + b)[i] == a[i] && (a + b)[j] == b[j - |a|];
      }
    }
  }

  /** Every fragment emitted for `texts` has `text_id` equal to the position of its text
      and carries that text as `original_text`. */
  lemma {:induction false} AllFragmentsIds(texts: seq<string>, chunkSize: int)
    ensures forall i :: 0 <= i < |AllFragments(texts, chunkSize)| ==>
              AllFragments(texts, chunkSize)[i].meta.textId < |texts| &&
              AllFragments(texts, chunkSize)[i].meta.original == texts[AllFragments(texts, chunkSize)[i].meta.textId]
  {
    if texts != [] {
      var n := |texts| - 1;
      var prefix := texts[..n];
      AllFragmentsIds(prefix, chunkSize);
      TextFragmentsMeta(n, texts[n], chunkSize);
      var a: seq<Fragment> := AllFragments(prefix, chunkSize);
      var b: seq<Fragment> := TextFragments(n, texts[n], chunkSize);
      forall i | 0 <= i < |a + b|
        ensures (a + b)[i].meta.textId < |texts| && (a + b)[i].meta.original == texts[(a + b)[i].meta.textId]
      {
        if i < |a| {
          assert (a + b)[i] == a[i];
          assert texts[a[i].meta.textId] == prefix[a[i].meta.textId];
        } else {
          assert (a + b)[i] == b[i - |a|];
        }
      }
    }
  }

  /** The fragments come in strictly ascending `(text_id, line_id)` order. */
  lemma {:induction false} AllFragmentsAscending(texts: seq<string>, chunkSize: int)
    ensures Ascending(AllFragments(texts, chunkSize))
  {
    if texts != [] {
      var n := |texts| - 1;
      var prefix := texts[..n];
      AllFragmentsAscending(prefix, chunkSize);
      AllFragmentsIds(prefix, chunkSize);
      TextFragmentsMeta(n, texts[n], chunkSize);
      var a: seq<Fragment> := AllFragments(prefix, chunkSize);
      var b: seq<Fragment> := TextFragments(n, texts[n], chunkSize);
      forall i, j | 0 <= i < |a| && 0 <= j < |b| ensures Before(a[i].meta, b[j].meta) {
        assert a[i].meta.textId < n;
      }
      AscendingConcat(a, b);
    }
  }

  /** The fragments of text `textId` among all fragments are exactly that text's own. */
  lemma {:induction false} AllFragmentsOfText(texts: seq<string>, chunkSize: int, textId: nat)
    ensures FragmentsOf(AllFragments(texts, chunkSize), textId)
         == if textId < |texts| then TextFragments(textId, texts[textId], chunkSize) else []
  {
    if texts != [] {
      var n := |texts| - 1;
      AllFragmentsOfText(texts[..n], chunkSize, textId);
      FragmentsOfConcat(AllFragments(texts[..n], chunkSize), TextFragments(n, texts[n], chunkSize), textId);
      TextFragmentsMeta(n, texts[n], chunkSize);
      FragmentsOfUniform(TextFragments(n, texts[n], chunkSize), n, textId);
      if textId < n {
        assert texts[..n][textId] == texts[textId];
      }
    }
  }

  /** A text below the limit contributes exactly one fragment: `(text_id, 0, text)` with the
      stripped text. */
  lemma SmallTextOneFragment(texts: seq<string>, chunkSize: int, textId: nat)
    requires textId < |texts| && Utf8.Size(texts[textId]) < chunkSize
    ensures FragmentsOf(AllFragments(texts, chunkSize), textId)
         == [Fragment(Meta(textId, 0, texts[textId]), Strip(texts[textId]))]
  {
    AllFragmentsOfText(texts, chunkSize, textId);
  }

  /** An accepted text at or above the limit contributes one fragment per non-empty stripped
      '.'-piece, in piece order, with `line_id` the piece's index and the whole text as
      `original_text`. */
  lemma SplitTextFragments(texts: seq<string>, chunkSize: int, textId: nat)
    requires textId < |texts| && Utf8.Size(texts[textId]) >= chunkSize
    requires !HasLongPiece(texts[textId], chunkSize)
    ensures var fs := FragmentsOf(AllFragments(texts, chunkSize), textId);
            var pieces := Pieces(texts[textId]);
            && (forall i :: 0 <= i < |fs| ==> PieceFragment(textId, texts[textId], pieces, |pieces|, fs[i]))
            && (forall i, j :: 0 <= i < j < |fs| ==> fs[i].meta.lineId < fs[j].meta.lineId)
            && (forall j :: 0 <= j < |pieces| && Strip(pieces[j]) != [] ==>
                  Fragment(Meta(textId, j, texts[textId]), Strip(pieces[j])) in fs)
  {
    AllFragmentsOfText(texts, chunkSize, textId);
    var pieces := Pieces(texts[textId]);
    PieceFragmentsWellFormed(textId, texts[textId], pieces, |pieces|);
    PieceFragmentsOrdered(textId, texts[textId], pieces, |pieces|);
    PieceFragmentsComplete(textId, texts[textId], pieces, |pieces|);
  }

  /** A rejected text contributes no fragment. */
  lemma RejectedTextNoFragment(texts: seq<string>, chunkSize: int, textId: nat)
    requires textId < |texts| && IsRejected(texts[textId], chunkSize)
    ensures FragmentsOf(AllFragments(texts, chunkSize), textId) == []
  {
    AllFragmentsOfText(texts, chunkSize, textId);
  }

  /** The errors are `InvalidText` for rejected texts of the input, and every rejected text
      has one. */
  lemma {:induction false} RejectedErrorsExact(texts: seq<string>, chunkSize: int)
    ensures forall e :: e in RejectedErrors(texts, chunkSize) ==>
              e.InvalidText? && e.msg == TooLong && e.text in texts && IsRejected(e.text, chunkSize)
    ensures forall t :: t in texts && IsRejected(t, chunkSize) ==> InvalidText(TooLong, t) in RejectedErrors(texts, chunkSize)
  {
    if texts != [] {
      var n := |texts| - 1;
      RejectedErrorsExact(texts[..n], chunkSize);
      assert texts == texts[..n] + [texts[n]];
    }
  }

  /** The positions below `n` that hold a rejected text. */
  ghost function RejectedPositions(texts: seq<string>, chunkSize: int, n: nat): set<nat>
    requires n <= |texts|
  {
    set i: nat | i < n && IsRejected(texts[i], chunkSize)
  }

  lemma RejectedPositionsStep(texts: seq<string>, chunkSize: int, n: nat)
    requires n < |texts|
    ensures RejectedPositions(texts, chunkSize, n + 1)
         == RejectedPositions(texts, chunkSize, n) + if IsRejected(texts[n], chunkSize) then {n} else {}
  {
  }

  lemma {:induction false} RejectedErrorsPrefixCount(texts: seq<string>, chunkSize: int, n: nat)
    requires n <= |texts|
    ensures |RejectedErrors(texts[..n], chunkSize)| == |RejectedPositions(texts, chunkSize, n)|
  {
    if n > 0 {
      RejectedErrorsPrefixCount(texts, chunkSize, n - 1);
      RejectedPositionsStep(texts, chunkSize, n - 1);
      assert texts[..n][..n - 1] == texts[..n - 1];
      assert n - 1 !in RejectedPositions(texts, chunkSize, n - 1);
    }
  }

  /** Exactly one error per rejected text: the number of errors is the number of positions
      in the input that hold a rejected text. */
  lemma RejectedErrorsCount(texts: seq<string>, chunkSize: int)
    ensures |RejectedErrors(texts, chunkSize)| == |set i: nat | i < |texts| && IsRejected(texts[i], chunkSize)|
  {
    RejectedErrorsPrefixCount(texts, chunkSize, |texts|);
    assert texts[..|texts|] == texts;
  }

  /** A text at or above the limit whose '.'-pieces all fit but are all blank yields
      neither a fragment nor an error: it is silently left untranslated. */
  lemma BlankPiecesVanish(texts: seq<string>, chunkSize: int, textId: nat)
    requires textId < |texts| && Utf8.Size(texts[textId]) >= chunkSize
    requires !HasLongPiece(texts[textId], chunkSize)
    requires forall j :: 0 <= j < |Pieces(texts[textId])| ==> Strip(Pieces(texts[textId])[j]) == []
    ensures FragmentsOf(AllFragments(texts, chunkSize), textId) == []
    ensures TextErrors(texts[textId], chunkSize) == []
  {
    AllFragmentsOfText(texts, chunkSize, textId);
    var t := texts[textId];
    PieceFragmentsBlank(textId, t, Pieces(t), |Pieces(t)|);
  }
}
