/**
 * The chunk splitter (`split_to_chunks`, `get_chunk_path`): the input file, given as its lines,
 * is cut into numbered chunk files under a temporary directory.
 */
module Chunks {
  import opened Wrappers
  import opened Arith
  import opened Text
  import opened Blocks

  /** A chunk file: its number, its path and the lines written to it. */
  datatype Chunk = Chunk(id: nat, path: string, lines: seq<string>)

  /** `os.path.join(dir, name)` for a `name` that does not start with `/`. */
  function JoinPath(dir: string, name: string): (p: string)
    requires name == [] || name[0] != '/'
    ensures |p| >= |name| && p[|p| - |name|..] == name
    ensures p[..|p| - |name|] == if dir == [] || dir[|dir| - 1] == '/' then dir else dir + "/"
  {
    if dir == [] || dir[|dir| - 1] == '/' then dir + name else dir + "/" + name
  }

  /** `get_chunk_path`: the file `chunk<fid>.log` in `tmpdir`. */
  function ChunkPath(tmpdir: string, fid: nat): string {
    JoinPath(tmpdir, "chunk" + Decimal(fid) + ".log")
  }

  /** Distinct chunk numbers name distinct files. */
  lemma ChunkPathInjective(tmpdir: string, a: nat, b: nat)
    requires ChunkPath(tmpdir, a) == ChunkPath(tmpdir, b)
    ensures a == b
  {
    var na, nb := "chunk" + Decimal(a) + ".log", "chunk" + Decimal(b) + ".log";
    var p := ChunkPath(tmpdir, a);
    var prefix := if tmpdir == [] || tmpdir[|tmpdir| - 1] == '/' then tmpdir else tmpdir + "/";
    assert |p| == |prefix| + |na| && |p| == |prefix| + |nb|;
    assert na == p[|prefix|..] == nb;
    assert Decimal(a) == na[5..|na| - 4] == nb[5..|nb| - 4] == Decimal(b);
    DecimalInjective(a, b);
  }

  /** `i % chunksize` with a zero `chunksize` raises `ZeroDivisionError` at the first line. */
  datatype SplitError = ZeroChunkSize

  /**
   * The loop of `split_to_chunks` from line index `i` on: `closed` holds the chunks already
   * closed, `open` the lines written so far to the chunk still open. After writing line `i`
   * the open chunk is closed and a new one opened whenever Python's `i % chunksize` is 0; that
   * test already fires for `i == 0`. At the end the open chunk is closed, possibly empty. A
   * zero `chunksize` fails at the first line the loop reaches, and only there.
   */
  function SplitFrom(lines: seq<string>, chunksize: int, i: nat,
                     closed: seq<seq<string>>, open: seq<string>): (r: Result<seq<seq<string>>, SplitError>)
    requires i <= |lines|
    ensures r.Failure? <==> chunksize == 0 && i < |lines|
    decreases |lines| - i
  {
    if i == |lines| then Success(closed + [open])
    else if chunksize == 0 then Failure(ZeroChunkSize)
    else
      var open' := open + [lines[i]];
      if PyMod(i, chunksize) == 0 then SplitFrom(lines, chunksize, i + 1, closed + [open'], [])
      else SplitFrom(lines, chunksize, i + 1, closed, open')
  }

  /** The contents of the chunk files, in chunk-number order, or the division error. */
  function SplitContents(lines: seq<string>, chunksize: int): (r: Result<seq<seq<string>>, SplitError>)
    ensures r.Failure? <==> chunksize == 0 && lines != []
  {
    SplitFrom(lines, chunksize, 0, [], [])
  }

  /**
   * Reference layout of the chunks: the first line alone, then complete blocks of `chunksize`
   * lines, then the remaining lines (possibly none). No lines at all give one empty chunk.
   */
  function Closed(lines: seq<string>, chunksize: nat): seq<seq<string>>
    requires chunksize >= 1
  {
    if lines == [] then [] else [lines[..1]] + Full(lines[1..], chunksize)
  }

  function Open(lines: seq<string>, chunksize: nat): seq<string>
    requires chunksize >= 1
  {
    if lines == [] then [] else Rest(lines[1..], chunksize)
  }

  function ChunkLayout(lines: seq<string>, chunksize: nat): seq<seq<string>>
    requires chunksize >= 1
  {
    Closed(lines, chunksize) + [Open(lines, chunksize)]
  }

  /** Writing one more line closes the open chunk exactly when its index is a multiple of `chunksize`. */
  lemma ClosedSnoc(lines: seq<string>, chunksize: nat, x: string)
    requires chunksize >= 1
    ensures |lines| % chunksize == 0 ==>
              Closed(lines + [x], chunksize) == Closed(lines, chunksize) + [Open(lines, chunksize) + [x]]
              && Open(lines + [x], chunksize) == []
    ensures |lines| % chunksize != 0 ==>
              Closed(lines + [x], chunksize) == Closed(lines, chunksize)
              && Open(lines + [x], chunksize) == Open(lines, chunksize) + [x]
  {
    if lines == [] {
      ClosedFirst(chunksize, x);
      var none: seq<string> := [];
      assert lines + [x] == [x] && none + [x] == [x];
    } else {
      var ys := lines + [x];
      var xs := lines[1..];
      assert ys[..1] == lines[..1] && ys[1..] == xs + [x];
      assert |lines| == |xs| + 1;
      Snoc(xs, chunksize, x);
      assert Closed(ys, chunksize) == [lines[..1]] + Full(xs + [x], chunksize);
      assert Open(ys, chunksize) == Rest(xs + [x], chunksize);
    }
  }

  /** The first line closes the first chunk on its own. */
  lemma ClosedFirst(chunksize: nat, x: string)
    requires chunksize >= 1
    ensures Closed([x], chunksize) == [[x]] && Open([x], chunksize) == []
  {
    var ys := [x];
    assert ys[..1] == [x] && ys[1..] == [];
    assert Full(ys[1..], chunksize) == [] && Rest(ys[1..], chunksize) == [];
  }

  /** The loop of `split_to_chunks` produces the reference layout. */
  lemma {:induction false} SplitFromLayout(lines: seq<string>, chunksize: int, i: nat)
    requires chunksize != 0 && i <= |lines|
    ensures var g := Abs(chunksize);
      SplitFrom(lines, chunksize, i, Closed(lines[..i], g), Open(lines[..i], g)) == Success(ChunkLayout(lines, g))
    decreases |lines| - i
  {
    var g := Abs(chunksize);
    if i == |lines| {
      assert lines[..i] == lines;
    } else {
      assert lines[..i + 1] == lines[..i] + [lines[i]];
      ClosedSnoc(lines[..i], g, lines[i]);
      PyModZero(i, chunksize);
      SplitFromLayout(lines, chunksize, i + 1);
    }
  }

  /**
   * The shape of the chunks, with `g` the size's absolute value: concatenated in order they
   * give back the input; an empty input gives one empty chunk; otherwise the first chunk is the
   * first line alone, every chunk strictly between the first and the last has `g` lines, the
   * last has `(n - 1) % g` lines and there are `2 + (n - 1) / g` chunks.
   */
  lemma SplitShape(lines: seq<string>, chunksize: int)
    requires chunksize != 0 || lines == []
    ensures Flatten(SplitContents(lines, chunksize).value) == lines
    ensures lines == [] ==> SplitContents(lines, chunksize).value == [[]]
    ensures lines != [] ==>
      var c, g := SplitContents(lines, chunksize).value, Abs(chunksize);
      && |c| == 2 + (|lines| - 1) / g
      && c[0] == [lines[0]]
      && (forall j :: 0 < j < |c| - 1 ==> |c[j]| == g)
      && |c[|c| - 1]| == (|lines| - 1) % g
  {
    SplitContentsLayout(lines, chunksize);
    if lines == [] {
      var c := SplitContents(lines, chunksize).value;
      assert Flatten(c) == [] + Flatten([]);
    } else {
      LayoutShape(lines, Abs(chunksize));
    }
  }

  /** The split yields the reference layout for every non-zero size, and one empty chunk for no lines. */
  lemma SplitContentsLayout(lines: seq<string>, chunksize: int)
    ensures chunksize != 0 ==> SplitContents(lines, chunksize) == Success(ChunkLayout(lines, Abs(chunksize)))
    ensures lines == [] ==> SplitContents(lines, chunksize) == Success([[]])
  {
    if chunksize != 0 {
      SplitFromLayout(lines, chunksize, 0);
      assert lines[..0] == [];
    }
    if lines == [] {
      var none: seq<seq<string>> := [];
      assert none + [[]] == [[]];
    }
  }

  /** The reference layout of a non-empty input, counted and concatenated. */
  lemma LayoutShape(lines: seq<string>, g: nat)
    requires g >= 1 && lines != []
    ensures Flatten(ChunkLayout(lines, g)) == lines
    ensures var c := ChunkLayout(lines, g);
      && |c| == 2 + (|lines| - 1) / g
      && c[0] == [lines[0]]
      && (forall j :: 0 < j < |c| - 1 ==> |c[j]| == g)
      && |c[|c| - 1]| == (|lines| - 1) % g
  {
    LayoutFlatten(lines, g);
    LayoutSizes(lines, g);
  }

  lemma LayoutFlatten(lines: seq<string>, g: nat)
    requires g >= 1 && lines != []
    ensures Flatten(ChunkLayout(lines, g)) == lines
  {
    var xs := lines[1..];
    var full := Full(xs, g);
    FullRest(xs, g);
    assert ChunkLayout(lines, g) == [lines[..1]] + full + [Rest(xs, g)];
    FlattenAppend([lines[..1]] + full, [Rest(xs, g)]);
    FlattenAppend([lines[..1]], full);
    assert Flatten([lines[..1]]) == lines[..1];
    assert Flatten([Rest(xs, g)]) == Rest(xs, g);
    assert lines == lines[..1] + xs;
  }

  lemma LayoutSizes(lines: seq<string>, g: nat)
    requires g >= 1 && lines != []
    ensures var c := ChunkLayout(lines, g);
      && |c| == 2 + (|lines| - 1) / g
      && c[0] == [lines[0]]
      && (forall j :: 0 < j < |c| - 1 ==> |c[j]| == g)
      && |c[|c| - 1]| == (|lines| - 1) % g
  {
    var c := ChunkLayout(lines, g);
    var xs := lines[1..];
    var full := Full(xs, g);
    FullRest(xs, g);
    FullRestCount(xs, g);
    assert c == [lines[..1]] + full + [Rest(xs, g)];
    forall j | 0 < j < |c| - 1 ensures |c[j]| == g {
      assert c[j] == full[j - 1];
    }
  }

  /**
   * `split_to_chunks`: the chunk files it writes, numbered from 1 in the order of the returned
   * paths, each holding its block of the reference layout; or the division error of a zero size.
   */
  function SplitToChunks(tmpdir: string, lines: seq<string>, chunksize: int): (r: Result<seq<Chunk>, SplitError>)
    ensures r.Failure? <==> chunksize == 0 && lines != []
    ensures r.Success? ==> IdsInOrder(tmpdir, r.value)
    ensures r.Success? && chunksize != 0 ==> ContentsOf(r.value) == ChunkLayout(lines, Abs(chunksize))
    ensures lines == [] ==> r == Success([Chunk(1, ChunkPath(tmpdir, 1), [])])
  {
    SplitContentsLayout(lines, chunksize);
    match SplitContents(lines, chunksize)
    case Failure(e) => Failure(e)
    case Success(c) =>
      var chunks := Numbered(tmpdir, c);
      assert lines == [] ==> chunks == [Chunk(1, ChunkPath(tmpdir, 1), [])] by {
        if lines == [] {
          assert |chunks| == 1 && chunks[0].lines == ContentsOf(chunks)[0] == [];
        }
      }
      Success(chunks)
  }

  /** Chunk records for the given contents, numbered from 1. */
  function Numbered(tmpdir: string, c: seq<seq<string>>): (chunks: seq<Chunk>)
    ensures IdsInOrder(tmpdir, chunks) && ContentsOf(chunks) == c
  {
    seq(|c|, j requires 0 <= j < |c| => Chunk(j + 1, ChunkPath(tmpdir, j + 1), c[j]))
  }

  /** The lines of a list of chunks, chunk by chunk. */
  function ContentsOf(chunks: seq<Chunk>): (c: seq<seq<string>>)
    ensures |c| == |chunks| && forall j :: 0 <= j < |c| ==> c[j] == chunks[j].lines
  {
    seq(|chunks|, j requires 0 <= j < |chunks| => chunks[j].lines)
  }

  /**
   * The returned paths are pairwise distinct, and reading the chunk files in the returned order
   * gives back every input line exactly once, in input order.
   */
  lemma SplitToChunksSound(tmpdir: string, lines: seq<string>, chunksize: int)
    requires chunksize != 0 || lines == []
    ensures var chunks := SplitToChunks(tmpdir, lines, chunksize).value;
      && Flatten(ContentsOf(chunks)) == lines
      && forall j, k :: 0 <= j < k < |chunks| ==> chunks[j].path != chunks[k].path
  {
    var chunks := SplitToChunks(tmpdir, lines, chunksize).value;
    SplitShape(lines, chunksize);
    assert ContentsOf(chunks) == SplitContents(lines, chunksize).value;
    PathsDistinct(tmpdir, chunks);
  }

  /** Chunks numbered in order sit at pairwise distinct paths. */
  lemma PathsDistinct(tmpdir: string, chunks: seq<Chunk>)
    requires IdsInOrder(tmpdir, chunks)
    ensures forall j, k :: 0 <= j < k < |chunks| ==> chunks[j].path != chunks[k].path
  {
    forall j, k | 0 <= j < k < |chunks| ensures chunks[j].path != chunks[k].path {
      var pj, pk := chunks[j].path, chunks[k].path;
      assert pj == ChunkPath(tmpdir, j + 1) && pk == ChunkPath(tmpdir, k + 1);
      if pj == pk {
        ChunkPathInjective(tmpdir, j + 1, k + 1);
      }
    }
  }

  lemma ContentsOfSnoc(chunks: seq<Chunk>, c: Chunk)
    ensures ContentsOf(chunks + [c]) == ContentsOf(chunks) + [c.lines]
  {
    assert forall j :: 0 <= j < |chunks| ==> (chunks + [c])[j] == chunks[j];
  }

  /** The chunks are numbered 1, 2, ... in list order, each at its own path. */
  predicate IdsInOrder(tmpdir: string, chunks: seq<Chunk>) {
    forall j :: 0 <= j < |chunks| ==> chunks[j].id == j + 1 && chunks[j].path == ChunkPath(tmpdir, j + 1)
  }

  lemma IdsInOrderSnoc(tmpdir: string, chunks: seq<Chunk>, c: Chunk)
    requires IdsInOrder(tmpdir, chunks) && c.id == |chunks| + 1 && c.path == ChunkPath(tmpdir, |chunks| + 1)
    ensures IdsInOrder(tmpdir, chunks + [c])
  {
    assert forall j :: 0 <= j < |chunks| ==> (chunks + [c])[j] == chunks[j];
  }

  /** The same splitting as a loop over the lines, building the chunk records as it goes. */
  method SplitToChunksLoop(tmpdir: string, lines: seq<string>, chunksize: int) returns (r: Result<seq<Chunk>, SplitError>)
    ensures r == SplitToChunks(tmpdir, lines, chunksize)
  {
    var chunks := [];
    var open: seq<string> := [];
    var i := 0;
    while i < |lines|
      invariant i <= |lines|
      invariant SplitFrom(lines, chunksize, i, ContentsOf(chunks), open) == SplitContents(lines, chunksize)
      invariant IdsInOrder(tmpdir, chunks)
    {
      if chunksize == 0 {
        return Failure(ZeroChunkSize);
      }
      open := open + [lines[i]];
      if PyMod(i, chunksize) == 0 {
        var c := Chunk(|chunks| + 1, ChunkPath(tmpdir, |chunks| + 1), open);
        ContentsOfSnoc(chunks, c);
        IdsInOrderSnoc(tmpdir, chunks, c);
        chunks := chunks + [c];
        open := [];
      }
      i := i + 1;
    }
    var last := Chunk(|chunks| + 1, ChunkPath(tmpdir, |chunks| + 1), open);
    ContentsOfSnoc(chunks, last);
    IdsInOrderSnoc(tmpdir, chunks, last);
    chunks := chunks + [last];
    ChunksOfContents(tmpdir, lines, chunksize, chunks);
    return Success(chunks);
  }

  /** Numbered chunk records whose lines are the split contents are the records `split_to_chunks` writes. */
  lemma ChunksOfContents(tmpdir: string, lines: seq<string>, chunksize: int, chunks: seq<Chunk>)
    requires SplitContents(lines, chunksize) == Success(ContentsOf(chunks))
    requires IdsInOrder(tmpdir, chunks)
    ensures SplitToChunks(tmpdir, lines, chunksize) == Success(chunks)
  {
    var expected := Numbered(tmpdir, ContentsOf(chunks));
    assert SplitToChunks(tmpdir, lines, chunksize) == Success(expected);
    assert |chunks| == |expected|;
    forall j | 0 <= j < |chunks| ensures chunks[j] == expected[j] {
      assert chunks[j].lines == ContentsOf(chunks)[j] == ContentsOf(expected)[j] == expected[j].lines;
      assert chunks[j].id == j + 1 == expected[j].id;
      assert chunks[j].path == expected[j].path;
    }
    assert chunks == expected;
  }
}
