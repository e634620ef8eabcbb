/**
 * The whole run (`main`, `load_chunk`): the input is split into chunks and every chunk is
 * loaded on its own. A chunk's error is logged and dropped, so it never affects another
 * chunk. Chunks are loaded one after the other here; the process pool is not modelled.
 */
module Pipeline {
  import opened Wrappers
  import opened Blocks
  import opened Chunks
  import opened Loader
  import Batching

  /** `load_chunk` on each chunk's lines in turn: the batches inserted, chunk after chunk. */
  function LoadAll(contents: seq<seq<string>>, numrows: int, escape: string -> string): seq<seq<string>> {
    if contents == [] then []
    else Process(contents[0], numrows, escape).batches + LoadAll(contents[1..], numrows, escape)
  }

  /**
   * `main`: the INSERT statements of the whole run, or the error of `split_to_chunks` that ends
   * it before any chunk is loaded.
   */
  function Run(tmpdir: string, lines: seq<string>, chunksize: int, numrows: int, escape: string -> string)
    : (r: Result<seq<string>, SplitError>)
    ensures r.Failure? <==> chunksize == 0 && lines != []
  {
    match SplitToChunks(tmpdir, lines, chunksize)
    case Failure(e) => Failure(e)
    case Success(chunks) => Success(Statements(LoadAll(ContentsOf(chunks), numrows, escape)))
  }

  lemma {:induction false} LoadAllAppend(a: seq<seq<string>>, b: seq<seq<string>>, numrows: int, escape: string -> string)
    ensures LoadAll(a + b, numrows, escape) == LoadAll(a, numrows, escape) + LoadAll(b, numrows, escape)
  {
    if a == [] {
      assert a + b == b;
    } else {
      assert (a + b)[0] == a[0] && (a + b)[1..] == a[1..] + b;
      LoadAllAppend(a[1..], b, numrows, escape);
    }
  }

  /**
   * Failure isolation: what chunk `k` inserts is its own `process` outcome, placed after the
   * batches of the chunks before it and before those of the chunks after it, whatever errors
   * any chunk meets.
   */
  lemma ChunkIsolation(contents: seq<seq<string>>, k: nat, numrows: int, escape: string -> string)
    requires k < |contents|
    ensures LoadAll(contents, numrows, escape)
            == LoadAll(contents[..k], numrows, escape) + Process(contents[k], numrows, escape).batches
               + LoadAll(contents[k + 1..], numrows, escape)
  {
    assert contents == contents[..k] + ([contents[k]] + contents[k + 1..]);
    LoadAllAppend(contents[..k], [contents[k]] + contents[k + 1..], numrows, escape);
    assert ([contents[k]] + contents[k + 1..])[1..] == contents[k + 1..];
  }

  /** One chunk never flushes an empty batch, for any batch size. */
  lemma ProcessNonEmpty(lines: seq<string>, numrows: int, escape: string -> string)
    ensures var batches := Process(lines, numrows, escape).batches;
      forall j :: 0 <= j < |batches| ==> batches[j] != []
  {
    if numrows == 0 {
      Batching.ProcessZeroRows(lines, RowFn(escape), ZeroDivision);
    } else {
      ProcessRows(lines, numrows, escape);
    }
  }

  /** Whatever errors the chunks meet, no statement of the run inserts an empty batch. */
  lemma {:induction false} LoadAllNonEmpty(contents: seq<seq<string>>, numrows: int, escape: string -> string)
    ensures forall j :: 0 <= j < |LoadAll(contents, numrows, escape)| ==> LoadAll(contents, numrows, escape)[j] != []
  {
    if contents != [] {
      var first, rest := Process(contents[0], numrows, escape).batches, LoadAll(contents[1..], numrows, escape);
      ProcessNonEmpty(contents[0], numrows, escape);
      LoadAllNonEmpty(contents[1..], numrows, escape);
      forall j | |first| <= j < |first| + |rest|
        ensures (first + rest)[j] != []
      {
        assert (first + rest)[j] == rest[j - |first|];
      }
    }
  }

  /** For a non-zero batch size, when every line of every chunk parses, the chunks together insert the rows of all their lines, in order. */
  lemma {:induction false} LoadAllRows(contents: seq<seq<string>>, numrows: int, escape: string -> string)
    requires numrows != 0
    requires Batching.ParseAll(Flatten(contents), RowFn(escape)).error.None?
    ensures Flatten(LoadAll(contents, numrows, escape)) == Batching.ParseAll(Flatten(contents), RowFn(escape)).rows
  {
    var row := RowFn(escape);
    if contents != [] {
      var first, rest := contents[0], contents[1..];
      assert Flatten(contents) == first + Flatten(rest);
      if Batching.ParseAll(first, row).error.Some? {
        Batching.ParseAllStops(first, Flatten(rest), row);
        assert false;
      }
      Batching.ParseAllAppend(first, Flatten(rest), row);
      LoadAllRows(rest, numrows, escape);
      ProcessRows(first, numrows, escape);
      FlattenAppend(Process(first, numrows, escape).batches, LoadAll(rest, numrows, escape));
    }
  }

  /**
   * End to end: for a non-zero chunk size and batch size and a file whose every line parses,
   * the run succeeds, every statement inserts a non-empty batch, and the rows inserted over all
   * statements are the rows of the file's lines, each exactly once, in file order.
   */
  lemma RunLoadsEveryLine(tmpdir: string, lines: seq<string>, chunksize: int, numrows: int, escape: string -> string)
    requires chunksize != 0 && numrows != 0
    requires forall i :: 0 <= i < |lines| ==> RowOf(lines[i], escape).Success?
    ensures Run(tmpdir, lines, chunksize, numrows, escape).Success?
    ensures var contents := ContentsOf(SplitToChunks(tmpdir, lines, chunksize).value);
      var batches := LoadAll(contents, numrows, escape);
      && Run(tmpdir, lines, chunksize, numrows, escape).value
           == Statements(batches)
      && (forall j :: 0 <= j < |batches| ==> batches[j] != [])
      && |Flatten(batches)| == |lines|
      && forall i :: 0 <= i < |lines| ==> Flatten(batches)[i] == RowOf(lines[i], escape).value
  {
    var row := RowFn(escape);
    SplitContentsLayout(lines, chunksize);
    var chunks := SplitToChunks(tmpdir, lines, chunksize).value;
    var contents := ContentsOf(chunks);
    SplitToChunksSound(tmpdir, lines, chunksize);
    assert Flatten(contents) == lines;
    Batching.ParseAllRows(lines, row);
    LoadAllRows(contents, numrows, escape);
    LoadAllNonEmpty(contents, numrows, escape);
    assert Run(tmpdir, lines, chunksize, numrows, escape) == Success(Statements(LoadAll(contents, numrows, escape)));
  }

  /** With a zero chunk size an empty file still gives one empty chunk and no statement; any other file fails. */
  lemma RunZeroChunkSize(tmpdir: string, lines: seq<string>, numrows: int, escape: string -> string)
    ensures lines == [] ==> Run(tmpdir, lines, 0, numrows, escape) == Success([])
    ensures lines != [] ==> Run(tmpdir, lines, 0, numrows, escape) == Failure(ZeroChunkSize)
  {
    if lines == [] {
      var contents := ContentsOf(SplitToChunks(tmpdir, lines, 0).value);
      assert contents == [[]];
      assert contents[0] == [] && contents[1..] == [];
      assert Process([], numrows, escape).batches == [];
      var batches := LoadAll(contents, numrows, escape);
      assert batches == [] + LoadAll([], numrows, escape);
      assert |batches| == 0;
      var r := Run(tmpdir, lines, 0, numrows, escape);
      assert r.Success? && |r.value| == 0;
    }
  }
}
