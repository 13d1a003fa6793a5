/**
 * `build_pack` end to end, without the file system: load the ignore rules,
 * select and sort the files, assemble the document, cut its UTF-8 bytes
 * into chunks and count what the manifest reports.
 */
module Pack {
  import opened Wrappers
  import opened Ignore
  import opened Selection
  import opened Assembly
  import opened Utf8
  import opened Chunker

  /** How many relative paths the manifest lists as a sample. */
  const SampleSize := 20

  /**
   * The counted fields of `manifest.json`: `total_bytes`,
   * `num_files_included`, `num_chunks`, `max_bytes_per_chunk`, whether
   * `first_chunk_path` is set, and `files_sample`.
   */
  datatype Manifest = Manifest(totalBytes: nat, numFiles: nat, numChunks: nat, maxBytes: int,
                               hasFirstChunk: bool, filesSample: seq<string>)

  /** The relative paths of the first `SampleSize` files: `[rel for _, rel in files[:20]]`. */
  function Sample(files: seq<SelectedFile>): (r: seq<string>)
    ensures |r| == if |files| < SampleSize then |files| else SampleSize
    ensures forall k :: 0 <= k < |r| ==> r[k] == files[k].rel
  {
    var n := if |files| < SampleSize then |files| else SampleSize;
    seq(n, k requires 0 <= k < n => files[k].rel)
  }

  function ManifestCounts(doc: string, files: seq<SelectedFile>, chunks: seq<seq<byte>>, maxBytes: int): Manifest
  {
    Manifest(|Encode(doc)|, |files|, |chunks|, maxBytes, chunks != [], Sample(files))
  }

  /** The sum of the chunk sizes. */
  function TotalSize(chunks: seq<seq<byte>>): nat
  {
    if chunks == [] then 0 else |chunks[0]| + TotalSize(chunks[1..])
  }

  lemma {:induction false} TotalSizeOfConcat(chunks: seq<seq<byte>>)
    ensures TotalSize(chunks) == |Concat(chunks)|
  {
    if chunks != [] {
      TotalSizeOfConcat(chunks[1..]);
    }
  }

  lemma {:induction false} TotalSizeBound(chunks: seq<seq<byte>>, maxBytes: int)
    requires forall k :: 0 <= k < |chunks| ==> 1 <= |chunks[k]| <= maxBytes
    ensures |chunks| <= TotalSize(chunks) <= |chunks| * maxBytes
  {
    if chunks != [] {
      assert forall k :: 0 <= k < |chunks[1..]| ==> chunks[1..][k] == chunks[k + 1];
      TotalSizeBound(chunks[1..], maxBytes);
    }
  }

  /**
   * What the manifest reports about a chunked document: the chunk sizes add
   * up to `total_bytes`; there are at least `total_bytes / max_bytes` chunks
   * and at most one per byte; a first chunk exists exactly when the
   * document is not empty; and the sample lists the first relative paths.
   */
  lemma ManifestFacts(doc: string, files: seq<SelectedFile>, maxBytes: int)
    requires ProgressOk(Encode(doc), maxBytes)
    ensures var m := ManifestCounts(doc, files, ChunksFrom(Encode(doc), maxBytes, 0), maxBytes);
      var chunks := ChunksFrom(Encode(doc), maxBytes, 0);
      TotalSize(chunks) == m.totalBytes &&
      m.numChunks <= m.totalBytes <= m.numChunks * maxBytes &&
      (m.hasFirstChunk <==> m.totalBytes > 0) &&
      m.numFiles == |files| && |m.filesSample| <= SampleSize &&
      (forall k :: 0 <= k < |m.filesSample| ==> m.filesSample[k] == files[k].rel)
  {
    var data := Encode(doc);
    var chunks := ChunksFrom(data, maxBytes, 0);
    assert data[0..] == data;
    TotalSizeOfConcat(chunks);
    ChunksFromOk(data, maxBytes, 0);
    TotalSizeBound(chunks, maxBytes);
  }

  /** What running the packer gives: the document, its chunks and the manifest, or a chunking loop that never ends. */
  datatype Outcome =
    | Packed(doc: string, chunks: seq<seq<byte>>, manifest: Manifest)
    | NonTerminating(doc: string)

  /**
   * `build_pack` with its inputs made explicit: the walked entries, the
   * lines of `.gptignore` if the file exists, what reading each path gives,
   * the build time, the extension set, the forced prefixes and the chunk
   * limit. It returns the selected files and the outcome.
   */
  method BuildPack(root: string, builtAt: string, entries: seq<Entry>, gptignore: Option<seq<string>>,
                   read: string -> ReadResult, includeExts: set<string>, forceInclude: seq<string>, maxBytes: int)
    returns (files: seq<SelectedFile>, outcome: Outcome)
    ensures SortedByRel(files)
    ensures multiset(files) == multiset(Candidates(entries, LoadIgnore(gptignore), includeExts, NormalizeForced(forceInclude)))
    ensures forall r :: WithRel(files, r) == WithRel(Candidates(entries, LoadIgnore(gptignore), includeExts, NormalizeForced(forceInclude)), r)
    ensures outcome.doc == Document(root, builtAt, files, read)
    ensures outcome.Packed? <==> ProgressOk(Encode(outcome.doc), maxBytes)
    ensures outcome.Packed? ==>
      outcome.chunks == ChunksFrom(Encode(outcome.doc), maxBytes, 0) &&
      outcome.manifest == ManifestCounts(outcome.doc, files, outcome.chunks, maxBytes)
    ensures maxBytes >= 4 ==> outcome.Packed? && outcome.manifest.hasFirstChunk
  {
    var ignore := LoadIgnore(gptignore);
    files := SelectFiles(entries, ignore, includeExts, forceInclude);
    var doc := AssembleDocument(root, builtAt, files, read);
    var data := Encode(doc);
    DocumentEndsWithNewline(root, builtAt, files, read);
    if maxBytes >= 4 {
      EncodedTextProgresses(doc, maxBytes);
    }
    if ProgressOk(data, maxBytes) {
      var chunks := SplitByBytes(data, maxBytes);
      outcome := Packed(doc, chunks, ManifestCounts(doc, files, chunks, maxBytes));
    } else {
      // `split_by_bytes_utf8` would append empty chunks forever here (`HaltsIffProgress`).
      outcome := NonTerminating(doc);
    }
  }
}
