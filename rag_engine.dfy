/** The local retrieval engine of core/rag_engine.py (class `RAGEngine`).

    The engine splits the text of every supported corpus file into
    overlapping character windows, keeps three parallel lists about the
    chunks (`documents`, `filenames`, `chunk_metadata`), fits a TF-IDF
    matrix over the chunks and answers a query with the best-scoring chunks
    above a similarity floor.

    The TF-IDF vectoriser and cosine similarity are floating-point library
    code: a query's scores are the result of an opaque `similarity`
    function from the cleaned query to one score per chunk. The matrix is
    represented by the number of rows it was fitted on. */
module RagEngine {
  import opened Common

  // -----------------------------------------------------------------------
  // Configuration and records

  /** The engine's settings; `DefaultConfig` holds the shipped values. */
  datatype RagConfig = RagConfig(
    chunkSize: int,
    chunkOverlap: int,
    minChunkLength: int,
    topK: int,
    similarityThreshold: real)
  {
    /** The chunker's window step. */
    function Step(): int { chunkSize - chunkOverlap }

    /** A window of at least one character (a non-positive size would make
        the slice end a negative Python index). */
    predicate Valid() { chunkSize > 0 }
  }

  const DefaultConfig := RagConfig(200, 40, 10, 2, 0.02)

  const SupportedExtensions: set<string> := {".pdf", ".txt", ".md"}

  /** The characters the query cleaner deletes, besides whitespace. */
  const StopChars: set<char> := {'什', '么', '是', '的', '？', '?', '吗', '如', '何', '怎', '为'}

  /** One chunk: the window's text and its offsets in the file's text. */
  datatype Chunk = Chunk(text: string, start: nat, end: nat)

  /** An entry of `chunk_metadata`. */
  datatype ChunkMeta = ChunkMeta(start: nat, end: nat, filename: string)

  datatype SearchResult = SearchResult(source: string, content: string, score: real)

  /** What `get_stats` reports; the file list is a set (its order is that
      of a Python set). */
  datatype Stats = Stats(totalChunks: nat, totalFiles: nat, files: set<string>, indexed: bool)

  /** One entry of the corpus walk: its full path, its final component, and
      what reading it yields. `text` is the decoded content of a text file
      (None when opening it raises); `pdfPages` is the text of each page of
      a PDF (None when the PDF library is missing or reading fails). */
  datatype CorpusFile = CorpusFile(
    path: string,
    name: string,
    isFile: bool,
    text: Option<string>,
    pdfPages: Option<seq<string>>)

  // -----------------------------------------------------------------------
  // Chunking

  /** The chunk of the window starting at `i`, when it is longer than the
      minimum. */
  function Window(text: string, cfg: RagConfig, i: nat): seq<Chunk>
    requires cfg.Valid() && i < |text|
  {
    var end := Min(i + cfg.chunkSize, |text|);
    if end - i > cfg.minChunkLength then [Chunk(text[i..end], i, end)] else []
  }

  /** The chunks of `text` whose windows start at `i`, `i + step`, ...
      below the end of the text. */
  function ChunksFrom(text: string, cfg: RagConfig, i: nat): seq<Chunk>
    requires cfg.Valid() && cfg.Step() > 0
    decreases |text| - i
  {
    if i >= |text| then [] else Window(text, cfg, i) + ChunksFrom(text, cfg, i + cfg.Step())
  }

  /** The chunks `_chunk_text` stores for `text`. A step of zero makes
      `range` raise, which the caller catches; a negative step gives an
      empty range: either way nothing is stored. */
  function Chunks(text: string, cfg: RagConfig): seq<Chunk>
    requires cfg.Valid()
  {
    if cfg.Step() <= 0 then [] else ChunksFrom(text, cfg, 0)
  }

  /** `d` is one of 0, `step`, `2 * step`, ... */
  predicate IsMultiple(d: int, step: int)
    requires step > 0
    decreases d
  {
    d == 0 || (d >= step && IsMultiple(d - step, step))
  }

  /** A window start the chunker keeps: a multiple of the step below the
      text's length whose window is longer than the minimum. */
  predicate IsChunkStart(text: string, cfg: RagConfig, s: nat)
    requires cfg.Valid() && cfg.Step() > 0
  {
    IsMultiple(s, cfg.Step()) && s < |text| && Min(s + cfg.chunkSize, |text|) - s > cfg.minChunkLength
  }

  /** A chunk found from offset `i` on: the slice of the text between its
      offsets, no longer than the window, longer than the minimum, on the
      step grid from `i`. */
  predicate ChunkOk(text: string, cfg: RagConfig, i: nat, c: Chunk) {
    && cfg.Step() > 0
    && i <= c.start < c.end <= |text|
    && c.text == text[c.start..c.end]
    && c.end == Min(c.start + cfg.chunkSize, |text|)
    && |c.text| > cfg.minChunkLength
    && IsMultiple(c.start - i, cfg.Step())
  }

  lemma {:induction false} ChunkAt(text: string, cfg: RagConfig, i: nat, k: nat)
    requires cfg.Valid() && cfg.Step() > 0
    requires k < |ChunksFrom(text, cfg, i)|
    ensures ChunkOk(text, cfg, i, ChunksFrom(text, cfg, i)[k])
    decreases |text| - i
  {
    var head := Window(text, cfg, i);
    var rest := ChunksFrom(text, cfg, i + cfg.Step());
    assert ChunksFrom(text, cfg, i) == head + rest;
    if k >= |head| {
      ChunkAt(text, cfg, i + cfg.Step(), k - |head|);
    }
  }

  lemma {:induction false} ChunksIncreasing(text: string, cfg: RagConfig, i: nat, k: nat, l: nat)
    requires cfg.Valid() && cfg.Step() > 0
    requires k < l < |ChunksFrom(text, cfg, i)|
    ensures ChunksFrom(text, cfg, i)[k].start < ChunksFrom(text, cfg, i)[l].start
    decreases |text| - i
  {
    var head := Window(text, cfg, i);
    var rest := ChunksFrom(text, cfg, i + cfg.Step());
    assert ChunksFrom(text, cfg, i) == head + rest;
    if k < |head| {
      ChunkAt(text, cfg, i + cfg.Step(), l - |head|);
    } else {
      ChunksIncreasing(text, cfg, i + cfg.Step(), k - |head|, l - |head|);
    }
  }

  /** Every chunk is the slice of the text between its offsets, at most
      `chunk_size` long, longer than the minimum and on the step grid; the
      chunks come in increasing start order. */
  lemma ChunksShape(text: string, cfg: RagConfig)
    requires cfg.Valid()
    ensures forall k :: 0 <= k < |Chunks(text, cfg)| ==> ChunkOk(text, cfg, 0, Chunks(text, cfg)[k])
    ensures forall k, l :: 0 <= k < l < |Chunks(text, cfg)| ==> Chunks(text, cfg)[k].start < Chunks(text, cfg)[l].start
  {
    if cfg.Step() > 0 {
      forall k | 0 <= k < |Chunks(text, cfg)|
        ensures ChunkOk(text, cfg, 0, Chunks(text, cfg)[k])
      {
        ChunkAt(text, cfg, 0, k);
      }
      forall k, l | 0 <= k < l < |Chunks(text, cfg)|
        ensures Chunks(text, cfg)[k].start < Chunks(text, cfg)[l].start
      {
        ChunksIncreasing(text, cfg, 0, k, l);
      }
    }
  }

  /** Every start on the step grid from `i` whose window is long enough
      yields a chunk. */
  lemma {:induction false} ChunkStartFound(text: string, cfg: RagConfig, i: nat, s: nat)
    requires cfg.Valid() && cfg.Step() > 0
    requires i <= s < |text| && IsMultiple(s - i, cfg.Step())
    requires Min(s + cfg.chunkSize, |text|) - s > cfg.minChunkLength
    ensures exists k :: 0 <= k < |ChunksFrom(text, cfg, i)| && ChunksFrom(text, cfg, i)[k].start == s
    decreases s - i
  {
    var head := Window(text, cfg, i);
    var rest := ChunksFrom(text, cfg, i + cfg.Step());
    var cs := ChunksFrom(text, cfg, i);
    assert cs == head + rest;
    if s == i {
      assert cs[0].start == i;
    } else {
      ChunkStartFound(text, cfg, i + cfg.Step(), s);
      var k :| 0 <= k < |rest| && rest[k].start == s;
      assert cs[|head| + k] == rest[k];
    }
  }

  /** The kept chunk starts are exactly the multiples of the step below the
      text's length whose window is longer than the minimum. */
  lemma ChunkStartsExact(text: string, cfg: RagConfig, s: nat)
    requires cfg.Valid() && cfg.Step() > 0
    ensures (exists k :: 0 <= k < |Chunks(text, cfg)| && Chunks(text, cfg)[k].start == s)
            <==> IsChunkStart(text, cfg, s)
  {
    if exists k :: 0 <= k < |Chunks(text, cfg)| && Chunks(text, cfg)[k].start == s {
      var k :| 0 <= k < |Chunks(text, cfg)| && Chunks(text, cfg)[k].start == s;
      ChunkAt(text, cfg, 0, k);
      assert IsChunkStart(text, cfg, s);
    }
    if IsChunkStart(text, cfg, s) {
      ChunkStartFound(text, cfg, 0, s);
      var cs := ChunksFrom(text, cfg, 0);
      var k :| 0 <= k < |cs| && cs[k].start == s;
      assert Chunks(text, cfg)[k].start == s;
    }
  }

  /** Every multiple of the step below the length starts a window, even
      one that lies inside the previous window: with the shipped settings a
      360-character text has a third chunk, its last 40 characters, at
      offset 320. */
  lemma TrailingWindowKept(text: string)
    requires |text| == 360
    ensures exists k :: 0 <= k < |Chunks(text, DefaultConfig)| && Chunks(text, DefaultConfig)[k].start == 320
  {
    assert IsMultiple(0, 160) && IsMultiple(160, 160) && IsMultiple(320, 160);
    ChunkStartsExact(text, DefaultConfig, 320);
  }

  function ChunkDocs(cs: seq<Chunk>): (r: seq<string>)
    ensures |r| == |cs|
  {
    if cs == [] then [] else [cs[0].text] + ChunkDocs(cs[1..])
  }

  function ChunkMetas(cs: seq<Chunk>, name: string): (r: seq<ChunkMeta>)
    ensures |r| == |cs|
  {
    if cs == [] then [] else [ChunkMeta(cs[0].start, cs[0].end, name)] + ChunkMetas(cs[1..], name)
  }

  function Repeat(name: string, n: nat): seq<string> {
    seq(n, k => name)
  }

  // -----------------------------------------------------------------------
  // File selection

  /** `Path.suffix`: from the last dot of the final component, when that
      dot is neither its first nor its last character. */
  function Suffix(name: string): string {
    var i := LastDot(name);
    if 0 < i < |name| - 1 then name[i..] else ""
  }

  /** `name.rfind('.')`: the index of the last dot, -1 when there is none. */
  function LastDot(name: string): (i: int)
    ensures -1 <= i < |name|
    ensures i >= 0 ==> name[i] == '.'
    ensures forall j :: i < j < |name| ==> name[j] != '.'
  {
    if name == [] then -1
    else if name[|name| - 1] == '.' then |name| - 1
    else LastDot(name[..|name| - 1])
  }

  /** A file the walk indexes: a regular file with a supported suffix, in
      any letter case. */
  predicate Eligible(f: CorpusFile) {
    f.isFile && Lower(Suffix(f.name)) in SupportedExtensions
  }

  /** `_extract_text`: the file's text, or None when an exception reaches
      `_process_file`. PDF pages with no text are skipped and the rest are
      joined by newlines; a PDF that cannot be read gives "". */
  function ExtractText(f: CorpusFile): Option<string> {
    var suffix := Lower(Suffix(f.name));
    if suffix == ".pdf" then
      Some(match f.pdfPages
           case None => ""
           case Some(pages) => Join(NonEmpty(pages), '\n'))
    else if suffix == ".txt" || suffix == ".md" then f.text
    else Some("")
  }

  function NonEmpty(pages: seq<string>): (r: seq<string>)
    ensures forall k :: 0 <= k < |r| ==> r[k] != []
  {
    if pages == [] then []
    else (if pages[0] == [] then [] else [pages[0]]) + NonEmpty(pages[1..])
  }

  /** The chunks `_process_file` stores for one file. */
  function FileChunks(f: CorpusFile, cfg: RagConfig): seq<Chunk>
    requires cfg.Valid()
  {
    match ExtractText(f)
    case Some(t) => if t != [] then Chunks(t, cfg) else []
    case None => []
  }

  /** The files one pass of `_index_corpus` processes, in walk order: the
      eligible ones whose path is not yet indexed (a path met twice is
      processed once). */
  function ToProcess(files: seq<CorpusFile>, seen: set<string>): seq<CorpusFile> {
    if files == [] then []
    else
      var f := files[0];
      if Eligible(f) && f.path !in seen then [f] + ToProcess(files[1..], seen + {f.path})
      else ToProcess(files[1..], seen)
  }

  /** The paths of the eligible files of a walk. */
  function EligiblePaths(files: seq<CorpusFile>): set<string> {
    set f | f in files && Eligible(f) :: f.path
  }

  function AllDocs(fs: seq<CorpusFile>, cfg: RagConfig): seq<string>
    requires cfg.Valid()
  {
    if fs == [] then [] else ChunkDocs(FileChunks(fs[0], cfg)) + AllDocs(fs[1..], cfg)
  }

  function AllNames(fs: seq<CorpusFile>, cfg: RagConfig): seq<string>
    requires cfg.Valid()
  {
    if fs == [] then [] else Repeat(fs[0].name, |FileChunks(fs[0], cfg)|) + AllNames(fs[1..], cfg)
  }

  function AllMetas(fs: seq<CorpusFile>, cfg: RagConfig): seq<ChunkMeta>
    requires cfg.Valid()
  {
    if fs == [] then [] else ChunkMetas(FileChunks(fs[0], cfg), fs[0].name) + AllMetas(fs[1..], cfg)
  }

  /** A second pass over the same walk processes nothing: every eligible
      path is already indexed. */
  lemma {:induction false} ReindexProcessesNothing(files: seq<CorpusFile>, seen: set<string>)
    requires EligiblePaths(files) <= seen
    ensures ToProcess(files, seen) == []
  {
    if files != [] {
      assert files[0] in files;
      assert EligiblePaths(files[1..]) <= EligiblePaths(files) by {
        forall f | f in files[1..] ensures f in files { }
      }
      ReindexProcessesNothing(files[1..], seen);
    }
  }

  lemma {:induction false} ChunkListsAppend(a: seq<Chunk>, b: seq<Chunk>, name: string)
    ensures ChunkDocs(a + b) == ChunkDocs(a) + ChunkDocs(b)
    ensures ChunkMetas(a + b, name) == ChunkMetas(a, name) + ChunkMetas(b, name)
    ensures Repeat(name, |a| + |b|) == Repeat(name, |a|) + Repeat(name, |b|)
  {
    if a != [] {
      assert (a + b)[0] == a[0] && (a + b)[1..] == a[1..] + b;
      ChunkListsAppend(a[1..], b, name);
    } else {
      assert a + b == b;
    }
  }

  /** Moving the next items of `whole` from the pending side to the
      done side keeps `done + pending` fixed. */
  lemma Advance<T>(done: seq<T>, x: seq<T>, rest: seq<T>, whole: seq<T>, target: seq<T>)
    requires whole == x + rest && done + whole == target
    ensures (done + x) + rest == target
  {
  }

  /** One step of the chunker when the window at `i` is kept: it moves
      from the pending chunks to the stored ones. */
  lemma ChunkKept(text: string, cfg: RagConfig, i: nat, end: nat, name: string,
                  docs: seq<string>, names: seq<string>, metas: seq<ChunkMeta>,
                  allDocs: seq<string>, allNames: seq<string>, allMetas: seq<ChunkMeta>)
    requires cfg.Valid() && cfg.Step() > 0 && i < |text|
    requires end == Min(i + cfg.chunkSize, |text|) && end - i > cfg.minChunkLength
    requires docs + ChunkDocs(ChunksFrom(text, cfg, i)) == allDocs
    requires names + Repeat(name, |ChunksFrom(text, cfg, i)|) == allNames
    requires metas + ChunkMetas(ChunksFrom(text, cfg, i), name) == allMetas
    ensures var rest := ChunksFrom(text, cfg, i + cfg.Step());
      && (docs + [text[i..end]]) + ChunkDocs(rest) == allDocs
      && (names + [name]) + Repeat(name, |rest|) == allNames
      && (metas + [ChunkMeta(i, end, name)]) + ChunkMetas(rest, name) == allMetas
  {
    var head := Window(text, cfg, i);
    var rest := ChunksFrom(text, cfg, i + cfg.Step());
    assert ChunksFrom(text, cfg, i) == head + rest;
    ChunkListsAppend(head, rest, name);
    assert ChunkDocs(head) == [text[i..end]];
    assert ChunkMetas(head, name) == [ChunkMeta(i, end, name)];
    assert Repeat(name, |head|) == [name];
    Advance(docs, [text[i..end]], ChunkDocs(rest), ChunkDocs(head + rest), allDocs);
    Advance(names, [name], Repeat(name, |rest|), Repeat(name, |head + rest|), allNames);
    Advance(metas, [ChunkMeta(i, end, name)], ChunkMetas(rest, name), ChunkMetas(head + rest, name), allMetas);
  }

  /** One step of the chunker when the window at `i` is too short: nothing
      is pending for it. */
  lemma ChunkDropped(text: string, cfg: RagConfig, i: nat, name: string)
    requires cfg.Valid() && cfg.Step() > 0 && i < |text|
    requires Min(i + cfg.chunkSize, |text|) - i <= cfg.minChunkLength
    ensures ChunksFrom(text, cfg, i) == ChunksFrom(text, cfg, i + cfg.Step())
  {
  }

  /** One step of the walk: the file at `j` is processed first when it is
      eligible and its path is new, and skipped otherwise. */
  lemma WalkStep(files: seq<CorpusFile>, j: nat, seen: set<string>, cfg: RagConfig)
    requires cfg.Valid() && j < |files|
    ensures var f := files[j];
      var todo := ToProcess(files[j..], seen);
      if Eligible(f) && f.path !in seen then
        var rest := ToProcess(files[j + 1..], seen + {f.path});
        && AllDocs(todo, cfg) == ChunkDocs(FileChunks(f, cfg)) + AllDocs(rest, cfg)
        && AllNames(todo, cfg) == Repeat(f.name, |FileChunks(f, cfg)|) + AllNames(rest, cfg)
        && AllMetas(todo, cfg) == ChunkMetas(FileChunks(f, cfg), f.name) + AllMetas(rest, cfg)
      else todo == ToProcess(files[j + 1..], seen)
  {
    assert files[j..][0] == files[j] && files[j..][1..] == files[j + 1..];
    var f := files[j];
    if Eligible(f) && f.path !in seen {
      var rest := ToProcess(files[j + 1..], seen + {f.path});
      var todo := [f] + rest;
      assert todo[0] == f && todo[1..] == rest;
    }
  }

  lemma EligiblePathsSnoc(files: seq<CorpusFile>, j: nat)
    requires j < |files|
    ensures EligiblePaths(files[..j + 1])
            == EligiblePaths(files[..j]) + (if Eligible(files[j]) then {files[j].path} else {})
  {
    assert files[..j + 1] == files[..j] + [files[j]];
  }

  // -----------------------------------------------------------------------
  // Query cleaning

  predicate IsNoise(c: char, stop: set<char>) { c in stop || IsSpace(c) }

  /** `re.sub('[<stop>\s]', '', s)`: every character of the class is
      deleted, one at a time; the others stay, in order. */
  function Scrub(s: string, stop: set<char>): (r: string)
    ensures |r| <= |s|
    ensures forall k :: 0 <= k < |r| ==> !IsNoise(r[k], stop)
  {
    if s == [] then []
    else (if IsNoise(s[0], stop) then [] else [s[0]]) + Scrub(s[1..], stop)
  }

  /** Deleting works character by character: it distributes over
      concatenation. */
  lemma {:induction false} ScrubAppend(a: string, b: string, stop: set<char>)
    ensures Scrub(a + b, stop) == Scrub(a, stop) + Scrub(b, stop)
  {
    if a != [] {
      assert (a + b)[0] == a[0] && (a + b)[1..] == a[1..] + b;
      ScrubAppend(a[1..], b, stop);
    } else {
      assert a + b == b;
    }
  }

  /** Nothing is left exactly when every character is in the class. */
  lemma {:induction false} ScrubEmpty(s: string, stop: set<char>)
    ensures Scrub(s, stop) == [] <==> forall k :: 0 <= k < |s| ==> IsNoise(s[k], stop)
  {
    if s != [] {
      ScrubEmpty(s[1..], stop);
      assert forall k :: 1 <= k < |s| ==> s[k] == s[1..][k - 1];
    }
  }

  /** A string with no character of the class is left as it is. */
  lemma {:induction false} ScrubClean(s: string, stop: set<char>)
    requires forall k :: 0 <= k < |s| ==> !IsNoise(s[k], stop)
    ensures Scrub(s, stop) == s
  {
    if s != [] {
      ScrubClean(s[1..], stop);
      assert [s[0]] + s[1..] == s;
    }
  }

  /** `_clean_query`: the query without the stop characters and whitespace,
      or the query itself when nothing would be left. */
  function CleanWith(q: string, stop: set<char>): (r: string)
    ensures q != [] ==> r != []
    ensures r == q || (r != [] && forall k :: 0 <= k < |r| ==> !IsNoise(r[k], stop))
  {
    var cleaned := Scrub(q, stop);
    if cleaned == [] then q else cleaned
  }

  function CleanQuery(q: string): string { CleanWith(q, StopChars) }

  /** Cleaning twice is cleaning once, so a query that is already clean
      scores the same as the raw one. */
  lemma CleanIdempotent(q: string, stop: set<char>)
    ensures CleanWith(CleanWith(q, stop), stop) == CleanWith(q, stop)
  {
    var cleaned := Scrub(q, stop);
    if cleaned != [] {
      ScrubClean(cleaned, stop);
    }
  }

  /** The fallback: a query made only of stop characters and whitespace is
      searched as it is. */
  lemma CleanFallback(q: string, stop: set<char>)
    requires forall k :: 0 <= k < |q| ==> IsNoise(q[k], stop)
    ensures CleanWith(q, stop) == q
  {
    ScrubEmpty(q, stop);
  }

  // -----------------------------------------------------------------------
  // Ranking

  /** `top_k or default`: a missing or zero `top_k` takes the default. */
  function EffectiveTopK(topK: Option<int>, default: int): int {
    match topK
    case None => default
    case Some(k) => if k == 0 then default else k
  }

  /** How many indices `argsort()[:-k-1:-1]` keeps of `n`: the `k` largest
      for `k >= 0`; for a negative `k` the slice stops at index `-k-1`, so it
      keeps `n + k` of them. */
  function TakeCount(n: nat, k: int): (c: nat)
    ensures c <= n
    ensures k >= 0 ==> c <= k
  {
    if k >= 0 then Min(k, n) else Max(0, n + k)
  }

  /** `picked` is what the ranking step may return for `scores`: the
      indices among the `count` best that score above the threshold, best
      first. Ties between equal scores may be ordered either way. */
  ghost predicate IsRanking(scores: seq<real>, count: nat, threshold: real, picked: seq<nat>) {
    && |picked| <= count
    && (forall a :: 0 <= a < |picked| ==> picked[a] < |scores| && scores[picked[a]] > threshold)
    && (forall a, b :: 0 <= a < b < |picked| ==> picked[a] != picked[b])
    && (forall a, b :: 0 <= a < b < |picked| ==> scores[picked[a]] >= scores[picked[b]])
    && (forall j, a :: 0 <= j < |scores| && j !in picked && 0 <= a < |picked| ==>
          scores[j] <= scores[picked[a]])
    && (|picked| < count ==> forall j :: 0 <= j < |scores| && j !in picked ==> scores[j] <= threshold)
  }

  /** A position in `rest` whose score is the largest; the first such. */
  method ArgMax(scores: seq<real>, rest: seq<nat>) returns (b: nat)
    requires rest != []
    requires forall m :: 0 <= m < |rest| ==> rest[m] < |scores|
    ensures b < |rest|
    ensures forall m :: 0 <= m < |rest| ==> scores[rest[m]] <= scores[rest[b]]
    ensures forall m :: 0 <= m < b ==> scores[rest[m]] < scores[rest[b]]
  {
    b := 0;
    for m := 1 to |rest|
      invariant 0 <= b < m
      invariant forall m' :: 0 <= m' < m ==> scores[rest[m']] <= scores[rest[b]]
      invariant forall m' :: 0 <= m' < b ==> scores[rest[m']] < scores[rest[b]]
    {
      if scores[rest[m]] > scores[rest[b]] {
        b := m;
      }
    }
  }

  /** Removing the entry at `b` from a list without repeats. */
  lemma RemoveAt(rest: seq<nat>, b: nat)
    requires b < |rest| && Distinct(rest)
    ensures |rest[..b] + rest[b + 1..]| == |rest| - 1
    ensures Distinct(rest[..b] + rest[b + 1..])
    ensures forall x :: x in rest[..b] + rest[b + 1..] <==> x in rest && x != rest[b]
  {
    var r := rest[..b] + rest[b + 1..];
    assert forall m :: 0 <= m < |r| ==> r[m] == (if m < b then rest[m] else rest[m + 1]);
    forall x | x in rest && x != rest[b]
      ensures x in r
    {
      var m :| 0 <= m < |rest| && rest[m] == x;
      if m < b {
        assert r[m] == x;
      } else {
        assert r[m - 1] == x;
      }
    }
  }

  /** The first `count` indices of `argsort()[::-1]`: distinct, in
      non-increasing score order, and no index left out scores more than
      one taken. The order among equal scores is not specified; this model
      takes the first best entry of the remaining indices (`ArgMax`). */
  method TopIndices(scores: seq<real>, count: nat) returns (top: seq<nat>)
    requires count <= |scores|
    ensures |top| == count
    ensures forall a :: 0 <= a < |top| ==> top[a] < |scores|
    ensures Distinct(top)
    ensures forall a, b :: 0 <= a < b < |top| ==> scores[top[a]] >= scores[top[b]]
    ensures forall j, a :: 0 <= j < |scores| && j !in top && 0 <= a < |top| ==> scores[j] <= scores[top[a]]
  {
    top := [];
    var rest: seq<nat> := seq(|scores|, j requires 0 <= j => j);
    forall j | 0 <= j < |scores|
      ensures j in rest
    {
      assert rest[j] == j;
    }
    while |top| < count
      invariant |top| <= count
      invariant |top| + |rest| == |scores|
      invariant forall a :: 0 <= a < |top| ==> top[a] < |scores|
      invariant forall x :: x in rest ==> x < |scores| && x !in top
      invariant Distinct(top) && Distinct(rest)
      invariant forall j :: 0 <= j < |scores| ==> j in top || j in rest
      invariant forall a, b :: 0 <= a < b < |top| ==> scores[top[a]] >= scores[top[b]]
      invariant forall x, a :: x in rest && 0 <= a < |top| ==> scores[x] <= scores[top[a]]
    {
      assert forall m :: 0 <= m < |rest| ==> rest[m] in rest;
      var b := ArgMax(scores, rest);
      var best := rest[b];
      RemoveAt(rest, b);
      top := top + [best];
      rest := rest[..b] + rest[b + 1..];
    }
  }

  /** A non-increasing list of distinct top indices whose first `p`
      entries are exactly those above the threshold ranks as its prefix. */
  lemma PrefixRanking(scores: seq<real>, threshold: real, top: seq<nat>, p: nat)
    requires p <= |top| <= |scores|
    requires forall a :: 0 <= a < |top| ==> top[a] < |scores|
    requires Distinct(top)
    requires forall a, b :: 0 <= a < b < |top| ==> scores[top[a]] >= scores[top[b]]
    requires forall j, a :: 0 <= j < |scores| && j !in top && 0 <= a < |top| ==> scores[j] <= scores[top[a]]
    requires forall a :: 0 <= a < p ==> scores[top[a]] > threshold
    requires p < |top| ==> scores[top[p]] <= threshold
    ensures IsRanking(scores, |top|, threshold, top[..p])
  {
    var picked := top[..p];
    forall j, a | 0 <= j < |scores| && j !in picked && 0 <= a < |picked|
      ensures scores[j] <= scores[picked[a]]
    {
      if j in top {
        var q :| 0 <= q < |top| && top[q] == j;
        assert q >= p;
      }
    }
    if p < |top| {
      forall j | 0 <= j < |scores| && j !in picked
        ensures scores[j] <= threshold
      {
        if j in top {
          var q :| 0 <= q < |top| && top[q] == j;
          assert q >= p;
        }
      }
    }
  }

  /** The ranking step of `query`: the top `count` indices, kept when their
      score exceeds the threshold, in the same order. */
  method Rank(scores: seq<real>, count: nat, threshold: real) returns (picked: seq<nat>)
    requires count <= |scores|
    ensures IsRanking(scores, count, threshold, picked)
  {
    var top := TopIndices(scores, count);
    picked := [];
    for i := 0 to |top|
      invariant |picked| <= i
      invariant picked == top[..|picked|]
      invariant forall a :: 0 <= a < |picked| ==> scores[top[a]] > threshold
      invariant |picked| < i ==> scores[top[|picked|]] <= threshold
    {
      if scores[top[i]] > threshold {
        assert top[..i + 1] == top[..i] + [top[i]];
        picked := picked + [top[i]];
      }
    }
    PrefixRanking(scores, threshold, top, |picked|);
  }

  // -----------------------------------------------------------------------
  // Responses

  function NotFoundResponse(q: string): string {
    "🤖 **AI 分析**：\n\n在现有课程资料中暂未找到关于「" + q + "」的具体描述。\n\n"
    + "**建议**：\n- 尝试使用更具体的关键词\n- 检查 assets/corpus 目录下是否已添加相关文档"
  }

  function ResponseHeader(q: string): string {
    "🤖 **基于校内课程资料的 AI 回复**：\n\n关于「**" + q + "**」，我在资料库中找到了相关内容：\n\n"
  }

  /** `content.replace('\n', ' ')`. */
  function Flatten(s: string): (r: string)
    ensures |r| == |s| && '\n' !in r
    ensures forall k :: 0 <= k < |s| && s[k] != '\n' ==> r[k] == s[k]
  {
    seq(|s|, k requires 0 <= k < |s| => if s[k] == '\n' then ' ' else s[k])
  }

  /** The lines `_format_response` writes for one result; `fmt` renders a
      score with two decimals. */
  function ResultBlock(res: SearchResult, fmt: real -> string): string {
    "> **📑 来源：" + res.source + "** (匹配度: " + fmt(res.score) + ")\n"
    + "> *\"..." + Flatten(res.content) + "...\"*\n\n"
  }

  function ResultBlocks(rs: seq<SearchResult>, fmt: real -> string): string {
    if rs == [] then [] else ResultBlocks(rs[..|rs| - 1], fmt) + ResultBlock(rs[|rs| - 1], fmt)
  }

  /** `_format_response`: the header, then one block per result in rank
      order. */
  method FormatResponse(q: string, results: seq<SearchResult>, fmt: real -> string) returns (response: string)
    ensures response == ResponseHeader(q) + ResultBlocks(results, fmt)
  {
    response := ResponseHeader(q);
    for i := 0 to |results|
      invariant response == ResponseHeader(q) + ResultBlocks(results[..i], fmt)
    {
      assert results[..i + 1][..i] == results[..i];
      response := response + ResultBlock(results[i], fmt);
    }
    assert results[..|results|] == results;
  }

  /** A formatted reply is never the not-found reply: they differ in the
      title of their first line. */
  lemma FoundIsNotNotFound(q: string, q': string, tail: string)
    ensures ResponseHeader(q) + tail != NotFoundResponse(q')
  {
    assert (ResponseHeader(q) + tail)[4] == '基';
    assert NotFoundResponse(q')[4] == 'A';
  }

  /** The search results for a list of ranked chunk indices. */
  function ResultsFor(docs: seq<string>, names: seq<string>, picked: seq<nat>, scores: seq<real>): (rs: seq<SearchResult>)
    requires forall a :: 0 <= a < |picked| ==> picked[a] < |docs| && picked[a] < |names| && picked[a] < |scores|
    ensures |rs| == |picked|
  {
    seq(|picked|, a requires 0 <= a < |picked| =>
      SearchResult(names[picked[a]], Strip(docs[picked[a]]), scores[picked[a]]))
  }

  /** The loop of `query` that turns the ranked indices into results, in
      rank order. */
  method CollectResults(docs: seq<string>, names: seq<string>, picked: seq<nat>, scores: seq<real>)
    returns (results: seq<SearchResult>)
    requires forall a :: 0 <= a < |picked| ==> picked[a] < |docs| && picked[a] < |names| && picked[a] < |scores|
    ensures results == ResultsFor(docs, names, picked, scores)
  {
    results := [];
    for a := 0 to |picked|
      invariant results == ResultsFor(docs, names, picked[..a], scores)
    {
      var idx := picked[a];
      results := results + [SearchResult(names[idx], Strip(docs[idx]), scores[idx])];
    }
    assert picked[..|picked|] == picked;
  }

  // -----------------------------------------------------------------------
  // The engine

  /** A stored chunk agrees with its metadata entry. */
  predicate ChunkFits(doc: string, name: string, meta: ChunkMeta, cfg: RagConfig) {
    meta.filename == name && meta.end - meta.start == |doc| && cfg.minChunkLength < |doc| <= cfg.chunkSize
  }

  ghost predicate InLockstep(docs: seq<string>, names: seq<string>, metas: seq<ChunkMeta>, cfg: RagConfig) {
    && |names| == |docs|
    && |metas| == |docs|
    && forall i :: 0 <= i < |docs| ==> ChunkFits(docs[i], names[i], metas[i], cfg)
  }

  lemma LockstepPush(docs: seq<string>, names: seq<string>, metas: seq<ChunkMeta>, cfg: RagConfig,
                     doc: string, name: string, meta: ChunkMeta)
    requires InLockstep(docs, names, metas, cfg) && ChunkFits(doc, name, meta, cfg)
    ensures InLockstep(docs + [doc], names + [name], metas + [meta], cfg)
  {
  }

  class RAGEngine {
    const config: RagConfig
    var documents: seq<string>
    var filenames: seq<string>
    var chunkMetadata: seq<ChunkMeta>
    var indexedFiles: set<string>
    /** `tfidf_matrix`: None, or Some(number of rows it was fitted on). */
    var tfidfRows: Option<nat>

    /** The three chunk lists grow together and agree entry by entry. */
    ghost predicate Lockstep()
      reads this
    {
      InLockstep(documents, filenames, chunkMetadata, config)
    }

    /** The engine's invariant: the lists are in lockstep and a fitted
        matrix has one row per chunk and at least one. */
    ghost predicate Valid()
      reads this
    {
      config.Valid() && Lockstep() && (tfidfRows.Some? ==> tfidfRows.value == |documents| > 0)
    }

    /** `__init__`: an empty index, then one pass of `_index_corpus`. */
    constructor (cfg: RagConfig, corpusExists: bool, files: seq<CorpusFile>)
      requires cfg.Valid()
      ensures Valid() && config == cfg
      ensures documents == (if corpusExists then AllDocs(ToProcess(files, {}), cfg) else [])
      ensures filenames == (if corpusExists then AllNames(ToProcess(files, {}), cfg) else [])
      ensures chunkMetadata == (if corpusExists then AllMetas(ToProcess(files, {}), cfg) else [])
      ensures indexedFiles == (if corpusExists then EligiblePaths(files) else {})
      ensures tfidfRows == (if documents == [] then None else Some(|documents|))
    {
      config := cfg;
      documents, filenames, chunkMetadata := [], [], [];
      indexedFiles := {};
      tfidfRows := None;
      new;
      IndexCorpus(corpusExists, files);
    }

    /** Stores one chunk: its text, its file name and its metadata. */
    method Append(doc: string, name: string, meta: ChunkMeta)
      requires Lockstep() && ChunkFits(doc, name, meta, config)
      modifies this
      ensures Lockstep()
      ensures documents == old(documents) + [doc]
      ensures filenames == old(filenames) + [name]
      ensures chunkMetadata == old(chunkMetadata) + [meta]
      ensures indexedFiles == old(indexedFiles) && tfidfRows == old(tfidfRows)
    {
      LockstepPush(documents, filenames, chunkMetadata, config, doc, name, meta);
      documents := documents + [doc];
      filenames := filenames + [name];
      chunkMetadata := chunkMetadata + [meta];
    }

    /** The body of the loop of `_chunk_text`: the window at `i` is
        stored when it is longer than the minimum, and the chunks still to
        store are those from the next start. */
    method StoreWindow(text: string, filename: string, i: nat,
                       ghost allDocs: seq<string>, ghost allNames: seq<string>, ghost allMetas: seq<ChunkMeta>)
      requires config.Valid() && config.Step() > 0 && i < |text| && Lockstep()
      requires documents + ChunkDocs(ChunksFrom(text, config, i)) == allDocs
      requires filenames + Repeat(filename, |ChunksFrom(text, config, i)|) == allNames
      requires chunkMetadata + ChunkMetas(ChunksFrom(text, config, i), filename) == allMetas
      modifies this
      ensures Lockstep()
      ensures documents + ChunkDocs(ChunksFrom(text, config, i + config.Step())) == allDocs
      ensures filenames + Repeat(filename, |ChunksFrom(text, config, i + config.Step())|) == allNames
      ensures chunkMetadata + ChunkMetas(ChunksFrom(text, config, i + config.Step()), filename) == allMetas
      ensures indexedFiles == old(indexedFiles) && tfidfRows == old(tfidfRows)
    {
      var end := Min(i + config.chunkSize, |text|);
      var chunk := text[i..end];
      if |chunk| > config.minChunkLength {
        ChunkKept(text, config, i, end, filename, documents, filenames, chunkMetadata, allDocs, allNames, allMetas);
        assert ChunkMeta(i, i + |chunk|, filename) == ChunkMeta(i, end, filename);
        Append(chunk, filename, ChunkMeta(i, i + |chunk|, filename));
      } else {
        ChunkDropped(text, config, i, filename);
      }
    }

    /** `_chunk_text`: appends the text's chunks to the three lists. */
    method ChunkText(text: string, filename: string)
      requires config.Valid() && Lockstep()
      modifies this
      ensures Lockstep()
      ensures documents == old(documents) + ChunkDocs(Chunks(text, config))
      ensures filenames == old(filenames) + Repeat(filename, |Chunks(text, config)|)
      ensures chunkMetadata == old(chunkMetadata) + ChunkMetas(Chunks(text, config), filename)
      ensures indexedFiles == old(indexedFiles) && tfidfRows == old(tfidfRows)
    {
      var step := config.Step();
      if step <= 0 {
        return;
      }
      ghost var allDocs := old(documents) + ChunkDocs(Chunks(text, config));
      ghost var allNames := old(filenames) + Repeat(filename, |Chunks(text, config)|);
      ghost var allMetas := old(chunkMetadata) + ChunkMetas(Chunks(text, config), filename);
      var i := 0;
      while i < |text|
        invariant Lockstep()
        invariant documents + ChunkDocs(ChunksFrom(text, config, i)) == allDocs
        invariant filenames + Repeat(filename, |ChunksFrom(text, config, i)|) == allNames
        invariant chunkMetadata + ChunkMetas(ChunksFrom(text, config, i), filename) == allMetas
        invariant indexedFiles == old(indexedFiles) && tfidfRows == old(tfidfRows)
        decreases |text| - i
      {
        StoreWindow(text, filename, i, allDocs, allNames, allMetas);
        i := i + step;
      }
    }

    /** `_process_file`: the file's chunks are stored when its text could
        be extracted and is not empty. */
    method ProcessFile(f: CorpusFile)
      requires config.Valid() && Lockstep()
      modifies this
      ensures Lockstep()
      ensures documents == old(documents) + ChunkDocs(FileChunks(f, config))
      ensures filenames == old(filenames) + Repeat(f.name, |FileChunks(f, config)|)
      ensures chunkMetadata == old(chunkMetadata) + ChunkMetas(FileChunks(f, config), f.name)
      ensures indexedFiles == old(indexedFiles) && tfidfRows == old(tfidfRows)
    {
      var text := ExtractText(f);
      if text.Some? && text.value != [] {
        ChunkText(text.value, f.name);
      } else {
        assert ChunkDocs([]) == [] && ChunkMetas([], f.name) == [] && Repeat(f.name, 0) == [];
      }
    }

    /** The body of the loop of `_index_corpus`: the file at `j` is
        processed and recorded when it is eligible and new; the files still
        to process are then those after it. */
    method VisitFile(files: seq<CorpusFile>, j: nat,
                     ghost allDocs: seq<string>, ghost allNames: seq<string>, ghost allMetas: seq<ChunkMeta>)
      requires config.Valid() && j < |files| && Lockstep()
      requires documents + AllDocs(ToProcess(files[j..], indexedFiles), config) == allDocs
      requires filenames + AllNames(ToProcess(files[j..], indexedFiles), config) == allNames
      requires chunkMetadata + AllMetas(ToProcess(files[j..], indexedFiles), config) == allMetas
      modifies this
      ensures Lockstep() && |documents| >= |old(documents)| && tfidfRows == old(tfidfRows)
      ensures indexedFiles == old(indexedFiles) + (if Eligible(files[j]) then {files[j].path} else {})
      ensures documents + AllDocs(ToProcess(files[j + 1..], indexedFiles), config) == allDocs
      ensures filenames + AllNames(ToProcess(files[j + 1..], indexedFiles), config) == allNames
      ensures chunkMetadata + AllMetas(ToProcess(files[j + 1..], indexedFiles), config) == allMetas
    {
      var f := files[j];
      WalkStep(files, j, indexedFiles, config);
      if f.isFile && Lower(Suffix(f.name)) in SupportedExtensions {
        if f.path !in indexedFiles {
          ghost var todo := ToProcess(files[j..], indexedFiles);
          ghost var rest := ToProcess(files[j + 1..], indexedFiles + {f.path});
          ghost var cs := FileChunks(f, config);
          Advance(documents, ChunkDocs(cs), AllDocs(rest, config), AllDocs(todo, config), allDocs);
          Advance(filenames, Repeat(f.name, |cs|), AllNames(rest, config), AllNames(todo, config), allNames);
          Advance(chunkMetadata, ChunkMetas(cs, f.name), AllMetas(rest, config), AllMetas(todo, config), allMetas);
          ProcessFile(f);
          indexedFiles := indexedFiles + {f.path};
        } else {
          assert indexedFiles + {f.path} == indexedFiles;
        }
      }
    }

    /** `_index_corpus`: processes the eligible files not yet indexed, in
        walk order, records their paths, and refits the matrix when there
        is at least one chunk. */
    method IndexCorpus(corpusExists: bool, files: seq<CorpusFile>)
      requires Valid()
      modifies this
      ensures Valid()
      ensures !corpusExists ==>
        documents == old(documents) && filenames == old(filenames) && chunkMetadata == old(chunkMetadata)
        && indexedFiles == old(indexedFiles) && tfidfRows == old(tfidfRows)
      ensures corpusExists ==>
        && documents == old(documents) + AllDocs(ToProcess(files, old(indexedFiles)), config)
        && filenames == old(filenames) + AllNames(ToProcess(files, old(indexedFiles)), config)
        && chunkMetadata == old(chunkMetadata) + AllMetas(ToProcess(files, old(indexedFiles)), config)
        && indexedFiles == old(indexedFiles) + EligiblePaths(files)
        && tfidfRows == (if documents == [] then old(tfidfRows) else Some(|documents|))
    {
      if !corpusExists {
        return;
      }
      ghost var all := ToProcess(files, old(indexedFiles));
      ghost var allDocs := old(documents) + AllDocs(all, config);
      ghost var allNames := old(filenames) + AllNames(all, config);
      ghost var allMetas := old(chunkMetadata) + AllMetas(all, config);
      for j := 0 to |files|
        invariant Lockstep()
        invariant |documents| >= |old(documents)|
        invariant tfidfRows == old(tfidfRows)
        invariant indexedFiles == old(indexedFiles) + EligiblePaths(files[..j])
        invariant documents + AllDocs(ToProcess(files[j..], indexedFiles), config) == allDocs
        invariant filenames + AllNames(ToProcess(files[j..], indexedFiles), config) == allNames
        invariant chunkMetadata + AllMetas(ToProcess(files[j..], indexedFiles), config) == allMetas
      {
        EligiblePathsSnoc(files, j);
        VisitFile(files, j, allDocs, allNames, allMetas);
      }
      assert files[..|files|] == files;
      assert files[|files|..] == [];
      if documents != [] {
        tfidfRows := Some(|documents|);
      }
    }

    /** `query`: nothing on an unfitted index; otherwise the chunks ranked
        by the scores of the cleaned query, at most the effective `top_k`
        of them, each above the similarity threshold, best first. */
    method Query(userQuery: string, topK: Option<int>, similarity: string -> seq<real>)
      returns (results: seq<SearchResult>, ghost picked: seq<nat>)
      requires Valid()
      requires tfidfRows.Some? ==> |similarity(CleanQuery(userQuery))| == |documents|
      ensures tfidfRows.None? ==> results == []
      ensures tfidfRows.Some? ==>
        var scores := similarity(CleanQuery(userQuery));
        && IsRanking(scores, TakeCount(|scores|, EffectiveTopK(topK, config.topK)),
                     config.similarityThreshold, picked)
        && results == ResultsFor(documents, filenames, picked, scores)
    {
      if tfidfRows.None? || documents == [] {
        return [], [];
      }
      var k := EffectiveTopK(topK, config.topK);
      var cleaned := CleanQuery(userQuery);
      var scores := similarity(cleaned);
      var ranked := Rank(scores, TakeCount(|scores|, k), config.similarityThreshold);
      picked := ranked;
      results := CollectResults(documents, filenames, ranked, scores);
    }

    /** `generate_response`: the not-found reply exactly when the query
        has no results, otherwise the formatted results. */
    method GenerateResponse(userQuery: string, similarity: string -> seq<real>, fmt: real -> string)
      returns (response: string, ghost results: seq<SearchResult>)
      requires Valid()
      requires tfidfRows.Some? ==> |similarity(CleanQuery(userQuery))| == |documents|
      ensures response == NotFoundResponse(userQuery) <==> results == []
      ensures results != [] ==> response == ResponseHeader(userQuery) + ResultBlocks(results, fmt)
      ensures tfidfRows.None? ==> results == []
      ensures tfidfRows.Some? ==>
        var scores := similarity(CleanQuery(userQuery));
        exists picked ::
          && IsRanking(scores, TakeCount(|scores|, config.topK), config.similarityThreshold, picked)
          && results == ResultsFor(documents, filenames, picked, scores)
    {
      var rs, picked := Query(userQuery, None, similarity);
      results := rs;
      if rs == [] {
        response := NotFoundResponse(userQuery);
      } else {
        response := FormatResponse(userQuery, rs, fmt);
        FoundIsNotNotFound(userQuery, userQuery, ResultBlocks(rs, fmt));
      }
    }

    /** `get_stats`. */
    function GetStats(): (r: Stats)
      reads this
      ensures r.totalChunks == |documents|
      ensures forall f :: f in r.files <==> f in filenames
      ensures r.totalFiles == |r.files|
      ensures r.indexed <==> tfidfRows.Some?
    {
      Stats(|documents|, |Elements(filenames)|, Elements(filenames), tfidfRows.Some?)
    }

    /** The statistics are consistent: there are no more files than
        chunks, a non-empty index names at least one file, and an indexed
        engine has chunks. */
    lemma StatsConsistent()
      requires Valid()
      ensures GetStats().totalFiles <= GetStats().totalChunks
      ensures GetStats().totalChunks > 0 ==> GetStats().totalFiles >= 1
      ensures GetStats().indexed ==> GetStats().totalChunks > 0
      ensures forall i :: 0 <= i < |filenames| ==> filenames[i] in GetStats().files
    {
      ElementsBound(filenames);
    }
  }
}
