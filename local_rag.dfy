/** The earlier stand-alone retrieval engine of rag_engine.py (class
    `LocalRAG`).

    It indexes the corpus once, when it is built, with fixed settings: a
    200-character window moved 160 characters at a time, windows of more
    than 10 characters kept, a similarity floor of 0.02 and two results by
    default. Compared with the engine of core/rag_engine.py it recognises
    files by the end of their lower-cased name, ends every PDF page with a
    newline, keeps no metadata, indexes a path as often as the walk yields
    it, and passes `top_k` to the slice as it is. */
module LocalRag {
  import opened Common
  import opened RagEngine

  /** The loader's fixed chunking settings and the query's floor. */
  const LegacyConfig := RagConfig(200, 40, 10, 2, 0.02)

  /** The characters its query cleaner deletes, besides whitespace. */
  const LegacyStopChars: set<char> := {'什', '么', '是', '的', '？', '?', '吗', '如', '何'}

  predicate EndsWith(s: string, suffix: string) {
    |suffix| <= |s| && s[|s| - |suffix|..] == suffix
  }

  // -----------------------------------------------------------------------
  // Reading files

  /** The text the loader builds from a PDF: every page with text,
      followed by a newline, in page order. */
  function PagesText(pages: seq<string>): string {
    if pages == [] then []
    else
      var last := pages[|pages| - 1];
      PagesText(pages[..|pages| - 1]) + (if last != [] then last + "\n" else [])
  }

  /** The loader's page loop. */
  method ReadPages(pages: seq<string>) returns (text: string)
    ensures text == PagesText(pages)
  {
    text := "";
    for p := 0 to |pages|
      invariant text == PagesText(pages[..p])
    {
      assert pages[..p + 1][..p] == pages[..p];
      var pageText := pages[p];
      if pageText != [] {
        text := text + pageText + "\n";
      }
    }
    assert pages[..|pages|] == pages;
  }

  lemma {:induction false} PagesTextAppend(a: seq<string>, b: seq<string>)
    ensures PagesText(a + b) == PagesText(a) + PagesText(b)
    decreases |b|
  {
    if b == [] {
      assert a + b == a;
    } else {
      var b' := b[..|b| - 1];
      assert (a + b)[..|a + b| - 1] == a + b';
      assert (a + b)[|a + b| - 1] == b[|b| - 1];
      PagesTextAppend(a, b');
    }
  }

  lemma PagesTextCons(p: string, rest: seq<string>)
    ensures PagesText([p] + rest) == (if p != [] then p + "\n" else []) + PagesText(rest)
  {
    PagesTextAppend([p], rest);
    assert [p][..0] == [];
  }

  lemma NonEmptyCons(p: string, rest: seq<string>)
    ensures NonEmpty([p] + rest) == (if p == [] then [] else [p]) + NonEmpty(rest)
  {
    assert ([p] + rest)[1..] == rest;
  }

  lemma JoinCons(p: string, parts: seq<string>, sep: char)
    requires parts != []
    ensures Join([p] + parts, sep) == p + [sep] + Join(parts, sep)
  {
    assert ([p] + parts)[1..] == parts;
  }

  /** The PDF text of this engine is that of core/rag_engine.py with one
      more newline at its end (when some page has text). */
  lemma {:induction false} PagesTextIsJoinedPages(pages: seq<string>)
    ensures PagesText(pages) == if NonEmpty(pages) == [] then [] else Join(NonEmpty(pages), '\n') + "\n"
  {
    if pages != [] {
      var p := pages[0];
      var rest := pages[1..];
      assert pages == [p] + rest;
      PagesTextCons(p, rest);
      NonEmptyCons(p, rest);
      PagesTextIsJoinedPages(rest);
      var ne := NonEmpty(rest);
      if p == [] {
        assert NonEmpty(pages) == ne;
        assert PagesText(pages) == PagesText(rest);
      } else if ne == [] {
        assert NonEmpty(pages) == [p];
        assert PagesText(pages) == p + "\n";
      } else {
        assert NonEmpty(pages) == [p] + ne;
        JoinCons(p, ne, '\n');
        assert PagesText(pages) == p + "\n" + (Join(ne, '\n') + "\n");
      }
    }
  }

  /** The text `_load_and_index` reads from one file, or None when reading
      it raises (the file is then skipped). Other extensions read as "". */
  function LegacyText(f: CorpusFile): Option<string> {
    var name := Lower(f.name);
    if EndsWith(name, ".pdf") then
      match f.pdfPages
      case None => None
      case Some(pages) => Some(PagesText(pages))
    else if EndsWith(name, ".txt") || EndsWith(name, ".md") then f.text
    else Some("")
  }

  /** The chunks stored for one file. */
  function LegacyChunks(f: CorpusFile): seq<Chunk> {
    match LegacyText(f)
    case Some(t) => if t != [] then Chunks(t, LegacyConfig) else []
    case None => []
  }

  function LoadedDocs(fs: seq<CorpusFile>): seq<string> {
    if fs == [] then [] else ChunkDocs(LegacyChunks(fs[0])) + LoadedDocs(fs[1..])
  }

  function LoadedNames(fs: seq<CorpusFile>): seq<string> {
    if fs == [] then [] else Repeat(fs[0].name, |LegacyChunks(fs[0])|) + LoadedNames(fs[1..])
  }

  /** A file whose whole name is a supported extension is read by this
      engine and skipped by core/rag_engine.py, whose suffix rule gives such
      a name no suffix. */
  lemma BareExtensionName(path: string, body: string)
    ensures var f := CorpusFile(path, ".md", true, Some(body), None);
      LegacyText(f) == Some(body) && !Eligible(f)
  {
    var f := CorpusFile(path, ".md", true, Some(body), None);
    assert Lower(".md") == ".md";
    assert ".md"[..2] == ".m" && ".m"[..1] == ".";
    assert LastDot(".") == 0;
    assert LastDot(".m") == 0;
    assert LastDot(".md") == 0;
    assert Suffix(".md") == "";
  }

  /** A file met twice in the walk is indexed twice. */
  lemma RepeatedFileIndexedTwice(f: CorpusFile)
    ensures LoadedDocs([f, f]) == ChunkDocs(LegacyChunks(f)) + ChunkDocs(LegacyChunks(f))
  {
    var docs := ChunkDocs(LegacyChunks(f));
    assert [f, f][1..] == [f];
    assert [f][1..] == [];
    assert LoadedDocs([f]) == docs + [] == docs;
  }

  // -----------------------------------------------------------------------
  // Loop steps

  lemma LoadStep(files: seq<CorpusFile>, j: nat)
    requires j < |files|
    ensures LoadedDocs(files[j..]) == ChunkDocs(LegacyChunks(files[j])) + LoadedDocs(files[j + 1..])
    ensures LoadedNames(files[j..]) == Repeat(files[j].name, |LegacyChunks(files[j])|) + LoadedNames(files[j + 1..])
  {
    assert files[j..][0] == files[j] && files[j..][1..] == files[j + 1..];
  }

  /** One step of the loader's chunk loop over its two lists. */
  lemma LegacyChunkStep(text: string, i: nat, name: string,
                        docs: seq<string>, names: seq<string>, allDocs: seq<string>, allNames: seq<string>)
    requires i < |text|
    requires docs + ChunkDocs(ChunksFrom(text, LegacyConfig, i)) == allDocs
    requires names + Repeat(name, |ChunksFrom(text, LegacyConfig, i)|) == allNames
    ensures
      var end := Min(i + 200, |text|);
      var rest := ChunksFrom(text, LegacyConfig, i + 160);
      if end - i > 10 then
        && (docs + [text[i..end]]) + ChunkDocs(rest) == allDocs
        && (names + [name]) + Repeat(name, |rest|) == allNames
      else
        && docs + ChunkDocs(rest) == allDocs
        && names + Repeat(name, |rest|) == allNames
  {
    var cfg := LegacyConfig;
    var end := Min(i + 200, |text|);
    var head := Window(text, cfg, i);
    var rest := ChunksFrom(text, cfg, i + 160);
    assert ChunksFrom(text, cfg, i) == head + rest;
    ChunkListsAppend(head, rest, name);
    if end - i > 10 {
      assert ChunkDocs(head) == [text[i..end]];
      assert Repeat(name, |head|) == [name];
      Advance(docs, [text[i..end]], ChunkDocs(rest), ChunkDocs(head + rest), allDocs);
      Advance(names, [name], Repeat(name, |rest|), Repeat(name, |head + rest|), allNames);
    } else {
      assert head == [] && head + rest == rest;
    }
  }

  /** Both lists have an entry per chunk, and every chunk has the length
      the loader keeps. */
  ghost predicate LegacyLockstep(docs: seq<string>, names: seq<string>) {
    |names| == |docs| && forall i :: 0 <= i < |docs| ==> 10 < |docs[i]| <= 200
  }

  // -----------------------------------------------------------------------
  // Responses

  function LegacyNotFound(q: string): string {
    "🤖 **AI 分析**：在现有课程资料中暂未找到关于“" + q + "”的具体描述。建议检查 CV/assets/corpus 目录下的文档内容。"
  }

  function LegacyHeader(q: string): string {
    "🤖 **基于校内课程资料的 AI 回复**：\n\n关于“**" + q + "**”，我在资料库中找到了相关线索：\n\n"
  }

  function LegacyBlock(res: SearchResult, fmt: real -> string): string {
    "> **📑 来源：" + res.source + "** (匹配度: " + fmt(res.score) + ")\n"
    + "> *“..." + Flatten(res.content) + "...”*\n\n"
  }

  function LegacyBlocks(rs: seq<SearchResult>, fmt: real -> string): string {
    if rs == [] then [] else LegacyBlocks(rs[..|rs| - 1], fmt) + LegacyBlock(rs[|rs| - 1], fmt)
  }

  lemma LegacyFoundIsNotNotFound(q: string, q': string, tail: string)
    ensures LegacyHeader(q) + tail != LegacyNotFound(q')
  {
    assert (LegacyHeader(q) + tail)[4] == '基';
    assert LegacyNotFound(q')[4] == 'A';
  }

  /** The formatting loop of `generate_response`. */
  method FormatLegacy(q: string, results: seq<SearchResult>, fmt: real -> string) returns (response: string)
    ensures response == LegacyHeader(q) + LegacyBlocks(results, fmt)
  {
    response := LegacyHeader(q);
    for i := 0 to |results|
      invariant response == LegacyHeader(q) + LegacyBlocks(results[..i], fmt)
    {
      assert results[..i + 1][..i] == results[..i];
      response := response + LegacyBlock(results[i], fmt);
    }
    assert results[..|results|] == results;
  }

  // -----------------------------------------------------------------------
  // The engine

  class LocalRAG {
    var documents: seq<string>
    var filenames: seq<string>
    /** `tfidf_matrix`: None, or Some(number of rows it was fitted on). */
    var tfidfRows: Option<nat>

    ghost predicate Lockstep()
      reads this
    {
      LegacyLockstep(documents, filenames)
    }

    /** The matrix, once fitted, has a row per stored chunk. */
    ghost predicate Valid()
      reads this
    {
      Lockstep() && (tfidfRows.Some? ==> tfidfRows.value == |documents| > 0)
    }

    /** `__init__`: empty lists, then `_load_and_index`. */
    constructor (corpusExists: bool, files: seq<CorpusFile>)
      ensures Valid()
      ensures documents == (if corpusExists then LoadedDocs(files) else [])
      ensures filenames == (if corpusExists then LoadedNames(files) else [])
      ensures tfidfRows == (if documents == [] then None else Some(|documents|))
    {
      documents, filenames := [], [];
      tfidfRows := None;
      new;
      LoadAndIndex(corpusExists, files);
    }

    method Append(doc: string, name: string)
      requires Lockstep() && 10 < |doc| <= 200
      modifies this
      ensures Lockstep()
      ensures documents == old(documents) + [doc] && filenames == old(filenames) + [name]
      ensures tfidfRows == old(tfidfRows)
    {
      documents := documents + [doc];
      filenames := filenames + [name];
    }

    /** The loader's chunk loop for one file's text. */
    method IndexText(text: string, name: string)
      requires Lockstep()
      modifies this
      ensures Lockstep()
      ensures documents == old(documents) + ChunkDocs(Chunks(text, LegacyConfig))
      ensures filenames == old(filenames) + Repeat(name, |Chunks(text, LegacyConfig)|)
      ensures tfidfRows == old(tfidfRows)
    {
      assert LegacyConfig.Valid() && LegacyConfig.Step() == 160;
      assert Chunks(text, LegacyConfig) == ChunksFrom(text, LegacyConfig, 0);
      ghost var allDocs := old(documents) + ChunkDocs(Chunks(text, LegacyConfig));
      ghost var allNames := old(filenames) + Repeat(name, |Chunks(text, LegacyConfig)|);
      var chunkSize, overlap := 200, 40;
      var i := 0;
      while i < |text|
        invariant Lockstep() && tfidfRows == old(tfidfRows)
        invariant documents + ChunkDocs(ChunksFrom(text, LegacyConfig, i)) == allDocs
        invariant filenames + Repeat(name, |ChunksFrom(text, LegacyConfig, i)|) == allNames
        decreases |text| - i
      {
        var end := Min(i + chunkSize, |text|);
        var chunk := text[i..end];
        LegacyChunkStep(text, i, name, documents, filenames, allDocs, allNames);
        if |chunk| > 10 {
          Append(chunk, name);
        }
        i := i + (chunkSize - overlap);
      }
      assert ChunksFrom(text, LegacyConfig, i) == [];
    }

    /** `_load_and_index`: every file of the walk, in order, has its chunks
        appended; the matrix is fitted when there is at least one chunk. */
    method LoadAndIndex(corpusExists: bool, files: seq<CorpusFile>)
      requires Lockstep()
      modifies this
      ensures Lockstep()
      ensures documents == old(documents) + (if corpusExists then LoadedDocs(files) else [])
      ensures filenames == old(filenames) + (if corpusExists then LoadedNames(files) else [])
      ensures tfidfRows == (if corpusExists && documents != [] then Some(|documents|) else old(tfidfRows))
    {
      if !corpusExists {
        return;
      }
      ghost var allDocs := old(documents) + LoadedDocs(files);
      ghost var allNames := old(filenames) + LoadedNames(files);
      for j := 0 to |files|
        invariant Lockstep() && tfidfRows == old(tfidfRows)
        invariant documents + LoadedDocs(files[j..]) == allDocs
        invariant filenames + LoadedNames(files[j..]) == allNames
      {
        var f := files[j];
        LoadStep(files, j);
        var text: Option<string> := Some("");
        var lower := Lower(f.name);
        if EndsWith(lower, ".pdf") {
          if f.pdfPages.Some? {
            var t := ReadPages(f.pdfPages.value);
            text := Some(t);
          } else {
            text := None;
          }
        } else if EndsWith(lower, ".txt") || EndsWith(lower, ".md") {
          text := f.text;
        }
        assert text == LegacyText(f);
        ghost var cs := LegacyChunks(f);
        ghost var docs, names := documents, filenames;
        Advance(docs, ChunkDocs(cs), LoadedDocs(files[j + 1..]), LoadedDocs(files[j..]), allDocs);
        Advance(names, Repeat(f.name, |cs|), LoadedNames(files[j + 1..]), LoadedNames(files[j..]), allNames);
        if text.Some? && text.value != [] {
          IndexText(text.value, f.name);
        } else {
          assert cs == [] && docs + ChunkDocs(cs) == docs && names + Repeat(f.name, |cs|) == names;
        }
      }
      assert files[|files|..] == [];
      if documents != [] {
        tfidfRows := Some(|documents|);
      }
    }

    /** `query`: nothing on an unfitted index; otherwise the `top_k` best
        chunks for the cleaned query that score above 0.02, best first. A
        `top_k` of 0 selects nothing. */
    method Query(userQuery: string, topK: int, similarity: string -> seq<real>)
      returns (results: seq<SearchResult>, ghost picked: seq<nat>)
      requires Valid()
      requires tfidfRows.Some? ==> |similarity(CleanWith(userQuery, LegacyStopChars))| == |documents|
      ensures tfidfRows.None? ==> results == []
      ensures tfidfRows.Some? ==>
        var scores := similarity(CleanWith(userQuery, LegacyStopChars));
        && IsRanking(scores, TakeCount(|scores|, topK), 0.02, picked)
        && results == ResultsFor(documents, filenames, picked, scores)
      ensures topK == 0 ==> results == []
    {
      if tfidfRows.None? || documents == [] {
        return [], [];
      }
      var q := CleanWith(userQuery, LegacyStopChars);
      var scores := similarity(q);
      var ranked := Rank(scores, TakeCount(|scores|, topK), 0.02);
      picked := ranked;
      results := CollectResults(documents, filenames, ranked, scores);
    }

    /** `generate_response`: the not-found reply exactly when the two-result
        query finds nothing, otherwise the header and one block per
        result. */
    method GenerateResponse(userQuery: string, similarity: string -> seq<real>, fmt: real -> string)
      returns (response: string, ghost results: seq<SearchResult>)
      requires Valid()
      requires tfidfRows.Some? ==> |similarity(CleanWith(userQuery, LegacyStopChars))| == |documents|
      ensures response == LegacyNotFound(userQuery) <==> results == []
      ensures results != [] ==> response == LegacyHeader(userQuery) + LegacyBlocks(results, fmt)
      ensures tfidfRows.None? ==> results == []
      ensures tfidfRows.Some? ==>
        var scores := similarity(CleanWith(userQuery, LegacyStopChars));
        exists picked ::
          && IsRanking(scores, TakeCount(|scores|, 2), 0.02, picked)
          && results == ResultsFor(documents, filenames, picked, scores)
    {
      var rs, picked := Query(userQuery, 2, similarity);
      results := rs;
      if rs == [] {
        response := LegacyNotFound(userQuery);
      } else {
        response := FormatLegacy(userQuery, rs, fmt);
        LegacyFoundIsNotNotFound(userQuery, userQuery, LegacyBlocks(rs, fmt));
      }
    }
  }
}
