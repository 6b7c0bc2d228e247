# Journalism CV assistant: a verified model of its core

This project models the deterministic core of a Streamlit application that helps journalism and media students build a CV and answers their questions from a local corpus of course material. Five parts of the program are modelled.

## What is modelled

- **The retrieval engine** `RAGEngine` (`rag_engine.dfy`, module `RagEngine`), from `core/rag_engine.py`:
  - It cuts every supported corpus file into overlapping character windows and keeps three parallel lists about the chunks.
  - It records which paths are indexed and fits a TF-IDF matrix over the chunks.
  - It answers a query with the best-scoring chunks above a similarity floor, formatted as a reply or as a "not found" reply.
  - The class keeps the lists as `seq` fields. Every indexing method is proved against specification functions of the walk (`ToProcess`, `AllDocs`, `Chunks`).
- **The older stand-alone engine** `LocalRAG` (`local_rag.dfy`, module `LocalRag`), from `rag_engine.py`. It reuses the chunk and ranking definitions and states where it differs:
  - it recognises files by their name's ending;
  - it puts a newline after every PDF page;
  - it keeps no metadata;
  - it indexes a repeated path twice;
  - it passes `top_k` to the slice unchanged.
- **The data manager** `DataManager` (`data_manager.dfy`), from `core/data_manager.py`:
  - its two time-limited caches are `Cache` objects that the methods mutate;
  - it reads version numbers from `config_<id>_v<n>` file stems, sorts a student's history stably by version and allocates the next version;
  - it lists known students;
  - it computes competency scores and the best and worst dimension.
- **The user registry** `UserManager` (`user_manager.dfy`), from `core/user_manager.py`:
  - user-id validation, registration, login counting and lookup;
  - duplicate-free resume-version lists;
  - the admin listing and the statistics.
  - The dictionary is kept as its keys in insertion order (`ids`) plus a `map`.
- **The helpers of the resume editor** (`resume_builder.dfy`, module `ResumeBuilder`), from `views/resume_builder.py`:
  - student-id sanitising and the save decision;
  - mapping a major's display name to its key;
  - parsing multi-line text areas into lists of lines;
  - the panel toggle buttons;
  - the delete and add edits on the CV's lists.

`common.dfy` (module `Common`) gives Python's string semantics the model needs: `str.isspace`, `strip`, `split` and `join` on one character, ASCII `lower`, substring search, `int()` and `str()` on naturals, plus an `Option` type and a JSON value type.

Parameters stand in for everything outside the core:
- The TF-IDF scores of a query are a function `similarity` from the cleaned query to one `real` per chunk.
- The corpus walk is a sequence of `CorpusFile` records, each with its path, name, whether it is a regular file, its text and its PDF pages.
- The clock is `now`. The password hash is `hash`, `json.dumps` is `dumps`, the two-decimal score formatting is `fmt`.
- Reading a JSON file is `load`, and whether a write succeeds is `save` or `saved`.

## Model

| member | source | states |
|---|---|---|
| `Common.IsSpace` | core/rag_engine.py:227 | `str.isspace()` of one character: the Unicode whitespace that `\s` matches and `strip()` removes (tab to carriage return, the separators 0x1C-0x1F, space, 0x85, no-break spaces, the Unicode spaces 0x2000-0x200A, the line and paragraph separators, 0x205F, 0x3000) |
| `Common.Lower` | core/data_manager.py:260 | `str.lower()` for ASCII letters: same length, each `A`-`Z` lowered, every other character kept |
| `Common.Strip` | views/resume_builder.py:639 | `str.strip()`: the string without leading and trailing whitespace (its idempotence and fixed points are `StripIdempotent` and `StripFixed`) |
| `Common.Split` | core/data_manager.py:149 | `s.split(sep)` on one character: never empty, no part holds the separator, `""` gives `[""]` |
| `Common.Join` | views/resume_builder.py:634 | `sep.join(parts)`: the parts with one separator between each two (inverse of `Split` by `JoinSplit` and `SplitJoin`) |
| `Common.ParseInt` | core/data_manager.py:151 | `int(s)` on a `str`: surrounding whitespace, an optional sign, ASCII digits with single underscores between digits; None where `int()` raises `ValueError` |
| `Common.JoinSplit` | core/data_manager.py:221-227 | `"_".join(s.split("_"))` gives `s` back, so an id containing `_` survives the split of a stem |
| `Common.SplitJoin` | views/resume_builder.py:634-639 | splitting the newline-join of parts that hold no newline gives the parts back |
| `Common.ParseIntDecimal` | core/data_manager.py:184-190 | `int()` of the digits that `f"v{n}"` writes gives `n` back |
| `RagEngine.Window` | core/rag_engine.py:175-183 | the window at offset `i`: `text[i:i+chunk_size]` with its offsets, kept only when longer than `min_chunk_length` |
| `RagEngine.ChunksFrom` | core/rag_engine.py:174-183 | the kept windows at `i`, `i + step`, ... below `len(text)`, in order |
| `RagEngine.Chunks` | core/rag_engine.py:167-183 | the chunks `_chunk_text` stores; a zero step (where `range` raises and `_process_file` catches) or a negative one (an empty range) stores none; its shape is `ChunksShape` and its starts `ChunkStartsExact` |
| `RagEngine.ChunksShape` | core/rag_engine.py:174-183 | every stored chunk is `text[start:end]` with `end = min(start + chunk_size, len(text))`, is longer than `min_chunk_length`, starts on the step grid, and starts come in increasing order |
| `RagEngine.ChunkStartsExact` | core/rag_engine.py:174-176 | a chunk starts at `s` if and only if `s` is a multiple of `chunk_size - chunk_overlap` below `len(text)` whose window is longer than the minimum |
| `RagEngine.TrailingWindowKept` | core/rag_engine.py:174-176 | with the shipped settings a 360-character text gets a chunk at offset 320, inside the previous window |
| `RagEngine.Suffix` | core/rag_engine.py:108 | `Path.suffix`: from the last dot of the name when that dot is neither its first nor its last character, otherwise "" |
| `RagEngine.LastDot` | core/rag_engine.py:134 | the index of the last `.` of the name, or -1; no dot follows it |
| `RagEngine.Eligible` | core/rag_engine.py:108 | the walk indexes a regular file whose lower-cased suffix is `.pdf`, `.txt` or `.md` |
| `RagEngine.ExtractText` | core/rag_engine.py:132-165 | a PDF gives its pages with text joined by newlines, or "" when the PDF library is missing or reading fails; a `.txt` or `.md` file gives its text, or None when opening it raises; any other suffix gives "" |
| `RagEngine.ReindexProcessesNothing` | core/rag_engine.py:107-111 | once every eligible path of the walk is indexed, a second pass processes no file |
| `RagEngine.Scrub` | core/rag_engine.py:227-228 | deleting the class leaves no character of it and never lengthens the query |
| `RagEngine.ScrubAppend` | core/rag_engine.py:227-228 | deletion works character by character: it distributes over concatenation |
| `RagEngine.ScrubEmpty` | core/rag_engine.py:227-228 | nothing is left exactly when every character is a stop character or whitespace |
| `RagEngine.CleanWith` | core/rag_engine.py:224-229 | the cleaned query is the original or contains no character of the class; it is non-empty whenever the input is |
| `RagEngine.CleanQuery` | core/rag_engine.py:224-229 | `CleanWith` over the engine's eleven stop characters and whitespace |
| `RagEngine.CleanIdempotent` | core/rag_engine.py:224-229 | cleaning twice is cleaning once |
| `RagEngine.CleanFallback` | core/rag_engine.py:229 | a query made only of class characters is searched as it is |
| `RagEngine.EffectiveTopK` | core/rag_engine.py:199 | `top_k or default`: a missing or zero `top_k` takes the configured default |
| `RagEngine.TakeCount` | core/rag_engine.py:209 | the slice `argsort()[:-k-1:-1]` keeps at most `n` indices, and at most `k` for `k >= 0` |
| `RagEngine.ArgMax` | core/rag_engine.py:209 | finds the first remaining position whose score is not below any other remaining one |
| `RagEngine.TopIndices` | core/rag_engine.py:209 | the first `count` indices of the descending argsort: distinct, in non-increasing score order, none left out scoring more than one taken |
| `RagEngine.PrefixRanking` | core/rag_engine.py:211-220 | keeping the leading top indices above the threshold is a valid ranking |
| `RagEngine.IsRanking` | core/rag_engine.py:209-220 | what the ranking may return: at most `count` distinct indices scoring above the threshold, best first; no unpicked index outscores a picked one; fewer than `count` only when every unpicked index is at or below the threshold |
| `RagEngine.Rank` | core/rag_engine.py:209-220 | at most `count` distinct indices, each scoring above the threshold, best first; no other index outscores a chosen one; fewer than `count` only when every other index is at or below the threshold |
| `RagEngine.NotFoundResponse` | core/rag_engine.py:248-256 | the not-found reply, with the query between the corner brackets |
| `RagEngine.ResponseHeader` | core/rag_engine.py:260-261 | the title line and the line naming the query in bold |
| `RagEngine.Flatten` | core/rag_engine.py:264 | same length, no newline, every other character kept |
| `RagEngine.ResultBlock` | core/rag_engine.py:263-266 | the two quoted lines of one result: its source, its formatted score, and its content with newlines flattened |
| `RagEngine.FormatResponse` | core/rag_engine.py:258-268 | the reply is the header followed by one block per result, in rank order |
| `RagEngine.FoundIsNotNotFound` | core/rag_engine.py:241-256 | a formatted reply never equals the not-found reply |
| `RagEngine.RAGEngine.constructor` | core/rag_engine.py:76-98 | starts empty, then holds exactly the chunks of one indexing pass; the matrix is fitted exactly when there are chunks |
| `RagEngine.RAGEngine.Append` | core/rag_engine.py:177-183 | appends one entry to each of the three lists, keeps them in lockstep and changes no earlier entry |
| `RagEngine.RAGEngine.StoreWindow` | core/rag_engine.py:175-183 | one loop step: a window longer than the minimum moves from the pending chunks to the stored ones |
| `RagEngine.RAGEngine.ChunkText` | core/rag_engine.py:167-183 | appends exactly `Chunks(text)` to `documents`, the file name once per chunk to `filenames`, and each chunk's offsets and name to `chunk_metadata` |
| `RagEngine.RAGEngine.ProcessFile` | core/rag_engine.py:118-141 | stores the chunks of the extracted text; nothing when extraction raises or gives "" |
| `RagEngine.RAGEngine.VisitFile` | core/rag_engine.py:108-112 | one walk step: an eligible, new path is processed and recorded; an eligible path is recorded in any case |
| `RagEngine.RAGEngine.IndexCorpus` | core/rag_engine.py:100-116 | appends the chunks of the eligible, not yet indexed files in walk order; adds every eligible path to the indexed set; refits only when there are chunks; changes nothing without a corpus |
| `RagEngine.ResultsFor` | core/rag_engine.py:214-220 | one `SearchResult` per picked index, in order: that chunk's filename, its stripped text and its score |
| `RagEngine.CollectResults` | core/rag_engine.py:211-220 | one result per ranked index, in rank order, carrying that chunk's filename, its stripped text and its score |
| `RagEngine.RAGEngine.Query` | core/rag_engine.py:185-222 | `[]` on an unfitted index; otherwise the results of a valid ranking of the cleaned query's scores, with a falsy `top_k` replaced by the default; each result carries `filenames[idx]`, the stripped `documents[idx]` and its score |
| `RagEngine.RAGEngine.GenerateResponse` | core/rag_engine.py:231-246 | the not-found reply exactly when the query has no results; otherwise the formatted results |
| `RagEngine.RAGEngine.GetStats` | core/rag_engine.py:270-277 | the number of chunks, exactly the files named by chunks and their count, and whether the matrix is fitted |
| `RagEngine.RAGEngine.StatsConsistent` | core/rag_engine.py:270-277 | there are no more files than chunks; a non-empty index names a file; an indexed engine has chunks; every chunk's file is listed |
| `LocalRag.ReadPages` | rag_engine.py:30-33 | the PDF loop builds every page with text followed by a newline, in page order |
| `LocalRag.PagesTextIsJoinedPages` | rag_engine.py:27-33 | this PDF text is the newline-join of the pages with text, plus one final newline |
| `LocalRag.LegacyText` | rag_engine.py:24-36 | a name ending in `.pdf` (any case) gives the pages text, or None when reading raises; `.txt` or `.md` gives the file's text, or None; anything else gives "" |
| `LocalRag.LegacyChunks` | rag_engine.py:38-46 | the windows of the file's text with the fixed settings 200/40/10, nothing for an empty or unreadable file |
| `LocalRag.BareExtensionName` | rag_engine.py:34-36 | a file named `.md` is read here but is not eligible in `core/rag_engine.py` |
| `LocalRag.RepeatedFileIndexedTwice` | rag_engine.py:22-46 | a file listed twice by the walk has its chunks stored twice |
| `LocalRag.LegacyNotFound` | rag_engine.py:82-83 | the one-line not-found reply, with the query between curly quotes |
| `LocalRag.LegacyHeader` | rag_engine.py:85-86 | the title line and the line naming the query, ending in "相关线索" |
| `LocalRag.LegacyBlock` | rag_engine.py:88-91 | one result's source, formatted score and flattened content, in curly quotes |
| `LocalRag.LegacyFoundIsNotNotFound` | rag_engine.py:82-86 | a formatted reply never equals the not-found reply |
| `LocalRag.FormatLegacy` | rag_engine.py:85-93 | the reply is the header followed by one block per result, in order |
| `LocalRag.LocalRAG.constructor` | rag_engine.py:9-16 | holds the chunks of every file of the walk; the matrix is fitted exactly when there are chunks |
| `LocalRag.LocalRAG.Append` | rag_engine.py:45-46 | appends to both lists in lockstep |
| `LocalRag.LocalRAG.IndexText` | rag_engine.py:38-46 | appends the windows at 0, 160, 320, ... of length up to 200 and longer than 10, with the file name once per chunk |
| `LocalRag.LocalRAG.LoadAndIndex` | rag_engine.py:18-52 | appends the chunks of every file of the walk, in order; refits only when there are chunks; changes nothing without a corpus |
| `LocalRag.LocalRAG.Query` | rag_engine.py:54-77 | `[]` when unfitted; otherwise a valid ranking with floor 0.02 and count from the slice; a `top_k` of 0 gives `[]` |
| `LocalRag.LocalRAG.GenerateResponse` | rag_engine.py:79-93 | the not-found reply exactly when the two-result query finds nothing; otherwise the formatted results |
| `DataManager.IsExpired` | core/data_manager.py:33-35 | an entry is expired when strictly more than the time to live has passed since its timestamp |
| `DataManager.ExpiryBoundary` | core/data_manager.py:33-35 | an entry exactly `CACHE_TTL` old is valid, and an expired entry stays expired |
| `DataManager.Lookup` | core/data_manager.py:74-81 | `_get_from_cache` returns the data of a present, unexpired entry, and None otherwise |
| `DataManager.AfterGet` | core/data_manager.py:74-81 | `_get_from_cache` deletes the key's entry when it is expired, and changes nothing else |
| `DataManager.GetOutcomes` | core/data_manager.py:74-81 | an absent key gives None and no change; a live key gives its data and no change; an expired key gives None and is deleted; other keys are untouched |
| `DataManager.GetIdempotent` | core/data_manager.py:74-81 | reading the same key twice at the same time is reading it once |
| `DataManager.CvConfig` | core/data_manager.py:95-116 | `load_cv_config` returns the cached data on a hit, otherwise the file's data |
| `DataManager.SecondLoadIsCached` | core/data_manager.py:95-116 | after a miss that read non-empty data, a load within the TTL returns that data without reading the file |
| `DataManager.EmptyConfigNotCached` | core/data_manager.py:113-114 | empty data is not cached |
| `DataManager.Evict` | core/data_manager.py:200-201 | the key is gone and every other key keeps its entry |
| `DataManager.Cache.constructor` | core/data_manager.py:71-72 | a cache starts empty |
| `DataManager.Cache.Discard` | core/data_manager.py:200-201 | deletes the key's entry if it has one |
| `DataManager.VersionNumber` | core/data_manager.py:146-151 | the last `_`-part of the stem without its first character, read by `int()`; None where `int()` raises |
| `DataManager.VersionKey` | core/data_manager.py:146-152 | `version_key`: the version number, or 0 when it cannot be read |
| `DataManager.VersionStemRoundTrip` | core/data_manager.py:181-191 | the stem written for version `n` has last part `v<n>` and reads back as `n`, whatever the student id |
| `DataManager.SortByKey` | core/data_manager.py:155 | `list.sort(key=...)` as an insertion sort (its order, permutation and stability are the next three rows) |
| `DataManager.SortByKeySorted` | core/data_manager.py:155 | the sort orders by version key |
| `DataManager.SortByKeyPerm` | core/data_manager.py:155 | the sort keeps every file, as often as it occurs |
| `DataManager.SortByKeyStable` | core/data_manager.py:155 | files with equal keys keep their glob order |
| `DataManager.History` | core/data_manager.py:157-165 | the loop over the files: each file with non-empty data gives that data tagged `_version` with the stem's last part, in file order |
| `DataManager.SortedHistory` | core/data_manager.py:155-165 | the history holds the tagged data of the non-empty files in ascending version order |
| `DataManager.MaxParsedBounds` | core/data_manager.py:178-188 | the maximum is at least every parsed version and is 0 or one of them |
| `DataManager.MaxVersion` | core/data_manager.py:178-188 | every readable version number is at most `max_version`, which is 0 or one of them |
| `DataManager.VersionKeyAtMost` | core/data_manager.py:178-188 | no file's version key exceeds `max_version` |
| `DataManager.NextVersion` | core/data_manager.py:178-190 | `v` followed by one more than the largest readable version number, or `v1` when there is none |
| `DataManager.NextVersionIsNewest` | core/data_manager.py:190-191 | the new file's version is `max_version + 1`, strictly above every existing file's key |
| `DataManager.ArchiveId` | core/data_manager.py:220-227 | an id only for a stem of at least three parts; its own parts are the stem's middle parts, and the stem is its head, the id and its version joined by `_` |
| `DataManager.ArchiveIdOfVersionStem` | core/data_manager.py:218-230 | the stem of every saved version gives back its student id, even an id containing `_` |
| `DataManager.MatchCount` | core/data_manager.py:268 | at most one match per keyword |
| `DataManager.MatchCountExtremes` | core/data_manager.py:268 | the count is the number of keywords exactly when all match, and 0 exactly when none does |
| `DataManager.ProfileFor` | core/data_manager.py:254-255 | the major's entry of the matrix, else journalism's, else an empty profile |
| `DataManager.DimScore` | core/data_manager.py:271-272 | the score is at most 100, at least the capped baseline, and is 100 or baseline + 5 per match; the baseline is a JSON number and may have a fraction |
| `DataManager.ScoresKeys` | core/data_manager.py:262-274 | there is a score for a label exactly when some dimension has that label |
| `DataManager.ScoresLastWins` | core/data_manager.py:263-272 | a label's score is that of the last dimension with that label |
| `DataManager.ScoresBounded` | core/data_manager.py:271-272 | every score is between the capped baseline and 100 |
| `DataManager.CompetencyScores` | core/data_manager.py:240-274 | the dimensions of `ProfileFor` scored in order over the lower-cased serialised CV, each written to its label |
| `DataManager.NumericScores` | core/data_manager.py:286-287 | the entries whose value is a number or a boolean, in order, and never more entries than given |
| `DataManager.FirstMax` | core/data_manager.py:292 | the first entry with the largest score |
| `DataManager.FirstMin` | core/data_manager.py:293 | the first entry with the smallest score |
| `DataManager.Extremes` | core/data_manager.py:283-294 | none exactly when no score is numeric; otherwise a dimension with maximal score and one with minimal score |
| `DataManager.CompetencyFeedback` | core/data_manager.py:276-298 | empty highlight and suggestion without numeric scores; otherwise the texts naming the first best and the first worst dimension |
| `DataManager.FeedbackEmptyIff` | core/data_manager.py:283-290 | the feedback is empty exactly when no score is numeric |
| `DataManager.FeedbackNamesExtremes` | core/data_manager.py:292-298 | the highlight names a dimension with maximal score and the suggestion one with minimal score |
| `DataManager.NonNumericIgnored` | core/data_manager.py:286-287 | a non-numeric entry such as a stage name does not change the numeric scores |
| `DataManager.DataManager.constructor` | core/data_manager.py:69-72 | two distinct, empty caches |
| `DataManager.DataManager.GetFromCache` | core/data_manager.py:74-81 | returns `Lookup` and leaves the cache as `AfterGet` (see `GetOutcomes`) |
| `DataManager.DataManager.SetCache` | core/data_manager.py:83-85 | overwrites only the given key, stamped with the current time |
| `DataManager.DataManager.ClearCache` | core/data_manager.py:87-91 | both caches are empty |
| `DataManager.DataManager.LoadCvConfig` | core/data_manager.py:95-116 | returns the cached data or the file's data; caches the data on a miss when it is non-empty |
| `DataManager.DataManager.LoadStudentHistory` | core/data_manager.py:133-167 | the non-empty files, sorted stably by version key, each tagged `_version` with its last part |
| `DataManager.DataManager.TagNonEmpty` | core/data_manager.py:157-165 | the loop builds the history of the files in their order |
| `DataManager.DataManager.FindMaxVersion` | core/data_manager.py:178-188 | the loop computes the largest parsable version number, or 0 |
| `DataManager.DataManager.WriteNextVersion` | core/data_manager.py:190-198 | writes the data tagged with the next version to that version's file and reports the write |
| `DataManager.DataManager.SaveStudentVersion` | core/data_manager.py:169-203 | on a successful write returns the next version and drops the student's cache entry; otherwise returns "" and changes nothing |
| `DataManager.DataManager.GetAvailableStudents` | core/data_manager.py:205-236 | keeps the four built-in students and their labels; adds exactly the ids read from archived stems, never overwriting |
| `DataManager.DataManager.CalculateCompetencyScores` | core/data_manager.py:240-274 | the loop computes the scores of the major's profile, or journalism's, over the lower-cased text |
| `UserManager.RegistrySize` | core/user_manager.py:250 | the number of users is the number of ids |
| `UserManager.ValidateUserIdAsWritten` | core/user_manager.py:99-103 | `re.match(r'^[a-zA-Z0-9_]{3,20}$', id)`: 3 to 20 word characters, optionally followed by one final newline, which `$` lets through |
| `UserManager.ValidateUserId` | core/user_manager.py:101-102 | the check the comment describes: 3 to 20 word characters and nothing else |
| `UserManager.NewlineIdAccepted` | core/user_manager.py:99-103 | as written, the check accepts `"abc\n"` |
| `UserManager.ValidateUserIdCorrected` | core/user_manager.py:99-103 | the corrected check accepts exactly what the written one accepts without a final newline |
| `UserManager.ValidIdIsBare` | core/user_manager.py:99-103 | an accepted id has 3 to 20 characters, no whitespace, and `strip` leaves it alone |
| `UserManager.CheckRegistration` | core/user_manager.py:126-141 | accepted exactly when the id passes the check as written and is new, the stripped name has 2 or more characters and the password 4 or more; `InvalidId` exactly when the id check fails; `Taken` only for a registered id |
| `UserManager.CheckRegistrationCorrected` | core/user_manager.py:126-141 | the same checks with the corrected id check: accepted exactly when the id has 3 to 20 word characters only and is new, and the name and password are long enough |
| `UserManager.RegistrationCorrected` | core/user_manager.py:99-141 | the corrected registration accepts exactly what the one as written accepts, except an id ending in a newline |
| `UserManager.NewlineIdRegisters` | core/user_manager.py:99-155 | as written, registering `"abc\n"` with name `Alice` and password `pass` is accepted and stores that key; the corrected check rejects it |
| `UserManager.RegisterMessage` | core/user_manager.py:127-161 | the message for each failed check, and for an accepted registration the success or the save-failure message |
| `UserManager.AfterRegister` | core/user_manager.py:143-155 | the users after `register`: the new entry added when the checks pass, whether or not the file is written; unchanged otherwise |
| `UserManager.RegisterEffect` | core/user_manager.py:143-155 | an accepted registration adds exactly the new id, with the stripped name, no logins, no versions and the password's hash; a rejected one changes nothing; other entries are untouched |
| `UserManager.UserOf` | core/user_manager.py:29-42 | the `User` built from an entry: None when `user_id` or `name` is missing (the `KeyError`), the dataclass defaults for the rest, an empty creation time replaced by the current time |
| `UserManager.AfterLogin` | core/user_manager.py:174-185 | the users after `login`: with the right password the entry's login time is set and its count raised by one; unchanged otherwise |
| `UserManager.LoginOutcome` | core/user_manager.py:163-202 | "用户不存在" for an unknown id, "密码错误" for a wrong password, otherwise the session, or `LoginIncomplete` for the `KeyError` of an entry without id or name |
| `UserManager.LoginEffect` | core/user_manager.py:174-186 | the right password adds exactly one login and records the time; anything else changes nothing; other users are untouched |
| `UserManager.LoginSessionIff` | core/user_manager.py:174-202 | a session exactly when the password is right and the entry has id and name; it is authenticated and carries the new login count |
| `UserManager.RegisterThenLogin` | core/user_manager.py:163-202 | logging in right after registering opens a session with one login and no versions |
| `UserManager.FetchUser` | core/user_manager.py:204-219 | None exactly for an unknown id; a user exactly when the entry has both `user_id` and `name`, otherwise the `KeyError`; a found user mirrors the entry, with defaults for missing keys and `now` for a missing or empty `created_at` |
| `UserManager.NamelessEntryIncomplete` | core/user_manager.py:209-217 | an entry without a name raises the `KeyError` instead of giving a user |
| `UserManager.RegisterThenFetch` | core/user_manager.py:204-219 | a user just registered is found with the registered name, major and role |
| `UserManager.AfterAddVersion` | core/user_manager.py:221-231 | the same user ids; only the given user's entry changes; the version is listed for a known user; nothing changes exactly when it was listed already |
| `UserManager.AddVersionResult` | core/user_manager.py:221-231 | false for an unknown user; after a failed write, true exactly when nothing had to change; after a successful write, true for every known user |
| `UserManager.AddVersionEffect` | core/user_manager.py:221-231 | the version is listed afterwards; earlier versions keep their order; the list grows by at most one and stays duplicate-free |
| `UserManager.AddVersionIdempotent` | core/user_manager.py:226-229 | adding a version twice is adding it once |
| `UserManager.RowOf` | core/user_manager.py:236-244 | one listing row: the id, the fields with their defaults (name "", major "", role `student`, 0 logins, last login "") and the number of resume versions |
| `UserManager.AllUsers` | core/user_manager.py:233-246 | one row per user, in dictionary order |
| `UserManager.TotalResumesOfRows` | core/user_manager.py:251-254 | the statistics' resume total is the sum of the listing's resume counts |
| `UserManager.BumpCounts` | core/user_manager.py:260 | a bump adds one to the total and to that major's count only |
| `UserManager.BumpKeys` | core/user_manager.py:260 | a bump adds its key to the keys and keeps them distinct |
| `UserManager.Tally` | core/user_manager.py:257-260 | the counting loop over the majors in order, on a dictionary kept as pairs in insertion order |
| `UserManager.ActiveToday` | core/user_manager.py:262-267 | the number of users whose last login starts with today's date, never more than the users |
| `UserManager.TallyCounts` | core/user_manager.py:257-260 | the counts sum to the number of users; each major's count is its number of occurrences; each major appears once |
| `UserManager.UserManager.constructor` | core/user_manager.py:65-82 | the stored users when the file loads, none otherwise |
| `UserManager.UserManager.Register` | core/user_manager.py:105-161 | runs the checks as written, in source order; returns success exactly when they pass and the file is written, with the matching message; the users become `AfterRegister`; the id is appended in order |
| `UserManager.UserManager.Login` | core/user_manager.py:163-202 | returns `LoginOutcome` and leaves the users as `AfterLogin` |
| `UserManager.UserManager.GetUser` | core/user_manager.py:204-219 | None exactly for an unknown id; a user exactly when the entry has both `user_id` and `name` |
| `UserManager.UserManager.UpdateResumeVersions` | core/user_manager.py:221-231 | false for an unknown user; true when already listed; otherwise appends and reports the write |
| `UserManager.UserManager.GetAllUsers` | core/user_manager.py:233-246 | one row per user, in dictionary order, each the entry's fields with their defaults (major "", role `student`) and its number of versions |
| `UserManager.UserManager.GetStatistics` | core/user_manager.py:248-274 | the user count, the resume total, the active count, and the major distribution equal to `Tally` of the majors in dictionary order, hence exactly the majors, each once, in first-occurrence order, with its number of users, summing to the user count |
| `ResumeBuilder.WordChars` | views/resume_builder.py:25 | only `[A-Za-z0-9_]` remain, and the result is never longer |
| `ResumeBuilder.SanitizeStudentId` | views/resume_builder.py:23-26 | at most 50 characters, all from `[A-Za-z0-9_]` |
| `ResumeBuilder.SanitizeStudentIdIdempotent` | views/resume_builder.py:23-26 | the result is the first `min(n, 50)` kept characters, and sanitising it again changes nothing |
| `ResumeBuilder.SanitizeKeepsCleanId` | views/resume_builder.py:23-26 | an id of at most 50 word characters is kept as it is |
| `ResumeBuilder.ValidateJsonData` | views/resume_builder.py:29-36 | only a dictionary whose `json.dumps` is at most 100000 characters long is accepted |
| `ResumeBuilder.SaveDecision` | views/resume_builder.py:424-435 | a warning for an empty sanitised id, a rejection for invalid data, otherwise a save under the sanitised id |
| `ResumeBuilder.SaveDecisionIff` | views/resume_builder.py:424-435 | a save happens exactly when the sanitised id is non-empty and the data is a dict of at most 100000 serialised characters; the id is the sanitised one and has no `/`, `\` or `.`; an empty id only warns |
| `ResumeBuilder.GetMajorKey` | views/resume_builder.py:684-692 | the key is one of the four majors |
| `ResumeBuilder.MajorKeyRoundTrip` | views/resume_builder.py:684-692 | every key is the key of its display name; any other name gives `journalism` |
| `ResumeBuilder.ParseLines` | views/resume_builder.py:639 | `[a.strip() for a in text.split('\n') if a.strip()]` |
| `ResumeBuilder.KeepNonBlankClean` | views/resume_builder.py:639 | every kept line is non-empty, stripped and free of newlines |
| `ResumeBuilder.KeepNonBlankOfClean` | views/resume_builder.py:639 | clean lines are kept as they are, in order |
| `ResumeBuilder.StripLine` | views/resume_builder.py:639 | stripping a part without a newline leaves none, and a stripped part is its own strip |
| `ResumeBuilder.ParseJoinedLines` | views/resume_builder.py:634-639 | a list of clean lines, joined by newlines as the text area shows it, parses back to itself |
| `ResumeBuilder.ParseLinesStable` | views/resume_builder.py:623-625 | parsed lines are clean, and showing and parsing them again gives the same list |
| `ResumeBuilder.Press` | views/resume_builder.py:87-92 | an unpressed button changes nothing; a pressed one shows its panel unless it is shown, and then hides it |
| `ResumeBuilder.PressTwice` | views/resume_builder.py:87-88 | pressing a button in two runs restores its panel's visibility |
| `ResumeBuilder.ThreeButtons` | views/resume_builder.py:87-92 | after a run the panel is none or that of the last pressed button; with no button pressed nothing changes |
| `ResumeBuilder.Panels.constructor` | views/resume_builder.py:84-85 | both panels start hidden |
| `ResumeBuilder.Panels.AiModeButtons` | views/resume_builder.py:84-92 | applies style, save and help in this order to `show_panel`; `json_panel` is untouched |
| `ResumeBuilder.Panels.JsonModeButtons` | views/resume_builder.py:258-266 | applies style, load and save in this order to `json_panel`; `show_panel` is untouched |
| `ResumeBuilder.RemoveAt` | views/resume_builder.py:581 | `pop(i)` drops exactly entry `i` and shifts the rest down |
| `ResumeBuilder.RemoveAppended` | views/resume_builder.py:580-595 | deleting the entry just added gives the list back |
| `ResumeBuilder.ExperiencePlaceholder` | views/resume_builder.py:589-594 | the entry the add button appends to `experience`: company, role and time `待填写`, details a one-item list |
| `ResumeBuilder.PortfolioPlaceholder` | views/resume_builder.py:675-680 | the entry the add button appends to `portfolio`: title, role and desc `待填写`, an empty link |
| `ResumeBuilder.CvEditor.constructor` | views/resume_builder.py:47-48 | the editor starts with the given CV data |
| `ResumeBuilder.CvEditor.PopEntry` | views/resume_builder.py:580-581 | removes exactly the `i`-th entry of the section's list; nothing else changes |
| `ResumeBuilder.CvEditor.AppendEntry` | views/resume_builder.py:588-595 | appends the entry at the end of the list, creating the list when missing; fails and changes nothing when the value is not a list |
| `ResumeBuilder.AddThenDelete` | views/resume_builder.py:667-681 | adding an entry and deleting it again restores the CV data |

## Left out

- TF-IDF fitting and cosine similarity use floating-point library code. A query's scores are the opaque `similarity` parameter, and the matrix is only the number of rows it was fitted on. `SearchResult.to_dict` rounding and the `:.2f` formatting (`fmt`) are parameters too.
- numpy's `argsort` does not fix the order of equal scores. `RagEngine.Rank` allows either order; `TopIndices` takes, at each step, the first best entry of the remaining indices (`ArgMax`).
- `RagEngine.RagConfig.Valid` requires `chunk_size > 0`. A non-positive size makes the slice end a negative Python index, and that is not modelled. A zero or negative step is modelled: it stores nothing.
- File I/O is left out: PDF extraction, `open`/`read`, `rglob`/`os.walk`/`glob`, `Path.exists`, and JSON loading and saving. They are inputs:
  - the walk is a sequence of `CorpusFile` records, in walk order;
  - a student's files are the stems the glob yields, in its order;
  - `load` returns the dictionary read (`{}` when missing or malformed);
  - `save`/`saved` says whether a write succeeded.
- Exceptions that abort a PDF part-way are the same as an unreadable PDF. The model sees only the pages, or None.
- UserManager.UserManager.GetUser: its contract states when the id is unknown and when a user is found; the fields of a found user are stated by `UserManager.FetchUser`, whose result it returns.
- `UserManager.UserManager.Login` does not model `_save_users`, whose result `login` ignores.
- `UserManager.UserManager.constructor` takes the parsed `users.json` as ids plus a map. A file whose top level is not a dictionary, and entry fields of unexpected types, are not modelled. A JSON `null` and a missing key are both `None`.
- The clock (`time.time()`, `datetime.now()`) is the parameter `now` or `today`. `UserSession.login_time` and a `User`'s empty `created_at` take that same `now`. Cache ages (`time.time() - timestamp` against `CACHE_TTL`) are exact `real` differences, so the rounding of floating-point timestamps near the 300-second boundary is not modelled.
- SHA-256 is the uninterpreted parameter `hash`.
- Dictionary order is not kept everywhere:
  - `DataManager` maps (the caches, the student list, the competency scores) and JSON objects are unordered `map`s, so the model says nothing about their key order;
  - the `scores` given to `get_competency_feedback` are a sequence of pairs, so its order is kept.
- Case folding and digit tests are ASCII only. `Common.Lower` lowers only `A`-`Z`, `IsDigitString` (`str.isdigit`) accepts only `0`-`9`, and `Common.ParseInt` reads only ASCII digits, while Python's `lower`, `isdigit` and `int()` also handle other Unicode letters and decimal digits. Whitespace is not restricted: `Common.IsSpace` is Python's full Unicode whitespace set, which `\s` and `str.strip()` use.
- Aliasing is not modelled. Values are immutable in the model, so sharing between objects does not arise. In the source:
  - `login` returns a `User` whose `resume_versions` list is the stored one;
  - `_get_from_cache` returns a copy;
  - `save_student_version` copies the caller's dictionary, which is a value here.
- Streamlit rendering, logging, the process-wide singletons (`get_rag_engine`, `get_data_manager`, `get_user_manager`) and the configuration module are left out. The shipped `RAGConfig` values are `RagEngine.DefaultConfig`.
- The per-field edits of the CV editor (`cv_data[...][i] = {...}` with text inputs) are modelled only through their line parsing.
- `DataManager.DataManager.GetAvailableStudents` assumes the glob reaches every stem. The outer `try` that swallows a failing directory scan is not modelled.

Two behaviours of the code are worth stating:
- `range(0, len(text), step)` starts a window at every multiple of the step below `len(text)`. It also starts one inside the previous window when the last multiple falls there, so a 360-character text gets windows at 0, 160 and 320 (`RagEngine.ChunkStartsExact`, `RagEngine.TrailingWindowKept`).
- Without PyPDF2, a PDF extracts as "". It gives no chunks, but its path is still added to the indexed set (`RagEngine.RAGEngine.VisitFile`).

## Findings

| source | as written | input that shows it | evidently intended | confidence | as-written member | corrected member |
|---|---|---|---|---|---|---|
| core/user_manager.py:99-103 | `re.match` with a pattern ending in `$` also matches just before a final newline, so an id with a trailing `\n` passes the check and `register` stores it | `register("abc\n", "Alice", "pass")` | only 3 to 20 characters from `[A-Za-z0-9_]`, as the comment and the error message say | not executed | `UserManager.NewlineIdRegisters` | `UserManager.CheckRegistrationCorrected` |

Registration follows the code: `UserManager.CheckRegistration` and `UserManager.UserManager.Register` use the check as written (`UserManager.ValidateUserIdAsWritten`), and `UserManager.NewlineIdRegisters` shows `"abc\n"` being registered. The corrected check is `UserManager.ValidateUserId`, and `UserManager.ValidateUserIdCorrected` relates it to the written one. `UserManager.CheckRegistrationCorrected` is registration with the corrected check. `UserManager.RegistrationCorrected` proves it accepts exactly what the written one accepts, minus ids ending in a newline. `UserManager.ValidIdIsBare` proves that the corrected check accepts no whitespace.
