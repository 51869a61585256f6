# epubtrans translation session, in Dafny

This project models the translation session of `epubtrans.py`, the part of an EPUB
translator that turns a list of paragraph texts into a map from each text to its
translation. A session does four things:

- It validates the input.
- It maps blank texts to `''` and skips texts already held in the translation cache.
- The chunker (`Translator._chunk_texts`) packs the remaining distinct texts into chunks. The
  UTF-8 size of each chunk stays within the chunk size. A text that is too big is split on
  `'.'`, and it is rejected with `InvalidText` when one of its pieces is still too big.
- It sends each chunk to the translator backend (`_translate_chunk`) and drops the
  translations of every chunk that reports errors. The reassembler (`_unchunk_trans`) then
  re-joins the surviving pieces of each text with `' '`, and the result is merged into the
  cache.

The project also models the constructor's chunk-size check, the mock and Google backends,
and the default output file name of `EPUBTranslator.translate`.

Modules, one concept each:

- `Wrappers` (`wrappers.dfy`): `Option`, `Result` and the two exception types
  `InvalidText` and `CannotTranslate`.
- `Utf8` (`utf8.dfy`): `len(s.encode('utf-8'))` as a sum of per-character byte widths.
- `Strings` (`strings.dfy`): Python's `strip()` (with the `isspace` character set),
  `split('.')`, `' '.join` and the code-point order on strings.
- `Sorting` (`sorting.dfy`): `sorted()`, as an insertion sort over a total order. Its result
  depends only on the multiset of its input.
- `Chunker` (`chunker.dfy`): the chunker. The method `ChunkTexts` mirrors the Python loops.
  The fold `ChunkFold` is its specification.
  - `AllFragments` and `RejectedErrors` are reference definitions of the fragments each text
    contributes and the errors each text raises, without any packing.
  - `ChunkFold` is proved to emit exactly those fragments and errors while keeping the
    packing invariant `Packed`.
- `Reassembler` (`reassembler.dfy`): `_unchunk_trans`. The method `UnchunkTrans` has the
  Python's two loops. The function `Unchunk` specifies it.
- `Translators` (`translator.dfy`): the class `Translator`.
  - Its `store` field is the cache file's contents. Its `chunks` field is what
    `MockTranslator` records.
  - The subclass in use is the datatype `Backend`. The Google and custom backends receive
    the number of chunks the translator sent before, so the same chunk may get a different
    reply on a later call (`Sessions.RepeatedChunk`). The `calls` field counts those calls.
  - `TranslateTexts` is proved equal to the function `Session`: it returns the same result
    and leaves the same new state.
- `Sessions` (`sessions.dfy`): what `Session` promises about results, the cache, errors
  and what is sent.
- `OutputName` (`output_name.dfy`): the default output path, with POSIX `basename`,
  `dirname` and `join`.

The iteration order of the set `distinct_texts` is not fixed by Python. `TranslateTexts`
takes any enumeration of the set and reports it as the ghost out-parameter `order`. Every
property below holds for every such order.

Three consequences of the code are worth stating, because a reader might expect otherwise:

- A text smaller than the chunk size is never split (`epubtrans.py:139-146`). So for the
  paragraph `"Hello world."` the mock returns `"MOCKED: Hello world."`, as
  `Sessions.MockSingleText` proves.
- A split text is not translated all or nothing. When its pieces land in several chunks and
  one of those chunks reports errors, only that chunk's fragments are dropped
  (`epubtrans.py:122-125`; see `Sessions.DispatchPairs` and `Sessions.SessionTranslated`).
  The text is then translated from its remaining fragments.
- A text at or above the limit whose pieces are all blank gets neither a fragment nor an
  error (`Chunker.BlankPiecesVanish`). It maps to `None`.

## Model

| member | source | states |
|---|---|---|
| Utf8.Size | epubtrans.py:137 | the UTF-8 size of a string is between its length and four times its length, and is 0 only for the empty string |
| Utf8.SizeConcat | epubtrans.py:137 | the encoded size of a concatenation is the sum of the sizes |
| Strings.StripSpec | epubtrans.py:110-111 | `strip()` leaves no whitespace at either end, is empty exactly when the text is all whitespace, leaves a stripped text alone, and never increases the UTF-8 size |
| Strings.StripIdempotent | epubtrans.py:153 | stripping twice is stripping once |
| Strings.Split | epubtrans.py:148 | `split('.')` yields at least one piece, and no piece contains '.' |
| Strings.JoinSplit | epubtrans.py:148 | joining the pieces of `split('.')` with '.' gives back the text |
| Strings.SplitJoin | epubtrans.py:148 | splitting a join of '.'-free pieces gives back the pieces |
| Strings.StrLeTotal | epubtrans.py:168 | Python's string order is total |
| Strings.StrLeTransitive | epubtrans.py:168 | Python's string order is transitive |
| Sorting.SortMultiset | epubtrans.py:168 | `sorted()` returns a permutation of its input |
| Sorting.SortSorted | epubtrans.py:168 | `sorted()` returns an ordered list |
| Sorting.SortedUnique | epubtrans.py:168 | two ordered permutations of the same multiset are equal |
| Sorting.SortPermutation | epubtrans.py:168 | lists that are permutations of each other sort to the same list |
| Chunker.Zip | epubtrans.py:125 | `zip` pairs items position by position, up to the shorter list |
| Chunker.AddText | epubtrans.py:137-163 | one text's step: the chunk list stays non-empty, the errors grow by exactly that text's reference errors `TextErrors`, and a rejected text leaves the chunks and the running size as they were |
| Chunker.ChunkFold | epubtrans.py:134-164 | the chunk list is never empty, because it starts with the initial chunk |
| Chunker.ChunkTexts | epubtrans.py:133-164 | the loops compute `ChunkFold`. Every chunk's metas and strings are parallel, every chunk after the first is non-empty, and every non-empty chunk's UTF-8 total is at most the chunk size. Concatenating the chunks gives exactly `AllFragments`, and the errors are exactly `RejectedErrors` |
| Chunker.PackPieces | epubtrans.py:152-163 | the inner loop over the '.'-pieces of an accepted text computes `AddPieces`: blank pieces are skipped and the others are packed one at a time |
| Chunker.ChunkFoldSpec | epubtrans.py:134-163 | the fold keeps the packing invariant, and it emits the reference fragments and errors |
| Chunker.AllFragmentsIds | epubtrans.py:136-163 | every fragment's `text_id` is the position of its text in the input, and its `original_text` is that text |
| Chunker.AllFragmentsAscending | epubtrans.py:136-163 | the fragments come in strictly ascending `(text_id, line_id)` order |
| Chunker.AllFragmentsOfText | epubtrans.py:136-163 | the fragments with a given `text_id` are exactly that text's own |
| Chunker.SmallTextOneFragment | epubtrans.py:137-146 | a text smaller than the chunk size contributes exactly one fragment, with meta `(text_id, 0, text)` and string `text.strip()` |
| Chunker.SplitTextFragments | epubtrans.py:147-163 | an accepted text at or above the limit contributes exactly one fragment per non-blank stripped '.'-piece, in piece order. Each fragment's `line_id` is the piece's index, and its meta carries the whole text |
| Chunker.RejectedTextNoFragment | epubtrans.py:147-151 | a text at or above the limit with a piece over the limit contributes no fragment |
| Chunker.RejectedErrorsExact | epubtrans.py:149-150 | every error is `InvalidText('text too long', t)` for a rejected input text `t`, and every rejected text has its error |
| Chunker.RejectedErrorsCount | epubtrans.py:147-151 | the number of errors equals the number of rejected texts |
| Chunker.BlankPiecesVanish | epubtrans.py:147-155 | a text at or above the limit whose pieces all fit but are all blank gives neither a fragment nor an error |
| Reassembler.PairLeTotalOrder | epubtrans.py:168 | Python's tuple order on `((text_id, line_id, orig), tran)` is a total order |
| Reassembler.Unchunk | epubtrans.py:166-178 | what `_unchunk_trans` returns: the pairs sorted, grouped by `text_id` and, for each text, its translations joined with `' '`; its keys and values are stated by `UnchunkKeySource`, `UnchunkKeys` and `UnchunkValue` |
| Reassembler.UnchunkTrans | epubtrans.py:166-178 | the two loops compute `Unchunk`: sort the pairs, group them by `text_id`, and join each group |
| Reassembler.GroupPairs | epubtrans.py:169-173 | the first loop computes `Collect`: one group per `text_id` in order of first appearance, holding the original text and the `(line_id, tran)` lines in input order |
| Reassembler.JoinGroups | epubtrans.py:174-177 | the second loop computes `Assemble` over the groups in insertion order |
| Reassembler.CollectOk | epubtrans.py:169-173 | grouping gives one entry per `text_id` that occurs, and no other entry |
| Reassembler.UnchunkOrderIndependent | epubtrans.py:166-178 | inputs that are permutations of each other give the same result |
| Reassembler.UnchunkKeySource | epubtrans.py:170-177 | every key of the result is the original text of some input pair |
| Reassembler.UnchunkKeys | epubtrans.py:166-178 | when `text_id` and original text identify each other, the keys are exactly the original texts present in the input |
| Reassembler.UnchunkValue | epubtrans.py:173-177 | each text's value is the `' '`-join of its pairs' translations, sorted by `(line_id, translation)` as Python's tuple order does |
| Reassembler.ValueInOrder | epubtrans.py:176 | when a text's lines are already in ascending `line_id` order, its value is their translations joined by `' '` in that order |
| Reassembler.UnchunkSingle | epubtrans.py:166-178 | an input of one pair maps exactly its original text to its translation, and nothing else |
| Reassembler.UnchunkOneFragment | epubtrans.py:166-178 | among any other pairs of a session, a text with a single pair (such as a text below the chunk size, epubtrans.py:139-146) maps to that pair's translation unchanged |
| Translators.StrItems | epubtrans.py:102 | a list is accepted exactly when all its items are strings, and then its strings are kept in order |
| Translators.AsTexts | epubtrans.py:100-103 | a string is wrapped into a one-item list, a list of strings is kept, and anything else is refused |
| Translators.ResolveChunkSize | epubtrans.py:73-75 | the chunk size is the argument when it is non-zero, otherwise the class default when that is non-zero. Otherwise it fails with 'must specify chunk_size' |
| Translators.Translator.Create | epubtrans.py:58-79 | construction fails with 'must specify chunk_size' exactly when no chunk size is given or defaulted. Otherwise the new translator has the resolved chunk size, the loaded cache, no recorded chunks and no calls made |
| Translators.Mocked | epubtrans.py:233 | the mock returns `'MOCKED: ' + s` for each string `s` of the chunk, in order |
| Translators.GoogleErrors | epubtrans.py:216-218 | one `CannotTranslate('cannot translate', text, e)` per text of the chunk, in order |
| Translators.Call | epubtrans.py:196-233 | the `n`-th `_translate_chunk` call: the mock returns `'MOCKED: ' + s` per string and no error. Google returns the fetched texts, or no text and one error per string when the response cannot be read, and no error for an empty chunk. A custom backend returns its own reply for that call |
| Translators.MockReply | epubtrans.py:230-233 | the mock never reports errors and translates every string |
| Translators.GoogleReply | epubtrans.py:212-219 | a non-empty Google chunk reports errors exactly when reading its response fails, and then it returns no translations and one error per text. An empty chunk never reports errors; the initial chunk is sent empty when every new text is rejected |
| Translators.Translator.TranslateChunk | epubtrans.py:180-182 | one `_translate_chunk` call returns the backend's reply for the current call number, and counts the call. The mock appends the chunk to `chunks` when `record` is set, and the cache is untouched |
| Translators.DispatchStep | epubtrans.py:120-125 | one more chunk adds that chunk's reply to the loop's result: its errors when it has any, else its zipped pairs |
| Translators.PrepareTexts | epubtrans.py:108-115 | the first loop computes `Prepare` |
| Translators.EnumerateSet | epubtrans.py:136 | the set is iterated in some order that lists each element exactly once |
| Translators.Translator.DispatchChunks | epubtrans.py:120-125 | the chunk loop computes `Dispatch`: it calls `_translate_chunk` once per chunk, in order, with consecutive call numbers, and it records exactly the chunks sent |
| Translators.Translator.TranslateTexts | epubtrans.py:99-131 | invalid input fails with 'must specify string or a list of strings' and changes nothing. Otherwise the call returns `Session`'s result and errors, saves `Session`'s cache, and leaves the mock's record extended by the chunks sent and the call count increased by their number |
| Translators.Translator.TranslateNew | epubtrans.py:116-131 | with new texts, the chunking, the chunk loop, `_unchunk_trans` and the cache update compute `Session` |
| Translators.Lookup | epubtrans.py:131 | the result has exactly the request's texts as keys; a text maps to `Some` of its cached value when it is cached and to `None` otherwise |
| Translators.Session | epubtrans.py:99-131 | one session as a function of the request, the saved cache, the iteration order and the calls made before. Its keys are exactly the request's texts, and with nothing new it reports no error, sends nothing and keeps the cache |
| Sessions.PrepareSpec | epubtrans.py:108-115 | after the first loop the cache holds every blank text as `''` and the old entries otherwise. `distinct_texts` is exactly the non-blank texts not in the cache |
| Sessions.NotSent | epubtrans.py:109-118 | the texts given to the chunker are exactly the non-blank request texts missing from the cache. Cached and blank texts are never chunked |
| Sessions.DispatchErrors | epubtrans.py:120-123 | the chunk loop's errors are every reply's errors, in chunk order |
| Sessions.DispatchPairs | epubtrans.py:120-125 | a pair is collected exactly when a chunk without errors zipped it. A chunk that reports errors contributes no pair |
| Sessions.DispatchMetas | epubtrans.py:120-125 | every collected pair carries the meta of a chunked fragment |
| Sessions.RepeatedChunk | epubtrans.py:120-125 | two chunks with the same strings can get different replies: when the first call fails and the second succeeds, only the second chunk's pair is collected, and the first chunk's error is reported |
| Sessions.TransOriginals | epubtrans.py:118-125 | every collected pair's `text_id` is the position of its original text in the enumeration |
| Sessions.TransKeyed | epubtrans.py:118-126 | within a session's pairs, `text_id` and original text identify each other |
| Sessions.TranslatedKeys | epubtrans.py:126 | every translated text was given to the chunker |
| Sessions.SessionTranslated | epubtrans.py:116-128 | only new non-blank texts are translated. A text is translated exactly when some pair carries it, and its translation joins its pairs' translations in `line_id` order |
| Sessions.SessionResult | epubtrans.py:131 | the result's keys are exactly the request's texts. A blank text maps to `''`, a cached text to its cached value, a newly translated text to its translation, and any other text to `None` |
| Sessions.SessionStore | epubtrans.py:106-129 | the cache is saved only when something was translated. The saved cache holds the old entries, `''` for each blank request text and the new translations, and every other old entry keeps its value |
| Sessions.SessionErrors | epubtrans.py:105-125 | the errors are the chunking errors followed by every failed chunk's errors in chunk order. There are none when nothing is new |
| Sessions.SessionNothingNew | epubtrans.py:116-131 | when every text is blank or cached, nothing is sent and the saved cache is unchanged |
| Sessions.MockSingleText | epubtrans.py:99-146 | one new text below the chunk size, sent to the mock, is sent stripped in a single chunk. It maps to `'MOCKED: ' + text.strip()`, which is also saved, and there are no errors |
| OutputName.LastSlash | epubtrans.py:271 | the index of the last '/', or -1 exactly when there is none |
| OutputName.BasenameSplit | epubtrans.py:271 | a path is its head followed by its base name, and the base name has no '/' |
| OutputName.Dirname | epubtrans.py:278 | `os.path.dirname` is a prefix of the path, is empty exactly when the path has no '/', and ends in '/' only when it is made of slashes |
| OutputName.JoinPath | epubtrans.py:278 | `os.path.join` returns its second argument alone when it is absolute. Otherwise it is the first argument followed by the second, with one '/' between them exactly when the first is non-empty and does not already end in '/' |
| OutputName.Sanitize | epubtrans.py:273 | every character is kept when it is alphanumeric and replaced by '_' otherwise, so the length is kept |
| OutputName.DefaultOutputName | epubtrans.py:270-277 | the name fails with AssertionError exactly when the lower-cased base name does not end in '.epub'. Otherwise it ends in the suffix of the translation type, and its length is that of the lower-cased base name, minus five, plus that of the suffix |
| OutputName.DefaultOutputNameSpec | epubtrans.py:270-277 | the name fails (AssertionError) exactly when the lower-cased base name does not end in '.epub'. Otherwise it ends in '.tran.epub' for REPLACE and '.dual.epub' for INLINE. Its stem is the lower-cased base name minus five characters, with each non-alphanumeric character replaced by '_' |
| OutputName.DefaultOutputNameChars | epubtrans.py:273-277 | every stem character is alphanumeric or '_', so the name has no '/' |
| OutputName.BasenameJoin | epubtrans.py:278 | joining a '/'-free name to a directory gives a path whose base name is that name |
| OutputName.DefaultOutputPath | epubtrans.py:270-278 | the path fails with AssertionError exactly when the name does. Otherwise it ends with the default name, and so with the suffix of the translation type |
| OutputName.DefaultOutputPathSpec | epubtrans.py:270-278 | the default path exists exactly when the default name does. It is the name joined to the input's directory, and its base name is the name |

## Left out

- The cache file and `os.path.exists`, and `json.load`/`json.dump` (`epubtrans.py:81-97`):
  - the file's contents are the `store` field;
  - loading is a read of `store`, and saving is an assignment to it;
  - I/O errors are not modelled.
- The constructor's writability test `_save_cache(_load_cache())` (`epubtrans.py:78`) leaves `store` as it was. The model does not capture its failure on an unwritable file.
- The `cache_file=False` in-memory path. `_load_cache` then reads `self._cache` (`epubtrans.py:89`) before the constructor assigns it (`epubtrans.py:78-79`), so this path raises and promises nothing.
- The `datetime`-based default cache file name (`epubtrans.py:66-71`), because it depends on the clock.
- The Google service client (`epubtrans.py:197-211`): the request, the project and the language codes.
  - The response is the parameter `fetch` of the backend `Google`: the translated texts, or the exception raised while reading them.
  - An exception raised by `translate_text` itself is not modelled.
- Other `Translator` subclasses are the backend `Custom`, an arbitrary function and class chunk size. Python subclassing has no counterpart here.
- `Translators.Call`: a reply is a function of the call number and the chunk. That covers replies that differ from call to call. It does not cover a custom `_translate_chunk` that changes other state of the translator (for example its cache) or raises; only the mock's `chunks` record is modelled.
- `Translators.ResolveChunkSize`: the chunk size is an integer, so Python truthiness of floats and other types is not modelled.
- `Utf8.Size`: a Python string holding a lone surrogate, for which `encode('utf-8')` raises, cannot be written as a Dafny string.
- `Translators.Translator.TranslateTexts`: the set's iteration order is any enumeration, not CPython's hash order. Every property is proved for every enumeration.
- `OutputName.DefaultOutputName`: `str.lower` and `str.isalnum` are the parameters `lower` and `isAlnum`.
- The `isinstance` check on `translation_type` (`epubtrans.py:268-269`): the type `TranslationType` rules out other values.
- The string forms of `InvalidText` and `CannotTranslate` (`epubtrans.py:34-49`): only their message, text and cause are modelled.
- The rest of `EPUBTranslator`, which is HTML and EPUB library I/O plus console output:
  - EPUB reading and writing with `ebooklib`;
  - `BeautifulSoup` extraction and rebuilding;
  - the newline regex;
  - the existence check on the output file, `print` and `time.sleep`.
