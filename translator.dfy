/** `Translator.translate_texts`: one translation session. Blank texts map to '', cached
    texts are looked up, the rest are chunked, sent chunk by chunk to the backend's
    `_translate_chunk`, reassembled and merged into the cache. */
module Translators {
  import opened Wrappers
  import opened Strings
  import opened Chunker
  import opened Reassembler

  // ---------------------------------------------------------------------------
  // Input validation.

  /** The Python value passed as `texts`. */
  datatype PyValue = PyStr(s: string) | PyList(items: seq<PyValue>) | PyOther

  const MustSpecifyTexts: string := "must specify string or a list of strings"
  const MustSpecifyChunkSize: string := "must specify chunk_size"

  /** The strings of a list all of whose items are strings. */
  function StrItems(items: seq<PyValue>): (r: Option<seq<string>>)
    ensures r.Some? <==> forall i :: 0 <= i < |items| ==> items[i].PyStr?
    ensures r.Some? ==> |r.value| == |items| && forall i :: 0 <= i < |items| ==> r.value[i] == items[i].s
  {
    if items == [] then Some([])
    else if !items[0].PyStr? then None
    else
      match StrItems(items[1..])
      case None => None
      case Some(rest) => Some([items[0].s] + rest)
  }

  /** The list `translate_texts` works on: a string is wrapped into a one-item list, a list
      of strings is taken as is, anything else is refused. */
  function AsTexts(v: PyValue): (r: Option<seq<string>>)
    ensures v.PyStr? ==> r == Some([v.s])
    ensures v.PyOther? ==> r == None
    ensures v.PyList? ==> (r.Some? <==> forall i :: 0 <= i < |v.items| ==> v.items[i].PyStr?)
    ensures v.PyList? && r.Some? ==> |r.value| == |v.items| && forall i :: 0 <= i < |v.items| ==> r.value[i] == v.items[i].s
  {
    match v
    case PyStr(s) => Some([s])
    case PyList(items) => StrItems(items)
    case PyOther => None
  }

  // ---------------------------------------------------------------------------
  // Backends: the concrete `_translate_chunk` implementations.

  /** What iterating over a Google response gives: the translated texts, or the exception
      raised while reading them. */
  datatype Fetched = Translated(texts: seq<string>) | Broken(cause: string)

  /** `(translations, errors)` as `_translate_chunk` returns them. */
  datatype Reply = Reply(translations: seq<string>, errors: seq<Error>)

  /** The subclass of `Translator` in use. `Google` wraps the service call (made once per
      chunk); `Custom` is any other subclass, its `_translate_chunk` and `_CHUNK_SIZE`.
      Both receive the number of chunks this translator sent before, so one chunk sent
      twice may get two different replies. */
  datatype Backend =
    | Mock(record: bool)
    | Google(fetch: (nat, seq<string>) -> Fetched)
    | Custom(call: (nat, seq<string>) -> Reply, classChunkSize: Option<int>)

  const MockPrefix: string := "MOCKED: "
  const CannotTranslateMsg: string := "cannot translate"

  /** The class attribute `_CHUNK_SIZE`. */
  function ClassChunkSize(b: Backend): Option<int> {
    match b
    case Mock(_) => Some(2000)
    case Google(_) => Some(1000)
    case Custom(_, size) => size
  }

  /** `chunk_size or self._CHUNK_SIZE`, refused when that is still falsy. */
  function ResolveChunkSize(chunkSize: Option<int>, classChunkSize: Option<int>): (r: Result<int>)
    ensures r.Success? ==> r.value != 0
    ensures r.Failure? ==> r.error == MustSpecifyChunkSize
    ensures r.Failure? <==> (chunkSize.None? || chunkSize.value == 0) && (classChunkSize.None? || classChunkSize.value == 0)
    ensures chunkSize.Some? && chunkSize.value != 0 ==> r == Success(chunkSize.value)
    ensures (chunkSize.None? || chunkSize.value == 0) && classChunkSize.Some? && classChunkSize.value != 0 ==>
              r == Success(classChunkSize.value)
  {
    var size := if chunkSize.Some? && chunkSize.value != 0 then chunkSize else classChunkSize;
    if size.Some? && size.value != 0 then Success(size.value) else Failure(MustSpecifyChunkSize)
  }

  /** `MockTranslator`'s translations. */
  function Mocked(chunk: seq<string>): (r: seq<string>)
    ensures |r| == |chunk| && forall i :: 0 <= i < |r| ==> r[i] == MockPrefix + chunk[i]
  {
    seq(|chunk|, i requires 0 <= i < |chunk| => MockPrefix + chunk[i])
  }

  /** One `CannotTranslate` per text of a chunk whose response could not be read. */
  function GoogleErrors(chunk: seq<string>, cause: string): (r: seq<Error>)
    ensures |r| == |chunk| && forall i :: 0 <= i < |r| ==> r[i] == CannotTranslate(CannotTranslateMsg, chunk[i], cause)
  {
    seq(|chunk|, i requires 0 <= i < |chunk| => CannotTranslate(CannotTranslateMsg, chunk[i], cause))
  }

  /** `self._translate_chunk(chunk)` as the translator's `n`-th call (from 0). */
  function Call(b: Backend, n: nat, chunk: seq<string>): (r: Reply)
    ensures b.Mock? ==> r.errors == [] && r.translations == Mocked(chunk)
    ensures b.Google? ==> (r.errors == [] <==> b.fetch(n, chunk).Translated? || chunk == [])
    ensures b.Google? && b.fetch(n, chunk).Translated? ==> r.translations == b.fetch(n, chunk).texts
    ensures b.Google? && b.fetch(n, chunk).Broken? ==> r.translations == [] && |r.errors| == |chunk|
    ensures b.Custom? ==> r == b.call(n, chunk)
  {
    match b
    case Mock(_) => Reply(Mocked(chunk), [])
    case Google(fetch) =>
      (match fetch(n, chunk)
       case Translated(ts) => Reply(ts, [])
       case Broken(cause) => Reply([], GoogleErrors(chunk, cause)))
    case Custom(call, _) => call(n, chunk)
  }

  /** The mock never fails and translates every string of the chunk. */
  lemma MockReply(record: bool, n: nat, chunk: seq<string>)
    ensures Call(Mock(record), n, chunk).errors == []
    ensures |Call(Mock(record), n, chunk).translations| == |chunk|
    ensures forall i :: 0 <= i < |chunk| ==> Call(Mock(record), n, chunk).translations[i] == MockPrefix + chunk[i]
  {
  }

  /** A non-empty Google chunk fails exactly when its response cannot be read, and then
      every one of its texts gets its own error; an empty chunk never fails. */
  lemma GoogleReply(fetch: (nat, seq<string>) -> Fetched, n: nat, chunk: seq<string>)
    ensures Call(Google(fetch), n, chunk).errors == [] <==> fetch(n, chunk).Translated? || chunk == []
    ensures fetch(n, chunk).Broken? ==>
              Call(Google(fetch), n, chunk).translations == [] &&
              |Call(Google(fetch), n, chunk).errors| == |chunk| &&
              forall i :: 0 <= i < |chunk| ==> Call(Google(fetch), n, chunk).errors[i].text == chunk[i]
  {
  }

  // ---------------------------------------------------------------------------
  // The session as a function of its inputs.

  /** The first loop's result: the working cache and `distinct_texts`. */
  datatype Prepared = Prepared(cache: map<string, string>, distinct: set<string>)

  /** The first loop over `texts`: blank texts are cached as '', texts not in the cache are
      collected. */
  function Prepare(texts: seq<string>, store: map<string, string>): Prepared {
    if texts == [] then Prepared(store, {})
    else
      var p := Prepare(texts[..|texts| - 1], store);
      var text := texts[|texts| - 1];
      if Strip(text) == [] then Prepared(p.cache[text := ""], p.distinct)
      else if text !in p.cache then Prepared(p.cache, p.distinct + {text})
      else p
  }

  /** The pairs and errors of the chunk loop. */
  datatype Dispatched = Dispatched(trans: seq<Fragment>, errors: seq<Error>)

  /** The loop over `chunks`, the first being the translator's `start`-th call: a chunk that
      reports errors adds its errors, any other adds its `zip(meta, chunk_trans)` pairs. */
  function Dispatch(chunks: seq<Chunk>, b: Backend, start: nat): Dispatched {
    if chunks == [] then Dispatched([], [])
    else
      var d := Dispatch(chunks[..|chunks| - 1], b, start);
      var c := chunks[|chunks| - 1];
      var reply := Call(b, start + |chunks| - 1, c.lines);
      if reply.errors != [] then Dispatched(d.trans, d.errors + reply.errors)
      else Dispatched(d.trans + Zip(c.metas, reply.translations), d.errors)
  }

  /** `Dispatch` over the first `k + 1` chunks is `Dispatch` over the first `k` followed by
      the `k`-th chunk's reply. */
  lemma DispatchStep(chunks: seq<Chunk>, b: Backend, start: nat, k: nat)
    requires k < |chunks|
    ensures var d := Dispatch(chunks[..k], b, start);
            var reply := Call(b, start + k, chunks[k].lines);
            Dispatch(chunks[..k + 1], b, start) ==
              if reply.errors != [] then Dispatched(d.trans, d.errors + reply.errors)
              else Dispatched(d.trans + Zip(chunks[k].metas, reply.translations), d.errors)
  {
    assert chunks[..k + 1][..k] == chunks[..k];
  }

  /** Every reply's errors, chunk after chunk. */
  function ReplyErrors(chunks: seq<Chunk>, b: Backend, start: nat): seq<Error> {
    if chunks == [] then []
    else ReplyErrors(chunks[..|chunks| - 1], b, start) + Call(b, start + |chunks| - 1, chunks[|chunks| - 1].lines).errors
  }

  /** The string lists sent to `_translate_chunk`, in order. */
  function Sent(chunks: seq<Chunk>): (r: seq<seq<string>>)
    ensures |r| == |chunks| && forall k :: 0 <= k < |r| ==> r[k] == chunks[k].lines
  {
    seq(|chunks|, k requires 0 <= k < |chunks| => chunks[k].lines)
  }

  /** `{text: cache.get(text) for text in texts}`. */
  function Lookup(texts: seq<string>, cache: map<string, string>): (r: map<string, Option<string>>)
    ensures forall t :: t in r <==> t in texts
    ensures forall t :: t in r ==> (r[t].Some? <==> t in cache) && (r[t].Some? ==> r[t].value == cache[t])
  {
    map t | t in texts :: if t in cache then Some(cache[t]) else None
  }

  /** A session's visible effects: the returned map and errors, the saved cache, the
      chunks sent, and what `_unchunk_trans` produced. */
  datatype Outcome = Outcome(
    result: map<string, Option<string>>,
    errors: seq<Error>,
    store: map<string, string>,
    sent: seq<seq<string>>,
    translated: map<string, string>)

  /** `order` lists the elements of `d`, each once: the set's iteration order. */
  ghost predicate Enumerates(order: seq<string>, d: set<string>) {
    && (forall i, j :: 0 <= i < j < |order| ==> order[i] != order[j])
    && (forall t :: t in order <==> t in d)
  }

  /** `translate_texts(texts)` against the saved cache `store`, `distinct_texts` being
      iterated in `order`, by a translator that has sent `calls` chunks before. */
  function Session(texts: seq<string>, store: map<string, string>, order: seq<string>, b: Backend, chunkSize: int, calls: nat): (r: Outcome)
    ensures forall t :: t in r.result <==> t in texts
    ensures Prepare(texts, store).distinct == {} ==> r.errors == [] && r.store == store && r.sent == [] && r.translated == map[]
  {
    var p := Prepare(texts, store);
    if p.distinct == {} then Outcome(Lookup(texts, p.cache), [], store, [], map[])
    else
      var st := ChunkFold(order, chunkSize);
      var d := Dispatch(st.chunks, b, calls);
      var u := Unchunk(d.trans);
      var cache := if u != map[] then p.cache + u else p.cache;
      Outcome(Lookup(texts, cache), st.errors + d.errors, if u != map[] then cache else store, Sent(st.chunks), u)
  }

  /** `Session` with new texts, stage by stage. */
  lemma SessionStages(texts: seq<string>, store: map<string, string>, order: seq<string>, b: Backend, chunkSize: int,
                      calls: nat, p: Prepared, st: State, d: Dispatched, u: map<string, string>)
    requires p == Prepare(texts, store) && p.distinct != {}
    requires st == ChunkFold(order, chunkSize) && d == Dispatch(st.chunks, b, calls) && u == Unchunk(d.trans)
    ensures Session(texts, store, order, b, chunkSize, calls) ==
            Outcome(Lookup(texts, if u != map[] then p.cache + u else p.cache), st.errors + d.errors,
                    if u != map[] then p.cache + u else store, Sent(st.chunks), u)
  {
  }

  // ---------------------------------------------------------------------------
  // The translator object.

  /** The result of a successful `translate_texts` call. */
  datatype Translation = Translation(translations: map<string, Option<string>>, errors: seq<Error>)

  /** A `Translator` with a cache file: `store` is the file's contents, `chunks` is
      `MockTranslator.chunks`, `calls` counts the `_translate_chunk` calls made so far. */
  class Translator {
    const chunkSize: int
    const backend: Backend
    var store: map<string, string>
    var chunks: seq<seq<string>>
    var calls: nat

    constructor (chunkSize: int, backend: Backend, store: map<string, string>)
      requires chunkSize != 0
      ensures this.chunkSize == chunkSize && this.backend == backend
      ensures this.store == store && this.chunks == [] && this.calls == 0
    {
      this.chunkSize := chunkSize;
      this.backend := backend;
      this.store := store;
      this.chunks := [];
      this.calls := 0;
    }

    /** `__init__`: resolves the chunk size or raises `ValueError`; loading and saving the
        cache once leaves its contents as they were. */
    static method Create(chunkSize: Option<int>, backend: Backend, store: map<string, string>) returns (r: Result<Translator>)
      ensures r.Failure? <==> ResolveChunkSize(chunkSize, ClassChunkSize(backend)).Failure?
      ensures r.Failure? ==> r.error == MustSpecifyChunkSize
      ensures r.Success? ==>
                && fresh(r.value)
                && r.value.chunkSize == ResolveChunkSize(chunkSize, ClassChunkSize(backend)).value
                && r.value.backend == backend && r.value.store == store && r.value.chunks == [] && r.value.calls == 0
    {
      var size := ResolveChunkSize(chunkSize, ClassChunkSize(backend));
      if size.Failure? {
        return Failure(size.error);
      }
      var t := new Translator(size.value, backend, store);
      return Success(t);
    }

    /** `self._translate_chunk(chunk)`; the mock records the chunk when `record` is set. */
    method TranslateChunk(chunk: seq<string>) returns (reply: Reply)
      modifies this
      ensures reply == Call(backend, old(calls), chunk)
      ensures store == old(store) && calls == old(calls) + 1
      ensures chunks == old(chunks) + if backend.Mock? && backend.record then [chunk] else []
    {
      var n := calls;
      calls := calls + 1;
      match backend
      case Mock(record) =>
        if record {
          chunks := chunks + [chunk];
        }
        reply := Reply(Mocked(chunk), []);
      case Google(fetch) =>
        var errors: seq<Error> := [];
        var trans: seq<string> := [];
        match fetch(n, chunk) {
          case Translated(ts) =>
            trans := ts;
          case Broken(cause) =>
            for i := 0 to |chunk|
              invariant errors == GoogleErrors(chunk[..i], cause)
            {
              errors := errors + [CannotTranslate(CannotTranslateMsg, chunk[i], cause)];
            }
            assert chunk[..|chunk|] == chunk;
        }
        reply := Reply(trans, errors);
      case Custom(call, _) =>
        reply := call(n, chunk);
    }

    /** The loop over `chunks` in `translate_texts`: each chunk goes to `_translate_chunk`
        once, in order. */
    method DispatchChunks(chunkList: seq<Chunk>) returns (trans: seq<Fragment>, errors: seq<Error>)
      modifies this
      ensures Dispatched(trans, errors) == Dispatch(chunkList, backend, old(calls))
      ensures store == old(store) && calls == old(calls) + |chunkList|
      ensures chunks == old(chunks) + Recorded(Sent(chunkList))
    {
      trans, errors := [], [];
      for k := 0 to |chunkList|
        invariant Dispatched(trans, errors) == Dispatch(chunkList[..k], backend, old(calls))
        invariant store == old(store) && calls == old(calls) + k
        invariant chunks == old(chunks) + Recorded(Sent(chunkList[..k]))
      {
        DispatchStep(chunkList, backend, old(calls), k);
        assert Sent(chunkList[..k + 1]) == Sent(chunkList[..k]) + [chunkList[k].lines];
        var reply := TranslateChunk(chunkList[k].lines);
        if reply.errors != [] {
          errors := errors + reply.errors;
        } else {
          trans := trans + Zip(chunkList[k].metas, reply.translations);
        }
      }
      assert chunkList[..|chunkList|] == chunkList;
    }

    /** What the mock records for a list of chunks sent. */
    function Recorded(sent: seq<seq<string>>): seq<seq<string>> {
      if backend.Mock? && backend.record then sent else []
    }

    /** `translate_texts(texts)`. `order` is the iteration order of `distinct_texts`. */
    method TranslateTexts(input: PyValue) returns (r: Result<Translation>, ghost order: seq<string>)
      modifies this
      ensures AsTexts(input).None? ==>
                r == Failure(MustSpecifyTexts) && store == old(store) && chunks == old(chunks) && calls == old(calls)
      ensures AsTexts(input).Some? ==>
                var texts := AsTexts(input).value;
                var o := Session(texts, old(store), order, backend, chunkSize, old(calls));
                && Enumerates(order, Prepare(texts, old(store)).distinct)
                && r == Success(Translation(o.result, o.errors))
                && store == o.store
                && chunks == old(chunks) + Recorded(o.sent)
                && calls == old(calls) + |o.sent|
    {
      order := [];
      var given := AsTexts(input);
      if given.None? {
        return Failure(MustSpecifyTexts), order;
      }
      var texts := given.value;
      var cache, distinct := PrepareTexts(texts, store);
      if distinct == {} {
        return Success(Translation(Lookup(texts, cache), [])), order;
      }
      var t;
      t, order := TranslateNew(texts, cache, distinct);
      r := Success(t);
    }

    /** The part of `translate_texts` after the first loop, when there are new texts. */
    method TranslateNew(texts: seq<string>, cache: map<string, string>, distinct: set<string>)
        returns (r: Translation, ghost order: seq<string>)
      modifies this
      requires Prepare(texts, store) == Prepared(cache, distinct) && distinct != {}
      ensures var o := Session(texts, old(store), order, backend, chunkSize, old(calls));
              && Enumerates(order, distinct)
              && r == Translation(o.result, o.errors)
              && store == o.store
              && chunks == old(chunks) + Recorded(o.sent)
              && calls == old(calls) + |o.sent|
    {
      var pending := EnumerateSet(distinct);
      order := pending;
      var chunkList, chunkErrors := ChunkTexts(pending, chunkSize);
      var trans, replyErrors := DispatchChunks(chunkList);
      assert chunks == old(chunks) + Recorded(Sent(chunkList)) && calls == old(calls) + |Sent(chunkList)|;
      var errors := chunkErrors + replyErrors;
      var translated := UnchunkTrans(trans);
      SessionStages(texts, old(store), order, backend, chunkSize, old(calls), Prepared(cache, distinct),
                    State(chunkList, ChunkFold(order, chunkSize).lastSize, chunkErrors), Dispatched(trans, replyErrors), translated);
      var merged := cache;
      if translated != map[] {
        merged := cache + translated;
        store := merged;
      }
      r := Translation(Lookup(texts, merged), errors);
    }
  }

  /** The first loop of `translate_texts`. */
  method PrepareTexts(texts: seq<string>, store: map<string, string>) returns (cache: map<string, string>, distinct: set<string>)
    ensures Prepared(cache, distinct) == Prepare(texts, store)
  {
    cache, distinct := store, {};
    for i := 0 to |texts|
      invariant Prepared(cache, distinct) == Prepare(texts[..i], store)
    {
      assert texts[..i + 1][..i] == texts[..i];
      var text := texts[i];
      if Strip(text) == [] {
        cache := cache[text := ""];
      } else if text !in cache {
        distinct := distinct + {text};
      }
    }
    assert texts[..|texts|] == texts;
  }

  /** The elements of a set, in whatever order the set yields them. */
  method EnumerateSet(d: set<string>) returns (order: seq<string>)
    ensures Enumerates(order, d)
  {
    order := [];
    var rest := d;
    while rest != {}
      invariant forall i, j :: 0 <= i < j < |order| ==> order[i] != order[j]
      invariant forall t :: t in d <==> t in rest || t in order
      invariant forall t :: t in rest ==> t !in order
      decreases |rest|
    {
      var t :| t in rest;
      order := order + [t];
      rest := rest - {t};
    }
  }
}
