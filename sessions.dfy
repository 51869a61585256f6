/** Properties of a translation session. */
module Sessions {
  import opened Wrappers
  import Utf8
  import opened Strings
  import opened Chunker
  import opened Reassembler
  import opened Translators

  /** The first loop caches every blank text as '' and collects exactly the non-blank texts
      the cache does not hold. */
  lemma {:induction false} PrepareSpec(texts: seq<string>, store: map<string, string>)
    ensures forall t :: t in Prepare(texts, store).cache <==> t in store || (t in texts && Strip(t) == [])
    ensures forall t :: t in Prepare(texts, store).cache ==>
              Prepare(texts, store).cache[t] == if t in texts && Strip(t) == [] then "" else store[t]
    ensures forall t :: t in Prepare(texts, store).distinct <==> t in texts && Strip(t) != [] && t !in store
  {
    if texts != [] {
      var n := |texts| - 1;
      PrepareSpec(texts[..n], store);
      assert texts == texts[..n] + [texts[n]];
      assert forall t :: t in texts <==> t in texts[..n] || t == texts[n];
    }
  }

  /** Only the chunks whose reply carries errors add errors, so the errors are the replies'
      errors in chunk order. */
  lemma {:induction false} DispatchErrors(chunks: seq<Chunk>, b: Backend, start: nat)
    ensures Dispatch(chunks, b, start).errors == ReplyErrors(chunks, b, start)
  {
    if chunks != [] {
      DispatchErrors(chunks[..|chunks| - 1], b, start);
    }
  }

  /** Pair `p` comes from chunk `k`, whose reply has no errors. */
  predicate Contributes(chunks: seq<Chunk>, b: Backend, start: nat, k: nat, p: Fragment)
    requires k < |chunks|
  {
    Call(b, start + k, chunks[k].lines).errors == [] && p in Zip(chunks[k].metas, Call(b, start + k, chunks[k].lines).translations)
  }

  /** A pair is collected exactly when some successful chunk zipped it: a failed chunk
      contributes nothing. */
  lemma {:induction false} DispatchPairs(chunks: seq<Chunk>, b: Backend, start: nat)
    ensures forall p :: p in Dispatch(chunks, b, start).trans <==> exists k :: 0 <= k < |chunks| && Contributes(chunks, b, start, k, p)
  {
    if chunks != [] {
      var n := |chunks| - 1;
      var prefix := chunks[..n];
      DispatchPairs(prefix, b, start);
      DispatchStep(chunks, b, start, n);
      assert chunks[..n + 1] == chunks;
      var d := Dispatch(prefix, b, start);
      var all := Dispatch(chunks, b, start).trans;
      forall p ensures p in all <==> exists k :: 0 <= k < |chunks| && Contributes(chunks, b, start, k, p) {
        if p in all {
          if p in d.trans {
            var k :| 0 <= k < |prefix| && Contributes(prefix, b, start, k, p);
            assert Contributes(chunks, b, start, k, p);
          } else {
            assert Contributes(chunks, b, start, n, p);
          }
        }
        if exists k :: 0 <= k < |chunks| && Contributes(chunks, b, start, k, p) {
          var k :| 0 <= k < |chunks| && Contributes(chunks, b, start, k, p);
          if k < n {
            assert Contributes(prefix, b, start, k, p);
          }
        }
      }
    }
  }

  /** Every collected pair carries the metadata of a string that was chunked. */
  lemma {:induction false} DispatchMetas(chunks: seq<Chunk>, b: Backend, start: nat)
    requires Parallel(chunks)
    ensures forall p :: p in Dispatch(chunks, b, start).trans ==> exists q :: q in Flatten(chunks) && q.meta == p.meta
  {
    if chunks != [] {
      var n := |chunks| - 1;
      var prefix := chunks[..n];
      var c := chunks[n];
      DispatchMetas(prefix, b, start);
      DispatchStep(chunks, b, start, n);
      assert chunks[..n + 1] == chunks;
      var d := Dispatch(prefix, b, start);
      var z := Zip(c.metas, Call(b, start + n, c.lines).translations);
      assert Flatten(chunks) == Flatten(prefix) + Zip(c.metas, c.lines);
      forall p | p in Dispatch(chunks, b, start).trans ensures exists q :: q in Flatten(chunks) && q.meta == p.meta {
        if p !in d.trans {
          var k :| 0 <= k < |z| && z[k] == p;
          assert Zip(c.metas, c.lines)[k].meta == p.meta;
        }
      }
    }
  }

  /** Two chunks with the same strings, sent one after the other, need not get the same
      reply: here the first call fails and the second succeeds, so only the second chunk's
      fragment is collected. */
  lemma RepeatedChunk(m0: Meta, m1: Meta, line: string, cause: string)
    ensures var fetch := (n: nat, c: seq<string>) => if n == 0 then Broken(cause) else Translated(c);
            var d := Dispatch([Chunk([m0], [line]), Chunk([m1], [line])], Google(fetch), 0);
            d.errors == [CannotTranslate(CannotTranslateMsg, line, cause)] && d.trans == [Fragment(m1, line)]
  {
    var fetch := (n: nat, c: seq<string>) => if n == 0 then Broken(cause) else Translated(c);
    var chunks := [Chunk([m0], [line]), Chunk([m1], [line])];
    DispatchStep(chunks, Google(fetch), 0, 0);
    DispatchStep(chunks, Google(fetch), 0, 1);
    assert chunks[..0] == [] && chunks[..2] == chunks;
    assert Call(Google(fetch), 0, [line]).errors == GoogleErrors([line], cause);
    assert Zip([m1], [line]) == [Fragment(m1, line)];
  }

  /** Pairs collected from chunks that hold `AllFragments(order, …)` refer to the texts of
      `order` by position. */
  lemma PairsOriginals(order: seq<string>, chunkSize: int, chunks: seq<Chunk>, b: Backend, start: nat)
    requires Parallel(chunks) && Flatten(chunks) == AllFragments(order, chunkSize)
    ensures forall p :: p in Dispatch(chunks, b, start).trans ==> p.meta.textId < |order| && p.meta.original == order[p.meta.textId]
  {
    DispatchMetas(chunks, b, start);
    AllFragmentsIds(order, chunkSize);
    var fs := Flatten(chunks);
    forall p | p in Dispatch(chunks, b, start).trans ensures p.meta.textId < |order| && p.meta.original == order[p.meta.textId] {
      var q :| q in fs && q.meta == p.meta;
      var i :| 0 <= i < |fs| && fs[i] == q;
    }
  }

  /** The pairs of a session refer to the enumerated texts by position. */
  lemma TransOriginals(order: seq<string>, chunkSize: int, b: Backend, start: nat)
    ensures forall p :: p in Dispatch(ChunkFold(order, chunkSize).chunks, b, start).trans ==>
              p.meta.textId < |order| && p.meta.original == order[p.meta.textId]
  {
    ChunkFoldSpec(order, chunkSize);
    PairsOriginals(order, chunkSize, ChunkFold(order, chunkSize).chunks, b, start);
  }

  /** Texts of an enumeration are distinct, so the session's pairs are keyed. */
  lemma TransKeyed(order: seq<string>, chunkSize: int, b: Backend, start: nat)
    requires forall i, j :: 0 <= i < j < |order| ==> order[i] != order[j]
    ensures Keyed(Dispatch(ChunkFold(order, chunkSize).chunks, b, start).trans)
  {
    TransOriginals(order, chunkSize, b, start);
  }

  /** The keys `_unchunk_trans` produces are texts that were sent. */
  lemma TranslatedKeys(order: seq<string>, chunkSize: int, b: Backend, start: nat)
    ensures forall t :: t in Unchunk(Dispatch(ChunkFold(order, chunkSize).chunks, b, start).trans) ==> t in order
  {
    var trans := Dispatch(ChunkFold(order, chunkSize).chunks, b, start).trans;
    TransOriginals(order, chunkSize, b, start);
    forall t | t in Unchunk(trans) ensures t in order {
      UnchunkKeySource(trans, t);
    }
  }

  /** The texts sent for translation are exactly the non-blank texts missing from the cache:
      cached and blank texts are never sent. */
  lemma NotSent(texts: seq<string>, store: map<string, string>, order: seq<string>)
    requires Enumerates(order, Prepare(texts, store).distinct)
    ensures forall t :: t in order <==> t in texts && Strip(t) != [] && t !in store
  {
    PrepareSpec(texts, store);
  }

  /** What a session translated: only new non-blank texts, each text with a pair, and for
      each the translations of its fragments joined with ' ' in `(line_id, translation)`
      order. */
  lemma SessionTranslated(texts: seq<string>, store: map<string, string>, order: seq<string>, b: Backend, chunkSize: int, calls: nat)
    requires Enumerates(order, Prepare(texts, store).distinct)
    ensures forall t :: t in Session(texts, store, order, b, chunkSize, calls).translated ==> t in texts && Strip(t) != [] && t !in store
    ensures Prepare(texts, store).distinct != {} ==>
              var trans := Dispatch(ChunkFold(order, chunkSize).chunks, b, calls).trans;
              var u := Session(texts, store, order, b, chunkSize, calls).translated;
              && (forall t :: t in u <==> exists p :: p in trans && p.meta.original == t)
              && (forall p :: p in trans ==> p.meta.original in u && u[p.meta.original] == Value(LinesOf(trans, p.meta.textId)))
  {
    NotSent(texts, store, order);
    if Prepare(texts, store).distinct != {} {
      var trans := Dispatch(ChunkFold(order, chunkSize).chunks, b, calls).trans;
      TranslatedKeys(order, chunkSize, b, calls);
      TransKeyed(order, chunkSize, b, calls);
      UnchunkKeys(trans);
      forall p | p in trans ensures p.meta.original in Unchunk(trans) && Unchunk(trans)[p.meta.original] == Value(LinesOf(trans, p.meta.textId)) {
        UnchunkValue(trans, p);
      }
    }
  }

  /** The returned map has one entry per input text: '' for a blank text, the cached value
      for a cached text, the new translation for a translated text, and None otherwise. */
  lemma SessionResult(texts: seq<string>, store: map<string, string>, order: seq<string>, b: Backend, chunkSize: int, calls: nat)
    requires Enumerates(order, Prepare(texts, store).distinct)
    ensures var o := Session(texts, store, order, b, chunkSize, calls);
            && (forall t :: t in o.result <==> t in texts)
            && (forall t :: t in texts ==>
                  o.result[t] == (if Strip(t) == [] then Some("")
                                  else if t in store then Some(store[t])
                                  else if t in o.translated then Some(o.translated[t])
                                  else None))
  {
    PrepareSpec(texts, store);
    SessionTranslated(texts, store, order, b, chunkSize, calls);
  }

  /** The saved cache: untouched when nothing was translated; otherwise the old cache with
      blank texts set to '' and the new translations added, every other entry unchanged. */
  lemma SessionStore(texts: seq<string>, store: map<string, string>, order: seq<string>, b: Backend, chunkSize: int, calls: nat)
    requires Enumerates(order, Prepare(texts, store).distinct)
    ensures var o := Session(texts, store, order, b, chunkSize, calls);
            && (o.translated == map[] ==> o.store == store)
            && (o.translated != map[] ==>
                  && (forall k :: k in o.store <==> k in store || k in o.translated || (k in texts && Strip(k) == []))
                  && (forall k :: k in o.translated ==> o.store[k] == o.translated[k])
                  && (forall k :: k in texts && Strip(k) == [] ==> o.store[k] == ""))
            && (forall k :: k in store && !(k in texts && Strip(k) == []) ==> k in o.store && o.store[k] == store[k])
  {
    PrepareSpec(texts, store);
    SessionTranslated(texts, store, order, b, chunkSize, calls);
  }

  /** Chunking errors come first, then every failed chunk's errors in chunk order; nothing
      new means no errors. */
  lemma SessionErrors(texts: seq<string>, store: map<string, string>, order: seq<string>, b: Backend, chunkSize: int, calls: nat)
    ensures Prepare(texts, store).distinct == {} ==> Session(texts, store, order, b, chunkSize, calls).errors == []
    ensures Prepare(texts, store).distinct != {} ==>
              Session(texts, store, order, b, chunkSize, calls).errors ==
              RejectedErrors(order, chunkSize) + ReplyErrors(ChunkFold(order, chunkSize).chunks, b, calls)
  {
    ChunkFoldSpec(order, chunkSize);
    DispatchErrors(ChunkFold(order, chunkSize).chunks, b, calls);
  }

  /** Nothing is sent when every text is blank or cached. */
  lemma SessionNothingNew(texts: seq<string>, store: map<string, string>, order: seq<string>, b: Backend, chunkSize: int, calls: nat)
    requires forall t :: t in texts ==> Strip(t) == [] || t in store
    ensures Session(texts, store, order, b, chunkSize, calls).sent == []
    ensures Session(texts, store, order, b, chunkSize, calls).store == store
  {
    PrepareSpec(texts, store);
    assert Prepare(texts, store).distinct == {};
  }

  /** A single text that fits goes, stripped, into the initial chunk. */
  lemma ChunkSingle(t: string, chunkSize: int)
    requires Utf8.Size(t) < chunkSize
    ensures ChunkFold([t], chunkSize) == State([Chunk([Meta(0, 0, t)], [Strip(t)])], Utf8.Size(t), [])
  {
    assert [t][..0] == [];
    var m := Meta(0, 0, t);
    assert ChunkFold([t], chunkSize) == AddFragment(Initial, chunkSize, m, Strip(t), Utf8.Size(t));
    var c0 := Chunk([], []);
    assert Initial.chunks == [c0];
    assert [c0][..0] == [];
    assert c0.metas + [m] == [m] && c0.lines + [Strip(t)] == [Strip(t)];
    assert Extend([c0], m, Strip(t)) == [Chunk([m], [Strip(t)])];
  }

  /** The mock's pairs for that chunk. */
  lemma MockDispatchSingle(m: Meta, line: string, record: bool, calls: nat)
    ensures Dispatch([Chunk([m], [line])], Mock(record), calls) == Dispatched([Fragment(m, MockPrefix + line)], [])
  {
    var chunks := [Chunk([m], [line])];
    assert chunks[..0] == [];
    assert Call(Mock(record), calls, [line]).translations == [MockPrefix + line];
  }

  /** The chunk, pairs and translation of a single text that fits, sent to the mock. */
  lemma MockSingleParts(t: string, record: bool, chunkSize: int, calls: nat)
    requires Utf8.Size(t) < chunkSize
    ensures var st := ChunkFold([t], chunkSize);
            var d := Dispatch(st.chunks, Mock(record), calls);
            && st.errors == [] && Sent(st.chunks) == [[Strip(t)]]
            && d.errors == [] && Unchunk(d.trans) == map[t := MockPrefix + Strip(t)]
  {
    var m := Meta(0, 0, t);
    ChunkSingle(t, chunkSize);
    MockDispatchSingle(m, Strip(t), record, calls);
    UnchunkSingle(Fragment(m, MockPrefix + Strip(t)));
  }

  /** One new text that fits a chunk, sent to the mock: it is sent stripped, in a chunk of
      its own, and comes back prefixed with "MOCKED: ", which is also saved. */
  lemma MockSingleText(t: string, store: map<string, string>, record: bool, chunkSize: int, calls: nat)
    requires Strip(t) != [] && t !in store && Utf8.Size(t) < chunkSize
    ensures var o := Session([t], store, [t], Mock(record), chunkSize, calls);
            && o.result == map[t := Some(MockPrefix + Strip(t))]
            && o.errors == []
            && o.sent == [[Strip(t)]]
            && o.store == store[t := MockPrefix + Strip(t)]
  {
    var texts := [t];
    PrepareSpec(texts, store);
    var p := Prepare(texts, store);
    assert p.cache == store && p.distinct == {t};
    MockSingleParts(t, record, chunkSize, calls);
    var line := MockPrefix + Strip(t);
    MergeSingle(store, t, line);
    LookupSingle(t, store[t := line]);
    SessionFresh(texts, store, texts, Mock(record), chunkSize, calls);
  }

  /** A session with new texts, spelled out. */
  lemma SessionFresh(texts: seq<string>, store: map<string, string>, order: seq<string>, b: Backend, chunkSize: int, calls: nat)
    requires Prepare(texts, store).distinct != {}
    ensures var p := Prepare(texts, store);
            var st := ChunkFold(order, chunkSize);
            var d := Dispatch(st.chunks, b, calls);
            var u := Unchunk(d.trans);
            u != map[] ==>
              Session(texts, store, order, b, chunkSize, calls) ==
              Outcome(Lookup(texts, p.cache + u), st.errors + d.errors, p.cache + u, Sent(st.chunks), u)
  {
  }

  lemma MergeSingle(c: map<string, string>, t: string, v: string)
    ensures c + map[t := v] == c[t := v]
  {
  }

  lemma LookupSingle(t: string, c: map<string, string>)
    requires t in c
    ensures Lookup([t], c) == map[t := Some(c[t])]
  {
    assert forall x :: x in [t] <==> x == t;
  }
}
