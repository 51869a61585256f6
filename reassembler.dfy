/** `Translator._unchunk_trans`: sorts the `((text_id, line_id, original_text), translation)`
    pairs, groups them by `text_id` and joins each group's translations with a space,
    keyed by the original text. */
module Reassembler {
  import opened Strings
  import opened Sorting
  import opened Chunker

  /** The `(line_id, translation)` tuples a group collects. */
  datatype Line = Line(lineId: nat, tran: string)

  /** `texts[text_id]`: the original text and its collected lines. */
  datatype Group = Group(original: string, lines: seq<Line>)

  /** The dict `texts`: its keys in insertion order, and its entries. */
  datatype Groups = Groups(keys: seq<nat>, entries: map<nat, Group>)

  // ---------------------------------------------------------------------------
  // Python's tuple order.

  /** `x < y` for strings, by code point. */
  predicate StrLt(x: string, y: string) {
    StrLe(x, y) && x != y
  }

  /** Tuple order on `(line_id, translation)`. */
  predicate LineLe(a: Line, b: Line) {
    a.lineId < b.lineId || (a.lineId == b.lineId && StrLe(a.tran, b.tran))
  }

  /** Tuple order on `((text_id, line_id, original_text), translation)`. */
  predicate PairLe(a: Fragment, b: Fragment) {
    || a.meta.textId < b.meta.textId
    || (a.meta.textId == b.meta.textId &&
        (|| a.meta.lineId < b.meta.lineId
         || (a.meta.lineId == b.meta.lineId &&
             (|| StrLt(a.meta.original, b.meta.original)
              || (a.meta.original == b.meta.original && StrLe(a.text, b.text))))))
  }

  lemma LineLeTotalOrder()
    ensures TotalOrder(LineLe)
  {
    forall x: Line, y: Line ensures LineLe(x, y) || LineLe(y, x) {
      StrLeTotal(x.tran, y.tran);
    }
    forall x: Line, y: Line | LineLe(x, y) && LineLe(y, x) ensures x == y {
      StrLeAntisymmetric(x.tran, y.tran);
    }
    forall x: Line, y: Line, z: Line | LineLe(x, y) && LineLe(y, z) ensures LineLe(x, z) {
      if x.lineId == y.lineId == z.lineId {
        StrLeTransitive(x.tran, y.tran, z.tran);
      }
    }
  }

  lemma StrLtTransitive(x: string, y: string, z: string)
    requires StrLe(x, y) && StrLe(y, z) && (StrLt(x, y) || StrLt(y, z))
    ensures StrLt(x, z)
  {
    StrLeTransitive(x, y, z);
    if x == z {
      StrLeAntisymmetric(x, y);
    }
  }

  lemma PairLeTotal(x: Fragment, y: Fragment)
    ensures PairLe(x, y) || PairLe(y, x)
  {
    StrLeTotal(x.meta.original, y.meta.original);
    StrLeTotal(x.text, y.text);
  }

  lemma PairLeAntisymmetric(x: Fragment, y: Fragment)
    requires PairLe(x, y) && PairLe(y, x)
    ensures x == y
  {
    if StrLe(x.meta.original, y.meta.original) && StrLe(y.meta.original, x.meta.original) {
      StrLeAntisymmetric(x.meta.original, y.meta.original);
    }
    if StrLe(x.text, y.text) && StrLe(y.text, x.text) {
      StrLeAntisymmetric(x.text, y.text);
    }
  }

  lemma PairLeTransitive(x: Fragment, y: Fragment, z: Fragment)
    requires PairLe(x, y) && PairLe(y, z)
    ensures PairLe(x, z)
  {
    if x.meta.textId == y.meta.textId == z.meta.textId && x.meta.lineId == y.meta.lineId == z.meta.lineId {
      var a, b, c := x.meta.original, y.meta.original, z.meta.original;
      StrLeTotal(a, a);
      StrLeTotal(b, b);
      if a == b == c {
        StrLeTransitive(x.text, y.text, z.text);
      } else {
        StrLtTransitive(a, b, c);
      }
    }
  }

  lemma PairLeTotalOrder()
    ensures TotalOrder(PairLe)
  {
    forall x, y ensures PairLe(x, y) || PairLe(y, x) {
      PairLeTotal(x, y);
    }
    forall x, y | PairLe(x, y) && PairLe(y, x) ensures x == y {
      PairLeAntisymmetric(x, y);
    }
    forall x, y, z | PairLe(x, y) && PairLe(y, z) ensures PairLe(x, z) {
      PairLeTransitive(x, y, z);
    }
  }

  // ---------------------------------------------------------------------------
  // The two loops as folds.

  /** The first loop: group the pairs by `text_id` in order of appearance. */
  function Collect(ps: seq<Fragment>): Groups {
    if ps == [] then Groups([], map[])
    else
      var prev := Collect(ps[..|ps| - 1]);
      var p := ps[|ps| - 1];
      var tid := p.meta.textId;
      var line := Line(p.meta.lineId, p.text);
      if tid !in prev.entries then
        Groups(prev.keys + [tid], prev.entries[tid := Group(p.meta.original, [line])])
      else
        Groups(prev.keys, prev.entries[tid := Group(prev.entries[tid].original, prev.entries[tid].lines + [line])])
  }

  /** The translations of some lines, in order. */
  function Trans(lines: seq<Line>): seq<string>
  {
    if lines == [] then [] else [lines[0].tran] + Trans(lines[1..])
  }

  /** `' '.join([tran for line_id, tran in sorted(trans)])`. */
  function Value(lines: seq<Line>): string {
    Join(" ", Trans(Sort(LineLe, lines)))
  }

  /** The keys are distinct and are exactly the entries' keys. */
  ghost predicate GroupsOk(g: Groups) {
    && (forall i, j :: 0 <= i < j < |g.keys| ==> g.keys[i] != g.keys[j])
    && (forall k :: k in g.entries <==> k in g.keys)
  }

  /** The second loop over `texts.values()`, up to (not including) the `n`-th key. */
  function Assemble(g: Groups, n: nat): map<string, string>
    requires GroupsOk(g) && n <= |g.keys|
  {
    if n == 0 then map[]
    else
      var grp := g.entries[g.keys[n - 1]];
      Assemble(g, n - 1)[grp.original := Value(grp.lines)]
  }

  /** Both loops over already sorted pairs. */
  function Grouped(ps: seq<Fragment>): map<string, string> {
    var g := Collect(ps);
    CollectOk(ps);
    Assemble(g, |g.keys|)
  }

  /** What `_unchunk_trans(trans)` returns. */
  function Unchunk(trans: seq<Fragment>): map<string, string> {
    Grouped(Sort(PairLe, trans))
  }

  // ---------------------------------------------------------------------------
  // The method.

  /** `_unchunk_trans(trans)`. */
  method UnchunkTrans(trans: seq<Fragment>) returns (ret: map<string, string>)
    ensures ret == Unchunk(trans)
  {
    var sorted := Sort(PairLe, trans);
    var keys, texts := GroupPairs(sorted);
    CollectOk(sorted);
    ret := JoinGroups(keys, texts);
  }

  /** The first loop: `texts[text_id] = orig, []` for a new `text_id`, then the line is
      appended to its group. `keys` keeps the dictionary's insertion order. */
  method GroupPairs(sorted: seq<Fragment>) returns (keys: seq<nat>, texts: map<nat, Group>)
    ensures Groups(keys, texts) == Collect(sorted)
  {
    keys, texts := [], map[];
    for i := 0 to |sorted|
      invariant Groups(keys, texts) == Collect(sorted[..i])
    {
      assert sorted[..i + 1][..i] == sorted[..i];
      var p := sorted[i];
      var tid := p.meta.textId;
      var line := Line(p.meta.lineId, p.text);
      ghost var prev := Groups(keys, texts);
      if tid !in texts {
        keys, texts := keys + [tid], texts[tid := Group(p.meta.original, [])];
      }
      texts := texts[tid := Group(texts[tid].original, texts[tid].lines + [line])];
      if tid !in prev.entries {
        assert [] + [line] == [line];
        assert texts == prev.entries[tid := Group(p.meta.original, [line])];
      }
    }
    assert sorted[..|sorted|] == sorted;
  }

  /** The second loop over `texts.values()`, in insertion order. */
  method JoinGroups(keys: seq<nat>, texts: map<nat, Group>) returns (ret: map<string, string>)
    requires GroupsOk(Groups(keys, texts))
    ensures ret == Assemble(Groups(keys, texts), |keys|)
  {
    ret := map[];
    for j := 0 to |keys|
      invariant ret == Assemble(Groups(keys, texts), j)
    {
      var grp := texts[keys[j]];
      ret := ret[grp.original := Value(grp.lines)];
    }
  }

  // ---------------------------------------------------------------------------
  // What `Collect` builds.

  /** The lines of the pairs of text `tid`, in order. */
  function LinesOf(ps: seq<Fragment>, tid: nat): seq<Line> {
    if ps == [] then []
    else
      var p := ps[|ps| - 1];
      LinesOf(ps[..|ps| - 1], tid) + if p.meta.textId == tid then [Line(p.meta.lineId, p.text)] else []
  }

  lemma {:induction false} CollectOk(ps: seq<Fragment>)
    ensures GroupsOk(Collect(ps))
    ensures forall i :: 0 <= i < |ps| ==> ps[i].meta.textId in Collect(ps).entries
    ensures forall k :: k in Collect(ps).entries ==> exists i :: 0 <= i < |ps| && ps[i].meta.textId == k
  {
    if ps != [] {
      var n := |ps| - 1;
      var prev := Collect(ps[..n]);
      CollectOk(ps[..n]);
      forall i | 0 <= i < |ps| ensures ps[i].meta.textId in Collect(ps).entries {
        if i < n { assert ps[..n][i] == ps[i]; }
      }
      forall k | k in Collect(ps).entries ensures exists i :: 0 <= i < |ps| && ps[i].meta.textId == k {
        if k in prev.entries {
          var i :| 0 <= i < n && ps[..n][i].meta.textId == k;
          assert ps[i] == ps[..n][i];
        } else {
          assert ps[n].meta.textId == k;
        }
      }
    }
  }

  /** Each group holds the lines of its text in the order of the pairs. */
  lemma {:induction false} CollectLines(ps: seq<Fragment>, tid: nat)
    requires tid in Collect(ps).entries
    ensures Collect(ps).entries[tid].lines == LinesOf(ps, tid)
  {
    var n := |ps| - 1;
    var p := ps[n];
    var prev := Collect(ps[..n]);
    if tid in prev.entries {
      CollectLines(ps[..n], tid);
    } else {
      assert p.meta.textId == tid;
      LinesOfAbsent(ps[..n], tid);
    }
  }

  /** A text with no group in a prefix has no lines there. */
  lemma {:induction false} LinesOfAbsent(ps: seq<Fragment>, tid: nat)
    requires tid !in Collect(ps).entries
    ensures LinesOf(ps, tid) == []
  {
    if ps != [] {
      LinesOfAbsent(ps[..|ps| - 1], tid);
    }
  }

  /** Each group's original text is that of one of its pairs. */
  lemma {:induction false} CollectOriginal(ps: seq<Fragment>, tid: nat)
    requires tid in Collect(ps).entries
    ensures exists i :: 0 <= i < |ps| && ps[i].meta.textId == tid && ps[i].meta.original == Collect(ps).entries[tid].original
  {
    var n := |ps| - 1;
    var prev := Collect(ps[..n]);
    if tid in prev.entries {
      CollectOriginal(ps[..n], tid);
      var i :| 0 <= i < n && ps[..n][i].meta.textId == tid && ps[..n][i].meta.original == prev.entries[tid].original;
      assert ps[i] == ps[..n][i];
    } else {
      assert ps[n].meta.textId == tid;
    }
  }

  // ---------------------------------------------------------------------------
  // What `Assemble` builds.

  /** The result's keys are the groups' original texts. */
  lemma {:induction false} AssembleKeys(g: Groups, n: nat)
    requires GroupsOk(g) && n <= |g.keys|
    ensures forall o :: o in Assemble(g, n) <==> exists j :: 0 <= j < n && g.entries[g.keys[j]].original == o
  {
    if n > 0 {
      AssembleKeys(g, n - 1);
    }
  }

  /** The value under a group's original text is that group's joined translation, when no
      other group has the same original text. */
  lemma {:induction false} AssembleValue(g: Groups, n: nat, j: nat)
    requires GroupsOk(g) && j < n <= |g.keys|
    requires forall i :: 0 <= i < n && g.entries[g.keys[i]].original == g.entries[g.keys[j]].original ==> i == j
    ensures g.entries[g.keys[j]].original in Assemble(g, n)
    ensures Assemble(g, n)[g.entries[g.keys[j]].original] == Value(g.entries[g.keys[j]].lines)
  {
    if j < n - 1 {
      AssembleValue(g, n - 1, j);
      assert g.entries[g.keys[n - 1]].original != g.entries[g.keys[j]].original;
    }
  }

  // ---------------------------------------------------------------------------
  // Properties of `Unchunk`.

  /** Within `trans`, pairs have the same `text_id` exactly when they have the same original
      text (as the chunker's `text_id` numbers a set of distinct texts). */
  ghost predicate Keyed(trans: seq<Fragment>) {
    forall p, q :: p in trans && q in trans ==> (p.meta.textId == q.meta.textId <==> p.meta.original == q.meta.original)
  }

  /** The result does not depend on the order of the pairs. */
  lemma UnchunkOrderIndependent(a: seq<Fragment>, b: seq<Fragment>)
    requires multiset(a) == multiset(b)
    ensures Unchunk(a) == Unchunk(b)
  {
    PairLeTotalOrder();
    SortPermutation(PairLe, a, b);
  }

  /** `Keyed`, stated by position. */
  ghost predicate KeyedAt(ps: seq<Fragment>) {
    forall i, j :: 0 <= i < |ps| && 0 <= j < |ps| ==>
      (ps[i].meta.textId == ps[j].meta.textId <==> ps[i].meta.original == ps[j].meta.original)
  }

  lemma KeyedSorted(trans: seq<Fragment>)
    requires Keyed(trans)
    ensures KeyedAt(Sort(PairLe, trans))
  {
    var s := Sort(PairLe, trans);
    SortMultiset(PairLe, trans);
    forall i, j | 0 <= i < |s| && 0 <= j < |s|
      ensures s[i].meta.textId == s[j].meta.textId <==> s[i].meta.original == s[j].meta.original
    {
      assert s[i] in multiset(trans) && s[j] in multiset(trans);
    }
  }

  /** Every key of the result is the original text of some pair. */
  lemma UnchunkKeySource(trans: seq<Fragment>, o: string)
    requires o in Unchunk(trans)
    ensures exists p :: p in trans && p.meta.original == o
  {
    var s := Sort(PairLe, trans);
    var g := Collect(s);
    SortMultiset(PairLe, trans);
    CollectOk(s);
    AssembleKeys(g, |g.keys|);
    var j :| 0 <= j < |g.keys| && g.entries[g.keys[j]].original == o;
    CollectOriginal(s, g.keys[j]);
    var i :| 0 <= i < |s| && s[i].meta.textId == g.keys[j] && s[i].meta.original == o;
    assert s[i] in multiset(trans);
  }

  /** Over grouped pairs, a pair's original text maps to the value of its text's lines. */
  lemma GroupedValue(ps: seq<Fragment>, i: nat)
    requires KeyedAt(ps) && i < |ps|
    ensures ps[i].meta.original in Grouped(ps)
    ensures Grouped(ps)[ps[i].meta.original] == Value(LinesOf(ps, ps[i].meta.textId))
  {
    var g := Collect(ps);
    var tid := ps[i].meta.textId;
    CollectOk(ps);
    assert tid in g.keys;
    var j :| 0 <= j < |g.keys| && g.keys[j] == tid;
    CollectOriginal(ps, tid);
    forall k | 0 <= k < |g.keys| && g.entries[g.keys[k]].original == g.entries[g.keys[j]].original
      ensures k == j
    {
      CollectOriginal(ps, g.keys[k]);
    }
    AssembleValue(g, |g.keys|, j);
    CollectLines(ps, tid);
  }

  lemma {:induction false} LinesOfConcat(a: seq<Fragment>, b: seq<Fragment>, tid: nat)
    ensures LinesOf(a + b, tid) == LinesOf(a, tid) + LinesOf(b, tid)
  {
    if b == [] {
      assert a + b == a;
    } else {
      var n := |b| - 1;
      assert (a + b)[..|a + b| - 1] == a + b[..n];
      LinesOfConcat(a, b[..n], tid);
    }
  }

  lemma MultisetRemove<T>(b: seq<T>, j: nat)
    requires j < |b|
    ensures multiset(b) == multiset(b[..j] + b[j + 1..]) + multiset{b[j]}
  {
    assert b == b[..j] + [b[j]] + b[j + 1..];
  }

  lemma LinesOfSplit(b: seq<Fragment>, j: nat, tid: nat)
    requires j < |b|
    ensures multiset(LinesOf(b, tid)) == multiset(LinesOf(b[..j] + b[j + 1..], tid)) + multiset(LinesOf([b[j]], tid))
  {
    assert b == b[..j] + [b[j]] + b[j + 1..];
    LinesOfConcat(b[..j], [b[j]], tid);
    LinesOfConcat(b[..j] + [b[j]], b[j + 1..], tid);
    LinesOfConcat(b[..j], b[j + 1..], tid);
  }

  /** Permuting the pairs permutes each text's lines. */
  lemma {:induction false} LinesOfPermutation(a: seq<Fragment>, b: seq<Fragment>, tid: nat)
    requires multiset(a) == multiset(b)
    ensures multiset(LinesOf(a, tid)) == multiset(LinesOf(b, tid))
    decreases |a|
  {
    if a != [] {
      var n := |a| - 1;
      var x := a[n];
      assert x in multiset(b);
      var j :| 0 <= j < |b| && b[j] == x;
      MultisetRemove(a, n);
      MultisetRemove(b, j);
      assert a[..n] + a[n + 1..] == a[..n];
      assert multiset(a[..n]) == multiset(a) - multiset{x};
      assert multiset(b[..j] + b[j + 1..]) == multiset(b) - multiset{x};
      LinesOfPermutation(a[..n], b[..j] + b[j + 1..], tid);
      LinesOfSplit(a, n, tid);
      LinesOfSplit(b, j, tid);
    }
  }

  /** The joined translation does not depend on the order of the lines. */
  lemma ValuePermutation(a: seq<Line>, b: seq<Line>)
    requires multiset(a) == multiset(b)
    ensures Value(a) == Value(b)
  {
    LineLeTotalOrder();
    SortPermutation(LineLe, a, b);
  }

  /** The value under a pair's original text is the space-join of the translations of all
      pairs of its text, sorted by `(line_id, translation)`. */
  lemma UnchunkValue(trans: seq<Fragment>, p: Fragment)
    requires Keyed(trans) && p in trans
    ensures p.meta.original in Unchunk(trans)
    ensures Unchunk(trans)[p.meta.original] == Value(LinesOf(trans, p.meta.textId))
  {
    var s := Sort(PairLe, trans);
    SortMultiset(PairLe, trans);
    KeyedSorted(trans);
    assert p in multiset(s);
    var i :| 0 <= i < |s| && s[i] == p;
    GroupedValue(s, i);
    LinesOfPermutation(s, trans, p.meta.textId);
    ValuePermutation(LinesOf(s, p.meta.textId), LinesOf(trans, p.meta.textId));
  }

  /** The result's keys are exactly the original texts of the pairs. */
  lemma UnchunkKeys(trans: seq<Fragment>)
    requires Keyed(trans)
    ensures forall o :: o in Unchunk(trans) <==> exists p :: p in trans && p.meta.original == o
  {
    forall o ensures o in Unchunk(trans) <==> exists p :: p in trans && p.meta.original == o {
      if o in Unchunk(trans) {
        UnchunkKeySource(trans, o);
      }
      if exists p :: p in trans && p.meta.original == o {
        var p :| p in trans && p.meta.original == o;
        UnchunkValue(trans, p);
      }
    }
  }

  /** When a text's lines already come in ascending order, they are joined in that order. */
  lemma ValueInOrder(lines: seq<Line>)
    requires forall i, j :: 0 <= i < j < |lines| ==> lines[i].lineId < lines[j].lineId
    ensures Value(lines) == Join(" ", Trans(lines))
  {
    LineLeTotalOrder();
    SortOfSorted(LineLe, lines);
  }

  /** A single pair maps its original text to its translation. */
  lemma UnchunkSingle(p: Fragment)
    ensures Unchunk([p]) == map[p.meta.original := p.text]
  {
    var line := Line(p.meta.lineId, p.text);
    assert Sort(PairLe, [p]) == [p];
    assert [p][..|[p]| - 1] == [];
    assert Collect([]) == Groups([], map[]);
    var g := Collect([p]);
    assert g == Groups([p.meta.textId], map[p.meta.textId := Group(p.meta.original, [line])]);
    assert Sort(LineLe, [line]) == [line];
    assert Trans([line]) == [p.text];
    assert Value([line]) == p.text;
    CollectOk([p]);
    assert Assemble(g, 1) == Assemble(g, 0)[p.meta.original := p.text];
  }

  /** A text with a single pair among any others maps to that pair's translation
      unchanged, whatever its `line_id`. */
  lemma UnchunkOneFragment(trans: seq<Fragment>, i: nat)
    requires Keyed(trans) && i < |trans|
    requires forall j :: 0 <= j < |trans| && trans[j].meta.textId == trans[i].meta.textId ==> j == i
    ensures trans[i].meta.original in Unchunk(trans)
    ensures Unchunk(trans)[trans[i].meta.original] == trans[i].text
  {
    var p := trans[i];
    var line := Line(p.meta.lineId, p.text);
    UnchunkValue(trans, p);
    LinesOfOnly(trans, p.meta.textId, i);
    assert Sort(LineLe, [line]) == [line];
    assert Trans([line]) == [p.text];
  }

  /** No pair carries `tid`: it has no lines. */
  lemma {:induction false} LinesOfNone(ps: seq<Fragment>, tid: nat)
    requires forall j :: 0 <= j < |ps| ==> ps[j].meta.textId != tid
    ensures LinesOf(ps, tid) == []
  {
    if ps != [] {
      LinesOfNone(ps[..|ps| - 1], tid);
    }
  }

  /** Only pair `i` carries `tid`: its line is the only one. */
  lemma {:induction false} LinesOfOnly(ps: seq<Fragment>, tid: nat, i: nat)
    requires i < |ps| && ps[i].meta.textId == tid
    requires forall j :: 0 <= j < |ps| && ps[j].meta.textId == tid ==> j == i
    ensures LinesOf(ps, tid) == [Line(ps[i].meta.lineId, ps[i].text)]
  {
    var n := |ps| - 1;
    var prefix := ps[..n];
    if i == n {
      LinesOfNone(prefix, tid);
    } else {
      LinesOfOnly(prefix, tid, i);
    }
  }
}
