/** The default output file of `EPUBTranslator.translate`: the input's lower-cased base
    name without ".epub", with every non-alphanumeric character replaced by '_', followed by
    ".tran.epub" or ".dual.epub", in the input's directory. Paths are POSIX paths. */
module OutputName {
  import opened Wrappers

  datatype TranslationType = Inline | Replace

  const EpubSuffix: string := ".epub"
  const ReplaceSuffix: string := ".tran.epub"
  const InlineSuffix: string := ".dual.epub"
  const AssertionFailed: string := "AssertionError"

  /** Index of the last '/' of `p`, or -1 when there is none. */
  function LastSlash(p: string): (r: int)
    ensures -1 <= r < |p|
    ensures r == -1 <==> '/' !in p
    ensures r >= 0 ==> p[r] == '/' && '/' !in p[r + 1..]
  {
    if p == [] then -1
    else if p[|p| - 1] == '/' then |p| - 1
    else
      var r := LastSlash(p[..|p| - 1]);
      assert p == p[..|p| - 1] + [p[|p| - 1]];
      if r >= 0 then assert p[r + 1..] == p[..|p| - 1][r + 1..] + [p[|p| - 1]]; r else r
  }

  /** `os.path.basename`: what follows the last '/'. */
  function Basename(p: string): string {
    p[LastSlash(p) + 1..]
  }

  /** Everything up to and including the last '/'. */
  function Head(p: string): string {
    p[..LastSlash(p) + 1]
  }

  /** `s.rstrip('/')`. */
  function StripTrailingSlashes(s: string): (r: string)
    ensures |r| <= |s| && r == s[..|r|]
    ensures r == [] || r[|r| - 1] != '/'
    ensures forall i :: |r| <= i < |s| ==> s[i] == '/'
  {
    if s == [] || s[|s| - 1] != '/' then s else StripTrailingSlashes(s[..|s| - 1])
  }

  /** `os.path.dirname`: the head with its trailing slashes removed, unless it is made of
      slashes only. */
  function Dirname(p: string): (r: string)
    ensures |r| <= |p| && r == p[..|r|]
    ensures '/' !in p ==> r == []
    ensures '/' in p ==> r != []
    ensures r != [] && r[|r| - 1] == '/' ==> forall i :: 0 <= i < |r| ==> r[i] == '/'
  {
    var head := Head(p);
    if head != [] && exists i :: 0 <= i < |head| && head[i] != '/' then StripTrailingSlashes(head) else head
  }

  /** `os.path.join(a, b)`. */
  function JoinPath(a: string, b: string): (r: string)
    ensures EndsWith(r, b)
    ensures b != [] && b[0] == '/' ==> r == b
    ensures !(b != [] && b[0] == '/') ==>
              && |a| <= |r| - |b| <= |a| + 1 && r[..|a|] == a
              && (a != [] ==> r[|r| - |b| - 1] == '/')
    ensures !(b != [] && b[0] == '/') && (a == [] || a[|a| - 1] == '/') ==> r == a + b
    ensures !(b != [] && b[0] == '/') && a != [] && a[|a| - 1] != '/' ==> r == a + "/" + b
  {
    if b != [] && b[0] == '/' then b
    else if a == [] || a[|a| - 1] == '/' then a + b
    else a + "/" + b
  }

  /** `''.join(c if c.isalnum() else '_' for c in s)`. */
  function Sanitize(s: string, isAlnum: char -> bool): (r: string)
    ensures |r| == |s|
    ensures forall i :: 0 <= i < |s| ==> r[i] == if isAlnum(s[i]) then s[i] else '_'
  {
    seq(|s|, i requires 0 <= i < |s| => if isAlnum(s[i]) then s[i] else '_')
  }

  /** The suffix for a translation type. */
  function Suffix(t: TranslationType): string {
    if t == Replace then ReplaceSuffix else InlineSuffix
  }

  predicate EndsWith(s: string, suffix: string) {
    |suffix| <= |s| && s[|s| - |suffix|..] == suffix
  }

  /** The new base name; the `assert` fails when the lower-cased base name does not end in
      ".epub". `lower` is `str.lower` and `isAlnum` is `str.isalnum`. */
  function DefaultOutputName(epubFile: string, t: TranslationType, lower: string -> string, isAlnum: char -> bool): (r: Result<string>)
    ensures r.Success? <==> EndsWith(lower(Basename(epubFile)), EpubSuffix)
    ensures r.Failure? ==> r.error == AssertionFailed
    ensures r.Success? ==> EndsWith(r.value, Suffix(t)) && |r.value| == |lower(Basename(epubFile))| - |EpubSuffix| + |Suffix(t)|
  {
    var name := lower(Basename(epubFile));
    if !EndsWith(name, EpubSuffix) then Failure(AssertionFailed)
    else Success(Sanitize(name[..|name| - |EpubSuffix|], isAlnum) + Suffix(t))
  }

  /** The default output path: the new base name joined to the input's directory. */
  function DefaultOutputPath(epubFile: string, t: TranslationType, lower: string -> string, isAlnum: char -> bool): (r: Result<string>)
    ensures r.Success? <==> EndsWith(lower(Basename(epubFile)), EpubSuffix)
    ensures r.Failure? ==> r.error == AssertionFailed
    ensures r.Success? ==> EndsWith(r.value, DefaultOutputName(epubFile, t, lower, isAlnum).value) && EndsWith(r.value, Suffix(t))
  {
    match DefaultOutputName(epubFile, t, lower, isAlnum)
    case Failure(e) => Failure(e)
    case Success(name) => Success(JoinPath(Dirname(epubFile), name))
  }

  // ---------------------------------------------------------------------------
  // Properties.

  /** A path is its head followed by its base name, and the base name has no '/'. */
  lemma BasenameSplit(p: string)
    ensures Head(p) + Basename(p) == p
    ensures '/' !in Basename(p)
  {
  }

  /** The name is refused exactly when the lower-cased base name does not end in ".epub";
      otherwise it is the sanitized stem followed by the suffix of the translation type,
      and the stem is five characters shorter than the lower-cased base name. */
  lemma DefaultOutputNameSpec(epubFile: string, t: TranslationType, lower: string -> string, isAlnum: char -> bool)
    ensures var lb := lower(Basename(epubFile));
            var r := DefaultOutputName(epubFile, t, lower, isAlnum);
            && (r.Success? <==> EndsWith(lb, ".epub"))
            && (r.Failure? ==> r.error == AssertionFailed)
            && (r.Success? ==>
                  && EndsWith(r.value, if t == Replace then ".tran.epub" else ".dual.epub")
                  && |r.value| == |lb| - 5 + 10
                  && forall i :: 0 <= i < |lb| - 5 ==>
                       r.value[i] == (if isAlnum(lb[i]) then lb[i] else '_'))
  {
  }

  /** Every character of the stem is alphanumeric or '_', so the new name has no '/'. */
  lemma DefaultOutputNameChars(epubFile: string, t: TranslationType, lower: string -> string, isAlnum: char -> bool)
    requires DefaultOutputName(epubFile, t, lower, isAlnum).Success?
    ensures forall i :: 0 <= i < |DefaultOutputName(epubFile, t, lower, isAlnum).value| - 10 ==>
              isAlnum(DefaultOutputName(epubFile, t, lower, isAlnum).value[i]) || DefaultOutputName(epubFile, t, lower, isAlnum).value[i] == '_'
    ensures !isAlnum('/') ==> '/' !in DefaultOutputName(epubFile, t, lower, isAlnum).value
  {
    var lb := lower(Basename(epubFile));
    var stem := Sanitize(lb[..|lb| - |EpubSuffix|], isAlnum);
    var name := stem + Suffix(t);
    SuffixChars(t);
    assert DefaultOutputName(epubFile, t, lower, isAlnum).value == name;
    assert forall i :: 0 <= i < |stem| ==> name[i] == stem[i];
    assert name[|stem|..] == Suffix(t);
  }

  /** Both suffixes are ten characters long and hold no '/'. */
  lemma SuffixChars(t: TranslationType)
    ensures |Suffix(t)| == 10 && '/' !in Suffix(t)
  {
  }

  /** Joining a name without '/' to a directory gives a path whose base name is that name. */
  lemma BasenameJoin(d: string, name: string)
    requires '/' !in name
    ensures Basename(JoinPath(d, name)) == name
  {
    var p := JoinPath(d, name);
    var prefix := if d == [] || d[|d| - 1] == '/' then d else d + "/";
    assert p == prefix + name;
    if name == [] {
      assert Basename(p) == [];
    } else {
      LastSlashAppend(prefix, name);
    }
  }

  /** '/' ends `a`, or `a` is empty, and `b` has no '/': the last '/' of `a + b` is `a`'s. */
  lemma {:induction false} LastSlashAppend(a: string, b: string)
    requires '/' !in b
    requires a == [] || a[|a| - 1] == '/'
    ensures LastSlash(a + b) == |a| - 1
  {
    var p := a + b;
    if a == [] {
      assert p == b;
    } else {
      assert p[|a| - 1] == '/';
      assert p[|a|..] == b;
    }
  }

  /** The default output path lies in the input's directory and its base name is the
      default output name. */
  lemma DefaultOutputPathSpec(epubFile: string, t: TranslationType, lower: string -> string, isAlnum: char -> bool)
    requires !isAlnum('/')
    ensures DefaultOutputPath(epubFile, t, lower, isAlnum).Success? <==> DefaultOutputName(epubFile, t, lower, isAlnum).Success?
    ensures DefaultOutputPath(epubFile, t, lower, isAlnum).Success? ==>
              DefaultOutputPath(epubFile, t, lower, isAlnum).value ==
                JoinPath(Dirname(epubFile), DefaultOutputName(epubFile, t, lower, isAlnum).value) &&
              Basename(DefaultOutputPath(epubFile, t, lower, isAlnum).value) == DefaultOutputName(epubFile, t, lower, isAlnum).value
  {
    if DefaultOutputName(epubFile, t, lower, isAlnum).Success? {
      DefaultOutputNameChars(epubFile, t, lower, isAlnum);
      BasenameJoin(Dirname(epubFile), DefaultOutputName(epubFile, t, lower, isAlnum).value);
    }
  }
}
