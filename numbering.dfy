/**
 * `copy_and_number_files`: collect the `.md` files below a source
 * directory, sort their paths, and write the i-th of them into the target
 * directory as `{i:02d}-{stem}{ext}`.
 */
module Numbering {
  import opened Wrappers
  import opened Text
  import opened Sorting
  import opened FileTree

  /** The `extension_mode` argument: `'add_mdc'` names the copies `.mdc`;
      every other value names them `.md`. */
  datatype ExtensionMode = AddMdc | KeepMd

  function Extension(mode: ExtensionMode): string {
    if mode == AddMdc then ".mdc" else ".md"
  }

  // ---------------------------------------------------------------------
  // Output names

  /** Python's `os.path.splitext(p)` on POSIX: the extension starts at the
      last dot after the last separator, unless everything between that
      separator and the dot is dots (a leading-dot name has no extension). */
  function SplitExt(p: string): (string, string) {
    var sep := RFind(p, '/');
    var dot := RFind(p, '.');
    if dot > sep && !OnlyDots(p[sep + 1..dot]) then (p[..dot], p[dot..])
    else (p, "")
  }

  /** The two parts put together give back the path, and a non-empty
      extension starts with a dot. */
  lemma SplitExtParts(p: string)
    ensures SplitExt(p).0 + SplitExt(p).1 == p
    ensures SplitExt(p).1 != [] ==> SplitExt(p).1[0] == '.'
  {
  }

  /** `s` consists of dots only (the empty string included). */
  predicate OnlyDots(s: string) {
    s == [] || (s[0] == '.' && OnlyDots(s[1..]))
  }

  lemma {:induction false} OnlyDotsIff(s: string)
    ensures OnlyDots(s) <==> forall k | 0 <= k < |s| :: s[k] == '.'
  {
    if s != [] {
      OnlyDotsIff(s[1..]);
      assert forall k | 1 <= k < |s| :: s[k] == s[1..][k - 1];
    }
  }

  /** The stem of a collected name is the name without its final `.md`,
      unless only dots come before that `.md`; then it is the whole name. */
  lemma StemOfMarkdownName(name: string)
    requires '/' !in name && EndsWith(name, ".md")
    ensures SplitExt(name).0 ==
      if exists k | 0 <= k < |name| - 3 :: name[k] != '.' then name[..|name| - 3] else name
  {
    assert RFind(name, '/') == -1;
    var n := |name|;
    assert name[n - 3] == '.' && name[n - 2] == 'm' && name[n - 1] == 'd' by {
      assert name[n - 3..] == ".md";
    }
    var s1 := name[..n - 1];
    assert s1[..n - 2] == name[..n - 2];
    assert RFind(name[..n - 2], '.') == n - 3;
    assert RFind(s1, '.') == n - 3;
    assert RFind(name, '.') == n - 3;
    OnlyDotsIff(name[..n - 3]);
    assert forall k | 0 <= k < n - 3 :: name[..n - 3][k] == name[k];
  }

  /** A name that is only dots before its `.md` keeps the whole name as its
      stem, so `.md` is written as `01-.md.mdc`. */
  lemma DotMdKeepsWholeName()
    ensures SplitExt(".md").0 == ".md"
  {
    assert RFind(".md", '.') == 0;
  }

  /** The name written for the `i`-th collected file (lines 72-78). */
  function NumberedName(i: nat, filename: string, mode: ExtensionMode): string {
    ZeroPad2(i) + "-" + SplitExt(filename).0 + Extension(mode)
  }

  /** The sequence number a numbered name starts with: the digits before its
      first `-`. */
  function SequenceNumber(name: string): Option<nat> {
    var d := Find(name, "-");
    if d >= 0 && AllDigits(name[..d]) then Some(ParseDecimal(name[..d])) else None
  }

  /** Round trip: a numbered name gives back its sequence number. */
  lemma NumberedNameRoundTrip(i: nat, filename: string, mode: ExtensionMode)
    ensures SequenceNumber(NumberedName(i, filename, mode)) == Some(i)
  {
    var z := ZeroPad2(i);
    var name := NumberedName(i, filename, mode);
    assert name == z + "-" + (SplitExt(filename).0 + Extension(mode));
    assert name[..|z|] == z;
    assert OccursAt(name, "-", |z|);
    forall k | 0 <= k < |z|
      ensures !OccursAt(name, "-", k)
    {
      assert name[k..k + 1][0] == z[k];
    }
    assert Find(name, "-") == |z|;
    ParseZeroPad2(i);
  }

  /** Different sequence numbers give different names, whatever the files. */
  lemma NumberedNamesDistinct(i: nat, j: nat, f: string, g: string, mode: ExtensionMode)
    requires i != j
    ensures NumberedName(i, f, mode) != NumberedName(j, g, mode)
  {
    NumberedNameRoundTrip(i, f, mode);
    NumberedNameRoundTrip(j, g, mode);
  }

  /** A numbered name is a valid entry name that ends in the mode's
      extension. */
  lemma NumberedNameShape(i: nat, filename: string, mode: ExtensionMode)
    requires '/' !in filename
    ensures ValidName(NumberedName(i, filename, mode))
    ensures EndsWith(NumberedName(i, filename, mode), Extension(mode))
    ensures StartsWith(NumberedName(i, filename, mode), ZeroPad2(i) + "-")
  {
    var z := ZeroPad2(i);
    var stem := SplitExt(filename).0;
    var name := NumberedName(i, filename, mode);
    SplitExtParts(filename);
    assert stem == filename[..|stem|];
    assert name == (z + "-") + stem + Extension(mode);
    forall k | 0 <= k < |z|
      ensures z[k] != '/'
    {
      assert IsDigit(z[k]);
    }
    forall k | 0 <= k < |stem|
      ensures stem[k] != '/'
    {
      assert stem[k] == filename[k];
    }
    assert '/' !in z && '/' !in stem;
    assert name[|name| - |Extension(mode)|..] == Extension(mode);
  }

  // ---------------------------------------------------------------------
  // Collecting the `.md` files (lines 61-68)

  /** One collected file: its path relative to the walked directory (the
      sort key), its own name, and its contents. */
  datatype MdFile = MdFile(path: string, name: string, content: Content)

  function PathOf(f: MdFile): string {
    f.path
  }

  /** The `.md` files at or below the entry `name` of a directory whose
      entries' paths start with `prefix`. */
  function Found(entry: Node, name: string, prefix: string): set<MdFile>
    decreases entry, 1
  {
    match entry
    case File(c) => if EndsWith(name, ".md") then {MdFile(prefix + name, name, c)} else {}
    case Dir(ch) => FoundAmong(ch, ch.Keys, prefix + name + "/")
  }

  /** The `.md` files at or below the entries `names` of the directory `ch`. */
  function FoundAmong(ch: Tree, names: set<string>, prefix: string): set<MdFile>
    decreases Dir(ch), 0
  {
    set n, f | n in names && n in ch && f in Found(ch[n], n, prefix) :: f
  }

  /** Every `.md` file that `os.walk(source)` reaches, with its path
      relative to `source`. A file as the source has no walk. */
  function MdFiles(source: Node): set<MdFile> {
    match source
    case File(_) => {}
    case Dir(ch) => FoundAmong(ch, ch.Keys, "")
  }

  /** `path` lies at or below the entry `name` of the directory `prefix`. */
  predicate Under(path: string, prefix: string, name: string) {
    path == prefix + name || StartsWith(path, prefix + name + "/")
  }

  /** Where the entry name sits in a path under it. */
  lemma UnderParts(path: string, prefix: string, name: string)
    requires Under(path, prefix, name)
    ensures |prefix| + |name| <= |path|
    ensures path[|prefix|..|prefix| + |name|] == name
    ensures |prefix| + |name| < |path| ==> path[|prefix| + |name|] == '/'
  {
    var q := prefix + name;
    if path == q {
      assert path[|prefix|..|q|] == name;
    } else {
      assert path[..|q| + 1] == q + "/";
      assert path[|prefix|..|q|] == (q + "/")[|prefix|..|q|] == name;
      assert path[|q|] == (q + "/")[|q|];
    }
  }

  /** A path lies below at most one entry of a directory. */
  lemma UnderOne(path: string, prefix: string, n: string, m: string)
    requires '/' !in n && '/' !in m
    requires Under(path, prefix, n) && Under(path, prefix, m)
    ensures n == m
  {
    UnderParts(path, prefix, n);
    UnderParts(path, prefix, m);
  }

  /** An entry of the directory that holds a found file. */
  lemma EntryOf(ch: Tree, names: set<string>, prefix: string, f: MdFile) returns (n: string)
    requires f in FoundAmong(ch, names, prefix)
    ensures n in names && n in ch && f in Found(ch[n], n, prefix)
  {
    n :| n in names && n in ch && f in Found(ch[n], n, prefix);
  }

  /** What every found file looks like. */
  lemma {:induction false} FoundShape(entry: Node, name: string, prefix: string)
    requires ValidNode(entry) && '/' !in name
    ensures forall f :: f in Found(entry, name, prefix) ==>
      Under(f.path, prefix, name) && EndsWith(f.name, ".md") && '/' !in f.name
  {
    match entry
    case File(c) =>
    case Dir(ch) =>
      var p := prefix + name + "/";
      forall f | f in Found(entry, name, prefix)
        ensures Under(f.path, prefix, name) && EndsWith(f.name, ".md") && '/' !in f.name
      {
        var n := EntryOf(ch, ch.Keys, p, f);
        FoundShape(ch[n], n, p);
        assert StartsWith(f.path, p);
      }
  }

  /** Within one walk, a path identifies the file. */
  lemma {:induction false} FoundUniquePaths(entry: Node, name: string, prefix: string)
    requires ValidNode(entry) && '/' !in name
    ensures forall f, g :: f in Found(entry, name, prefix) && g in Found(entry, name, prefix) && f.path == g.path ==> f == g
  {
    match entry
    case File(c) =>
    case Dir(ch) =>
      var p := prefix + name + "/";
      forall f, g | f in Found(entry, name, prefix) && g in Found(entry, name, prefix) && f.path == g.path
        ensures f == g
      {
        var n := EntryOf(ch, ch.Keys, p, f);
        var m := EntryOf(ch, ch.Keys, p, g);
        FoundShape(ch[n], n, p);
        FoundShape(ch[m], m, p);
        UnderOne(f.path, p, n, m);
        FoundUniquePaths(ch[n], n, p);
      }
  }

  lemma MdFilesUniquePaths(source: Node)
    requires ValidNode(source)
    ensures KeyInjective(multiset(MdFiles(source)), PathOf)
    ensures forall f :: f in MdFiles(source) ==> EndsWith(f.name, ".md") && '/' !in f.name
  {
    if source.Dir? {
      var ch := source.children;
      forall f, g | f in MdFiles(source) && g in MdFiles(source) && f.path == g.path
        ensures f == g
      {
        var n := EntryOf(ch, ch.Keys, "", f);
        var m := EntryOf(ch, ch.Keys, "", g);
        FoundShape(ch[n], n, "");
        FoundShape(ch[m], m, "");
        UnderOne(f.path, "", n, m);
        FoundUniquePaths(ch[n], n, "");
      }
      forall f | f in MdFiles(source)
        ensures EndsWith(f.name, ".md") && '/' !in f.name
      {
        var n := EntryOf(ch, ch.Keys, "", f);
        FoundShape(ch[n], n, "");
      }
    }
  }

  /** Adding one more entry of the directory adds its files, and none of them
      was among those already found. */
  lemma FoundAmongAdd(ch: Tree, names: set<string>, n: string, prefix: string)
    requires ValidNode(Dir(ch)) && n in ch && n !in names
    ensures FoundAmong(ch, names + {n}, prefix) == FoundAmong(ch, names, prefix) + Found(ch[n], n, prefix)
    ensures FoundAmong(ch, names, prefix) !! Found(ch[n], n, prefix)
  {
    forall f | f in FoundAmong(ch, names, prefix) && f in Found(ch[n], n, prefix)
      ensures false
    {
      var m := EntryOf(ch, names, prefix, f);
      FoundShape(ch[m], m, prefix);
      FoundShape(ch[n], n, prefix);
      UnderOne(f.path, prefix, m, n);
    }
  }

  lemma MultisetOfDisjointUnion<T>(a: set<T>, b: set<T>)
    requires a !! b
    ensures multiset(a + b) == multiset(a) + multiset(b)
  {
  }

  /** The collected files in ascending path order (the list after
      `md_files.sort()`). */
  ghost function Listing(source: Node): seq<MdFile> {
    SortBy(SetToSeq(MdFiles(source)), PathOf)
  }

  /** The listing holds each `.md` file of the source exactly once, in
      strictly ascending path order. */
  lemma ListingSpec(source: Node)
    requires ValidNode(source)
    ensures multiset(Listing(source)) == multiset(MdFiles(source))
    ensures |Listing(source)| == |MdFiles(source)|
    ensures StrictlySortedBy(Listing(source), PathOf)
    ensures forall j :: 0 <= j < |Listing(source)| ==>
      EndsWith(Listing(source)[j].name, ".md") && '/' !in Listing(source)[j].name
  {
    var l := Listing(source);
    MdFilesUniquePaths(source);
    assert |l| == |multiset(l)| == |multiset(MdFiles(source))| == |MdFiles(source)|;
    SortedStrictly(l, PathOf);
    forall j | 0 <= j < |l|
      ensures EndsWith(l[j].name, ".md") && '/' !in l[j].name
    {
      assert l[j] in multiset(l);
    }
  }

  // ---------------------------------------------------------------------
  // Writing the numbered copies (lines 71-88)

  /** `dir` after `contents[j]` has been written to the file `names[j]`
      for each `j` in turn; a later write to the same name would replace an
      earlier one. */
  function WriteAll(dir: Tree, names: seq<string>, contents: seq<Content>): Tree
    requires |names| == |contents|
  {
    if names == [] then dir
    else
      var last := |names| - 1;
      WriteAll(dir, names[..last], contents[..last])[names[last] := File(contents[last])]
  }

  /** One more write extends the writes so far. */
  lemma WriteAllStep(dir: Tree, names: seq<string>, contents: seq<Content>, i: nat)
    requires |names| == |contents| && i < |names|
    ensures WriteAll(dir, names[..i + 1], contents[..i + 1])
         == WriteAll(dir, names[..i], contents[..i])[names[i] := File(contents[i])]
  {
    assert names[..i + 1][..i] == names[..i];
    assert contents[..i + 1][..i] == contents[..i];
  }

  /** No name occurs twice. */
  predicate Distinct(names: seq<string>) {
    forall i, j :: 0 <= i < j < |names| ==> names[i] != names[j]
  }

  lemma {:induction false} WriteAllKeys(dir: Tree, names: seq<string>, contents: seq<Content>)
    requires |names| == |contents|
    ensures WriteAll(dir, names, contents).Keys == dir.Keys + set n | n in names
  {
    if names != [] {
      var last := |names| - 1;
      WriteAllKeys(dir, names[..last], contents[..last]);
      assert names == names[..last] + [names[last]];
    }
  }

  /** With distinct names, every write survives the later ones. */
  lemma {:induction false} WriteAllAt(dir: Tree, names: seq<string>, contents: seq<Content>, j: nat)
    requires |names| == |contents| && Distinct(names) && j < |names|
    ensures names[j] in WriteAll(dir, names, contents)
    ensures WriteAll(dir, names, contents)[names[j]] == File(contents[j])
  {
    WriteAllKeys(dir, names, contents);
    var last := |names| - 1;
    if j < last {
      WriteAllAt(dir, names[..last], contents[..last], j);
    }
  }

  /** Entries that no write is named after keep their old value. */
  lemma {:induction false} WriteAllKeeps(dir: Tree, names: seq<string>, contents: seq<Content>, n: string)
    requires |names| == |contents| && n in dir && n !in names
    ensures n in WriteAll(dir, names, contents) && WriteAll(dir, names, contents)[n] == dir[n]
  {
    if names != [] {
      var last := |names| - 1;
      assert n !in names[..last];
      WriteAllKeeps(dir, names[..last], contents[..last], n);
    }
  }

  /** With distinct names, an empty directory receives one file per write. */
  lemma {:induction false} WriteAllCount(names: seq<string>, contents: seq<Content>)
    requires |names| == |contents| && Distinct(names)
    ensures |WriteAll(map[], names, contents)| == |names|
  {
    if names != [] {
      var last := |names| - 1;
      WriteAllCount(names[..last], contents[..last]);
      WriteAllKeys(map[], names[..last], contents[..last]);
      assert names[last] !in names[..last];
    }
  }

  /** The name each collected file is written under, by position. */
  function NumberedNames(files: seq<MdFile>, mode: ExtensionMode): (names: seq<string>)
    ensures |names| == |files|
  {
    seq(|files|, j requires 0 <= j < |files| => NumberedName(j + 1, files[j].name, mode))
  }

  lemma NumberedNamesAt(files: seq<MdFile>, mode: ExtensionMode)
    ensures forall j :: 0 <= j < |files| ==> NumberedNames(files, mode)[j] == NumberedName(j + 1, files[j].name, mode)
  {
  }

  function ContentsOf(files: seq<MdFile>): (contents: seq<Content>)
    ensures |contents| == |files|
    ensures forall j :: 0 <= j < |files| ==> contents[j] == files[j].content
  {
    seq(|files|, j requires 0 <= j < |files| => files[j].content)
  }

  /** The names one call writes are pairwise different. */
  lemma NumberedNamesAreDistinct(files: seq<MdFile>, mode: ExtensionMode)
    ensures Distinct(NumberedNames(files, mode))
  {
    var names := NumberedNames(files, mode);
    NumberedNamesAt(files, mode);
    forall i, j | 0 <= i < j < |names|
      ensures names[i] != names[j]
    {
      NumberedNamesDistinct(i + 1, j + 1, files[i].name, files[j].name, mode);
    }
  }

  /** Every name one call writes is a valid entry name with the mode's
      extension. */
  lemma NumberedNamesShape(files: seq<MdFile>, mode: ExtensionMode)
    requires forall j :: 0 <= j < |files| ==> '/' !in files[j].name
    ensures forall j :: 0 <= j < |files| ==>
      ValidName(NumberedNames(files, mode)[j]) && EndsWith(NumberedNames(files, mode)[j], Extension(mode))
  {
    NumberedNamesAt(files, mode);
    forall j | 0 <= j < |files|
      ensures ValidName(NumberedNames(files, mode)[j]) && EndsWith(NumberedNames(files, mode)[j], Extension(mode))
    {
      NumberedNameShape(j + 1, files[j].name, mode);
    }
  }

  /** `dir` after the loop of lines 71-88 has written `files[j]` as number
      `j + 1`, for every `j`, in order. */
  function Written(dir: Tree, files: seq<MdFile>, mode: ExtensionMode): Tree {
    WriteAll(dir, NumberedNames(files, mode), ContentsOf(files))
  }

  /** What `copy_and_number_files(source, target, mode)` leaves in the target
      directory: nothing happens without a source; otherwise the target
      (created when absent) gains the numbered copies of the listing. */
  ghost function Numbered(source: Option<Node>, target: Option<Tree>, mode: ExtensionMode): Option<Tree> {
    if source.None? then target
    else Some(Written(target.GetOr(map[]), Listing(source.value), mode))
  }

  /** Writing distinct valid names into a fresh directory: one entry per
      write, each holding its contents, nothing else. */
  lemma WriteAllFresh(names: seq<string>, contents: seq<Content>)
    requires |names| == |contents| && Distinct(names)
    requires forall j :: 0 <= j < |names| ==> ValidName(names[j])
    ensures var out := WriteAll(map[], names, contents);
      && |out| == |names|
      && out.Keys == set n | n in names
      && (forall j :: 0 <= j < |names| ==> names[j] in out && out[names[j]] == File(contents[j]))
      && ValidNode(Dir(out))
  {
    WriteAllKeys(map[], names, contents);
    WriteAllCount(names, contents);
    var out := WriteAll(map[], names, contents);
    forall j | 0 <= j < |names|
      ensures names[j] in out && out[names[j]] == File(contents[j])
    {
      WriteAllAt(map[], names, contents, j);
    }
    forall n | n in out
      ensures ValidName(n) && ValidNode(out[n])
    {
      var j :| 0 <= j < |names| && names[j] == n;
    }
  }

  /** Numbering a list of files into a fresh directory: one entry per file,
      the `j`-th named with number `j + 1` and holding that file's contents,
      nothing else, and only valid names. */
  lemma WrittenFresh(files: seq<MdFile>, mode: ExtensionMode)
    requires forall j :: 0 <= j < |files| ==> '/' !in files[j].name
    ensures var out := Written(map[], files, mode);
      && |out| == |files|
      && out.Keys == set n | n in NumberedNames(files, mode)
      && (forall j :: 0 <= j < |files| ==>
            NumberedNames(files, mode)[j] in out && out[NumberedNames(files, mode)[j]] == File(files[j].content))
      && ValidNode(Dir(out))
  {
    NumberedNamesAreDistinct(files, mode);
    NumberedNamesShape(files, mode);
    WriteAllFresh(NumberedNames(files, mode), ContentsOf(files));
  }

  /** The numbering of a source into a fresh directory holds one entry per
      `.md` file of the source, the `j`-th in path order named with number
      `j + 1`. */
  lemma NumberedDirectory(source: Node, mode: ExtensionMode)
    requires ValidNode(source)
    ensures Numbered(Some(source), Some(map[]), mode).Some?
    ensures var out := Numbered(Some(source), Some(map[]), mode).value;
      && |out| == |MdFiles(source)|
      && (forall j :: 0 <= j < |Listing(source)| ==>
            NumberedNames(Listing(source), mode)[j] in out &&
            out[NumberedNames(Listing(source), mode)[j]] == File(Listing(source)[j].content))
      && ValidNode(Dir(out))
  {
    ListingSpec(source);
    WrittenFresh(Listing(source), mode);
  }

  lemma MdcIsNotMd(name: string)
    requires EndsWith(name, ".mdc")
    ensures !EndsWith(name, ".md")
  {
    assert name[|name| - 1] == 'c';
  }

  /** The `.mdc` copies are never collected again: numbering a directory of
      `add_mdc` copies finds no `.md` file at all. */
  lemma MdcCopiesNotCollected(files: seq<MdFile>)
    requires forall j :: 0 <= j < |files| ==> '/' !in files[j].name
    ensures MdFiles(Dir(Written(map[], files, AddMdc))) == {}
    ensures Listing(Dir(Written(map[], files, AddMdc))) == []
  {
    var names, contents := NumberedNames(files, AddMdc), ContentsOf(files);
    var out := WriteAll(map[], names, contents);
    NumberedNamesAreDistinct(files, AddMdc);
    NumberedNamesShape(files, AddMdc);
    WriteAllKeys(map[], names, contents);
    forall f | f in MdFiles(Dir(out))
      ensures false
    {
      var n := EntryOf(out, out.Keys, "", f);
      var j :| 0 <= j < |names| && names[j] == n;
      WriteAllAt(map[], names, contents, j);
      MdcIsNotMd(n);
    }
    assert multiset(SetToSeq(MdFiles(Dir(out)))) == multiset{};
  }

  // ---------------------------------------------------------------------
  // The routine itself

  /** The collecting loop of lines 61-65 over one directory: every entry is
      visited once, in whatever order the directory lists them; `.md` files
      are kept and subdirectories are walked in turn. */
  method CollectMarkdown(ch: Tree, prefix: string) returns (found: seq<MdFile>)
    requires ValidNode(Dir(ch))
    ensures multiset(found) == multiset(FoundAmong(ch, ch.Keys, prefix))
    decreases Dir(ch)
  {
    found := [];
    var pending := ch.Keys;
    while pending != {}
      invariant pending <= ch.Keys
      invariant multiset(found) == multiset(FoundAmong(ch, ch.Keys - pending, prefix))
      decreases pending
    {
      var n :| n in pending;
      var done := ch.Keys - pending;
      FoundAmongAdd(ch, done, n, prefix);
      MultisetOfDisjointUnion(FoundAmong(ch, done, prefix), Found(ch[n], n, prefix));
      match ch[n] {
        case File(c) =>
          if EndsWith(n, ".md") {
            found := found + [MdFile(prefix + n, n, c)];
          }
        case Dir(sub) =>
          var below := CollectMarkdown(sub, prefix + n + "/");
          found := found + below;
      }
      pending := pending - {n};
      assert ch.Keys - pending == done + {n};
    }
  }

  /** The writing loop of lines 71-88: the `i`-th file of the sorted list
      is copied to the name with number `i + 1`. */
  method WriteNumbered(dir0: Tree, files: seq<MdFile>, mode: ExtensionMode) returns (dir: Tree)
    ensures dir == Written(dir0, files, mode)
  {
    ghost var names, contents := NumberedNames(files, mode), ContentsOf(files);
    dir := dir0;
    var i := 0;
    while i < |files|
      invariant 0 <= i <= |files|
      invariant dir == WriteAll(dir0, names[..i], contents[..i])
    {
      var f := files[i];
      var name := NumberedName(i + 1, f.name, mode);
      assert name == names[i];
      WriteAllStep(dir0, names, contents, i);
      dir := dir[name := File(f.content)];
      i := i + 1;
    }
    assert names[..|files|] == names && contents[..|files|] == contents;
  }


  /** `copy_and_number_files(source_dir, target_dir, extension_mode)`. */
  method CopyAndNumberFiles(source: Option<Node>, target: Option<Tree>, mode: ExtensionMode)
    returns (result: Option<Tree>)
    requires source.Some? ==> ValidNode(source.value)
    ensures result == Numbered(source, target, mode)
  {
    if source.None? {
      return target;
    }
    var found: seq<MdFile> := [];
    if source.value.Dir? {
      found := CollectMarkdown(source.value.children, "");
    }
    var files := SortBy(found, PathOf);
    MdFilesUniquePaths(source.value);
    SortedUnique(files, Listing(source.value), PathOf);

    var dir := WriteNumbered(target.GetOr(map[]), files, mode);
    result := Some(dir);
  }
}
