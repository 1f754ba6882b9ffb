/** What `ContentManager._traverse_original_content` (content_manager.py) finds in the content
    tree, as values: which paths it visits, in which order, and the record it makes of each
    markdown file. The walk of the file system and the reading of files are parameters. */
module Scanner {
  import opened Wrappers
  import opened Sequencing
  import opened Errors
  import opened Timestamps
  import opened Records
  import opened ContentLoader

  /** One step of `os.walk`: a directory and the names of the files directly inside it, in
      the order the file system lists them. */
  datatype DirEntry = DirEntry(dirpath: string, filenames: seq<string>)

  function Suffix(s: string, n: nat): string
    requires n <= |s|
  {
    s[|s| - n..]
  }

  /** `fnmatch(name, "*.md")` on POSIX: the name ends in `.md`, case-sensitively. */
  predicate IsMarkdown(name: string) {
    |name| >= 3 && Suffix(name, 3) == ".md"
  }

  /** `fnmatch.filter(filenames, "*.md")`: the markdown names, in their original order. */
  function FilterMarkdown(names: seq<string>): (r: seq<string>)
    ensures |r| <= |names|
    ensures forall n :: n in r <==> n in names && IsMarkdown(n)
  {
    if names == [] then []
    else
      var k := |names| - 1;
      var init := FilterMarkdown(names[..k]);
      assert names == names[..k] + [names[k]];
      init + (if IsMarkdown(names[k]) then [names[k]] else [])
  }

  /** `posixpath.join(dirpath, name)`: an absolute name replaces the directory; otherwise the
      two are joined by a `/` unless the directory is empty or already ends in one. */
  function JoinPath(dir: string, name: string): (p: string)
    ensures |p| >= |name| && Suffix(p, |name|) == name
    ensures (name == [] || name[0] != '/') ==> |p| >= |dir| && p[..|dir|] == dir
    ensures (name == [] || name[0] != '/') && dir != [] && dir[|dir| - 1] != '/' ==>
      p == dir + "/" + name
  {
    if name != [] && name[0] == '/' then name
    else if dir == [] || dir[|dir| - 1] == '/' then dir + name
    else dir + "/" + name
  }

  /** The paths of one directory's markdown files, in listing order. */
  function DirectoryPaths(entry: DirEntry): (r: seq<string>)
    ensures |r| == |FilterMarkdown(entry.filenames)|
    ensures forall k :: 0 <= k < |r| ==> r[k] == JoinPath(entry.dirpath, FilterMarkdown(entry.filenames)[k])
  {
    var names := FilterMarkdown(entry.filenames);
    seq(|names|, k requires 0 <= k < |names| => JoinPath(entry.dirpath, names[k]))
  }

  /** Every path the traversal visits, directory by directory in walk order. */
  function Candidates(walk: seq<DirEntry>): (r: seq<string>)
    ensures forall p :: p in r <==>
      exists w, n :: 0 <= w < |walk| && n in walk[w].filenames && IsMarkdown(n) && p == JoinPath(walk[w].dirpath, n)
  {
    if walk == [] then []
    else
      var k := |walk| - 1;
      CandidatesMembersStep(walk, k);
      Candidates(walk[..k]) + DirectoryPaths(walk[k])
  }

  /** The paths of the walk's first k directories, then those of the k-th, are the paths of
      the first k + 1 directories. */
  lemma CandidatesMembersStep(walk: seq<DirEntry>, k: nat)
    requires k + 1 == |walk|
    ensures forall p :: p in Candidates(walk[..k]) + DirectoryPaths(walk[k]) <==>
      exists w, n :: 0 <= w < |walk| && n in walk[w].filenames && IsMarkdown(n) && p == JoinPath(walk[w].dirpath, n)
  {
    forall p | p in Candidates(walk[..k]) + DirectoryPaths(walk[k])
      ensures exists w, n :: 0 <= w < |walk| && n in walk[w].filenames && IsMarkdown(n) && p == JoinPath(walk[w].dirpath, n)
    {
      var w, n := CandidateSource(walk, k, p);
    }
    forall w, n, p | 0 <= w < |walk| && n in walk[w].filenames && IsMarkdown(n) && p == JoinPath(walk[w].dirpath, n)
      ensures p in Candidates(walk[..k]) + DirectoryPaths(walk[k])
    {
      CandidateOfSource(walk, k, w, n);
    }
  }

  /** The directory and the name a path of the first k + 1 directories comes from. */
  lemma CandidateSource(walk: seq<DirEntry>, k: nat, p: string) returns (w: nat, n: string)
    requires k + 1 == |walk|
    requires p in Candidates(walk[..k]) + DirectoryPaths(walk[k])
    ensures w < |walk| && n in walk[w].filenames && IsMarkdown(n) && p == JoinPath(walk[w].dirpath, n)
  {
    if p in Candidates(walk[..k]) {
      w, n :| 0 <= w < k && n in walk[..k][w].filenames && IsMarkdown(n) && p == JoinPath(walk[..k][w].dirpath, n);
      assert walk[..k][w] == walk[w];
    } else {
      DirectoryPathsMembers(walk[k]);
      w := k;
      n :| n in walk[k].filenames && IsMarkdown(n) && p == JoinPath(walk[k].dirpath, n);
    }
  }

  /** A markdown name of one of the first k + 1 directories, joined to it, is one of their paths. */
  lemma CandidateOfSource(walk: seq<DirEntry>, k: nat, w: nat, n: string)
    requires k + 1 == |walk| && w < |walk| && n in walk[w].filenames && IsMarkdown(n)
    ensures JoinPath(walk[w].dirpath, n) in Candidates(walk[..k]) + DirectoryPaths(walk[k])
  {
    if w < k {
      assert walk[..k][w] == walk[w];
      assert JoinPath(walk[..k][w].dirpath, n) in Candidates(walk[..k]);
    } else {
      DirectoryPathsMembers(walk[k]);
    }
  }

  /** The paths of one directory are its markdown names joined to it. */
  lemma DirectoryPathsMembers(e: DirEntry)
    ensures forall p :: p in DirectoryPaths(e) <==>
      exists n :: n in e.filenames && IsMarkdown(n) && p == JoinPath(e.dirpath, n)
  {
    var here := DirectoryPaths(e);
    var names := FilterMarkdown(e.filenames);
    forall p ensures p in here ==> exists n :: n in e.filenames && IsMarkdown(n) && p == JoinPath(e.dirpath, n) {
      if p in here {
        var j :| 0 <= j < |here| && here[j] == p;
        assert names[j] in names;
      }
    }
    forall p ensures (exists n :: n in e.filenames && IsMarkdown(n) && p == JoinPath(e.dirpath, n)) ==> p in here {
      if exists n :: n in e.filenames && IsMarkdown(n) && p == JoinPath(e.dirpath, n) {
        var n :| n in e.filenames && IsMarkdown(n) && p == JoinPath(e.dirpath, n);
        var j :| 0 <= j < |names| && names[j] == n;
        assert here[j] == p;
      }
    }
  }

  /** `metadata.get("isValid") == 1` in Python: true for the integer 1, the float 1.0 and the
      boolean `True`, and for nothing else a YAML scalar can be. */
  predicate EqualsOne(v: Value) {
    match v
    case Int(i) => i == 1
    case Float(f) => f == 1.0
    case Bool(b) => b
    case _ => false
  }

  /** `1`, `1.0` and `True` equal 1 in Python; the text `"1"`, `2`, `False`, `None` and a list
      holding 1 do not. */
  lemma EqualsOneExamples()
    ensures EqualsOne(Int(1)) && EqualsOne(Float(1.0)) && EqualsOne(Bool(true))
    ensures !EqualsOne(Str("1")) && !EqualsOne(Int(2)) && !EqualsOne(Bool(false))
    ensures !EqualsOne(Null) && !EqualsOne(List([Int(1)]))
  {
  }

  /** The record the traversal makes of one markdown file, or the exception that ends the
      traversal: the file must load, its metadata must hold a `date` (KeyError), that date
      must be text (AttributeError: `rstrip` on a YAML number or timestamp) and must parse once
      trailing `Z`s are stripped (ValueError). The file starts with no ids and is valid
      exactly when its `isValid` equals 1. */
  function ScanFile(path: string, text: string, safeLoad: string -> Result<YamlDoc, Exception>)
    : (r: Result<FileRecord, Exception>)
    ensures r.Success? ==> r.value.file == path && r.value.ids == [] && Valid(r.value.updateTime)
  {
    var doc :- Load(path, text, safeLoad);
    var md := doc.metadata;
    if "date" !in md then Failure(KeyError("date"))
    else match md["date"]
      case Str(s) =>
        (match ParseIso(RStrip(s, 'Z'))
         case None => Failure(ValueError("Invalid isoformat string: " + s))
         case Some(t) => Success(FileRecord(path, t, [], "isValid" in md && EqualsOne(md["isValid"]))))
      case _ => Failure(AttributeError("'date' has no attribute 'rstrip'"))
  }

  /** What the traversal requires of a file's metadata and what it takes from it. */
  lemma ScanFileCharacterisation(path: string, text: string, safeLoad: string -> Result<YamlDoc, Exception>)
    ensures var r := ScanFile(path, text, safeLoad);
      r.Success? ==> Load(path, text, safeLoad).Success?
    ensures var r := ScanFile(path, text, safeLoad);
      r.Success? ==> var md := Load(path, text, safeLoad).value.metadata;
      && "date" in md && md["date"].Str?
      && Some(r.value.updateTime) == ParseIso(RStrip(md["date"].s, 'Z'))
      && (r.value.isValid <==> "isValid" in md && EqualsOne(md["isValid"]))
    ensures Load(path, text, safeLoad).Success? && "date" !in Load(path, text, safeLoad).value.metadata ==>
      ScanFile(path, text, safeLoad) == Failure(KeyError("date"))
    ensures (Load(path, text, safeLoad).Success? && "date" in Load(path, text, safeLoad).value.metadata &&
             !Load(path, text, safeLoad).value.metadata["date"].Str?) ==>
      ScanFile(path, text, safeLoad).Failure? && ScanFile(path, text, safeLoad).error.AttributeError?
    ensures Load(path, text, safeLoad).Failure? ==>
      ScanFile(path, text, safeLoad) == Failure(Load(path, text, safeLoad).error)
  {
  }

  /** A markdown file without front matter is refused: its metadata is only its source. */
  lemma FileWithoutFrontMatterIsRefused(path: string, text: string, safeLoad: string -> Result<YamlDoc, Exception>)
    requires !StartsWithDelimiter(text)
    ensures ScanFile(path, text, safeLoad) == Failure(KeyError("date"))
  {
    LoadWithoutFrontMatter(path, text, safeLoad);
  }

  /** A date in the form the record file uses (`to_dict`) is read back by the traversal as
      that time cut to milliseconds. */
  lemma RecordDateIsAccepted(
    path: string, text: string, safeLoad: string -> Result<YamlDoc, Exception>, t: DateTime)
    requires Valid(t)
    requires Load(path, text, safeLoad).Success?
    requires var md := Load(path, text, safeLoad).value.metadata;
      "date" in md && md["date"] == Str(FormatTime(t))
    ensures ScanFile(path, text, safeLoad).Success?
    ensures ScanFile(path, text, safeLoad).value.updateTime == TruncateToMillis(t)
  {
    ParseFormatTime(t);
  }

  /** The per-file step of the traversal for a tree whose files read as `read`. */
  function FileScanner(read: string -> string, safeLoad: string -> Result<YamlDoc, Exception>)
    : string -> Result<FileRecord, Exception>
  {
    p => ScanFile(p, read(p), safeLoad)
  }

  /** A per-file step that, whenever it succeeds, yields a record of the very path it was
      given, with no ids yet. */
  ghost predicate RecordsOwnPath(scanOne: string -> Result<FileRecord, Exception>) {
    forall p :: scanOne(p).Success? ==> scanOne(p).value.file == p && scanOne(p).value.ids == []
  }

  /** Loading files through `ScanFile` is such a step. */
  lemma FileScannerRecordsOwnPath(read: string -> string, safeLoad: string -> Result<YamlDoc, Exception>)
    ensures RecordsOwnPath(FileScanner(read, safeLoad))
  {
    forall p | FileScanner(read, safeLoad)(p).Success?
      ensures FileScanner(read, safeLoad)(p).value.file == p && FileScanner(read, safeLoad)(p).value.ids == []
    {
      assert FileScanner(read, safeLoad)(p) == ScanFile(p, read(p), safeLoad);
    }
  }

  /** `_traverse_original_content(path)` for a tree whose walk is `walk` and whose files read
      as `read`: every visited markdown file becomes a record of its own path, with no ids and
      a date within the calendar. */
  function ScanTree(walk: seq<DirEntry>, read: string -> string, safeLoad: string -> Result<YamlDoc, Exception>)
    : (r: Result<seq<FileRecord>, Exception>)
    ensures r.Success? ==> |r.value| == |Candidates(walk)|
    ensures r.Success? ==> forall i :: 0 <= i < |r.value| ==>
      r.value[i].file == Candidates(walk)[i] && r.value[i].ids == [] && Valid(r.value[i].updateTime)
  {
    var paths := Candidates(walk);
    var r := MapAll(paths, FileScanner(read, safeLoad));
    MapAllPointwise(paths, FileScanner(read, safeLoad));
    assert r.Success? ==> forall i :: 0 <= i < |paths| ==>
      ScanFile(paths[i], read(paths[i]), safeLoad) == Success(r.value[i]);
    r
  }

  /** The directory part of a joined path: the directory with a `/` appended unless it is
      empty or already ends in one. */
  function DirPrefix(dir: string): (d: string)
    ensures d == [] || d[|d| - 1] == '/'
  {
    if dir == [] || dir[|dir| - 1] == '/' then dir else dir + "/"
  }

  /** A file name as `os.walk` lists it: not empty and free of `/`. */
  predicate PlainName(name: string) {
    name != [] && forall k :: 0 <= k < |name| ==> name[k] != '/'
  }

  /** What `os.walk` guarantees of its output: plain file names, each listed once per
      directory, and directories that differ once their directory parts are formed. */
  predicate WellFormedWalk(walk: seq<DirEntry>) {
    && (forall w, n :: 0 <= w < |walk| && n in walk[w].filenames ==> PlainName(n))
    && (forall w, i, j :: 0 <= w < |walk| && 0 <= i < j < |walk[w].filenames| ==>
          walk[w].filenames[i] != walk[w].filenames[j])
    && (forall v, w :: 0 <= v < w < |walk| ==> DirPrefix(walk[v].dirpath) != DirPrefix(walk[w].dirpath))
  }

  predicate DistinctPaths(ps: seq<string>) {
    forall i, j :: 0 <= i < j < |ps| ==> ps[i] != ps[j]
  }

  /** Joining a plain name appends it to the directory part. */
  lemma JoinPlainName(dir: string, name: string)
    requires PlainName(name)
    ensures JoinPath(dir, name) == DirPrefix(dir) + name
  {
  }

  /** A path joined from a plain name tells its directory part and its name apart: the name
      is what follows the last `/`. */
  lemma JoinPathInjective(d1: string, n1: string, d2: string, n2: string)
    requires PlainName(n1) && PlainName(n2)
    requires JoinPath(d1, n1) == JoinPath(d2, n2)
    ensures DirPrefix(d1) == DirPrefix(d2) && n1 == n2
  {
    JoinPlainName(d1, n1);
    JoinPlainName(d2, n2);
    var p1, p2 := DirPrefix(d1), DirPrefix(d2);
    var p := p1 + n1;
    assert p1 == p[..|p1|] && n1 == p[|p1|..];
    assert p2 == (p2 + n2)[..|p2|] && n2 == (p2 + n2)[|p2|..];
  }

  /** Filtering keeps names listed once listed once. */
  lemma {:induction false} FilterMarkdownDistinct(names: seq<string>)
    requires DistinctPaths(names)
    ensures DistinctPaths(FilterMarkdown(names))
  {
    if names != [] {
      var k := |names| - 1;
      assert DistinctPaths(names[..k]) by {
        forall i, j | 0 <= i < j < k ensures names[..k][i] != names[..k][j] {
          assert names[..k][i] == names[i] && names[..k][j] == names[j];
        }
      }
      FilterMarkdownDistinct(names[..k]);
      assert names[k] !in names[..k];
    }
  }

  /** A well-formed directory listing gives every markdown file its own path. */
  lemma DirectoryPathsDistinct(walk: seq<DirEntry>, w: nat)
    requires WellFormedWalk(walk) && w < |walk|
    ensures DistinctPaths(DirectoryPaths(walk[w]))
  {
    var e := walk[w];
    var names := FilterMarkdown(e.filenames);
    assert DistinctPaths(e.filenames);
    FilterMarkdownDistinct(e.filenames);
    var here := DirectoryPaths(e);
    forall i, j | 0 <= i < j < |here| ensures here[i] != here[j] {
      assert names[i] in names && names[j] in names;
      if here[i] == here[j] {
        JoinPathInjective(e.dirpath, names[i], e.dirpath, names[j]);
      }
    }
  }

  /** A prefix of a well-formed walk is well formed. */
  lemma WellFormedPrefix(walk: seq<DirEntry>, k: nat)
    requires WellFormedWalk(walk) && k <= |walk|
    ensures WellFormedWalk(walk[..k])
  {
    assert forall w :: 0 <= w < k ==> walk[..k][w] == walk[w];
  }

  /** No path of the directories before the k-th is a path of the k-th. */
  lemma CandidatesApart(walk: seq<DirEntry>, k: nat, p: string)
    requires WellFormedWalk(walk) && k < |walk|
    requires p in Candidates(walk[..k])
    ensures p !in DirectoryPaths(walk[k])
  {
    var w, n :| 0 <= w < k && n in walk[..k][w].filenames && IsMarkdown(n) && p == JoinPath(walk[..k][w].dirpath, n);
    assert walk[..k][w] == walk[w];
    DirectoryPathsMembers(walk[k]);
    if p in DirectoryPaths(walk[k]) {
      var m :| m in walk[k].filenames && IsMarkdown(m) && p == JoinPath(walk[k].dirpath, m);
      JoinPathInjective(walk[w].dirpath, n, walk[k].dirpath, m);
      assert false;
    }
  }

  /** A well-formed walk visits every markdown file once. */
  lemma {:induction false} CandidatesDistinct(walk: seq<DirEntry>)
    requires WellFormedWalk(walk)
    ensures DistinctPaths(Candidates(walk))
  {
    if walk != [] {
      var k := |walk| - 1;
      var init, here := Candidates(walk[..k]), DirectoryPaths(walk[k]);
      WellFormedPrefix(walk, k);
      CandidatesDistinct(walk[..k]);
      DirectoryPathsDistinct(walk, k);
      forall p | p in init ensures p !in here {
        CandidatesApart(walk, k, p);
      }
      DistinctConcat(init, here);
    }
  }

  /** Two lists without repeats and without a common path concatenate without repeats. */
  lemma DistinctConcat(a: seq<string>, b: seq<string>)
    requires DistinctPaths(a) && DistinctPaths(b)
    requires forall p :: p in a ==> p !in b
    ensures DistinctPaths(a + b)
  {
    forall i, j | 0 <= i < j < |a + b| ensures (a + b)[i] != (a + b)[j] {
      if i < |a| <= j {
        assert a[i] in a && (a + b)[j] == b[j - |a|];
      }
    }
  }

  /** The traversal of a well-formed walk makes one record per path: no file twice. */
  lemma ScanTreeDistinctFiles(walk: seq<DirEntry>, read: string -> string, safeLoad: string -> Result<YamlDoc, Exception>)
    requires WellFormedWalk(walk)
    ensures ScanTree(walk, read, safeLoad).Success? ==> DistinctFiles(ScanTree(walk, read, safeLoad).value)
  {
    CandidatesDistinct(walk);
  }

  /** The walk visits the directories in order: the paths of a prefix of the walk are a prefix
      of all its paths. */
  lemma {:induction false} CandidatesPrefix(walk: seq<DirEntry>, w: nat)
    requires w < |walk|
    ensures Candidates(walk[..w + 1]) == Candidates(walk[..w]) + DirectoryPaths(walk[w])
    ensures Candidates(walk[..w + 1]) <= Candidates(walk)
    decreases |walk| - w
  {
    assert walk[..w + 1][..w] == walk[..w];
    if w + 1 < |walk| {
      CandidatesPrefix(walk, w + 1);
    } else {
      assert walk[..w + 1] == walk;
    }
  }
}
