/** ContentLoader (content_loader.py): reads a markdown document and merges its YAML front
    matter into the document's metadata. The YAML parser (`yaml.safe_load`) is a parameter;
    the front-matter split around it is modelled exactly, down to Python's
    `str.split(sep, maxsplit)`. */
module ContentLoader {
  import opened Wrappers
  import opened Errors
  import opened Sequencing

  /** A value of a parsed front matter. `Composite` stands for dates, nested mappings and the
      other values the modelled code never looks inside. */
  datatype Value =
    | Str(s: string)
    | Int(i: int)
    | Float(f: real)
    | Bool(b: bool)
    | Null
    | List(items: seq<Value>)
    | Composite

  /** What `yaml.safe_load` returns: a mapping, or any other value (`Null` for an empty or
      null front matter). */
  datatype YamlDoc = Mapping(entries: map<string, Value>) | Plain(v: Value)

  /** The document `TextLoader.load` yields, after the front matter is merged in. */
  datatype Document = Document(pageContent: string, metadata: map<string, Value>)

  const Delimiter: string := "---"

  // ---------------------------------------------------------------------------------------
  // Python's str.find and str.split(sep, maxsplit)

  predicate OccursAt(s: string, sep: string, k: nat) {
    k + |sep| <= |s| && s[k..k + |sep|] == sep
  }

  /** `s.find(sep)`: the leftmost position where `sep` occurs, if any. */
  function IndexOf(s: string, sep: string): (r: Option<nat>)
    requires |sep| > 0
    ensures r.Some? ==> OccursAt(s, sep, r.value)
    ensures r.Some? ==> forall j :: 0 <= j < r.value ==> !OccursAt(s, sep, j)
    ensures r.None? ==> forall j :: 0 <= j <= |s| ==> !OccursAt(s, sep, j)
    decreases |s|
  {
    if |s| < |sep| then None
    else if s[..|sep|] == sep then Some(0)
    else
      var rest := IndexOf(s[1..], sep);
      assert !OccursAt(s, sep, 0) by { assert s[0..|sep|] == s[..|sep|]; }
      forall j | 1 <= j <= |s| ensures OccursAt(s, sep, j) <==> OccursAt(s[1..], sep, j - 1) {
        if j + |sep| <= |s| {
          assert s[1..][j - 1..j - 1 + |sep|] == s[j..j + |sep|];
        }
      }
      match rest
      case None => None
      case Some(k) => Some(k + 1)
  }

  /** `sep.join(parts)`. */
  function Join(parts: seq<string>, sep: string): string {
    if |parts| == 0 then ""
    else if |parts| == 1 then parts[0]
    else parts[0] + sep + Join(parts[1..], sep)
  }

  /** A prefix of `s` that ends before the leftmost occurrence of `sep` holds none. */
  lemma PrefixBeforeOccurrence(s: string, sep: string, k: nat)
    requires |sep| > 0 && k <= |s|
    requires forall j :: 0 <= j < k ==> !OccursAt(s, sep, j)
    ensures IndexOf(s[..k], sep).None?
  {
    forall j | 0 <= j <= k ensures !OccursAt(s[..k], sep, j) {
      if j + |sep| <= k {
        assert j < k && !OccursAt(s, sep, j);
        assert s[..k][j..j + |sep|] == s[j..j + |sep|];
      }
    }
  }

  /** Every part but the last ends where `sep` first occurs in the text that remains, so none
      of them holds `sep`. */
  predicate CutsAtLeftmost(parts: seq<string>, sep: string)
    requires |sep| > 0
  {
    forall i :: 0 <= i < |parts| - 1 ==>
      IndexOf(Join(parts[i..], sep), sep) == Some(|parts[i]|) && IndexOf(parts[i], sep).None?
  }

  /** Cutting the text at its leftmost `sep` in front of parts cut at their leftmost `sep`
      keeps every cut leftmost. */
  lemma CutsAtLeftmostCons(s: string, sep: string, k: nat, rest: seq<string>)
    requires |sep| > 0 && |rest| >= 1 && IndexOf(s, sep) == Some(k)
    requires Join(rest, sep) == s[k + |sep|..] && CutsAtLeftmost(rest, sep)
    ensures Join([s[..k]] + rest, sep) == s
    ensures CutsAtLeftmost([s[..k]] + rest, sep)
  {
    var parts := [s[..k]] + rest;
    JoinAtCut(s, sep, k, rest);
    PrefixBeforeOccurrence(s, sep, k);
    assert parts[0..] == parts;
    forall i | 0 <= i < |parts| - 1
      ensures IndexOf(Join(parts[i..], sep), sep) == Some(|parts[i]|) && IndexOf(parts[i], sep).None?
    {
      if i > 0 {
        TailCutAtLeftmost(parts, rest, sep, i);
      }
    }
  }

  /** Joining the text before an occurrence of `sep` to the parts of the text after it. */
  lemma JoinAtCut(s: string, sep: string, k: nat, rest: seq<string>)
    requires |rest| >= 1 && OccursAt(s, sep, k)
    requires Join(rest, sep) == s[k + |sep|..]
    ensures Join([s[..k]] + rest, sep) == s
  {
    JoinCons(s[..k], rest, sep);
    SplitAt(s, k, k + |sep|);
  }

  lemma JoinCons(head: string, rest: seq<string>, sep: string)
    requires |rest| >= 1
    ensures Join([head] + rest, sep) == head + sep + Join(rest, sep)
  {
    assert ([head] + rest)[1..] == rest;
  }

  lemma SplitAt(s: string, i: nat, j: nat)
    requires i <= j <= |s|
    ensures s == s[..i] + s[i..j] + s[j..]
  {
  }

  lemma TailCutAtLeftmost(parts: seq<string>, rest: seq<string>, sep: string, i: nat)
    requires |sep| > 0 && |parts| >= 1 && parts[1..] == rest && CutsAtLeftmost(rest, sep)
    requires 1 <= i < |parts| - 1
    ensures IndexOf(Join(parts[i..], sep), sep) == Some(|parts[i]|) && IndexOf(parts[i], sep).None?
  {
    assert parts[i..] == rest[i - 1..];
    assert parts[i] == rest[i - 1];
  }

  /** `s.split(sep, maxsplit)`: cut at the leftmost occurrences of `sep`, at most `maxsplit`
      times; the last part keeps every later occurrence. Joining the parts gives `s` back,
      each cut is where `sep` first occurs in the rest of the text, and the last part holds no
      `sep` either when fewer than `maxsplit` cuts were made. */
  function Split(s: string, sep: string, maxsplit: nat): (parts: seq<string>)
    requires |sep| > 0
    ensures 1 <= |parts| <= maxsplit + 1
    ensures Join(parts, sep) == s
    ensures CutsAtLeftmost(parts, sep)
    ensures |parts| <= maxsplit ==> IndexOf(parts[|parts| - 1], sep).None?
    decreases maxsplit
  {
    if maxsplit == 0 then [s]
    else
      match IndexOf(s, sep)
      case None => [s]
      case Some(k) =>
        var rest := Split(s[k + |sep|..], sep, maxsplit - 1);
        CutsAtLeftmostCons(s, sep, k, rest);
        var parts := [s[..k]] + rest;
        assert |parts| == |rest| + 1 && parts[|parts| - 1] == rest[|rest| - 1];
        parts
  }

  // ---------------------------------------------------------------------------------------
  // parse_front_matter

  predicate StartsWithDelimiter(content: string) {
    |content| >= 3 && content[..3] == Delimiter
  }

  /** The text `parse_front_matter` hands to the YAML parser, if any: when `content` starts
      with `---`, the middle part of `content.split('---', 2)`, provided there are three. */
  function FrontMatterBlock(content: string): Option<string> {
    if !StartsWithDelimiter(content) then None
    else
      var parts := Split(content, Delimiter, 2);
      if |parts| >= 3 then Some(parts[1]) else None
  }

  /** There is a block exactly when the text starts with `---` and `---` occurs again after
      it; the block is the text between the opening `---` and the first later `---`, wherever
      on its line that one stands. */
  lemma {:induction false} FrontMatterBlockCharacterisation(content: string)
    ensures FrontMatterBlock(content).Some? <==>
      StartsWithDelimiter(content) && IndexOf(content[3..], Delimiter).Some?
    ensures FrontMatterBlock(content).Some? ==>
      var k := IndexOf(content[3..], Delimiter).value;
      FrontMatterBlock(content).value == content[3..3 + k]
  {
    if StartsWithDelimiter(content) {
      assert OccursAt(content, Delimiter, 0);
      assert IndexOf(content, Delimiter) == Some(0);
      var rest := content[3..];
      assert Split(content, Delimiter, 2) == [content[..0]] + Split(rest, Delimiter, 1);
      match IndexOf(rest, Delimiter)
      case None =>
        assert Split(rest, Delimiter, 1) == [rest];
      case Some(k) =>
        assert Split(rest, Delimiter, 1) == [rest[..k]] + Split(rest[k + 3..], Delimiter, 0);
        assert rest[..k] == content[3..3 + k];
    }
  }

  /** Text that does not begin with `---` has no front matter. */
  lemma NoBlockWithoutOpeningDelimiter(content: string)
    requires !StartsWithDelimiter(content)
    ensures FrontMatterBlock(content) == None
  {
  }

  /** Text that begins with `---` but never repeats it has no front matter either: the split
      gives fewer than three parts. */
  lemma NoBlockWithoutClosingDelimiter(content: string)
    requires StartsWithDelimiter(content)
    requires forall j :: 3 <= j <= |content| ==> !OccursAt(content, Delimiter, j)
    ensures FrontMatterBlock(content) == None
  {
    var rest := content[3..];
    forall j | 0 <= j <= |rest| ensures !OccursAt(rest, Delimiter, j) {
      assert !OccursAt(content, Delimiter, j + 3);
      if j + 3 <= |rest| {
        assert rest[j..j + 3] == content[j + 3..j + 6];
      }
    }
    assert IndexOf(rest, Delimiter).None?;
    FrontMatterBlockCharacterisation(content);
  }

  /** An occurrence with no occurrence before it is the one `IndexOf` finds. */
  lemma IndexOfUnique(s: string, sep: string, k: nat)
    requires |sep| > 0
    requires OccursAt(s, sep, k)
    requires forall j :: 0 <= j < k ==> !OccursAt(s, sep, j)
    ensures IndexOf(s, sep) == Some(k)
  {
    var r := IndexOf(s, sep);
    assert k <= |s|;
    assert r.Some?;
    assert !(r.value < k);
    assert !(k < r.value);
  }

  /** The first occurrence of `sep` in `a` stays the first one whatever follows `a`. */
  lemma IndexOfExtend(a: string, b: string, sep: string)
    requires |sep| > 0
    requires IndexOf(a, sep).Some?
    ensures IndexOf(a + b, sep) == IndexOf(a, sep)
  {
    var k := IndexOf(a, sep).value;
    var c := a + b;
    assert c[k..k + |sep|] == a[k..k + |sep|];
    forall j | 0 <= j < k ensures !OccursAt(c, sep, j) {
      assert !OccursAt(a, sep, j);
      assert c[j..j + |sep|] == a[j..j + |sep|];
    }
    IndexOfUnique(c, sep, k);
  }

  /** Cutting `a` right after its first occurrence of `sep` keeps that occurrence first. */
  lemma IndexOfTruncate(a: string, sep: string, k: nat)
    requires |sep| > 0
    requires IndexOf(a, sep) == Some(k)
    ensures IndexOf(a[..k + |sep|], sep) == Some(k)
  {
    var p := a[..k + |sep|];
    assert p[k..k + |sep|] == a[k..k + |sep|];
    forall j | 0 <= j < k ensures !OccursAt(p, sep, j) {
      assert !OccursAt(a, sep, j);
      assert p[j..j + |sep|] == a[j..j + |sep|];
    }
    IndexOfUnique(p, sep, k);
  }

  lemma PrefixThenTail<T>(s: seq<T>, m: nat, n: nat, tail: seq<T>)
    requires m <= n <= |s|
    ensures (s[..n] + tail)[..m] == s[..m]
    ensures (s[..n] + tail)[m..] == s[m..][..n - m] + tail
  {
  }

  /** Replacing what follows the first occurrence of `sep` keeps that occurrence first. */
  lemma FirstOccurrenceKeptBeforeTail(a: string, sep: string, k: nat, tail: string)
    requires |sep| > 0
    requires IndexOf(a, sep) == Some(k)
    ensures IndexOf(a[..k + |sep|] + tail, sep) == Some(k)
  {
    IndexOfTruncate(a, sep, k);
    IndexOfExtend(a[..k + |sep|], tail, sep);
  }

  /** The block of a text whose first later `---` starts `k` characters after the opening one. */
  lemma FrontMatterBlockAt(content: string, k: nat)
    requires StartsWithDelimiter(content) && IndexOf(content[3..], Delimiter) == Some(k)
    ensures FrontMatterBlock(content) == Some(content[3..3 + k])
  {
    FrontMatterBlockCharacterisation(content);
  }

  /** Nothing after the closing `---` reaches the YAML parser: replacing everything that
      follows it (including further `---` lines) leaves the block unchanged. */
  lemma BlockIgnoresTail(content: string, tail: string)
    requires FrontMatterBlock(content).Some?
    ensures var y := FrontMatterBlock(content).value;
      |content| >= |y| + 6 && FrontMatterBlock(content[..|y| + 6] + tail) == Some(y)
  {
    FrontMatterBlockCharacterisation(content);
    var k := IndexOf(content[3..], Delimiter).value;
    FrontMatterBlockAt(content, k);
    BlockAtIgnoresTail(content, k, tail);
  }

  lemma BlockAtIgnoresTail(content: string, k: nat, tail: string)
    requires StartsWithDelimiter(content) && IndexOf(content[3..], Delimiter) == Some(k)
    ensures k + 6 <= |content|
    ensures FrontMatterBlock(content[..k + 6] + tail) == Some(content[3..3 + k])
  {
    var rest := content[3..];
    var c := content[..k + 6] + tail;
    PrefixThenTail(content, 3, k + 6, tail);
    assert c[3..3 + k] == content[3..3 + k];
    FirstOccurrenceKeptBeforeTail(rest, Delimiter, k, tail);
    FrontMatterBlockAt(c, k);
  }

  /** `parse_front_matter`: `None` without a block, otherwise whatever `yaml.safe_load`
      makes of the block (a YAML error propagates). */
  function ParseFrontMatter(content: string, safeLoad: string -> Result<YamlDoc, Exception>)
    : (r: Result<Option<YamlDoc>, Exception>)
    ensures FrontMatterBlock(content).None? ==> r == Success(None)
    ensures FrontMatterBlock(content).Some? && safeLoad(FrontMatterBlock(content).value).Success?
      ==> r == Success(Some(safeLoad(FrontMatterBlock(content).value).value))
    ensures r.Failure? ==>
      FrontMatterBlock(content).Some? && r.error == safeLoad(FrontMatterBlock(content).value).error
  {
    match FrontMatterBlock(content)
    case None => Success(None)
    case Some(block) =>
      var doc :- safeLoad(block);
      Success(Some(doc))
  }

  // ---------------------------------------------------------------------------------------
  // load

  /** Python truthiness of a front-matter value; a date is always true. */
  predicate ValueTruthy(v: Value) {
    match v
    case Str(s) => |s| > 0
    case Int(i) => i != 0
    case Float(f) => f != 0.0
    case Bool(b) => b
    case Null => false
    case List(items) => |items| > 0
    case Composite => true
  }

  /** Python truthiness of what `parse_front_matter` returned. */
  predicate Truthy(front: Option<YamlDoc>) {
    match front
    case None => false
    case Some(Mapping(m)) => |m| > 0
    case Some(Plain(v)) => ValueTruthy(v)
  }

  /** The key and value `dict.update` takes from one element of a sequence that is not a
      mapping: the element must itself be a sequence (a string is the sequence of its
      characters) of exactly two items (ValueError), and its first item is the key, which must
      be hashable (TypeError); a scalar or a date is no sequence at all (TypeError). */
  function PairOf(e: Value): (r: Result<(string, Value), Exception>)
    ensures r.Success? <==> (e.Str? && |e.s| == 2) || (e.List? && |e.items| == 2 && e.items[0].Str?)
    ensures r.Success? && e.Str? ==> r.value == ([e.s[0]], Str([e.s[1]]))
    ensures r.Success? && e.List? ==> r.value == (e.items[0].s, e.items[1])
    ensures (e.Str? && |e.s| != 2) || (e.List? && |e.items| != 2) ==> r.Failure? && r.error.ValueError?
    ensures !e.Str? && !e.List? ==> r.Failure? && r.error.TypeError?
  {
    if e.Str? then
      if |e.s| == 2 then Success(([e.s[0]], Str([e.s[1]])))
      else Failure(ValueError("dictionary update sequence element does not have length 2; 2 is required"))
    else if e.List? then
      if |e.items| != 2 then Failure(ValueError("dictionary update sequence element does not have length 2; 2 is required"))
      else if e.items[0].Str? then Success((e.items[0].s, e.items[1]))
      else if e.items[0].List? then Failure(TypeError("unhashable type: 'list'"))
      else Failure(TypeError("front-matter keys are strings"))
    else Failure(TypeError("cannot convert dictionary update sequence element to a sequence"))
  }

  /** The pairs `dict.update` reads from a front matter that is not a mapping, in order: a list
      gives one pair per element and raises at its first element that is not a pair; a string
      is the sequence of its one-character strings, so a non-empty one raises ValueError at its
      first character; any other value is not iterable (TypeError). */
  function Pairs(v: Value): (r: Result<seq<(string, Value)>, Exception>)
    ensures r.Success? <==>
      (v.Str? && v.s == []) || (v.List? && forall i :: 0 <= i < |v.items| ==> PairOf(v.items[i]).Success?)
    ensures r.Success? && v.List? ==>
      |r.value| == |v.items| && forall i :: 0 <= i < |v.items| ==> PairOf(v.items[i]) == Success(r.value[i])
    ensures r.Failure? && v.List? ==>
      exists i :: 0 <= i < |v.items| && PairOf(v.items[i]) == Failure(r.error)
        && forall j :: 0 <= j < i ==> PairOf(v.items[j]).Success?
    ensures r.Failure? && v.Str? ==> r.error.ValueError?
    ensures !v.Str? && !v.List? ==> r.Failure? && r.error.TypeError?
  {
    match v
    case Str(s) =>
      if s == [] then Success([])
      else Failure(ValueError("dictionary update sequence element #0 has length 1; 2 is required"))
    case List(items) =>
      MapAllPointwise(items, PairOf);
      MapAllFirstFailure(items, PairOf);
      MapAll(items, PairOf)
    case _ => Failure(TypeError("object is not iterable"))
  }

  /** The keys of some pairs. */
  function PairKeys(ps: seq<(string, Value)>): set<string> {
    set i | 0 <= i < |ps| :: ps[i].0
  }

  /** `m` holds, for each key of `ps`, the value of the last pair with that key. */
  predicate LastPairWins(ps: seq<(string, Value)>, m: map<string, Value>) {
    forall i :: 0 <= i < |ps| && (forall j :: i < j < |ps| ==> ps[j].0 != ps[i].0) ==>
      ps[i].0 in m && m[ps[i].0] == ps[i].1
  }

  /** The dict that storing `ps` one after the other builds: a later pair overrides an earlier
      one with the same key. */
  function PairsMap(ps: seq<(string, Value)>): (m: map<string, Value>)
    ensures m.Keys == PairKeys(ps)
    ensures LastPairWins(ps, m)
  {
    if ps == [] then map[]
    else
      var k := |ps| - 1;
      var init := PairsMap(ps[..k]);
      PairKeysSnoc(ps);
      LastPairWinsSnoc(ps, init);
      init[ps[k].0 := ps[k].1]
  }

  lemma PairKeysSnoc(ps: seq<(string, Value)>)
    requires |ps| > 0
    ensures PairKeys(ps) == PairKeys(ps[..|ps| - 1]) + {ps[|ps| - 1].0}
  {
    var k := |ps| - 1;
    forall x | x in PairKeys(ps) ensures x in PairKeys(ps[..k]) + {ps[k].0} {
      var i :| 0 <= i < |ps| && ps[i].0 == x;
      if i < k {
        assert ps[..k][i].0 == x;
      }
    }
    forall x | x in PairKeys(ps[..k]) ensures x in PairKeys(ps) {
      var i :| 0 <= i < k && ps[..k][i].0 == x;
      assert ps[i].0 == x;
    }
  }

  lemma LastPairWinsSnoc(ps: seq<(string, Value)>, init: map<string, Value>)
    requires |ps| > 0 && LastPairWins(ps[..|ps| - 1], init)
    ensures LastPairWins(ps, init[ps[|ps| - 1].0 := ps[|ps| - 1].1])
  {
    var k := |ps| - 1;
    forall i | 0 <= i < |ps| && (forall j :: i < j < |ps| ==> ps[j].0 != ps[i].0)
      ensures ps[i].0 in init[ps[k].0 := ps[k].1] && init[ps[k].0 := ps[k].1][ps[i].0] == ps[i].1
    {
      if i < k {
        LastPairWinsBefore(ps, init, i);
      }
    }
  }

  /** A pair before the last one whose key no later pair repeats. */
  lemma LastPairWinsBefore(ps: seq<(string, Value)>, init: map<string, Value>, i: nat)
    requires |ps| > 0 && LastPairWins(ps[..|ps| - 1], init)
    requires i < |ps| - 1 && forall j :: i < j < |ps| ==> ps[j].0 != ps[i].0
    ensures ps[|ps| - 1].0 != ps[i].0 && ps[i].0 in init && init[ps[i].0] == ps[i].1
  {
    var k := |ps| - 1;
    var prefix := ps[..k];
    assert prefix[i] == ps[i];
    assert forall j :: i < j < k ==> prefix[j].0 != prefix[i].0 by {
      forall j | i < j < k ensures prefix[j].0 != prefix[i].0 {
        assert prefix[j] == ps[j];
      }
    }
  }

  /** The metadata `TextLoader` gives every document. */
  function BaseMetadata(source: string): map<string, Value> {
    map["source" := Str(source)]
  }

  /** `load`: one document holding the text unchanged; its metadata is `{"source": path}`
      updated in place with a truthy front matter: a mapping's entries, or else the pairs read
      from it (which may raise). The freshly built metadata dict is seen by no one else, so its
      in-place update is the map override `+`; a partial update before an exception is never
      seen either. */
  function Load(source: string, text: string, safeLoad: string -> Result<YamlDoc, Exception>)
    : (r: Result<Document, Exception>)
    ensures r.Success? ==> r.value.pageContent == text
  {
    var front :- ParseFrontMatter(text, safeLoad);
    if !Truthy(front) then Success(Document(text, BaseMetadata(source)))
    else match front.value
      case Mapping(m) => Success(Document(text, BaseMetadata(source) + m))
      case Plain(v) =>
        var pairs :- Pairs(v);
        Success(Document(text, BaseMetadata(source) + PairsMap(pairs)))
  }

  /** A front matter that is a mapping is overlaid on the base metadata: every front-matter key
      keeps its parsed value (even `source`), and `source` is the path unless the front matter
      sets it. */
  lemma LoadMetadataOverlay(
    source: string, text: string, safeLoad: string -> Result<YamlDoc, Exception>, m: map<string, Value>)
    requires ParseFrontMatter(text, safeLoad) == Success(Some(Mapping(m)))
    ensures Load(source, text, safeLoad).Success?
    ensures var md := Load(source, text, safeLoad).value.metadata;
      && md.Keys == {"source"} + m.Keys
      && (forall k :: k in m ==> md[k] == m[k])
      && ("source" !in m ==> md["source"] == Str(source))
  {
    assert |m| > 0 ==> Load(source, text, safeLoad) == Success(Document(text, BaseMetadata(source) + m));
  }

  /** With no block, or a block that parses to a false value (nothing, an empty mapping, an
      empty list or string, zero, false), the metadata is exactly `{"source": path}`. */
  lemma LoadIgnoresFalseFrontMatter(
    source: string, text: string, safeLoad: string -> Result<YamlDoc, Exception>)
    requires ParseFrontMatter(text, safeLoad) == Success(None)
      || ParseFrontMatter(text, safeLoad) == Success(Some(Plain(Null)))
      || ParseFrontMatter(text, safeLoad) == Success(Some(Mapping(map[])))
      || (ParseFrontMatter(text, safeLoad).Success? && !Truthy(ParseFrontMatter(text, safeLoad).value))
    ensures Load(source, text, safeLoad) == Success(Document(text, BaseMetadata(source)))
  {
    assert !Truthy(ParseFrontMatter(text, safeLoad).value);
  }

  /** A front matter that is a list of pairs (two-item lists, or two-character strings) is
      stored pair by pair over the base metadata: the metadata holds `source` and every pair's
      key, a key holds the value of its last pair, and `source` is the path unless some pair
      sets it. The pairs are the elements' own, in order (`Pairs`). */
  lemma LoadPairsOverlay(
    source: string, text: string, safeLoad: string -> Result<YamlDoc, Exception>, xs: seq<Value>)
    requires ParseFrontMatter(text, safeLoad) == Success(Some(Plain(List(xs)))) && |xs| > 0
    requires forall i :: 0 <= i < |xs| ==> PairOf(xs[i]).Success?
    ensures Pairs(List(xs)).Success? && Load(source, text, safeLoad).Success?
    ensures var ps := Pairs(List(xs)).value;
      var md := Load(source, text, safeLoad).value.metadata;
      && md.Keys == {"source"} + PairKeys(ps)
      && LastPairWins(ps, md)
      && ("source" !in PairKeys(ps) ==> md["source"] == Str(source))
  {
    var ps := Pairs(List(xs)).value;
    assert Load(source, text, safeLoad) == Success(Document(text, BaseMetadata(source) + PairsMap(ps)));
    LastPairWinsOverBase(ps, PairsMap(ps), BaseMetadata(source));
  }

  /** Overlaying a map that holds every key of `ps` on another keeps the last pairs winning. */
  lemma LastPairWinsOverBase(ps: seq<(string, Value)>, m: map<string, Value>, base: map<string, Value>)
    requires LastPairWins(ps, m)
    ensures LastPairWins(ps, base + m)
  {
  }

  /** A list of a two-character string and a two-item list is read as two pairs, in order. */
  lemma UpdateWithPairsExample()
    ensures Pairs(List([Str("ab"), List([Str("date"), Str("2024-01-02")])]))
      == Success([("a", Str("b")), ("date", Str("2024-01-02"))])
  {
    var ok := [Str("ab"), List([Str("date"), Str("2024-01-02")])];
    assert PairOf(ok[0]) == Success(("a", Str("b")));
    assert PairOf(ok[1]) == Success(("date", Str("2024-01-02")));
    var r := Pairs(List(ok));
    assert r.Success? && |r.value| == 2;
    assert r.value[0] == ("a", Str("b")) && r.value[1] == ("date", Str("2024-01-02"));
    assert r.value == [("a", Str("b")), ("date", Str("2024-01-02"))];
  }

  /** A non-empty string, a list holding a string of another length, and a list holding a
      number are refused with ValueError, ValueError and TypeError; so is a bare number, with
      TypeError. */
  lemma UpdateWithNonPairsExamples()
    ensures Pairs(Str("ab")).Failure? && Pairs(Str("ab")).error.ValueError?
    ensures Pairs(List([Str("abc")])).Failure? && Pairs(List([Str("abc")])).error.ValueError?
    ensures Pairs(List([Int(1)])).Failure? && Pairs(List([Int(1)])).error.TypeError?
    ensures Pairs(Int(1)).Failure? && Pairs(Int(1)).error.TypeError?
  {
    assert PairOf(Str("abc")).error.ValueError?;
    assert PairOf(Int(1)).error.TypeError?;
  }

  /** A document without front matter loads as its text with `{"source": path}` only; the
      YAML parser is never called. */
  lemma LoadWithoutFrontMatter(
    source: string, text: string, safeLoad: string -> Result<YamlDoc, Exception>)
    requires FrontMatterBlock(text).None?
    ensures Load(source, text, safeLoad) == Success(Document(text, BaseMetadata(source)))
  {
  }

  /** Loading fails exactly when the YAML parser fails on the block, or returns a truthy value
      that is not a mapping and from which no pairs can be read; it then raises the parser's
      exception or the one reading the pairs raised. */
  lemma LoadFailsOnlyOnBadFrontMatter(
    source: string, text: string, safeLoad: string -> Result<YamlDoc, Exception>)
    ensures Load(source, text, safeLoad).Failure? <==>
      FrontMatterBlock(text).Some? &&
      (safeLoad(FrontMatterBlock(text).value).Failure? ||
       (safeLoad(FrontMatterBlock(text).value).value.Plain?
        && ValueTruthy(safeLoad(FrontMatterBlock(text).value).value.v)
        && Pairs(safeLoad(FrontMatterBlock(text).value).value.v).Failure?))
    ensures Load(source, text, safeLoad).Failure? ==>
      var doc := safeLoad(FrontMatterBlock(text).value);
      Load(source, text, safeLoad).error == (if doc.Failure? then doc.error else Pairs(doc.value.v).error)
  {
    var front := ParseFrontMatter(text, safeLoad);
    assert Load(source, text, safeLoad).Failure? <==>
      front.Failure? ||
      (front.value.Some? && front.value.value.Plain? && ValueTruthy(front.value.value.v)
       && Pairs(front.value.value.v).Failure?);
  }
}
