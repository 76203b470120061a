/**
 * Finding the uses of a JSON key from the JSON file (src/jsonKeyReferenceProvider.ts):
 * the cursor must be on the first `"name":` of its line; the name is widened
 * to a full dotted path through the flattened keys of the document; the
 * rule owning the JSON file gives the source files to search, and every
 * `method('path')` call in them is a reference.
 */
module References {
  import opened Strings
  import opened Collections
  import opened JsonValue
  import opened Flatten
  import opened Rules
  import opened Scanner
  import opened Positions

  /** A reference: a source file and the offsets `[start, end)` of the whole call text. */
  datatype Reference = Reference(path: string, start: nat, end: nat)

  /** One of the rule's JSON specifiers is a suffix of the file name (no wildcard reading). */
  predicate Owns(fileName: string, rule: Rule) {
    exists k :: 0 <= k < |rule.jsonFiles| && EndsWith(fileName, rule.jsonFiles[k])
  }

  /** `patterns.find(...)`: the first rule, in order, that owns the JSON file. */
  function RuleOfJsonFile(rules: seq<Rule>, fileName: string): (r: Option<Rule>)
    ensures r.None? <==> forall i :: 0 <= i < |rules| ==> !Owns(fileName, rules[i])
    ensures r.Some? ==> exists i :: (0 <= i < |rules| && r.value == rules[i] && Owns(fileName, rules[i])
      && forall j :: 0 <= j < i ==> !Owns(fileName, rules[j]))
  {
    match FirstWhere((rule: Rule) => Owns(fileName, rule), rules, 0)
    case None => None
    case Some(i) => Some(rules[i])
  }

  /**
   * One attempt of `"([^"]+)"\s*:` at offset `j`: the captured name. The name
   * run can only stop at the first `"`, so the attempt is deterministic.
   */
  function LeafAt(line: string, j: nat): (r: Option<string>)
    requires j <= |line|
    ensures r.Some? ==> |r.value| > 0 && '"' !in r.value
  {
    if j == |line| || line[j] != '"' then None
    else
      var e := SkipKeyChars(line, j + 1, {'"'});
      if e == j + 1 || e == |line| then None
      else if ColonAfter(line, e + 1) then
        var x := line[j + 1..e];
        assert forall k :: 0 <= k < |x| ==> x[k] == line[j + 1 + k];
        Some(x)
      else None
  }

  /** `line.match(...)`: the leftmost attempt, from `j` on, that succeeds. */
  function FirstLeaf(line: string, j: nat): (r: Option<string>)
    requires j <= |line|
    ensures r.None? <==> forall m :: j <= m <= |line| ==> LeafAt(line, m).None?
    ensures r.Some? ==> exists m :: (j <= m <= |line| && LeafAt(line, m) == r
      && forall p :: j <= p < m ==> LeafAt(line, p).None?)
    decreases |line| - j
  {
    var here := LeafAt(line, j);
    if here.Some? then here
    else if j == |line| then None
    else
      FirstLeaf(line, j + 1)
  }

  /** An attempt succeeds with `x` exactly when the quoted non-empty, quote-free `x`, blanks and a colon sit at `j`. */
  lemma LeafAtIff(line: string, j: nat, x: string)
    requires j <= |line|
    ensures LeafAt(line, j) == Some(x) <==> |x| > 0 && '"' !in x && KeyColonAt(line, x, j)
  {
    var e := j + 1 + |x|;
    if LeafAt(line, j) == Some(x) {
      assert line[j..j + |x| + 2] == Quoted(x);
    }
    if |x| > 0 && '"' !in x && KeyColonAt(line, x, j) {
      var q := Quoted(x);
      assert line[j..j + |q|] == q;
      assert line[j] == q[0];
      assert line[e] == q[|x| + 1];
      forall k | j + 1 <= k < e
        ensures line[k] !in {'"'}
      {
        assert line[k] == q[k - j];
        assert q[k - j] == x[k - j - 1];
      }
      SkipKeyCharsExact(line, j + 1, e, {'"'});
      assert line[j + 1..e] == x by {
        forall k | 0 <= k < |x|
          ensures line[j + 1..e][k] == x[k]
        {
          assert line[j + 1 + k] == q[k + 1];
        }
      }
    }
  }

  /** The first flattened key whose last dot-segment is `leaf`. */
  function FirstWithLeaf(keys: seq<string>, leaf: string): (r: Option<nat>)
    ensures r.None? <==> forall i :: 0 <= i < |keys| ==> LastSegment(keys[i], '.') != leaf
    ensures r.Some? ==> r.value < |keys| && LastSegment(keys[r.value], '.') == leaf
    ensures r.Some? ==> forall j :: 0 <= j < r.value ==> LastSegment(keys[j], '.') != leaf
  {
    FirstWhere((k: string) => LastSegment(k, '.') == leaf, keys, 0)
  }

  /**
   * `getFullKeyPath`: the first flattened key of the parsed document whose
   * last segment is the leaf; the leaf itself when there is none, when that
   * key is empty, or when the document does not parse.
   */
  function FullKeyPath(parsed: Option<Json>, leaf: string): (r: string)
    ensures parsed.None? ==> r == leaf
    ensures parsed.Some? ==> var keys := FlattenJsonKeys(parsed.value, "");
      (forall i :: 0 <= i < |keys| ==> LastSegment(keys[i], '.') != leaf) ==> r == leaf
    ensures r == leaf || (parsed.Some? && r in FlattenJsonKeys(parsed.value, "") && LastSegment(r, '.') == leaf)
  {
    match parsed
    case None => leaf
    case Some(v) =>
      var keys := FlattenJsonKeys(v, "");
      match FirstWithLeaf(keys, leaf)
      case None => leaf
      case Some(i) => if |keys[i]| > 0 then keys[i] else leaf
  }

  /** `matchingKeys[0]`: the first flattened key ending in the leaf is the path, when it is non-empty. */
  lemma FullKeyPathIsFirst(v: Json, leaf: string, i: nat)
    requires i < |FlattenJsonKeys(v, "")|
    requires LastSegment(FlattenJsonKeys(v, "")[i], '.') == leaf && |FlattenJsonKeys(v, "")[i]| > 0
    requires forall j :: 0 <= j < i ==> LastSegment(FlattenJsonKeys(v, "")[j], '.') != leaf
    ensures FullKeyPath(Some(v), leaf) == FlattenJsonKeys(v, "")[i]
  {
    FirstWithLeafIs(FlattenJsonKeys(v, ""), leaf, i);
  }

  /** A key ending in the leaf with none before it is the first one. */
  lemma FirstWithLeafIs(keys: seq<string>, leaf: string, i: nat)
    requires i < |keys| && LastSegment(keys[i], '.') == leaf
    requires forall j :: 0 <= j < i ==> LastSegment(keys[j], '.') != leaf
    ensures FirstWithLeaf(keys, leaf) == Some(i)
  {
  }

  /** The path found ends with the leaf, after a dot when it is longer. */
  lemma FullPathEndsWithLeaf(parsed: Option<Json>, leaf: string)
    ensures var r := FullKeyPath(parsed, leaf);
      EndsWith(r, leaf) && (|r| > |leaf| ==> r[|r| - |leaf| - 1] == '.')
  {
    SegmentEnds(FullKeyPath(parsed, leaf), leaf);
  }

  /** A text that is the leaf, or whose last dot-segment is, ends with the leaf, after a dot when longer. */
  lemma SegmentEnds(r: string, leaf: string)
    requires r == leaf || LastSegment(r, '.') == leaf
    ensures EndsWith(r, leaf) && (|r| > |leaf| ==> r[|r| - |leaf| - 1] == '.')
  {
    if r == leaf {
      assert r[|r| - |leaf|..] == leaf;
    }
  }

  /**
   * `getKeyAtPosition`: the first `"name":` of the line; the cursor must lie
   * in the inclusive column range from the first `"name"` on the line for the
   * name's length plus two.
   */
  function KeyAtPosition(line: string, col: nat, parsed: Option<Json>): (r: Option<string>)
    ensures r.Some? <==> (FirstLeaf(line, 0).Some? &&
      var leaf := FirstLeaf(line, 0).value;
      var s := IndexOf(line, Quoted(leaf));
      s <= col <= s + |leaf| + 2)
    ensures r.Some? ==> |r.value| > 0 && EndsWith(r.value, FirstLeaf(line, 0).value)
    ensures r.Some? ==> r.value == FullKeyPath(parsed, FirstLeaf(line, 0).value)
  {
    match FirstLeaf(line, 0)
    case None => None
    case Some(leaf) =>
      var s := IndexOf(line, Quoted(leaf));
      if s <= col <= s + |leaf| + 2 then
        FullPathEndsWithLeaf(parsed, leaf);
        Some(FullKeyPath(parsed, leaf))
      else None
  }

  /**
   * The name found is what the line's regex test in the position mapping
   * matches too, and the column search for it starts at or before the match.
   */
  lemma FirstLeafIsKeyLine(line: string, x: string)
    requires FirstLeaf(line, 0) == Some(x)
    ensures |x| > 0 && '"' !in x
    ensures LineMatches(line, x)
    ensures 0 <= IndexOf(line, Quoted(x)) && exists m :: (IndexOf(line, Quoted(x)) <= m <= |line| && KeyColonAt(line, x, m))
  {
    var m :| 0 <= m <= |line| && LeafAt(line, m) == Some(x);
    LeafAtIff(line, m, x);
    MatchSeen(line, x, 0, m);
    assert Contains(line, Quoted(x)) by {
      assert OccursAt(line, Quoted(x), m);
    }
  }

  /** No name-colon match starts before the one found: the regex match is the leftmost. */
  lemma FirstLeafIsLeftmost(line: string, x: string, y: string, p: nat)
    requires FirstLeaf(line, 0) == Some(x)
    requires |y| > 0 && '"' !in y && KeyColonAt(line, y, p)
    ensures exists m: nat :: (m <= p && KeyColonAt(line, x, m))
  {
    var m :| 0 <= m <= |line| && LeafAt(line, m) == Some(x) && forall q :: 0 <= q < m ==> LeafAt(line, q).None?;
    LeafAtIff(line, m, x);
    if p < m {
      LeafAtIff(line, p, y);
    }
  }

  /**
   * The `findFiles` patterns of a rule: one per scan folder, the folder
   * followed by the source glob, or the bare source glob without folders.
   */
  function SearchPatterns(rule: Rule): (r: seq<string>)
    ensures |rule.scanFolders| == 0 ==> r == [SourceGlob(rule.fileExtensions)]
    ensures |rule.scanFolders| > 0 ==> |r| == |rule.scanFolders|
    ensures |rule.scanFolders| > 0 ==> forall i :: 0 <= i < |r| ==>
      StartsWith(r[i], rule.scanFolders[i]) && r[i][|rule.scanFolders[i]|..] == SourceGlob(rule.fileExtensions)
  {
    var g := SourceGlob(rule.fileExtensions);
    if |rule.scanFolders| == 0 then [g]
    else
      var r := seq(|rule.scanFolders|, i requires 0 <= i < |rule.scanFolders| => rule.scanFolders[i] + g);
      assert forall i :: 0 <= i < |r| ==> r[i][..|rule.scanFolders[i]|] == rule.scanFolders[i];
      r
  }

  /** Every search pattern names the rule's extensions in its brace list, which splits back to them. */
  lemma SearchPatternsReadBack(rule: Rule, i: nat)
    requires i < |SearchPatterns(rule)|
    requires |rule.fileExtensions| >= 1
    requires forall k :: 0 <= k < |rule.fileExtensions| ==> ',' !in rule.fileExtensions[k]
    ensures var p := SearchPatterns(rule)[i];
      var n := if |rule.scanFolders| == 0 then 0 else |rule.scanFolders[i]|;
      n + 7 <= |p| && Split(p[n + 6..|p| - 1], ',') == rule.fileExtensions
  {
    var p := SearchPatterns(rule)[i];
    var g := SourceGlob(rule.fileExtensions);
    var n := if |rule.scanFolders| == 0 then 0 else |rule.scanFolders[i]|;
    assert p[n..] == g;
    assert p[n + 6..|p| - 1] == g[6..|g| - 1];
    SourceGlobExtensions(rule.fileExtensions);
  }

  /** The files each pattern finds, one pattern after another. */
  function FoundFiles(patterns: seq<string>, find: string -> seq<string>): (files: seq<string>)
    ensures forall f :: f in files <==> exists p :: p in patterns && f in find(p)
  {
    if |patterns| == 0 then []
    else
      InHeadOrTail(patterns);
      find(patterns[0]) + FoundFiles(patterns[1..], find)
  }

  /** The files searched: everything the rule's patterns find, each path once, in first-found order. */
  function ReferenceFiles(rule: Rule, find: string -> seq<string>): (files: seq<string>)
    ensures NoDuplicates(files)
    ensures forall f :: f in files <==> exists p :: p in SearchPatterns(rule) && f in find(p)
  {
    Dedup(FoundFiles(SearchPatterns(rule), find))
  }

  /** The characters the key escape puts a backslash before. */
  predicate IsSpecial(c: char) {
    c in ".*+?^${}()|[]\\"
  }

  /** `key.replace(/[.*+?^${}()|[\]\\]/g, "\\$&")`. */
  function Escape(s: string): (r: string)
    ensures |r| >= |s|
    decreases |s|
  {
    if |s| == 0 then []
    else (if IsSpecial(s[0]) then ['\\', s[0]] else [s[0]]) + Escape(s[1..])
  }

  /**
   * The text a regex source matches when it is a chain of plain characters
   * and backslash-escaped specials; none when it holds an unescaped special
   * or another escape.
   */
  function LiteralText(r: string): (t: Option<string>)
    decreases |r|
  {
    if |r| == 0 then Some([])
    else if r[0] == '\\' then
      if |r| >= 2 && IsSpecial(r[1]) then
        match LiteralText(r[2..])
        case None => None
        case Some(t) => Some([r[1]] + t)
      else None
    else if IsSpecial(r[0]) then None
    else
      match LiteralText(r[1..])
      case None => None
      case Some(t) => Some([r[0]] + t)
  }

  /** The escaped key, read as a regex source, is the literal key: dropping the inserted backslashes recovers it. */
  lemma {:induction false} EscapeIsLiteral(s: string)
    ensures LiteralText(Escape(s)) == Some(s)
    decreases |s|
  {
    if |s| > 0 {
      EscapeIsLiteral(s[1..]);
      var r := Escape(s);
      if IsSpecial(s[0]) {
        assert r[2..] == Escape(s[1..]);
      } else {
        assert r[1..] == Escape(s[1..]);
      }
      assert s == [s[0]] + s[1..];
    }
  }

  /** The escape is the only such regex source for its text. */
  lemma {:induction false} LiteralTextIsEscape(r: string, s: string)
    requires LiteralText(r) == Some(s)
    ensures r == Escape(s)
    decreases |r|
  {
    if |r| > 0 {
      if r[0] == '\\' {
        var t := LiteralText(r[2..]).value;
        LiteralTextIsEscape(r[2..], t);
        assert s == [r[1]] + t;
        assert s[1..] == t;
        assert r == ['\\', r[1]] + r[2..];
      } else {
        var t := LiteralText(r[1..]).value;
        LiteralTextIsEscape(r[1..], t);
        assert s == [r[0]] + t;
        assert s[1..] == t;
        assert r == [r[0]] + r[1..];
      }
    }
  }

  /** The call pattern of a reference search: one literal key, since the key is escaped. */
  function ReferenceCall(name: string, key: string): CallPattern {
    LiteralCall(name, key)
  }

  /** One reference per call, spanning the call text. */
  function CallRanges(path: string, calls: seq<Call>): (refs: seq<Reference>)
    ensures forall r :: r in refs <==> exists c :: c in calls && r == Reference(path, c.start, c.end)
  {
    var refs := seq(|calls|, i requires 0 <= i < |calls| => Reference(path, calls[i].start, calls[i].end));
    assert forall c :: c in calls ==> Reference(path, c.start, c.end) in refs by {
      forall c | c in calls
        ensures Reference(path, c.start, c.end) in refs
      {
        var i :| 0 <= i < |calls| && calls[i] == c;
        assert refs[i] == Reference(path, c.start, c.end);
      }
    }
    refs
  }

  /** The references in one file: the calls of each method name, name after name. */
  function FileReferences(path: string, text: string, names: seq<string>, key: string): (refs: seq<Reference>)
    ensures forall r :: r in refs <==>
      exists mp, c :: mp in names && c in Calls(ReferenceCall(mp, key), text) && r == Reference(path, c.start, c.end)
  {
    if |names| == 0 then []
    else
      InHeadOrTail(names);
      CallRanges(path, Calls(ReferenceCall(names[0], key), text)) + FileReferences(path, text, names[1..], key)
  }

  /** The references in every file that opens, file after file. */
  function FilesReferences(files: seq<string>, key: string, names: seq<string>,
                           open: string -> Option<string>): (refs: seq<Reference>)
    ensures forall r :: r in refs <==>
      exists f :: f in files && open(f).Some? && r in FileReferences(f, open(f).value, names, key)
  {
    if |files| == 0 then []
    else
      InHeadOrTail(files);
      var here := match open(files[0])
        case None => []
        case Some(text) => FileReferences(files[0], text, names, key);
      here + FilesReferences(files[1..], key, names, open)
  }

  /** `findKeyReferences`: every call of the key in every searched file of the rule; unreadable files are skipped. */
  function FindKeyReferences(key: string, rule: Rule, find: string -> seq<string>,
                             open: string -> Option<string>): (refs: seq<Reference>)
    ensures forall r :: r in refs <==> exists f :: (f in ReferenceFiles(rule, find) && open(f).Some?
      && r in FileReferences(f, open(f).value, rule.methodPatterns, key))
  {
    FilesReferences(ReferenceFiles(rule, find), key, rule.methodPatterns, open)
  }

  /**
   * The provider: nothing without rules, without a key under the cursor, or
   * without a rule owning the JSON file; otherwise the references of the
   * full key path in that rule's source files.
   */
  function ProvideReferences(rules: seq<Rule>, fileName: string, line: string, col: nat,
                             parsed: Option<Json>, find: string -> seq<string>,
                             open: string -> Option<string>): (r: Option<seq<Reference>>)
    ensures |rules| == 0 ==> r.None?
    ensures KeyAtPosition(line, col, parsed).None? ==> r.None?
    ensures RuleOfJsonFile(rules, fileName).None? ==> r.None?
    ensures r.Some? ==> r.value == FindKeyReferences(KeyAtPosition(line, col, parsed).value,
      RuleOfJsonFile(rules, fileName).value, find, open)
    ensures |rules| > 0 && KeyAtPosition(line, col, parsed).Some? && RuleOfJsonFile(rules, fileName).Some? ==> r.Some?
  {
    if |rules| == 0 then None
    else
      match KeyAtPosition(line, col, parsed)
      case None => None
      case Some(key) =>
        match RuleOfJsonFile(rules, fileName)
        case None => None
        case Some(rule) => Some(FindKeyReferences(key, rule, find, open))
  }

  /** Every reference spans a whole call of the key, with one of the rule's method names. */
  lemma ReferenceIsCall(path: string, text: string, names: seq<string>, key: string, r: Reference)
    requires r in FileReferences(path, text, names, key)
    ensures r.path == path && r.start <= r.end <= |text|
    ensures exists mp, q :: mp in names && IsCall(ReferenceCall(mp, key), text[r.start..r.end], q, key)
  {
    var mp, c :| mp in names && c in Calls(ReferenceCall(mp, key), text) && r == Reference(path, c.start, c.end);
    var pat := ReferenceCall(mp, key);
    ScanFound(pat, text, 0);
    var k :| 0 <= k < |Calls(pat, text)| && Calls(pat, text)[k] == c;
    MatchAtSound(pat, text, c);
    assert KeyFits(pat, c.key);
  }

  /** Every call of the key in the text starts a reference or lies inside one. */
  lemma EveryCallIsReferenced(path: string, text: string, names: seq<string>, key: string,
                              mp: string, i: nat, e: nat, q: char)
    requires mp in names && i <= e <= |text|
    requires IsCall(ReferenceCall(mp, key), text[i..e], q, key)
    ensures exists r :: r in FileReferences(path, text, names, key) && r.start <= i < r.end
  {
    var pat := ReferenceCall(mp, key);
    CallsCoverEveryCall(pat, text, i, e, q, key);
    var calls := Calls(pat, text);
    var k :| 0 <= k < |calls| && (calls[k].start == i || calls[k].start < i < calls[k].end);
    var c := calls[k];
    assert c in calls;
    assert Reference(path, c.start, c.end) in FileReferences(path, text, names, key);
  }
}
