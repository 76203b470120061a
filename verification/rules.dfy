/**
 * Rule selection in `updateDiagnostics` (src/extension.ts): which configured
 * rules apply to the document being checked, and which JSON specifiers they
 * bring along. A JSON-file pass runs first; only when it selects nothing does
 * a source-file pass by extension and method name run.
 */
module Rules {
  import opened Strings
  import opened Collections

  /**
   * One entry of the `jsonKeyChecker.patterns` setting. A missing
   * `scanFolders` behaves as the empty list everywhere it is read. Method
   * patterns are literal call names.
   */
  datatype Rule = Rule(
    jsonFiles: seq<string>,
    fileExtensions: seq<string>,
    methodPatterns: seq<string>,
    scanFolders: seq<string>)

  /** `s` matches `p` as a whole, each `*` of `p` standing for any run of characters. */
  predicate GlobMatch(p: string, s: string)
    decreases |p| + |s|
  {
    if |p| == 0 then |s| == 0
    else if p[0] == '*' then GlobMatch(p[1..], s) || (|s| > 0 && GlobMatch(p, s[1..]))
    else |s| > 0 && s[0] == p[0] && GlobMatch(p[1..], s[1..])
  }

  /**
   * `new RegExp(spec.replace(/\*\/g, ".*")).test(name)`: the regex is not
   * anchored, so leading and trailing wildcards are implied.
   */
  predicate WildcardTest(spec: string, name: string) {
    GlobMatch("*" + spec + "*", name)
  }

  /** A specifier with `*` is a wildcard test; one without is a suffix test. */
  predicate SpecifierMatches(spec: string, fileName: string) {
    if '*' in spec then WildcardTest(spec, fileName) else EndsWith(fileName, spec)
  }

  /** The rule names the file among its JSON files. */
  predicate IsJsonMatch(rule: Rule, fileName: string) {
    exists spec :: spec in rule.jsonFiles && SpecifierMatches(spec, fileName)
  }

  /** `fileName.split(".").pop()?.toLowerCase()`; the whole name when it has no dot. */
  function FileExtension(fileName: string): string {
    Lower(LastSegment(fileName, '.'))
  }

  /** The rule covers the file's extension and one of its method names occurs in the text. */
  predicate IsSourceMatch(rule: Rule, fileName: string, text: string) {
    && FileExtension(fileName) in rule.fileExtensions
    && exists mp :: mp in rule.methodPatterns && Contains(text, mp)
  }

  /** The first pass: the rules, in order, that name the file among their JSON files. */
  function JsonPass(rules: seq<Rule>, fileName: string): (matched: seq<Rule>)
    ensures forall r :: r in matched <==> r in rules && IsJsonMatch(r, fileName)
    ensures |matched| <= |rules|
  {
    if |rules| == 0 then []
    else
      var rest := JsonPass(rules[1..], fileName);
      InHeadOrTail(rules);
      if IsJsonMatch(rules[0], fileName) then [rules[0]] + rest else rest
  }

  /** The fallback pass: the rules, in order, that cover the file as a source file. */
  function SourcePass(rules: seq<Rule>, fileName: string, text: string): (matched: seq<Rule>)
    ensures forall r :: r in matched <==> r in rules && IsSourceMatch(r, fileName, text)
    ensures |matched| <= |rules|
  {
    if |rules| == 0 then []
    else
      var rest := SourcePass(rules[1..], fileName, text);
      InHeadOrTail(rules);
      if IsSourceMatch(rules[0], fileName, text) then [rules[0]] + rest else rest
  }

  /**
   * The matched rules of `updateDiagnostics`: the JSON pass, or, when that
   * selects nothing, the source pass.
   */
  function MatchRules(rules: seq<Rule>, fileName: string, text: string): (matched: seq<Rule>)
    ensures (exists r :: r in rules && IsJsonMatch(r, fileName)) ==>
      forall r :: r in matched <==> r in rules && IsJsonMatch(r, fileName)
    ensures (forall r :: r in rules ==> !IsJsonMatch(r, fileName)) ==>
      forall r :: r in matched <==> r in rules && IsSourceMatch(r, fileName, text)
    ensures |rules| == 0 ==> matched == []
  {
    var json := JsonPass(rules, fileName);
    if |json| > 0 then
      assert json[0] in json;
      json
    else SourcePass(rules, fileName, text)
  }

  /** Every rule's JSON specifiers, one rule after another. */
  function AllJsonFiles(rules: seq<Rule>): (specs: seq<string>)
    ensures forall f :: f in specs <==> exists r :: r in rules && f in r.jsonFiles
  {
    if |rules| == 0 then []
    else
      InHeadOrTail(rules);
      rules[0].jsonFiles + AllJsonFiles(rules[1..])
  }

  /** The `relevantJsonFiles` set: the union of the matched rules' specifiers, each once. */
  function RelevantJsonFiles(matched: seq<Rule>): (specs: seq<string>)
    ensures NoDuplicates(specs)
    ensures forall f :: f in specs <==> exists r :: r in matched && f in r.jsonFiles
  {
    Dedup(AllJsonFiles(matched))
  }

  /**
   * The `findFiles` pattern for a rule's source files: every file with one of
   * its extensions, as a brace list.
   */
  function SourceGlob(exts: seq<string>): (g: string)
    ensures StartsWith(g, "**/*.{") && EndsWith(g, "}")
  {
    "**/*.{" + Join(exts, ',') + "}"
  }

  /** The brace list of a source glob reads back as the extensions it was built from. */
  lemma SourceGlobExtensions(exts: seq<string>)
    requires |exts| >= 1
    requires forall k :: 0 <= k < |exts| ==> ',' !in exts[k]
    ensures var g := SourceGlob(exts); Split(g[6..|g| - 1], ',') == exts
  {
    var g := SourceGlob(exts);
    assert g[6..|g| - 1] == Join(exts, ',');
    SplitJoin(exts, ',');
  }

  /** A leading `*` lets the match start anywhere. */
  lemma LeadingStar(p: string, s: string)
    ensures GlobMatch("*" + p, s) <==> exists i :: 0 <= i <= |s| && GlobMatch(p, s[i..])
  {
    if GlobMatch("*" + p, s) {
      LeadingStarSound(p, s);
    }
    if i :| 0 <= i <= |s| && GlobMatch(p, s[i..]) {
      LeadingStarComplete(p, s, i);
    }
  }

  /** A match of `*p` is a match of `p` from some offset on. */
  lemma {:induction false} LeadingStarSound(p: string, s: string)
    requires GlobMatch("*" + p, s)
    ensures exists i :: 0 <= i <= |s| && GlobMatch(p, s[i..])
    decreases |s|
  {
    var sp := "*" + p;
    assert sp[0] == '*' && sp[1..] == p;
    if GlobMatch(p, s) {
      assert s[0..] == s;
    } else {
      assert |s| > 0 && GlobMatch(sp, s[1..]);
      LeadingStarSound(p, s[1..]);
      var i :| 0 <= i <= |s[1..]| && GlobMatch(p, s[1..][i..]);
      assert s[1..][i..] == s[i + 1..];
    }
  }

  /** A match of `p` from offset `i` on is a match of `*p`. */
  lemma {:induction false} LeadingStarComplete(p: string, s: string, i: nat)
    requires i <= |s| && GlobMatch(p, s[i..])
    ensures GlobMatch("*" + p, s)
    decreases i
  {
    var sp := "*" + p;
    assert sp[0] == '*' && sp[1..] == p;
    if i == 0 {
      assert s[0..] == s;
    } else {
      assert s[1..][i - 1..] == s[i..];
      LeadingStarComplete(p, s[1..], i - 1);
    }
  }

  /** A lone `*` matches everything. */
  lemma {:induction false} StarMatchesAll(s: string)
    ensures GlobMatch("*", s)
    decreases |s|
  {
    if |s| > 0 {
      StarMatchesAll(s[1..]);
    }
  }

  /** A trailing `*` lets the match end anywhere. */
  lemma {:induction false} TrailingStar(p: string, s: string)
    ensures GlobMatch(p + "*", s) <==> exists j :: 0 <= j <= |s| && GlobMatch(p, s[..j])
    decreases |p| + |s|
  {
    var ps := p + "*";
    if |p| == 0 {
      assert ps == "*";
      StarMatchesAll(s);
      assert GlobMatch(p, s[..0]);
    } else {
      assert ps[0] == p[0] && ps[1..] == p[1..] + "*";
      if p[0] == '*' {
        TrailingStar(p[1..], s);
        if |s| > 0 {
          TrailingStar(p, s[1..]);
          assert forall j :: 1 <= j <= |s| ==> s[..j][1..] == s[1..][..j - 1];
        }
        if GlobMatch(ps, s) {
          if !GlobMatch(ps[1..], s) {
            var j :| 0 <= j <= |s[1..]| && GlobMatch(p, s[1..][..j]);
            assert s[..j + 1][1..] == s[1..][..j];
            assert GlobMatch(p, s[..j + 1]);
          }
        }
        if j :| 0 <= j <= |s| && GlobMatch(p, s[..j]) {
          if !GlobMatch(p[1..], s[..j]) {
            assert j > 0 && GlobMatch(p, s[..j][1..]);
            assert GlobMatch(p, s[1..][..j - 1]);
          }
        }
      } else {
        if |s| > 0 {
          TrailingStar(p[1..], s[1..]);
          assert forall j :: 1 <= j <= |s| ==> s[..j][1..] == s[1..][..j - 1];
          if GlobMatch(ps, s) {
            var j :| 0 <= j <= |s[1..]| && GlobMatch(p[1..], s[1..][..j]);
            assert s[..j + 1][1..] == s[1..][..j];
            assert GlobMatch(p, s[..j + 1]);
          }
          if j :| 0 <= j <= |s| && GlobMatch(p, s[..j]) {
            assert j > 0;
            assert GlobMatch(p[1..], s[1..][..j - 1]);
          }
        }
      }
    }
  }

  /** The wildcard test holds iff some substring of the name matches the specifier as a whole. */
  lemma WildcardTestIsUnanchored(spec: string, name: string)
    ensures WildcardTest(spec, name) <==>
      exists i, j :: 0 <= i <= j <= |name| && GlobMatch(spec, name[i..j])
  {
    assert "*" + spec + "*" == "*" + (spec + "*");
    LeadingStar(spec + "*", name);
    if WildcardTest(spec, name) {
      var i :| 0 <= i <= |name| && GlobMatch(spec + "*", name[i..]);
      TrailingStar(spec, name[i..]);
      var k :| 0 <= k <= |name[i..]| && GlobMatch(spec, name[i..][..k]);
      assert name[i..][..k] == name[i..i + k];
      assert GlobMatch(spec, name[i..i + k]);
    }
    if i, j :| 0 <= i <= j <= |name| && GlobMatch(spec, name[i..j]) {
      TrailingStar(spec, name[i..]);
      assert name[i..][..j - i] == name[i..j];
      assert GlobMatch(spec + "*", name[i..]);
      assert WildcardTest(spec, name);
    }
  }

  /** Without `*`, a glob matches exactly its own text. */
  lemma {:induction false} StarFreeGlob(p: string, s: string)
    requires '*' !in p
    ensures GlobMatch(p, s) <==> s == p
    decreases |p| + |s|
  {
    if |p| > 0 && |s| > 0 {
      assert p[0] != '*';
      StarFreeGlob(p[1..], s[1..]);
      if s[0] == p[0] && s[1..] == p[1..] {
        assert s == [s[0]] + s[1..] && p == [p[0]] + p[1..];
      }
    }
  }
}
