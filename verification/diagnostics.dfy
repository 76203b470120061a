/**
 * `updateDiagnostics` (src/extension.ts): after rule selection, a JSON
 * document is checked for unused keys and any other document for missing
 * keys. File search, file reading, loading the JSON files and parsing the
 * document are given as functions and values; the diagnostic collection is
 * the `Outcome`.
 */
module Diagnostics {
  import opened Strings
  import opened Collections
  import opened JsonValue
  import opened Rules
  import opened Scanner
  import opened Positions

  /** A warning on a line range for an unused key, or an error on an offset range for a missing one. */
  datatype Diagnostic =
    | Unused(at: Range, key: string)
    | Missing(startOffset: int, endOffset: int, key: string)

  /** What happens to the document's diagnostics: deleted, or replaced by a list. */
  datatype Outcome = Clear | Publish(diagnostics: seq<Diagnostic>)

  /** A document is treated as JSON when its lowercased name ends in `.json`. */
  predicate IsJsonName(fileName: string) {
    EndsWith(Lower(fileName), ".json")
  }

  /** The key is captured by method `name` in some readable file of the list. */
  ghost predicate CapturedIn(name: string, files: seq<string>, read: string -> Option<string>, k: string) {
    exists f :: f in files && read(f).Some? && k in CapturedKeys(name, false, read(f).value)
  }

  /** The keys method `name` captures in the files; unreadable files are skipped. */
  function KeysInFiles(name: string, files: seq<string>, read: string -> Option<string>): (used: set<string>)
    ensures forall k :: k in used <==> CapturedIn(name, files, read, k)
  {
    if |files| == 0 then {}
    else
      var f := files[0];
      var here := if read(f).Some? then set k | k in CapturedKeys(name, false, read(f).value) else {};
      InHeadOrTail(files);
      here + KeysInFiles(name, files[1..], read)
  }

  /** Some method of the rule captures the key in one of the files found for the rule. */
  ghost predicate UsedByRule(rule: Rule, find: string -> seq<string>, read: string -> Option<string>, k: string) {
    exists mp :: mp in rule.methodPatterns && CapturedIn(mp, find(SourceGlob(rule.fileExtensions)), read, k)
  }

  /** The keys the methods from `names` capture in the files. */
  function KeysOfMethods(names: seq<string>, files: seq<string>, read: string -> Option<string>): (used: set<string>)
    ensures forall k :: k in used <==> exists mp :: mp in names && CapturedIn(mp, files, read, k)
  {
    if |names| == 0 then {}
    else
      InHeadOrTail(names);
      KeysInFiles(names[0], files, read) + KeysOfMethods(names[1..], files, read)
  }

  /** The keys one rule's methods capture in the files found for its extensions. */
  function RuleKeys(rule: Rule, find: string -> seq<string>, read: string -> Option<string>): (used: set<string>)
    ensures forall k :: k in used <==> UsedByRule(rule, find, read, k)
  {
    KeysOfMethods(rule.methodPatterns, find(SourceGlob(rule.fileExtensions)), read)
  }

  /**
   * The `usedKeys` set: every key captured, by the JSON-side regex, by some
   * method of some matched rule in some readable file with one of the rule's
   * extensions.
   */
  function UsedKeys(matched: seq<Rule>, find: string -> seq<string>, read: string -> Option<string>): (used: set<string>)
    ensures forall k :: k in used <==> exists r :: r in matched && k in RuleKeys(r, find, read)
  {
    if |matched| == 0 then {}
    else
      var r := matched[0];
      InHeadOrTail(matched);
      RuleKeys(r, find, read) + UsedKeys(matched[1..], find, read)
  }

  /** A key is used exactly when some matched rule uses it. */
  lemma UsedKeysMeaning(matched: seq<Rule>, find: string -> seq<string>, read: string -> Option<string>, k: string)
    ensures k in UsedKeys(matched, find, read) <==> exists r :: r in matched && UsedByRule(r, find, read, k)
  {
    if k in UsedKeys(matched, find, read) {
      var r :| r in matched && k in RuleKeys(r, find, read);
    }
    if r :| r in matched && UsedByRule(r, find, read, k) {
      assert k in RuleKeys(r, find, read);
    }
  }

  /** `currentJsonKeys.filter(key => !usedKeys.has(key))`. */
  function UnusedKeys(keys: seq<string>, used: set<string>): (unused: seq<string>)
    ensures forall k :: k in unused <==> k in keys && k !in used
    ensures |unused| <= |keys|
  {
    if |keys| == 0 then []
    else
      InHeadOrTail(keys);
      (if keys[0] in used then [] else [keys[0]]) + UnusedKeys(keys[1..], used)
  }

  /** One step of the filter: the head is kept iff it is not used. */
  lemma UnusedKeysCons(h: string, t: seq<string>, used: set<string>)
    ensures UnusedKeys([h] + t, used) == (if h in used then [] else [h]) + UnusedKeys(t, used)
  {
    assert ([h] + t)[0] == h && ([h] + t)[1..] == t;
  }

  /** Filtering keeps the original order: it distributes over concatenation. */
  lemma {:induction false} UnusedKeysAppend(a: seq<string>, b: seq<string>, used: set<string>)
    ensures UnusedKeys(a + b, used) == UnusedKeys(a, used) + UnusedKeys(b, used)
    decreases |a|
  {
    if |a| > 0 {
      assert a == [a[0]] + a[1..] && a + b == [a[0]] + (a[1..] + b);
      UnusedKeysCons(a[0], a[1..] + b, used);
      UnusedKeysCons(a[0], a[1..], used);
      UnusedKeysAppend(a[1..], b, used);
    } else {
      assert a + b == b;
    }
  }

  /** The diagnostics of one line: one per unused key, in key order, that the line holds. */
  function LineDiagnostics(lineNo: nat, line: string, unused: seq<string>): (ds: seq<Diagnostic>)
    ensures forall d :: d in ds <==>
      exists k :: k in unused && LineMatches(line, k) && d == Unused(KeyRange(lineNo, line, k), k)
    ensures forall j :: 0 <= j < |ds| ==> ds[j].Unused? && ds[j].at.line == lineNo
  {
    if |unused| == 0 then []
    else
      var k := unused[0];
      InHeadOrTail(unused);
      var rest := LineDiagnostics(lineNo, line, unused[1..]);
      if LineMatches(line, k) then
        assert forall j :: 0 < j < 1 + |rest| ==> ([Unused(KeyRange(lineNo, line, k), k)] + rest)[j] == rest[j - 1];
        [Unused(KeyRange(lineNo, line, k), k)] + rest
      else rest
  }

  /** Within a line, the warnings follow the order of the unused keys. */
  lemma {:induction false} LineDiagnosticsInKeyOrder(lineNo: nat, line: string, unused: seq<string>, a: nat, b: nat)
    requires a < b < |LineDiagnostics(lineNo, line, unused)|
    ensures Before(unused, LineDiagnostics(lineNo, line, unused)[a].key, LineDiagnostics(lineNo, line, unused)[b].key)
    decreases |unused|
  {
    var k := unused[0];
    var tail := unused[1..];
    assert unused == [k] + tail;
    var rest := LineDiagnostics(lineNo, line, tail);
    var ds := LineDiagnostics(lineNo, line, unused);
    if LineMatches(line, k) {
      assert ds == [Unused(KeyRange(lineNo, line, k), k)] + rest;
      if a == 0 {
        assert ds[b] == rest[b - 1] && rest[b - 1] in rest;
        assert rest[b - 1].key in tail;
        BeforeHead(unused, ds[b].key);
      } else {
        LineDiagnosticsInKeyOrder(lineNo, line, tail, a - 1, b - 1);
        BeforeCons(k, tail, rest[a - 1].key, rest[b - 1].key);
      }
    } else {
      assert ds == rest;
      LineDiagnosticsInKeyOrder(lineNo, line, tail, a, b);
      BeforeCons(k, tail, ds[a].key, ds[b].key);
    }
  }

  /** A diagnostic for key `k` on line `i` of the document. */
  ghost predicate UnusedOnLine(lines: seq<string>, unused: seq<string>, d: Diagnostic) {
    exists i, k :: 0 <= i < |lines| && k in unused && LineMatches(lines[i], k)
      && d == Unused(KeyRange(i, lines[i], k), k)
  }

  /**
   * The unused-key diagnostics from line `from` on, line by line: a key gets
   * one warning on every line where `"key"\s*:` matches.
   */
  function UnusedDiagnostics(lines: seq<string>, from: nat, unused: seq<string>): (ds: seq<Diagnostic>)
    requires from <= |lines|
    ensures forall d :: d in ds <==>
      exists i, k :: from <= i < |lines| && k in unused && LineMatches(lines[i], k)
        && d == Unused(KeyRange(i, lines[i], k), k)
    ensures forall j :: 0 <= j < |ds| ==> ds[j].Unused? && from <= ds[j].at.line < |lines|
    ensures forall a, b :: 0 <= a < b < |ds| ==> ds[a].at.line <= ds[b].at.line
    decreases |lines| - from
  {
    if from == |lines| then []
    else
      var here := LineDiagnostics(from, lines[from], unused);
      var rest := UnusedDiagnostics(lines, from + 1, unused);
      assert forall j :: |here| <= j < |here| + |rest| ==> (here + rest)[j] == rest[j - |here|];
      here + rest
  }

  /**
   * With distinct unused keys, no warning is repeated, so each (line, key)
   * pair gets exactly one; warnings on one line follow the key order.
   */
  lemma UnusedDiagnosticsOnce(lines: seq<string>, from: nat, unused: seq<string>)
    requires from <= |lines| && NoDuplicates(unused)
    ensures NoDuplicates(UnusedDiagnostics(lines, from, unused))
    ensures var ds := UnusedDiagnostics(lines, from, unused);
      forall a, b :: 0 <= a < b < |ds| && ds[a].at.line == ds[b].at.line ==> Before(unused, ds[a].key, ds[b].key)
  {
    var ds := UnusedDiagnostics(lines, from, unused);
    forall a, b | 0 <= a < b < |ds|
      ensures ds[a] != ds[b]
      ensures ds[a].at.line == ds[b].at.line ==> Before(unused, ds[a].key, ds[b].key)
    {
      UnusedDiagnosticsPair(lines, from, unused, a, b);
    }
  }

  /** The same, for one pair of positions in the list. */
  lemma {:induction false} UnusedDiagnosticsPair(lines: seq<string>, from: nat, unused: seq<string>, a: nat, b: nat)
    requires from <= |lines| && NoDuplicates(unused)
    requires a < b < |UnusedDiagnostics(lines, from, unused)|
    ensures UnusedDiagnostics(lines, from, unused)[a] != UnusedDiagnostics(lines, from, unused)[b]
    ensures var ds := UnusedDiagnostics(lines, from, unused);
      ds[a].at.line == ds[b].at.line ==> Before(unused, ds[a].key, ds[b].key)
    decreases |lines| - from
  {
    var here := LineDiagnostics(from, lines[from], unused);
    var rest := UnusedDiagnostics(lines, from + 1, unused);
    var ds := UnusedDiagnostics(lines, from, unused);
    assert ds == here + rest;
    if b < |here| {
      assert ds[a] == here[a] && ds[b] == here[b];
      LineDiagnosticsInKeyOrder(from, lines[from], unused, a, b);
      BeforeIsStrict(unused, ds[a].key, ds[b].key);
    } else if a >= |here| {
      assert ds[a] == rest[a - |here|] && ds[b] == rest[b - |here|];
      UnusedDiagnosticsPair(lines, from + 1, unused, a - |here|, b - |here|);
    } else {
      assert ds[a] == here[a] && ds[b] == rest[b - |here|];
      assert ds[a].at.line == from < ds[b].at.line;
    }
  }

  /**
   * `checkUnusedKeysInJsonFile`: the document's top-level keys that no
   * matched rule's method uses are reported on every line declaring them. A
   * document that does not parse, or parses to `null`, loses its diagnostics.
   */
  function CheckUnused(text: string, parsed: Option<Json>, matched: seq<Rule>,
                       find: string -> seq<string>, read: string -> Option<string>): (out: Outcome)
    ensures out == Clear <==> parsed.None? || parsed.value.JNull?
    ensures out.Publish? ==> forall d :: d in out.diagnostics ==> d.Unused?
  {
    if parsed.None? then Clear
    else
      match ObjectKeys(parsed.value)
      case None => Clear
      case Some(keys) =>
        var unused := UnusedKeys(keys, UsedKeys(matched, find, read));
        Publish(UnusedDiagnostics(Split(text, '\n'), 0, unused))
  }

  /**
   * The warning `d` is due: it is for a top-level key of `v` that no matched
   * rule uses, on a line of the text where that key is declared.
   */
  ghost predicate UnusedDue(text: string, v: Json, matched: seq<Rule>,
                            find: string -> seq<string>, read: string -> Option<string>, d: Diagnostic) {
    var lines := Split(text, '\n');
    exists i, k :: 0 <= i < |lines| && k in Names(Members(v))
      && !(exists r :: r in matched && UsedByRule(r, find, read, k))
      && LineMatches(lines[i], k)
      && d == Unused(KeyRange(i, lines[i], k), k)
  }

  /** The unused check publishes exactly the warnings that are due. */
  lemma CheckUnusedExact(text: string, parsed: Option<Json>, matched: seq<Rule>,
                         find: string -> seq<string>, read: string -> Option<string>, d: Diagnostic)
    requires parsed.Some? && !parsed.value.JNull?
    ensures d in CheckUnused(text, parsed, matched, find, read).diagnostics <==>
      UnusedDue(text, parsed.value, matched, find, read, d)
  {
    assert CheckUnused(text, parsed, matched, find, read) != Clear;
    var keys := ObjectKeys(parsed.value).value;
    var used := UsedKeys(matched, find, read);
    var unused := UnusedKeys(keys, used);
    var lines := Split(text, '\n');
    if d in UnusedDiagnostics(lines, 0, unused) {
      var i, k :| 0 <= i < |lines| && k in unused && LineMatches(lines[i], k)
        && d == Unused(KeyRange(i, lines[i], k), k);
      UsedKeysMeaning(matched, find, read, k);
    }
    if UnusedDue(text, parsed.value, matched, find, read, d) {
      var i, k :| 0 <= i < |lines| && k in Names(Members(parsed.value))
        && !(exists r :: r in matched && UsedByRule(r, find, read, k))
        && LineMatches(lines[i], k)
        && d == Unused(KeyRange(i, lines[i], k), k);
      UsedKeysMeaning(matched, find, read, k);
      assert k in unused;
    }
  }

  /** Some loaded value is `null`. */
  predicate HasNull(data: seq<(string, Json)>) {
    exists i :: 0 <= i < |data| && data[i].1.JNull?
  }

  /** The names a loaded JSON value contributes to the available keys. */
  ghost predicate Available(data: seq<(string, Json)>, k: string) {
    exists i :: 0 <= i < |data| && k in Names(Members(data[i].1))
  }

  /**
   * `allAvailableKeys`: the union of `Object.keys` of every loaded value, or
   * `None` when one of them is `null` and `Object.keys` throws.
   */
  function AvailableKeys(data: seq<(string, Json)>): (r: Option<set<string>>)
    ensures r.None? <==> HasNull(data)
    ensures r.Some? ==> forall k :: k in r.value <==> Available(data, k)
  {
    if |data| == 0 then Some({})
    else
      var rest := AvailableKeys(data[1..]);
      assert forall i :: 1 <= i < |data| ==> data[i] == data[1..][i - 1];
      match ObjectKeys(data[0].1)
      case None => None
      case Some(keys) =>
        if rest.None? then None
        else
          var here := set k | k in keys;
          assert forall k :: Available(data, k) <==> k in keys || Available(data[1..], k) by {
            forall k | Available(data[1..], k)
              ensures Available(data, k)
            {
              var i :| 0 <= i < |data[1..]| && k in Names(Members(data[1..][i].1));
              assert data[i + 1] == data[1..][i];
            }
          }
          Some(here + rest.value)
  }

  /** The missing-key error for a call: from the opening quote found in the call text, `|key| + 2` wide. */
  function MissingAt(t: string, c: Call): (d: Diagnostic)
    requires c.start <= c.end <= |t|
    ensures d.Missing? && d.key == c.key && d.endOffset == d.startOffset + |c.key| + 2
  {
    var s := QuoteOffset(t, c);
    Missing(s, s + |c.key| + 2, c.key)
  }

  /** The errors for the calls whose key is not available, in call order. */
  function CallDiagnostics(t: string, calls: seq<Call>, available: set<string>): (ds: seq<Diagnostic>)
    requires forall j :: 0 <= j < |calls| ==> calls[j].start <= calls[j].end <= |t|
    ensures forall d :: d in ds <==>
      exists j :: 0 <= j < |calls| && calls[j].key !in available && d == MissingAt(t, calls[j])
  {
    if |calls| == 0 then []
    else
      var rest := CallDiagnostics(t, calls[1..], available);
      assert forall j :: 1 <= j < |calls| ==> calls[j] == calls[1..][j - 1];
      (if calls[0].key in available then [] else [MissingAt(t, calls[0])]) + rest
  }

  /** Method `name`'s source-side call at some index reports a missing key with diagnostic `d`. */
  ghost predicate MissingFor(t: string, name: string, available: set<string>, d: Diagnostic) {
    var calls := Calls(KeyCall(name, true), t);
    exists j :: 0 <= j < |calls| && calls[j].key !in available && d == MissingAt(t, calls[j])
  }

  /** The errors for one method name's calls, in call order. */
  function MethodErrors(t: string, name: string, available: set<string>): (ds: seq<Diagnostic>)
    ensures forall d :: d in ds <==> MissingFor(t, name, available, d)
  {
    CallDiagnostics(t, Calls(KeyCall(name, true), t), available)
  }

  /** The errors of one method name after another. */
  function MethodDiagnostics(t: string, names: seq<string>, available: set<string>): (ds: seq<Diagnostic>)
    ensures forall d :: d in ds <==> exists mp :: mp in names && d in MethodErrors(t, mp, available)
  {
    if |names| == 0 then []
    else
      InHeadOrTail(names);
      MethodErrors(t, names[0], available) + MethodDiagnostics(t, names[1..], available)
  }

  /** The errors of one matched rule after another. */
  function MissingDiagnostics(t: string, matched: seq<Rule>, available: set<string>): (ds: seq<Diagnostic>)
    ensures forall d :: d in ds <==>
      exists r, mp :: r in matched && mp in r.methodPatterns && d in MethodErrors(t, mp, available)
  {
    if |matched| == 0 then []
    else
      InHeadOrTail(matched);
      MethodDiagnostics(t, matched[0].methodPatterns, available)
        + MissingDiagnostics(t, matched[1..], available)
  }

  /**
   * `checkMissingKeysInSourceFile`: every call of a matched rule's method
   * whose key is no top-level key of any loaded JSON value gets an error; a
   * loaded `null` makes the check throw and the diagnostics are deleted.
   */
  function CheckMissing(text: string, data: seq<(string, Json)>, matched: seq<Rule>): (out: Outcome)
    ensures out == Clear <==> HasNull(data)
    ensures out.Publish? ==> forall d :: d in out.diagnostics ==> d.Missing?
  {
    match AvailableKeys(data)
    case None => Clear
    case Some(available) =>
      var ds := MissingDiagnostics(text, matched, available);
      assert forall d :: d in ds ==> d.Missing? by {
        forall d | d in ds
          ensures d.Missing?
        {
          var r, mp :| r in matched && mp in r.methodPatterns && d in MethodErrors(text, mp, available);
        }
      }
      Publish(ds)
  }

  /**
   * The error `d` is due: a matched rule's method has a call whose key is no
   * top-level key of the loaded values, and `d` is that call's error.
   */
  ghost predicate MissingDue(text: string, data: seq<(string, Json)>, matched: seq<Rule>, d: Diagnostic) {
    exists r, mp, c :: r in matched && mp in r.methodPatterns && c in Calls(KeyCall(mp, true), text)
      && !Available(data, c.key) && c.start <= c.end <= |text| && d == MissingAt(text, c)
  }

  /** The missing check publishes exactly the errors that are due. */
  lemma CheckMissingExact(text: string, data: seq<(string, Json)>, matched: seq<Rule>, d: Diagnostic)
    requires CheckMissing(text, data, matched).Publish?
    ensures d in CheckMissing(text, data, matched).diagnostics <==> MissingDue(text, data, matched, d)
  {
    var available := AvailableKeys(data).value;
    if d in MissingDiagnostics(text, matched, available) {
      PublishedIsDue(text, data, matched, available, d);
    }
    if MissingDue(text, data, matched, d) {
      DueIsPublished(text, data, matched, available, d);
    }
  }

  /** Each published error is due. */
  lemma PublishedIsDue(text: string, data: seq<(string, Json)>, matched: seq<Rule>, available: set<string>, d: Diagnostic)
    requires forall k :: k in available <==> Available(data, k)
    requires d in MissingDiagnostics(text, matched, available)
    ensures MissingDue(text, data, matched, d)
  {
    var r, mp :| r in matched && mp in r.methodPatterns && d in MethodErrors(text, mp, available);
    var calls := Calls(KeyCall(mp, true), text);
    var j :| 0 <= j < |calls| && calls[j].key !in available && d == MissingAt(text, calls[j]);
    assert calls[j] in calls;
  }

  /** Each due error is published. */
  lemma DueIsPublished(text: string, data: seq<(string, Json)>, matched: seq<Rule>, available: set<string>, d: Diagnostic)
    requires forall k :: k in available <==> Available(data, k)
    requires MissingDue(text, data, matched, d)
    ensures d in MissingDiagnostics(text, matched, available)
  {
    var r, mp, c :| r in matched && mp in r.methodPatterns && c in Calls(KeyCall(mp, true), text)
      && !Available(data, c.key) && c.start <= c.end <= |text| && d == MissingAt(text, c);
    var calls := Calls(KeyCall(mp, true), text);
    var j :| 0 <= j < |calls| && calls[j] == c;
    assert MissingFor(text, mp, available, d);
    assert d in MethodErrors(text, mp, available);
  }

  /**
   * When the method name holds no quote character, a missing-key error
   * covers exactly the quoted key of its call: it starts at the opening quote
   * and ends just after the closing one.
   */
  lemma MissingRangeIsQuotedKey(t: string, name: string, c: Call)
    requires Found(KeyCall(name, true), t, c)
    requires forall k :: 0 <= k < |name| ==> name[k] !in Quotes(KeyCall(name, true))
    ensures MatchAt(KeyCall(name, true), t, c.start).Some?
    ensures MissingAt(t, c).startOffset == c.quoteAt
    ensures t[c.quoteAt] == c.quote && t[MissingAt(t, c).endOffset - 1] == c.quote
    ensures t[MissingAt(t, c).startOffset + 1..MissingAt(t, c).endOffset - 1] == c.key
  {
    MatchAtReads(KeyCall(name, true), t, c);
    QuoteOffsetIsOpeningQuote(KeyCall(name, true), t, c);
  }

  /**
   * `updateDiagnostics`: no rules, or no matched rule, deletes the
   * diagnostics; otherwise the matched rules' JSON specifiers are loaded and
   * the document is checked as JSON or as source by its name.
   */
  function UpdateDiagnostics(rules: seq<Rule>, fileName: string, text: string, parsed: Option<Json>,
                             load: seq<string> -> seq<(string, Json)>,
                             find: string -> seq<string>, read: string -> Option<string>): (out: Outcome)
    ensures |rules| == 0 ==> out == Clear
    ensures MatchRules(rules, fileName, text) == [] ==> out == Clear
    ensures out.Publish? && IsJsonName(fileName) ==> forall d :: d in out.diagnostics ==> d.Unused?
    ensures out.Publish? && !IsJsonName(fileName) ==> forall d :: d in out.diagnostics ==> d.Missing?
    ensures |rules| > 0 && MatchRules(rules, fileName, text) != [] && IsJsonName(fileName) ==>
      (out == Clear <==> parsed.None? || parsed.value.JNull?)
    ensures |rules| > 0 && MatchRules(rules, fileName, text) != [] && !IsJsonName(fileName) ==>
      (out == Clear <==> HasNull(load(RelevantJsonFiles(MatchRules(rules, fileName, text)))))
    ensures MatchRules(rules, fileName, text) != [] && IsJsonName(fileName) ==>
      out == CheckUnused(text, parsed, MatchRules(rules, fileName, text), find, read)
    ensures MatchRules(rules, fileName, text) != [] && !IsJsonName(fileName) ==>
      out == CheckMissing(text, load(RelevantJsonFiles(MatchRules(rules, fileName, text))), MatchRules(rules, fileName, text))
  {
    if |rules| == 0 then Clear
    else
      var matched := MatchRules(rules, fileName, text);
      if |matched| == 0 then Clear
      else
        var data := load(RelevantJsonFiles(matched));
        if IsJsonName(fileName) then CheckUnused(text, parsed, matched, find, read)
        else CheckMissing(text, data, matched)
  }

  /**
   * A JSON document that parses to a non-null value, under some matched
   * rule, gets exactly the unused-key warnings that are due.
   */
  lemma UpdateUnusedExact(rules: seq<Rule>, fileName: string, text: string, parsed: Option<Json>,
                          load: seq<string> -> seq<(string, Json)>,
                          find: string -> seq<string>, read: string -> Option<string>, d: Diagnostic)
    requires MatchRules(rules, fileName, text) != [] && IsJsonName(fileName)
    requires parsed.Some? && !parsed.value.JNull?
    ensures var out := UpdateDiagnostics(rules, fileName, text, parsed, load, find, read);
      out.Publish? && (d in out.diagnostics <==> UnusedDue(text, parsed.value, MatchRules(rules, fileName, text), find, read, d))
  {
    CheckUnusedExact(text, parsed, MatchRules(rules, fileName, text), find, read, d);
  }

  /**
   * A source document, under some matched rule and with no `null` among the
   * loaded values, gets exactly the missing-key errors that are due.
   */
  lemma UpdateMissingExact(rules: seq<Rule>, fileName: string, text: string, parsed: Option<Json>,
                           load: seq<string> -> seq<(string, Json)>,
                           find: string -> seq<string>, read: string -> Option<string>, d: Diagnostic)
    requires MatchRules(rules, fileName, text) != [] && !IsJsonName(fileName)
    requires !HasNull(load(RelevantJsonFiles(MatchRules(rules, fileName, text))))
    ensures var out := UpdateDiagnostics(rules, fileName, text, parsed, load, find, read);
      out.Publish? && (d in out.diagnostics <==>
        MissingDue(text, load(RelevantJsonFiles(MatchRules(rules, fileName, text))), MatchRules(rules, fileName, text), d))
  {
    CheckMissingExact(text, load(RelevantJsonFiles(MatchRules(rules, fileName, text))), MatchRules(rules, fileName, text), d);
  }
}
