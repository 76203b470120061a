/**
 * Go-to-definition from a key in a method call (src/jsonKeyDefinitionProvider.ts):
 * the cursor must sit on the key of a `method('key')` call on its line; the
 * definition is the first loaded JSON file whose key set holds the key and
 * whose text has a line `"leaf"\s*:` for it.
 */
module Definition {
  import opened Strings
  import opened Collections
  import opened JsonValue
  import opened Flatten
  import opened Rules
  import opened Scanner
  import opened Positions

  /** A definition: a JSON file and the range of the quoted key in it. */
  datatype Location = Location(path: string, at: Range)

  /** The key-capturing call pattern of the definition provider: no backticks. */
  function DefinitionCall(name: string): CallPattern {
    KeyCall(name, false)
  }

  /**
   * The cursor column is on the key of call `c`: from just after the opening
   * quote the code finds to just after the key, both ends included.
   */
  predicate OnKey(line: string, c: Call, col: nat)
    requires c.start <= c.end <= |line|
  {
    var s := QuoteOffset(line, c) + 1;
    s <= col <= s + |c.key|
  }

  /** The index of the first call, from `i` on, that the cursor is on. */
  function FirstHit(line: string, calls: seq<Call>, col: nat, i: nat): (r: Option<nat>)
    requires i <= |calls|
    requires forall k :: 0 <= k < |calls| ==> calls[k].start <= calls[k].end <= |line|
    ensures r.Some? ==> i <= r.value < |calls| && OnKey(line, calls[r.value], col)
    ensures r.Some? ==> forall j :: i <= j < r.value ==> !OnKey(line, calls[j], col)
    ensures r.None? <==> forall j :: i <= j < |calls| ==> !OnKey(line, calls[j], col)
    decreases |calls| - i
  {
    if i == |calls| then None
    else if OnKey(line, calls[i], col) then Some(i)
    else FirstHit(line, calls, col, i + 1)
  }

  /** The cursor is on the key of the `k`-th call of `name` on the line. */
  predicate HitAt(name: string, line: string, col: nat, k: nat) {
    var calls := Calls(DefinitionCall(name), line);
    k < |calls| && OnKey(line, calls[k], col)
  }

  /**
   * The key the cursor is on among the calls of `name` on the line: the key
   * of the first such call, non-empty and free of quotes.
   */
  function KeyUnderCursor(name: string, line: string, col: nat): (r: Option<string>)
    ensures r.Some? ==> |r.value| > 0 && '\'' !in r.value && '"' !in r.value
  {
    var calls := Calls(DefinitionCall(name), line);
    match FirstHit(line, calls, col, 0)
    case None => None
    case Some(k) =>
      CallKeyIsQuoteFree(name, line, k);
      Some(calls[k].key)
  }

  /** The key under the cursor is that of the first call the cursor is on; there is none when it is on no call. */
  lemma KeyUnderCursorIsFirstHit(name: string, line: string, col: nat)
    ensures KeyUnderCursor(name, line, col).None? <==> forall k: nat :: !HitAt(name, line, col, k)
    ensures KeyUnderCursor(name, line, col).Some? ==> exists k: nat :: (HitAt(name, line, col, k)
      && KeyUnderCursor(name, line, col).value == Calls(DefinitionCall(name), line)[k].key
      && forall j: nat :: j < k ==> !HitAt(name, line, col, j))
  {
    var calls := Calls(DefinitionCall(name), line);
    var h := FirstHit(line, calls, col, 0);
    if h.Some? {
      assert HitAt(name, line, col, h.value);
    }
  }

  /** A reported call's key is non-empty and holds no quote. */
  lemma CallKeyIsQuoteFree(name: string, line: string, k: nat)
    requires k < |Calls(DefinitionCall(name), line)|
    ensures var key := Calls(DefinitionCall(name), line)[k].key;
      |key| > 0 && '\'' !in key && '"' !in key
  {
    var pat := DefinitionCall(name);
    ScanFound(pat, line, 0);
    MatchAtReads(pat, line, Calls(pat, line)[k]);
    CapturedKeyIsQuoteFree(name, false, Calls(pat, line)[k].key);
  }

  /** The first method name, in order, with a call whose key the cursor is on: that key. */
  function HitInNames(names: seq<string>, line: string, col: nat): (r: Option<string>)
    ensures r.None? <==> forall mp :: mp in names ==> KeyUnderCursor(mp, line, col).None?
    ensures r.Some? ==> exists i :: (0 <= i < |names| && KeyUnderCursor(names[i], line, col) == r
      && forall j :: 0 <= j < i ==> KeyUnderCursor(names[j], line, col).None?)
  {
    match FirstWhere((mp: string) => KeyUnderCursor(mp, line, col).Some?, names, 0)
    case None => None
    case Some(i) => KeyUnderCursor(names[i], line, col)
  }

  /**
   * The first rule, in order, with a method name that has a call under the
   * cursor, and the key of its first such method name.
   */
  function HitInRules(rules: seq<Rule>, line: string, col: nat): (r: Option<(Rule, string)>)
    ensures r.None? <==> forall j :: 0 <= j < |rules| ==> HitInNames(rules[j].methodPatterns, line, col).None?
    ensures r.Some? ==> r.value.0 in rules
    ensures r.Some? ==> exists i :: (0 <= i < |rules| && rules[i] == r.value.0
      && HitInNames(rules[i].methodPatterns, line, col) == Some(r.value.1)
      && forall j :: 0 <= j < i ==> HitInNames(rules[j].methodPatterns, line, col).None?)
  {
    match FirstRuleHit(rules, line, col)
    case None => None
    case Some(i) => Some((rules[i], HitInNames(rules[i].methodPatterns, line, col).value))
  }

  /** The index of the first rule with a method name that has a call under the cursor. */
  function FirstRuleHit(rules: seq<Rule>, line: string, col: nat): (r: Option<nat>)
    ensures r.Some? ==> r.value < |rules| && HitInNames(rules[r.value].methodPatterns, line, col).Some?
    ensures r.Some? ==> forall j :: 0 <= j < r.value ==> HitInNames(rules[j].methodPatterns, line, col).None?
    ensures r.None? <==> forall j :: 0 <= j < |rules| ==> HitInNames(rules[j].methodPatterns, line, col).None?
  {
    FirstWhere((rule: Rule) => HitInNames(rule.methodPatterns, line, col).Some?, rules, 0)
  }

  /** No rule has a hit exactly when no method name of any rule has a call under the cursor. */
  lemma HitInRulesNone(rules: seq<Rule>, line: string, col: nat)
    ensures HitInRules(rules, line, col).None? <==>
      forall rule, mp :: rule in rules && mp in rule.methodPatterns ==> KeyUnderCursor(mp, line, col).None?
  {
    if HitInRules(rules, line, col).None? {
      forall rule, mp | rule in rules && mp in rule.methodPatterns
        ensures KeyUnderCursor(mp, line, col).None?
      {
        var j :| 0 <= j < |rules| && rules[j] == rule;
        assert HitInNames(rules[j].methodPatterns, line, col).None?;
      }
    }
  }

  /** A loaded file defines the key: its key set holds it and its text locates it. */
  predicate Defines(key: string, entry: (string, seq<string>), open: string -> string) {
    key in entry.1 && FindKeyLocation(open(entry.0), key).Some?
  }

  /**
   * `findKeyDefinition`: the location in the first loaded file, in load order,
   * that holds the key and locates it; none when no file does.
   */
  function FindKeyDefinition(key: string, data: seq<(string, seq<string>)>, open: string -> string): (r: Option<Location>)
    ensures r.None? <==> forall j :: 0 <= j < |data| ==> !Defines(key, data[j], open)
    ensures r.Some? ==> exists i :: (0 <= i < |data| && Defines(key, data[i], open)
      && (forall j :: 0 <= j < i ==> !Defines(key, data[j], open))
      && r.value.path == data[i].0
      && Some(r.value.at) == FindKeyLocation(open(data[i].0), key))
  {
    var defines := (e: (string, seq<string>)) => Defines(key, e, open);
    match FirstWhere(defines, data, 0)
    case None => None
    case Some(i) =>
      var r := Location(data[i].0, FindKeyLocation(open(data[i].0), key).value);
      assert Some(r.at) == FindKeyLocation(open(data[i].0), key);
      Some(r)
  }

  /**
   * `provideDefinition`: nothing without rules or without a word at the
   * cursor; otherwise the first call, by rule, method name and position, whose
   * key the cursor is on decides, and its rule's files are searched.
   */
  function ProvideDefinition(rules: seq<Rule>, onWord: bool, line: string, col: nat,
                             load: seq<string> -> seq<(string, Json)>,
                             open: string -> string): (r: Option<Location>)
    ensures |rules| == 0 || !onWord ==> r.None?
    ensures (forall rule, mp :: rule in rules && mp in rule.methodPatterns ==> KeyUnderCursor(mp, line, col).None?)
      ==> r.None?
    ensures r.Some? ==> onWord && HitInRules(rules, line, col).Some?
    ensures onWord && HitInRules(rules, line, col).Some? ==>
      r == FindKeyDefinition(HitInRules(rules, line, col).value.1,
        KeySets(load(HitInRules(rules, line, col).value.0.jsonFiles)), open)
  {
    HitInRulesNone(rules, line, col);
    if |rules| == 0 || !onWord then None
    else
      match HitInRules(rules, line, col)
      case None => None
      case Some((rule, key)) =>
        FindKeyDefinition(key, KeySets(load(rule.jsonFiles)), open)
  }

  /**
   * A found definition points at a loaded file whose key set holds the key,
   * on the first line of its text matching `"leaf"\s*:`, at the first
   * `"leaf"` there, two columns wider than the leaf.
   */
  lemma DefinitionPointsAtLeaf(key: string, data: seq<(string, seq<string>)>, open: string -> string)
    requires FindKeyDefinition(key, data, open).Some?
    ensures var loc := FindKeyDefinition(key, data, open).value;
      var leaf := LastSegment(key, '.');
      var lines := Split(open(loc.path), '\n');
      && (exists i :: 0 <= i < |data| && data[i].0 == loc.path && key in data[i].1)
      && loc.at.line < |lines|
      && LineMatches(lines[loc.at.line], leaf)
      && (forall j :: 0 <= j < loc.at.line ==> !LineMatches(lines[j], leaf))
      && OccursAt(lines[loc.at.line], Quoted(leaf), loc.at.startCol)
      && (forall j: nat :: j < loc.at.startCol ==> !OccursAt(lines[loc.at.line], Quoted(leaf), j))
      && loc.at.endCol == loc.at.startCol + |leaf| + 2
  {
    var loc := FindKeyDefinition(key, data, open).value;
    var i :| 0 <= i < |data| && Defines(key, data[i], open) && loc.path == data[i].0
      && Some(loc.at) == FindKeyLocation(open(data[i].0), key);
  }

  /**
   * When the method name holds no quote, the column the code tests is the
   * key's own text: from just after the real opening quote to just after the
   * key, which sits there on the line.
   */
  lemma HitIsOnKeyText(name: string, line: string, col: nat, k: nat)
    requires '\'' !in name && '"' !in name
    requires HitAt(name, line, col, k)
    ensures var c := Calls(DefinitionCall(name), line)[k];
      && c.quoteAt + 1 + |c.key| <= |line|
      && c.quoteAt + 1 <= col <= c.quoteAt + 1 + |c.key|
      && line[c.quoteAt + 1..c.quoteAt + 1 + |c.key|] == c.key
  {
    var c := Calls(DefinitionCall(name), line)[k];
    CallIsFound(name, line, k);
    FoundKeyText(name, line, col, c);
  }

  /** A reported call is what the attempt at its start finds. */
  lemma CallIsFound(name: string, line: string, k: nat)
    requires k < |Calls(DefinitionCall(name), line)|
    ensures Found(DefinitionCall(name), line, Calls(DefinitionCall(name), line)[k])
  {
    ScanFound(DefinitionCall(name), line, 0);
  }

  /** The same, for one call the attempt at its start finds. */
  lemma FoundKeyText(name: string, line: string, col: nat, c: Call)
    requires '\'' !in name && '"' !in name
    requires Found(DefinitionCall(name), line, c)
    requires c.start <= c.end <= |line| && OnKey(line, c, col)
    ensures c.quoteAt + 1 + |c.key| <= |line|
    ensures c.quoteAt + 1 <= col <= c.quoteAt + 1 + |c.key|
    ensures line[c.quoteAt + 1..c.quoteAt + 1 + |c.key|] == c.key
  {
    var pat := DefinitionCall(name);
    MatchAtReads(pat, line, c);
    assert forall j :: 0 <= j < |pat.name| ==> pat.name[j] !in Quotes(pat) by {
      forall j | 0 <= j < |pat.name|
        ensures pat.name[j] !in Quotes(pat)
      {
        assert pat.name[j] in name;
      }
    }
    QuoteOffsetIsOpeningQuote(pat, line, c);
  }
}
