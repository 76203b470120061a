/**
 * Key completion inside a method call (src/jsonKeyCompletionProvider.ts):
 * the text before the cursor must end in `method(` and an opening quote
 * followed by a quote-free partial key; suggestions then come from the
 * flattened keys of the rule's JSON files, at the top level or below the
 * dotted parent path the partial key names.
 */
module Completion {
  import opened Strings
  import opened Collections
  import opened JsonValue
  import opened Flatten
  import opened Rules

  /** A suggestion: the key the list shows and the text accepting it inserts. */
  datatype Item = Item(key: string, insertText: string)

  predicate IsQuote(c: char) {
    c == '\'' || c == '"'
  }

  /** No `'` or `"` from offset `p` on. */
  predicate QuoteFreeFrom(s: string, p: nat) {
    forall k :: p <= k < |s| ==> !IsQuote(s[k])
  }

  /**
   * Where `method\s*\(\s*['"]([^'"]*)$` matches at offset `i`: the offset of
   * its opening quote, or `None`.
   */
  function TriggerAt(name: string, s: string, i: nat): (r: Option<nat>)
    requires i <= |s|
    ensures r.Some? ==> i + |name| < r.value < |s| && IsQuote(s[r.value]) && QuoteFreeFrom(s, r.value + 1)
  {
    if !OccursAt(s, name, i) then None
    else
      var a := SkipBlanks(s, i + |name|);
      if a >= |s| || s[a] != '(' then None
      else
        var b := SkipBlanks(s, a + 1);
        if b >= |s| || !IsQuote(s[b]) || !QuoteFreeFrom(s, b + 1) then None
        else Some(b)
  }

  /** The leftmost match from offset `i` on: the offset of its opening quote. */
  function TriggerFrom(name: string, s: string, i: nat): (r: Option<nat>)
    requires i <= |s|
    ensures r.Some? <==> exists j :: i <= j <= |s| && TriggerAt(name, s, j).Some?
    ensures r.Some? ==> exists j :: i <= j <= |s| && TriggerAt(name, s, j) == r
    ensures r.Some? ==> r.value < |s| && IsQuote(s[r.value]) && QuoteFreeFrom(s, r.value + 1)
    decreases |s| - i
  {
    match TriggerAt(name, s, i)
    case Some(b) => Some(b)
    case None =>
      if i == |s| then None
      else
        var r := TriggerFrom(name, s, i + 1);
        assert forall j :: i <= j <= |s| && TriggerAt(name, s, j).Some? ==> j == i || i + 1 <= j;
        r
  }

  /** `beforeCursor.match(beforeRegex)`, giving `match[1]`: the partial key, possibly empty. */
  function Trigger(name: string, beforeCursor: string): Option<string> {
    match TriggerFrom(name, beforeCursor, 0)
    case None => None
    case Some(b) => Some(beforeCursor[b + 1..])
  }

  /** The offset of the last `'` or `"`, or -1. */
  function LastQuote(s: string): (r: int)
    ensures -1 <= r < |s|
    ensures r >= 0 ==> IsQuote(s[r])
    ensures QuoteFreeFrom(s, r + 1)
  {
    if |s| == 0 then -1
    else if IsQuote(s[|s| - 1]) then |s| - 1
    else
      var r := LastQuote(s[..|s| - 1]);
      assert forall k :: r + 1 <= k < |s| - 1 ==> s[k] == s[..|s| - 1][k];
      r
  }

  /**
   * Whichever offset the match starts at, its opening quote is the last quote
   * before the cursor: the partial key is all the text after it.
   */
  lemma TriggerCapturesAfterLastQuote(name: string, s: string)
    requires Trigger(name, s).Some?
    ensures LastQuote(s) >= 0 && Trigger(name, s).value == s[LastQuote(s) + 1..]
    ensures forall k :: 0 <= k < |Trigger(name, s).value| ==> !IsQuote(Trigger(name, s).value[k])
  {
    var b := TriggerFrom(name, s, 0).value;
    AfterLastQuote(s, b, Trigger(name, s).value);
  }

  /** The text after a quote with none after it is the text after the last quote, and holds no quote. */
  lemma AfterLastQuote(s: string, b: nat, v: string)
    requires b < |s| && IsQuote(s[b]) && QuoteFreeFrom(s, b + 1) && v == s[b + 1..]
    ensures LastQuote(s) >= 0 && v == s[LastQuote(s) + 1..]
    ensures forall k :: 0 <= k < |v| ==> !IsQuote(v[k])
  {
    LastQuoteIs(s, b);
    QuoteFreeSuffix(s, b + 1);
  }

  /** A quote with none after it is the last quote. */
  lemma LastQuoteIs(s: string, b: nat)
    requires b < |s| && IsQuote(s[b]) && QuoteFreeFrom(s, b + 1)
    ensures LastQuote(s) == b
  {
  }

  /** The text from a quote-free offset on holds no quote. */
  lemma QuoteFreeSuffix(s: string, p: nat)
    requires p <= |s| && QuoteFreeFrom(s, p)
    ensures forall k :: 0 <= k < |s[p..]| ==> !IsQuote(s[p..][k])
  {
    assert forall k :: 0 <= k < |s[p..]| ==> s[p..][k] == s[p + k];
  }

  /**
   * The first rule, in order, with a method name whose trigger matches, and
   * the partial key of its first such method name.
   */
  function FindTrigger(rules: seq<Rule>, beforeCursor: string): (r: Option<(Rule, string)>)
    ensures r.Some? ==> r.value.0 in rules
    ensures r.None? <==> forall j :: 0 <= j < |rules| ==> FirstTriggerName(rules[j].methodPatterns, beforeCursor).None?
    ensures r.Some? ==> exists i :: (0 <= i < |rules| && rules[i] == r.value.0
      && FirstTriggerName(rules[i].methodPatterns, beforeCursor) == Some(r.value.1)
      && forall j :: 0 <= j < i ==> FirstTriggerName(rules[j].methodPatterns, beforeCursor).None?)
  {
    match FirstWhere((rule: Rule) => FirstTriggerName(rule.methodPatterns, beforeCursor).Some?, rules, 0)
    case None => None
    case Some(i) => Some((rules[i], FirstTriggerName(rules[i].methodPatterns, beforeCursor).value))
  }

  /** No rule triggers exactly when no method name of any rule triggers. */
  lemma FindTriggerNone(rules: seq<Rule>, beforeCursor: string)
    ensures FindTrigger(rules, beforeCursor).None? <==>
      forall rule, mp :: rule in rules && mp in rule.methodPatterns ==> Trigger(mp, beforeCursor).None?
  {
    if FindTrigger(rules, beforeCursor).None? {
      forall rule, mp | rule in rules && mp in rule.methodPatterns
        ensures Trigger(mp, beforeCursor).None?
      {
        var j :| 0 <= j < |rules| && rules[j] == rule;
        assert FirstTriggerName(rules[j].methodPatterns, beforeCursor).None?;
      }
    }
  }

  /** The first method name, in order, whose trigger matches: its partial key. */
  function FirstTriggerName(names: seq<string>, beforeCursor: string): (r: Option<string>)
    ensures r.None? <==> forall mp :: mp in names ==> Trigger(mp, beforeCursor).None?
    ensures r.Some? ==> exists i :: (0 <= i < |names| && Trigger(names[i], beforeCursor) == r
      && forall j :: 0 <= j < i ==> Trigger(names[j], beforeCursor).None?)
  {
    match FirstWhere((mp: string) => Trigger(mp, beforeCursor).Some?, names, 0)
    case None => None
    case Some(i) => Trigger(names[i], beforeCursor)
  }

  /** The flattened keys of each loaded file, one file after another. */
  function ConcatKeys(data: seq<(string, Json)>): (keys: seq<string>)
    ensures forall k :: k in keys <==> exists i :: 0 <= i < |data| && k in FlattenJsonKeys(data[i].1, "")
  {
    if |data| == 0 then []
    else
      var rest := ConcatKeys(data[1..]);
      assert forall k :: (exists i :: 0 <= i < |data| && k in FlattenJsonKeys(data[i].1, "")) <==>
        k in FlattenJsonKeys(data[0].1, "") || exists i :: 0 <= i < |data[1..]| && k in FlattenJsonKeys(data[1..][i].1, "") by {
        assert forall i :: 1 <= i < |data| ==> data[i] == data[1..][i - 1];
      }
      FlattenJsonKeys(data[0].1, "") + rest
  }

  /** The `allKeys` set: every flattened key of every loaded file, once, in first-seen order. */
  function AllKeys(data: seq<(string, Json)>): (keys: seq<string>)
    ensures NoDuplicates(keys)
    ensures forall k :: k in keys <==> exists i :: 0 <= i < |data| && k in FlattenJsonKeys(data[i].1, "")
  {
    Dedup(ConcatKeys(data))
  }

  /** A key is offered for the partial key: its lowercase form starts with the partial's. */
  predicate PrefixMatch(key: string, partial: string) {
    StartsWith(Lower(key), Lower(partial))
  }

  /** The top-level case: every dot-free key that the partial key prefixes, in order. */
  function TopLevel(keys: seq<string>, partial: string): (labels: seq<string>)
    ensures forall l :: l in labels <==> l in keys && '.' !in l && PrefixMatch(l, partial)
    ensures |labels| <= |keys|
  {
    if |keys| == 0 then []
    else
      InHeadOrTail(keys);
      var k := keys[0];
      (if '.' !in k && PrefixMatch(k, partial) then [k] else []) + TopLevel(keys[1..], partial)
  }

  /** The key lies directly or deeper below `parent`; its remainder is the text after `parent + "."`. */
  predicate Below(key: string, parent: string) {
    StartsWith(key, parent + ".")
  }

  /** The nested case: the remainders below `parent` that are dot-free and prefixed by `childPrefix`. */
  function Children(keys: seq<string>, parent: string, childPrefix: string): (labels: seq<string>)
    ensures forall l :: l in labels <==>
      exists k :: k in keys && Below(k, parent) && l == k[|parent| + 1..] && '.' !in l && PrefixMatch(l, childPrefix)
  {
    if |keys| == 0 then []
    else
      InHeadOrTail(keys);
      var k := keys[0];
      var here := if Below(k, parent) && '.' !in k[|parent| + 1..] && PrefixMatch(k[|parent| + 1..], childPrefix)
        then [k[|parent| + 1..]] else [];
      here + Children(keys[1..], parent, childPrefix)
  }

  /** The parent path of a dotted partial key: the text before its last dot. */
  function ParentPath(partial: string): string
    requires '.' in partial
  {
    partial[..LastIndexOf(partial, '.')]
  }

  /** The child prefix of a dotted partial key: the text after its last dot. */
  function ChildPrefix(partial: string): string
    requires '.' in partial
  {
    partial[LastIndexOf(partial, '.') + 1..]
  }

  /** Items whose inserted text is their label. */
  function ToItems(labels: seq<string>): (items: seq<Item>)
    ensures |items| == |labels|
    ensures forall j :: 0 <= j < |items| ==> items[j].key == labels[j] && items[j].insertText == labels[j]
  {
    seq(|labels|, j requires 0 <= j < |labels| => Item(labels[j], labels[j]))
  }

  /** `getCompletionItems`: top-level suggestions for a dot-free partial key, children otherwise. */
  function CompletionItems(data: seq<(string, Json)>, partial: string): (items: seq<Item>)
    ensures forall j :: 0 <= j < |items| ==> items[j].insertText == items[j].key
    ensures '.' !in partial ==> forall l :: (exists j :: 0 <= j < |items| && items[j].key == l) <==>
      l in AllKeys(data) && '.' !in l && PrefixMatch(l, partial)
  {
    var keys := AllKeys(data);
    if '.' !in partial then
      var labels := TopLevel(keys, partial);
      var items := ToItems(labels);
      assert forall l :: (exists j :: 0 <= j < |items| && items[j].key == l) <==> l in labels by {
        forall l | l in labels
          ensures exists j :: 0 <= j < |items| && items[j].key == l
        {
          var j :| 0 <= j < |labels| && labels[j] == l;
          assert items[j].key == l;
        }
      }
      items
    else
      ToItems(Children(keys, ParentPath(partial), ChildPrefix(partial)))
  }

  /** `provideCompletionItems`: the items of the first triggering rule, or none. */
  function ProvideCompletionItems(rules: seq<Rule>, beforeCursor: string,
                                  load: seq<string> -> seq<(string, Json)>): (items: seq<Item>)
    ensures |rules| == 0 ==> items == []
    ensures (forall rule, mp :: rule in rules && mp in rule.methodPatterns ==> Trigger(mp, beforeCursor).None?)
      ==> items == []
    ensures forall j :: 0 <= j < |items| ==> items[j].insertText == items[j].key
    ensures FindTrigger(rules, beforeCursor).Some? ==>
      items == CompletionItems(load(FindTrigger(rules, beforeCursor).value.0.jsonFiles), FindTrigger(rules, beforeCursor).value.1)
  {
    FindTriggerNone(rules, beforeCursor);
    if |rules| == 0 then []
    else
      match FindTrigger(rules, beforeCursor)
      case None => []
      case Some((rule, partial)) => CompletionItems(load(rule.jsonFiles), partial)
  }

  /** An empty partial key suggests every dot-free key. */
  lemma EmptyPartialOffersAllTopLevel(keys: seq<string>)
    ensures forall l :: l in TopLevel(keys, "") <==> l in keys && '.' !in l
  {
    forall l | l in keys
      ensures PrefixMatch(l, "")
    {
      assert Lower("") == "";
    }
  }

  /** The parent path, a dot and the child prefix make up the partial key again. */
  lemma ParentAndChildRejoin(partial: string)
    requires '.' in partial
    ensures ParentPath(partial) + "." + ChildPrefix(partial) == partial
    ensures '.' !in ChildPrefix(partial)
  {
    var d := LastIndexOf(partial, '.');
    assert partial == partial[..d] + [partial[d]] + partial[d + 1..];
    var c := ChildPrefix(partial);
    assert forall k :: 0 <= k < |c| ==> c[k] == partial[d + 1 + k];
  }

  /** Every nested suggestion, put back under its parent path, is a loaded key. */
  lemma ChildrenAreKeys(keys: seq<string>, parent: string, childPrefix: string, l: string)
    requires l in Children(keys, parent, childPrefix)
    ensures parent + "." + l in keys
    ensures '.' !in l && PrefixMatch(l, childPrefix)
  {
    var k :| k in keys && Below(k, parent) && l == k[|parent| + 1..] && '.' !in l && PrefixMatch(l, childPrefix);
    assert k == k[..|parent| + 1] + k[|parent| + 1..];
  }

  /** The nested case offers exactly the dot-free remainders, and only for a dotted partial key. */
  lemma NestedItemsExact(data: seq<(string, Json)>, partial: string, l: string)
    requires '.' in partial
    ensures (exists j :: 0 <= j < |CompletionItems(data, partial)| && CompletionItems(data, partial)[j].key == l)
      <==> l in Children(AllKeys(data), ParentPath(partial), ChildPrefix(partial))
  {
    var labels := Children(AllKeys(data), ParentPath(partial), ChildPrefix(partial));
    var items := CompletionItems(data, partial);
    if l in labels {
      var j :| 0 <= j < |labels| && labels[j] == l;
      assert items[j].key == l;
    }
  }
}
