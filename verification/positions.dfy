/**
 * Locating a JSON key in the text of a JSON file, line by line, as both the
 * unused-key diagnostics (src/extension.ts) and go-to-definition
 * (src/jsonKeyDefinitionProvider.ts) do it: a line holds the key when the
 * regex `"key"\s*:` matches somewhere in it, and the reported range is the
 * first `"key"` on that line, two columns wider than the key.
 */
module Positions {
  import opened Strings
  import opened Collections

  /** A range on one line, columns `[startCol, endCol)`. */
  datatype Range = Range(line: nat, startCol: nat, endCol: nat)

  /** The key between double quotes, as it is written in JSON. */
  function Quoted(key: string): (r: string)
    ensures |r| == |key| + 2
  {
    "\"" + key + "\""
  }

  /** Blanks from `p` on, then a colon. */
  predicate ColonAfter(line: string, p: nat)
    requires p <= |line|
  {
    var r := SkipBlanks(line, p);
    r < |line| && line[r] == ':'
  }

  /** `"key"\s*:` matches at offset `j`. */
  predicate KeyColonAt(line: string, key: string, j: nat) {
    OccursAt(line, Quoted(key), j) && ColonAfter(line, j + |key| + 2)
  }

  /** The regex matches at some offset from `j` on. */
  predicate MatchesFrom(line: string, key: string, j: nat)
    requires j <= |line|
    decreases |line| - j
  {
    KeyColonAt(line, key, j) || (j < |line| && MatchesFrom(line, key, j + 1))
  }

  /** `line.match(new RegExp('"(' + key + ')"\\s*:'))` is not null, for a literal key. */
  predicate LineMatches(line: string, key: string) {
    MatchesFrom(line, key, 0)
  }

  /** The regex language, stated directly: the quoted key, some blanks, a colon. */
  ghost predicate KeyColonText(line: string, key: string) {
    exists j: nat, w: string :: AllWhitespace(w) && OccursAt(line, Quoted(key) + w + ":", j)
  }

  /** The range reported for a matching line: the first `"key"` on it, `|key| + 2` wide. */
  function KeyRange(lineNo: nat, line: string, key: string): (r: Range)
    requires LineMatches(line, key)
    ensures r.line == lineNo && r.endCol == r.startCol + |key| + 2
    ensures OccursAt(line, Quoted(key), r.startCol)
    ensures forall j: nat :: j < r.startCol ==> !OccursAt(line, Quoted(key), j)
  {
    MatchIsOccurrence(line, key);
    var s := IndexOf(line, Quoted(key));
    Range(lineNo, s, s + |key| + 2)
  }

  /** The first line, from `i` on, that holds the key. */
  function FirstKeyLine(lines: seq<string>, key: string, i: nat): (r: Option<Range>)
    requires i <= |lines|
    ensures r.Some? ==> i <= r.value.line < |lines| && LineMatches(lines[r.value.line], key)
    ensures r.Some? ==> r == Some(KeyRange(r.value.line, lines[r.value.line], key))
    ensures r.Some? ==> forall j :: i <= j < r.value.line ==> !LineMatches(lines[j], key)
    ensures r.None? <==> forall j :: i <= j < |lines| ==> !LineMatches(lines[j], key)
    decreases |lines| - i
  {
    if i == |lines| then None
    else if LineMatches(lines[i], key) then Some(KeyRange(i, lines[i], key))
    else FirstKeyLine(lines, key, i + 1)
  }

  /**
   * `findKeyLocationInJson`: a dotted key is looked up by its last segment,
   * any other key as it is; the first matching line of the text wins.
   */
  function FindKeyLocation(text: string, target: string): (r: Option<Range>)
    ensures var leaf := LastSegment(target, '.');
      var lines := Split(text, '\n');
      && (r.Some? ==> r.value.line < |lines| && LineMatches(lines[r.value.line], leaf))
      && (r.Some? ==> forall j :: 0 <= j < r.value.line ==> !LineMatches(lines[j], leaf))
      && (r.Some? ==> r.value.endCol == r.value.startCol + |leaf| + 2)
      && (r.Some? ==> OccursAt(lines[r.value.line], Quoted(leaf), r.value.startCol))
      && (r.Some? ==> forall j: nat :: j < r.value.startCol ==> !OccursAt(lines[r.value.line], Quoted(leaf), j))
      && (r.None? <==> forall j :: 0 <= j < |lines| ==> !LineMatches(lines[j], leaf))
  {
    var lines := Split(text, '\n');
    if '.' in target then
      var parts := Split(target, '.');
      FirstKeyLine(lines, parts[|parts| - 1], 0)
    else
      NoSeparatorIsLastSegment(target, '.');
      FirstKeyLine(lines, target, 0)
  }

  /** A text without the separator is its own last segment. */
  lemma NoSeparatorIsLastSegment(s: string, c: char)
    requires c !in s
    ensures LastSegment(s, c) == s
  {
  }

  /** Both branches agree: locating a key is locating its last dot-segment. */
  lemma LocateByLeaf(text: string, target: string)
    ensures FindKeyLocation(text, target) == FindKeyLocation(text, LastSegment(target, '.'))
  {
    NoSeparatorIsLastSegment(LastSegment(target, '.'), '.');
  }

  /** When the regex matches, the quoted key occurs, so the search for it succeeds. */
  lemma MatchIsOccurrence(line: string, key: string)
    requires LineMatches(line, key)
    ensures Contains(line, Quoted(key))
  {
    var j := MatchOffset(line, key, 0);
  }

  /** An offset from `j` on where the regex matches. */
  lemma {:induction false} MatchOffset(line: string, key: string, j: nat) returns (m: nat)
    requires j <= |line| && MatchesFrom(line, key, j)
    ensures j <= m <= |line| && KeyColonAt(line, key, m)
    decreases |line| - j
  {
    if KeyColonAt(line, key, j) {
      m := j;
    } else {
      m := MatchOffset(line, key, j + 1);
    }
  }

  /** A match at `m` is seen by the search from any offset at or before it. */
  lemma {:induction false} MatchSeen(line: string, key: string, j: nat, m: nat)
    requires j <= m <= |line| && KeyColonAt(line, key, m)
    ensures MatchesFrom(line, key, j)
    decreases m - j
  {
    if j < m {
      MatchSeen(line, key, j + 1, m);
    }
  }

  /** `ColonAfter` is the blanks-then-colon language. */
  lemma ColonAfterIff(line: string, p: nat)
    requires p <= |line|
    ensures ColonAfter(line, p) <==> exists w :: AllWhitespace(w) && OccursAt(line, w + ":", p)
  {
    var r := SkipBlanks(line, p);
    if ColonAfter(line, p) {
      var w := line[p..r];
      assert line[p..r + 1] == w + ":";
      assert OccursAt(line, w + ":", p);
    }
    if w :| AllWhitespace(w) && OccursAt(line, w + ":", p) {
      var q := p + |w|;
      forall k | p <= k < q
        ensures IsWhitespace(line[k])
      {
        assert line[k] == (w + ":")[k - p];
      }
      assert line[q] == (w + ":")[|w|];
      SkipBlanksExact(line, p, q);
    }
  }

  /** The quoted key followed by `w + ":"` at `j` is a match at `j` and back. */
  lemma KeyColonAtIff(line: string, key: string, j: nat)
    ensures KeyColonAt(line, key, j) <==>
      exists w :: AllWhitespace(w) && OccursAt(line, Quoted(key) + w + ":", j)
  {
    var qk := Quoted(key);
    var p := j + |qk|;
    if KeyColonAt(line, key, j) {
      ColonAfterIff(line, p);
      var w :| AllWhitespace(w) && OccursAt(line, w + ":", p);
      assert line[j..p + |w| + 1] == line[j..p] + line[p..p + |w| + 1];
      assert qk + w + ":" == qk + (w + ":");
      assert OccursAt(line, qk + w + ":", j);
    }
    if w :| AllWhitespace(w) && OccursAt(line, qk + w + ":", j) {
      var whole := qk + w + ":";
      assert line[j..p] == whole[..|qk|];
      assert line[p..p + |w| + 1] == whole[|qk|..];
      assert OccursAt(line, w + ":", p);
      ColonAfterIff(line, p);
    }
  }

  /** A line matches exactly when some offset holds the quoted key, blanks and a colon. */
  lemma LineMatchesIff(line: string, key: string)
    ensures LineMatches(line, key) <==> KeyColonText(line, key)
  {
    if LineMatches(line, key) {
      var m := MatchOffset(line, key, 0);
      KeyColonAtIff(line, key, m);
    }
    if KeyColonText(line, key) {
      var m: nat, w :| AllWhitespace(w) && OccursAt(line, Quoted(key) + w + ":", m);
      KeyColonAtIff(line, key, m);
      MatchSeen(line, key, 0, m);
    }
  }
}
