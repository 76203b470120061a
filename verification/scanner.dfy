/**
 * The call regexes of the extension, run as `regex.exec` in a global loop:
 *
 *   method \s* ( \s* (['"]) ([^'"]+) \1 \s* )      key capture, JSON side
 *   method \s* ( \s* (['"`]) ([^'"`]+) \1 \s* )    key capture, source side
 *   method \s* ( \s* (['"]) KEY \1 \s* )           one escaped key (references)
 *
 * With `method` a literal name these regexes are deterministic: each `\s*`
 * can only stop at the first non-blank, and the key class can only stop at
 * the first quote. `MatchAt` is one match attempt at a fixed offset; `Scan`
 * is the exec loop, which restarts after each match.
 */
module Scanner {
  import opened Strings
  import opened Collections

  /** One match: the call text is `[start, end)`; the opening quote sits at `quoteAt`. */
  datatype Call = Call(start: nat, quoteAt: nat, quote: char, key: string, end: nat)

  datatype CallPattern =
    /** Captures any quote-free, non-empty key; backticks are quotes too on the source side. */
    | KeyCall(name: string, backtick: bool)
    /** Matches one literal key between single or double quotes. */
    | LiteralCall(name: string, key: string)

  /** The characters that may open and close the key. */
  function Quotes(pat: CallPattern): set<char> {
    if pat.KeyCall? && pat.backtick then {'\'', '"', '`'} else {'\'', '"'}
  }

  /** What the key between the quotes must be. */
  predicate KeyFits(pat: CallPattern, key: string) {
    match pat
    case KeyCall(_, _) => |key| > 0 && forall k :: 0 <= k < |key| ==> key[k] !in Quotes(pat)
    case LiteralCall(_, lit) => key == lit
  }

  /** The text of a call with the given blank runs. */
  function CallText(name: string, w1: string, w2: string, q: char, key: string, w3: string): string {
    name + (w1 + ("(" + (w2 + ([q] + (key + ([q] + (w3 + ")")))))))
  }

  /** The regex language: `s` is a whole call of `pat` with quote `q` and key `key`. */
  ghost predicate IsCall(pat: CallPattern, s: string, q: char, key: string) {
    && q in Quotes(pat)
    && KeyFits(pat, key)
    && exists w1, w2, w3 ::
         && AllWhitespace(w1) && AllWhitespace(w2) && AllWhitespace(w3)
         && s == CallText(pat.name, w1, w2, q, key, w3)
  }

  /** The end of the run of non-quote characters starting at `p`. */
  function SkipKeyChars(t: string, p: nat, quotes: set<char>): (r: nat)
    requires p <= |t|
    ensures p <= r <= |t|
    ensures forall k :: p <= k < r ==> t[k] !in quotes
    ensures r < |t| ==> t[r] in quotes
    decreases |t| - p
  {
    if p < |t| && t[p] !in quotes then SkipKeyChars(t, p + 1, quotes) else p
  }

  /** After the opening quote at `b`: the key, the closing quote, blanks and `)`. */
  function MatchRest(pat: CallPattern, t: string, i: nat, b: nat): (r: Option<Call>)
    requires b < |t| && t[b] in Quotes(pat)
    ensures r.Some? ==> r.value.start == i && r.value.quoteAt == b && r.value.quote == t[b]
    ensures r.Some? ==> KeyFits(pat, r.value.key)
    ensures r.Some? ==> b + |r.value.key| + 3 <= r.value.end <= |t|
    ensures r.Some? ==> t[b + 1..b + 1 + |r.value.key|] == r.value.key
    ensures r.Some? ==> t[b + 1 + |r.value.key|] == t[b]
    ensures r.Some? ==> t[r.value.end - 1] == ')'
    ensures r.Some? ==> forall k :: b + 2 + |r.value.key| <= k < r.value.end - 1 ==> IsWhitespace(t[k])
  {
    var q := t[b];
    var c := match pat
      case KeyCall(_, _) => SkipKeyChars(t, b + 1, Quotes(pat))
      case LiteralCall(_, lit) => if OccursAt(t, lit, b + 1) then b + 1 + |lit| else b;
    if c <= b || (pat.KeyCall? && c == b + 1) || c >= |t| || t[c] != q then None
    else
      var key := t[b + 1..c];
      assert pat.KeyCall? ==> forall k :: 0 <= k < |key| ==> key[k] == t[b + 1 + k];
      var d := SkipBlanks(t, c + 1);
      if d >= |t| || t[d] != ')' then None
      else Some(Call(i, b, q, key, d + 1))
  }

  /** One `exec` attempt at offset `i`. */
  function MatchAt(pat: CallPattern, t: string, i: nat): (r: Option<Call>)
    requires i <= |t|
    ensures r.Some? ==> r.value.start == i && i < r.value.end <= |t|
  {
    if !OccursAt(t, pat.name, i) then None
    else
      var a := SkipBlanks(t, i + |pat.name|);
      if a >= |t| || t[a] != '(' then None
      else
        var b := SkipBlanks(t, a + 1);
        if b >= |t| || t[b] !in Quotes(pat) then None
        else MatchRest(pat, t, i, b)
  }

  /** What a successful attempt has read: the name, blanks and `(` up to the opening quote, then the key. */
  lemma MatchAtReads(pat: CallPattern, t: string, c: Call)
    requires Found(pat, t, c)
    ensures OccursAt(t, pat.name, c.start)
    ensures c.start + |pat.name| < c.quoteAt
    ensures c.quoteAt + |c.key| + 3 <= c.end <= |t|
    ensures forall k :: c.start + |pat.name| <= k < c.quoteAt ==> t[k] == '(' || IsWhitespace(t[k])
    ensures c.quote in Quotes(pat) && t[c.quoteAt] == c.quote
    ensures KeyFits(pat, c.key)
    ensures t[c.quoteAt + 1..c.quoteAt + 1 + |c.key|] == c.key
    ensures t[c.quoteAt + 1 + |c.key|] == c.quote
    ensures t[c.end - 1] == ')'
    ensures forall k :: c.quoteAt + 2 + |c.key| <= k < c.end - 1 ==> IsWhitespace(t[k])
  {
  }

  /** `c` is what the attempt at its own start finds. */
  predicate Found(pat: CallPattern, t: string, c: Call) {
    c.start <= |t| && MatchAt(pat, t, c.start) == Some(c)
  }

  /** Offset `p` is the start of a reported call or lies strictly inside one. */
  ghost predicate Covered(calls: seq<Call>, p: nat) {
    exists k :: 0 <= k < |calls| && (calls[k].start == p || calls[k].start < p < calls[k].end)
  }

  /**
   * The global `exec` loop from offset `from`: each call is the match found
   * by the attempt at its start, and calls are in order and do not overlap.
   */
  function Scan(pat: CallPattern, t: string, from: nat): (calls: seq<Call>)
    requires from <= |t|
    ensures forall k :: 0 <= k < |calls| ==> from <= calls[k].start < calls[k].end <= |t|
    ensures forall k :: 0 <= k < |calls| - 1 ==> calls[k].end <= calls[k + 1].start
    decreases |t| - from
  {
    if from == |t| then []
    else
      match MatchAt(pat, t, from)
      case Some(c) =>
        var rest := Scan(pat, t, c.end);
        assert forall k :: 0 < k < |[c] + rest| ==> ([c] + rest)[k] == rest[k - 1];
        [c] + rest
      case None =>
        Scan(pat, t, from + 1)
  }

  /** Each call of the exec loop is the match found by the attempt at its start. */
  lemma {:induction false} ScanFound(pat: CallPattern, t: string, from: nat)
    requires from <= |t|
    ensures forall k :: 0 <= k < |Scan(pat, t, from)| ==> Found(pat, t, Scan(pat, t, from)[k])
    decreases |t| - from
  {
    if from < |t| {
      var m := MatchAt(pat, t, from);
      if m.Some? {
        ScanFound(pat, t, m.value.end);
        FoundCons(pat, t, m.value, Scan(pat, t, m.value.end));
      } else {
        ScanFound(pat, t, from + 1);
      }
    }
  }

  /** A found call in front of found calls. */
  lemma FoundCons(pat: CallPattern, t: string, c: Call, rest: seq<Call>)
    requires Found(pat, t, c)
    requires forall k :: 0 <= k < |rest| ==> Found(pat, t, rest[k])
    ensures forall k :: 0 <= k < |[c] + rest| ==> Found(pat, t, ([c] + rest)[k])
  {
    AllCons((x: Call) => Found(pat, t, x), c, rest);
  }

  /** A property of the head and of every element of the tail holds of every element. */
  lemma AllCons<T>(p: T -> bool, c: T, rest: seq<T>)
    requires p(c)
    requires forall k :: 0 <= k < |rest| ==> p(rest[k])
    ensures forall k :: 0 <= k < |[c] + rest| ==> p(([c] + rest)[k])
  {
    forall k | 0 <= k < |[c] + rest|
      ensures p(([c] + rest)[k])
    {
      if k > 0 {
        assert ([c] + rest)[k] == rest[k - 1];
      }
    }
  }

  /**
   * The exec loop skips nothing: every offset from `from` on where an attempt
   * would succeed is the start of a reported call or lies inside one.
   */
  lemma {:induction false} ScanIsLeftmost(pat: CallPattern, t: string, from: nat, p: nat)
    requires from <= p <= |t| && MatchAt(pat, t, p).Some?
    ensures Covered(Scan(pat, t, from), p)
    decreases |t| - from
  {
    if from < |t| {
      var m := MatchAt(pat, t, from);
      if m.Some? {
        var c := m.value;
        var rest := Scan(pat, t, c.end);
        assert Scan(pat, t, from) == [c] + rest;
        if c.end <= p {
          ScanIsLeftmost(pat, t, c.end, p);
          CoveredCons(c, rest, p);
        } else {
          CoveredHead(c, rest, p);
        }
      } else {
        assert p != from;
        ScanIsLeftmost(pat, t, from + 1, p);
      }
    }
  }

  /** An offset from a call's start up to its end is covered by that call. */
  lemma CoveredHead(c: Call, rest: seq<Call>, p: nat)
    requires c.start <= p < c.end
    ensures Covered([c] + rest, p)
  {
    assert ([c] + rest)[0] == c;
  }

  /** Covering survives putting a call in front. */
  lemma CoveredCons(c: Call, rest: seq<Call>, p: nat)
    requires Covered(rest, p)
    ensures Covered([c] + rest, p)
  {
    var k :| 0 <= k < |rest| && (rest[k].start == p || rest[k].start < p < rest[k].end);
    assert ([c] + rest)[k + 1] == rest[k];
  }

  /** The calls of the exec loop over a whole text. */
  function Calls(pat: CallPattern, t: string): seq<Call> {
    Scan(pat, t, 0)
  }

  /** A captured key holds no quote character of its pattern. */
  lemma CapturedKeyIsQuoteFree(name: string, backtick: bool, key: string)
    requires KeyFits(KeyCall(name, backtick), key)
    ensures |key| > 0 && '\'' !in key && '"' !in key
    ensures backtick ==> '`' !in key
  {
    var quotes := Quotes(KeyCall(name, backtick));
    assert forall k :: 0 <= k < |key| ==> key[k] !in quotes;
    assert '\'' in quotes && '"' in quotes;
    assert backtick ==> '`' in quotes;
  }

  /** The keys of a list of calls, in order. */
  function KeysOf(calls: seq<Call>): (keys: seq<string>)
    ensures |keys| == |calls|
    ensures forall k :: 0 <= k < |calls| ==> keys[k] == calls[k].key
  {
    seq(|calls|, k requires 0 <= k < |calls| => calls[k].key)
  }

  /** The captured keys of a text, in order (`match[2]` of each exec). */
  function CapturedKeys(name: string, backtick: bool, t: string): (keys: seq<string>)
    ensures |keys| == |Calls(KeyCall(name, backtick), t)|
    ensures forall k :: 0 <= k < |keys| ==> keys[k] == Calls(KeyCall(name, backtick), t)[k].key
    ensures forall k :: 0 <= k < |keys| ==> |keys[k]| > 0
    ensures forall k :: 0 <= k < |keys| ==> '\'' !in keys[k] && '"' !in keys[k]
    ensures backtick ==> forall k :: 0 <= k < |keys| ==> '`' !in keys[k]
  {
    var pat := KeyCall(name, backtick);
    var calls := Calls(pat, t);
    ScanFound(pat, t, 0);
    var keys := KeysOf(calls);
    assert forall k :: 0 <= k < |keys| ==>
      |keys[k]| > 0 && '\'' !in keys[k] && '"' !in keys[k] && (backtick ==> '`' !in keys[k]) by {
      forall k | 0 <= k < |keys|
        ensures |keys[k]| > 0 && '\'' !in keys[k] && '"' !in keys[k] && (backtick ==> '`' !in keys[k])
      {
        MatchAtReads(pat, t, calls[k]);
        CapturedKeyIsQuoteFree(name, backtick, calls[k].key);
      }
    }
    keys
  }

  /**
   * `match.index + match[0].indexOf(match[1] + key)`: where the code looks for
   * the opening quote of a reported call.
   */
  function QuoteOffset(t: string, c: Call): int
    requires c.start <= c.end <= |t|
  {
    c.start + IndexOf(t[c.start..c.end], [c.quote] + c.key)
  }

  /**
   * When the method name holds no quote character, the search for the
   * opening quote finds the real one: nothing before it in the call text is
   * a quote.
   */
  lemma QuoteOffsetIsOpeningQuote(pat: CallPattern, t: string, c: Call)
    requires Found(pat, t, c)
    requires forall k :: 0 <= k < |pat.name| ==> pat.name[k] !in Quotes(pat)
    ensures QuoteOffset(t, c) == c.quoteAt
    ensures t[QuoteOffset(t, c)] == c.quote
    ensures t[QuoteOffset(t, c) + 1..QuoteOffset(t, c) + 1 + |c.key|] == c.key
  {
    MatchAtReads(pat, t, c);
    forall k | c.start <= k < c.quoteAt
      ensures t[k] != c.quote
    {
      NotQuoteBeforeOpening(pat, t, c, k);
    }
    QuoteSearch(t, c);
  }

  /** The search finds a quote-and-key that no earlier copy of the quote precedes. */
  lemma QuoteSearch(t: string, c: Call)
    requires c.start <= c.quoteAt && c.quoteAt + 1 + |c.key| <= c.end <= |t|
    requires t[c.quoteAt] == c.quote
    requires t[c.quoteAt + 1..c.quoteAt + 1 + |c.key|] == c.key
    requires forall k :: c.start <= k < c.quoteAt ==> t[k] != c.quote
    ensures QuoteOffset(t, c) == c.quoteAt
  {
    var s := t[c.start..c.end];
    var needle := [c.quote] + c.key;
    var off := c.quoteAt - c.start;
    assert OccursAt(s, needle, off) by {
      assert s[off..off + |needle|] == t[c.quoteAt..c.quoteAt + 1 + |c.key|];
      assert t[c.quoteAt..c.quoteAt + 1 + |c.key|] == [c.quote] + t[c.quoteAt + 1..c.quoteAt + 1 + |c.key|];
    }
    forall j: nat | j < off
      ensures s[j] != needle[0]
    {
      assert s[j] == t[c.start + j];
    }
    FirstOccurrence(s, needle, off);
  }

  /** Inside a call, every character before the opening quote is a name character, a blank or `(`: none is a quote. */
  lemma NotQuoteBeforeOpening(pat: CallPattern, t: string, c: Call, k: nat)
    requires Found(pat, t, c)
    requires forall k :: 0 <= k < |pat.name| ==> pat.name[k] !in Quotes(pat)
    requires c.start <= k < c.quoteAt
    ensures t[k] != c.quote
  {
    MatchAtReads(pat, t, c);
    if k < c.start + |pat.name| {
      assert t[c.start..c.start + |pat.name|] == pat.name;
      assert t[k] == pat.name[k - c.start];
    } else {
      assert t[k] == '(' || IsWhitespace(t[k]);
    }
  }

  /** A quote-free run that stops at a quote is exactly what `SkipKeyChars` skips. */
  lemma SkipKeyCharsExact(t: string, p: nat, q: nat, quotes: set<char>)
    requires p <= q < |t|
    requires forall k :: p <= k < q ==> t[k] !in quotes
    requires t[q] in quotes
    ensures SkipKeyChars(t, p, quotes) == q
  {
  }

  /** Where each piece of a call text sits. */
  lemma CallTextLayout(name: string, w1: string, w2: string, q: char, key: string, w3: string)
    ensures var s := CallText(name, w1, w2, q, key, w3);
      var a := |name| + |w1|;
      var b := a + 1 + |w2|;
      var c := b + 1 + |key|;
      var d := c + 1 + |w3|;
      && |s| == d + 1
      && s[..|name|] == name
      && (forall k :: 0 <= k < |w1| ==> s[|name| + k] == w1[k])
      && s[a] == '('
      && (forall k :: 0 <= k < |w2| ==> s[a + 1 + k] == w2[k])
      && s[b] == q
      && s[b + 1..c] == key
      && s[c] == q
      && (forall k :: 0 <= k < |w3| ==> s[c + 1 + k] == w3[k])
      && s[d] == ')'
  {
  }

  /** Matching text is what the attempt reads: the rest of a call after its opening quote. */
  lemma MatchRestComplete(pat: CallPattern, t: string, i: nat, b: nat, key: string, e: nat)
    requires b < |t| && t[b] in Quotes(pat)
    requires KeyFits(pat, key)
    requires b + |key| + 3 <= e <= |t|
    requires t[b + 1..b + 1 + |key|] == key
    requires t[b + 1 + |key|] == t[b]
    requires forall k :: b + 2 + |key| <= k < e - 1 ==> IsWhitespace(t[k])
    requires t[e - 1] == ')'
    ensures MatchRest(pat, t, i, b) == Some(Call(i, b, t[b], key, e))
  {
    var c := b + 1 + |key|;
    if pat.KeyCall? {
      forall k | b + 1 <= k < c
        ensures t[k] !in Quotes(pat)
      {
        assert t[k] == key[k - b - 1];
      }
      SkipKeyCharsExact(t, b + 1, c, Quotes(pat));
    } else {
      assert OccursAt(t, pat.key, b + 1);
    }
    SkipBlanksExact(t, c + 1, e - 1);
  }

  /** A text slice that is `p + rest` has `p` at its front and `rest` after it. */
  lemma Peel(t: string, i: nat, e: nat, p: string, rest: string)
    requires i <= e <= |t| && t[i..e] == p + rest
    ensures i + |p| <= e && t[i..i + |p|] == p && t[i + |p|..e] == rest
  {
    assert t[i..i + |p|] == (p + rest)[..|p|];
    assert t[i + |p|..e] == (p + rest)[|p|..];
  }

  /** A blank slice is blank at every offset. */
  lemma BlankSlice(t: string, i: nat, j: nat)
    requires i <= j <= |t| && AllWhitespace(t[i..j])
    ensures forall k :: i <= k < j ==> IsWhitespace(t[k])
  {
    forall k | i <= k < j
      ensures IsWhitespace(t[k])
    {
      assert t[k] == t[i..j][k - i];
    }
  }

  /** The front of a call: the name, blanks, `(` and blanks before the opening quote. */
  lemma CallFront(name: string, t: string, i: nat, e: nat, w1: string, w2: string, rest: string)
    returns (a: nat, b: nat)
    requires i <= e <= |t|
    requires AllWhitespace(w1) && AllWhitespace(w2)
    requires t[i..e] == name + (w1 + ("(" + (w2 + rest)))
    ensures OccursAt(t, name, i)
    ensures a == i + |name| + |w1| && b == a + 1 + |w2| && b + |rest| == e
    ensures forall k :: i + |name| <= k < a ==> IsWhitespace(t[k])
    ensures t[a] == '('
    ensures forall k :: a + 1 <= k < b ==> IsWhitespace(t[k])
    ensures t[b..e] == rest
  {
    var n := |name|;
    Peel(t, i, e, name, w1 + ("(" + (w2 + rest)));
    Peel(t, i + n, e, w1, "(" + (w2 + rest));
    a := i + n + |w1|;
    BlankSlice(t, i + n, a);
    Peel(t, a, e, "(", w2 + rest);
    assert t[a] == t[a..a + 1][0];
    Peel(t, a + 1, e, w2, rest);
    b := a + 1 + |w2|;
    BlankSlice(t, a + 1, b);
  }

  /** The back of a call: the quoted key, blanks and `)`. */
  lemma CallBack(t: string, b: nat, e: nat, q: char, key: string, w3: string)
    requires b <= e <= |t|
    requires AllWhitespace(w3)
    requires t[b..e] == [q] + (key + ([q] + (w3 + ")")))
    ensures b + |key| + 3 <= e
    ensures t[b] == q
    ensures t[b + 1..b + 1 + |key|] == key
    ensures t[b + 1 + |key|] == q
    ensures forall k :: b + 2 + |key| <= k < e - 1 ==> IsWhitespace(t[k])
    ensures t[e - 1] == ')'
  {
    Peel(t, b, e, [q], key + ([q] + (w3 + ")")));
    assert t[b] == t[b..b + 1][0];
    Peel(t, b + 1, e, key, [q] + (w3 + ")"));
    var c := b + 1 + |key|;
    Peel(t, c, e, [q], w3 + ")");
    assert t[c] == t[c..c + 1][0];
    Peel(t, c + 1, e, w3, ")");
    BlankSlice(t, c + 1, e - 1);
    assert t[e - 1] == t[e - 1..e][0];
  }

  /** An attempt at `i` over the front of a call goes on to read the rest after the quote at `b`. */
  lemma MatchAtReachesQuote(pat: CallPattern, t: string, i: nat, a: nat, b: nat)
    requires OccursAt(t, pat.name, i)
    requires i + |pat.name| <= a < b < |t|
    requires forall k :: i + |pat.name| <= k < a ==> IsWhitespace(t[k])
    requires t[a] == '('
    requires forall k :: a + 1 <= k < b ==> IsWhitespace(t[k])
    requires t[b] in Quotes(pat)
    ensures MatchAt(pat, t, i) == MatchRest(pat, t, i, b)
  {
    SkipBlanksExact(t, i + |pat.name|, a);
    SkipBlanksExact(t, a + 1, b);
  }

  /** An attempt at `i` reads a call laid out with its `(` at `a` and opening quote at `b`. */
  lemma MatchAtFromPieces(pat: CallPattern, t: string, i: nat, a: nat, b: nat, key: string, e: nat)
    requires OccursAt(t, pat.name, i)
    requires i + |pat.name| <= a && a + 1 <= b && b + |key| + 3 <= e <= |t|
    requires forall k :: i + |pat.name| <= k < a ==> IsWhitespace(t[k])
    requires t[a] == '('
    requires forall k :: a + 1 <= k < b ==> IsWhitespace(t[k])
    requires t[b] in Quotes(pat) && KeyFits(pat, key)
    requires t[b + 1..b + 1 + |key|] == key
    requires t[b + 1 + |key|] == t[b]
    requires forall k :: b + 2 + |key| <= k < e - 1 ==> IsWhitespace(t[k])
    requires t[e - 1] == ')'
    ensures MatchAt(pat, t, i) == Some(Call(i, b, t[b], key, e))
  {
    MatchAtReachesQuote(pat, t, i, a, b);
    MatchRestComplete(pat, t, i, b, key, e);
  }

  /**
   * Every whole call at offset `i` is found by the attempt there, with the
   * same quote, key and end: the attempt misses no text the regex matches.
   */
  lemma MatchAtComplete(pat: CallPattern, t: string, i: nat, e: nat, q: char, key: string)
    requires i <= e <= |t|
    requires IsCall(pat, t[i..e], q, key)
    ensures MatchAt(pat, t, i).Some?
    ensures MatchAt(pat, t, i).value.quote == q
    ensures MatchAt(pat, t, i).value.key == key
    ensures MatchAt(pat, t, i).value.end == e
  {
    var w1, w2, w3 :| && AllWhitespace(w1) && AllWhitespace(w2) && AllWhitespace(w3)
      && t[i..e] == CallText(pat.name, w1, w2, q, key, w3);
    var a, b := CallFront(pat.name, t, i, e, w1, w2, [q] + (key + ([q] + (w3 + ")"))));
    CallBack(t, b, e, q, key, w3);
    MatchAtFromPieces(pat, t, i, a, b, key, e);
  }

  /** Two adjacent slices make up the slice across both. */
  lemma Glue(t: string, i: nat, j: nat, e: nat, p: string, rest: string)
    requires i <= j <= e <= |t| && t[i..j] == p && t[j..e] == rest
    ensures t[i..e] == p + rest
  {
    assert t[i..e] == t[i..j] + t[j..e];
  }

  /** A slice blank at every offset is blank. */
  lemma BlankRun(t: string, i: nat, j: nat)
    requires i <= j <= |t|
    requires forall k :: i <= k < j ==> IsWhitespace(t[k])
    ensures AllWhitespace(t[i..j])
  {
    forall k | 0 <= k < j - i
      ensures IsWhitespace(t[i..j][k])
    {
      assert t[i..j][k] == t[i + k];
    }
  }

  /** Where an attempt found its `(`: blanks on both sides, the name before. */
  lemma MatchAtShape(pat: CallPattern, t: string, c: Call) returns (a: nat)
    requires Found(pat, t, c)
    ensures c.start + |pat.name| <= a < c.quoteAt
    ensures forall k :: c.start + |pat.name| <= k < a ==> IsWhitespace(t[k])
    ensures t[a] == '('
    ensures forall k :: a + 1 <= k < c.quoteAt ==> IsWhitespace(t[k])
  {
    a := SkipBlanks(t, c.start + |pat.name|);
  }

  /** The text of a call from its opening quote: quote, key, quote, blanks and `)`. */
  lemma CallBackText(t: string, b: nat, e: nat, key: string)
    requires b + |key| + 3 <= e <= |t|
    requires t[b + 1..b + 1 + |key|] == key
    requires t[b + 1 + |key|] == t[b]
    requires forall k :: b + 2 + |key| <= k < e - 1 ==> IsWhitespace(t[k])
    requires t[e - 1] == ')'
    ensures AllWhitespace(t[b + 2 + |key|..e - 1])
    ensures t[b..e] == [t[b]] + (key + ([t[b]] + (t[b + 2 + |key|..e - 1] + ")")))
  {
    var c := b + 1 + |key|;
    var w3 := t[c + 1..e - 1];
    BlankRun(t, c + 1, e - 1);
    assert t[e - 1..e] == ")";
    Glue(t, c + 1, e - 1, e, w3, ")");
    assert t[c..c + 1] == [t[b]];
    Glue(t, c, c + 1, e, [t[b]], w3 + ")");
    Glue(t, b + 1, c, e, key, [t[b]] + (w3 + ")"));
    assert t[b..b + 1] == [t[b]];
    Glue(t, b, b + 1, e, [t[b]], key + ([t[b]] + (w3 + ")")));
  }

  /** The text of a call up to its opening quote: name, blanks, `(` and blanks. */
  lemma CallFrontText(name: string, t: string, i: nat, a: nat, b: nat, e: nat)
    requires OccursAt(t, name, i)
    requires i + |name| <= a < b <= e <= |t|
    requires forall k :: i + |name| <= k < a ==> IsWhitespace(t[k])
    requires t[a] == '('
    requires forall k :: a + 1 <= k < b ==> IsWhitespace(t[k])
    ensures AllWhitespace(t[i + |name|..a]) && AllWhitespace(t[a + 1..b])
    ensures t[i..e] == name + (t[i + |name|..a] + ("(" + (t[a + 1..b] + t[b..e])))
  {
    var n := |name|;
    BlankRun(t, i + n, a);
    BlankRun(t, a + 1, b);
    Glue(t, a + 1, b, e, t[a + 1..b], t[b..e]);
    assert t[a..a + 1] == "(";
    Glue(t, a, a + 1, e, "(", t[a + 1..b] + t[b..e]);
    Glue(t, i + n, a, e, t[i + n..a], "(" + (t[a + 1..b] + t[b..e]));
    Glue(t, i, i + n, e, name, t[i + n..a] + ("(" + (t[a + 1..b] + t[b..e])));
  }

  /** Text laid out as a call, with its `(` at `a` and opening quote at `b`, is in the regex language. */
  lemma PiecesAreCall(pat: CallPattern, t: string, i: nat, a: nat, b: nat, key: string, e: nat)
    requires OccursAt(t, pat.name, i)
    requires i + |pat.name| <= a < b && b + |key| + 3 <= e <= |t|
    requires forall k :: i + |pat.name| <= k < a ==> IsWhitespace(t[k])
    requires t[a] == '('
    requires forall k :: a + 1 <= k < b ==> IsWhitespace(t[k])
    requires t[b] in Quotes(pat) && KeyFits(pat, key)
    requires t[b + 1..b + 1 + |key|] == key
    requires t[b + 1 + |key|] == t[b]
    requires forall k :: b + 2 + |key| <= k < e - 1 ==> IsWhitespace(t[k])
    requires t[e - 1] == ')'
    ensures IsCall(pat, t[i..e], t[b], key)
  {
    CallBackText(t, b, e, key);
    CallFrontText(pat.name, t, i, a, b, e);
    var w1 := t[i + |pat.name|..a];
    var w2 := t[a + 1..b];
    var w3 := t[b + 2 + |key|..e - 1];
    assert t[i..e] == CallText(pat.name, w1, w2, t[b], key, w3);
  }

  /** Every call the attempt finds is text of the regex language, with the quote and key it reports. */
  lemma MatchAtSound(pat: CallPattern, t: string, c: Call)
    requires Found(pat, t, c)
    ensures c.start <= c.end <= |t|
    ensures IsCall(pat, t[c.start..c.end], c.quote, c.key)
  {
    MatchAtReads(pat, t, c);
    var a := MatchAtShape(pat, t, c);
    PiecesAreCall(pat, t, c.start, a, c.quoteAt, c.key, c.end);
  }

  /** The exec loop over a whole text reports or overlaps every call text in it. */
  lemma CallsCoverEveryCall(pat: CallPattern, t: string, i: nat, e: nat, q: char, key: string)
    requires i <= e <= |t|
    requires IsCall(pat, t[i..e], q, key)
    ensures Covered(Calls(pat, t), i)
  {
    MatchAtComplete(pat, t, i, e, q, key);
    ScanIsLeftmost(pat, t, 0, i);
  }
}
