# json-key-checker, modelled in Dafny

json-key-checker is a VS Code extension. It cross-checks the string keys that source code passes to configured methods (`t('home.title')`, `i18n.get("x")`) against the keys of JSON resource files. A rule in the `jsonKeyChecker.patterns` setting names:

- JSON file specifiers;
- source file extensions;
- method names;
- optional scan folders.

The project models the pure logic of the extension as Dafny functions over immutable data. The editor, the file system and `JSON.parse` become parameters. Modules, one per file, follow the program:

| module | file | models |
|---|---|---|
| `Strings` | strings.dfy | JavaScript `indexOf`, `lastIndexOf`, `split`, `join`, `\s`, ASCII `toLowerCase` |
| `Collections` | collections.dfy | `Option`, duplicate-free lists, a JavaScript `Set` as first-insertion-order dedup |
| `JsonValue` | json_value.dfy | parsed JSON values, `for...in` / `Object.keys` on them |
| `Flatten` | flatten.dfy | `flattenJsonKeys` (src/utils.ts) |
| `Rules` | rules.dfy | rule selection in `updateDiagnostics`, the source-file glob |
| `Scanner` | scanner.dfy | the `method\s*\(\s*(['"])…\1\s*\)` regexes run as a global `exec` loop |
| `Positions` | positions.dfy | the `"key"\s*:` line search and its column range |
| `Diagnostics` | diagnostics.dfy | `updateDiagnostics`, the unused-key and missing-key checks |
| `Completion` | completion.dfy | `JsonKeyCompletionProvider` |
| `Definition` | definition.dfy | `JsonKeyDefinitionProvider` |
| `References` | references.dfy | `JsonKeyReferenceProvider` |

Method patterns are treated as literal names, so every regex built from one is deterministic:

- A `\s*` run can only end at the first non-blank.
- A key class such as `[^'"]+` can only end at the first quote.

The scanner therefore reads one match attempt at an offset as a function, `Scanner.MatchAt`. It reads the global `exec` loop as a left-to-right scan that restarts after each match, `Scanner.Scan`. The scan is proved:

- sound against the regex language (`Scanner.IsCall`);
- complete: no call text is skipped.

## Model

| member | source | states |
|---|---|---|
| JsonValue.ObjectKeys | src/extension.ts:176 | `Object.keys` throws exactly on `null`. An object gives its property names in order. An array or string gives the decimal indices `"0"`…`"n-1"`. A boolean or number gives none. |
| Flatten.FlattenJsonKeys | src/utils.ts:3-23 | The result has no duplicates. A key is in it iff it is the dotted join, under the prefix, of a property-descent path of the input. Nothing else is added. |
| Flatten.EmptyObjects | src/utils.ts:6-19 | An empty object flattens to nothing. A nested empty object contributes only its own path. |
| Flatten.RootNamesKept | src/utils.ts:6-18 | With the empty prefix, every property name of the root appears unchanged among the keys. |
| Flatten.ObjectPropertyExpands | src/utils.ts:9-16 | An object-valued property's path is emitted. So is every key of its own flattening, which starts with that path and a dot when the path is non-empty. |
| Flatten.LeafHasNoDescendants | src/utils.ts:9-18 | An array, null or primitive property's path is emitted. No descent path goes below it. |
| Flatten.AncestorsEmitted | src/utils.ts:7-16 | If a segment path is emitted, so is every non-empty prefix of it. This is stated over segment sequences, since names may hold dots. |
| Flatten.UnderPrefix | src/utils.ts:7 | With a non-empty prefix, every key starts with the prefix and a dot. |
| Flatten.EmptyNameJoinsAsRoot | src/utils.ts:7 | The prefix test is a truthiness test. Below a property named "" the children get no leading dot: `{"": {"a": 1}}` gives "" and "a". |
| Flatten.KeySets | src/utils.ts:37-38 | Each loaded file keeps its path. Its key set is duplicate-free and holds exactly the flattened keys of its content. |
| Rules.JsonPass | src/extension.ts:72-85 | A rule is selected by the first pass iff one of its specifiers matches the file name. |
| Rules.WildcardTestIsUnanchored | src/extension.ts:74-76 | A specifier with `*` matches iff some substring of the name matches it as a whole, with `*` read as any run. |
| Rules.StarFreeGlob | src/extension.ts:74-79 | Without `*` the glob reading degenerates to equality, so such specifiers need the suffix test instead. |
| Rules.SourcePass | src/extension.ts:88-103 | A rule is selected by the fallback iff the lowercased text after the last dot is one of its extensions and one of its method names occurs in the text. |
| Rules.MatchRules | src/extension.ts:70-104 | When any rule matches by JSON specifier, exactly those rules are selected. Otherwise exactly the fallback's rules are. No rules select nothing. |
| Rules.RelevantJsonFiles | src/extension.ts:111-117 | The specifiers to load are exactly the union of the selected rules' `jsonFiles`, each once. |
| Rules.SourceGlobExtensions | src/extension.ts:190 | The brace list of `**/*.{…}` splits back into the extensions it was built from, when none holds a comma. |
| Scanner.Scan | src/extension.ts:202-205 | The reported calls lie in the text, in order, and do not overlap. |
| Scanner.ScanFound | src/extension.ts:202-205 | Every reported call is what a match attempt at its start offset finds. |
| Scanner.ScanIsLeftmost | src/extension.ts:202-205 | Every offset where an attempt would succeed is a reported start or lies inside a reported call. No match is skipped. |
| Scanner.MatchAtSound | src/extension.ts:185-188 | Every reported call text is in the regex language, with the quote and key reported. |
| Scanner.MatchAtComplete | src/extension.ts:185-188 | A text of the regex language at an offset is matched there, with the same quote, key and end. |
| Scanner.CallsCoverEveryCall | src/extension.ts:185-205 | Every call text anywhere in the file starts a reported call or lies inside one. |
| Scanner.CapturedKeyIsQuoteFree | src/extension.ts:186 | A captured key is non-empty and holds neither `'` nor `"`. The source-side pattern also excludes backticks. |
| Scanner.CapturedKeys | src/extension.ts:268-275 | There is one key per reported call, and the k-th key is the k-th call's captured key (`match[2]`). Each is non-empty, holds no `'` or `"`, and holds no backtick on the source side. |
| Scanner.QuoteOffsetIsOpeningQuote | src/extension.ts:280 | When the method name holds no quote, `indexOf(quote + key)` inside the match lands on the real opening quote, followed by the key. |
| Positions.KeyRange | src/extension.ts:221-224 | The range starts at the first `"key"` on the line and is `key.length + 2` wide. |
| Positions.MatchIsOccurrence | src/extension.ts:221-223 | A line the regex matches holds the quoted key, so the `indexOf` search is never -1. |
| Positions.LineMatchesIff | src/jsonKeyDefinitionProvider.ts:89 | The line test holds iff the line holds the quoted key, then blanks, then a colon. |
| Positions.FirstKeyLine | src/jsonKeyDefinitionProvider.ts:87-99 | The result is the first matching line with its key range. It is none iff no line matches. |
| Positions.FindKeyLocation | src/jsonKeyDefinitionProvider.ts:76-118 | The result lies on the first line matching `"leaf"\s*:`, with leaf the last dot-segment. It starts at the first `"leaf"` there and is the leaf's length plus two wide. It is none iff no line matches. |
| Positions.LocateByLeaf | src/jsonKeyDefinitionProvider.ts:83-114 | Locating a key gives the same result as locating its last segment, so the dotted and plain branches agree. |
| Diagnostics.UsedKeysMeaning | src/extension.ts:179-211 | A key is used iff some selected rule has a method call capturing it in some readable file its source glob finds. |
| Diagnostics.UnusedKeys | src/extension.ts:213 | The unused keys are exactly the document's top-level keys that are not used. |
| Diagnostics.UnusedKeysAppend | src/extension.ts:213 | The filter distributes over concatenation, so the original key order is kept. |
| Diagnostics.UnusedDiagnostics | src/extension.ts:217-240 | A warning exists iff it is for an unused key on a line where the line test holds, at that line's key range. Warnings come in line order. |
| Diagnostics.LineDiagnosticsInKeyOrder | src/extension.ts:219-238 | Within one line, the warnings follow the order of the unused keys. |
| Diagnostics.UnusedDiagnosticsOnce | src/extension.ts:217-240 | With distinct unused keys, no warning repeats, so each line and key pair gets exactly one. Warnings on one line follow the key order. |
| Diagnostics.CheckUnused | src/extension.ts:167-246 | Diagnostics are deleted iff the document does not parse or parses to null. Otherwise only unused-key warnings are published. |
| Diagnostics.CheckUnusedExact | src/extension.ts:173-242 | A warning is published iff it names a top-level key of the document that no selected rule uses, on a line declaring that key. |
| Diagnostics.AvailableKeys | src/extension.ts:259-262 | Collecting fails iff a loaded value is null. Otherwise the set holds exactly the top-level keys of the loaded values. |
| Diagnostics.MissingAt | src/extension.ts:280-281 | A missing-key error names the call's key and is the key's length plus two wide. |
| Diagnostics.MissingRangeIsQuotedKey | src/extension.ts:280-281 | With a quote-free method name, the error starts at the opening quote, ends just after the closing quote, and covers the key between. |
| Diagnostics.CheckMissing | src/extension.ts:248-305 | Diagnostics are deleted iff a loaded value is null. Otherwise only missing-key errors are published. |
| Diagnostics.CheckMissingExact | src/extension.ts:265-299 | An error is published iff it belongs to a selected rule's method call whose key is no top-level key of any loaded value. |
| Diagnostics.UpdateDiagnostics | src/extension.ts:55-135 | No rules, or no selected rule, delete the diagnostics. Otherwise a JSON document gets the unused-key check over the selected rules. A source document gets the missing-key check over the selected rules' loaded files. |
| Diagnostics.UpdateUnusedExact | src/extension.ts:121-125 | A JSON document that parses to a non-null value, under some selected rule, gets exactly the unused-key warnings that are due. |
| Diagnostics.UpdateMissingExact | src/extension.ts:111-133 | A source document under some selected rule, with no null among the loaded values, gets exactly the missing-key errors that are due. |
| Completion.TriggerFrom | src/jsonKeyCompletionProvider.ts:27-30 | The pattern matches the text before the cursor iff an attempt at some offset succeeds. The reported opening quote is that of such an attempt, and no quote follows it. |
| Completion.TriggerCapturesAfterLastQuote | src/jsonKeyCompletionProvider.ts:27-34 | Whichever attempt matches, the partial key is all the text after the last quote before the cursor, and holds no quote. |
| Completion.FindTrigger | src/jsonKeyCompletionProvider.ts:24-38 | The chosen rule is the first, in order, with a triggering method name. No earlier rule has one. The partial key is that of the rule's first triggering method name. There is none iff no rule has one. |
| Completion.FirstTriggerName | src/jsonKeyCompletionProvider.ts:25-36 | The partial key comes from the first triggering method name, in order. No earlier name triggers. There is none iff no name triggers. |
| Completion.FindTriggerNone | src/jsonKeyCompletionProvider.ts:24-40 | Nothing triggers iff no method name of any rule triggers. |
| Completion.AllKeys | src/jsonKeyCompletionProvider.ts:48-53 | Every flattened key of every loaded file appears once. |
| Completion.TopLevel | src/jsonKeyCompletionProvider.ts:56-62 | The suggestions are exactly the dot-free keys whose lowercase form starts with the lowercased partial key. |
| Completion.EmptyPartialOffersAllTopLevel | src/jsonKeyCompletionProvider.ts:56-62 | An empty partial key suggests every dot-free key. |
| Completion.ParentAndChildRejoin | src/jsonKeyCompletionProvider.ts:76-78 | The parent path, a dot and the child prefix make up the partial key, and the child prefix is dot-free. |
| Completion.Children | src/jsonKeyCompletionProvider.ts:80-86 | The nested labels are exactly the dot-free remainders, after `parentPath + "."`, that the child prefix prefixes case-insensitively. |
| Completion.ChildrenAreKeys | src/jsonKeyCompletionProvider.ts:80-83 | Each nested suggestion, put back under its parent path, is a loaded key. |
| Completion.CompletionItems | src/jsonKeyCompletionProvider.ts:43-97 | Insert text equals the label. Without a dot, the labels are exactly the matching top-level keys. |
| Completion.NestedItemsExact | src/jsonKeyCompletionProvider.ts:75-97 | With a dot, the labels are exactly the nested remainders. |
| Completion.ProvideCompletionItems | src/jsonKeyCompletionProvider.ts:13-41 | No rules, or no triggering method name, give no suggestions. Otherwise the suggestions are those for the first triggering rule's loaded files and its partial key. Every suggestion inserts its label. |
| Definition.KeyUnderCursor | src/jsonKeyDefinitionProvider.ts:25-44 | The key the cursor is on is non-empty and quote-free. |
| Definition.KeyUnderCursorIsFirstHit | src/jsonKeyDefinitionProvider.ts:31-43 | The key is that of the first call the cursor is on: inside the inclusive range from just after the opening quote for the key's length. It is none iff the cursor is on no call. |
| Definition.HitIsOnKeyText | src/jsonKeyDefinitionProvider.ts:33-41 | With a quote-free method name, the tested columns are the key's own text on the line, from just after the opening quote. |
| Definition.HitInNames | src/jsonKeyDefinitionProvider.ts:24-45 | The key comes from the first method name, in order, with a call under the cursor. No earlier name has one. There is none iff no name has one. |
| Definition.HitInRules | src/jsonKeyDefinitionProvider.ts:23-46 | The chosen rule is the first, in order, with a hit. No earlier rule has one. The key is that of the rule's first method name with a hit. |
| Definition.HitInRulesNone | src/jsonKeyDefinitionProvider.ts:23-46 | There is no hit iff no method name of any rule has a call under the cursor. |
| Definition.FindKeyDefinition | src/jsonKeyDefinitionProvider.ts:51-74 | The result is in the first loaded file, in load order, whose key set holds the key and whose text locates it. It is none iff no file does. |
| Definition.DefinitionPointsAtLeaf | src/jsonKeyDefinitionProvider.ts:58-98 | A definition is in a loaded file holding the key, on the first line matching `"leaf"\s*:`, at the first `"leaf"`, two columns wider than the leaf. |
| Definition.ProvideDefinition | src/jsonKeyDefinitionProvider.ts:5-49 | No rules, no word at the cursor, or no call under the cursor give nothing. A result comes only from a first hit. With a word at the cursor, the result is the first hit's key looked up in its rule's loaded files. |
| References.RuleOfJsonFile | src/jsonKeyReferenceProvider.ts:19-25 | The result is the first rule with a JSON specifier that is a suffix of the file name, with no wildcard reading. It is none iff no rule has one. |
| References.FirstLeaf | src/jsonKeyReferenceProvider.ts:38 | The match is the leftmost successful attempt. There is none iff no attempt succeeds. |
| References.LeafAtIff | src/jsonKeyReferenceProvider.ts:38 | An attempt captures `x` iff `x` is non-empty and free of `"`, and the quoted `x`, blanks and a colon sit at that offset. |
| References.FirstLeafIsLeftmost | src/jsonKeyReferenceProvider.ts:38 | No `"name"\s*:` of any other name starts before the one found. |
| References.FirstLeafIsKeyLine | src/jsonKeyReferenceProvider.ts:38-42 | The name found passes the position line test. The `indexOf` start lies at or before a match of it. |
| References.KeyAtPosition | src/jsonKeyReferenceProvider.ts:31-50 | A key is detected iff the line has a match and the cursor lies in the inclusive `[start, start + len + 2]`. The key is non-empty and ends with the name, and it is exactly the full key path of the name in the parsed document (`FullKeyPath`). |
| References.FullKeyPath | src/jsonKeyReferenceProvider.ts:52-76 | The result is the leaf or a flattened key whose last segment is the leaf. It is the leaf when no key qualifies or the text does not parse. |
| References.FullKeyPathIsFirst | src/jsonKeyReferenceProvider.ts:66-72 | The first flattened key whose last segment is the leaf is the result, when it is non-empty. |
| References.FullPathEndsWithLeaf | src/jsonKeyReferenceProvider.ts:66-72 | The full path ends with the leaf, after a dot when it is longer. |
| References.SearchPatterns | src/jsonKeyReferenceProvider.ts:85-91 | There is one pattern per scan folder, the folder then the source glob, or the bare glob when there are no folders. |
| References.SearchPatternsReadBack | src/jsonKeyReferenceProvider.ts:85-91 | Every pattern's brace list splits back into the rule's extensions. |
| References.ReferenceFiles | src/jsonKeyReferenceProvider.ts:93-105 | The searched files are duplicate-free and are exactly the files some pattern finds. |
| References.EscapeIsLiteral | src/jsonKeyReferenceProvider.ts:116-118 | The escaped key, read as a regex source, denotes exactly the key. Removing the inserted backslashes recovers it. |
| References.LiteralTextIsEscape | src/jsonKeyReferenceProvider.ts:116-118 | The escape is the only plain-or-escaped regex source for its text. |
| References.FileReferences | src/jsonKeyReferenceProvider.ts:113-131 | There is a reference exactly for each call of each method name with the key, spanning the whole call text. |
| References.FindKeyReferences | src/jsonKeyReferenceProvider.ts:78-138 | The references are exactly those of every searched file that opens. Unreadable files are skipped. |
| References.ProvideReferences | src/jsonKeyReferenceProvider.ts:4-29 | No rules, no key under the cursor, or no owning rule give nothing. Otherwise there is a result, and it is the owning rule's references for the full key path. |
| References.ReferenceIsCall | src/jsonKeyReferenceProvider.ts:114-128 | Every reference spans a whole call of the key with one of the rule's method names. |
| References.EveryCallIsReferenced | src/jsonKeyReferenceProvider.ts:123-130 | Every call of the key in a file starts a reference or lies inside one. |

## Left out

- File search, file reading, `openTextDocument` and `loadJsonFiles` are I/O. Their results are parameters:
  - `find` for `findFiles`, including its `node_modules` exclusion;
  - `read` and `open`;
  - `load`, for the loaded path/value list in map order.
- `loadJsonFiles` catches errors per specifier, not per file, so one bad file drops the rest of its specifier. This lives inside the `load` parameter and is not modelled.
- `JSON.parse` is not modelled. The parsed value, or its failure, is an `Option<Json>` given to the model.
- `for...in` puts integer-like names first. This reordering is not modelled: object members enumerate in insertion order.
- Method patterns are arbitrary regexes in the extension, and a bad one throws when compiled. The model treats each as a literal name. JSON specifiers with `*` are read as wildcards.
  - Other regex metacharacters in specifiers are not modelled.
  - The unused-key line test and the definition lookup's line tests both splice a key into a regex. Both are modelled as literal keys (src/extension.ts:221, src/jsonKeyDefinitionProvider.ts:89 and 104). So for a key such as `what?`, the model finds `"what?":` where the extension does not. A key that is not a valid regex source, such as `a(b`, makes the regex constructor throw. In the unused-key check, the catch at src/extension.ts:243-244 then deletes every diagnostic of the document where the model publishes warnings. In the definition provider the same throw rejects the request where the model returns a location.
- Async ordering, concurrent diagnostic updates, and the `activate` and command plumbing are left out. So are messages, severities, logging and the `DiagnosticCollection` object. A diagnostic keeps only its range and key.
- `positionAt` and `offsetAt` are not modelled. Ranges stay offsets in a text (missing keys, references) or (line, column) pairs (unused keys, definitions).
- Case folding beyond ASCII is not modelled: `toLowerCase` lowers only `A`–`Z`.
- UTF-16 is not modelled. A Dafny `char` is one Unicode scalar value, while JavaScript counts UTF-16 code units. So columns, offsets and string indices differ after any character outside the Basic Multilingual Plane. This affects `Positions.KeyRange`, `Definition.OnKey`, `Diagnostics.MissingAt`, the reference spans, and the string indices of `JsonValue.Members`.
- `getWordRangeAtPosition` is the boolean `onWord` parameter of `Definition.ProvideDefinition`.
- An `openTextDocument` failure inside `findKeyDefinition` rejects the provider. It is left out: `open` there is total.
- The missing-key check uses only the scanned document. It does not read `scanFolders`, and neither does the unused-key check's source glob. Both follow the code.
- The unused check takes `Object.keys` of the document only. Keys nested below the top level are not expanded, as in the code.
- `Definition.KeyUnderCursorIsFirstHit`: the cursor test uses the column that `indexOf(quote + key)` finds inside the match. That is the real key only when the method name holds no quote (`Definition.HitIsOnKeyText`).
- `References.KeyAtPosition`: the start column is the first `"name"` on the line. It may lie before the `"name":` the regex matched. The model keeps the code's column and proves only that it lies at or before a match (`References.FirstLeafIsKeyLine`).
