# csproj-extensions: property completions and emoji diagnostics in Dafny

This project models the text-scanning core of the `csproj-extensions` VS Code
extension and proves properties of it. The core has four parts.

- `getParameters` removes the `\n` characters from an MSBuild properties file. It then finds the first
  `<PropertyGroup>…</PropertyGroup>` block and reads every `<A>B</C>` element inside it as a parameter
  `{ name: A, value: B }`.
- The `xml` completion provider scans a project document for `<Import Project="P" />`. It joins each `P`
  with the document's directory and reads the files in order. The first file that can be read decides
  the result: one completion item per parameter (label `name`, snippet `$(name)`, commit character `$`,
  a documentation line), then a fixed `console` item. When no import can be read, the list is empty.
- The `plaintext` provider offers `log`, `warn` and `error` when the text before the cursor ends with
  `console.`.
- `refreshDiagnostics` gives every line that mentions `emoji` one information diagnostic. The diagnostic
  covers the first mention on that line. The document's entry in the diagnostic collection is then
  replaced.

The extension finds everything with three fixed JavaScript regular expressions, so the model implements
each one as an explicit scanner with JavaScript's semantics:

- `.` does not match `\n`, `\r`, U+2028 or U+2029.
- A lazy `(.+?)` picks, at a given start, the match with the lexicographically least group lengths.
- `exec` with the `g` flag returns the leftmost match at or after `lastIndex`, and the loop resumes at that
  match's end.

Files:

- `text.dfy` (`Text`) holds `includes`, `indexOf` and `endsWith`.
- `regex.dfy` has three modules:
  - `Regex`: the scanners, `exec` and the `g`-flag loop.
  - `RegexFacts`: what the scanners read back.
  - `DelimitedFacts`: what text appended after a match leaves unchanged.
- `properties.dfy` (`Properties`) models `getParameters`.
- `completions.dfy` (`Completions`) models both completion providers.
- `diagnostics.dfy` (`Diagnostics`) models `createDiagnostic`, `refreshDiagnostics` and the diagnostic
  collection.

The loops of the source stay loops in the model:

- `Properties.GetParameters`
- `Completions.ProvideXmlCompletions`
- `Completions.PushParameterItems`
- `Diagnostics.RefreshDiagnostics`

Each is proved equal to a specification function, and the lemmas state what the source promises about
that function.

## Behaviour worth noting

- Only `\n` is removed before matching. A `\r` stays in the text, and `.` does not match it. A
  `<PropertyGroup>` that is followed by a line terminator before the next `</PropertyGroup>` therefore
  does not match where it starts (`Properties.BreakBeforeClose`). When that holds for every
  `<PropertyGroup>`, as in a file with Windows line ends whose groups each span several lines, no
  parameters are found (`Properties.CarriageReturnHidesGroups`).
- The closing tag of a parameter is captured but never compared with the opening one. `<A>v</B>` declares
  `A` with value `v` (`Properties.MismatchedCloseIgnored`).
- The group body ends at the first `</PropertyGroup>` that comes after at least one code unit of body,
  and an element whose closing name is `PropertyGroup` ends it early (`Properties.FirstGroupBody`
  assumes the body has none).
- `(.+?)` needs at least one code unit, so an empty group does not end at its own close tag.
  `<PropertyGroup></PropertyGroup>` runs on to the next `</PropertyGroup>` on the line and captures the
  first close tag as its body (`Properties.EmptyGroupRunsOn`). Because `\n` is removed first, a group
  written as `<PropertyGroup>` and `</PropertyGroup>` on two lines is empty in this sense.
- The import pattern needs the literal `" />` with one space, on the same line as the path
  (`Completions.ImportNeedsSpacedClose`).

## Model

| member | source | states |
|---|---|---|
| Text.Includes | src/diagnostics.ts:19 | `includes(lit)` holds exactly when the line is some text, then the literal, then some text |
| Text.EndsWith | src/extension.ts:200 | `endsWith(suffix)` holds exactly when the text is some text followed by the suffix |
| Text.IndexOf | src/diagnostics.ts:33 | `indexOf` gives the first occurrence of the literal, or exactly -1 when the line does not include it |
| Regex.LazyNameFrom | src/extension.ts:21 | the search for `(.+?)>(.+?)<\/(.+?)>` finds the lexicographically least group lengths that fit, and finds none only when none fit |
| Regex.ExecAt | src/extension.ts:9-21 | at one start, each of the three patterns (the property group at line 9, the element at line 21, the import at line 63) yields a match exactly when it matches there. The match is the lazy one, ends after its start, has one capture per group, and every capture is non-empty and on one line |
| Regex.Exec | src/extension.ts:13 | `exec` returns the leftmost match at or after `lastIndex`; no start before it matches |
| Regex.MatchAll | src/extension.ts:25-35 | every match the `g` loop reports is the match at its own start, and none starts before `lastIndex` |
| RegexFacts.MatchAllInOrder | src/extension.ts:25-35 | the matches of the `g` loop come in document order and do not overlap: each ends at or before the next one starts |
| RegexFacts.MatchAllCovers | src/extension.ts:25-29 | the `g` loop skips no match: every start where the pattern matches lies inside a reported match |
| RegexFacts.ExecLeftmost | src/extension.ts:13 | a match with no match at any earlier start from `lastIndex` on is the one `exec` returns |
| RegexFacts.ExecSomeIff | src/extension.ts:13 | `exec` from the start finds a match exactly when the pattern matches somewhere |
| RegexFacts.DelimitedVerbatim | src/extension.ts:63 | `open(.+?)close` captures a value verbatim when the value is on one line and lacks the first code unit of `close` |
| RegexFacts.DelimitedFirstClose | src/extension.ts:9 | `open(.+?)close` captures a one-line value verbatim when `close` starts nowhere inside it: the lazy group stops at the first `close` |
| RegexFacts.ElementVerbatim | src/extension.ts:21 | `<(.+?)>(.+?)<\/(.+?)>` captures the name, value and closing name verbatim when neither name holds `>` and the value holds no `<` |
| DelimitedFacts.ExecAtExtend | src/extension.ts:9-13 | a match of `open(.+?)close` at one start stays the same match when text is appended |
| DelimitedFacts.ExecAtEarlier | src/extension.ts:9-13 | when a match exists later in the text, appending text cannot create a match at an earlier start |
| DelimitedFacts.ExecExtend | src/extension.ts:9-13 | text appended after the first match of `open(.+?)close` does not change what `exec` finds first |
| Properties.RemoveNewlines | src/extension.ts:10 | the result has no `\n`, and every other code unit occurs in it as often as in the input |
| Properties.RemoveNewlinesConcat | src/extension.ts:10 | removing `\n` works piece by piece on concatenated text |
| Properties.RemoveNewlinesKeeps | src/extension.ts:10 | text without `\n` is left unchanged |
| Properties.RemoveNewlinesAround | src/extension.ts:10 | removing `\n` from a file keeps its two tags and removes the `\n` of each piece between them |
| Properties.BlockParametersStep | src/extension.ts:25-35 | one turn of the inner loop pushes the first match's name and value, and both are non-empty and on one line |
| Properties.GetParameters | src/extension.ts:7-39 | the loop returns `Properties.ParametersOf(content)`: absent without a property group, otherwise one parameter per element match of the first group, each with a non-empty, one-line name and value |
| Properties.ParametersPresentIff | src/extension.ts:13-38 | the result is present exactly when a property group matches somewhere in the text without `\n`. A group without elements gives an empty list, not an absent result |
| Properties.BreakBeforeClose | src/extension.ts:9 | a `<PropertyGroup>` followed by a line terminator before the next `</PropertyGroup>` does not match at its start |
| Properties.CarriageReturnHidesGroups | src/extension.ts:9-13 | when every `<PropertyGroup>` is followed by a line terminator before the next `</PropertyGroup>`, no parameters are found |
| Properties.FirstGroupOnly | src/extension.ts:13-38 | only the first property group is read: anything appended after a file that has one changes nothing |
| Properties.NoElementsInTail | src/extension.ts:25 | scanning text without `<` finds no parameter |
| Properties.ElementFound | src/extension.ts:25-34 | from the text before a plain element, `exec` finds that element with its name and value as written and resumes right after it |
| Properties.ElementsReadBackFrom | src/extension.ts:21-35 | from the start of a run of plain elements, each after a leading text without `<`, and a tail without `<`, the loop pushes exactly their names and values in order |
| Properties.ElementsReadBack | src/extension.ts:21-35 | an indented group body of plain elements, scanned from its start, yields exactly their names and values in order, whatever the closing names |
| Properties.FirstGroupMatch | src/extension.ts:9-19 | `exec` finds the first `<PropertyGroup>` and captures its one-line body up to the first `</PropertyGroup>` |
| Properties.FirstGroupBody | src/extension.ts:9-19 | in a file whose text before its first `<PropertyGroup>` has none, whose body without `\n` is on one line and has no `</PropertyGroup>`, the parameters are those of that body |
| Properties.PropertiesFileReadBack | src/extension.ts:7-39 | such a file whose group body is a run of plain elements, however its lines are broken and indented, yields exactly the elements' names and values, in order |
| Properties.EmptyGroupRunsOn | src/extension.ts:9 | an empty `<PropertyGroup></PropertyGroup>` followed on its line by text without `<` and another `</PropertyGroup>` matches with the first close tag and that text as its body |
| Properties.MismatchedCloseIgnored | src/extension.ts:31-34 | `<A>v</B>` yields the single parameter `A` = `v` |
| Completions.Join | src/extension.ts:80-81 | the resolved path is the document's directory, one separator, then the import path unchanged |
| Completions.ParameterItem | src/extension.ts:91-103 | an item labelled with the parameter's name, no kind, committed by `$`, whose snippet is the property reference `$(name)` (it starts with `$(`, ends with the name and `)`, and is three code units longer than the name), and whose documentation starts with `*name*`, ends with `**value**.` and so mentions both |
| Completions.SnippetIdentifiesParameter | src/extension.ts:95-97 | two parameters get the same snippet exactly when their names are equal |
| Completions.ConsoleItem | src/extension.ts:109-117 | the item is labelled `console`, has no kind and no snippet, is committed by `.` alone and is documented as ``Press `.` to get `console.` ``; accepting it with that character leaves text ending with `console.` |
| Completions.CompletionsFor | src/extension.ts:86-120 | one item per parameter in order, then the `console` item, which is present even when the file has no property group |
| Completions.PushParameterItems | src/extension.ts:90-104 | the `forEach` pushes exactly the parameter items, in order |
| Completions.FileCompletions | src/extension.ts:84-120 | a readable import yields the items of its file's parameters, then the `console` item |
| Completions.JoinedPaths | src/extension.ts:75-81 | one resolved path per import match, in order, each the match's capture joined with the directory |
| Completions.ImportPathsStep | src/extension.ts:69-81 | one turn of the import loop resolves the first match's path and resumes at its end |
| Completions.FirstReadable | src/extension.ts:82-125 | the position of the first readable path: every earlier path throws, and there is none only when every path throws |
| Completions.FromImportsCons | src/extension.ts:82-125 | a readable import ends the search with its file's items; an unreadable one is skipped |
| Completions.ProvideXmlCompletions | src/extension.ts:63-127 | the import loop returns `Completions.XmlCompletions(text, dir, fs)`: the items of the first readable import, or `[]` |
| Completions.EmptyIffNoneReadable | src/extension.ts:123-127 | the provider returns `[]` exactly when no import can be read |
| Completions.FirstReadableDecides | src/extension.ts:82-120 | the first readable import decides the whole result; later imports are never read |
| Completions.ImportNeedsSpacedClose | src/extension.ts:63 | a document without the literal `" />` has no imports and gets no completions |
| Completions.FirstImportResolved | src/extension.ts:63-81 | the first import's path is captured verbatim and joined with the document's directory |
| Completions.LinePrefix | src/extension.ts:197-199 | the text before the cursor is a prefix of the line, no longer than the cursor column, and the whole line when the cursor lies past its end |
| Completions.ConsoleCompletions | src/extension.ts:197-208 | `log`, `warn` and `error` (kind Method) exactly when the line before the cursor ends with `console.`, otherwise nothing |
| Completions.ConsoleAfterDot | src/extension.ts:197-202 | a cursor right after `console.` always gets the three methods, whatever follows it |
| Diagnostics.CreateDiagnostic | src/diagnostics.ts:27-50 | the range lies on its own line, starts at the first `emoji` and spans exactly the five code units `emoji`. Severity is Information, the code is `emoji_mention` and the message is fixed |
| Diagnostics.OnePerEmojiLine | src/diagnostics.ts:17-22 | exactly one diagnostic per line that contains `emoji`, in increasing line order, each built from its own line; other lines get none |
| Diagnostics.DiagnosticCollection.Set | src/diagnostics.ts:24 | `set` replaces the document's entry and keeps the others |
| Diagnostics.RefreshDiagnostics | src/diagnostics.ts:11-25 | the document's entry becomes the diagnostics of all its lines, earlier ones are dropped, and other documents are untouched |

## Left out

- The VS Code API is not modelled: `activate`, the provider and command registrations and
  `context.subscriptions`. Completion items, snippet and Markdown strings, ranges and diagnostics are plain
  records; rendering snippets and Markdown is the host's concern.
- `document.getText()`, `path.parse(document.fileName).dir` and `fs.readFileSync` are not modelled as
  code. The first two are inputs. A read is a lookup in a map from path to text: a missing key is a read
  that throws.
- Completions.Join: `path.join` is modelled as `dir + "/" + path`, without the normalisation of `.`, `..`
  and repeated separators, because that normalisation is the host library's and not part of the extension.
- I/O errors other than a missing file, and reads that succeed with a different encoding, are not modelled.
- A Dafny `char` is a Unicode scalar value, while a JavaScript string is a sequence of UTF-16 code units.
  The model treats a string as code units only when every character is at or below U+FFFF. It does not
  model lengths or columns on lines with characters above U+FFFF: on such a line the column of `emoji`
  given by `Diagnostics.CreateDiagnostic` is smaller than JavaScript's by one per such character before it.
- The `plaintext` provider's constant list (src/extension.ts:134-184) is not modelled.
- The `console.debug` after `return` (src/extension.ts:122) is unreachable and is not modelled.
- `subscribeToDocumentChanges` (src/diagnostics.ts:52-81) is not modelled. It only wires editor events
  to `refreshDiagnostics`.
- Logging with `console.log` and `console.error` is not modelled.
- The zero-width guards (src/extension.ts:15-17, 27-29, 71-73) are left out because they never fire.
  `Regex.ExecAt` proves that every match ends after its start.
- The `!importFileName` test (src/extension.ts:76-78) is left out because it never fires. Every capture
  has at least one code unit.
- `getParameters`' outer `while` is modelled as an `if`, because the function returns during its first
  iteration.
- Diagnostics.CreateDiagnostic requires that the line includes `emoji`, which its only caller
  guarantees. On any other line `indexOf` gives -1, and the host's range constructor rejects the negative
  column.
- Value-site detection, property naming and rewriting of the properties file are not part of this model.
  They do not appear in src/extension.ts or src/diagnostics.ts.
