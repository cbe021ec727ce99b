/** The two completion providers of src/extension.ts: the `xml` provider that
    offers the properties of the first readable imported file, and the
    `plaintext` provider that completes `console.`.  The host's objects are
    plain records; `document.getText()`, the directory of `document.fileName`
    and the file system are inputs. */
module Completions {
  import opened Text
  import opened Regex
  import opened RegexFacts
  import opened DelimitedFacts
  import opened Properties

  datatype CompletionItemKind = Method

  /** `vscode.SnippetString` and `vscode.MarkdownString`: their text only. */
  datatype SnippetString = SnippetString(value: string)
  datatype MarkdownString = MarkdownString(value: string)

  /** The fields of `vscode.CompletionItem` the extension sets; `None` is a field left unset. */
  datatype CompletionItem = CompletionItem(
    name: string,  // the label shown in the list
    kind: Option<CompletionItemKind>,
    insertText: Option<SnippetString>,
    commitCharacters: Option<seq<string>>,
    documentation: Option<MarkdownString>)

  /** The files `fs.readFileSync` can read: a path that is not a key makes it throw. */
  type FileSystem = map<string, string>

  /** `/\<Import Project="(.+?)" \/>/gm` */
  const IMPORT: Pattern := Delimited("<Import Project=\"", "\" />")

  /** `path.join(dir, p)`, without the normalisation of `.` and `..`: the
      directory, one separator, then the path as written. */
  function Join(dir: string, p: string): (r: string)
    ensures |r| == |dir| + 1 + |p| && r[..|dir|] == dir && r[|dir|] == '/' && r[|dir| + 1..] == p
  {
    dir + "/" + p
  }

  /** `$(name)` starts with `$(` and ends with the name and `)`. */
  lemma SnippetShape(name: string)
    ensures "$(" <= "$(" + name + ")"
    ensures EndsWith("$(" + name + ")", name + ")")
  {
    assert "$(" + name + ")" == "$(" + (name + ")");
  }

  /** `*name* refers a value as **value**.` starts with `*name*`, so it
      includes the name. */
  lemma DocumentationStart(name: string, value: string)
    ensures "*" + name + "*" <= "*" + name + "* refers a value as **" + value + "**."
    ensures Includes("*" + name + "* refers a value as **" + value + "**.", name)
  {
    var doc := "*" + name + "* refers a value as **" + value + "**.";
    assert doc == "*" + name + ("* refers a value as **" + value + "**.");
    assert doc == ("*" + name + "*") + (" refers a value as **" + value + "**.");
  }

  /** `*name* refers a value as **value**.` ends with `**value**.`, so it
      includes the value. */
  lemma DocumentationEnd(name: string, value: string)
    ensures EndsWith("*" + name + "* refers a value as **" + value + "**.", "**" + value + "**.")
    ensures Includes("*" + name + "* refers a value as **" + value + "**.", value)
  {
    var doc := "*" + name + "* refers a value as **" + value + "**.";
    assert doc == ("*" + name + "* refers a value as **") + value + "**.";
    assert doc == ("*" + name + "* refers a value as ") + ("**" + value + "**.");
  }

  /** The completion item offered for one parameter: labelled with its name,
      inserting the MSBuild property reference `$(name)`, committed by `$`, and
      documented as `*name*` referring to the value in bold. */
  function ParameterItem(p: Parameter): (r: CompletionItem)
    ensures r.name == p.name && r.kind.None? && r.commitCharacters == Some(["$"])
    ensures r.insertText.Some? && |r.insertText.value.value| == |p.name| + 3
    ensures "$(" <= r.insertText.value.value && EndsWith(r.insertText.value.value, p.name + ")")
    ensures r.documentation.Some?
    ensures "*" + p.name + "*" <= r.documentation.value.value
    ensures EndsWith(r.documentation.value.value, "**" + p.value + "**.")
    ensures Includes(r.documentation.value.value, p.name) && Includes(r.documentation.value.value, p.value)
  {
    SnippetShape(p.name);
    DocumentationStart(p.name, p.value);
    DocumentationEnd(p.name, p.value);
    var snippet := "$(" + p.name + ")";
    var doc := "*" + p.name + "* refers a value as **" + p.value + "**.";
    CompletionItem(p.name, None, Some(SnippetString(snippet)), Some(["$"]), Some(MarkdownString(doc)))
  }

  /** The `console` item appended to every list the `xml` provider returns:
      labelled `console` and committed by `.`, so accepting it with its one
      commit character leaves text that ends with `console.`, as its
      documentation says. */
  function ConsoleItem(): (r: CompletionItem)
    ensures r.name == "console" && r.kind.None? && r.commitCharacters == Some(["."])
    ensures r.insertText.None? && r.documentation == Some(MarkdownString("Press `.` to get `console.`"))
    ensures EndsWith(r.name + r.commitCharacters.value[0], "console.")
  {
    var r := CompletionItem("console", None, None, Some(["."]), Some(MarkdownString("Press `.` to get `console.`")));
    assert r.name + r.commitCharacters.value[0] == [] + "console.";
    r
  }

  function ParameterItems(ps: seq<Parameter>): seq<CompletionItem>
  {
    seq(|ps|, j requires 0 <= j < |ps| => ParameterItem(ps[j]))
  }

  /** The list built from the parameters of an imported file: one item per
      parameter, in order, then the `console` item, which is there even when
      the file has no property group (`parameters?.forEach`). */
  function CompletionsFor(parameters: Option<seq<Parameter>>): (items: seq<CompletionItem>)
    ensures var n := if parameters.Some? then |parameters.value| else 0;
            |items| == n + 1 && items[n] == ConsoleItem() &&
            forall j :: 0 <= j < n ==> items[j] == ParameterItem(parameters.value[j])
  {
    (if parameters.Some? then ParameterItems(parameters.value) else []) + [ConsoleItem()]
  }

  /** The paths of the matches `ms`, each joined with `dir`. */
  function JoinedPaths(dir: string, ms: seq<Match>): (ps: seq<string>)
    requires forall j :: 0 <= j < |ms| ==> |ms[j].groups| >= 1
    ensures |ps| == |ms|
    ensures forall j :: 0 <= j < |ms| ==> ps[j] == Join(dir, ms[j].groups[0])
  {
    if ms == [] then [] else [Join(dir, ms[0].groups[0])] + JoinedPaths(dir, ms[1..])
  }

  /** The joined paths of the imports the `g`-flag loop sees from `from` on. */
  function ImportPaths(text: string, dir: string, from: nat): seq<string>
  {
    JoinedPaths(dir, MatchAll(IMPORT, text, from))
  }

  /** One turn of the import loop: the first match gives the first path. */
  lemma ImportPathsStep(text: string, dir: string, from: nat)
    requires Exec(IMPORT, text, from).Some?
    ensures ImportPaths(text, dir, from) ==
            [Join(dir, Exec(IMPORT, text, from).value.groups[0])] +
            ImportPaths(text, dir, Exec(IMPORT, text, from).value.end)
  {
    var m := Exec(IMPORT, text, from).value;
    var rest := MatchAll(IMPORT, text, m.end);
    assert MatchAll(IMPORT, text, from) == [m] + rest;
    assert ([m] + rest)[1..] == rest;
  }

  /** The position of the first path that can be read, if any. */
  function FirstReadable(paths: seq<string>, fs: FileSystem): (r: Option<nat>)
    ensures r.Some? ==> r.value < |paths| && paths[r.value] in fs
    ensures r.Some? ==> forall j :: 0 <= j < r.value ==> paths[j] !in fs
    ensures r.None? <==> forall j :: 0 <= j < |paths| ==> paths[j] !in fs
  {
    if paths == [] then None
    else if paths[0] in fs then Some(0)
    else
      match FirstReadable(paths[1..], fs)
      case None => None
      case Some(j) => Some(j + 1)
  }

  /** What the loop returns from the remaining import paths: the list of the
      first readable one, or `[]` when none can be read. */
  function CompletionsFromImports(paths: seq<string>, fs: FileSystem): seq<CompletionItem>
  {
    match FirstReadable(paths, fs)
    case None => []
    case Some(j) => CompletionsFor(ParametersOf(fs[paths[j]]))
  }

  /** A readable path ends the search; an unreadable one is skipped. */
  lemma FromImportsCons(p: string, rest: seq<string>, fs: FileSystem)
    ensures CompletionsFromImports([p] + rest, fs) ==
            if p in fs then CompletionsFor(ParametersOf(fs[p])) else CompletionsFromImports(rest, fs)
  {
    assert ([p] + rest)[1..] == rest;
  }

  /** What the `xml` provider returns for a document. */
  function XmlCompletions(text: string, dir: string, fs: FileSystem): seq<CompletionItem>
  {
    CompletionsFromImports(ImportPaths(text, dir, 0), fs)
  }

  /** `parameters?.forEach(...)` on a present list: one item per parameter, pushed in order. */
  method PushParameterItems(ps: seq<Parameter>) returns (completions: seq<CompletionItem>)
    ensures completions == ParameterItems(ps)
  {
    completions := [];
    var i := 0;
    while i < |ps|
      invariant 0 <= i <= |ps|
      invariant |completions| == i
      invariant forall j :: 0 <= j < i ==> completions[j] == ParameterItem(ps[j])
    {
      completions := completions + [ParameterItem(ps[i])];
      i := i + 1;
    }
  }

  /** The body of the `try` once the import has been read: the completions
      for the parameters of `file`, then the `console` item. */
  method FileCompletions(file: string) returns (completions: seq<CompletionItem>)
    ensures completions == CompletionsFor(ParametersOf(file))
  {
    var parameters := GetParameters(file);
    completions := [];
    if parameters.Some? {
      completions := PushParameterItems(parameters.value);
    }
    completions := completions + [ConsoleItem()];
  }

  /** The `xml` provider: scan the document for imports, try to read each in
      turn and return the completions of the first one that reads.  The
      `!importFileName` guard and the zero-width guard are dropped because a
      capture is never empty; a read that throws is a path missing from `fs`. */
  method ProvideXmlCompletions(documentText: string, documentDir: string, fs: FileSystem)
    returns (completions: seq<CompletionItem>)
    ensures completions == XmlCompletions(documentText, documentDir, fs)
  {
    var lastIndex: nat := 0;
    while true
      invariant lastIndex <= |documentText|
      invariant XmlCompletions(documentText, documentDir, fs) ==
                CompletionsFromImports(ImportPaths(documentText, documentDir, lastIndex), fs)
      decreases |documentText| - lastIndex
    {
      var m := Exec(IMPORT, documentText, lastIndex);
      if m.None? {
        assert ImportPaths(documentText, documentDir, lastIndex) == [];
        return [];
      }
      var importFileName := m.value.groups[0];
      var importFilePath := Join(documentDir, importFileName);
      ImportPathsStep(documentText, documentDir, lastIndex);
      FromImportsCons(importFilePath, ImportPaths(documentText, documentDir, m.value.end), fs);
      if importFilePath in fs {
        completions := FileCompletions(fs[importFilePath]);
        return;
      }
      lastIndex := m.value.end;
    }
  }

  /** The provider returns `[]` exactly when no import can be read: a readable
      import always yields at least the `console` item. */
  lemma {:induction false} EmptyIffNoneReadable(text: string, dir: string, fs: FileSystem)
    ensures XmlCompletions(text, dir, fs) == [] <==>
            forall p :: p in ImportPaths(text, dir, 0) ==> p !in fs
  {
    var paths := ImportPaths(text, dir, 0);
    var r := FirstReadable(paths, fs);
    if r.Some? {
      assert paths[r.value] in paths;
    } else {
      forall p | p in paths
        ensures p !in fs
      {
        var j :| 0 <= j < |paths| && paths[j] == p;
      }
    }
  }

  /** The first import that can be read decides the whole result; later ones
      are never read. */
  lemma FirstReadableDecides(text: string, dir: string, fs: FileSystem, k: nat)
    requires k < |ImportPaths(text, dir, 0)| && ImportPaths(text, dir, 0)[k] in fs
    requires forall j :: 0 <= j < k ==> ImportPaths(text, dir, 0)[j] !in fs
    ensures XmlCompletions(text, dir, fs) == CompletionsFor(ParametersOf(fs[ImportPaths(text, dir, 0)[k]]))
  {
    var paths := ImportPaths(text, dir, 0);
    var r := FirstReadable(paths, fs);
    assert r.Some?;
  }

  /** Only the literal `" />`, with one space, closes an import: a document
      without it offers nothing. */
  lemma ImportNeedsSpacedClose(text: string, dir: string, fs: FileSystem)
    requires !Includes(text, "\" />")
    ensures ImportPaths(text, dir, 0) == [] && XmlCompletions(text, dir, fs) == []
  {
    forall i: nat
      ensures !MatchesAt(IMPORT, text, i)
    {
      forall k
        ensures !DelimitedAt(text, i, "<Import Project=\"", "\" />", k)
      {
      }
    }
    ExecSomeIff(IMPORT, text);
  }

  /** The first import of the document is read back as written and joined
      with the document's directory, when its path has no `"` and lies on one
      line. */
  lemma FirstImportResolved(text: string, dir: string, i: nat, path: string)
    requires OccursAt(text, "<Import Project=\"" + path + "\" />", i)
    requires OnOneLine(path) && '"' !in path
    requires forall j: nat :: j < i ==> !MatchesAt(IMPORT, text, j)
    ensures |ImportPaths(text, dir, 0)| >= 1 && ImportPaths(text, dir, 0)[0] == Join(dir, path)
  {
    DelimitedVerbatim(text, i, "<Import Project=\"", path, "\" />");
    var m := ExecAt(IMPORT, text, i).value;
    forall j: nat | j < i
      ensures ExecAt(IMPORT, text, j).None?
    {
    }
    ExecLeftmost(IMPORT, text, 0, m);
    ImportPathsStep(text, dir, 0);
  }

  /** Two parameters get the same snippet exactly when they have the same
      name: the snippet identifies the parameter it refers to. */
  lemma SnippetIdentifiesParameter(p: Parameter, q: Parameter)
    ensures ParameterItem(p).insertText == ParameterItem(q).insertText <==> p.name == q.name
  {
    var sp, sq := "$(" + p.name + ")", "$(" + q.name + ")";
    assert ParameterItem(p).insertText == Some(SnippetString(sp));
    assert ParameterItem(q).insertText == Some(SnippetString(sq));
    if sp == sq {
      assert sp[2..|sp| - 1] == p.name;
      assert sq[2..|sq| - 1] == q.name;
    }
  }

  /** `document.lineAt(position).text.substr(0, position.character)`. */
  function LinePrefix(lineText: string, character: nat): (r: string)
    ensures r <= lineText && |r| <= character
    ensures |r| < character ==> r == lineText
  {
    lineText[..if character < |lineText| then character else |lineText|]
  }

  function MethodItem(name: string): CompletionItem
  {
    CompletionItem(name, Some(Method), None, None, None)
  }

  /** The `plaintext` provider: `log`, `warn` and `error` when the text before
      the cursor ends with `console.`, nothing (`undefined`) otherwise. */
  function ConsoleCompletions(lineText: string, character: nat): (r: Option<seq<CompletionItem>>)
    ensures r.Some? <==> exists u :: LinePrefix(lineText, character) == u + "console."
    ensures r.Some? ==> r.value == [MethodItem("log"), MethodItem("warn"), MethodItem("error")]
  {
    var linePrefix := LinePrefix(lineText, character);
    if !EndsWith(linePrefix, "console.") then None
    else Some([MethodItem("log"), MethodItem("warn"), MethodItem("error")])
  }

  /** Whatever follows the cursor plays no part: a cursor right after
      `console.` always gets the three methods. */
  lemma ConsoleAfterDot(before: string, after: string)
    ensures ConsoleCompletions(before + "console." + after, |before| + 8).Some?
  {
    var line := before + "console." + after;
    assert LinePrefix(line, |before| + 8) == before + "console.";
  }
}
