/** The demo diagnostics of src/diagnostics.ts: every line of a document that
    mentions `emoji` gets one information diagnostic over its first mention. */
module Diagnostics {
  import opened Text

  const EMOJI_MENTION: string := "emoji_mention"
  const EMOJI: string := "emoji"
  const MESSAGE: string := "When you say 'emoji', do you want to find out more?"

  /** `vscode.Position`: a zero-based line and a column, counted in the characters of the line. */
  datatype Position = Position(line: nat, character: nat)
  datatype Range = Range(start: Position, end: Position)
  datatype DiagnosticSeverity = Error | Warning | Information | Hint
  datatype Diagnostic = Diagnostic(range: Range, message: string, severity: DiagnosticSeverity, code: Option<string>)

  /** The parts of `vscode.TextDocument` the provider reads: `uri` and the
      text of each line (`lineCount` is `|lines|`). */
  datatype TextDocument = TextDocument(uri: string, lines: seq<string>)

  /** `createDiagnostic`: the range of the first `emoji` on line `lineIndex`.
      The caller only passes lines that contain it; for any other line
      `indexOf` gives -1 and the host rejects the negative column. */
  function CreateDiagnostic(lineText: string, lineIndex: nat): (d: Diagnostic)
    requires Includes(lineText, EMOJI)
    ensures d.range.start.line == lineIndex && d.range.end.line == lineIndex
    ensures OccursAt(lineText, EMOJI, d.range.start.character)
    ensures forall j :: 0 <= j < d.range.start.character ==> !OccursAt(lineText, EMOJI, j)
    ensures d.range.end.character == d.range.start.character + |EMOJI| <= |lineText|
    ensures lineText[d.range.start.character..d.range.end.character] == EMOJI
    ensures d.severity == Information && d.code == Some(EMOJI_MENTION) && d.message == MESSAGE
  {
    var index := IndexOf(lineText, EMOJI);
    Diagnostic(Range(Position(lineIndex, index), Position(lineIndex, index + |EMOJI|)),
               MESSAGE, Information, Some(EMOJI_MENTION))
  }

  /** The diagnostics the line loop has pushed after its first `n` turns. */
  function DiagnosticsUpTo(lines: seq<string>, n: nat): seq<Diagnostic>
    requires n <= |lines|
  {
    if n == 0 then []
    else
      DiagnosticsUpTo(lines, n - 1) +
      (if Includes(lines[n - 1], EMOJI) then [CreateDiagnostic(lines[n - 1], n - 1)] else [])
  }

  /** The diagnostics of a whole document. */
  function DocumentDiagnostics(doc: TextDocument): seq<Diagnostic>
  {
    DiagnosticsUpTo(doc.lines, |doc.lines|)
  }

  /** The diagnostics of the first `n` lines are exactly one per line that
      contains `emoji`, in increasing line order, each built by `createDiagnostic`
      from its own line; lines without `emoji` get none. */
  lemma {:induction false} OnePerEmojiLine(lines: seq<string>, n: nat)
    requires n <= |lines|
    ensures var ds := DiagnosticsUpTo(lines, n);
            forall j :: 0 <= j < |ds| ==>
              var l := ds[j].range.start.line;
              l < n && Includes(lines[l], EMOJI) && ds[j] == CreateDiagnostic(lines[l], l)
    ensures var ds := DiagnosticsUpTo(lines, n);
            forall i :: 0 <= i < n && Includes(lines[i], EMOJI) ==>
              exists j :: 0 <= j < |ds| && ds[j].range.start.line == i
    ensures var ds := DiagnosticsUpTo(lines, n);
            forall j, k :: 0 <= j < k < |ds| ==> ds[j].range.start.line < ds[k].range.start.line
  {
    if n > 0 {
      OnePerEmojiLine(lines, n - 1);
      var prev := DiagnosticsUpTo(lines, n - 1);
      var ds := DiagnosticsUpTo(lines, n);
      if Includes(lines[n - 1], EMOJI) {
        assert ds == prev + [CreateDiagnostic(lines[n - 1], n - 1)];
        assert ds[|prev|].range.start.line == n - 1;
      } else {
        assert ds == prev;
      }
    }
  }

  /** `vscode.DiagnosticCollection`: the diagnostics shown for each document. */
  class DiagnosticCollection {
    var entries: map<string, seq<Diagnostic>>

    constructor ()
      ensures entries == map[]
    {
      entries := map[];
    }

    /** `set(uri, diagnostics)`: the document's entry is replaced, the others kept. */
    method Set(uri: string, diagnostics: seq<Diagnostic>)
      modifies this
      ensures entries == old(entries)[uri := diagnostics]
    {
      entries := entries[uri := diagnostics];
    }
  }

  /** `refreshDiagnostics`: scan the lines in order, push a diagnostic for
      every line that contains `emoji`, then replace the document's entry. */
  method RefreshDiagnostics(doc: TextDocument, emojiDiagnostics: DiagnosticCollection)
    modifies emojiDiagnostics
    ensures emojiDiagnostics.entries == old(emojiDiagnostics.entries)[doc.uri := DocumentDiagnostics(doc)]
  {
    var diagnostics: seq<Diagnostic> := [];
    var lineIndex := 0;
    while lineIndex < |doc.lines|
      invariant 0 <= lineIndex <= |doc.lines|
      invariant diagnostics == DiagnosticsUpTo(doc.lines, lineIndex)
    {
      var lineOfText := doc.lines[lineIndex];
      if Includes(lineOfText, EMOJI) {
        diagnostics := diagnostics + [CreateDiagnostic(lineOfText, lineIndex)];
      }
      lineIndex := lineIndex + 1;
    }
    emojiDiagnostics.Set(doc.uri, diagnostics);
  }
}
