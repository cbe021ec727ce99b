/** The MSBuild property extractor `getParameters` (src/extension.ts): the
    name/value pairs declared inside the first `<PropertyGroup>` of a
    properties file. */
module Properties {
  import opened Text
  import opened Regex
  import opened RegexFacts
  import opened DelimitedFacts

  /** One `{ name, value }` record pushed by `getParameters`. */
  datatype Parameter = Parameter(name: string, value: string)

  const GROUP_OPEN: string := "<PropertyGroup>"
  const GROUP_CLOSE: string := "</PropertyGroup>"

  /** `/<PropertyGroup>(.+?)<\/PropertyGroup>/gm` */
  const PROPERTY_GROUP: Pattern := Delimited(GROUP_OPEN, GROUP_CLOSE)

  /** `content.replace(/\n/gm, "")`: every `\n` is deleted, every other code unit kept. */
  function RemoveNewlines(s: string): (r: string)
    ensures '\n' !in r
    ensures forall c :: c != '\n' ==> multiset(r)[c] == multiset(s)[c]
  {
    if s == [] then []
    else
      assert s == [s[0]] + s[1..];
      (if s[0] == '\n' then [] else [s[0]]) + RemoveNewlines(s[1..])
  }

  /** Deleting newlines works piece by piece. */
  lemma {:induction false} RemoveNewlinesConcat(a: string, b: string)
    ensures RemoveNewlines(a + b) == RemoveNewlines(a) + RemoveNewlines(b)
  {
    if a != [] {
      assert (a + b)[1..] == a[1..] + b;
      RemoveNewlinesConcat(a[1..], b);
    } else {
      assert a + b == b;
    }
  }

  /** Text without `\n` is left as it is. */
  lemma {:induction false} RemoveNewlinesKeeps(s: string)
    requires '\n' !in s
    ensures RemoveNewlines(s) == s
  {
    if s != [] {
      assert '\n' !in s[1..];
      RemoveNewlinesKeeps(s[1..]);
      assert s == [s[0]] + s[1..];
    }
  }

  /** The records the inner loop pushes for the successive matches `ms`. */
  function ParametersOfMatches(ms: seq<Match>): (ps: seq<Parameter>)
    requires forall j :: 0 <= j < |ms| ==> |ms[j].groups| == 3
    ensures |ps| == |ms|
    ensures forall j :: 0 <= j < |ms| ==> ps[j] == Parameter(ms[j].groups[0], ms[j].groups[1])
  {
    if ms == [] then [] else [Parameter(ms[0].groups[0], ms[0].groups[1])] + ParametersOfMatches(ms[1..])
  }

  /** The parameters of a property-group body: one per successive match of
      `/<(.+?)>(.+?)<\/(.+?)>/gm`, scanning from `from`. */
  function BlockParameters(block: string, from: nat): seq<Parameter>
  {
    ParametersOfMatches(MatchAll(ElementTag, block, from))
  }

  /** One turn of the inner loop: the first match yields the first parameter. */
  lemma BlockParametersStep(block: string, from: nat)
    requires Exec(ElementTag, block, from).Some?
    ensures BlockParameters(block, from) ==
            [Parameter(Exec(ElementTag, block, from).value.groups[0], Exec(ElementTag, block, from).value.groups[1])] +
            BlockParameters(block, Exec(ElementTag, block, from).value.end)
    ensures OnOneLine(Exec(ElementTag, block, from).value.groups[0])
    ensures OnOneLine(Exec(ElementTag, block, from).value.groups[1])
  {
    var m := Exec(ElementTag, block, from).value;
    var rest := MatchAll(ElementTag, block, m.end);
    assert MatchAll(ElementTag, block, from) == [m] + rest;
    assert ([m] + rest)[1..] == rest;
    assert m.groups[0] in m.groups && m.groups[1] in m.groups;
  }

  /** The inner loop ends when `exec` finds nothing more. */
  lemma BlockParametersDone(block: string, from: nat)
    requires Exec(ElementTag, block, from).None?
    ensures BlockParameters(block, from) == []
  {
  }

  /** What `getParameters(content)` returns: absent when there is no property
      group, otherwise the parameters of the first one. */
  function ParametersOf(content: string): Option<seq<Parameter>>
  {
    match Exec(PROPERTY_GROUP, RemoveNewlines(content), 0)
    case None => None
    case Some(m) => Some(BlockParameters(m.groups[0], 0))
  }

  /** `getParameters`: delete the newlines, find the first property group and
      push a record for every match of the parameter pattern inside it.  The
      source's outer `while` returns during its first iteration, so it is an `if`
      here; the zero-width guards are dropped because every match is at least
      seven code units long. */
  method GetParameters(content: string) returns (parameters: Option<seq<Parameter>>)
    ensures parameters == ParametersOf(content)
    ensures parameters.Some? ==> forall p :: p in parameters.value ==> OnOneLine(p.name) && OnOneLine(p.value)
  {
    var contentString := RemoveNewlines(content);
    var m := Exec(PROPERTY_GROUP, contentString, 0);
    if m.None? {
      return None;
    }
    var parametersContent := m.value.groups[0];
    assert ParametersOf(content) == Some(BlockParameters(parametersContent, 0));
    var found: seq<Parameter> := [];
    var lastIndex: nat := 0;
    while true
      invariant lastIndex <= |parametersContent|
      invariant BlockParameters(parametersContent, 0) == found + BlockParameters(parametersContent, lastIndex)
      invariant forall p :: p in found ==> OnOneLine(p.name) && OnOneLine(p.value)
      decreases |parametersContent| - lastIndex
    {
      var mp := Exec(ElementTag, parametersContent, lastIndex);
      if mp.None? {
        BlockParametersDone(parametersContent, lastIndex);
        assert found + [] == found;
        break;
      }
      var p := Parameter(mp.value.groups[0], mp.value.groups[1]);
      BlockParametersStep(parametersContent, lastIndex);
      found := found + [p];
      lastIndex := mp.value.end;
    }
    return Some(found);
  }

  /** Some property group matches somewhere in the text without newlines. */
  ghost predicate HasPropertyGroup(content: string)
  {
    exists i: nat :: MatchesAt(PROPERTY_GROUP, RemoveNewlines(content), i)
  }

  /** The result is absent exactly when no property group matches anywhere in
      the text without newlines; a property group without parameters gives an
      empty list, not an absent one. */
  lemma ParametersPresentIff(content: string)
    ensures ParametersOf(content).Some? <==> HasPropertyGroup(content)
  {
    ExecSomeIff(PROPERTY_GROUP, RemoveNewlines(content));
  }

  /** A `<PropertyGroup>` at `i` that is followed by a line terminator at `j`
      before any `</PropertyGroup>` does not match there: `.` stops at `j`. */
  lemma BreakBeforeClose(t: string, i: nat, j: nat)
    requires i + |GROUP_OPEN| <= j < |t| && IsLineTerminator(t[j])
    requires forall k :: i + |GROUP_OPEN| < k <= j ==> !OccursAt(t, GROUP_CLOSE, k)
    ensures ExecAt(PROPERTY_GROUP, t, i).None?
  {
    var p := i + |GROUP_OPEN|;
    forall k
      ensures !DelimitedAt(t, i, GROUP_OPEN, GROUP_CLOSE, k)
    {
      if 1 <= k && p + k <= |t| {
        if p + k <= j {
          assert !OccursAt(t, GROUP_CLOSE, p + k);
        } else {
          assert !AllDot(t, p, p + k) by {
            assert IsLineTerminator(t[j]);
          }
        }
      }
    }
  }

  /** Only `\n` is deleted, so a `\r` stays where it was, and `.` does not
      match it: when every `<PropertyGroup>` is followed by a line terminator
      before the next `</PropertyGroup>`, as in a file with Windows line ends
      whose property groups each span several lines, no parameters are found. */
  lemma CarriageReturnHidesGroups(content: string)
    requires forall i :: OccursAt(RemoveNewlines(content), GROUP_OPEN, i) ==>
               exists j :: i + |GROUP_OPEN| <= j < |RemoveNewlines(content)| &&
                 IsLineTerminator(RemoveNewlines(content)[j]) &&
                 forall k :: i + |GROUP_OPEN| < k <= j ==> !OccursAt(RemoveNewlines(content), GROUP_CLOSE, k)
    ensures ParametersOf(content) == None
  {
    var t := RemoveNewlines(content);
    forall i: nat
      ensures !MatchesAt(PROPERTY_GROUP, t, i)
    {
      if OccursAt(t, GROUP_OPEN, i) {
        var j :| i + |GROUP_OPEN| <= j < |t| && IsLineTerminator(t[j]) &&
                 forall k :: i + |GROUP_OPEN| < k <= j ==> !OccursAt(t, GROUP_CLOSE, k);
        BreakBeforeClose(t, i, j);
      } else {
        forall k
          ensures !DelimitedAt(t, i, GROUP_OPEN, GROUP_CLOSE, k)
        {
        }
      }
    }
    ParametersPresentIff(content);
  }

  /** Only the first property group is read: whatever follows a file that
      already has one changes nothing. */
  lemma FirstGroupOnly(first: string, rest: string)
    requires ParametersOf(first).Some?
    ensures ParametersOf(first + rest) == ParametersOf(first)
  {
    RemoveNewlinesConcat(first, rest);
    ExecExtend(RemoveNewlines(first), RemoveNewlines(rest), "<PropertyGroup>", "</PropertyGroup>");
  }

  /** One element `<name>value</close>` of a property group, after the text
      `lead` that separates it from the previous one (indentation, say). */
  datatype Element = Element(lead: string, name: string, value: string, close: string)

  /** An element the parameter pattern reads back as written: no `<` in the
      leading text, no `>` in either name, no `<` in the value, and the names
      and the value on one line. */
  predicate Plain(e: Element)
  {
    '<' !in e.lead && OnOneLine(e.name) && OnOneLine(e.value) && OnOneLine(e.close) &&
    '>' !in e.name && '<' !in e.value && '>' !in e.close
  }

  /** The text of a run of elements, each after its leading text. */
  function ElementsText(es: seq<Element>): string
  {
    if es == [] then ""
    else es[0].lead + ElementText(es[0].name, es[0].value, es[0].close) + ElementsText(es[1..])
  }

  /** The text of a non-empty run of elements and a tail: the first element, then the rest. */
  lemma ElementsTextCons(es: seq<Element>, tail: string)
    requires es != []
    ensures ElementsText(es) + tail ==
            es[0].lead + ElementText(es[0].name, es[0].value, es[0].close) + (ElementsText(es[1..]) + tail)
  {
  }

  /** The parameters a run of elements declares. */
  function Declared(es: seq<Element>): seq<Parameter>
  {
    if es == [] then [] else [Parameter(es[0].name, es[0].value)] + Declared(es[1..])
  }

  /** No element match starts where there is no `<`. */
  lemma NoElementWithoutOpen(s: string, i: nat)
    requires i < |s| ==> s[i] != '<'
    ensures ExecAt(ElementTag, s, i).None?
  {
    assert !OccursAt(s, "<", i) by {
      if i + 1 <= |s| {
        assert s[i..i + 1][0] == s[i];
      }
    }
  }

  /** Scanning text without `<` yields nothing. */
  lemma NoElementsInTail(s: string, p: nat)
    requires p <= |s| && '<' !in s[p..]
    ensures BlockParameters(s, p) == []
  {
    forall i: nat | p <= i
      ensures ExecAt(ElementTag, s, i).None?
    {
      if i < |s| {
        assert s[i] == s[p..][i - p];
      }
      NoElementWithoutOpen(s, i);
    }
    BlockParametersDone(s, p);
  }

  /** `exec` from the leading text of a plain element finds that element,
      and the scan resumes right after it. */
  lemma ElementFound(s: string, p: nat, e: Element, rest: string)
    requires p <= |s| && s[p..] == e.lead + ElementText(e.name, e.value, e.close) + rest
    requires Plain(e)
    ensures Exec(ElementTag, s, p).Some?
    ensures Exec(ElementTag, s, p).value.groups[0] == e.name
    ensures Exec(ElementTag, s, p).value.groups[1] == e.value
    ensures Exec(ElementTag, s, p).value.end == |s| - |rest|
    ensures s[|s| - |rest|..] == rest
  {
    var et := ElementText(e.name, e.value, e.close);
    var q := p + |e.lead|;
    assert OccursAt(s, et, q) by {
      assert s[q..q + |et|] == s[p..][|e.lead|..|e.lead| + |et|];
    }
    ElementVerbatim(s, q, e.name, e.value, e.close);
    forall i: nat | p <= i < q
      ensures ExecAt(ElementTag, s, i).None?
    {
      assert s[i] == s[p..][i - p] == e.lead[i - p];
      NoElementWithoutOpen(s, i);
    }
    ExecLeftmost(ElementTag, s, p, ExecAt(ElementTag, s, q).value);
    assert |et| == |e.name| + |e.value| + |e.close| + 5;
    assert s[|s| - |rest|..] == s[p..][|e.lead| + |et|..];
  }

  /** Scanning from `p`, where plain elements and then a tail without `<`
      begin, yields one parameter per element, in order. */
  lemma {:induction false} ElementsReadBackFrom(s: string, p: nat, es: seq<Element>, tail: string)
    requires p <= |s| && s[p..] == ElementsText(es) + tail
    requires forall e :: e in es ==> Plain(e)
    requires '<' !in tail
    ensures BlockParameters(s, p) == Declared(es)
    decreases |es|
  {
    if es == [] {
      assert s[p..] == tail;
      NoElementsInTail(s, p);
    } else {
      assert es[0] in es;
      var rest := ElementsText(es[1..]) + tail;
      ElementsTextCons(es, tail);
      ElementFound(s, p, es[0], rest);
      BlockParametersStep(s, p);
      assert forall e' :: e' in es[1..] ==> e' in es;
      ElementsReadBackFrom(s, |s| - |rest|, es[1..], tail);
    }
  }

  /** A property-group body made of plain elements, each after a leading text
      without `<`, and a tail without `<`, yields exactly their names and
      values, in order; the closing names play no part. */
  lemma ElementsReadBack(es: seq<Element>, tail: string)
    requires forall e :: e in es ==> Plain(e)
    requires '<' !in tail
    ensures BlockParameters(ElementsText(es) + tail, 0) == Declared(es)
  {
    ElementsReadBackFrom(ElementsText(es) + tail, 0, es, tail);
  }

  /** Deleting the `\n` of a text around two tags without `\n`, piece by piece. */
  lemma RemoveNewlinesAround(pre: string, open: string, body: string, close: string, post: string)
    requires '\n' !in open && '\n' !in close
    ensures RemoveNewlines(pre + open + body + close + post) ==
            RemoveNewlines(pre) + open + RemoveNewlines(body) + close + RemoveNewlines(post)
  {
    var rp, b, rq := RemoveNewlines(pre), RemoveNewlines(body), RemoveNewlines(post);
    RemoveNewlinesKeeps(open);
    RemoveNewlinesKeeps(close);
    RemoveNewlinesConcat(pre, open);
    RemoveNewlinesConcat(pre + open, body);
    RemoveNewlinesConcat(pre + open + body, close);
    RemoveNewlinesConcat(pre + open + body + close, post);
  }

  /** Regrouping a five-piece concatenation. */
  lemma Regroup(a: string, b: string, c: string, d: string, e: string)
    ensures a + b + c + d + e == a + (b + c + d + e) == (a + b) + c + (d + e)
  {
  }

  /** Neither tag repeats its first code unit `<`. */
  lemma TagsStartOnce()
    ensures forall d :: 1 <= d < |GROUP_OPEN| ==> GROUP_OPEN[d] != GROUP_OPEN[0]
    ensures forall d :: 1 <= d < |GROUP_CLOSE| ==> GROUP_CLOSE[d] != GROUP_CLOSE[0]
  {
  }

  /** No property group starts in a text without `<PropertyGroup>` that is
      followed by a `<`. */
  lemma NoGroupBefore(x: string, y: string)
    requires !Includes(x, GROUP_OPEN) && |y| >= 1 && y[0] == '<'
    ensures forall j: nat :: j < |x| ==> ExecAt(PROPERTY_GROUP, x + y, j).None?
  {
    TagsStartOnce();
    forall j: nat | j < |x|
      ensures ExecAt(PROPERTY_GROUP, x + y, j).None?
    {
      NoOccurrenceBefore(x, y, GROUP_OPEN, j);
    }
  }

  /** No `</PropertyGroup>` starts inside a body that does not include one and
      is followed by a `<`. */
  lemma NoCloseInside(x: string, b: string, z: string)
    requires !Includes(b, GROUP_CLOSE) && |z| >= 1 && z[0] == '<'
    ensures forall j :: |x| < j < |x| + |b| ==> !OccursAt(x + b + z, GROUP_CLOSE, j)
  {
    TagsStartOnce();
    forall j | |x| < j < |x| + |b|
      ensures !OccursAt(x + b + z, GROUP_CLOSE, j)
    {
      NoOccurrenceBefore(b, z, GROUP_CLOSE, j - |x|);
      assert x + b + z == x + (b + z);
      OccursShift(x, b + z, GROUP_CLOSE, j - |x|);
    }
  }

  /** `exec` finds the first property group of a text and captures its body
      up to the first `</PropertyGroup>`. */
  lemma FirstGroupMatch(x: string, b: string, z: string)
    requires !Includes(x, GROUP_OPEN)
    requires OnOneLine(b) && !Includes(b, GROUP_CLOSE)
    ensures var r := Exec(PROPERTY_GROUP, x + GROUP_OPEN + b + GROUP_CLOSE + z, 0);
            r.Some? && r.value.groups[0] == b
  {
    var t := x + GROUP_OPEN + b + GROUP_CLOSE + z;
    Regroup(x, GROUP_OPEN, b, GROUP_CLOSE, z);
    var i := |x|;
    assert OccursAt(t, GROUP_OPEN + b + GROUP_CLOSE, i) by {
      assert t[i..i + |GROUP_OPEN + b + GROUP_CLOSE|] == GROUP_OPEN + b + GROUP_CLOSE;
    }
    NoCloseInside(x + GROUP_OPEN, b, GROUP_CLOSE + z);
    DelimitedFirstClose(t, i, GROUP_OPEN, b, GROUP_CLOSE);
    NoGroupBefore(x, GROUP_OPEN + b + GROUP_CLOSE + z);
    ExecLeftmost(PROPERTY_GROUP, t, 0, ExecAt(PROPERTY_GROUP, t, i).value);
  }

  /** The first `<PropertyGroup>` of a file is the one read, and its body is
      captured up to the first `</PropertyGroup>`: when the text before it has
      no `<PropertyGroup>` and its body, without `\n`, is on one line and has
      no `</PropertyGroup>`, the parameters are those of that body. */
  lemma FirstGroupBody(pre: string, body: string, post: string)
    requires !Includes(RemoveNewlines(pre), GROUP_OPEN)
    requires OnOneLine(RemoveNewlines(body)) && !Includes(RemoveNewlines(body), GROUP_CLOSE)
    ensures ParametersOf(pre + GROUP_OPEN + body + GROUP_CLOSE + post) ==
            Some(BlockParameters(RemoveNewlines(body), 0))
  {
    RemoveNewlinesAround(pre, GROUP_OPEN, body, GROUP_CLOSE, post);
    FirstGroupMatch(RemoveNewlines(pre), RemoveNewlines(body), RemoveNewlines(post));
  }

  /** A properties file whose first property group holds plain elements
      declares exactly those elements' names and values, in order, however
      the lines are indented. */
  lemma PropertiesFileReadBack(pre: string, body: string, post: string, es: seq<Element>, tail: string)
    requires forall e :: e in es ==> Plain(e)
    requires '<' !in tail && RemoveNewlines(body) == ElementsText(es) + tail
    requires !Includes(RemoveNewlines(pre), GROUP_OPEN)
    requires OnOneLine(RemoveNewlines(body)) && !Includes(RemoveNewlines(body), GROUP_CLOSE)
    ensures ParametersOf(pre + GROUP_OPEN + body + GROUP_CLOSE + post) == Some(Declared(es))
  {
    FirstGroupBody(pre, body, post);
    ElementsReadBack(es, tail);
  }

  /** `<A>v</B>` declares `A` with value `v`: the closing name is not compared
      with the opening one. */
  lemma MismatchedCloseIgnored()
    ensures BlockParameters("<A>v</B>", 0) == [Parameter("A", "v")]
  {
    var e := Element("", "A", "v", "B");
    assert Plain(e);
    ElementsReadBack([e], "");
    assert ElementsText([e]) + "" == "<A>v</B>";
  }

  /** `(.+?)` needs at least one code unit, so an empty group does not end at
      its own `</PropertyGroup>`: the body runs on to the next one on the line
      and captures the first close tag. */
  lemma EmptyGroupRunsOn(rest: string)
    requires '<' !in rest && forall k :: 0 <= k < |rest| ==> !IsLineTerminator(rest[k])
    ensures var r := ExecAt(PROPERTY_GROUP, GROUP_OPEN + GROUP_CLOSE + rest + GROUP_CLOSE, 0);
            r.Some? && r.value.groups[0] == GROUP_CLOSE + rest
  {
    var g := GROUP_CLOSE + rest;
    var s := GROUP_OPEN + g + GROUP_CLOSE;
    assert s == GROUP_OPEN + GROUP_CLOSE + rest + GROUP_CLOSE;
    assert OnOneLine(g) by {
      forall k | 0 <= k < |g| ensures !IsLineTerminator(g[k]) {
        if k >= |GROUP_CLOSE| { assert g[k] == rest[k - |GROUP_CLOSE|]; }
      }
    }
    assert OccursAt(s, GROUP_OPEN + g + GROUP_CLOSE, 0);
    TagsStartOnce();
    forall j | |GROUP_OPEN| < j < |GROUP_OPEN| + |g|
      ensures !OccursAt(s, GROUP_CLOSE, j)
    {
      var k := j - |GROUP_OPEN|;
      assert s[j] == g[k];
      if k < |GROUP_CLOSE| {
        assert g[k] == GROUP_CLOSE[k];
      } else {
        assert g[k] == rest[k - |GROUP_CLOSE|];
      }
      assert s[j] != GROUP_CLOSE[0];
    }
    DelimitedFirstClose(s, 0, GROUP_OPEN, g, GROUP_CLOSE);
  }
}
