/** The three fixed regular expressions of the extension, each as an explicit
    scanner with JavaScript's semantics:
    - `.` matches any code unit except a line terminator (no `s` flag);
    - a lazy group `(.+?)` tries the shortest length first, so at a given start
      the engine picks the match whose group lengths are lexicographically least;
    - `exec` on a `g` regular expression picks the leftmost start at or after
      `lastIndex`, and the caller resumes at the end of that match.
    The `m` flag of the source patterns has no effect: none uses `^` or `$`. */
module Regex {
  import opened Text

  /** The patterns the extension uses. */
  datatype Pattern =
    | Delimited(open: string, close: string)  // open(.+?)close
    | ElementTag                              // <(.+?)>(.+?)<\/(.+?)>

  /** The result of one successful `exec`: `index`, the end (the new `lastIndex`)
      and the captured groups `m[1]`, `m[2]`, ... */
  datatype Match = Match(index: nat, end: nat, groups: seq<string>)

  /** Code units that `.` does not match. */
  predicate IsLineTerminator(c: char)
  {
    c == '\n' || c == '\r' || c == '\U{2028}' || c == '\U{2029}'
  }

  /** Every code unit of `s[lo..hi]` is matched by `.`. */
  predicate AllDot(s: string, lo: int, hi: int)
    requires 0 <= lo <= hi <= |s|
  {
    forall j :: lo <= j < hi ==> !IsLineTerminator(s[j])
  }

  lemma AllDotExtend(s: string, lo: int, hi: int)
    requires 0 <= lo <= hi < |s| && AllDot(s, lo, hi) && !IsLineTerminator(s[hi])
    ensures AllDot(s, lo, hi + 1)
  {
  }

  /** A capture is non-empty and lies on one line. */
  predicate OnOneLine(g: string)
  {
    |g| >= 1 && forall j :: 0 <= j < |g| ==> !IsLineTerminator(g[j])
  }

  /** `(.+?)close` matches at `p` with a group of length `k`. */
  predicate GroupThenAt(s: string, p: int, k: int, close: string)
  {
    0 <= p && 1 <= k && p + k <= |s| && AllDot(s, p, p + k) && OccursAt(s, close, p + k)
  }

  /** `open(.+?)close` matches at `i` with a group of length `k`. */
  predicate DelimitedAt(s: string, i: int, open: string, close: string, k: int)
  {
    OccursAt(s, open, i) && GroupThenAt(s, i + |open|, k, close)
  }

  /** `(.+?)<\/(.+?)>` matches at `p` with group lengths `b` and `c`. */
  predicate ValueCloseAt(s: string, p: int, b: int, c: int)
  {
    GroupThenAt(s, p, b, "</") && GroupThenAt(s, p + b + 2, c, ">")
  }

  /** `(.+?)>(.+?)<\/(.+?)>` matches at `p` with group lengths `a`, `b`, `c`. */
  predicate NameValueCloseAt(s: string, p: int, a: int, b: int, c: int)
  {
    GroupThenAt(s, p, a, ">") && ValueCloseAt(s, p + a + 1, b, c)
  }

  /** `<(.+?)>(.+?)<\/(.+?)>` matches at `i` with group lengths `a`, `b`, `c`. */
  predicate ElementAt(s: string, i: int, a: int, b: int, c: int)
  {
    OccursAt(s, "<", i) && NameValueCloseAt(s, i + 1, a, b, c)
  }

  predicate Lex2(b: int, c: int, b': int, c': int)
  {
    b < b' || (b == b' && c <= c')
  }

  predicate Lex3(a: int, b: int, c: int, a': int, b': int, c': int)
  {
    a < a' || (a == a' && Lex2(b, c, b', c'))
  }

  /** Once `s[p..p + k]` runs past the end or over a line terminator, no longer group fits either. */
  lemma GroupBlocked(s: string, p: nat, k: nat, close: string)
    requires 1 <= k && (p + k > |s| || IsLineTerminator(s[p + k - 1]))
    ensures forall k' :: k <= k' ==> !GroupThenAt(s, p, k', close)
  {
    forall k' | k <= k'
      ensures !GroupThenAt(s, p, k', close)
    {
      if p + k' <= |s| {
        assert IsLineTerminator(s[p + k - 1]);
      }
    }
  }

  /** The lazy search for `(.+?)close` at `p`, having rejected the lengths below `k`. */
  function LazyGroupFrom(s: string, p: nat, k: nat, close: string): (r: Option<nat>)
    requires 1 <= k && p + k - 1 <= |s| && AllDot(s, p, p + k - 1)
    ensures r.Some? ==> k <= r.value && GroupThenAt(s, p, r.value, close)
    ensures r.Some? ==> forall k' :: k <= k' < r.value ==> !GroupThenAt(s, p, k', close)
    ensures r.None? ==> forall k' :: k <= k' ==> !GroupThenAt(s, p, k', close)
    decreases |s| - (p + k)
  {
    if p + k > |s| || IsLineTerminator(s[p + k - 1]) then GroupBlocked(s, p, k, close); None
    else if OccursAt(s, close, p + k) then Some(k)
    else AllDotExtend(s, p, p + k - 1); LazyGroupFrom(s, p, k + 1, close)
  }

  /** The lazy search for `(.+?)<\/(.+?)>` at `p`, having rejected the first-group lengths below `b`. */
  function LazyValueFrom(s: string, p: nat, b: nat): (r: Option<(nat, nat)>)
    requires 1 <= b && p + b - 1 <= |s| && AllDot(s, p, p + b - 1)
    ensures r.Some? ==> b <= r.value.0 && ValueCloseAt(s, p, r.value.0, r.value.1)
    ensures r.Some? ==> forall b', c' :: b <= b' && ValueCloseAt(s, p, b', c') ==> Lex2(r.value.0, r.value.1, b', c')
    ensures r.None? ==> forall b', c' :: b <= b' ==> !ValueCloseAt(s, p, b', c')
    decreases |s| - (p + b)
  {
    if p + b > |s| || IsLineTerminator(s[p + b - 1]) then GroupBlocked(s, p, b, "</"); None
    else if OccursAt(s, "</", p + b) then
      match LazyGroupFrom(s, p + b + 2, 1, ">")
      case Some(c) => Some((b, c))
      case None => AllDotExtend(s, p, p + b - 1); LazyValueFrom(s, p, b + 1)
    else AllDotExtend(s, p, p + b - 1); LazyValueFrom(s, p, b + 1)
  }

  /** The lazy search for `(.+?)>(.+?)<\/(.+?)>` at `p`, having rejected the first-group lengths below `a`. */
  function LazyNameFrom(s: string, p: nat, a: nat): (r: Option<(nat, nat, nat)>)
    requires 1 <= a && p + a - 1 <= |s| && AllDot(s, p, p + a - 1)
    ensures r.Some? ==> a <= r.value.0 && NameValueCloseAt(s, p, r.value.0, r.value.1, r.value.2)
    ensures r.Some? ==> forall a', b', c' :: a <= a' && NameValueCloseAt(s, p, a', b', c') ==>
                          Lex3(r.value.0, r.value.1, r.value.2, a', b', c')
    ensures r.None? ==> forall a', b', c' :: a <= a' ==> !NameValueCloseAt(s, p, a', b', c')
    decreases |s| - (p + a), 1
  {
    if p + a > |s| || IsLineTerminator(s[p + a - 1]) then GroupBlocked(s, p, a, ">"); None
    else if OccursAt(s, ">", p + a) then
      match LazyValueFrom(s, p + a + 1, 1)
      case Some((b, c)) => NameFound(s, p, a, b, c); Some((a, b, c))
      case None => NameSkipped(s, p, a, p + a + 1); NextName(s, p, a)
    else NameSkipped(s, p, a, p + a + 1); NextName(s, p, a)
  }

  /** The search after rejecting name length `a`: what `LazyNameFrom(s, p, a + 1)`
      finds is also the least from `a` on. */
  function NextName(s: string, p: nat, a: nat): (r: Option<(nat, nat, nat)>)
    requires 1 <= a && p + a <= |s| && AllDot(s, p, p + a - 1) && !IsLineTerminator(s[p + a - 1])
    requires forall b', c' :: !NameValueCloseAt(s, p, a, b', c')
    ensures r.Some? ==> a <= r.value.0 && NameValueCloseAt(s, p, r.value.0, r.value.1, r.value.2)
    ensures r.Some? ==> forall a', b', c' :: a <= a' && NameValueCloseAt(s, p, a', b', c') ==>
                          Lex3(r.value.0, r.value.1, r.value.2, a', b', c')
    ensures r.None? ==> forall a', b', c' :: a <= a' ==> !NameValueCloseAt(s, p, a', b', c')
    decreases |s| - (p + a), 0
  {
    AllDotExtend(s, p, p + a - 1);
    LazyNameFrom(s, p, a + 1)
  }

  /** The least value and close lengths after a name of length `a` give the
      least match among names of length `a` or more. */
  lemma NameFound(s: string, p: nat, a: nat, b: nat, c: nat)
    requires forall b', c' :: 1 <= b' && ValueCloseAt(s, p + a + 1, b', c') ==> Lex2(b, c, b', c')
    ensures forall a', b', c' :: a <= a' && NameValueCloseAt(s, p, a', b', c') ==> Lex3(a, b, c, a', b', c')
  {
  }

  /** A name of length `a` that is not followed by `>`, or after which no
      value and close fit, gives no match. */
  lemma NameSkipped(s: string, p: nat, a: nat, q: nat)
    requires q == p + a + 1
    requires !OccursAt(s, ">", p + a) || forall b', c' :: 1 <= b' ==> !ValueCloseAt(s, q, b', c')
    ensures forall b', c' :: !NameValueCloseAt(s, p, a, b', c')
  {
  }

  /** Some match of `pat` starts at `i`. */
  ghost predicate MatchesAt(pat: Pattern, s: string, i: int)
  {
    match pat
    case Delimited(open, close) => exists k :: DelimitedAt(s, i, open, close, k)
    case ElementTag => exists a, b, c :: ElementAt(s, i, a, b, c)
  }

  /** `m` is the match the backtracking engine reports for `pat` when it tries start `m.index`:
      the one whose group lengths are lexicographically least. */
  ghost predicate IsLazyMatch(pat: Pattern, s: string, m: Match)
  {
    match pat
    case Delimited(open, close) =>
      |m.groups| == 1 &&
      var i, k := m.index, |m.groups[0]|;
      DelimitedAt(s, i, open, close, k) &&
      m.groups[0] == s[i + |open|..i + |open| + k] &&
      m.end == i + |open| + k + |close| &&
      forall k' :: 1 <= k' < k ==> !DelimitedAt(s, i, open, close, k')
    case ElementTag =>
      |m.groups| == 3 &&
      var i, a, b, c := m.index, |m.groups[0]|, |m.groups[1]|, |m.groups[2]|;
      ElementAt(s, i, a, b, c) &&
      m.groups[0] == s[i + 1..i + 1 + a] &&
      m.groups[1] == s[i + a + 2..i + a + 2 + b] &&
      m.groups[2] == s[i + a + b + 4..i + a + b + 4 + c] &&
      m.end == i + a + b + c + 5 &&
      forall a', b', c' :: ElementAt(s, i, a', b', c') ==> Lex3(a, b, c, a', b', c')
  }

  function GroupCount(pat: Pattern): nat
  {
    if pat.Delimited? then 1 else 3
  }

  /** A group captured over `.`-only code units lies on one line. */
  lemma SliceOnOneLine(s: string, lo: nat, hi: nat)
    requires lo < hi <= |s| && AllDot(s, lo, hi)
    ensures OnOneLine(s[lo..hi])
  {
    forall j | 0 <= j < hi - lo
      ensures !IsLineTerminator(s[lo..hi][j])
    {
      assert s[lo..hi][j] == s[lo + j];
    }
  }

  /** The match reported for an element at `i` with group lengths `a`, `b`, `c`. */
  function ElementMatch(s: string, i: nat, a: nat, b: nat, c: nat): Match
    requires i + a + b + c + 5 <= |s|
  {
    Match(i, i + a + b + c + 5,
          [s[i + 1..i + 1 + a], s[i + a + 2..i + a + 2 + b], s[i + a + b + 4..i + a + b + 4 + c]])
  }

  /** The lengths the lazy search finds give the lazy match, with every capture on one line. */
  lemma ElementMatchIsLazy(s: string, i: nat, a: nat, b: nat, c: nat)
    requires OccursAt(s, "<", i) && LazyNameFrom(s, i + 1, 1) == Some((a, b, c))
    ensures i + a + b + c + 5 <= |s|
    ensures ElementAt(s, i, a, b, c)
    ensures IsLazyMatch(ElementTag, s, ElementMatch(s, i, a, b, c))
  {
    ElementLeast(s, i, a, b, c);
    var m := ElementMatch(s, i, a, b, c);
    var g := m.groups;
    assert m.index == i && m.end == i + a + b + c + 5;
    assert |g| == 3 && g[0] == s[i + 1..i + 1 + a] && g[1] == s[i + a + 2..i + a + 2 + b];
    assert g[2] == s[i + a + b + 4..i + a + b + 4 + c];
    assert |g[0]| == a && |g[1]| == b && |g[2]| == c;
    ElementLazyFromParts(s, m);
  }

  /** The three captures of an element match lie on one line. */
  lemma ElementGroupsOnOneLine(s: string, i: nat, a: nat, b: nat, c: nat)
    requires ElementAt(s, i, a, b, c)
    ensures OnOneLine(s[i + 1..i + 1 + a]) && OnOneLine(s[i + a + 2..i + a + 2 + b])
    ensures OnOneLine(s[i + a + b + 4..i + a + b + 4 + c])
  {
    SliceOnOneLine(s, i + 1, i + 1 + a);
    SliceOnOneLine(s, i + a + 2, i + a + 2 + b);
    SliceOnOneLine(s, i + a + b + 4, i + a + b + 4 + c);
  }

  /** An element match whose captures are the text between its delimiters and
      whose lengths are the least is the lazy match. */
  lemma ElementLazyFromParts(s: string, m: Match)
    requires |m.groups| == 3
    requires var i, a, b, c := m.index, |m.groups[0]|, |m.groups[1]|, |m.groups[2]|;
             ElementAt(s, i, a, b, c) &&
             m.groups[0] == s[i + 1..i + 1 + a] &&
             m.groups[1] == s[i + a + 2..i + a + 2 + b] &&
             m.groups[2] == s[i + a + b + 4..i + a + b + 4 + c] &&
             m.end == i + a + b + c + 5 &&
             forall a', b', c' :: ElementAt(s, i, a', b', c') ==> Lex3(a, b, c, a', b', c')
    ensures IsLazyMatch(ElementTag, s, m)
  {
  }

  /** The lengths the lazy search finds are the least of all matches at `i`. */
  lemma ElementLeast(s: string, i: nat, a: nat, b: nat, c: nat)
    requires OccursAt(s, "<", i) && LazyNameFrom(s, i + 1, 1) == Some((a, b, c))
    ensures ElementAt(s, i, a, b, c)
    ensures forall a', b', c' :: ElementAt(s, i, a', b', c') ==> Lex3(a, b, c, a', b', c')
  {
    assert NameValueCloseAt(s, i + 1, a, b, c);
    forall a', b', c' | ElementAt(s, i, a', b', c')
      ensures Lex3(a, b, c, a', b', c')
    {
      assert NameValueCloseAt(s, i + 1, a', b', c');
    }
  }

  /** `ExecAt` for `open(.+?)close`. */
  function DelimitedExecAt(s: string, i: nat, open: string, close: string): (r: Option<Match>)
    ensures r.Some? <==> MatchesAt(Delimited(open, close), s, i)
    ensures r.Some? ==> IsLazyMatch(Delimited(open, close), s, r.value)
    ensures r.Some? ==> r.value.index == i && i < r.value.end <= |s| && |r.value.groups| == 1
    ensures r.Some? ==> OnOneLine(r.value.groups[0])
  {
    if OccursAt(s, open, i) then
      match LazyGroupFrom(s, i + |open|, 1, close)
      case Some(k) =>
        assert DelimitedAt(s, i, open, close, k);
        SliceOnOneLine(s, i + |open|, i + |open| + k);
        Some(Match(i, i + |open| + k + |close|, [s[i + |open|..i + |open| + k]]))
      case None => None
    else None
  }

  /** `ExecAt` for `<(.+?)>(.+?)<\/(.+?)>`. */
  function ElementExecAt(s: string, i: nat): (r: Option<Match>)
    ensures r.Some? <==> MatchesAt(ElementTag, s, i)
    ensures r.Some? ==> IsLazyMatch(ElementTag, s, r.value)
    ensures r.Some? ==> r.value.index == i && i < r.value.end <= |s| && |r.value.groups| == 3
    ensures r.Some? ==> OnOneLine(r.value.groups[0]) && OnOneLine(r.value.groups[1]) && OnOneLine(r.value.groups[2])
  {
    if OccursAt(s, "<", i) then
      match LazyNameFrom(s, i + 1, 1)
      case Some((a, b, c)) =>
        ElementMatchIsLazy(s, i, a, b, c);
        ElementGroupsOnOneLine(s, i, a, b, c);
        Some(ElementMatch(s, i, a, b, c))
      case None => None
    else None
  }

  /** The match the engine finds when it tries start `i`, if any. */
  function ExecAt(pat: Pattern, s: string, i: nat): (r: Option<Match>)
    ensures r.Some? <==> MatchesAt(pat, s, i)
    ensures r.Some? ==> IsLazyMatch(pat, s, r.value)
    ensures r.Some? ==> r.value.index == i && i < r.value.end <= |s|
    ensures r.Some? ==> |r.value.groups| == GroupCount(pat)
    ensures r.Some? ==> forall g :: g in r.value.groups ==> OnOneLine(g)
  {
    match pat
    case Delimited(open, close) => DelimitedExecAt(s, i, open, close)
    case ElementTag => ElementExecAt(s, i)
  }

  /** `exec` with `lastIndex == from`: the leftmost match starting at or after `from`. */
  function Exec(pat: Pattern, s: string, from: nat): (r: Option<Match>)
    ensures r.Some? ==> from <= r.value.index && ExecAt(pat, s, r.value.index) == r
    ensures forall i: nat :: from <= i && (r.None? || i < r.value.index) ==> ExecAt(pat, s, i).None?
    decreases |s| - from
  {
    if from >= |s| then None
    else
      match ExecAt(pat, s, from)
      case Some(m) => Some(m)
      case None => Exec(pat, s, from + 1)
  }

  /** The matches a `while ((m = re.exec(s)) !== null)` loop sees, starting with
      `lastIndex == from`: each is the match at its own start, at or after `from`. */
  function MatchAll(pat: Pattern, s: string, from: nat): (ms: seq<Match>)
    ensures forall j :: 0 <= j < |ms| ==> ExecAt(pat, s, ms[j].index) == Some(ms[j])
    ensures forall j :: 0 <= j < |ms| ==> from <= ms[j].index
    decreases |s| - from
  {
    match Exec(pat, s, from)
    case None => []
    case Some(m) => [m] + MatchAll(pat, s, m.end)
  }
}

module RegexFacts {
  import opened Text
  import opened Regex

  /** Position `i` lies inside one of the matches `ms`. */
  ghost predicate CoveredBy(ms: seq<Match>, i: nat)
  {
    exists j :: 0 <= j < |ms| && ms[j].index <= i < ms[j].end
  }

  /** The `g`-flag loop misses no match: every start where the pattern matches
      lies inside one of the reported matches. */
  lemma {:induction false} MatchAllCovers(pat: Pattern, s: string, from: nat, i: nat)
    requires from <= i && ExecAt(pat, s, i).Some?
    ensures CoveredBy(MatchAll(pat, s, from), i)
    decreases |s| - from
  {
    var r := Exec(pat, s, from);
    assert r.Some?;
    var m := r.value;
    var rest := MatchAll(pat, s, m.end);
    var ms := MatchAll(pat, s, from);
    assert ms == [m] + rest;
    if i < m.end {
      assert ms[0].index <= i < ms[0].end;
    } else {
      MatchAllCovers(pat, s, m.end, i);
      CoveredByCons(m, rest, i);
    }
  }

  /** A position covered by the later matches is covered by the whole list. */
  lemma CoveredByCons(m: Match, rest: seq<Match>, i: nat)
    requires CoveredBy(rest, i)
    ensures CoveredBy([m] + rest, i)
  {
    var j :| 0 <= j < |rest| && rest[j].index <= i < rest[j].end;
    assert ([m] + rest)[j + 1] == rest[j];
  }

  /** Each match ends at or before the next one starts. */
  predicate InOrder(ms: seq<Match>)
  {
    forall j :: 0 <= j < |ms| - 1 ==> ms[j].end <= ms[j + 1].index
  }

  /** The matches of the `g`-flag loop come in document order and do not overlap. */
  lemma {:induction false} MatchAllInOrder(pat: Pattern, s: string, from: nat)
    ensures InOrder(MatchAll(pat, s, from))
    decreases |s| - from
  {
    var r := Exec(pat, s, from);
    if r.Some? {
      var m := r.value;
      var rest := MatchAll(pat, s, m.end);
      MatchAllInOrder(pat, s, m.end);
      assert |rest| > 0 ==> m.end <= rest[0].index;
      InOrderCons(m, rest);
    }
  }

  /** A match that ends before an ordered run starts extends it. */
  lemma InOrderCons(m: Match, rest: seq<Match>)
    requires InOrder(rest) && (|rest| > 0 ==> m.end <= rest[0].index)
    ensures InOrder([m] + rest)
  {
    var ms := [m] + rest;
    forall j | 0 <= j < |ms| - 1
      ensures ms[j].end <= ms[j + 1].index
    {
      assert ms[j + 1] == rest[j];
      if j > 0 {
        assert ms[j] == rest[j - 1];
      }
    }
  }

  /** A match at or after `from` with no match at any start before it is what `exec` finds. */
  lemma ExecLeftmost(pat: Pattern, s: string, from: nat, m: Match)
    requires from <= m.index && ExecAt(pat, s, m.index) == Some(m)
    requires forall i: nat :: from <= i < m.index ==> ExecAt(pat, s, i).None?
    ensures Exec(pat, s, from) == Some(m)
  {
  }

  /** `exec` from the start finds a match exactly when the pattern matches somewhere. */
  lemma ExecSomeIff(pat: Pattern, s: string)
    ensures Exec(pat, s, 0).Some? <==> exists i: nat :: MatchesAt(pat, s, i)
  {
    var r := Exec(pat, s, 0);
    if r.Some? {
      assert MatchesAt(pat, s, r.value.index);
    } else {
      forall i: nat
        ensures !MatchesAt(pat, s, i)
      {
        assert ExecAt(pat, s, i).None?;
      }
    }
  }

  /** An occurrence in `u + v` past `u` is an occurrence in `v`, and the reverse. */
  lemma OccursShift(u: string, v: string, lit: string, k: nat)
    ensures OccursAt(u + v, lit, |u| + k) <==> OccursAt(v, lit, k)
  {
    if k + |lit| <= |v| {
      assert (u + v)[|u| + k..|u| + k + |lit|] == v[k..k + |lit|];
    }
  }

  /** A literal whose first code unit does not recur in it cannot start in `x`
      and run into `y` when `y` starts with that code unit; so, when `x` does
      not include it, no occurrence starts in `x`. */
  lemma NoOccurrenceBefore(x: string, y: string, lit: string, i: nat)
    requires |lit| >= 1 && forall d :: 1 <= d < |lit| ==> lit[d] != lit[0]
    requires !Includes(x, lit) && i < |x| && |y| >= 1 && y[0] == lit[0]
    ensures !OccursAt(x + y, lit, i)
  {
    if i + |lit| <= |x| {
      assert !OccursAt(x, lit, i);
      assert (x + y)[i..i + |lit|] == x[i..i + |lit|];
    } else if i + |lit| <= |x + y| {
      var d := |x| - i;
      assert (x + y)[i..i + |lit|][d] == y[0];
    }
  }

  /** `open(.+?)close` captures `g` when `g` is on one line and `close` starts
      nowhere inside it: the lazy group stops at the first `close`. */
  lemma DelimitedFirstClose(s: string, i: nat, open: string, g: string, close: string)
    requires OccursAt(s, open + g + close, i) && OnOneLine(g)
    requires forall j :: i + |open| < j < i + |open| + |g| ==> !OccursAt(s, close, j)
    ensures var r := ExecAt(Delimited(open, close), s, i);
            r.Some? && r.value.end == i + |open| + |g| + |close| && r.value.groups[0] == g
  {
    var p := i + |open|;
    OccursConcat(s, open + g, close, i);
    OccursConcat(s, open, g, i);
    OccursAllDot(s, g, p);
    assert DelimitedAt(s, i, open, close, |g|);
    var m := ExecAt(Delimited(open, close), s, i).value;
    var k := |m.groups[0]|;
    assert DelimitedAt(s, i, open, close, k) && OccursAt(s, close, p + k);
    assert k <= |g|;
    assert k == |g|;
  }

  /** An occurrence of `x + y` is an occurrence of `x` followed by one of `y`. */
  lemma OccursConcat(s: string, x: string, y: string, i: int)
    requires OccursAt(s, x + y, i)
    ensures OccursAt(s, x, i) && OccursAt(s, y, i + |x|)
  {
    assert s[i..i + |x|] == (x + y)[..|x|];
    assert s[i + |x|..i + |x| + |y|] == (x + y)[|x|..];
  }

  /** An occurrence of a one-line text is matched by `.` throughout. */
  lemma OccursAllDot(s: string, g: string, p: int)
    requires OccursAt(s, g, p) && OnOneLine(g)
    ensures AllDot(s, p, p + |g|)
  {
    forall j | p <= j < p + |g|
      ensures !IsLineTerminator(s[j])
    {
      assert s[j] == s[p..p + |g|][j - p];
    }
  }

  /** A least delimited match cannot stop before the first code unit of `close`. */
  lemma DelimitedLeastIsExact(s: string, i: int, open: string, close: string, k: int, k0: int)
    requires DelimitedAt(s, i, open, close, k) && DelimitedAt(s, i, open, close, k0) && |close| >= 1
    requires forall k' :: 1 <= k' < k ==> !DelimitedAt(s, i, open, close, k')
    requires forall j :: i + |open| <= j < i + |open| + k0 ==> s[j] != close[0]
    ensures k == k0
  {
    assert s[i + |open| + k] == s[i + |open| + k..i + |open| + k + |close|][0];
  }

  /** `open(.+?)close` reads back a capture verbatim when the capture cannot
      contain the first code unit of `close`. */
  lemma DelimitedVerbatim(s: string, i: nat, open: string, g: string, close: string)
    requires OccursAt(s, open + g + close, i)
    requires OnOneLine(g) && |close| >= 1 && close[0] !in g
    ensures var r := ExecAt(Delimited(open, close), s, i);
            r.Some? && r.value.end == i + |open| + |g| + |close| && r.value.groups[0] == g
  {
    var p := i + |open|;
    OccursConcat(s, open + g, close, i);
    OccursConcat(s, open, g, i);
    OccursAllDot(s, g, p);
    assert DelimitedAt(s, i, open, close, |g|);
    NotInOccurrence(s, g, p, close[0]);
    var m := ExecAt(Delimited(open, close), s, i).value;
    DelimitedLeastIsExact(s, i, open, close, |m.groups[0]|, |g|);
  }

  /** The text of one element `<name>value</close>`. */
  function ElementText(name: string, value: string, close: string): string
  {
    "<" + name + ">" + value + "</" + close + ">"
  }

  /** An occurrence of an element's text, piece by piece. */
  lemma ElementTextPieces(s: string, i: nat, name: string, value: string, close: string)
    requires OccursAt(s, ElementText(name, value, close), i)
    ensures var pv, pc := i + |name| + 2, i + |name| + |value| + 4;
            OccursAt(s, "<", i) && OccursAt(s, name, i + 1) && OccursAt(s, ">", pv - 1) &&
            OccursAt(s, value, pv) && OccursAt(s, "</", pc - 2) && OccursAt(s, close, pc) &&
            OccursAt(s, ">", pc + |close|)
  {
    OccursConcat(s, "<" + name + ">" + value + "</" + close, ">", i);
    OccursConcat(s, "<" + name + ">" + value + "</", close, i);
    OccursConcat(s, "<" + name + ">" + value, "</", i);
    OccursConcat(s, "<" + name + ">", value, i);
    OccursConcat(s, "<" + name, ">", i);
    OccursConcat(s, "<", name, i);
  }

  /** The literal delimiters that follow each group of an element match. */
  lemma ElementAtDelimiters(s: string, i: int, a: int, b: int, c: int)
    requires ElementAt(s, i, a, b, c)
    ensures s[i + 1 + a] == '>' && s[i + a + 2 + b] == '<' && s[i + a + b + 4 + c] == '>'
  {
    assert s[i + 1 + a] == s[i + 1 + a..i + 2 + a][0];
    assert s[i + a + 2 + b] == s[i + a + 2 + b..i + a + 4 + b][0];
    assert s[i + a + b + 4 + c] == s[i + a + b + 4 + c..i + a + b + 5 + c][0];
  }

  /** A code unit absent from `g` is absent from every occurrence of `g`. */
  lemma NotInOccurrence(s: string, g: string, p: int, ch: char)
    requires OccursAt(s, g, p) && ch !in g
    ensures forall j :: p <= j < p + |g| ==> s[j] != ch
  {
    forall j | p <= j < p + |g|
      ensures s[j] != ch
    {
      assert s[j] == g[j - p];
    }
  }

  /** The element's text matches the pattern with its own group lengths. */
  lemma ElementTextMatches(s: string, i: nat, name: string, value: string, close: string)
    requires OccursAt(s, ElementText(name, value, close), i)
    requires OnOneLine(name) && OnOneLine(value) && OnOneLine(close)
    ensures ElementAt(s, i, |name|, |value|, |close|)
  {
    var pn := i + 1;
    var pv := pn + |name| + 1;
    var pc := pv + |value| + 2;
    ElementTextPieces(s, i, name, value, close);
    OccursAllDot(s, name, pn);
    OccursAllDot(s, value, pv);
    OccursAllDot(s, close, pc);
    assert GroupThenAt(s, pc, |close|, ">");
    assert ValueCloseAt(s, pv, |value|, |close|);
    assert NameValueCloseAt(s, pn, |name|, |value|, |close|);
  }

  /** A lexicographically least element match cannot stop before a group's first delimiter. */
  lemma LexLeastIsExact(s: string, i: int, a: int, b: int, c: int, a0: int, b0: int, c0: int)
    requires ElementAt(s, i, a, b, c) && Lex3(a, b, c, a0, b0, c0)
    requires 0 <= i && 0 <= a0 && 0 <= b0 && 0 <= c0 && i + a0 + b0 + c0 + 4 <= |s|
    requires forall j :: i + 1 <= j < i + 1 + a0 ==> s[j] != '>'
    requires forall j :: i + a0 + 2 <= j < i + a0 + 2 + b0 ==> s[j] != '<'
    requires forall j :: i + a0 + b0 + 4 <= j < i + a0 + b0 + 4 + c0 ==> s[j] != '>'
    ensures a == a0 && b == b0 && c == c0
  {
    ElementAtDelimiters(s, i, a, b, c);
  }

  /** `<(.+?)>(.+?)<\/(.+?)>` reads back a tag name, a value and a closing name
      verbatim when neither name contains `>` and the value contains no `<`;
      the closing name is captured, never compared with the opening one. */
  lemma ElementVerbatim(s: string, i: nat, name: string, value: string, close: string)
    requires OccursAt(s, ElementText(name, value, close), i)
    requires OnOneLine(name) && OnOneLine(value) && OnOneLine(close)
    requires '>' !in name && '<' !in value && '>' !in close
    ensures var r := ExecAt(ElementTag, s, i);
            r.Some? && r.value.end == i + |name| + |value| + |close| + 5 &&
            r.value.groups[0] == name && r.value.groups[1] == value && r.value.groups[2] == close
  {
    ElementTextMatches(s, i, name, value, close);
    var r := ExecAt(ElementTag, s, i);
    assert r.Some?;
    LazyElementIsText(s, r.value, name, value, close);
  }

  /** The lazy match at an element's text captures exactly its pieces. */
  lemma LazyElementIsText(s: string, m: Match, name: string, value: string, close: string)
    requires OccursAt(s, ElementText(name, value, close), m.index)
    requires OnOneLine(name) && OnOneLine(value) && OnOneLine(close)
    requires '>' !in name && '<' !in value && '>' !in close
    requires IsLazyMatch(ElementTag, s, m)
    ensures m.end == m.index + |name| + |value| + |close| + 5
    ensures m.groups[0] == name && m.groups[1] == value && m.groups[2] == close
  {
    var i := m.index;
    var pn := i + 1;
    var pv := pn + |name| + 1;
    var pc := pv + |value| + 2;
    ElementTextPieces(s, i, name, value, close);
    ElementTextMatches(s, i, name, value, close);
    NotInOccurrence(s, name, pn, '>');
    NotInOccurrence(s, value, pv, '<');
    NotInOccurrence(s, close, pc, '>');
    LexLeastIsExact(s, i, |m.groups[0]|, |m.groups[1]|, |m.groups[2]|, |name|, |value|, |close|);
  }
}

/** What text appended after a match of `open(.+?)close` can and cannot change. */
module DelimitedFacts {
  import opened Text
  import opened Regex
  import opened RegexFacts

  /** Whether `open(.+?)close` fits at `i` with group length `k` depends only on
      the code units it covers. */
  lemma DelimitedWithin(s: string, t: string, i: int, open: string, close: string, k: int)
    requires 0 <= i && 1 <= k && i + |open| + k + |close| <= |s|
    ensures DelimitedAt(s + t, i, open, close, k) <==> DelimitedAt(s, i, open, close, k)
  {
    var p := i + |open|;
    assert (s + t)[i..p] == s[i..p];
    assert (s + t)[p + k..p + k + |close|] == s[p + k..p + k + |close|];
    assert forall j :: p <= j < p + k ==> (s + t)[j] == s[j];
  }

  /** A match found in `s` is found unchanged in `s + t`. */
  lemma ExecAtExtend(s: string, t: string, i: nat, open: string, close: string)
    requires ExecAt(Delimited(open, close), s, i).Some?
    ensures ExecAt(Delimited(open, close), s + t, i) == ExecAt(Delimited(open, close), s, i)
  {
    var pat := Delimited(open, close);
    var m := ExecAt(pat, s, i).value;
    var k := |m.groups[0]|;
    var p := i + |open|;
    DelimitedWithin(s, t, i, open, close, k);
    assert MatchesAt(pat, s + t, i);
    var m' := ExecAt(pat, s + t, i).value;
    forall k'' | 1 <= k'' < k
      ensures !DelimitedAt(s + t, i, open, close, k'')
    {
      DelimitedWithin(s, t, i, open, close, k'');
    }
    assert |m'.groups[0]| == k;
    assert (s + t)[p..p + k] == s[p..p + k];
    SingleGroupMatch(m, m');
  }

  /** Two one-group matches with the same start, end and capture are equal. */
  lemma SingleGroupMatch(m: Match, m': Match)
    requires |m.groups| == 1 && |m'.groups| == 1 && m.groups[0] == m'.groups[0]
    requires m.index == m'.index && m.end == m'.end
    ensures m == m'
  {
    assert m.groups == [m.groups[0]] && m'.groups == [m'.groups[0]];
  }

  /** A group of `open(.+?)close` at `i` in `s + t` that runs past a later
      match of `s` can stop at that match's close instead. */
  lemma CloseSooner(s: string, t: string, i: int, j: int, open: string, close: string, k: int, kj: int)
    requires i < j && DelimitedAt(s + t, i, open, close, k) && DelimitedAt(s, j, open, close, kj)
    requires j + |open| + kj + |close| <= |s| < i + |open| + k + |close|
    ensures DelimitedAt(s, i, open, close, j + kj - i)
  {
    var p := i + |open|;
    assert (s + t)[i..p] == s[i..p];
    forall x | p <= x < j + |open| + kj
      ensures !IsLineTerminator(s[x])
    {
      assert (s + t)[x] == s[x];
    }
  }

  /** A start before a match of `s` that matches in `s + t` already matches in
      `s`: if its close lay in `t`, the later match's close would end it sooner. */
  lemma ExecAtEarlier(s: string, t: string, i: nat, j: nat, open: string, close: string)
    requires i < j && ExecAt(Delimited(open, close), s, j).Some?
    ensures ExecAt(Delimited(open, close), s + t, i).Some? ==> ExecAt(Delimited(open, close), s, i).Some?
  {
    var pat := Delimited(open, close);
    if ExecAt(pat, s + t, i).Some? {
      var k := |ExecAt(pat, s + t, i).value.groups[0]|;
      var kj := |ExecAt(pat, s, j).value.groups[0]|;
      if i + |open| + k + |close| <= |s| {
        DelimitedWithin(s, t, i, open, close, k);
        assert DelimitedAt(s, i, open, close, k);
      } else {
        CloseSooner(s, t, i, j, open, close, k, kj);
      }
    }
  }

  /** Text appended after the first match of `open(.+?)close` leaves `exec` from
      the start unchanged. */
  lemma ExecExtend(s: string, t: string, open: string, close: string)
    requires Exec(Delimited(open, close), s, 0).Some?
    ensures Exec(Delimited(open, close), s + t, 0) == Exec(Delimited(open, close), s, 0)
  {
    var pat := Delimited(open, close);
    var m := Exec(pat, s, 0).value;
    ExecAtExtend(s, t, m.index, open, close);
    forall i: nat | i < m.index
      ensures ExecAt(pat, s + t, i).None?
    {
      ExecAtEarlier(s, t, i, m.index, open, close);
    }
    ExecLeftmost(pat, s + t, 0, m);
  }
}
