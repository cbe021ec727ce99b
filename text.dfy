/** String helpers shared by the extension and the diagnostics provider.
    A Dafny `char` is a Unicode scalar value, so a string here is a sequence of
    JavaScript's UTF-16 code units only while every character is at or below
    U+FFFF. */
module Text {

  datatype Option<T> = None | Some(value: T)

  /** The literal `lit` occurs in `s` starting at index `i`. */
  predicate OccursAt(s: string, lit: string, i: int)
  {
    0 <= i && i + |lit| <= |s| && s[i..i + |lit|] == lit
  }

  /** An occurrence at `i` is `s` split around `lit`, and the reverse. */
  lemma OccursIffSplit(s: string, lit: string)
    ensures (exists i | 0 <= i <= |s| - |lit| :: OccursAt(s, lit, i)) <==> exists u, v :: s == u + lit + v
  {
    if exists i | 0 <= i <= |s| - |lit| :: OccursAt(s, lit, i) {
      var i :| 0 <= i <= |s| - |lit| && OccursAt(s, lit, i);
      assert s == s[..i] + lit + s[i + |lit|..];
    }
    if exists u, v :: s == u + lit + v {
      var u, v :| s == u + lit + v;
      assert s[|u|..|u| + |lit|] == lit;
      assert OccursAt(s, lit, |u|);
    }
  }

  /** JavaScript's `String.prototype.includes`: `s` is some text, then `lit`,
      then some text. */
  predicate Includes(s: string, lit: string): (b: bool)
    ensures b <==> exists u, v :: s == u + lit + v
  {
    OccursIffSplit(s, lit);
    exists i | 0 <= i <= |s| - |lit| :: OccursAt(s, lit, i)
  }

  /** The last `|suffix|` code units are `suffix` exactly when `s` is some text followed by it. */
  lemma SuffixIffSplit(s: string, suffix: string)
    ensures (|suffix| <= |s| && s[|s| - |suffix|..] == suffix) <==> exists u :: s == u + suffix
  {
    if |suffix| <= |s| && s[|s| - |suffix|..] == suffix {
      assert s == s[..|s| - |suffix|] + suffix;
    }
    if exists u :: s == u + suffix {
      var u :| s == u + suffix;
      assert s[|s| - |suffix|..] == suffix;
    }
  }

  /** JavaScript's `String.prototype.endsWith`: `s` is some text followed by `suffix`. */
  predicate EndsWith(s: string, suffix: string): (b: bool)
    ensures b <==> exists u :: s == u + suffix
  {
    SuffixIffSplit(s, suffix);
    |suffix| <= |s| && s[|s| - |suffix|..] == suffix
  }

  /** The first occurrence of `lit` in `s` at or after `from`, or -1. */
  function IndexOfFrom(s: string, lit: string, from: nat): (r: int)
    ensures -1 <= r
    ensures r >= 0 ==> from <= r && OccursAt(s, lit, r)
    ensures r >= 0 ==> forall j :: from <= j < r ==> !OccursAt(s, lit, j)
    ensures r == -1 ==> forall j :: from <= j ==> !OccursAt(s, lit, j)
    decreases |s| - from
  {
    if from + |lit| > |s| then -1
    else if s[from..from + |lit|] == lit then from
    else IndexOfFrom(s, lit, from + 1)
  }

  /** JavaScript's `String.prototype.indexOf`: the first occurrence of `lit` in `s`, or -1. */
  function IndexOf(s: string, lit: string): (r: int)
    ensures -1 <= r
    ensures r >= 0 ==> OccursAt(s, lit, r) && forall j :: 0 <= j < r ==> !OccursAt(s, lit, j)
    ensures r >= 0 <==> Includes(s, lit)
  {
    IndexOfFrom(s, lit, 0)
  }
}
