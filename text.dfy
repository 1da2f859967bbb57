/**
 * String operations the add-in relies on, as JavaScript defines them:
 * `includes`, `indexOf`, `lastIndexOf`, `replace` with a string pattern,
 * `split`/`join` on a one-character separator, `reverse`, `<`/`>` on strings,
 * and the character classes `\s` and "line terminator" of regular expressions.
 */
module Text {
  import opened Wrappers

  /** `s` starts with `p`. */
  predicate IsPrefix(p: string, s: string) {
    |p| <= |s| && s[..|p|] == p
  }

  /** `p` occurs somewhere in `s` (`s.includes(p)`). */
  predicate Occurs(p: string, s: string)
    decreases |s|
  {
    IsPrefix(p, s) || (s != [] && Occurs(p, s[1..]))
  }

  /** `p` cannot occur across the seam of `x + y`: one side is empty, the first
      character of `y` is not a non-initial character of `p`, or the last
      character of `x` is not a non-final character of `p`. */
  predicate NoStraddle(p: string, x: string, y: string) {
    p == [] || x == [] || y == [] || y[0] !in p[1..] || x[|x| - 1] !in p[..|p| - 1]
  }

  // ---------------------------------------------------------------------
  // Occurrences

  lemma {:induction false} OccursAt(p: string, s: string, i: nat)
    requires i <= |s| && IsPrefix(p, s[i..])
    ensures Occurs(p, s)
    decreases i
  {
    if i > 0 {
      assert s[1..][i - 1..] == s[i..];
      OccursAt(p, s[1..], i - 1);
    }
  }

  lemma {:induction false} OccursWitness(p: string, s: string) returns (i: nat)
    requires Occurs(p, s)
    ensures i <= |s| && IsPrefix(p, s[i..])
    decreases |s|
  {
    if IsPrefix(p, s) {
      i := 0;
    } else {
      var j := OccursWitness(p, s[1..]);
      assert s[1..][j..] == s[j + 1..];
      i := j + 1;
    }
  }

  /** No occurrence means no position where `p` starts. */
  lemma NowhereIfAbsent(p: string, s: string)
    ensures !Occurs(p, s) ==> forall j | 0 <= j <= |s| :: !IsPrefix(p, s[j..])
  {
    forall j | 0 <= j <= |s| && IsPrefix(p, s[j..]) ensures Occurs(p, s) {
      OccursAt(p, s, j);
    }
  }

  /** No position where `p` starts means no occurrence. */
  lemma {:induction false} AbsentIfNowhere(p: string, s: string)
    requires forall j | 0 <= j <= |s| :: !IsPrefix(p, s[j..])
    ensures !Occurs(p, s)
    decreases |s|
  {
    assert s[0..] == s;
    if s != [] {
      forall j | 0 <= j <= |s| - 1 ensures !IsPrefix(p, s[1..][j..]) {
        assert s[1..][j..] == s[j + 1..];
      }
      AbsentIfNowhere(p, s[1..]);
    }
  }

  /** Every character of an occurring pattern is in the string. */
  lemma OccursHasChars(p: string, s: string)
    ensures Occurs(p, s) ==> forall k | 0 <= k < |p| :: p[k] in s
  {
    if Occurs(p, s) {
      var i := OccursWitness(p, s);
      forall k | 0 <= k < |p| ensures p[k] in s {
        assert s[i..][..|p|][k] == s[i + k];
      }
    }
  }

  /** A string that lacks some character of `p` does not contain `p`. */
  lemma NotOccursByChar(p: string, s: string, c: char)
    requires c in p && c !in s
    ensures !Occurs(p, s)
  {
    OccursHasChars(p, s);
  }

  lemma CharOccurs(s: string, c: char)
    ensures c in s ==> Occurs([c], s)
  {
    if c in s {
      var i :| 0 <= i < |s| && s[i] == c;
      assert s[i..][..1] == [c];
      OccursAt([c], s, i);
    }
  }

  /** An occurrence in a slice is an occurrence in the whole. */
  lemma OccursInSlice(p: string, s: string, a: nat, b: nat)
    requires a <= b <= |s|
    ensures Occurs(p, s[a..b]) ==> Occurs(p, s)
  {
    if Occurs(p, s[a..b]) {
      var i := OccursWitness(p, s[a..b]);
      assert s[a + i..][..|p|] == s[a..b][i..][..|p|];
      OccursAt(p, s, a + i);
    }
  }

  /** An occurrence starting inside `x` in `x + y` is an occurrence in `x`
      or straddles the seam. */
  lemma StartInside(p: string, x: string, y: string, i: nat)
    requires i < |x|
    ensures IsPrefix(p, (x + y)[i..]) ==> Occurs(p, x) || !NoStraddle(p, x, y)
  {
    if IsPrefix(p, (x + y)[i..]) {
      if i + |p| <= |x| {
        assert x[i..][..|p|] == (x + y)[i..][..|p|];
        OccursAt(p, x, i);
      } else {
        var k := |x| - i;
        assert (x + y)[i..][..|p|] == p;
        assert y[0] == (x + y)[i..][k] == p[k];
        assert p[k] in p[1..];
        assert x[|x| - 1] == (x + y)[i..][k - 1] == p[k - 1];
        assert p[k - 1] in p[..|p| - 1];
      }
    }
  }

  /** An occurrence starting inside `x` in `x + y` is an occurrence in `x`,
      or else `y` starts with the tail of `p`: its first character is the
      last of `p`, or its second character is one of `p`. */
  lemma StartInsideByTwo(p: string, x: string, y: string, i: nat)
    requires i < |x| && |y| >= 2
    ensures IsPrefix(p, (x + y)[i..]) ==>
      Occurs(p, x) || (p != [] && y[0] == p[|p| - 1]) || y[1] in p
  {
    if IsPrefix(p, (x + y)[i..]) {
      if i + |p| <= |x| {
        assert x[i..][..|p|] == (x + y)[i..][..|p|];
        OccursAt(p, x, i);
      } else {
        var k := |x| - i;
        assert (x + y)[i..][..|p|] == p;
        assert y[0] == (x + y)[i..][k] == p[k];
        if k + 1 < |p| {
          assert y[1] == (x + y)[i..][k + 1] == p[k + 1];
        }
      }
    }
  }

  /** Occurrences in a concatenation come from one of the two sides, unless
      `p` can straddle the seam. */
  lemma {:induction false} OccursConcat(p: string, x: string, y: string)
    requires p != [] && NoStraddle(p, x, y)
    ensures Occurs(p, x + y) <==> Occurs(p, x) || Occurs(p, y)
    decreases |x|
  {
    if x == [] {
      assert x + y == y;
    } else {
      assert (x + y)[1..] == x[1..] + y;
      assert NoStraddle(p, x[1..], y);
      OccursConcat(p, x[1..], y);
      StartInside(p, x, y, 0);
      assert (x + y)[0..] == x + y;
      if |x| >= |p| {
        assert (x + y)[..|p|] == x[..|p|];
      }
    }
  }

  /** `n` copies of `c`. */
  function Repeat(c: char, n: nat): (r: string)
    ensures |r| == n && forall i | 0 <= i < n :: r[i] == c
  {
    seq(n, i => c)
  }

  /** Neither side holds `p` and it cannot straddle the seam: the
      concatenation does not hold it either. */
  lemma NotOccursConcat(p: string, x: string, y: string)
    requires p != [] && !Occurs(p, x) && !Occurs(p, y) && NoStraddle(p, x, y)
    ensures !Occurs(p, x + y)
  {
    OccursConcat(p, x, y);
  }

  /** `p` is not a prefix of a text that differs from it at `i`. */
  lemma NotPrefixAt(p: string, s: string, i: nat)
    requires i < |p| && i < |s| && p[i] != s[i]
    ensures !IsPrefix(p, s)
  {
    assert |p| <= |s| ==> s[..|p|][i] == s[i];
  }

  /** `p` does not occur in `s` if it is not a prefix of `s` and the rest of
      `s` lacks a character of `p`. */
  lemma NotOccursPastFront(p: string, s: string, c: char)
    requires s != [] && c in p && c !in s[1..] && !IsPrefix(p, s)
    ensures !Occurs(p, s)
  {
    NotOccursByChar(p, s[1..], c);
  }

  /** ... in particular when `y` starts with a character that cannot
      continue `p`. */
  lemma NoOccurSeam(p: string, x: string, y: string)
    requires p != [] && !Occurs(p, x) && !Occurs(p, y) && (y == [] || y[0] !in p[1..])
    ensures !Occurs(p, x + y)
  {
    NotOccursConcat(p, x, y);
  }


  lemma AppendThree(a: string, b: string, c: string, d: string)
    ensures a + b + c + d == a + (b + (c + d))
  {
  }

  lemma Regroup(x: string, a: string, m: string, b: string, t: string)
    ensures x + (a + m + b) + t == x + (a + (m + (b + t)))
  {
  }

  lemma Reassoc4(a: string, b: string, c: string, d: string, t: string)
    ensures a + (b + (c + d)) + t == a + (b + (c + (d + t)))
  {
  }

  lemma Reassoc6(a: string, b: string, c: string, d: string, e: string, f: string, t: string)
    ensures a + (b + (c + (d + (e + f)))) + t == a + (b + (c + (d + (e + (f + t)))))
  {
  }

  /** Text put at position `i` of `s` sits between the two halves of `s`. */
  lemma SpliceAt(s: string, i: nat, m: string)
    requires i <= |s|
    ensures var w := s[..i] + m + s[i..];
      |w| == |s| + |m| && w[..i] + w[i + |m|..] == s && w[i..i + |m|] == m && w[i + |m|..] == s[i..]
  {
    var w := s[..i] + m + s[i..];
    assert w[..i] == s[..i];
    assert w[i + |m|..] == s[i..];
    assert w[i..i + |m|] == m;
  }

  /** The first character and the rest of `a + t` when `a` is one
      character or more. */
  lemma HeadOf(a: string, t: string)
    requires a != []
    ensures (a + t)[0] == a[0] && (a + t)[1..] == a[1..] + t
  {
  }

  lemma PrefixOfConcat(p: string, rest: string)
    ensures IsPrefix(p, p + rest)
  {
    assert (p + rest)[..|p|] == p;
  }

  /** `t` with the literal `lit` consumed from its front. */
  function Lit(t: string, lit: string): (r: Option<string>)
    ensures r.Some? <==> IsPrefix(lit, t)
    ensures r.Some? ==> t == lit + r.value
  {
    if IsPrefix(lit, t) then Some(t[|lit|..]) else None
  }

  lemma LitOf(lit: string, rest: string)
    ensures Lit(lit + rest, lit) == Some(rest)
  {
    PrefixOfConcat(lit, rest);
  }

  // ---------------------------------------------------------------------
  // Searching

  /** `s.indexOf(p)`: the first position where `p` occurs. */
  function IndexOf(s: string, p: string): (r: Option<nat>)
    ensures r.Some? ==> r.value <= |s| && IsPrefix(p, s[r.value..])
    ensures r.Some? ==> forall j | 0 <= j < r.value :: !IsPrefix(p, s[j..])
    ensures r.None? <==> !Occurs(p, s)
    decreases |s|
  {
    if IsPrefix(p, s) then Some(0)
    else if s == [] then None
    else match IndexOf(s[1..], p)
      case None => None
      case Some(i) =>
        assert forall j | 1 <= j <= |s| :: s[1..][j - 1..] == s[j..];
        Some(i + 1)
  }

  /** The text before the first occurrence of `p` does not hold `p`. */
  lemma NotBeforeFirst(s: string, p: string, k: nat)
    requires IndexOf(s, p) == Some(k)
    ensures p != [] ==> !Occurs(p, s[..k])
  {
    if p != [] {
      forall j | 0 <= j < k ensures !IsPrefix(p, s[..k][j..]) {
        assert !IsPrefix(p, s[j..]);
        assert |p| <= k - j ==> s[..k][j..][..|p|] == s[j..][..|p|];
      }
      assert s[..k][k..] == [];
      AbsentIfNowhere(p, s[..k]);
    }
  }

  /** The lazy group `([\s\S]*?)` followed by `close`: the text up to the
      first occurrence of `close`, none if there is none. */
  function UpTo(t: string, close: string): (r: Option<string>)
    ensures r.Some? ==> IsPrefix(r.value + close, t)
    ensures close != [] && r.Some? ==> !Occurs(close, r.value)
    ensures r.None? <==> !Occurs(close, t)
  {
    var k :- IndexOf(t, close);
    NotBeforeFirst(t, close, k);
    assert t[..k + |close|] == t[..k] + close by {
      assert t[k..][..|close|] == t[k..k + |close|];
    }
    Some(t[..k])
  }

  /** The group stops at the first `close`, which `e` does not hold. */
  lemma UpToOf(e: string, close: string, tail: string)
    requires close != [] && close[0] !in close[1..] && !Occurs(close, e)
    ensures UpTo(e + (close + tail), close) == Some(e)
  {
    assert NoStraddle(close, e, close + tail);
    PrefixOfConcat(close, tail);
    IndexOfAtSeam(e, close + tail, close);
    assert (e + (close + tail))[..|e|] == e;
  }

  /** `s.lastIndexOf(p)`: the last position where `p` occurs. */
  function LastIndexOf(s: string, p: string): (r: Option<nat>)
    ensures r.Some? ==> r.value <= |s| && IsPrefix(p, s[r.value..])
    ensures r.Some? ==> forall j | r.value < j <= |s| :: !IsPrefix(p, s[j..])
    ensures r.None? <==> !Occurs(p, s)
    decreases |s|
  {
    if s == [] then (if IsPrefix(p, s) then Some(0) else None)
    else
      assert forall j | 1 <= j <= |s| :: s[1..][j - 1..] == s[j..];
      match LastIndexOf(s[1..], p)
      case Some(i) => Some(i + 1)
      case None =>
        NowhereIfAbsent(p, s[1..]);
        if IsPrefix(p, s) then Some(0) else None
  }

  /** The first occurrence of `p` in `x + y` is where `y` starts, when `y`
      starts with `p`, `p` is not in `x` and cannot straddle the seam. */
  lemma IndexOfAtSeam(x: string, y: string, p: string)
    requires IsPrefix(p, y) && !Occurs(p, x) && NoStraddle(p, x, y)
    ensures IndexOf(x + y, p) == Some(|x|)
  {
    assert (x + y)[|x|..] == y;
    forall j | 0 <= j < |x| ensures !IsPrefix(p, (x + y)[j..]) {
      StartInside(p, x, y, j);
    }
    OccursAt(p, x + y, |x|);
  }

  /** `s.replace(p, rep)` with a string pattern: the first occurrence of `p` is
      replaced by `rep` (no `$` pattern in `rep`); no occurrence, no change. */
  function ReplaceFirst(s: string, p: string, rep: string): (r: string)
    ensures !Occurs(p, s) ==> r == s
    ensures Occurs(p, s) ==>
      var i := IndexOf(s, p).value;
      i + |p| <= |s| && |r| == |s| - |p| + |rep|
      && r[..i] == s[..i] && r[i..i + |rep|] == rep && r[i + |rep|..] == s[i + |p|..]
  {
    match IndexOf(s, p)
    case None => s
    case Some(i) => s[..i] + rep + s[i + |p|..]
  }

  /** `s` contains no `$`, so `replace` inserts it literally. */
  predicate NoDollar(s: string) {
    '$' !in s
  }

  // ---------------------------------------------------------------------
  // Character classes of JavaScript regular expressions

  /** Characters that `.` does not match. */
  predicate IsLineTerminator(c: char) {
    c == '\n' || c == '\r' || c == '\U{2028}' || c == '\U{2029}'
  }

  /** Characters matched by `\s`: white space and line terminators. */
  predicate IsJsSpace(c: char) {
    c == '\t' || c == '\U{000B}' || c == '\U{000C}' || c == ' ' || c == '\U{00A0}' || c == '\U{FEFF}'
    || c == '\U{1680}' || ('\U{2000}' <= c <= '\U{200A}') || c == '\U{202F}' || c == '\U{205F}' || c == '\U{3000}'
    || IsLineTerminator(c)
  }

  predicate SingleLine(s: string) {
    forall i | 0 <= i < |s| :: !IsLineTerminator(s[i])
  }

  /** ASCII case folding, which is what the `i` flag does for an ASCII pattern. */
  function Lower(c: char): (r: char)
    ensures 'A' <= c <= 'Z' ==> r != c && 'a' <= r <= 'z'
    ensures !('A' <= c <= 'Z') ==> r == c
  {
    if 'A' <= c <= 'Z' then (c as int + 32) as char else c
  }

  /** `s` starts with `p`, ignoring ASCII case. */
  predicate IsPrefixIgnoringCase(p: string, s: string) {
    |p| <= |s| && forall i | 0 <= i < |p| :: Lower(s[i]) == Lower(p[i])
  }

  /** A match that ends before `b` is a match in the slice ending at `b`. */
  lemma IgnoringCaseInSlice(p: string, s: string, a: nat, b: nat)
    requires a + |p| <= b <= |s| && IsPrefixIgnoringCase(p, s[a..])
    ensures IsPrefixIgnoringCase(p, s[a..b])
  {
    assert forall i | 0 <= i < |p| :: s[a..b][i] == s[a..][i];
  }

  // ---------------------------------------------------------------------
  // split / join / reverse

  /** `parts.join(sep)`. */
  function Join(parts: seq<string>, sep: string): string
    decreases |parts|
  {
    if parts == [] then ""
    else if |parts| == 1 then parts[0]
    else parts[0] + sep + Join(parts[1..], sep)
  }

  /** `s.split(c)` for a one-character separator: never empty. */
  function Split(s: string, c: char): (r: seq<string>)
    ensures |r| >= 1
    ensures forall k | 0 <= k < |r| :: c !in r[k]
    decreases |s|
  {
    match IndexOf(s, [c])
    case None =>
      CharOccurs(s, c);
      [s]
    case Some(i) =>
      assert forall j | 0 <= j < i :: s[j] != c by {
        forall j | 0 <= j < i ensures s[j] != c {
          assert s[j..][..1] == [s[j]];
        }
      }
      [s[..i]] + Split(s[i + 1..], c)
  }

  function Reverse<T>(s: seq<T>): (r: seq<T>)
    ensures |r| == |s|
    ensures forall k | 0 <= k < |s| :: r[k] == s[|s| - 1 - k]
  {
    if s == [] then [] else Reverse(s[1..]) + [s[0]]
  }

  lemma {:induction false} SplitJoin(parts: seq<string>, c: char)
    requires |parts| >= 1 && forall k | 0 <= k < |parts| :: c !in parts[k]
    ensures Split(Join(parts, [c]), c) == parts
    decreases |parts|
  {
    var s := Join(parts, [c]);
    if |parts| == 1 {
      assert !Occurs([c], s) by { NotOccursByChar([c], s, c); }
    } else {
      var rest := Join(parts[1..], [c]);
      assert s == parts[0] + ([c] + rest);
      assert !Occurs([c], parts[0]) by { NotOccursByChar([c], parts[0], c); }
      PrefixOfConcat([c], rest);
      IndexOfAtSeam(parts[0], [c] + rest, [c]);
      assert s[..|parts[0]|] == parts[0];
      assert s[|parts[0]| + 1..] == rest;
      SplitJoin(parts[1..], c);
    }
  }

  /** Splitting at a first separator peels off the text before it. */
  lemma SplitFirst(x: string, y: string, c: char)
    requires c !in x
    ensures Split(x + [c] + y, c) == [x] + Split(y, c)
  {
    var s := x + ([c] + y);
    assert x + [c] + y == s;
    assert !Occurs([c], x) by { NotOccursByChar([c], x, c); }
    PrefixOfConcat([c], y);
    IndexOfAtSeam(x, [c] + y, [c]);
    assert s[..|x|] == x;
    assert s[|x| + 1..] == y;
  }

  lemma {:induction false} JoinSplit(s: string, c: char)
    ensures Join(Split(s, c), [c]) == s
    decreases |s|
  {
    match IndexOf(s, [c])
    case None =>
    case Some(i) =>
      var rest := Split(s[i + 1..], c);
      assert Split(s, c) == [s[..i]] + rest;
      JoinCons(s[..i], rest, [c]);
      JoinSplit(s[i + 1..], c);
      assert s == s[..i] + [c] + s[i + 1..] by {
        assert s[i..][..1] == [c];
      }
  }

  /** Joining a first part and a non-empty rest puts one separator between
      them. */
  lemma JoinCons(a: string, rest: seq<string>, sep: string)
    requires |rest| >= 1
    ensures Join([a] + rest, sep) == a + sep + Join(rest, sep)
  {
    assert ([a] + rest)[1..] == rest;
  }

  // ---------------------------------------------------------------------
  // String comparison

  /** `a < b` on JavaScript strings: lexicographic by character code. */
  predicate LexLess(a: string, b: string)
    decreases |a|
  {
    if a == [] then b != []
    else if b == [] then false
    else if a[0] != b[0] then a[0] < b[0]
    else LexLess(a[1..], b[1..])
  }
}
