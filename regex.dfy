/**
 * The one regular-expression shape the add-in uses for extraction:
 * a literal head followed by lazy single-line groups, each closed by a
 * literal, `Head(.*?)L1(.*?)L2…(.*?)Ln`, searched leftmost-first the way
 * `String.prototype.match` / `RegExp.prototype.exec` do without the `g` flag.
 * `.` does not match a line terminator; a lazy group first tries to stop and
 * takes one more character only when the rest of the pattern fails.
 */
module Regex {
  import opened Wrappers
  import opened Text

  /** The text `g1 L1 g2 L2 … gn Ln`. */
  function Interleave(groups: seq<string>, lits: seq<string>): string
    requires |groups| == |lits|
    decreases |groups|
  {
    if groups == [] then "" else groups[0] + lits[0] + Interleave(groups[1..], lits[1..])
  }

  predicate AllSingleLine(groups: seq<string>) {
    forall k | 0 <= k < |groups| :: SingleLine(groups[k])
  }

  /** `(.*?)L1…(.*?)Ln` anchored at the start of `t`: the captured groups. */
  function Groups(t: string, lits: seq<string>): (r: Option<seq<string>>)
    ensures r.Some? ==> |r.value| == |lits| && AllSingleLine(r.value)
    ensures r.Some? ==> IsPrefix(Interleave(r.value, lits), t)
    decreases |lits|, 1
  {
    if lits == [] then Some([]) else Lazy(t, 0, lits)
  }

  /** The first lazy group has already consumed `t[..k]`. */
  function Lazy(t: string, k: nat, lits: seq<string>): (r: Option<seq<string>>)
    requires lits != [] && k <= |t| && SingleLine(t[..k])
    ensures r.Some? ==> |r.value| == |lits| && AllSingleLine(r.value)
    ensures r.Some? ==> IsPrefix(Interleave(r.value, lits), t)
    decreases |lits|, 0, |t| - k
  {
    if IsPrefix(lits[0], t[k..]) && Groups(t[k + |lits[0]|..], lits[1..]).Some? then
      var rest := Groups(t[k + |lits[0]|..], lits[1..]).value;
      var m := k + |lits[0]|;
      assert t[..m] == t[..k] + lits[0] by { assert t[k..][..|lits[0]|] == t[k..m]; }
      assert t == t[..m] + t[m..];
      assert Interleave([t[..k]] + rest, lits) == t[..m] + Interleave(rest, lits[1..]) by {
        assert ([t[..k]] + rest)[1..] == rest;
      }
      assert t[m..][..|Interleave(rest, lits[1..])|] == t[..m + |Interleave(rest, lits[1..])|][m..];
      Some([t[..k]] + rest)
    else if k == |t| || IsLineTerminator(t[k]) then None
    else
      assert t[..k + 1] == t[..k] + [t[k]];
      Lazy(t, k + 1, lits)
  }

  /** `head(.*?)L1…(.*?)Ln` anchored at the start of `t`: the captured groups. */
  function MatchAt(t: string, head: string, lits: seq<string>): (r: Option<seq<string>>)
    ensures r.Some? ==> |r.value| == |lits| && AllSingleLine(r.value)
    ensures r.Some? ==> IsPrefix(head + Interleave(r.value, lits), t)
  {
    if IsPrefix(head, t) then
      var r := Groups(t[|head|..], lits);
      if r.Some? then
        var w := Interleave(r.value, lits);
        assert (head + w) == t[..|head| + |w|] by {
          assert t[|head|..][..|w|] == t[|head|..|head| + |w|];
          assert t[..|head|] == head;
        }
        r
      else None
    else None
  }

  /** Leftmost match of `head(.*?)L1…(.*?)Ln` in `t`: the captured groups. */
  function FirstMatch(t: string, head: string, lits: seq<string>): (r: Option<seq<string>>)
    ensures r.Some? ==> |r.value| == |lits| && AllSingleLine(r.value)
    ensures r.Some? ==> Occurs(head + Interleave(r.value, lits), t)
    decreases |t|
  {
    if MatchAt(t, head, lits).Some? then MatchAt(t, head, lits)
    else if t == [] then None
    else FirstMatch(t[1..], head, lits)
  }

  // ---------------------------------------------------------------------
  // Completeness: the scanners miss no match

  /** Whenever the text starts with single-line groups interleaved with the
      literals, the lazy groups match at its start (perhaps capturing less). */
  lemma {:induction false} GroupsComplete(t: string, gs: seq<string>, lits: seq<string>)
    requires |gs| == |lits| && AllSingleLine(gs) && IsPrefix(Interleave(gs, lits), t)
    ensures Groups(t, lits).Some?
    decreases |lits|, 1
  {
    if lits != [] {
      LazyComplete(t, 0, gs, lits);
    }
  }

  /** The first lazy group, having consumed `t[..k]` with `k` no further than
      the end of `gs[0]`, still reaches a match. */
  lemma {:induction false} LazyComplete(t: string, k: nat, gs: seq<string>, lits: seq<string>)
    requires |gs| == |lits| && lits != [] && AllSingleLine(gs) && IsPrefix(Interleave(gs, lits), t)
    requires k <= |gs[0]|
    ensures k <= |t| && SingleLine(t[..k]) && Lazy(t, k, lits).Some?
    decreases |lits|, 0, |gs[0]| - k
  {
    var w := Interleave(gs, lits);
    var m := |gs[0]| + |lits[0]|;
    assert w == gs[0] + lits[0] + Interleave(gs[1..], lits[1..]);
    assert t[..|w|] == w;
    assert t[..k] == gs[0][..k] by {
      assert t[..k] == w[..k];
    }
    assert SingleLine(gs[0]);
    if k == |gs[0]| {
      assert IsPrefix(lits[0], t[k..]) by {
        assert t[k..][..|lits[0]|] == w[k..m];
      }
      assert AllSingleLine(gs[1..]);
      assert IsPrefix(Interleave(gs[1..], lits[1..]), t[m..]) by {
        assert t[m..][..|w| - m] == w[m..];
      }
      GroupsComplete(t[m..], gs[1..], lits[1..]);
    } else {
      assert t[k] == gs[0][k] by {
        assert t[k] == w[k];
      }
      LazyComplete(t, k + 1, gs, lits);
    }
  }

  /** The scan from the left misses no position where the pattern matches:
      a text holding `head` followed by single-line groups interleaved with
      the literals has a match. */
  lemma {:induction false} FirstMatchComplete(t: string, head: string, lits: seq<string>, i: nat, gs: seq<string>)
    requires i <= |t| && |gs| == |lits| && AllSingleLine(gs)
    requires IsPrefix(head + Interleave(gs, lits), t[i..])
    ensures FirstMatch(t, head, lits).Some?
    decreases i
  {
    if i == 0 {
      assert t[0..] == t;
      MatchAtComplete(t, head, lits, gs);
    } else if MatchAt(t, head, lits).None? {
      assert t[1..][i - 1..] == t[i..];
      FirstMatchComplete(t[1..], head, lits, i - 1, gs);
    }
  }

  lemma MatchAtComplete(t: string, head: string, lits: seq<string>, gs: seq<string>)
    requires |gs| == |lits| && AllSingleLine(gs)
    requires IsPrefix(head + Interleave(gs, lits), t)
    ensures MatchAt(t, head, lits).Some?
  {
    var w := Interleave(gs, lits);
    assert IsPrefix(head, t) by {
      assert t[..|head|] == (head + w)[..|head|];
    }
    assert IsPrefix(w, t[|head|..]) by {
      assert t[|head|..][..|w|] == (head + w)[|head|..];
    }
    GroupsComplete(t[|head|..], gs, lits);
  }

  /** The match returned is the one at the leftmost position where the
      pattern matches. */
  lemma {:induction false} FirstMatchLeftmost(t: string, head: string, lits: seq<string>, i: nat)
    requires i <= |t| && MatchAt(t[i..], head, lits).Some?
    requires forall j | 0 <= j < i :: MatchAt(t[j..], head, lits).None?
    ensures FirstMatch(t, head, lits) == MatchAt(t[i..], head, lits)
    decreases i
  {
    assert t[0..] == t;
    if i > 0 {
      assert FirstMatch(t, head, lits) == FirstMatch(t[1..], head, lits);
      forall j | 0 <= j < i - 1 ensures MatchAt(t[1..][j..], head, lits).None? {
        assert t[1..][j..] == t[j + 1..];
      }
      assert t[1..][i - 1..] == t[i..];
      FirstMatchLeftmost(t[1..], head, lits, i - 1);
    }
  }

  // ---------------------------------------------------------------------
  // Exact recovery

  /** Groups that are single-line and do not contain the literal that closes
      them are recovered exactly, provided each literal cannot overlap itself
      (its first character does not recur in it). */
  predicate Separable(groups: seq<string>, lits: seq<string>) {
    |groups| == |lits| &&
    forall k | 0 <= k < |lits| ::
      SingleLine(groups[k]) && !Occurs(lits[k], groups[k]) && lits[k] != [] && lits[k][0] !in lits[k][1..]
  }

  lemma {:induction false} LazyStopsAtLiteral(g: string, lits: seq<string>, tail: string, k: nat, rest: seq<string>)
    requires lits != [] && lits[0] != [] && lits[0][0] !in lits[0][1..]
    requires !Occurs(lits[0], g) && SingleLine(g) && k <= |g|
    requires Groups(tail, lits[1..]) == Some(rest)
    ensures Lazy(g + lits[0] + tail, k, lits) == Some([g] + rest)
    decreases |g| - k
  {
    var t := g + lits[0] + tail;
    assert t == g + (lits[0] + tail);
    assert t[..k] == g[..k];
    assert SingleLine(t[..k]);
    if k == |g| {
      assert t[k..] == lits[0] + tail;
      PrefixOfConcat(lits[0], tail);
      assert t[k + |lits[0]|..] == tail;
      assert t[..k] == g;
    } else {
      assert t[k] == g[k];
      StartInside(lits[0], g, lits[0] + tail, k);
      assert !IsPrefix(lits[0], t[k..]);
      LazyStopsAtLiteral(g, lits, tail, k + 1, rest);
    }
  }

  /** Anchored at the start, separable groups are captured exactly. */
  lemma {:induction false} GroupsRecover(groups: seq<string>, lits: seq<string>, tail: string)
    requires Separable(groups, lits)
    ensures Groups(Interleave(groups, lits) + tail, lits) == Some(groups)
    decreases |lits|
  {
    if lits != [] {
      var rest := groups[1..];
      assert Separable(rest, lits[1..]);
      GroupsRecover(rest, lits[1..], tail);
      var after := Interleave(rest, lits[1..]) + tail;
      assert Interleave(groups, lits) + tail == groups[0] + lits[0] + after;
      LazyStopsAtLiteral(groups[0], lits, after, 0, rest);
      assert [groups[0]] + rest == groups;
    }
  }

  /** A text that starts with the head followed by separable groups is matched
      at its start. */
  lemma FirstMatchRecover(head: string, groups: seq<string>, lits: seq<string>, tail: string)
    requires Separable(groups, lits)
    ensures FirstMatch(head + Interleave(groups, lits) + tail, head, lits) == Some(groups)
  {
    var t := head + Interleave(groups, lits) + tail;
    assert t == head + (Interleave(groups, lits) + tail);
    PrefixOfConcat(head, Interleave(groups, lits) + tail);
    assert t[|head|..] == Interleave(groups, lits) + tail;
    GroupsRecover(groups, lits, tail);
  }
}
