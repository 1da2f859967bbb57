/**
 * `removeSpellCheckTags` of the development add-in: the global replacement of
 * `<span class=(['"])?(?:SpellE|GramE)\1?>(.*?)<\/span>` by its second group,
 * which unwraps the spelling and grammar annotations Word-based clients put
 * inside an event body.
 */
module SpellCheck {
  import opened Wrappers
  import opened Text
  import opened Regex

  const SpellOpen := "<" + "span class="
  const SpanClose := "<" + "/span>"

  /** The opening of a matched annotation: opening quote (possibly none),
      class name, closing quote (the opening one or none). */
  datatype Head = Head(openQuote: string, name: string, closeQuote: string)

  /** One matched annotation: its opening and the inner text. */
  datatype Tag = Tag(head: Head, content: string)

  /** The quotes and class names the pattern admits: the opening quote is
      optional, and the closing `\1?` is either that quote or nothing. */
  predicate WellFormed(h: Head) {
    (h.openQuote == "" || h.openQuote == "'" || h.openQuote == "\"")
    && (h.name == "SpellE" || h.name == "GramE")
    && (h.closeQuote == "" || (h.closeQuote == h.openQuote))
  }

  function HeadText(h: Head): string {
    SpellOpen + h.openQuote + h.name + h.closeQuote + ">"
  }

  /** The text an annotation occupies. */
  function TagText(m: Tag): string {
    HeadText(m.head) + m.content + SpanClose
  }

  /** The optional opening quote `(['"])?` at the front of `t`. */
  function OpenQuote(t: string): (q: string)
    ensures q == "" || q == "'" || q == "\""
    ensures IsPrefix(q, t)
  {
    if t != [] && (t[0] == '\'' || t[0] == '"') then [t[0]] else []
  }

  /** `(?:SpellE|GramE)` at the front of `t`. */
  function ClassName(t: string): (r: Option<string>)
    ensures r.Some? ==> (r.value == "SpellE" || r.value == "GramE") && IsPrefix(r.value, t)
  {
    if IsPrefix("SpellE", t) then Some("SpellE")
    else if IsPrefix("GramE", t) then Some("GramE")
    else None
  }

  /** `\1?` followed by `>`: the quote is taken only when `>` follows it. */
  function CloseQuote(q: string, t: string): (c: string)
    ensures c == "" || c == q
    ensures IsPrefix(c, t)
  {
    if q != [] && IsPrefix(q + ">", t) then
      assert t[..|q|] == (q + ">")[..|q|];
      q
    else []
  }

  lemma PrefixSplit(p: string, t: string)
    requires IsPrefix(p, t)
    ensures t == p + t[|p|..]
  {
  }

  /** `<span class=(['"])?(?:SpellE|GramE)\1?>` at the start of `t`, and what
      follows it. */
  function HeadAt(t: string): (r: Option<(Head, string)>)
    ensures r.Some? ==> WellFormed(r.value.0) && t == HeadText(r.value.0) + r.value.1
    ensures r.Some? ==> IsPrefix(SpellOpen, t)
  {
    var t1 :- Lit(t, SpellOpen);
    var q := OpenQuote(t1);
    var name :- ClassName(t1[|q|..]);
    var t3 := t1[|q|..][|name|..];
    var close := CloseQuote(q, t3);
    var t5 :- Lit(t3[|close|..], ">");
    var h := Head(q, name, close);
    PrefixSplit(q, t1);
    PrefixSplit(name, t1[|q|..]);
    PrefixSplit(close, t3);
    HeadTextSplit(h, t5);
    Some((h, t5))
  }

  lemma HeadTextSplit(h: Head, rest: string)
    ensures HeadText(h) + rest == SpellOpen + (h.openQuote + (h.name + (h.closeQuote + (">" + rest))))
  {
  }

  /** `(.*?)<\/span>` at the start of `t`: the lazy single-line group ends at
      the first closing tag, and fails if a line terminator comes first. */
  function UpToClose(t: string): (r: Option<string>)
    ensures r.Some? ==> SingleLine(r.value) && !Occurs(SpanClose, r.value)
    ensures r.Some? ==> IsPrefix(r.value + SpanClose, t)
  {
    var c :- UpTo(t, SpanClose);
    if SingleLine(c) then Some(c) else None
  }

  /** The annotation the pattern matches at the start of `t`, if any. */
  function TagAt(t: string): (r: Option<Tag>)
    ensures r.Some? ==> WellFormed(r.value.head) && SingleLine(r.value.content)
    ensures r.Some? ==> IsPrefix(TagText(r.value), t)
  {
    match HeadAt(t)
    case None => None
    case Some(hr) =>
      match UpToClose(hr.1)
      case None => None
      case Some(c) =>
        TagTextPrefix(t, hr.0, hr.1, c);
        Some(Tag(hr.0, c))
  }

  lemma TagTextPrefix(t: string, h: Head, rest: string, c: string)
    requires t == HeadText(h) + rest && IsPrefix(c + SpanClose, rest)
    ensures IsPrefix(TagText(Tag(h, c)), t)
  {
    var n := |c + SpanClose|;
    assert rest == (c + SpanClose) + rest[n..];
    assert t == TagText(Tag(h, c)) + rest[n..];
    PrefixOfConcat(TagText(Tag(h, c)), rest[n..]);
  }

  /** `removeSpellCheckTags`: every annotation, scanning left to right and
      resuming after each match, is replaced by its inner text. */
  function RemoveSpellCheckTags(s: string): (r: string)
    ensures |r| <= |s|
    decreases |s|
  {
    if s == [] then []
    else match TagAt(s)
      case Some(m) => m.content + RemoveSpellCheckTags(s[|TagText(m)|..])
      case None => [s[0]] + RemoveSpellCheckTags(s[1..])
  }

  /** No annotation opening starts anywhere in `s`: the text the pattern would
      treat as the start of a `SpellE` or `GramE` span is absent. Other spans
      with a class, such as `MsoHyperlink`, may be present. */
  predicate HeadFree(s: string) {
    forall i | 0 <= i < |s| :: HeadAt(s[i..]).None?
  }

  // ---------------------------------------------------------------------
  // Properties

  /** Every well-formed opening is recognised, whatever follows it. */
  lemma HeadAtRecognises(h: Head, rest: string)
    requires WellFormed(h)
    ensures HeadAt(HeadText(h) + rest) == Some((h, rest))
  {
    var t3 := h.closeQuote + (">" + rest);
    var t2 := h.name + t3;
    var t1 := h.openQuote + t2;
    HeadTextSplit(h, rest);
    LitOf(SpellOpen, t1);
    OpenQuoteOf(h, t2);
    assert t1[|h.openQuote|..] == t2;
    ClassNameOf(h, t3);
    assert t2[|h.name|..] == t3;
    CloseQuoteOf(h, rest);
    assert t3[|h.closeQuote|..] == ">" + rest;
    LitOf(">", rest);
  }

  /** The optional quote is read back, a class name never starting with one. */
  lemma OpenQuoteOf(h: Head, t2: string)
    requires WellFormed(h)
    requires IsPrefix(h.name, t2)
    ensures OpenQuote(h.openQuote + t2) == h.openQuote
  {
    if h.openQuote == "" {
      assert (h.openQuote + t2)[0] == t2[0] == h.name[0];
      assert h.name[0] == 'G' || h.name[0] == 'S';
    }
  }

  /** Each admitted class name is read back. */
  lemma ClassNameOf(h: Head, t3: string)
    requires WellFormed(h)
    ensures ClassName(h.name + t3) == Some(h.name)
  {
    PrefixOfConcat(h.name, t3);
    if h.name == "GramE" {
      assert (h.name + t3)[0] == 'G';
      NotPrefixAt("SpellE", h.name + t3, 0);
    }
  }

  /** The closing quote is taken exactly when it was written. */
  lemma CloseQuoteOf(h: Head, rest: string)
    requires WellFormed(h)
    ensures CloseQuote(h.openQuote, h.closeQuote + (">" + rest)) == h.closeQuote
  {
    var t3 := h.closeQuote + (">" + rest);
    if h.closeQuote != [] {
      assert t3[..2] == h.closeQuote + ">";
    } else if h.openQuote != [] {
      assert t3[0] == '>';
      NotPrefixAt(h.openQuote + ">", t3, 0);
    }
  }

  /** Every well-formed annotation whose inner text is single-line and has no
      closing tag is recognised, whatever follows it. */
  lemma TagAtRecognises(m: Tag, rest: string)
    requires WellFormed(m.head) && SingleLine(m.content) && !Occurs(SpanClose, m.content)
    ensures TagAt(TagText(m) + rest) == Some(m)
  {
    var after := m.content + (SpanClose + rest);
    assert TagText(m) + rest == HeadText(m.head) + after;
    HeadAtRecognises(m.head, after);
    UpToCloseRecognises(m.content, rest);
  }

  /** The lazy group stops at the first closing tag. */
  lemma UpToCloseRecognises(c: string, rest: string)
    requires SingleLine(c) && !Occurs(SpanClose, c)
    ensures UpToClose(c + (SpanClose + rest)) == Some(c)
  {
    SpanCloseFacts();
    UpToOf(c, SpanClose, rest);
  }

  /** Stripping passes over a prefix inside which no annotation starts,
      whatever follows it. */
  lemma RemoveSkipsPlainPrefix(x: string, y: string)
    requires forall i | 0 <= i < |x| :: TagAt((x + y)[i..]).None?
    ensures RemoveSpellCheckTags(x + y) == x + RemoveSpellCheckTags(y)
  {
    assert forall i | 0 <= i < |x| :: NoTagAt(x + y, i);
    RemoveFrom(x + y, 0, |x|);
    assert (x + y)[0..] == x + y && (x + y)[0..|x|] == x && (x + y)[|x|..] == y;
  }

  /** Stripping leaves a text in which no annotation starts unchanged. */
  lemma RemoveKeepsUnannotated(s: string)
    requires forall i | 0 <= i < |s| :: TagAt(s[i..]).None?
    ensures RemoveSpellCheckTags(s) == s
  {
    assert s + [] == s;
    RemoveSkipsPlainPrefix(s, []);
  }

  /** Where no annotation starts, the first character is kept as it is. */
  lemma StepAt(s: string, k: nat)
    requires k < |s| && TagAt(s[k..]).None?
    ensures RemoveSpellCheckTags(s[k..]) == [s[k]] + RemoveSpellCheckTags(s[k + 1..])
  {
    assert s[k..][1..] == s[k + 1..];
  }

  /** No annotation starts at position `i` of `s`. */
  predicate NoTagAt(s: string, i: nat)
    requires i <= |s|
  {
    TagAt(s[i..]).None?
  }

  lemma {:induction false} RemoveFrom(s: string, k: nat, n: nat)
    requires k <= n <= |s|
    requires forall i | k <= i < n :: NoTagAt(s, i)
    ensures RemoveSpellCheckTags(s[k..]) == s[k..n] + RemoveSpellCheckTags(s[n..])
    decreases n - k
  {
    if k < n {
      assert NoTagAt(s, k);
      StepAt(s, k);
      RemoveFrom(s, k + 1, n);
      PrependSlice(s, k, n, RemoveSpellCheckTags(s[n..]));
    }
  }

  lemma PrependSlice(s: string, k: nat, n: nat, b: string)
    requires k < n <= |s|
    ensures [s[k]] + (s[k + 1..n] + b) == s[k..n] + b
  {
    assert [s[k]] + s[k + 1..n] == s[k..n];
  }

  /** An annotation is replaced by its inner text and the text around it is
      kept. */
  lemma RemoveUnwrapsTag(x: string, m: Tag, y: string)
    requires HeadFree(x)
    requires WellFormed(m.head) && SingleLine(m.content) && !Occurs(SpanClose, m.content)
    ensures RemoveSpellCheckTags(x + TagText(m) + y) == x + m.content + RemoveSpellCheckTags(y)
  {
    assert x + TagText(m) + y == x + (TagText(m) + y);
    TagTextFront(m, y);
    TagAtRecognises(m, y);
    RemoveStepTag(TagText(m) + y, m);
    NoTagInHeadFree(x, TagText(m) + y);
    RemoveSkipsPlainPrefix(x, TagText(m) + y);
  }

  lemma TagTextFront(m: Tag, y: string)
    ensures (TagText(m) + y)[0] == '<'
    ensures (TagText(m) + y)[|TagText(m)|..] == y
  {
    assert TagText(m)[0] == SpellOpen[0];
  }

  /** Where an annotation starts, it is replaced by its inner text. */
  lemma RemoveStepTag(s: string, m: Tag)
    requires TagAt(s) == Some(m)
    ensures RemoveSpellCheckTags(s) == m.content + RemoveSpellCheckTags(s[|TagText(m)|..])
  {
  }

  // ---------------------------------------------------------------------
  // Where annotations can start

  /** An annotation starts only where its opening does. */
  lemma TagNeedsHead(t: string)
    ensures TagAt(t).Some? ==> HeadAt(t).Some?
  {
  }

  /** An opening is recognised whatever is appended to the text after it. */
  lemma HeadAtExtends(u: string, v: string)
    ensures HeadAt(u).Some? ==> HeadAt(u + v) == Some((HeadAt(u).value.0, HeadAt(u).value.1 + v))
  {
    if HeadAt(u).Some? {
      var (h, rest) := HeadAt(u).value;
      assert u + v == HeadText(h) + (rest + v);
      HeadAtRecognises(h, rest + v);
    }
  }

  /** `<` appears in an opening only as its first character. */
  lemma AngleOnlyFirst(h: Head)
    requires WellFormed(h)
    ensures '<' !in HeadText(h)[1..]
  {
    SpellOpenFacts();
    assert HeadText(h)[1..] == SpellOpen[1..] + h.openQuote + h.name + h.closeQuote + ">";
  }

  /** An opening that starts inside `x` and is followed by `<` or nothing
      lies wholly inside `x`. */
  lemma HeadAtWithin(x: string, y: string, i: nat)
    requires i < |x| && (y == [] || y[0] == '<')
    ensures HeadAt((x + y)[i..]).Some? ==> HeadAt(x[i..]).Some?
  {
    if HeadAt((x + y)[i..]).Some? {
      var (h, rest) := HeadAt((x + y)[i..]).value;
      AngleOnlyFirst(h);
      var w := HeadText(h);
      FitsBefore(x, y, i, w, rest);
      HeadAtRecognises(h, x[i + |w|..]);
    }
  }

  /** A text with `<` only at its front that starts inside `x` ends inside
      `x` when `<` or nothing follows `x`. */
  lemma FitsBefore(x: string, y: string, i: nat, w: string, rest: string)
    requires i < |x| && (y == [] || y[0] == '<')
    requires w != [] && '<' !in w[1..] && (x + y)[i..] == w + rest
    ensures i + |w| <= |x| && x[i..] == w + x[i + |w|..]
  {
    if y != [] {
      assert (x + y)[|x|] == '<';
      assert forall k | 1 <= k < |w| :: w[k] == w[1..][k - 1];
      assert forall j | i <= j < |x + y| && j - i < |w| :: (x + y)[j] == w[j - i];
    }
    assert i + |w| <= |x|;
    assert x[i..] == (x + y)[i..][..|x| - i];
  }

  /** With `<` or nothing after it, a prefix free of openings has no
      annotation starting inside it. */
  lemma NoTagInHeadFree(x: string, y: string)
    requires HeadFree(x) && (y == [] || y[0] == '<')
    ensures forall i | 0 <= i < |x| :: TagAt((x + y)[i..]).None?
  {
    forall i | 0 <= i < |x| ensures TagAt((x + y)[i..]).None? {
      TagNeedsHead((x + y)[i..]);
      HeadAtWithin(x, y, i);
    }
  }

  /** Two texts free of openings stay so when joined before a `<`. */
  lemma HeadFreeConcat(a: string, b: string)
    requires HeadFree(a) && HeadFree(b) && (b == [] || b[0] == '<')
    ensures HeadFree(a + b)
  {
    forall i | 0 <= i < |a + b| ensures HeadAt((a + b)[i..]).None? {
      if i < |a| {
        HeadAtWithin(a, b, i);
      } else {
        assert (a + b)[i..] == b[i - |a|..];
      }
    }
  }

  /** Every slice of a text free of openings is free of them. */
  lemma HeadFreeSlice(s: string, i: nat, j: nat)
    requires i <= j <= |s| && HeadFree(s)
    ensures HeadFree(s[i..j])
  {
    forall k | 0 <= k < j - i ensures HeadAt(s[i..j][k..]).None? {
      assert s[i..j][k..] + s[j..] == s[i + k..];
      HeadAtExtends(s[i..j][k..], s[j..]);
    }
  }

  /** A prefix and a suffix of a text free of openings are free of them. */
  lemma HeadFreeEnds(b: string, x: string, tail: string)
    requires HeadFree(b)
    requires |x| <= |b| && x == b[..|x|] && |tail| <= |b| && tail == b[|b| - |tail|..]
    ensures HeadFree(x) && HeadFree(tail)
  {
    assert b[0..|x|] == x && b[|b| - |tail|..|b|] == tail;
    HeadFreeSlice(b, 0, |x|);
    HeadFreeSlice(b, |b| - |tail|, |b|);
  }

  /** Stripping keeps a text built of three pieces in which no annotation
      opening starts, when the second and third start with a tag. */
  lemma RemoveKeepsThree(x: string, w: string, tail: string)
    requires HeadFree(x) && HeadFree(w) && HeadFree(tail)
    requires w != [] && w[0] == '<' && (tail == [] || tail[0] == '<')
    ensures RemoveSpellCheckTags(x + w + tail) == x + w + tail
  {
    HeadFreeConcat(w, tail);
    HeadFreeConcat(x, w + tail);
    assert x + w + tail == x + (w + tail);
    RemoveKeepsHeadFree(x + w + tail);
  }

  /** A text without the opening's fixed part `<span class=` is free of
      openings. */
  lemma HeadFreeWithoutOpen(s: string)
    requires !Occurs(SpellOpen, s)
    ensures HeadFree(s)
  {
    NowhereIfAbsent(SpellOpen, s);
    assert forall i | 0 <= i < |s| :: HeadAt(s[i..]).Some? ==> IsPrefix(SpellOpen, s[i..]);
  }

  /** Stripping leaves a text free of openings unchanged. */
  lemma RemoveKeepsHeadFree(s: string)
    requires HeadFree(s)
    ensures RemoveSpellCheckTags(s) == s
  {
    forall i | 0 <= i < |s| ensures TagAt(s[i..]).None? {
      TagNeedsHead(s[i..]);
    }
    RemoveKeepsUnannotated(s);
  }

  /** The characters of the closing tag that matter at a seam. */
  lemma SpanCloseFacts()
    ensures SpanClose != [] && SpanClose[0] == '<' && '<' in SpanClose && SpanClose[0] !in SpanClose[1..]
    ensures 'c' !in SpanClose && ':' !in SpanClose[..|SpanClose| - 1] && ';' !in SpanClose[1..] && '}' !in SpanClose[1..]
  {
  }

  /** The characters of the annotation opening that matter at a seam. */
  lemma SpellOpenFacts()
    ensures SpellOpen != [] && SpellOpen[0] == '<' && '<' in SpellOpen && 'c' in SpellOpen && |SpellOpen| == 12 && SpellOpen[6] == 'c'
    ensures '<' !in SpellOpen[1..] && '"' !in SpellOpen[1..] && '-' !in SpellOpen[1..] && '{' !in SpellOpen[1..]
    ensures ':' !in SpellOpen[..|SpellOpen| - 1] && ';' !in SpellOpen[1..] && '}' !in SpellOpen[1..]
  {
    assert SpellOpen[1..] == "span class=";
  }

}
