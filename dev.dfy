/**
 * The submit handler of the development add-in (scripts/TimeReporting_dev.js):
 * the form values become a record in braces, wrapped after a dash sentinel in
 * a white `<span>`; the event body, with spelling annotations unwrapped, is
 * searched for an earlier marker, and the handler then reports a duplicate,
 * asks to replace a different marker, inserts a new one where the host client
 * allows it, gives up, or throws.
 */
module TimeReportingDev {
  import opened Wrappers
  import opened Text
  import opened Regex
  import opened Report
  import opened SpellCheck

  /** The sentinel: a run of 53 dashes. */
  const Dashes := Repeat('-', 53)

  /** The style value of the white span, `"color:white;">`. */
  const StyleAttr := "\"" + ("color:" + ("white" + (";" + ("\"" + ">"))))

  const LineBreak := "<br>"
  const StyleOpen := "<" + "span style="

  /** What the handler writes before the record. */
  const MarkerOpen := Dashes + (LineBreak + (StyleOpen + StyleAttr))

  /** `{projet:P;projet_pae:C;prestation:S;inclu:I}`. */
  function Encode(r: Record): (e: string)
    ensures e == DecodeHead + Interleave(Fields(r), DecodeLits)
  {
    LabelsArePattern(r);
    "{projet:" + r.project + ";projet_pae:" + r.paeProject + ";prestation:" + r.prestation
      + ";inclu:" + r.included + "}"
  }

  lemma LabelsArePattern(r: Record)
    ensures "{projet:" + r.project + ";projet_pae:" + r.paeProject + ";prestation:" + r.prestation
      + ";inclu:" + r.included + "}" == DecodeHead + Interleave(Fields(r), DecodeLits)
  {
    var f := Fields(r);
    var l := DecodeLits;
    assert Interleave(f[3..], l[3..]) == r.included + "}";
    assert Interleave(f[2..], l[2..]) == r.prestation + ";inclu:" + Interleave(f[3..], l[3..]);
    assert Interleave(f[1..], l[1..]) == r.paeProject + ";prestation:" + Interleave(f[2..], l[2..]);
    assert Interleave(f, l) == r.project + ";projet_pae:" + Interleave(f[1..], l[1..]);
  }

  /** `customText`: sentinel, line break, white span holding the record. */
  function Marker(r: Record): (m: string)
    ensures !Occurs(SpanClose, Encode(r)) ==> MarkerAt(m) == Some(Encode(r))
  {
    var m := MarkerOpen + Encode(r) + SpanClose;
    if !Occurs(SpanClose, Encode(r)) then
      assert m + [] == m;
      MarkerAtMarker(Encode(r), []);
      m
    else m
  }

  /** What an insertion adds: the marker in a `<div>`. */
  function Block(r: Record): (b: string)
    ensures !Occurs(SpanClose, Encode(r)) ==> Lookup(b) == Some(Encode(r))
  {
    if !Occurs(SpanClose, Encode(r)) then
      LookupFindsDiv(Encode(r));
      "<div>" + Marker(r) + "</div>"
    else "<div>" + Marker(r) + "</div>"
  }

  // ---------------------------------------------------------------------
  // Lookup: the first match of
  //   <dashes>\s*<br>\s*<span style=(?:"|')color:\s?white;?(?:"|')>([\s\S]*?)<\/span>

  /** `\s*`: `t` without its leading white space. Giving back white space
      cannot help, as each later step needs a non-space character first. */
  function SkipSpaces(t: string): (r: string)
    ensures |r| <= |t| && r == t[|t| - |r|..] && AllSpaces(t[..|t| - |r|])
    ensures r == [] || !IsJsSpace(r[0])
    ensures t != [] && !IsJsSpace(t[0]) ==> r == t
    decreases |t|
  {
    if t != [] && IsJsSpace(t[0]) then SkipSpaces(t[1..]) else t
  }

  /** `x?` for one character class before a literal that it cannot start. */
  function OptSpace(t: string): (r: string)
    ensures r == t || (t != [] && IsJsSpace(t[0]) && r == t[1..])
  {
    if t != [] && IsJsSpace(t[0]) then t[1..] else t
  }

  function OptChar(t: string, c: char): (r: string)
    ensures r == t || (t != [] && t[0] == c && r == t[1..])
  {
    if t != [] && t[0] == c then t[1..] else t
  }

  /** `(?:"|')`. */
  function QuoteAt(t: string): (r: Option<string>)
    ensures r.Some? ==> t != [] && (t[0] == '"' || t[0] == '\'') && r.value == t[1..]
  {
    if t != [] && (t[0] == '"' || t[0] == '\'') then Some(t[1..]) else None
  }

  /** The free parts of an opening the pattern admits: the white space
      before and after `<br>`, the two quotes, the optional white space
      after `color:` and the optional `;`. */
  datatype Opening = Opening(sp1: string, sp2: string, q1: char, ws: string, semi: string, q2: char)

  predicate StyleAdmitted(q1: char, ws: string, semi: string, q2: char) {
    && (q1 == '"' || q1 == '\'') && (q2 == '"' || q2 == '\'')
    && (ws == "" || (|ws| == 1 && IsJsSpace(ws[0])))
    && (semi == "" || semi == ";")
  }

  predicate Admitted(o: Opening) {
    AllSpaces(o.sp1) && AllSpaces(o.sp2) && StyleAdmitted(o.q1, o.ws, o.semi, o.q2)
  }

  /** The text of a style value, followed by `rest`. */
  function StyleThen(q1: char, ws: string, semi: string, q2: char, rest: string): string {
    [q1] + ("color:" + (ws + ("white" + (semi + ([q2] + (">" + rest))))))
  }

  /** The text of opening `o`, followed by `rest`. */
  function OpeningThen(o: Opening, rest: string): string {
    Dashes + (o.sp1 + (LineBreak + (o.sp2 + (StyleOpen + StyleThen(o.q1, o.ws, o.semi, o.q2, rest)))))
  }

  /** The opening of the pattern at the start of `t`: what follows it. What
      it consumes is always an admitted opening. */
  function AfterOpening(t: string): (r: Option<string>)
    ensures r.Some? ==> IsPrefix(Dashes, t) && |r.value| <= |t|
    ensures r.Some? ==> exists o :: Admitted(o) && t == OpeningThen(o, r.value)
  {
    var t :- Lit(t, Dashes);
    AfterDashes(t)
  }

  /** `\s*<br>\s*<span style=` and the style value. */
  function AfterDashes(t: string): (r: Option<string>)
    ensures r.Some? ==> |r.value| <= |t|
    ensures r.Some? ==> exists o :: Admitted(o) && Dashes + t == OpeningThen(o, r.value)
  {
    var t1 :- Lit(SkipSpaces(t), LineBreak);
    var t2 :- Lit(SkipSpaces(t1), StyleOpen);
    var rest :- StyleValue(t2);
    DashesPieces(t, t1, t2, rest);
    Some(rest)
  }

  /** `(?:"|')color:\s?white;?(?:"|')>`. */
  function StyleValue(t: string): (r: Option<string>)
    ensures r.Some? ==> |r.value| <= |t|
    ensures r.Some? ==> exists q1, ws, semi, q2 :: StyleAdmitted(q1, ws, semi, q2) && t == StyleThen(q1, ws, semi, q2, r.value)
  {
    var t1 :- QuoteAt(t);
    var t2 :- Lit(t1, "color:");
    var t3 :- Lit(OptSpace(t2), "white");
    var t4 :- QuoteAt(OptChar(t3, ';'));
    var rest :- Lit(t4, ">");
    StylePieces(t, t1, t2, t3, t4, rest);
    Some(rest)
  }

  /** The steps of `StyleValue`, put together. */
  lemma StylePieces(t: string, t1: string, t2: string, t3: string, t4: string, rest: string)
    requires t != [] && (t[0] == '"' || t[0] == '\'') && t1 == t[1..]
    requires t1 == "color:" + t2 && OptSpace(t2) == "white" + t3
    requires OptChar(t3, ';') != [] && (OptChar(t3, ';')[0] == '"' || OptChar(t3, ';')[0] == '\'')
    requires t4 == OptChar(t3, ';')[1..] && t4 == ">" + rest
    ensures exists q1, ws, semi, q2 :: StyleAdmitted(q1, ws, semi, q2) && t == StyleThen(q1, ws, semi, q2, rest)
  {
    var g, i := OptSpace(t2), OptChar(t3, ';');
    var ws := if g == t2 then "" else [t2[0]];
    assert t2 == ws + g;
    var semi := if i == t3 then "" else ";";
    assert t3 == semi + i;
    assert i == [i[0]] + (">" + rest);
    assert t == [t[0]] + t1;
    assert StyleAdmitted(t[0], ws, semi, i[0]);
    assert t == StyleThen(t[0], ws, semi, i[0], rest);
  }

  /** The steps of `AfterDashes`, put together. */
  lemma DashesPieces(t: string, t1: string, t2: string, rest: string)
    requires SkipSpaces(t) == LineBreak + t1 && SkipSpaces(t1) == StyleOpen + t2
    requires exists q1, ws, semi, q2 :: StyleAdmitted(q1, ws, semi, q2) && t2 == StyleThen(q1, ws, semi, q2, rest)
    ensures exists o :: Admitted(o) && Dashes + t == OpeningThen(o, rest)
  {
    var q1, ws, semi, q2 :| StyleAdmitted(q1, ws, semi, q2) && t2 == StyleThen(q1, ws, semi, q2, rest);
    var sp1 := t[..|t| - |SkipSpaces(t)|];
    assert t == sp1 + SkipSpaces(t);
    var sp2 := t1[..|t1| - |SkipSpaces(t1)|];
    assert t1 == sp2 + SkipSpaces(t1);
    var o := Opening(sp1, sp2, q1, ws, semi, q2);
    assert Admitted(o);
    assert Dashes + t == OpeningThen(o, rest);
  }

  /** The captured record text of a match at the start of `t`: the text up
      to the first closing tag after the opening; none when the opening is
      not there or no closing tag follows it. */
  function MarkerAt(t: string): (r: Option<string>)
    ensures r.Some? ==> IsPrefix(Dashes, t) && !Occurs(SpanClose, r.value)
    ensures r.Some? ==> AfterOpening(t).Some? && IsPrefix(r.value + SpanClose, AfterOpening(t).value)
    ensures r.None? <==> AfterOpening(t).None? || !Occurs(SpanClose, AfterOpening(t).value)
  {
    var rest :- AfterOpening(t);
    UpTo(rest, SpanClose)
  }

  /** `reportRegex.exec` (a fresh copy, so from the start): the record text
      of the leftmost marker in `s`. */
  function Lookup(s: string): (r: Option<string>)
    ensures r.Some? ==> Occurs(Dashes, s) && !Occurs(SpanClose, r.value)
    decreases |s|
  {
    if s == [] then None
    else match MarkerAt(s)
      case Some(c) => Some(c)
      case None => Lookup(s[1..])
  }

  // ---------------------------------------------------------------------
  // Decode: `{projet:(.*?);projet_pae:(.*?);prestation:(.*?);inclu:(.*?)}`

  const DecodeHead := "{projet:"
  const DecodeLits := [";projet_pae:", ";prestation:", ";inclu:", "}"]

  /** `currentReport.match(...)`: the four groups as a record; none when the
      text does not match (the destructuring then throws). */
  function Decode(report: string): (r: Option<Record>)
    ensures r.Some? ==> AllSingleLine(Fields(r.value))
    ensures r.Some? ==> Occurs(Encode(r.value), report)
  {
    match FirstMatch(report, DecodeHead, DecodeLits)
    case None => None
    case Some(gs) =>
      var rec := Record(gs[0], gs[1], gs[2], gs[3]);
      assert Fields(rec) == gs;
      Some(rec)
  }

  /** Conversely, a text holding the record text of single-line values
      anywhere decodes (to those values or to others found further left). */
  lemma DecodeComplete(report: string, i: nat, rec: Record)
    requires i <= |report| && AllSingleLine(Fields(rec)) && IsPrefix(Encode(rec), report[i..])
    ensures Decode(report).Some?
  {
    FirstMatchComplete(report, DecodeHead, DecodeLits, i, Fields(rec));
  }

  /** Field values that the non-greedy groups recover: no `;` in the first
      three, no `}` in the last, no line break anywhere. */
  predicate Plain(r: Record) {
    ';' !in r.project && ';' !in r.paeProject && ';' !in r.prestation && '}' !in r.included
    && SingleLine(r.project) && SingleLine(r.paeProject) && SingleLine(r.prestation) && SingleLine(r.included)
  }

  // ---------------------------------------------------------------------
  // Client and insertion points

  datatype Client = Desktop | Web | UnknownHost

  /** `getOutlookClientType` on `diagnostics.hostName`. */
  function ClientOf(hostName: string): (c: Client)
    ensures c == Desktop <==> hostName == "Outlook"
    ensures c == Web <==> hostName == "OutlookWebApp"
  {
    if hostName == "Outlook" then Desktop
    else if hostName == "OutlookWebApp" then Web
    else UnknownHost
  }

  const DesktopEnd := "<" + "/div></body></html>"
  const BodyOpen := "<body>"
  const BodyClose := "<" + "/body>"
  const Converted := "<!-- Converted from text/plain format -->"

  /** The first position at or after `from` where `p` starts, ignoring case. */
  function FindIgnoringCase(s: string, p: string, from: nat): (r: Option<nat>)
    requires from <= |s|
    ensures r.Some? ==> from <= r.value <= |s| && IsPrefixIgnoringCase(p, s[r.value..])
    ensures r.Some? ==> forall k | from <= k < r.value :: !IsPrefixIgnoringCase(p, s[k..])
    ensures r.None? ==> forall k | from <= k <= |s| :: !IsPrefixIgnoringCase(p, s[k..])
    decreases |s| - from
  {
    if IsPrefixIgnoringCase(p, s[from..]) then Some(from)
    else if from == |s| then None
    else FindIgnoringCase(s, p, from + 1)
  }

  /** `p` starts at `k` and `q` at `c`, after it, ignoring case. */
  predicate PairAt(s: string, p: string, q: string, k: nat, c: nat) {
    k + |p| <= c <= |s| && IsPrefixIgnoringCase(p, s[k..]) && IsPrefixIgnoringCase(q, s[c..])
  }

  /** `a` starts at `o`, `p` at `k` and `q` at `c`, in this order, ignoring
      case. */
  predicate TripleAt(s: string, a: string, p: string, q: string, o: nat, k: nat, c: nat) {
    o + |a| <= k && PairAt(s, p, q, k, c) && IsPrefixIgnoringCase(a, s[o..])
  }

  /** `[\s\S]*?(p[\s\S]*?)(q)` with the first lazy group having reached
      `j`: where `p` and `q` start. Backtracking can only move `p` later, which
      leaves fewer places for `q` after it, so a match uses the first `p` and
      the first `q` after that. */
  function LazyPair(s: string, p: string, q: string, j: nat): (r: Option<(nat, nat)>)
    requires j <= |s|
    ensures r.Some? ==> j <= r.value.0 && PairAt(s, p, q, r.value.0, r.value.1)
    ensures r.Some? ==> forall k | j <= k < r.value.0 :: !IsPrefixIgnoringCase(p, s[k..])
    ensures r.Some? ==> forall c | r.value.0 + |p| <= c < r.value.1 :: !IsPrefixIgnoringCase(q, s[c..])
    ensures r.None? ==> forall k: nat, c: nat | j <= k :: !PairAt(s, p, q, k, c)
  {
    var k :- FindIgnoringCase(s, p, j);
    var c :- FindIgnoringCase(s, q, k + |p|);
    Some((k, c))
  }

  /** Where a match of the fallback pattern starts each of its three fixed
      parts. */
  datatype Span = Span(open: nat, comment: nat, close: nat)

  /** The leftmost match of `/(a)[\s\S]*?(p[\s\S]*?)(q)/i`. A later `a` has
      no more text after it than the first, so the match starts at the first
      `a` or nowhere. */
  function LazyTriple(s: string, a: string, p: string, q: string): (r: Option<Span>)
    ensures r.Some? ==> TripleAt(s, a, p, q, r.value.open, r.value.comment, r.value.close)
    ensures r.Some? ==> forall o: nat, k: nat, c: nat | o < r.value.open :: !TripleAt(s, a, p, q, o, k, c)
    ensures r.Some? ==> forall k | r.value.open + |a| <= k < r.value.comment :: !IsPrefixIgnoringCase(p, s[k..])
    ensures r.Some? ==> forall c | r.value.comment + |p| <= c < r.value.close :: !IsPrefixIgnoringCase(q, s[c..])
    ensures r.None? ==> forall o: nat, k: nat, c: nat :: !TripleAt(s, a, p, q, o, k, c)
  {
    match FindIgnoringCase(s, a, 0)
    case None => None
    case Some(o) =>
      NoTripleBefore(s, a, p, q, o);
      match LazyPair(s, p, q, o + |a|)
      case None =>
        NoTripleFrom(s, a, p, q, o);
        None
      case Some(kc) => Some(Span(o, kc.0, kc.1))
  }

  /** No triple starts before the first `a`. */
  lemma NoTripleBefore(s: string, a: string, p: string, q: string, o: nat)
    requires FindIgnoringCase(s, a, 0) == Some(o)
    ensures forall o': nat, k: nat, c: nat | o' < o :: !TripleAt(s, a, p, q, o', k, c)
  {
  }

  /** No triple at all when the first `a` has none after it. */
  lemma NoTripleFrom(s: string, a: string, p: string, q: string, o: nat)
    requires FindIgnoringCase(s, a, 0) == Some(o) && LazyPair(s, p, q, o + |a|).None?
    ensures forall o': nat, k: nat, c: nat | o <= o' :: !TripleAt(s, a, p, q, o', k, c)
  {
  }

  /** `/(<body>)[\s\S]*?(<!-- Converted from text\/plain format -->[\s\S]*?)(<\/body>)/i`
      on `s`. */
  function FallbackSpan(s: string): Option<Span> {
    LazyTriple(s, BodyOpen, Converted, BodyClose)
  }

  /** The desktop strategy: splice the block in before the last
      `</div></body></html>`; failing that, replace the first
      `<body>…converted comment…</body>` by `<body><div>marker</div></body>`;
      failing that, nothing. */
  function InsertDesktop(body: string, r: Record): (w: Option<string>)
    ensures Occurs(DesktopEnd, body) ==> w.Some? && |w.value| == |body| + |Block(r)|
    ensures Occurs(DesktopEnd, body) ==>
      var i := LastIndexOf(body, DesktopEnd).value;
      w.value[..i] + w.value[i + |Block(r)|..] == body && w.value[i..i + |Block(r)|] == Block(r)
      && IsPrefix(DesktopEnd, w.value[i + |Block(r)|..])
    ensures !Occurs(DesktopEnd, body) ==> (w.Some? <==> FallbackSpan(body).Some?)
    ensures !Occurs(DesktopEnd, body) && w.Some? ==>
      var sp := FallbackSpan(body).value;
      w.value == body[..sp.open + |BodyOpen|] + Block(r) + body[sp.close..]
  {
    if Occurs(DesktopEnd, body) then
      var i := LastIndexOf(body, DesktopEnd).value;
      SpliceAt(body, i, Block(r));
      Some(body[..i] + Block(r) + body[i..])
    else match FallbackSpan(body)
      case Some(sp) => Some(body[..sp.open + |BodyOpen|] + Block(r) + body[sp.close..])
      case None => None
  }

  // ---------------------------------------------------------------------
  // The handler

  /** What the `getAsync` callback does with the body it read (`None` when
      the read failed), the form values, the client, and the answer the user
      would give to the replace dialog. */
  function Respond(read: Option<string>, r: Record, client: Client, confirm: bool): (rep: Reply)
    requires NoDollarIn(r)
    ensures rep.write.Some? <==> Writes(rep.outcome)
    ensures read.None? ==> rep.outcome == ReadFailed
    ensures rep.outcome.Replaced? ==>
      confirm && read.Some? && Lookup(RemoveSpellCheckTags(read.value)).Some? &&
      rep.write == Some(ReplaceFirst(RemoveSpellCheckTags(read.value), Lookup(RemoveSpellCheckTags(read.value)).value, Encode(r)))
    ensures rep.outcome.Inserted? ==> read.Some? && Lookup(RemoveSpellCheckTags(read.value)).None? && client != UnknownHost
    ensures rep.outcome.Inserted? && client == Web ==> rep.write == Some(RemoveSpellCheckTags(read.value) + Block(r))
    ensures rep.outcome.Inserted? && client == Desktop ==> rep.write == InsertDesktop(RemoveSpellCheckTags(read.value), r)
    ensures read.Some? ==>
      var found := Lookup(RemoveSpellCheckTags(read.value));
      && (rep.outcome == AlreadyPresent <==> found == Some(Encode(r)))
      && (rep.outcome.Replaced? <==> found.Some? && found.value != Encode(r) && Decode(found.value).Some? && confirm)
      && (rep.outcome == Inserted <==>
            found.None? && (client == Web || (client == Desktop && InsertDesktop(RemoveSpellCheckTags(read.value), r).Some?)))
      && (rep.outcome == Throws <==> found.Some? && found.value != Encode(r) && Decode(found.value).None?)
      && (rep.outcome.Kept? <==> found.Some? && found.value != Encode(r) && Decode(found.value).Some? && !confirm)
      && (rep.outcome.Replaced? ==> Decode(found.value) == Some(rep.outcome.previous))
      && (rep.outcome.Kept? ==> Decode(found.value) == Some(rep.outcome.previous))
      && (rep.outcome == UnknownClient <==> found.None? && client == UnknownHost)
      && (rep.outcome == NoInsertionPoint <==> found.None? && client == Desktop && InsertDesktop(RemoveSpellCheckTags(read.value), r).None?)
  {
    match read
    case None => Reply(ReadFailed, None)
    case Some(current) =>
      var body := RemoveSpellCheckTags(current);
      var report := Encode(r);
      match Lookup(body)
      case Some(existing) =>
        if existing == report then Reply(AlreadyPresent, None)
        else
          (match Decode(existing)
           case None => Reply(Throws, None)
           case Some(previous) =>
             if confirm then Reply(Replaced(previous), Some(ReplaceFirst(body, existing, report)))
             else Reply(Kept(previous), None))
      case None =>
        match client
        case Web => Reply(Inserted, Some(body + Block(r)))
        case Desktop =>
          (match InsertDesktop(body, r)
           case Some(w) => Reply(Inserted, Some(w))
           case None => Reply(NoInsertionPoint, None))
        case UnknownHost => Reply(UnknownClient, None)
  }

  // ---------------------------------------------------------------------
  // Properties

  /** Plain field values survive encoding and decoding. */
  lemma DecodeEncode(r: Record)
    requires Plain(r)
    ensures Decode(Encode(r)) == Some(r)
  {
    assert Separable(Fields(r), DecodeLits) by {
      DecodeLitsFacts();
      NotOccursByChar(";projet_pae:", r.project, ';');
      NotOccursByChar(";prestation:", r.paeProject, ';');
      NotOccursByChar(";inclu:", r.prestation, ';');
      NotOccursByChar("}", r.included, '}');
    }
    assert Encode(r) == DecodeHead + Interleave(Fields(r), DecodeLits) + "";
    FirstMatchRecover(DecodeHead, Fields(r), DecodeLits, "");
  }

  lemma DecodeLitsFacts()
    ensures |DecodeLits| == 4
    ensures forall k | 0 <= k < 4 :: DecodeLits[k] != [] && DecodeLits[k][0] !in DecodeLits[k][1..]
  {
    assert DecodeLits[0][1..] == "projet_pae:";
    assert DecodeLits[1][1..] == "prestation:";
    assert DecodeLits[2][1..] == "inclu:";
  }

  /** Lookup passes over a prefix in which no sentinel starts. */
  lemma {:induction false} LookupSkips(x: string, w: string)
    requires forall i | 0 <= i < |x| :: !IsPrefix(Dashes, (x + w)[i..])
    ensures Lookup(x + w) == Lookup(w)
    decreases |x|
  {
    if x != [] {
      assert (x + w)[0..] == x + w;
      assert (x + w)[1..] == x[1..] + w;
      forall i | 0 <= i < |x| - 1 ensures !IsPrefix(Dashes, (x[1..] + w)[i..]) {
        assert (x[1..] + w)[i..] == (x + w)[i + 1..];
      }
      LookupSkips(x[1..], w);
    } else {
      assert x + w == w;
    }
  }

  /** ... and so over a sentinel-free prefix when no sentinel can straddle
      the seam. */
  lemma LookupSkipsPlain(x: string, w: string)
    requires !Occurs(Dashes, x) && NoStraddle(Dashes, x, w)
    ensures Lookup(x + w) == Lookup(w)
  {
    forall i | 0 <= i < |x| ensures !IsPrefix(Dashes, (x + w)[i..]) {
      StartInside(Dashes, x, w, i);
    }
    LookupSkips(x, w);
  }

  lemma StyleValueOfMarker(rest: string)
    ensures StyleValue(StyleAttr + rest) == Some(rest)
  {
    var t5 := ">" + rest;
    var t4 := "\"" + t5;
    var t3 := ";" + t4;
    var t2 := "white" + t3;
    var t1 := "color:" + t2;
    assert StyleAttr + rest == "\"" + t1 by {
      Reassoc6("\"", "color:", "white", ";", "\"", ">", rest);
    }
    assert QuoteAt("\"" + t1) == Some(t1) by {
      HeadOf("\"", t1);
    }
    LitOf("color:", t2);
    assert OptSpace(t2) == t2 by {
      HeadOf("white", t3);
    }
    LitOf("white", t3);
    assert OptChar(t3, ';') == t4 by {
      HeadOf(";", t4);
    }
    assert QuoteAt(t4) == Some(t5) by {
      HeadOf("\"", t5);
    }
    LitOf(">", rest);
  }

  lemma AfterDashesOfMarker(rest: string)
    ensures AfterDashes(LineBreak + (StyleOpen + (StyleAttr + rest))) == Some(rest)
  {
    var t3 := StyleAttr + rest;
    var t2 := StyleOpen + t3;
    var t1 := LineBreak + t2;
    OpeningPieceFacts();
    assert SkipSpaces(t1) == t1 by {
      HeadOf(LineBreak, t2);
    }
    LitOf(LineBreak, t2);
    assert SkipSpaces(t2) == t2 by {
      HeadOf(StyleOpen, t3);
    }
    LitOf(StyleOpen, t3);
    StyleValueOfMarker(rest);
  }

  lemma AfterOpeningOfMarker(rest: string)
    ensures AfterOpening(MarkerOpen + rest) == Some(rest)
  {
    var t1 := LineBreak + (StyleOpen + (StyleAttr + rest));
    assert MarkerOpen + rest == Dashes + t1 by {
      Reassoc4(Dashes, LineBreak, StyleOpen, StyleAttr, rest);
    }
    LitOf(Dashes, t1);
    AfterDashesOfMarker(rest);
  }

  /** Only white space. */
  predicate AllSpaces(s: string) {
    forall i | 0 <= i < |s| :: IsJsSpace(s[i])
  }

  /** `\s*` consumes leading white space up to a character that is not one. */
  lemma {:induction false} SkipSpacesOver(sp: string, t: string)
    requires AllSpaces(sp) && t != [] && !IsJsSpace(t[0])
    ensures SkipSpaces(sp + t) == t
    decreases |sp|
  {
    if sp != [] {
      assert (sp + t)[0] == sp[0] && (sp + t)[1..] == sp[1..] + t;
      SkipSpacesOver(sp[1..], t);
    } else {
      assert sp + t == t;
    }
  }

  /** Every style value the pattern admits: either quote at each end, an
      optional white-space character after `color:`, an optional `;`. */
  lemma StyleValueRecognises(q1: char, ws: string, semi: string, q2: char, rest: string)
    requires (q1 == '"' || q1 == '\'') && (q2 == '"' || q2 == '\'')
    requires ws == "" || (|ws| == 1 && IsJsSpace(ws[0]))
    requires semi == "" || semi == ";"
    ensures StyleValue([q1] + ("color:" + (ws + ("white" + (semi + ([q2] + (">" + rest))))))) == Some(rest)
  {
    var t5 := ">" + rest;
    var t4 := [q2] + t5;
    var t3 := semi + t4;
    var t2 := "white" + t3;
    var t1 := "color:" + (ws + t2);
    LitOf("color:", ws + t2);
    HeadOf("white", t3);
    OptSpaceOver(ws, t2);
    LitOf("white", t3);
    OptCharOver(semi, t4, ';');
    assert t4[1..] == t5;
    LitOf(">", rest);
  }

  /** `\s?` takes the optional space and stops at what follows. */
  lemma OptSpaceOver(ws: string, t: string)
    requires ws == "" || (|ws| == 1 && IsJsSpace(ws[0]))
    requires t != [] && !IsJsSpace(t[0])
    ensures OptSpace(ws + t) == t
  {
    if ws == "" {
      assert ws + t == t;
    } else {
      assert (ws + t)[0] == ws[0] && (ws + t)[1..] == t;
    }
  }

  /** `c?` takes the optional `c` and stops at what follows. */
  lemma OptCharOver(oc: string, t: string, c: char)
    requires oc == "" || oc == [c]
    requires t != [] && t[0] != c
    ensures OptChar(oc + t, c) == t
  {
    if oc == "" {
      assert oc + t == t;
    } else {
      assert (oc + t)[1..] == t;
    }
  }

  /** Every opening the pattern admits: the sentinel, white space, `<br>`,
      white space, `<span style=` and an admitted style value. */
  lemma AfterOpeningRecognises(o: Opening, rest: string)
    requires Admitted(o)
    ensures AfterOpening(OpeningThen(o, rest)) == Some(rest)
  {
    var (sp1, sp2, q1, ws, semi, q2) := (o.sp1, o.sp2, o.q1, o.ws, o.semi, o.q2);
    var v := [q1] + ("color:" + (ws + ("white" + (semi + ([q2] + (">" + rest))))));
    var t2 := StyleOpen + v;
    var t1 := LineBreak + (sp2 + t2);
    OpeningPieceFacts();
    LitOf(Dashes, sp1 + t1);
    HeadOf(LineBreak, sp2 + t2);
    SkipSpacesOver(sp1, t1);
    LitOf(LineBreak, sp2 + t2);
    HeadOf(StyleOpen, v);
    SkipSpacesOver(sp2, t2);
    LitOf(StyleOpen, v);
    StyleValueRecognises(q1, ws, semi, q2, rest);
  }

  /** The opening the pattern accepts, both ways: `rest` follows an accepted
      opening at the start of `t` exactly when `t` is an admitted opening
      followed by `rest`. */
  lemma AfterOpeningExactly(t: string, rest: string)
    ensures AfterOpening(t) == Some(rest) <==> exists o :: Admitted(o) && t == OpeningThen(o, rest)
  {
    if exists o :: Admitted(o) && t == OpeningThen(o, rest) {
      var o :| Admitted(o) && t == OpeningThen(o, rest);
      AfterOpeningRecognises(o, rest);
    }
  }

  /** `exec` finds the first position where a marker matches. */
  lemma {:induction false} LookupIsFirst(s: string, k: nat)
    requires k < |s| && MarkerAt(s[k..]).Some?
    requires forall j | 0 <= j < k :: MarkerAt(s[j..]).None?
    ensures Lookup(s) == MarkerAt(s[k..])
    decreases k
  {
    assert s[0..] == s;
    if k > 0 {
      assert MarkerAt(s).None?;
      assert Lookup(s) == Lookup(s[1..]);
      forall j | 0 <= j < k - 1 ensures MarkerAt(s[1..][j..]).None? {
        assert s[1..][j..] == s[j + 1..];
      }
      assert s[1..][k - 1..] == s[k..];
      LookupIsFirst(s[1..], k - 1);
    }
  }

  /** `exec` returns null exactly when a marker matches nowhere. */
  lemma {:induction false} LookupNoneIffNowhere(s: string)
    ensures Lookup(s).None? <==> forall k | 0 <= k < |s| :: MarkerAt(s[k..]).None?
    decreases |s|
  {
    assert s[0..] == s;
    if s != [] {
      LookupNoneIffNowhere(s[1..]);
      forall k | 1 <= k < |s| ensures s[1..][k - 1..] == s[k..] {
      }
    }
  }

  /** A marker is found at the start of a text that begins with it, and its
      record text is captured exactly. */
  lemma MarkerAtMarker(e: string, tail: string)
    requires !Occurs(SpanClose, e)
    ensures MarkerAt(MarkerOpen + e + SpanClose + tail) == Some(e)
  {
    var rest := e + (SpanClose + tail);
    assert MarkerOpen + e + SpanClose + tail == MarkerOpen + rest by {
      AppendThree(MarkerOpen, e, SpanClose, tail);
    }
    AfterOpeningOfMarker(rest);
    SpanCloseFacts();
    UpToOf(e, SpanClose, tail);
  }

  /** Lookup in a text where the only sentinel is that of an inserted block
      returns the block's record text. */
  lemma LookupFindsBlock(x: string, r: Record, tail: string)
    requires !Occurs(Dashes, x) && !Occurs(SpanClose, Encode(r))
    ensures Lookup(x + Block(r) + tail) == Some(Encode(r))
  {
    Regroup(x, "<div>", Marker(r), "</div>", tail);
    DivFacts();
    LookupFindsText(x, "<div>", Encode(r), "</div>" + tail);
  }

  /** Lookup finds a marker behind a sentinel-free text `x` and a tag `d`
      that holds no dash. */
  lemma LookupFindsText(x: string, d: string, e: string, tail: string)
    requires !Occurs(Dashes, x) && !Occurs(SpanClose, e)
    requires d != [] && d[0] == '<' && d[|d| - 1] == '>' && '-' !in d
    ensures Lookup(x + (d + (MarkerOpen + e + SpanClose + tail))) == Some(e)
  {
    var m := MarkerOpen + e + SpanClose + tail;
    DashesFacts();
    assert Lookup(x + (d + m)) == Lookup(d + m) by {
      assert (d + m)[0] == '<';
      LookupSkipsPlain(x, d + m);
    }
    assert Lookup(d + m) == Lookup(m) by {
      NotOccursByChar(Dashes, d, '-');
      LookupSkipsPlain(d, m);
    }
    MarkerAtMarker(e, tail);
  }

  /** A lone block is found, its record text captured exactly. */
  lemma LookupFindsDiv(e: string)
    requires !Occurs(SpanClose, e)
    ensures Lookup("<div>" + (MarkerOpen + e + SpanClose) + "</div>") == Some(e)
  {
    assert "<div>" + (MarkerOpen + e + SpanClose) + "</div>" == [] + ("<div>" + (MarkerOpen + e + SpanClose + "</div>"));
    DivFacts();
    DashesFacts();
    assert !Occurs(Dashes, []);
    LookupFindsText([], "<div>", e, "</div>");
  }

  lemma DivFacts()
    ensures "<div>" != [] && "<div>"[0] == '<' && "<div>"[4] == '>' && '-' !in "<div>"
  {
  }

  lemma DashesFacts()
    ensures |Dashes| == 53 && Dashes[0] == '-' && '-' in Dashes
    ensures '<' !in Dashes[1..] && '>' !in Dashes[..52]
  {
  }

  /** A pattern absent from the field values and holding a character `c`
      that no key holds is absent from the record text, when it can neither
      continue after a key's final `:` nor run on into a key's leading `;`
      or the closing `}`. */
  lemma NotInEncode(p: string, r: Record, c: char)
    requires p != [] && c in p
    requires c !in "{projet:" && c !in ";projet_pae:" && c !in ";prestation:" && c !in ";inclu:" && c !in "}"
    requires ':' !in p[..|p| - 1] && ';' !in p[1..] && '}' !in p[1..]
    requires FieldsLack(p, r)
    ensures !Occurs(p, Encode(r))
  {
    NotOccursByChar(p, "{projet:", c);
    NotOccursByChar(p, ";projet_pae:", c);
    NotOccursByChar(p, ";prestation:", c);
    NotOccursByChar(p, ";inclu:", c);
    NotOccursByChar(p, "}", c);
    var a1 := "{projet:" + r.project;
    NotOccursConcat(p, "{projet:", r.project);
    var a2 := a1 + ";projet_pae:";
    NotOccursConcat(p, a1, ";projet_pae:");
    var a3 := a2 + r.paeProject;
    NotOccursConcat(p, a2, r.paeProject);
    var a4 := a3 + ";prestation:";
    NotOccursConcat(p, a3, ";prestation:");
    var a5 := a4 + r.prestation;
    NotOccursConcat(p, a4, r.prestation);
    var a6 := a5 + ";inclu:";
    NotOccursConcat(p, a5, ";inclu:");
    var a7 := a6 + r.included;
    NotOccursConcat(p, a6, r.included);
    NotOccursConcat(p, a7, "}");
  }

  /** `<span style=` differs from the annotation opening at its seventh
      character and holds no second `<`. */
  lemma NoSpellOpenInStyle()
    ensures !Occurs(SpellOpen, StyleOpen)
  {
    SpellOpenFacts();
    OpeningPieceFacts();
    NotPrefixAt(SpellOpen, StyleOpen, 6);
    NotOccursPastFront(SpellOpen, StyleOpen, '<');
  }

  lemma NoSpanCloseInEncode(r: Record)
    requires FieldsLack(SpanClose, r)
    ensures !Occurs(SpanClose, Encode(r))
  {
    SpanCloseFacts();
    NotInEncode(SpanClose, r, '<');
  }

  lemma NoSpellOpenInOpening()
    ensures !Occurs(SpellOpen, MarkerOpen)
  {
    SpellOpenFacts();
    OpeningPieceFacts();
    NoSpellOpenInStyle();
    NotOccursByChar(SpellOpen, Dashes, '<');
    NotOccursByChar(SpellOpen, LineBreak, 'c');
    NotOccursByChar(SpellOpen, StyleAttr, '<');
    NoOccurSeam(SpellOpen, StyleOpen, StyleAttr);
    NoOccurSeam(SpellOpen, LineBreak, StyleOpen + StyleAttr);
    NoOccurSeam(SpellOpen, Dashes, LineBreak + (StyleOpen + StyleAttr));
  }

  /** The characters of the pieces of the marker opening that matter. */
  lemma OpeningPieceFacts()
    ensures '<' !in Dashes && '-' in Dashes && Dashes[0] == '-'
    ensures 'c' !in LineBreak && LineBreak[0] == '<' && !IsJsSpace(LineBreak[0])
    ensures StyleOpen[0] == '<' && !IsJsSpace(StyleOpen[0]) && '<' !in StyleOpen[1..] && StyleOpen[6] == 's'
    ensures '<' !in StyleAttr && StyleAttr[0] == '"'
  {
    assert Dashes[0] == '-';
  }

  /** An inserted block holds no spelling annotation. */
  lemma NoSpellOpenInBlock(r: Record)
    requires FieldsLack(SpellOpen, r)
    ensures !Occurs(SpellOpen, Block(r))
  {
    var e := Encode(r);
    assert !Occurs(SpellOpen, e) by {
      SpellOpenFacts();
      NotInEncode(SpellOpen, r, '<');
    }
    NoSpellOpenInWrapped(e);
  }

  lemma NoSpellOpenInWrapped(e: string)
    requires !Occurs(SpellOpen, e) && e != [] && e[0] == '{'
    ensures !Occurs(SpellOpen, "<div>" + (MarkerOpen + e + SpanClose) + "</div>")
  {
    SpellOpenFacts();
    WrapperFacts();
    OpeningPieceFacts();
    NoSpellOpenInOpening();
    NotOccursByChar(SpellOpen, "<div>", 'c');
    NotOccursByChar(SpellOpen, SpanClose, 'c');
    NotOccursByChar(SpellOpen, "</div>", 'c');
    NoOccurSeam(SpellOpen, MarkerOpen, e);
    NoOccurSeam(SpellOpen, MarkerOpen + e, SpanClose);
    NoOccurSeam(SpellOpen, "<div>", MarkerOpen + e + SpanClose);
    NoOccurSeam(SpellOpen, "<div>" + (MarkerOpen + e + SpanClose), "</div>");
  }

  lemma WrapperFacts()
    ensures 'c' !in "<div>" && 'c' !in SpanClose && 'c' !in "</div>"
    ensures SpanClose[0] == '<' && "</div>"[0] == '<' && MarkerOpen[0] == '-'
  {
    OpeningPieceFacts();
  }

  /** Stripping leaves a body with an inserted block unchanged when no
      annotation opening starts in the text around it and the field values
      hold none. */
  lemma StripKeepsInserted(x: string, r: Record, tail: string)
    requires HeadFree(x) && HeadFree(tail) && (tail == [] || tail[0] == '<')
    requires FieldsLack(SpellOpen, r)
    ensures RemoveSpellCheckTags(x + Block(r) + tail) == x + Block(r) + tail
  {
    NoSpellOpenInBlock(r);
    HeadFreeWithoutOpen(Block(r));
    assert Block(r)[0] == '<';
    RemoveKeepsThree(x, Block(r), tail);
  }

  lemma LowerIsAngle(c: char)
    requires Lower(c) == '<'
    ensures c == '<'
  {
  }

  /** Every desktop insertion puts the block between a prefix and a suffix of
      the body, the suffix starting with a tag. */
  lemma DesktopSplit(b: string, r: Record) returns (x: string, tail: string)
    requires InsertDesktop(b, r).Some?
    ensures InsertDesktop(b, r).value == x + Block(r) + tail
    ensures |x| <= |b| && x == b[..|x|] && |tail| <= |b| && tail == b[|b| - |tail|..]
    ensures tail != [] && tail[0] == '<'
  {
    if Occurs(DesktopEnd, b) {
      var i := LastIndexOf(b, DesktopEnd).value;
      x, tail := b[..i], b[i..];
      assert tail[..|DesktopEnd|] == DesktopEnd;
      assert DesktopEnd[0] == '<';
    } else {
      var span := FallbackSpan(b).value;
      x, tail := b[..span.open + |BodyOpen|], b[span.close..];
      assert BodyClose[0] == '<';
      AngleFront(BodyClose, tail);
    }
  }

  /** A text that starts with `p` ignoring case starts with `<` when `p` does. */
  lemma AngleFront(p: string, t: string)
    requires IsPrefixIgnoringCase(p, t) && p != [] && p[0] == '<'
    ensures t != [] && t[0] == '<'
  {
    LowerIsAngle(t[0]);
  }

  /** The desktop fallback discards everything between `<body>` and
      `</body>`, the converted-from-text comment among it. */
  lemma FallbackDropsContent(b: string, r: Record)
    requires !Occurs(DesktopEnd, b) && InsertDesktop(b, r).Some?
    ensures var sp := FallbackSpan(b).value;
      var kept, dropped := b[..sp.open + |BodyOpen|], b[sp.open + |BodyOpen|..sp.close];
      b == kept + dropped + b[sp.close..]
      && InsertDesktop(b, r).value == kept + Block(r) + b[sp.close..]
      && |kept| <= sp.comment && sp.comment + |Converted| <= |kept| + |dropped|
      && IsPrefixIgnoringCase(Converted, b[sp.comment..])
      && |InsertDesktop(b, r).value| + |Converted| <= |b| + |Block(r)|
  {
    var sp := FallbackSpan(b).value;
    ThreeSlices(b, sp.open + |BodyOpen|, sp.close);
  }

  lemma ThreeSlices(b: string, i: nat, c: nat)
    requires i <= c <= |b|
    ensures b == b[..i] + b[i..c] + b[c..]
  {
  }

  /** `x` is a prefix and `tail` a suffix of `b`, and `tail` is empty or
      starts with a tag: the two pieces an insertion keeps around the block. */
  predicate Fringe(b: string, x: string, tail: string) {
    |x| <= |b| && x == b[..|x|] && |tail| <= |b| && tail == b[|b| - |tail|..]
    && (tail == [] || tail[0] == '<')
  }

  /** Where an insertion puts the block: between a prefix and a suffix of
      the stripped body, the suffix empty or starting with a tag. */
  lemma InsertionSplit(current: string, r: Record, client: Client, confirm: bool) returns (x: string, tail: string)
    requires NoDollarIn(r) && Respond(Some(current), r, client, confirm).outcome.Inserted?
    ensures Respond(Some(current), r, client, confirm).write == Some(x + Block(r) + tail)
    ensures Fringe(RemoveSpellCheckTags(current), x, tail)
  {
    var b := RemoveSpellCheckTags(current);
    if client == Web {
      x, tail := b, [];
      assert b + Block(r) == x + Block(r) + tail;
    } else {
      x, tail := DesktopSplit(b, r);
    }
  }

  /** Round trip: after an insertion into a stripped body that holds no
      sentinel and in which no annotation opening starts, with field values free of annotations and
      closing tags, stripping and looking up the written body gives exactly
      the new record text, so submitting the same values again only reports
      that they are already present and writes nothing, whatever the client
      and the dialog answer. */
  lemma ResubmitIsDuplicate(current: string, r: Record, client: Client, confirm: bool, client2: Client, confirm2: bool)
    requires NoDollarIn(r) && FieldsLack(SpellOpen, r) && FieldsLack(SpanClose, r)
    requires HeadFree(RemoveSpellCheckTags(current)) && !Occurs(Dashes, RemoveSpellCheckTags(current))
    requires Respond(Some(current), r, client, confirm).outcome.Inserted?
    ensures var w := Respond(Some(current), r, client, confirm).write.value;
      Lookup(RemoveSpellCheckTags(w)) == Some(Encode(r))
      && Respond(Some(w), r, client2, confirm2) == Reply(AlreadyPresent, None)
  {
    InsertedIsFound(current, r, client, confirm);
    DuplicateWhenFound(Respond(Some(current), r, client, confirm).write.value, r, client2, confirm2);
  }

  lemma InsertedIsFound(current: string, r: Record, client: Client, confirm: bool)
    requires NoDollarIn(r) && FieldsLack(SpellOpen, r) && FieldsLack(SpanClose, r)
    requires HeadFree(RemoveSpellCheckTags(current)) && !Occurs(Dashes, RemoveSpellCheckTags(current))
    requires Respond(Some(current), r, client, confirm).outcome.Inserted?
    ensures Lookup(RemoveSpellCheckTags(Respond(Some(current), r, client, confirm).write.value)) == Some(Encode(r))
  {
    var w := Respond(Some(current), r, client, confirm).write.value;
    var x, tail := InsertionSplit(current, r, client, confirm);
    FoundAfterInsert(RemoveSpellCheckTags(current), x, r, tail);
    FoundInWrite(w, x + Block(r) + tail, Encode(r));
  }

  /** Lets the proof above name the written body without unfolding `Respond`. */
  lemma FoundInWrite(w: string, v: string, e: string)
    requires w == v && Lookup(RemoveSpellCheckTags(v)) == Some(e)
    ensures Lookup(RemoveSpellCheckTags(w)) == Some(e)
  {
  }

  /** A block put between a prefix and a suffix of a body free of sentinels
      and of annotation openings is what stripping and lookup find. */
  lemma FoundAfterInsert(b: string, x: string, r: Record, tail: string)
    requires FieldsLack(SpellOpen, r) && FieldsLack(SpanClose, r)
    requires HeadFree(b) && !Occurs(Dashes, b)
    requires Fringe(b, x, tail)
    ensures Lookup(RemoveSpellCheckTags(x + Block(r) + tail)) == Some(Encode(r))
  {
    CleanEnds(b, x, tail);
    StripKeepsInserted(x, r, tail);
    NoSpanCloseInEncode(r);
    LookupFindsBlock(x, r, tail);
  }

  lemma CleanEnds(b: string, x: string, tail: string)
    requires HeadFree(b) && !Occurs(Dashes, b)
    requires |x| <= |b| && x == b[..|x|] && |tail| <= |b| && tail == b[|b| - |tail|..]
    ensures HeadFree(x) && HeadFree(tail) && !Occurs(Dashes, x)
  {
    HeadFreeEnds(b, x, tail);
    assert b[0..|x|] == x;
    OccursInSlice(Dashes, b, 0, |x|);
  }

  /** A body whose first marker holds the record text of the submitted
      values gets the duplicate notice and no write. */
  lemma DuplicateWhenFound(w: string, r: Record, client: Client, confirm: bool)
    requires NoDollarIn(r) && Lookup(RemoveSpellCheckTags(w)) == Some(Encode(r))
    ensures Respond(Some(w), r, client, confirm) == Reply(AlreadyPresent, None)
  {
  }

  /** The calendar item whose HTML body the add-in reads and overwrites. */
  class CalendarEvent {
    var body: string

    constructor (initial: string)
      ensures body == initial
    {
      body := initial;
    }

    /** `handleSubmit`: `readOk` says whether `getAsync` succeeded and
        `confirm` which button of the replace dialog the user presses. */
    method Submit(r: Record, hostName: string, readOk: bool, confirm: bool) returns (outcome: Outcome)
      requires NoDollarIn(r)
      modifies this
      ensures var rep := Respond(if readOk then Some(old(body)) else None, r, ClientOf(hostName), confirm);
        outcome == rep.outcome && body == (if rep.write.Some? then rep.write.value else old(body))
    {
      var customReport := Encode(r);
      var clientType := ClientOf(hostName);
      if !readOk {
        return ReadFailed;
      }
      var currentDescription := body;
      currentDescription := RemoveSpellCheckTags(currentDescription);
      var found := Lookup(currentDescription);
      if found.Some? {
        var currentReport := found.value;
        if currentReport == customReport {
          outcome := AlreadyPresent;
        } else {
          var parsed := Decode(currentReport);
          if parsed.None? {
            return Throws;
          }
          if confirm {
            body := ReplaceFirst(currentDescription, currentReport, customReport);
            outcome := Replaced(parsed.value);
          } else {
            outcome := Kept(parsed.value);
          }
        }
      } else {
        var updatedDescription: string;
        if clientType == Desktop {
          if Occurs(DesktopEnd, currentDescription) {
            var index := LastIndexOf(currentDescription, DesktopEnd).value;
            updatedDescription := currentDescription[..index] + Block(r) + currentDescription[index..];
          } else {
            var span := FallbackSpan(currentDescription);
            if span.None? {
              return NoInsertionPoint;
            }
            updatedDescription := currentDescription[..span.value.open + |BodyOpen|] + Block(r) + currentDescription[span.value.close..];
          }
        } else if clientType == Web {
          updatedDescription := currentDescription + Block(r);
        } else {
          return UnknownClient;
        }
        body := updatedDescription;
        outcome := Inserted;
      }
    }
  }
}
