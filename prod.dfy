/**
 * The submit handler of the production add-in (scripts/TimeReporting.js):
 * the form values become a record text, wrapped after the `---PAS EFFACER---`
 * sentinel in a white `<span>` closed by a run of dashes; the event body is
 * searched for an earlier marker, and the handler then reports a duplicate,
 * asks to replace a different marker, appends a new one, or throws.
 */
module TimeReporting {
  import opened Wrappers
  import opened Text
  import opened Regex
  import opened Report

  /** The sentinel and white span written before the record text. */
  const Opening := "---PAS EFFACER---" + "<span style=" + "\"color: white;\">"

  /** What closes the marker. */
  const Closing := "</span>--------"

  /** `customReport` as written: `{projet:P;projet_pae:C;prestation:S;include:I`,
      with no closing brace. */
  function Encode(r: Record): (e: string)
    ensures '}' in e <==> '}' in r.project || '}' in r.paeProject || '}' in r.prestation || '}' in r.included
  {
    "{projet:" + r.project + ";projet_pae:" + r.paeProject + ";prestation:" + r.prestation
      + ";include:" + r.included
  }

  /** The record text with the closing brace the decoder looks for. */
  function EncodeClosed(r: Record): (e: string)
    ensures e == DecodeHead + Interleave(Fields(r), DecodeLits)
  {
    BraceCompletesPattern(r);
    Encode(r) + "}"
  }

  lemma BraceCompletesPattern(r: Record)
    ensures Encode(r) + "}" == DecodeHead + Interleave(Fields(r), DecodeLits)
  {
    var f := Fields(r);
    var l := DecodeLits;
    assert Interleave(f[3..], l[3..]) == r.included + "}";
    assert Interleave(f[2..], l[2..]) == r.prestation + ";include:" + Interleave(f[3..], l[3..]);
    assert Interleave(f[1..], l[1..]) == r.paeProject + ";prestation:" + Interleave(f[2..], l[2..]);
    assert Interleave(f, l) == r.project + ";projet_pae:" + Interleave(f[1..], l[1..]);
  }

  /** `<div>` + `customText` + `</div>`: the block appended to the body,
      `customText` being the sentinel, the span and the given record text. */
  function Block(report: string): (b: string)
    ensures !Occurs(Closing, report) ==> Lookup(b) == Some(report)
  {
    var b := "<div>" + (Opening + report + Closing) + "</div>";
    if !Occurs(Closing, report) then
      assert b == [] + ("<div>" + (Opening + report + Closing + "</div>")) by {
        Regroup([], "<div>", Opening + report + Closing, "</div>", []);
      }
      DivFacts();
      OpeningFacts();
      assert !Occurs(Opening, []);
      LookupFindsText([], "<div>", report, "</div>");
      b
    else b
  }

  // ---------------------------------------------------------------------
  // Lookup: the first match of
  //   ---PAS EFFACER---<span style="color: white;">([\s\S]*?)<\/span>--------

  /** The captured record text of a match at the start of `t`. */
  function MarkerAt(t: string): (r: Option<string>)
    ensures r.Some? ==> IsPrefix(Opening, t) && !Occurs(Closing, r.value)
    ensures r.Some? ==> IsPrefix(r.value + Closing, t[|Opening|..])
    ensures r.None? <==> !(IsPrefix(Opening, t) && Occurs(Closing, t[|Opening|..]))
  {
    var rest :- Lit(t, Opening);
    UpTo(rest, Closing)
  }

  /** `reportRegex.exec(currentDescription)[1]`, none when `test` fails. */
  function Lookup(s: string): (r: Option<string>)
    ensures r.Some? ==> Occurs(Opening, s) && !Occurs(Closing, r.value)
    decreases |s|
  {
    if s == [] then None
    else match MarkerAt(s)
      case Some(c) => Some(c)
      case None => Lookup(s[1..])
  }

  // ---------------------------------------------------------------------
  // Decode: `\{projet:(.*?);projet_pae:(.*?);prestation:(.*?);include:(.*?)\}`

  const DecodeHead := "{projet:"
  const DecodeLits := [";projet_pae:", ";prestation:", ";include:", "}"]

  /** `currentReport.match(...)`: the four groups as a record; none when the
      text does not match. A match needs a closing brace. */
  function Decode(report: string): (r: Option<Record>)
    ensures r.Some? ==> AllSingleLine(Fields(r.value))
    ensures r.Some? ==> Occurs(EncodeClosed(r.value), report) && '}' in report
  {
    match FirstMatch(report, DecodeHead, DecodeLits)
    case None => None
    case Some(gs) =>
      var rec := Record(gs[0], gs[1], gs[2], gs[3]);
      assert Fields(rec) == gs;
      var e := EncodeClosed(rec);
      OccursHasChars(e, report);
      assert e[|e| - 1] == '}';
      Some(rec)
  }

  /** Conversely, a text holding the closed record text of single-line values
      anywhere decodes (to those values or to others found further left). */
  lemma DecodeComplete(report: string, i: nat, rec: Record)
    requires i <= |report| && AllSingleLine(Fields(rec)) && IsPrefix(EncodeClosed(rec), report[i..])
    ensures Decode(report).Some?
  {
    FirstMatchComplete(report, DecodeHead, DecodeLits, i, Fields(rec));
  }

  /** Field values that the non-greedy groups recover: no `;` in the first
      three, no `}` in the last, no line break anywhere. */
  predicate Plain(r: Record) {
    ';' !in r.project && ';' !in r.paeProject && ';' !in r.prestation && '}' !in r.included
    && SingleLine(r.project) && SingleLine(r.paeProject) && SingleLine(r.prestation) && SingleLine(r.included)
  }

  // ---------------------------------------------------------------------
  // Submit

  /** One submission given the body read (none when the read failed), the
      form values, the answer the confirmation dialog would get, and the
      record text that is written and compared. */
  function SubmitWith(read: Option<string>, confirm: bool, report: string): (rep: Reply)
    requires NoDollar(report)
    ensures rep.write.Some? <==> Writes(rep.outcome)
    ensures read.None? ==> rep.outcome == ReadFailed
    ensures read.Some? ==>
      var found := Lookup(read.value);
      && (rep.outcome == AlreadyPresent <==> found == Some(report))
      && (rep.outcome == Throws <==> found.Some? && found.value != report && Decode(found.value).None?)
      && (rep.outcome.Replaced? <==> found.Some? && found.value != report && Decode(found.value).Some? && confirm)
      && (rep.outcome.Kept? <==> found.Some? && found.value != report && Decode(found.value).Some? && !confirm)
      && (rep.outcome.Replaced? || rep.outcome.Kept? ==> Decode(found.value) == Some(rep.outcome.previous))
      && (rep.outcome.Replaced? ==> rep.write == Some(ReplaceFirst(read.value, found.value, report)))
      && (rep.outcome == Inserted <==> found.None?)
      && (rep.outcome == Inserted ==> rep.write == Some(read.value + Block(report)))
  {
    match read
    case None => Reply(ReadFailed, None)
    case Some(current) =>
      match Lookup(current)
      case Some(existing) =>
        if existing == report then Reply(AlreadyPresent, None)
        else
          (match Decode(existing)
           case None => Reply(Throws, None)
           case Some(previous) =>
             if confirm then Reply(Replaced(previous), Some(ReplaceFirst(current, existing, report)))
             else Reply(Kept(previous), None))
      case None => Reply(Inserted, Some(current + Block(report)))
  }

  /** `handleSubmit` as written: the record text lacks the closing brace, so
      only a marker whose record text holds `}` can ever be replaced or kept. */
  function Submit(read: Option<string>, r: Record, confirm: bool): (rep: Reply)
    requires NoDollarIn(r)
    ensures read.None? ==> rep == Reply(ReadFailed, None)
    ensures read.Some? && Lookup(read.value) == Some(Encode(r)) ==> rep == Reply(AlreadyPresent, None)
    ensures read.Some? && Lookup(read.value).None? ==> rep == Reply(Inserted, Some(read.value + Block(Encode(r))))
    ensures read.Some? && Lookup(read.value).Some? && '}' !in Lookup(read.value).value
      ==> rep.outcome in {AlreadyPresent, Throws} && rep.write.None?
  {
    SubmitWith(read, confirm, Encode(r))
  }

  /** `handleSubmit` with the record text closed by `}`: a different marker
      that decodes leads to the dialog, and the answer picks the outcome. */
  function SubmitClosed(read: Option<string>, r: Record, confirm: bool): (rep: Reply)
    requires NoDollarIn(r)
    ensures read.None? ==> rep == Reply(ReadFailed, None)
    ensures read.Some? && Lookup(read.value) == Some(EncodeClosed(r)) ==> rep == Reply(AlreadyPresent, None)
    ensures read.Some? && Lookup(read.value).None? ==> rep == Reply(Inserted, Some(read.value + Block(EncodeClosed(r))))
    ensures read.Some? && Lookup(read.value).Some? ==>
      var found := Lookup(read.value).value;
      found != EncodeClosed(r) && Decode(found).Some? ==>
        rep.outcome == (if confirm then Replaced(Decode(found).value) else Kept(Decode(found).value))
  {
    SubmitWith(read, confirm, EncodeClosed(r))
  }

  // ---------------------------------------------------------------------
  // Properties

  /** Lookup passes over a prefix in which no sentinel starts. */
  lemma {:induction false} LookupSkips(x: string, w: string)
    requires forall i | 0 <= i < |x| :: !IsPrefix(Opening, (x + w)[i..])
    ensures Lookup(x + w) == Lookup(w)
    decreases |x|
  {
    if x != [] {
      assert (x + w)[1..] == x[1..] + w;
      forall i | 0 <= i < |x| - 1 ensures !IsPrefix(Opening, (x[1..] + w)[i..]) {
        assert (x[1..] + w)[i..] == (x + w)[i + 1..];
      }
      assert (x + w)[0..] == x + w;
      LookupSkips(x[1..], w);
    } else {
      assert x + w == w;
    }
  }

  /** `exec` returns the capture of the leftmost position where a marker
      matches. */
  lemma {:induction false} LookupIsFirst(s: string, k: nat)
    requires k < |s| && MarkerAt(s[k..]).Some?
    requires forall j | 0 <= j < k :: MarkerAt(s[j..]).None?
    ensures Lookup(s) == MarkerAt(s[k..])
    decreases k
  {
    assert s[0..] == s;
    if k > 0 {
      assert MarkerAt(s).None?;
      assert Lookup(s) == Lookup(s[1..]);
      MissesShift(s, k);
      assert s[1..][k - 1..] == s[k..];
      LookupIsFirst(s[1..], k - 1);
    }
  }

  lemma MissesShift(s: string, k: nat)
    requires 0 < k < |s| && forall j | 0 <= j < k :: MarkerAt(s[j..]).None?
    ensures forall j | 0 <= j < k - 1 :: MarkerAt(s[1..][j..]).None?
  {
    forall j | 0 <= j < k - 1 ensures MarkerAt(s[1..][j..]).None? {
      assert s[1..][j..] == s[j + 1..];
    }
  }

  /** `test` fails exactly when a marker matches nowhere. */
  lemma {:induction false} LookupNoneIffNowhere(s: string)
    ensures Lookup(s).None? <==> forall k | 0 <= k < |s| :: MarkerAt(s[k..]).None?
    decreases |s|
  {
    assert s[0..] == s;
    if s != [] {
      LookupNoneIffNowhere(s[1..]);
      forall k | 1 <= k < |s| ensures s[1..][k - 1..] == s[k..] {
      }
    }
  }

  lemma OpeningFacts()
    ensures Opening != [] && Opening[0] == '-' && Opening[|Opening| - 1] == '>' && 'd' !in Opening
  {
    assert 'd' !in "---PAS EFFACER---";
    assert 'd' !in "<span style=";
    assert 'd' !in "\"color: white;\">";
  }

  lemma DivFacts()
    ensures |"<div>"| == 5 && "<div>"[0] == '<' && "<div>"[1] == 'd' && '-' !in "<div>"
  {
  }

  /** A sentinel cannot start in a body free of it and run into an appended
      block, as the block starts with `<d`. */
  lemma LookupSkipsBody(x: string, w: string)
    requires !Occurs(Opening, x) && |w| >= 2 && w[0] == '<' && w[1] == 'd'
    ensures Lookup(x + w) == Lookup(w)
  {
    OpeningFacts();
    forall i | 0 <= i < |x| ensures !IsPrefix(Opening, (x + w)[i..]) {
      StartInsideByTwo(Opening, x, w, i);
    }
    LookupSkips(x, w);
  }

  lemma MarkerAtMarker(e: string, tail: string)
    requires !Occurs(Closing, e)
    ensures MarkerAt(Opening + e + Closing + tail) == Some(e)
  {
    var rest := e + (Closing + tail);
    assert Opening + e + Closing + tail == Opening + rest by {
      AppendThree(Opening, e, Closing, tail);
    }
    LitOf(Opening, rest);
    ClosingFacts();
    UpToOf(e, Closing, tail);
  }

  lemma ClosingFacts()
    ensures Closing != [] && Closing[0] !in Closing[1..]
  {
    assert Closing[1..] == "/span>--------";
  }

  /** In a body free of the sentinel, the appended block is what lookup
      finds, and it captures exactly the record text written. */
  lemma LookupFindsBlock(x: string, e: string)
    requires !Occurs(Opening, x) && !Occurs(Closing, e)
    ensures Lookup(x + Block(e)) == Some(e)
  {
    assert Block(e) == "<div>" + (Opening + e + Closing + "</div>") by {
      Regroup([], "<div>", Opening + e + Closing, "</div>", []);
    }
    DivFacts();
    LookupFindsText(x, "<div>", e, "</div>");
  }

  /** The same for any wrapper that starts with `<d` and holds no dash. */
  lemma LookupFindsText(x: string, d: string, e: string, tail: string)
    requires !Occurs(Opening, x) && !Occurs(Closing, e)
    requires |d| >= 2 && d[0] == '<' && d[1] == 'd' && '-' !in d
    ensures Lookup(x + (d + (Opening + e + Closing + tail))) == Some(e)
  {
    var m := Opening + e + Closing + tail;
    assert Lookup(x + (d + m)) == Lookup(d + m) by {
      LookupSkipsBody(x, d + m);
    }
    assert Lookup(d + m) == Lookup(m) by {
      LookupSkipsFront(d, m);
    }
    MarkerAtMarker(e, tail);
  }

  /** No sentinel starts in a prefix free of its first character. */
  lemma LookupSkipsFront(x: string, w: string)
    requires '-' !in x
    ensures Lookup(x + w) == Lookup(w)
  {
    OpeningFacts();
    forall i | 0 <= i < |x| ensures !IsPrefix(Opening, (x + w)[i..]) {
      assert (x + w)[i..][0] == x[i];
      NotPrefixAt(Opening, (x + w)[i..], 0);
    }
    LookupSkips(x, w);
  }

  /** With no marker, the block is appended whatever the client, so the old
      body is an unchanged prefix of the one written. */
  lemma AppendKeepsBody(current: string, r: Record, confirm: bool)
    requires NoDollarIn(r) && Lookup(current).None?
    ensures var rep := Submit(Some(current), r, confirm);
      rep.outcome == Inserted && rep.write.Some?
      && IsPrefix(current, rep.write.value) && rep.write.value[|current|..] == Block(Encode(r))
  {
    PrefixOfConcat(current, Block(Encode(r)));
  }

  /** Round trip: after appending to a body without the sentinel, a record
      text without the closing run is found again exactly, so submitting the
      same values again only alerts and writes nothing. */
  lemma ResubmitIsDuplicate(current: string, r: Record, confirm: bool, confirm2: bool)
    requires NoDollarIn(r) && !Occurs(Opening, current) && !Occurs(Closing, Encode(r))
    ensures Submit(Some(current), r, confirm).outcome == Inserted
    ensures var w := Submit(Some(current), r, confirm).write.value;
      Lookup(w) == Some(Encode(r)) && Submit(Some(w), r, confirm2) == Reply(AlreadyPresent, None)
  {
    assert Lookup(current).None?;
    LookupFindsBlock(current, Encode(r));
  }

  /** As written, a different marker that this handler wrote itself can never
      be replaced: its record text has no closing brace, decoding it fails,
      and the destructuring throws before any dialog, with nothing written. */
  lemma ReplaceUnreachable(x: string, earlier: Record, r: Record, confirm: bool)
    requires NoDollarIn(r) && !Occurs(Opening, x) && !Occurs(Closing, Encode(earlier))
    requires '}' !in earlier.project && '}' !in earlier.paeProject && '}' !in earlier.prestation && '}' !in earlier.included
    requires Encode(earlier) != Encode(r)
    ensures Submit(Some(x + Block(Encode(earlier))), r, confirm) == Reply(Throws, None)
  {
    LookupFindsBlock(x, Encode(earlier));
  }

  /** The record text closed by `}` decodes back to plain field values. */
  lemma DecodeEncodeClosed(r: Record)
    requires Plain(r)
    ensures Decode(EncodeClosed(r)) == Some(r)
  {
    assert Separable(Fields(r), DecodeLits) by {
      DecodeLitsFacts();
      NotOccursByChar(";projet_pae:", r.project, ';');
      NotOccursByChar(";prestation:", r.paeProject, ';');
      NotOccursByChar(";include:", r.prestation, ';');
      NotOccursByChar("}", r.included, '}');
    }
    assert EncodeClosed(r) == DecodeHead + Interleave(Fields(r), DecodeLits) + "";
    FirstMatchRecover(DecodeHead, Fields(r), DecodeLits, "");
  }

  lemma DecodeLitsFacts()
    ensures |DecodeLits| == 4
    ensures forall k | 0 <= k < 4 :: DecodeLits[k] != [] && DecodeLits[k][0] !in DecodeLits[k][1..]
  {
    assert DecodeLits[0][1..] == "projet_pae:";
    assert DecodeLits[1][1..] == "prestation:";
    assert DecodeLits[2][1..] == "include:";
  }

  /** With the closing brace, a different earlier marker leads to the
      replacement dialog, which names the earlier values; confirming writes
      the body with the earlier record text replaced by the new one. */
  lemma ClosedReplaceReachable(x: string, earlier: Record, r: Record)
    requires NoDollarIn(r) && Plain(earlier) && !Occurs(Opening, x) && !Occurs(Closing, EncodeClosed(earlier))
    requires EncodeClosed(earlier) != EncodeClosed(r)
    ensures var body := x + Block(EncodeClosed(earlier));
      SubmitClosed(Some(body), r, true)
        == Reply(Replaced(earlier), Some(ReplaceFirst(body, EncodeClosed(earlier), EncodeClosed(r))))
      && SubmitClosed(Some(body), r, false) == Reply(Kept(earlier), None)
  {
    LookupFindsBlock(x, EncodeClosed(earlier));
    DecodeEncodeClosed(earlier);
  }
}
