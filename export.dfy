/**
 * The pure pieces of the export path of the development add-in
 * (scripts/TimeReporting_dev.js): the date-range check of the export dialog,
 * the CSV rows built from the calendar events, the `yyyy-mm-dd` to
 * `dd_mm_yyyy` reformatting, the user name taken from the mailbox address,
 * and the download name assembled from them.
 */
module Export {
  import opened Wrappers
  import opened Text

  // ---------------------------------------------------------------------
  // The date-range check

  /** `fromDate > toDate` on the two date-input values refuses the export:
      for two dates as the date inputs give them, exactly when the first
      date lies after the second. */
  predicate Refused(fromDate: string, toDate: string): (b: bool)
    ensures IsoDate(fromDate) && IsoDate(toDate) ==> (b <==> DateKey(toDate) < DateKey(fromDate))
  {
    if IsoDate(fromDate) && IsoDate(toDate) then
      LexOrderIsDateOrder(toDate, fromDate);
      LexLess(toDate, fromDate)
    else LexLess(toDate, fromDate)
  }

  predicate IsDigit(c: char) {
    '0' <= c <= '9'
  }

  predicate AllDigits(s: string) {
    forall i | 0 <= i < |s| :: IsDigit(s[i])
  }

  function Pow10(k: nat): (r: nat)
    ensures r >= 1
  {
    if k == 0 then 1 else 10 * Pow10(k - 1)
  }

  /** The decimal value of a digit string. */
  function Num(s: string): (n: nat)
    requires AllDigits(s)
    ensures n < Pow10(|s|)
  {
    if s == [] then 0
    else
      var d := s[0] as int - '0' as int;
      var rest := Num(s[1..]);
      DigitBound(d, Pow10(|s| - 1), rest);
      d * Pow10(|s| - 1) + rest
  }

  lemma DigitBound(d: int, p: nat, rest: nat)
    requires 0 <= d <= 9 && rest < p
    ensures 0 <= d * p + rest < 10 * p
  {
  }

  /** `<input type="date">` values: `yyyy-mm-dd`. */
  predicate IsoDate(s: string) {
    |s| == 10 && s[4] == '-' && s[7] == '-'
    && AllDigits(s[..4]) && AllDigits(s[5..7]) && AllDigits(s[8..])
  }

  /** The calendar position of an ISO date, year first. */
  function DateKey(s: string): (k: nat)
    requires IsoDate(s)
    ensures k < 10000 * 10000
  {
    Num(s[..4]) * 10000 + Num(s[5..7]) * 100 + Num(s[8..])
  }

  lemma MulStep(a: nat, b: nat, p: nat)
    requires a < b
    ensures a * p + p <= b * p
  {
    assert (b - a) * p >= p by {
      assert b - a >= 1;
    }
  }

  /** On digit strings of one length, string order is numeric order. */
  lemma {:induction false} LexLessIsNumeric(a: string, b: string)
    requires AllDigits(a) && AllDigits(b) && |a| == |b|
    ensures LexLess(a, b) <==> Num(a) < Num(b)
    decreases |a|
  {
    if a != [] {
      var p := Pow10(|a| - 1);
      var da, db := a[0] as int - '0' as int, b[0] as int - '0' as int;
      assert Num(a) == da * p + Num(a[1..]);
      assert Num(b) == db * p + Num(b[1..]);
      if da < db {
        MulStep(da, db, p);
      } else if db < da {
        MulStep(db, da, p);
      } else {
        LexLessIsNumeric(a[1..], b[1..]);
      }
    }
  }

  /** Comparing equal-length heads first, then the rest. */
  lemma {:induction false} LexLessConcat(x1: string, y1: string, x2: string, y2: string)
    requires |x1| == |x2|
    ensures LexLess(x1 + y1, x2 + y2) <==> LexLess(x1, x2) || (x1 == x2 && LexLess(y1, y2))
    decreases |x1|
  {
    if x1 == [] {
      assert x1 + y1 == y1 && x2 + y2 == y2;
    } else {
      assert (x1 + y1)[1..] == x1[1..] + y1;
      assert (x2 + y2)[1..] == x2[1..] + y2;
      LexLessConcat(x1[1..], y1, x2[1..], y2);
      if x1[0] == x2[0] {
        assert x1 == x2 <==> x1[1..] == x2[1..];
      }
    }
  }

  /** String order on two `yyyy-mm-dd` dates is calendar order. */
  lemma LexOrderIsDateOrder(a: string, b: string)
    requires IsoDate(a) && IsoDate(b)
    ensures LexLess(a, b) <==> DateKey(a) < DateKey(b)
  {
    assert a == a[..4] + ("-" + (a[5..7] + ("-" + a[8..])));
    assert b == b[..4] + ("-" + (b[5..7] + ("-" + b[8..])));
    LexLessConcat(a[..4], "-" + (a[5..7] + ("-" + a[8..])), b[..4], "-" + (b[5..7] + ("-" + b[8..])));
    LexLessConcat("-", a[5..7] + ("-" + a[8..]), "-", b[5..7] + ("-" + b[8..]));
    LexLessConcat(a[5..7], "-" + a[8..], b[5..7], "-" + b[8..]);
    LexLessConcat("-", a[8..], "-", b[8..]);
    LexLessIsNumeric(a[..4], b[..4]);
    LexLessIsNumeric(a[5..7], b[5..7]);
    LexLessIsNumeric(a[8..], b[8..]);
    assert LexLess(a[..4], b[..4]) <==> Num(a[..4]) < Num(b[..4]);
    assert a[..4] == b[..4] <==> Num(a[..4]) == Num(b[..4]) by {
      if Num(a[..4]) == Num(b[..4]) {
        LexLessIsNumeric(b[..4], a[..4]);
        DigitsEqual(a[..4], b[..4]);
      }
    }
    assert a[5..7] == b[5..7] <==> Num(a[5..7]) == Num(b[5..7]) by {
      if Num(a[5..7]) == Num(b[5..7]) {
        LexLessIsNumeric(b[5..7], a[5..7]);
        DigitsEqual(a[5..7], b[5..7]);
      }
    }
    assert !LexLess("-", "-") by {
      assert "-"[1..] == [];
    }
    KeyOrder(Num(a[..4]), Num(a[5..7]), Num(a[8..]), Num(b[..4]), Num(b[5..7]), Num(b[8..]));
  }

  /** Equal-length strings neither of which is below the other are equal. */
  lemma {:induction false} DigitsEqual(a: string, b: string)
    requires |a| == |b| && !LexLess(a, b) && !LexLess(b, a)
    ensures a == b
    decreases |a|
  {
    if a != [] {
      DigitsEqual(a[1..], b[1..]);
      assert a == [a[0]] + a[1..] && b == [b[0]] + b[1..];
    }
  }

  /** Year, month and day compared in turn give the order of the keys. */
  lemma KeyOrder(y1: nat, m1: nat, d1: nat, y2: nat, m2: nat, d2: nat)
    requires m1 < 100 && d1 < 100 && m2 < 100 && d2 < 100
    ensures y1 * 10000 + m1 * 100 + d1 < y2 * 10000 + m2 * 100 + d2
      <==> y1 < y2 || (y1 == y2 && (m1 < m2 || (m1 == m2 && d1 < d2)))
  {
    if y1 < y2 {
      MulStep(y1, y2, 10000);
    } else if y2 < y1 {
      MulStep(y2, y1, 10000);
    }
  }

  // ---------------------------------------------------------------------
  // Rows

  /** The fields the export reads from one calendar event; a missing
      location is `None`. */
  datatype Event = Event(start: string, end: string, subject: string, preview: string, location: Option<string>)

  function RowFields(e: Event): (fs: seq<string>)
    ensures |fs| == 5
  {
    [e.start, e.end, e.subject, e.preview, if e.location.Some? then e.location.value else ""]
  }

  /** One CSV line: the five fields joined by `;`. When no field holds `;`
      or a line feed, the line holds no line feed and splits back into
      `Start;End;Subject;BodyPreview;Location`. */
  function Row(e: Event): (row: string)
    ensures FieldsPlain(e) ==> '\n' !in row && Split(row, ';') == RowFields(e)
  {
    if FieldsPlain(e) then
      JoinedFieldsHaveNoLineFeed(e);
      SplitJoin(RowFields(e), ';');
      Join(RowFields(e), ";")
    else Join(RowFields(e), ";")
  }

  /** The events' rows in order. */
  function Rows(events: seq<Event>): (rows: seq<string>)
    ensures |rows| == |events|
    ensures forall k | 0 <= k < |events| :: rows[k] == Row(events[k])
  {
    if events == [] then [] else [Row(events[0])] + Rows(events[1..])
  }

  /** The CSV text: rows joined by line feeds. When no field holds `;` or a
      line feed, it splits back into one line per event, in order, and each
      line into that event's five fields. */
  function Csv(events: seq<Event>): (csv: string)
    ensures |events| >= 1 && (forall k | 0 <= k < |events| :: FieldsPlain(events[k])) ==>
      && |Split(csv, '\n')| == |events|
      && forall k | 0 <= k < |events| ::
           Split(csv, '\n')[k] == Row(events[k]) && Split(Split(csv, '\n')[k], ';') == RowFields(events[k])
  {
    var rows := Rows(events);
    if |events| >= 1 && (forall k | 0 <= k < |events| :: FieldsPlain(events[k])) then
      assert forall k | 0 <= k < |rows| :: '\n' !in rows[k];
      SplitJoin(rows, '\n');
      Join(rows, "\n")
    else Join(rows, "\n")
  }

  predicate FieldsPlain(e: Event) {
    forall k | 0 <= k < 5 :: ';' !in RowFields(e)[k] && '\n' !in RowFields(e)[k]
  }

  lemma JoinedFieldsHaveNoLineFeed(e: Event)
    requires FieldsPlain(e)
    ensures '\n' !in Join(RowFields(e), ";")
  {
    var fs := RowFields(e);
    assert fs[4..] == [fs[4]] && fs[3..][1..] == fs[4..] && fs[2..][1..] == fs[3..] && fs[1..][1..] == fs[2..];
    assert Join(fs[3..], ";") == fs[3] + ";" + fs[4];
    assert Join(fs[2..], ";") == fs[2] + ";" + Join(fs[3..], ";");
    assert Join(fs[1..], ";") == fs[1] + ";" + Join(fs[2..], ";");
    assert Join(fs, ";") == fs[0] + ";" + Join(fs[1..], ";");
  }

  // ---------------------------------------------------------------------
  // Names

  /** `d.split("-").reverse().join("_")`: `yyyy-mm-dd` becomes `dd_mm_yyyy`. */
  function ReformatDate(d: string): (r: string)
    ensures IsoDate(d) ==> r == d[8..] + "_" + d[5..7] + "_" + d[..4]
  {
    if IsoDate(d) then
      IsoParts(d);
      Join(Reverse(Split(d, '-')), "_")
    else Join(Reverse(Split(d, '-')), "_")
  }

  /** More generally, `y-m-d` becomes `d_m_y` for parts without a dash. */
  lemma ReformatSwapsParts(y: string, m: string, d: string)
    requires '-' !in y && '-' !in m && '-' !in d
    ensures ReformatDate(y + "-" + m + "-" + d) == d + "_" + m + "_" + y
  {
    ReverseJoinParts(y, m, d);
  }

  lemma ReverseJoinParts(y: string, m: string, d: string)
    requires '-' !in y && '-' !in m && '-' !in d
    ensures Join(Reverse(Split(y + "-" + m + "-" + d, '-')), "_") == d + "_" + m + "_" + y
  {
    assert Split(y + "-" + m + "-" + d, '-') == [y, m, d] by {
      JoinThree(y, m, d, "-");
      SplitJoin([y, m, d], '-');
    }
    assert Reverse([y, m, d]) == [d, m, y];
    JoinThree(d, m, y, "_");
  }

  lemma JoinThree(a: string, b: string, c: string, sep: string)
    ensures Join([a, b, c], sep) == a + sep + b + sep + c
  {
    assert [a, b, c][1..] == [b, c] && [b, c][1..] == [c];
    assert Join([b, c], sep) == b + sep + c;
  }

  lemma IsoParts(s: string)
    requires IsoDate(s)
    ensures Join(Reverse(Split(s, '-')), "_") == s[8..] + "_" + s[5..7] + "_" + s[..4]
  {
    assert s == s[..4] + "-" + s[5..7] + "-" + s[8..];
    forall i | 0 <= i < 4 ensures s[..4][i] != '-' { assert IsDigit(s[..4][i]); }
    forall i | 0 <= i < 2 ensures s[5..7][i] != '-' { assert IsDigit(s[5..7][i]); }
    forall i | 0 <= i < 2 ensures s[8..][i] != '-' { assert IsDigit(s[8..][i]); }
    ReverseJoinParts(s[..4], s[5..7], s[8..]);
  }

  /** `userEmailAddress.split('@')[0].split('.')` destructured into two
      names; a missing second part is rendered as `undefined`. */
  function UserNames(email: string): (names: (string, string))
    ensures '.' !in names.0 && '@' !in names.0
  {
    var local := Split(email, '@')[0];
    var parts := Split(local, '.');
    assert '@' !in parts[0] by {
      SplitHeadPrefix(local, '.');
      forall i | 0 <= i < |parts[0]| ensures parts[0][i] != '@' {
        assert parts[0][i] == local[i];
      }
    }
    (parts[0], if |parts| >= 2 then parts[1] else "undefined")
  }

  /** The first part of a split is a prefix of the split text. */
  lemma SplitHeadPrefix(s: string, c: char)
    ensures |Split(s, c)[0]| <= |s| && Split(s, c)[0] == s[..|Split(s, c)[0]|]
  {
    match IndexOf(s, [c])
    case None =>
    case Some(j) =>
      assert Split(s, c)[0] == s[..j];
  }

  lemma UserNamesOf(user: string, surname: string, domain: string)
    requires '.' !in user && '@' !in user && '.' !in surname && '@' !in surname
    ensures UserNames(user + "." + surname + "@" + domain) == (user, surname)
  {
    SplitFirst(user + "." + surname, domain, '@');
    SplitFirst(user, surname, '.');
  }

  /** An address without a dot before the `@` has no surname part: the name
      is the whole local part and the surname is the text `undefined`. */
  lemma MissingSurname(user: string, domain: string)
    requires '.' !in user && '@' !in user
    ensures UserNames(user + "@" + domain) == (user, "undefined")
  {
    SplitFirst(user, domain, '@');
    assert !Occurs(['.'], user) by { NotOccursByChar(['.'], user, '.'); }
  }

  // ---------------------------------------------------------------------
  // The export

  datatype ExportResult = Download(name: string, csv: string) | ReferenceError

  /** The download the export produces, reading the two dates under the
      names `startName` and `endName`: of the date values, only the
      parameters `fromDate` and `toDate` are bound there, so any other name
      raises a `ReferenceError`. */
  function ExportWith(email: string, fromDate: string, toDate: string, events: seq<Event>,
                      startName: string, endName: string): (r: ExportResult)
    ensures r.Download? <==> startName in {"fromDate", "toDate"} && endName in {"fromDate", "toDate"}
    ensures r.Download? ==> r.csv == Csv(events)
  {
    var scope := map["fromDate" := fromDate, "toDate" := toDate];
    if startName !in scope || endName !in scope then ReferenceError
    else
      var (user, surname) := UserNames(email);
      Download("TR_" + user + "_" + surname + "_" + ReformatDate(scope[startName]) + "_"
                 + ReformatDate(scope[endName]) + ".csv", Csv(events))
  }

  /** `handleExport` as written: it reads `startDate` and `endDate`, so
      whatever the address, dates and events, it never reaches the download. */
  function HandleExportAsWritten(email: string, fromDate: string, toDate: string, events: seq<Event>): (r: ExportResult)
    ensures r == ReferenceError
  {
    assert "startDate" !in {"fromDate", "toDate"};
    ExportWith(email, fromDate, toDate, events, "startDate", "endDate")
  }

  /** `handleExport` reading its own parameters, as evidently intended: it
      always downloads the events' CSV. */
  function HandleExport(email: string, fromDate: string, toDate: string, events: seq<Event>): (r: ExportResult)
    ensures r.Download? && r.csv == Csv(events)
  {
    ExportWith(email, fromDate, toDate, events, "fromDate", "toDate")
  }

  /** The intended download: `TR_user_surname_dd_mm_yyyy_dd_mm_yyyy.csv`
      holding the events' CSV. */
  lemma ExportNamesFile(user: string, surname: string, domain: string, fromDate: string, toDate: string, events: seq<Event>)
    requires '.' !in user && '@' !in user && '.' !in surname && '@' !in surname
    requires IsoDate(fromDate) && IsoDate(toDate)
    ensures HandleExport(user + "." + surname + "@" + domain, fromDate, toDate, events)
      == Download("TR_" + user + "_" + surname + "_" + fromDate[8..] + "_" + fromDate[5..7] + "_" + fromDate[..4]
                    + "_" + toDate[8..] + "_" + toDate[5..7] + "_" + toDate[..4] + ".csv", Csv(events))
  {
    UserNamesOf(user, surname, domain);
    DownloadName(user + "." + surname + "@" + domain, fromDate, toDate, events);
  }

  lemma DownloadName(email: string, fromDate: string, toDate: string, events: seq<Event>)
    ensures HandleExport(email, fromDate, toDate, events)
      == Download("TR_" + UserNames(email).0 + "_" + UserNames(email).1 + "_" + ReformatDate(fromDate) + "_"
                    + ReformatDate(toDate) + ".csv", Csv(events))
  {
    var scope := map["fromDate" := fromDate, "toDate" := toDate];
    assert scope["fromDate"] == fromDate && scope["toDate"] == toDate;
  }

  datatype Confirmation = DateMessage | Exported(result: ExportResult)

  /** The export dialog's confirm button: a refused range shows the message
      and exports nothing; otherwise the export runs. */
  function Confirm(email: string, fromDate: string, toDate: string, events: seq<Event>): (c: Confirmation)
    ensures c == DateMessage <==> Refused(fromDate, toDate)
    ensures c.Exported? ==> c.result == HandleExportAsWritten(email, fromDate, toDate, events)
  {
    if Refused(fromDate, toDate) then DateMessage
    else Exported(HandleExportAsWritten(email, fromDate, toDate, events))
  }
}
