/**
 * The dashboard's pure helpers: HTML escaping, the clean-up applied to exported cells, the
 * tab-separated export of the visible rows, the date and clock text it shows, the request
 * the ticket form turns into, the form an existing ticket fills in, and the order of the
 * rendered list. Everything that touches the DOM, the clipboard or the network is outside.
 */
module Dashboard {
  import opened Wrappers
  import opened Text
  import opened Calendar
  import opened Sequences
  import opened Models
  import opened Tickets

  // ---------------------------------------------------------------- esc

  predicate IsMarkupChar(c: char) {
    c == '<' || c == '>' || c == '"' || c == '\''
  }

  /** No character that could open a tag or close an attribute value. */
  predicate IsMarkupSafe(s: string) {
    forall k :: 0 <= k < |s| ==> !IsMarkupChar(s[k])
  }

  function EscapeChar(c: char): (e: string)
    ensures IsMarkupSafe(e) && |e| >= 1
  {
    match c
    case '&' => "&amp;"
    case '<' => "&lt;"
    case '>' => "&gt;"
    case '"' => "&quot;"
    case '\'' => "&#39;"
    case _ => [c]
  }

  /** The characters esc replaces. */
  predicate IsEscaped(c: char) {
    c == '&' || IsMarkupChar(c)
  }

  /** Each of & < > " ' replaced by its character reference; text without them is left as
      it is. */
  function EscapeHtml(s: string): (r: string)
    ensures IsMarkupSafe(r) && |r| >= |s|
    ensures (forall k :: 0 <= k < |s| ==> !IsEscaped(s[k])) ==> r == s
  {
    if s == [] then []
    else
      var e, rest := EscapeChar(s[0]), EscapeHtml(s[1..]);
      assert forall k :: |e| <= k < |e + rest| ==> (e + rest)[k] == rest[k - |e|];
      assert s == [s[0]] + s[1..];
      e + rest
  }

  /** Reading the five character references back, left to right. */
  function Unescape(s: string): string {
    if s == [] then []
    else if s[0] != '&' then [s[0]] + Unescape(s[1..])
    else if |s| >= 5 && s[..5] == "&amp;" then ['&'] + Unescape(s[5..])
    else if |s| >= 4 && s[..4] == "&lt;" then ['<'] + Unescape(s[4..])
    else if |s| >= 4 && s[..4] == "&gt;" then ['>'] + Unescape(s[4..])
    else if |s| >= 6 && s[..6] == "&quot;" then ['"'] + Unescape(s[6..])
    else if |s| >= 5 && s[..5] == "&#39;" then ['\''] + Unescape(s[5..])
    else [s[0]] + Unescape(s[1..])
  }

  /** Unescape reads one escaped character back from the front. */
  lemma UnescapeEscapeChar(c: char, rest: string)
    ensures Unescape(EscapeChar(c) + rest) == [c] + Unescape(rest)
  {
    if IsEscaped(c) {
      UnescapeReference(c, rest);
    } else {
      var t := [c] + rest;
      assert t[0] == c && t[1..] == rest;
    }
  }

  /** The reference for one of the five escaped characters is read back as that character. */
  lemma UnescapeReference(c: char, rest: string)
    requires IsEscaped(c)
    ensures Unescape(EscapeChar(c) + rest) == [c] + Unescape(rest)
  {
    var t := EscapeChar(c) + rest;
    assert t[..|EscapeChar(c)|] == EscapeChar(c) && t[|EscapeChar(c)|..] == rest;
    assert t[0] == '&';
    if c == '&' {
      assert t[..5] == "&amp;";
    } else if c == '<' {
      assert t[..4] == "&lt;";
      assert |t| >= 5 ==> t[..5] != "&amp;" by { assert t[1] == 'l'; }
    } else if c == '>' {
      assert t[..4] == "&gt;";
      assert |t| >= 5 ==> t[..5] != "&amp;" by { assert t[1] == 'g'; }
      assert t[..4] != "&lt;" by { assert t[1] == 'g'; }
    } else if c == '"' {
      assert t[..6] == "&quot;";
      assert t[..5] != "&amp;" && t[..4] != "&lt;" && t[..4] != "&gt;" by { assert t[1] == 'q'; }
    } else {
      assert t[..5] == "&#39;";
      assert t[..5] != "&amp;" && t[..4] != "&lt;" && t[..4] != "&gt;" && (|t| >= 6 ==> t[..6] != "&quot;") by { assert t[1] == '#'; }
    }
  }

  /** Unescaping the escaped text gives the text back, whatever text follows it: every
      escaped character, & included, is read back as itself and nothing spills into the rest. */
  lemma {:induction false} UnescapeEscapeHtmlBefore(s: string, rest: string)
    ensures Unescape(EscapeHtml(s) + rest) == s + Unescape(rest)
  {
    if s == [] {
      assert EscapeHtml(s) + rest == rest;
    } else {
      UnescapeEscapeStep(s, rest);
      UnescapeEscapeHtmlBefore(s[1..], rest);
      PrependHead(s, Unescape(rest));
    }
  }

  lemma PrependHead(s: string, u: string)
    requires s != []
    ensures [s[0]] + (s[1..] + u) == s + u
  {
    assert [s[0]] + s[1..] == s;
  }

  /** The first escaped character of a non-empty text reads back ahead of the rest. */
  lemma UnescapeEscapeStep(s: string, rest: string)
    requires s != []
    ensures Unescape(EscapeHtml(s) + rest) == [s[0]] + Unescape(EscapeHtml(s[1..]) + rest)
  {
    var tail := EscapeHtml(s[1..]);
    assert EscapeHtml(s) + rest == EscapeChar(s[0]) + (tail + rest);
    UnescapeEscapeChar(s[0], tail + rest);
  }

  /** Unescaping the escaped text gives the text back. */
  lemma {:induction false} UnescapeEscapeHtml(s: string)
    ensures Unescape(EscapeHtml(s)) == s
  {
    UnescapeEscapeHtmlBefore(s, []);
    assert EscapeHtml(s) + [] == EscapeHtml(s);
  }

  /** esc: null and undefined print as nothing; the result is safe inside markup and
      attribute values and reads back as the original text. */
  function Esc(v: Option<string>): (r: string)
    ensures IsMarkupSafe(r)
    ensures Unescape(r) == (if v.Some? then v.value else "")
    ensures forall rest :: Unescape(r + rest) == (if v.Some? then v.value else "") + Unescape(rest)
  {
    var s := if v.Some? then v.value else "";
    UnescapeEscapeHtml(s);
    assert forall rest :: Unescape(EscapeHtml(s) + rest) == s + Unescape(rest) by {
      forall rest ensures Unescape(EscapeHtml(s) + rest) == s + Unescape(rest) {
        UnescapeEscapeHtmlBefore(s, rest);
      }
    }
    EscapeHtml(s)
  }

  /** An ampersand is always written as its reference: esc("&") is "&amp;". */
  lemma EscAmpersand()
    ensures Esc(Some("&")) == "&amp;"
  {
    assert EscapeHtml("&") == EscapeChar('&') + EscapeHtml([]);
  }

  // ---------------------------------------------------------------- clean

  function BreaksToSpaces(s: string): (r: string)
    ensures |r| == |s|
    ensures forall k :: 0 <= k < |s| ==> r[k] == if s[k] == '\r' || s[k] == '\n' then ' ' else s[k]
  {
    if s == [] then []
    else [if s[0] == '\r' || s[0] == '\n' then ' ' else s[0]] + BreaksToSpaces(s[1..])
  }

  /** clean: a one-line cell. Line breaks become spaces, then the ends are trimmed; the cell
      is empty exactly when the input was blank. Tabs inside the text are kept. */
  function Clean(v: Option<string>): (r: string)
    ensures '\r' !in r && '\n' !in r
    ensures IsTrimmed(EcmaScript, r)
    ensures r == [] <==> AllWhiteSpace(EcmaScript, if v.Some? then v.value else "")
    ensures v.Some? ==> |r| <= |v.value|
    ensures v.Some? ==> exists i :: TrimmedAt(EcmaScript, BreaksToSpaces(v.value), r, i)
  {
    var s := if v.Some? then v.value else "";
    var b := BreaksToSpaces(s);
    assert AllWhiteSpace(EcmaScript, b) <==> AllWhiteSpace(EcmaScript, s) by {
      assert forall k :: 0 <= k < |s| ==> (IsWhiteSpace(EcmaScript, b[k]) <==> IsWhiteSpace(EcmaScript, s[k]));
    }
    var r := Trim(EcmaScript, b);
    assert forall k :: 0 <= k < |r| ==> r[k] != '\r' && r[k] != '\n' by {
      var i :| TrimmedAt(EcmaScript, b, r, i);
      forall k | 0 <= k < |r| ensures r[k] != '\r' && r[k] != '\n' {
        assert r[k] == b[i + k];
      }
    }
    r
  }

  /** Text with no line break and no white space at its ends is already clean. */
  lemma {:induction false} CleanKeepsTidyText(s: string)
    requires '\r' !in s && '\n' !in s && IsTrimmed(EcmaScript, s)
    ensures Clean(Some(s)) == s
  {
    assert BreaksToSpaces(s) == s by {
      forall k | 0 <= k < |s| ensures BreaksToSpaces(s)[k] == s[k] {
        assert s[k] != '\r' && s[k] != '\n';
      }
    }
    assert TrimmedAt(EcmaScript, s, s, 0);
    TrimIsUnique(EcmaScript, s, s, 0);
  }

  /** Cleaning a clean cell changes nothing. */
  lemma {:induction false} CleanIdempotent(v: Option<string>)
    ensures Clean(Some(Clean(v))) == Clean(v)
  {
    CleanKeepsTidyText(Clean(v));
  }

  // ---------------------------------------------------------------- clock text

  /** formatLocalTime: "HH:mm" of the local instant. */
  function FormatLocalTime(t: int): (r: string)
    ensures |r| == 5 && r[2] == ':'
    ensures IsDigits(r[..2]) && DigitsValue(r[..2]) == HourOf(t)
    ensures IsDigits(r[3..]) && DigitsValue(r[3..]) == MinuteOf(t)
    ensures forall k :: 0 <= k < |r| ==> IsDigit(r[k]) || r[k] == ':'
  {
    var hh, mm := PadTwo(HourOf(t)), PadTwo(MinuteOf(t));
    var r := hh + ":" + mm;
    assert r[..2] == hh && r[3..] == mm;
    r
  }

  /** todayLocalYMD: the local date as the dashboard's date picker holds it. The year is
      not padded; month and day are two digits. */
  function TodayLocalYmd(today: Date): (r: string)
    requires IsValidDate(today)
    ensures |r| >= 7 && r[|r| - 6] == '-' && r[|r| - 3] == '-'
    ensures IsDigits(r[..|r| - 6]) && DigitsValue(r[..|r| - 6]) == today.year
    ensures r[0] != '0'
    ensures IsDigits(r[|r| - 5..|r| - 3]) && DigitsValue(r[|r| - 5..|r| - 3]) == today.month
    ensures IsDigits(r[|r| - 2..]) && DigitsValue(r[|r| - 2..]) == today.day
  {
    var y, m, d := NatToDecimal(today.year), PadTwo(today.month), PadTwo(today.day);
    DateFieldSlices(y, m, d);
    y + "-" + m + "-" + d
  }

  /** Where the three fields of year-month-day text sit when month and day are two long. */
  lemma DateFieldSlices(y: string, m: string, d: string)
    requires |y| >= 1 && |m| == 2 && |d| == 2
    ensures var r := y + "-" + m + "-" + d;
      && |r| >= 7 && r[|r| - 6] == '-' && r[|r| - 3] == '-'
      && r[..|r| - 6] == y && r[|r| - 5..|r| - 3] == m && r[|r| - 2..] == d && r[0] == y[0]
  {
    var r := y + "-" + m + "-" + d;
    assert r[..|r| - 6] == y;
    assert r[|r| - 5..|r| - 3] == m;
    assert r[|r| - 2..] == d;
  }

  /** The date the dashboard sends is read back by the controller as that same day. */
  lemma {:induction false} TodayLocalYmdRoundTrip(today: Date)
    requires IsValidDate(today)
    ensures DayStartLocal(TodayLocalYmd(today)) == Success(Midnight(today))
    ensures DayEndLocal(TodayLocalYmd(today)).Success? <==> today != Date(9999, 12, 31)
  {
    TodayLocalYmdParts(today);
  }

  /** The dashboard's date splits at its dashes into the year, month and day it was built from. */
  lemma {:induction false} TodayLocalYmdParts(today: Date)
    requires IsValidDate(today)
    ensures Split(TodayLocalYmd(today), '-') == [NatToDecimal(today.year), PadTwo(today.month), PadTwo(today.day)]
  {
    var y, m, d := NatToDecimal(today.year), PadTwo(today.month), PadTwo(today.day);
    DigitsExclude(y, '-');
    DigitsExclude(m, '-');
    DigitsExclude(d, '-');
    SplitThree(y, m, d, '-');
  }

  // ---------------------------------------------------------------- the export

  const HeaderCells: seq<string> := ["TicketID", "Agent", "What did you do", "Description", "Time"]
  const TsvHeader: string := Join(HeaderCells, "\t")
  const NoTickets: string := "No tickets."

  datatype CopyOutcome = NothingToCopy(status: string) | ToClipboard(text: string)

  /** The agent column: the chip's text, or "Agent" when the chip is missing or empty. */
  function AgentName(chipText: Option<string>): (r: string)
    ensures chipText.None? || chipText.value == "" ==> r == "Agent"
    ensures chipText.Some? && chipText.value != "" ==> r == Clean(chipText)
    ensures '\n' !in r && '\r' !in r
  {
    if chipText.None? || chipText.value == "" then
      var name := "Agent";
      assert !IsWhiteSpace(EcmaScript, name[0]) && !IsWhiteSpace(EcmaScript, name[4]);
      CleanKeepsTidyText(name);
      Clean(Some(name))
    else Clean(chipText)
  }

  /** The five cells of a row: number, agent, action, description, time. */
  function RowCells(t: TicketDto, agentName: string): seq<string> {
    [Clean(Some(t.ticketNumber)), agentName, Clean(t.action), Clean(t.description), FormatLocalTime(t.time)]
  }

  function RowLine(t: TicketDto, agentName: string): string {
    Join(RowCells(t, agentName), "\t")
  }

  function RowLines(rows: seq<TicketDto>, agentName: string): (lines: seq<string>)
    ensures |lines| == |rows|
    ensures forall k :: 0 <= k < |rows| ==> lines[k] == RowLine(rows[k], agentName)
  {
    seq(|rows|, k requires 0 <= k < |rows| => RowLine(rows[k], agentName))
  }

  /** A row line holds no line feed, whatever the ticket's text. */
  lemma {:induction false} RowLineIsOneLine(t: TicketDto, agentName: string)
    requires '\n' !in agentName
    ensures '\n' !in RowLine(t, agentName)
  {
    TimeCellIsPlain(t.time);
    var number, action, description := Clean(Some(t.ticketNumber)), Clean(t.action), Clean(t.description);
    JoinFiveExcludes(number, agentName, action, description, FormatLocalTime(t.time), "\t", '\n');
  }

  /** No row line holds a line feed. */
  lemma RowLinesAreLines(rows: seq<TicketDto>, agentName: string)
    requires '\n' !in agentName
    ensures forall k :: 0 <= k < |rows| ==> '\n' !in RowLines(rows, agentName)[k]
  {
    forall k | 0 <= k < |rows| ensures '\n' !in RowLines(rows, agentName)[k] {
      RowLineIsOneLine(rows[k], agentName);
    }
  }

  /** The time cell is digits and a colon: no tab, no line break. */
  lemma TimeCellIsPlain(time: int)
    ensures '\t' !in FormatLocalTime(time) && '\n' !in FormatLocalTime(time)
  {
    var r := FormatLocalTime(time);
    assert forall k :: 0 <= k < |r| ==> IsDigit(r[k]) || r[k] == ':';
  }

  lemma JoinFiveExcludes(c0: string, c1: string, c2: string, c3: string, c4: string, sep: string, c: char)
    requires c !in sep && c !in c0 && c !in c1 && c !in c2 && c !in c3 && c !in c4
    ensures c !in Join([c0, c1, c2, c3, c4], sep)
  {
    var cells := [c0, c1, c2, c3, c4];
    assert forall k :: 0 <= k < |cells| ==> c !in cells[k];
    JoinExcludes(cells, sep, c);
  }

  lemma HeaderIsOneLine()
    ensures '\n' !in TsvHeader
  {
    assert forall k :: 0 <= k < |HeaderCells| ==> '\n' !in HeaderCells[k] by {
      assert '\n' !in HeaderCells[0] && '\n' !in HeaderCells[1] && '\n' !in HeaderCells[2];
      assert '\n' !in HeaderCells[3] && '\n' !in HeaderCells[4];
    }
    JoinExcludes(HeaderCells, "\t", '\n');
  }

  /** The header line, then the row lines, CR LF between lines and none after the last. */
  function CrLfText(header: string, lines: seq<string>): (text: string)
    requires |lines| >= 1 && '\n' !in header
    requires forall k :: 0 <= k < |lines| ==> '\n' !in lines[k]
    ensures var records := Split(text, '\n');
      && |records| == |lines| + 1
      && records[0] == header + "\r"
      && (forall k :: 0 <= k < |lines| - 1 ==> records[k + 1] == lines[k] + "\r")
      && records[|lines|] == lines[|lines| - 1]
  {
    SplitCrLfLines(header, lines);
    header + "\r\n" + Join(lines, "\r\n")
  }

  /** copyVisibleTickets: nothing when no row is shown; otherwise the header and one line per
      row, in the shown order. Split on line feeds, the text gives back exactly those
      records, each but the last ending in CR. */
  function CopyVisibleTickets(rows: seq<TicketDto>, chipText: Option<string>): (r: CopyOutcome)
    ensures r.NothingToCopy? <==> rows == []
    ensures r.NothingToCopy? ==> r.status == NoTickets
    ensures r.ToClipboard? ==>
      var records := Split(r.text, '\n');
      && |records| == |rows| + 1
      && records[0] == TsvHeader + "\r"
      && (forall k :: 0 <= k < |rows| - 1 ==> records[k + 1] == RowLine(rows[k], AgentName(chipText)) + "\r")
      && records[|rows|] == RowLine(rows[|rows| - 1], AgentName(chipText))
  {
    if rows == [] then NothingToCopy(NoTickets)
    else
      var agentName := AgentName(chipText);
      RowLinesAreLines(rows, agentName);
      HeaderIsOneLine();
      ToClipboard(CrLfText(TsvHeader, RowLines(rows, agentName)))
  }

  /** Without tabs in its text a row line splits back into its five cells. */
  lemma {:induction false} RowColumns(t: TicketDto, agentName: string)
    requires forall k :: 0 <= k < 4 ==> '\t' !in RowCells(t, agentName)[k]
    ensures Split(RowLine(t, agentName), '\t') == RowCells(t, agentName)
  {
    var cells := RowCells(t, agentName);
    TimeCellIsPlain(t.time);
    assert forall k :: 0 <= k < |cells| ==> '\t' !in cells[k] by {
      assert forall k :: 0 <= k < 4 ==> '\t' !in cells[k];
      assert '\t' !in cells[4];
    }
    SplitJoin(cells, '\t');
  }

  /** Clean keeps a tab inside a description, so that row gets a sixth column and its time
      moves out of the Time column. */
  lemma {:induction false} TabInDescriptionShiftsColumns(t: TicketDto, agentName: string, d1: string, d2: string)
    requires Clean(t.description) == d1 + "\t" + d2
    requires '\t' !in d1 && '\t' !in d2
    requires '\t' !in Clean(Some(t.ticketNumber)) && '\t' !in agentName && '\t' !in Clean(t.action)
    ensures |Split(RowLine(t, agentName), '\t')| == 6
    ensures Split(RowLine(t, agentName), '\t')[4] == d2
  {
    TimeCellIsPlain(t.time);
    SplitFourthCell(Clean(Some(t.ticketNumber)), agentName, Clean(t.action), d1, d2, FormatLocalTime(t.time));
  }

  lemma SplitFourthCell(c0: string, c1: string, c2: string, d1: string, d2: string, c4: string)
    requires '\t' !in c0 && '\t' !in c1 && '\t' !in c2 && '\t' !in d1 && '\t' !in d2 && '\t' !in c4
    ensures var split := Split(Join([c0, c1, c2, d1 + "\t" + d2, c4], "\t"), '\t');
      |split| == 6 && split[4] == d2
  {
    var cells := [c0, c1, c2, d1 + "\t" + d2, c4];
    assert forall k :: 0 <= k < |cells| && k != 3 ==> '\t' !in cells[k];
    SplitCellWithSeparator(cells, 3, d1, d2, '\t');
    var split := cells[..3] + [d1, d2] + cells[4..];
    assert |split| == 6 && split[4] == d2;
  }

  // ---------------------------------------------------------------- the ticket form

  const OtherChoice: string := "__other"
  const FieldsRequired: string := "Ticket Number and What did you do are required."

  /** The modal's fields: number, the action select, the free-text action behind "Other",
      the description, and the "update time" checkbox. */
  datatype TicketForm = TicketForm(
    ticketNumber: string, actionChoice: string, actionOther: string, description: string, bumpTime: bool)

  /** What submitting the form does: a status message and no request, a POST, or a PUT. The
      PUT body also carries updateTimeNow, which UpdateTicketDto has no field for. */
  datatype SubmitOutcome =
    | Rejected(status: string)
    | Post(create: CreateTicketDto)
    | Put(id: int, update: UpdateTicketDto, updateTimeNow: bool)

  /** The action text the form holds: the free text when "Other" is chosen, else the choice. */
  function ChosenAction(form: TicketForm): string {
    if form.actionChoice == OtherChoice then form.actionOther else form.actionChoice
  }

  /** onSubmit: trim the fields, require a number and an action, then create (no ticket being
      edited) or edit the ticket being edited. */
  function OnSubmit(form: TicketForm, editingId: Option<int>, userId: int): (r: SubmitOutcome)
    ensures r.Rejected? <==>
      Trim(EcmaScript, form.ticketNumber) == [] || Trim(EcmaScript, ChosenAction(form)) == []
    ensures r.Rejected? ==> r.status == FieldsRequired
    ensures r.Post? <==> !r.Rejected? && editingId.None?
    ensures r.Put? <==> !r.Rejected? && editingId.Some?
    ensures r.Post? ==> r.create == CreateTicketDto(
      Some(Trim(EcmaScript, form.ticketNumber)), userId,
      Some(Trim(EcmaScript, ChosenAction(form))), Some(Trim(EcmaScript, form.description)))
    ensures r.Put? ==> r.id == editingId.value && r.updateTimeNow == form.bumpTime && r.update == UpdateTicketDto(
      Some(Trim(EcmaScript, form.ticketNumber)),
      Some(Trim(EcmaScript, ChosenAction(form))), Some(Trim(EcmaScript, form.description)))
  {
    var ticketNumber := Trim(EcmaScript, form.ticketNumber);
    var action := Trim(EcmaScript, ChosenAction(form));
    var description := Trim(EcmaScript, form.description);
    if ticketNumber == [] || action == [] then Rejected(FieldsRequired)
    else if editingId.None? then Post(CreateTicketDto(Some(ticketNumber), userId, Some(action), Some(description)))
    else Put(editingId.value, UpdateTicketDto(Some(ticketNumber), Some(action), Some(description)), form.bumpTime)
  }

  /** A number the form accepts passes the controller's own check unless it holds U+0085,
      which .NET counts as white space and ECMAScript does not. */
  lemma {:induction false} SubmittedNumberAccepted(form: TicketForm, editingId: Option<int>, userId: int)
    requires !OnSubmit(form, editingId, userId).Rejected?
    requires '\U{85}' !in form.ticketNumber
    ensures !IsNullOrWhiteSpace(Some(Trim(EcmaScript, form.ticketNumber)))
  {
    var n := Trim(EcmaScript, form.ticketNumber);
    var i :| TrimmedAt(EcmaScript, form.ticketNumber, n, i);
    assert n[0] == form.ticketNumber[i];
    assert !IsWhiteSpace(DotNet, n[0]);
  }

  /** The same number with only U+0085 in it: the form posts it and the controller finds it
      blank, so the request is refused with 400. */
  lemma NextLineNumberRejectedByController(userId: int)
    ensures var form := TicketForm("\U{85}", "Called", "", "", true);
      && OnSubmit(form, None, userId).Post?
      && IsNullOrWhiteSpace(OnSubmit(form, None, userId).create.ticketNumber)
  {
    var form := TicketForm("\U{85}", "Called", "", "", true);
    assert !IsWhiteSpace(EcmaScript, form.ticketNumber[0]);
    assert !IsWhiteSpace(EcmaScript, form.actionChoice[0]);
    var n := Trim(EcmaScript, form.ticketNumber);
    var i :| TrimmedAt(EcmaScript, form.ticketNumber, n, i);
    assert n != [];
    assert forall k :: 0 <= k < |n| ==> n[k] == '\U{85}';
  }

  /** openModalForEdit: fill the form from a ticket. An action that is one of the select's
      options is selected; any other action, or none, goes to the "Other" text box. The
      "update time" box starts unchecked. */
  function OpenModalForEdit(t: TicketDto, options: seq<string>): (f: TicketForm)
    ensures f.ticketNumber == t.ticketNumber && !f.bumpTime
    ensures f.description == (if t.description.Some? then t.description.value else "")
    ensures t.action.Some? && t.action.value in options ==> f.actionChoice == t.action.value && f.actionOther == ""
    ensures !(t.action.Some? && t.action.value in options) ==> f.actionChoice == OtherChoice
    ensures ChosenAction(f) == (if t.action.Some? && !(t.action.value == OtherChoice && OtherChoice in options)
                                then t.action.value else "")
  {
    var description := if t.description.Some? then t.description.value else "";
    if t.action.Some? && t.action.value in options then
      TicketForm(t.ticketNumber, t.action.value, "", description, false)
    else
      TicketForm(t.ticketNumber, OtherChoice, if t.action.Some? then t.action.value else "", description, false)
  }

  /** Opening a ticket and saving it untouched sends its own number, action and description
      back, trimmed, and does not ask for a new time; a missing description is sent as "". */
  lemma {:induction false} ResubmitUnchanged(t: TicketDto, options: seq<string>, userId: int)
    requires t.action.Some? && t.action.value != OtherChoice
    requires Trim(EcmaScript, t.ticketNumber) != [] && Trim(EcmaScript, t.action.value) != []
    ensures OnSubmit(OpenModalForEdit(t, options), Some(t.id), userId) == Put(t.id, UpdateTicketDto(
      Some(Trim(EcmaScript, t.ticketNumber)), Some(Trim(EcmaScript, t.action.value)),
      Some(Trim(EcmaScript, if t.description.Some? then t.description.value else ""))), false)
  {
    var f := OpenModalForEdit(t, options);
    assert ChosenAction(f) == t.action.value;
  }

  // ---------------------------------------------------------------- the rendered list

  function DtoTime(d: TicketDto): int { d.time }

  /** renderList's order: newest first, ties in the order received. */
  function RenderOrder(items: seq<TicketDto>): (r: seq<TicketDto>)
    ensures multiset(r) == multiset(items)
    ensures forall i, j :: 0 <= i < j < |r| ==> r[i].time >= r[j].time
    ensures forall k :: StampedAt(r, DtoTime, k) == StampedAt(items, DtoTime, k)
  {
    var r := NewestFirst(items, DtoTime);
    assert forall i, j :: 0 <= i < j < |r| ==> DtoTime(r[i]) >= DtoTime(r[j]);
    r
  }

  /** The rows the controller returns for a day are already newest first, so the dashboard
      shows them in the order received. */
  lemma {:induction false} RenderKeepsListingOrder(tickets: seq<Ticket>, agentId: int, start: int)
    ensures RenderOrder(DayRows(tickets, agentId, start)) == DayRows(tickets, agentId, start)
  {
    var items := DayRows(tickets, agentId, start);
    assert IsNewestFirst(items, DtoTime) by {
      assert forall i, j :: 0 <= i < j < |items| ==> items[i].time >= items[j].time;
    }
    NewestFirstKeepsSorted(items, DtoTime);
  }

  /** The date the dashboard fills in is never blank. */
  lemma TodayIsNotBlank(today: Date)
    requires IsValidDate(today)
    ensures !IsNullOrWhiteSpace(Some(TodayLocalYmd(today)))
  {
    var ymd := TodayLocalYmd(today);
    assert ymd[0] == NatToDecimal(today.year)[0];
    assert IsDigit(ymd[0]);
  }

  /** After a create the dashboard switches to today's date: a ticket stamped today by an
      agent with a valid id is in that day's listing. */
  lemma {:induction false} CreatedTicketShownToday(c: TicketsController, t: Ticket, today: Date)
    requires IsValidDate(today) && today != Date(9999, 12, 31)
    requires t in c.tickets && t.agent.Some? && t.agent.value.id > 0
    requires Midnight(today) <= t.time < Midnight(today) + SecondsPerDay
    ensures var r := c.Mine(t.agent.value.id, Some(TodayLocalYmd(today)));
      r.Ok? && ToDto(t) in r.value
  {
    TodayLocalYmdRoundTrip(today);
    TodayIsNotBlank(today);
    DayRowsShowTicket(c.tickets, t, Midnight(today));
  }
}
