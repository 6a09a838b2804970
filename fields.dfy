/** The two composite fields of a patent record: the citation table and the
    application timeline. The main path builds them with loops that skip
    empty rows and empty events; the fallback path builds them with list
    comprehensions that keep every row and every event. */
module Fields {
  import opened Strings
  import opened TextNodes

  /** One `div.event` of `div.application-timeline`: the text nodes under its
      `div[date]` and under its `div.flex.title`. */
  datatype Event = Event(dateTexts: seq<string>, titleTexts: seq<string>)

  const CellSeparator: string := " | "
  const LineSeparator: string := "\n"
  const EventSeparator: string := "; "
  const DateTitleSeparator: string := " \U{2014} "

  // ----------------------------------------------------------------- citations

  /** `[t.strip() for t in row if t.strip()]`: the stripped non-blank cell texts
      of one citation row (`span.td ::text`), in document order. */
  function Cells(row: seq<string>): (cols: seq<string>)
    ensures |cols| <= |row|
    ensures forall k :: 0 <= k < |cols| ==> cols[k] != [] && Trimmed(cols[k])
  {
    if row == [] then []
    else (if Strip(row[0]) != [] then [Strip(row[0])] else []) + Cells(row[1..])
  }

  /** `" | ".join(cols)` for one row. */
  function RowLine(row: seq<string>): string {
    Join(CellSeparator, Cells(row))
  }

  /** The main path's `cits` list after the loop over `rows`: one line per row
      that has a non-blank cell. */
  function CitationLines(rows: seq<seq<string>>): seq<string> {
    if rows == [] then []
    else
      var row := rows[|rows| - 1];
      CitationLines(rows[..|rows| - 1]) + (if Cells(row) != [] then [RowLine(row)] else [])
  }

  /** The fallback path's comprehension: one line per row, blank rows included. */
  function AllRowLines(rows: seq<seq<string>>): (lines: seq<string>)
    ensures |lines| == |rows|
    ensures forall i :: 0 <= i < |rows| ==> lines[i] == RowLine(rows[i])
  {
    seq(|rows|, i requires 0 <= i < |rows| => RowLine(rows[i]))
  }

  /** The citations field of the fallback path. */
  function FallbackCitations(rows: seq<seq<string>>): string {
    Join(LineSeparator, AllRowLines(rows))
  }

  /** The loop at the heart of the main path's citation field: `cits` collects
      a line per row with a non-blank cell, and the lines are joined with
      newlines. */
  method BuildCitations(rows: seq<seq<string>>) returns (citations: string)
    ensures citations == Join(LineSeparator, CitationLines(rows))
  {
    var cits: seq<string> := [];
    for i := 0 to |rows|
      invariant cits == CitationLines(rows[..i])
    {
      assert rows[..i + 1][..i] == rows[..i];
      var cols := Cells(rows[i]);
      if cols != [] {
        cits := cits + [Join(CellSeparator, cols)];
      }
    }
    assert rows[..|rows|] == rows;
    citations := Join(LineSeparator, cits);
  }

  /** A row's line is empty exactly when the row has no non-blank cell, and a
      non-empty line neither starts nor ends with whitespace. */
  lemma RowLineShape(row: seq<string>)
    ensures RowLine(row) == [] <==> Cells(row) == []
    ensures Trimmed(RowLine(row))
  {
    var cols := Cells(row);
    if cols != [] {
      JoinStartsWithFirst(CellSeparator, cols);
      assert RowLine(row)[0] == cols[0][0];
      JoinEndsWithLast(CellSeparator, cols);
    }
  }

  /** The join of non-empty parts ends with the last part's last character. */
  lemma {:induction false} JoinEndsWithLast(sep: string, parts: seq<string>)
    requires parts != [] && parts[|parts| - 1] != []
    ensures var j := Join(sep, parts); j != [] && j[|j| - 1] == parts[|parts| - 1][|parts[|parts| - 1]| - 1]
  {
    if |parts| > 1 {
      JoinEndsWithLast(sep, parts[1..]);
    }
  }

  /** The main path keeps one line per row with a non-blank cell: its lines are
      the fallback path's per-row lines with the empty ones removed. No line
      is empty, and none starts or ends with whitespace. */
  lemma {:induction false} CitationLinesDropBlankRows(rows: seq<seq<string>>)
    ensures CitationLines(rows) == Remove(AllRowLines(rows), [])
    ensures forall k :: 0 <= k < |CitationLines(rows)| ==>
      CitationLines(rows)[k] != [] && Trimmed(CitationLines(rows)[k])
  {
    if rows != [] {
      var init := rows[..|rows| - 1];
      var row := rows[|rows| - 1];
      CitationLinesDropBlankRows(init);
      RowLineShape(row);
      assert AllRowLines(rows)[..|rows| - 1] == AllRowLines(init);
    }
  }

  // ------------------------------------------------------------------ timeline

  /** `f"{date} — {tt}"` for one event, with `date` and `tt` its `_txts`. */
  function EventEntry(e: Event): string {
    Txts(e.dateTexts) + DateTitleSeparator + Txts(e.titleTexts)
  }

  /** `date or tt`: the main path writes the event only when one side has text. */
  predicate EventShown(e: Event) {
    Txts(e.dateTexts) != [] || Txts(e.titleTexts) != []
  }

  /** The main path's `timeline` list after the loop over `events`. */
  function TimelineEntries(events: seq<Event>): seq<string> {
    if events == [] then []
    else
      var e := events[|events| - 1];
      TimelineEntries(events[..|events| - 1]) + (if EventShown(e) then [EventEntry(e)] else [])
  }

  /** The fallback path's comprehension: one entry per event, empty events included. */
  function AllEventEntries(events: seq<Event>): (entries: seq<string>)
    ensures |entries| == |events|
    ensures forall i :: 0 <= i < |events| ==> entries[i] == EventEntry(events[i])
  {
    seq(|events|, i requires 0 <= i < |events| => EventEntry(events[i]))
  }

  /** The `date_published` field of the fallback path. */
  function FallbackTimeline(events: seq<Event>): string {
    Join(EventSeparator, AllEventEntries(events))
  }

  /** The loop behind the main path's `date_published` field. */
  method BuildTimeline(events: seq<Event>) returns (datePublished: string)
    ensures datePublished == Join(EventSeparator, TimelineEntries(events))
  {
    var timeline: seq<string> := [];
    for i := 0 to |events|
      invariant timeline == TimelineEntries(events[..i])
    {
      assert events[..i + 1][..i] == events[..i];
      var date := Txts(events[i].dateTexts);
      var tt := Txts(events[i].titleTexts);
      if date != [] || tt != [] {
        timeline := timeline + [date + DateTitleSeparator + tt];
      }
    }
    assert events[..|events|] == events;
    datePublished := Join(EventSeparator, timeline);
  }

  /** An event's entry is the bare separator exactly when both of its sides
      are empty. */
  lemma EventEntryBareIff(e: Event)
    ensures EventShown(e) <==> EventEntry(e) != DateTitleSeparator
  {
    if EventEntry(e) == DateTitleSeparator {
      assert |Txts(e.dateTexts)| + |Txts(e.titleTexts)| == 0;
    }
  }

  /** The main path writes one entry per event with a date or a title, in
      document order: the fallback path's entries without the bare `" — "`
      ones. Every written entry has a non-empty side. */
  lemma {:induction false} TimelineDropsEmptyEvents(events: seq<Event>)
    ensures TimelineEntries(events) == Remove(AllEventEntries(events), DateTitleSeparator)
    ensures forall k :: 0 <= k < |TimelineEntries(events)| ==> TimelineEntries(events)[k] != DateTitleSeparator
  {
    if events != [] {
      var init := events[..|events| - 1];
      TimelineDropsEmptyEvents(init);
      EventEntryBareIff(events[|events| - 1]);
      assert AllEventEntries(events)[..|events| - 1] == AllEventEntries(init);
    }
  }

  /** Both sides of an entry are `_txts` results: each is in normal form, and
      each is empty exactly when all of its text nodes are blank. */
  lemma EventEntrySides(e: Event)
    ensures var d, t := Txts(e.dateTexts), Txts(e.titleTexts);
      Clean(d) && Clean(t)
      && (d == [] <==> forall i :: 0 <= i < |e.dateTexts| ==> Blank(e.dateTexts[i]))
      && (t == [] <==> forall i :: 0 <= i < |e.titleTexts| ==> Blank(e.titleTexts[i]))
  {
    TxtsClean(e.dateTexts);
    TxtsClean(e.titleTexts);
    TxtsEmptyIff(e.dateTexts);
    TxtsEmptyIff(e.titleTexts);
  }
}
