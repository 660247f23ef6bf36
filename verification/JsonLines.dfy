/** JSON-lines logs: load_jsonl_objects and the append_*_record functions, on the text of the file. */
module JsonLines {
  import opened PyText
  import opened JsonText
  import Utf8
  import JsonRoundTrip
  import JsonExtension

  predicate IsBreak(c: char) { c == '\n' || c == '\r' }

  predicate NoBreak(s: string) { forall i :: 0 <= i < |s| ==> !IsBreak(s[i]) }

  /** The lines of a text-mode file, without their line breaks; the last one is what follows the last
      break. A \r\n pair only adds an empty line here, which the loader skips. */
  function Lines(text: string): (r: seq<string>)
    ensures |r| > 0
  {
    if text == "" then [""]
    else
      var rest := Lines(text[1..]);
      if IsBreak(text[0]) then [""] + rest else [[text[0]] + rest[0]] + rest[1..]
  }

  function LastLine(text: string): string { Lines(text)[|Lines(text)| - 1] }

  /** One line: None when it is blank, an error when it is not a JSON object. */
  function LoadLine(line: string): Result<Option<Json>> {
    var s := Strip(line);
    if s == "" then Ok(None)
    else match Loads(s)
      case None => Err("invalid JSON")
      case Some(v) => if v.Obj? then Ok(Some(v)) else Err("must contain a JSON object")
  }

  function LoadLines(lines: seq<string>): Result<seq<Json>> {
    if lines == [] then Ok([])
    else match LoadLine(lines[0])
      case Err(e) => Err(e)
      case Ok(o) =>
        match LoadLines(lines[1..])
        case Err(e) => Err(e)
        case Ok(rs) => Ok(if o.Some? then [o.value] + rs else rs)
  }

  function LoadText(text: string): Result<seq<Json>> { LoadLines(Lines(text)) }

  /** The bytes of a file opened as UTF-8. */
  function LoadBytes(bytes: Utf8.Bytes): Result<seq<Json>> {
    match Utf8.Decode(bytes)
    case None => Err("not UTF-8")
    case Some(text) => LoadText(text)
  }

  /** load_jsonl_objects on an open file: one pass over the lines, appending each record. */
  method LoadJsonlObjects(text: string) returns (r: Result<seq<Json>>)
    ensures r.Ok? <==> LoadText(text).Ok?
    ensures r.Ok? ==> r == LoadText(text)
  {
    var lines := Lines(text);
    var records: seq<Json> := [];
    for i := 0 to |lines|
      invariant LoadLines(lines[..i]) == Ok(records)
    {
      assert lines[..i + 1] == lines[..i] + [lines[i]];
      LoadLinesConcat(lines[..i], [lines[i]]);
      LoadSingle(lines[i]);
      LoadLinesConcat(lines[..i + 1], lines[i + 1..]);
      assert lines[..i + 1] + lines[i + 1..] == lines;
      var line := Strip(lines[i]);
      if line != "" {
        var data := Loads(line);
        if data.None? {
          return Err("invalid JSON");
        }
        if !data.value.Obj? {
          return Err("must contain a JSON object");
        }
        records := records + [data.value];
      } else {
        assert records + [] == records;
      }
    }
    assert lines[..|lines|] == lines;
    r := Ok(records);
  }

  /** The line append_index_record and append_anchor_record write. */
  function RecordLine(record: Json): string { Print(record, Spaced) + "\n" }

  /** A log file that received the records one by one. */
  function Log(records: seq<Json>): string {
    if records == [] then ""
    else Log(records[..|records| - 1]) + RecordLine(records[|records| - 1])
  }

  // ----- lines of concatenated texts -----

  /** The lines of a joined text: the last line of the left part and the first of the right become one. */
  function Glue(a: seq<string>, b: seq<string>): seq<string>
    requires |a| > 0 && |b| > 0
  {
    a[..|a| - 1] + [a[|a| - 1] + b[0]] + b[1..]
  }

  lemma GlueStep(c: char, a: seq<string>, b: seq<string>)
    requires |a| > 0 && |b| > 0
    ensures Glue([""] + a, b) == [""] + Glue(a, b)
    ensures Glue([[c] + a[0]] + a[1..], b) == [[c] + Glue(a, b)[0]] + Glue(a, b)[1..]
  {
    if |a| == 1 {
      assert [c] + (a[0] + b[0]) == ([c] + a[0]) + b[0];
    }
  }

  lemma {:induction false} LinesConcat(a: string, b: string)
    ensures Lines(a + b) == Glue(Lines(a), Lines(b))
  {
    if a == "" {
      assert a + b == b;
      assert "" + Lines(b)[0] == Lines(b)[0];
      assert Glue([""], Lines(b)) == Lines(b);
    } else {
      LinesConcat(a[1..], b);
      assert (a + b)[1..] == a[1..] + b && (a + b)[0] == a[0];
      GlueStep(a[0], Lines(a[1..]), Lines(b));
      hide Glue;
    }
  }

  lemma {:induction false} LinesOfLine(s: string)
    requires NoBreak(s)
    ensures Lines(s) == [s] && Lines(s + "\n") == [s, ""]
  {
    if s == "" {
      assert s + "\n" == "\n";
      assert "\n"[1..] == "";
    } else {
      LinesOfLine(s[1..]);
      assert (s + "\n")[1..] == s[1..] + "\n";
      assert [s[0]] + s[1..] == s;
    }
  }

  lemma LoadSingle(line: string)
    ensures LoadLines([line]) ==
            match LoadLine(line)
            case Err(e) => Err(e)
            case Ok(o) => Ok(if o.Some? then [o.value] else [])
  {
    hide LoadLine;
    assert [line][1..] == [];
    if LoadLine(line).Ok? && LoadLine(line).value.Some? {
      assert [LoadLine(line).value.value] + [] == [LoadLine(line).value.value];
    }
  }

  lemma {:induction false} LoadLinesConcat(a: seq<string>, b: seq<string>)
    ensures LoadLines(a + b).Ok? <==> LoadLines(a).Ok? && LoadLines(b).Ok?
    ensures LoadLines(a + b).Ok? ==> LoadLines(a + b).value == LoadLines(a).value + LoadLines(b).value
  {
    hide LoadLine;
    if a == [] {
      assert a + b == b;
    } else {
      LoadLinesConcat(a[1..], b);
      assert (a + b)[1..] == a[1..] + b && (a + b)[0] == a[0];
    }
  }

  // ----- printed records -----

  lemma {:induction false} EscapeHasNoBreak(s: string)
    ensures NoBreak(Escape(s))
  {
    if s != "" {
      EscapeHasNoBreak(s[1..]);
      assert NoBreak(EscapeChar(s[0]));
    }
  }

  lemma QuoteHasNoBreak(s: string)
    ensures NoBreak(Quote(s))
  {
    EscapeHasNoBreak(s);
  }

  /** No printed value holds a raw line break. */
  lemma {:induction false} PrintHasNoBreak(v: Json, st: Style)
    ensures NoBreak(Print(v, st))
    decreases v, 0
  {
    hide Quote;
    match v
    case Str(s) => QuoteHasNoBreak(s);
    case Arr(items) => ItemsHaveNoBreak(items, st);
    case Obj(ms) => MembersHaveNoBreak(ms, st);
    case _ =>
  }

  lemma {:induction false} ItemsHaveNoBreak(items: seq<Json>, st: Style)
    ensures NoBreak(PrintItems(items, st))
    decreases items, 1
  {
    hide Print;
    if items != [] {
      PrintHasNoBreak(items[0], st);
      ItemsHaveNoBreak(items[1..], st);
    }
  }

  lemma {:induction false} MembersHaveNoBreak(ms: seq<Member>, st: Style)
    ensures NoBreak(PrintMembers(ms, st))
    decreases ms, 1
  {
    hide Print, Quote;
    if ms != [] {
      QuoteHasNoBreak(ms[0].key);
      PrintHasNoBreak(ms[0].value, st);
      MembersHaveNoBreak(ms[1..], st);
    }
  }

  lemma PrintedObjectEnds(v: Json, st: Style)
    requires v.Obj?
    ensures var p := Print(v, st); p != "" && p[0] == '{' && p[|p| - 1] == '}'
    ensures Strip(Print(v, st)) == Print(v, st)
  {
    var p := Print(v, st);
    StripTight("", p, "");
    assert "" + p + "" == p;
  }

  lemma LoadPrinted(record: Json)
    requires record.Obj? && IsDict(record)
    ensures LoadLine(Print(record, Spaced)) == Ok(Some(record))
  {
    hide Print, IsDict, Loads;
    PrintedObjectEnds(record, Spaced);
    JsonRoundTrip.RoundTrip(record, Spaced);
  }

  /** The lines of a log after one more append. */
  lemma LinesAfterAppend(text: string, record: Json)
    ensures Lines(text + RecordLine(record)) ==
            Lines(text)[..|Lines(text)| - 1] + [LastLine(text) + Print(record, Spaced), ""]
  {
    hide Print;
    var p := Print(record, Spaced);
    PrintHasNoBreak(record, Spaced);
    LinesOfLine(p);
    LinesConcat(text, p + "\n");
    assert [LastLine(text) + p] + [p, ""][1..] == [LastLine(text) + p, ""];
  }

  /** A log text reads as its whole lines followed by its last line. */
  lemma LoadSplit(text: string, last: string)
    ensures var front := Lines(text)[..|Lines(text)| - 1];
            && (LoadLines(front + [last]).Ok? <==> LoadLines(front).Ok? && LoadLine(last).Ok?)
            && (LoadLines(front + [last]).Ok? ==>
                  LoadLines(front + [last]).value ==
                  LoadLines(front).value + (if LoadLine(last).value.Some? then [LoadLine(last).value.value] else []))
  {
    hide LoadLine, Lines;
    LoadLinesConcat(Lines(text)[..|Lines(text)| - 1], [last]);
    LoadSingle(last);
  }

  lemma LoadAfterAppend(text: string, record: Json)
    requires LoadText(text).Ok?
    ensures var line := LoadLine(LastLine(text) + Print(record, Spaced));
            var whole := LoadLines(Lines(text)[..|Lines(text)| - 1]);
            && whole.Ok?
            && (LoadText(text + RecordLine(record)).Ok? <==> line.Ok?)
            && (line.Ok? ==> LoadText(text + RecordLine(record)).value ==
                             whole.value + (if line.value.Some? then [line.value.value] else []))
            && LoadLine(LastLine(text)).Ok?
            && LoadText(text).value ==
               var last := LoadLine(LastLine(text)).value;
               whole.value + (if last.Some? then [last.value] else [])
  {
    hide Print, LoadLine, Lines, Loads;
    var front := Lines(text)[..|Lines(text)| - 1];
    var glued := LastLine(text) + Print(record, Spaced);
    LinesAfterAppend(text, record);
    assert front + [glued, ""] == front + [glued] + [""];
    LoadSplit(text, glued);
    LoadLinesConcat(front + [glued], [""]);
    LoadSingle("");
    BlankLoads("");
    assert front + [LastLine(text)] == Lines(text);
    LoadSplit(text, LastLine(text));
  }

  lemma BlankLoads(line: string)
    ensures Blank(line) <==> LoadLine(line) == Ok(None)
  {
    hide Loads;
    var _, _ := StripSplits(line);
  }

  lemma StripPrefixBlank(lead: string, p: string)
    requires Blank(lead) && p != "" && !IsSpace(p[0]) && !IsSpace(p[|p| - 1])
    ensures Strip(lead + p) == p
  {
    StripTight(lead, p, "");
    assert lead + p + "" == lead + p;
  }

  /** A record appended after a line break, or after blanks, is read back last. */
  lemma AppendThenLoad(text: string, record: Json)
    requires record.Obj? && IsDict(record)
    requires LoadText(text).Ok? && Blank(LastLine(text))
    ensures LoadText(text + RecordLine(record)) == Ok(LoadText(text).value + [record])
    ensures LastLine(text + RecordLine(record)) == ""
  {
    hide Print, Lines, Loads, IsDict, LoadLines;
    var p := Print(record, Spaced);
    LinesAfterAppend(text, record);
    LoadAfterAppend(text, record);
    PrintedObjectEnds(record, Spaced);
    StripPrefixBlank(LastLine(text), p);
    LoadPrinted(record);
    BlankLoads(LastLine(text));
    assert LoadLine(LastLine(text) + p) == Ok(Some(record));
    var whole := LoadLines(Lines(text)[..|Lines(text)| - 1]).value;
    assert LoadText(text).value == whole + [] == whole;
    assert LoadText(text + RecordLine(record)).Ok?;
    assert LoadText(text + RecordLine(record)).value == whole + [record];
  }

  lemma EmptyLog()
    ensures LoadText("") == Ok([]) && LastLine("") == ""
  {
    LoadSingle("");
    BlankLoads("");
  }

  /** Appending any records one by one and then loading returns exactly those records, in order. */
  lemma {:induction false} LogRoundTrip(records: seq<Json>)
    requires forall i :: 0 <= i < |records| ==> records[i].Obj? && IsDict(records[i])
    ensures LoadText(Log(records)) == Ok(records)
    ensures LastLine(Log(records)) == ""
  {
    hide IsDict, RecordLine, LoadText, LastLine;
    if records == [] {
      EmptyLog();
    } else {
      var front, last := records[..|records| - 1], records[|records| - 1];
      LogRoundTrip(front);
      AppendThenLoad(Log(front), last);
      assert front + [last] == records;
    }
  }

  // ----- a torn last line -----

  lemma {:induction false} SkipWsKeepsText(s: string, i: nat)
    requires i < |s| && !IsWs(s[i])
    ensures SkipWs(s) != ""
  {
    if IsWs(s[0]) { SkipWsKeepsText(s[1..], i - 1); }
  }

  /** A line that already holds a whole object cannot be read once another object follows on it. */
  lemma GluedLineIsInvalid(line: string, record: Json)
    requires record.Obj? && LoadLine(line).Ok? && LoadLine(line).value.Some?
    ensures LoadLine(line + Print(record, Spaced)).Err?
  {
    hide Print, ParseValue;
    var p := Print(record, Spaced);
    PrintedObjectEnds(record, Spaced);
    var lead, trail := StripSplits(line);
    var s := Strip(line);
    var x := trail + p;
    LineStart(s);
    assert !IsSpace(s[0]) && SkipWs(s) == s;
    assert line + p == lead + (s + x);
    assert (s + x)[0] == s[0] && (s + x)[|s + x| - 1] == '}';
    StripPrefixBlank(lead, s + x);
    var (v, rest) := ParseValue(s).value;
    JsonExtension.ValueExtends(s, x);
    assert SkipWs(s + x) == s + x;
    SkipWsKeepsText(rest + x, |rest + x| - 1);
  }

  lemma LineStart(s: string)
    requires s != "" && !IsSpace(s[0])
    ensures SkipWs(s) == s && !IsWs(s[0])
  {
  }

  /** On a readable log, an append is read back as one more record exactly when the log's last line
      is blank; otherwise the log can no longer be read at all. */
  lemma AppendIsSafeExactlyOnABlankLastLine(text: string, record: Json)
    requires record.Obj? && IsDict(record) && LoadText(text).Ok?
    ensures Blank(LastLine(text)) <==>
            LoadText(text + RecordLine(record)) == Ok(LoadText(text).value + [record])
    ensures !Blank(LastLine(text)) ==> LoadText(text + RecordLine(record)).Err?
  {
    hide Print, Lines, Loads, IsDict, LoadLines;
    LoadAfterAppend(text, record);
    BlankLoads(LastLine(text));
    if Blank(LastLine(text)) {
      AppendThenLoad(text, record);
    } else {
      GluedLineIsInvalid(LastLine(text), record);
    }
  }
}
