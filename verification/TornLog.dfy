/** What an append that was cut off leaves behind: the log's last line is torn, and what later appends and
    loads make of it; first for a cut between two characters of the text, then for any cut of the bytes. */
module TornLog {
  import opened PyText
  import opened JsonText
  import opened JsonLines
  import opened Utf8
  import JsonScan

  lemma {:induction false} LogConcat(a: seq<Json>, b: seq<Json>)
    ensures Log(a) + Log(b) == Log(a + b)
  {
    hide RecordLine;
    if b == [] {
      assert a + b == a;
    } else {
      var front, last := b[..|b| - 1], b[|b| - 1];
      LogConcat(a, front);
      assert (a + b)[..|a + b| - 1] == a + front;
      ConcatAssociates(Log(a), Log(front), RecordLine(last));
    }
  }

  lemma {:induction false} BadLine(lines: seq<string>, i: nat)
    requires i < |lines| && LoadLine(lines[i]).Err?
    ensures LoadLines(lines).Err?
  {
    hide LoadLine;
    if i > 0 { BadLine(lines[1..], i - 1); }
  }

  /** Stripping a text that starts with no blank cuts only at its end. */
  lemma StripIsPrefix(s: string) returns (n: nat)
    requires s != "" && !IsSpace(s[0])
    ensures 0 < n <= |s| && Strip(s) == s[..n]
  {
    var _, trail := StripSplits(s);
    assert LStrip(s) == s && !Blank(s);
    assert s == Strip(s) + trail;
    n := |Strip(s)|;
  }

  /** A torn object line cannot be read, whatever blanks its end is stripped of. */
  lemma TornLine(record: Json, k: nat)
    requires record.Obj? && IsDict(record) && 0 < k < |Print(record, Spaced)|
    ensures LoadLine(Print(record, Spaced)[..k]).Err?
  {
    hide Print, IsDict, Loads, Strip;
    PrintedObjectEnds(record, Spaced);
    var q := Print(record, Spaced)[..k];
    assert q[0] == Print(record, Spaced)[0];
    var n := StripIsPrefix(q);
    assert q[..n] == Print(record, Spaced)[..n];
    JsonScan.CutIsUnreadable(record, Spaced, n);
  }

  /** A torn line cannot be read with another object behind it either. */
  lemma GluedLine(record: Json, k: nat, next: Json)
    requires record.Obj? && IsDict(record) && 0 < k <= |Print(record, Spaced)| && next.Obj? && IsDict(next)
    ensures LoadLine(Print(record, Spaced)[..k] + Print(next, Spaced)).Err?
  {
    hide Print, IsDict, Loads, Strip;
    PrintedObjectEnds(record, Spaced);
    PrintedObjectEnds(next, Spaced);
    var p, q := Print(record, Spaced), Print(next, Spaced);
    if k == |p| {
      LoadPrinted(record);
      assert p[..k] == p;
      GluedLineIsInvalid(p, next);
    } else {
      var line := p[..k] + q;
      assert line[0] == p[0] && line[|line| - 1] == q[|q| - 1];
      StripPrefixBlank("", line);
      assert "" + line == line;
      JsonScan.GluedCutIsUnreadable(record, k, next, Spaced);
    }
  }

  /** The lines of a log with a torn record at its end. */
  lemma TornLines(records: seq<Json>, torn: string)
    requires forall i :: 0 <= i < |records| ==> records[i].Obj? && IsDict(records[i])
    requires NoBreak(torn)
    ensures LastLine(Log(records) + torn) == torn
    ensures var whole, cut := Lines(Log(records)), Lines(Log(records) + torn);
            cut[..|cut| - 1] == whole[..|whole| - 1]
  {
    hide IsDict, Log, Lines, LoadText;
    LogRoundTrip(records);
    LinesConcat(Log(records), torn);
    LinesOfLine(torn);
    assert "" + torn == torn;
  }

  /** A text whose last line cannot be read, or that becomes unreadable with the next record on the same line,
      stays unreadable under every further append. */
  lemma AppendsDoNotRepair(text: string, record: Json, more: string)
    requires LoadLine(LastLine(text) + Print(record, Spaced)).Err?
    ensures LoadText(text + (RecordLine(record) + more)).Err?
  {
    hide Lines, LoadLine, Print, LoadLines;
    var glued := LastLine(text) + Print(record, Spaced);
    var front := Lines(text)[..|Lines(text)| - 1];
    LinesAfterAppend(text, record);
    LinesConcat(text + RecordLine(record), more);
    ConcatAssociates(text, RecordLine(record), more);
    assert front + [glued, ""] == Lines(text + RecordLine(record));
    var all := Lines(text + RecordLine(record) + more);
    assert all[|front|] == glued;
    BadLine(all, |front|);
  }

  /** A log whose last append was cut after k characters, and any whole appends after it. Nothing was written
      or everything was: all whole records are read. Only the line break is missing: the records are read, but
      not after a further append. Anything in between: the log cannot be read, now or after any append. */
  lemma CutAppend(records: seq<Json>, record: Json, k: nat, more: seq<Json>)
    requires forall i :: 0 <= i < |records| ==> records[i].Obj? && IsDict(records[i])
    requires forall i :: 0 <= i < |more| ==> more[i].Obj? && IsDict(more[i])
    requires record.Obj? && IsDict(record) && k <= |RecordLine(record)|
    ensures var r := LoadText(Log(records) + RecordLine(record)[..k] + Log(more));
            if k == 0 then r == Ok(records + more)
            else if k == |RecordLine(record)| then r == Ok(records + [record] + more)
            else if k == |Print(record, Spaced)| && more == [] then r == Ok(records + [record])
            else r.Err?
  {
    hide IsDict, LoadText, Log, Print;
    var p := Print(record, Spaced);
    if k == 0 {
      assert Log(records) + RecordLine(record)[..0] == Log(records);
      LogConcat(records, more);
      LogRoundTrip(records + more);
    } else if k == |RecordLine(record)| {
      assert RecordLine(record)[..k] == RecordLine(record);
      LogOfOne(record);
      LogConcat(records, [record]);
      LogConcat(records + [record], more);
      LogRoundTrip(records + [record] + more);
    } else {
      assert RecordLine(record)[..k] == p[..k];
      PrintHasNoBreak(record, Spaced);
      PartHasNoBreak(p, k);
      if more == [] {
        EmptyTail(Log(records) + p[..k]);
        CutAtEnd(records, record, k);
      } else {
        CutThenAppends(records, record, k, more);
      }
    }
  }

  lemma LogOfOne(record: Json)
    ensures Log([record]) == RecordLine(record)
  {
    hide RecordLine;
    assert [record][..0] == [];
    assert "" + RecordLine(record) == RecordLine(record);
  }

  lemma EmptyTail(text: string)
    ensures text + Log([]) == text
  {
  }

  lemma PartHasNoBreak(s: string, k: nat)
    requires NoBreak(s) && k <= |s|
    ensures NoBreak(s[..k])
  {
  }

  lemma CutAtEnd(records: seq<Json>, record: Json, k: nat)
    requires forall i :: 0 <= i < |records| ==> records[i].Obj? && IsDict(records[i])
    requires record.Obj? && IsDict(record) && 0 < k <= |Print(record, Spaced)| && NoBreak(Print(record, Spaced)[..k])
    ensures var r := LoadText(Log(records) + Print(record, Spaced)[..k]);
            if k == |Print(record, Spaced)| then r == Ok(records + [record]) else r.Err?
  {
    hide IsDict, Log, Print, Lines, LoadLine, LoadLines;
    var torn := Print(record, Spaced)[..k];
    var text := Log(records);
    TornLines(records, torn);
    LogRoundTrip(records);
    BlankLoads("");
    var front := Lines(text)[..|Lines(text)| - 1];
    assert Lines(text) == front + [""];
    assert Lines(text + torn) == front + [torn];
    LoadSplit(text, "");
    LoadSplit(text, torn);
    assert LoadLines(front) == Ok(records) by { assert LoadLines(front).value + [] == LoadLines(front).value; }
    if k == |Print(record, Spaced)| {
      assert torn == Print(record, Spaced);
      LoadPrinted(record);
    } else {
      TornLine(record, k);
    }
  }

  lemma CutThenAppends(records: seq<Json>, record: Json, k: nat, more: seq<Json>)
    requires forall i :: 0 <= i < |records| ==> records[i].Obj? && IsDict(records[i])
    requires forall i :: 0 <= i < |more| ==> more[i].Obj? && IsDict(more[i])
    requires record.Obj? && IsDict(record) && 0 < k <= |Print(record, Spaced)| && NoBreak(Print(record, Spaced)[..k])
    requires more != []
    ensures LoadText(Log(records) + Print(record, Spaced)[..k] + Log(more)).Err?
  {
    hide IsDict, Log, Print, Lines, LoadLine, LoadText;
    var torn := Print(record, Spaced)[..k];
    TornLines(records, torn);
    GluedLine(record, k, more[0]);
    assert more == [more[0]] + more[1..];
    LogOfOne(more[0]);
    LogConcat([more[0]], more[1..]);
    AppendsDoNotRepair(Log(records) + torn, more[0], Log(more[1..]));
  }

  // ----- a cut after any number of bytes -----

  lemma {:induction false} LogStart(more: seq<Json>)
    requires more != [] && forall i :: 0 <= i < |more| ==> more[i].Obj?
    ensures Log(more) != "" && Log(more)[0] == '{'
  {
    hide Log, RecordLine;
    assert more == [more[0]] + more[1..];
    LogOfOne(more[0]);
    LogConcat([more[0]], more[1..]);
    assert RecordLine(more[0]) != "" && RecordLine(more[0])[0] == '{' by { LineStartsObject(more[0]); }
  }

  lemma LineStartsObject(record: Json)
    requires record.Obj?
    ensures RecordLine(record) != "" && RecordLine(record)[0] == '{'
  {
    PrintedObjectEnds(record, Spaced);
  }

  lemma FirstByte(s: string)
    requires s != "" && s[0] == '{'
    ensures Encode(s) != [] && Encode(s)[0] < 0x80
  {
  }

  /** A log file whose last append was cut inside a character does not decode, whatever is appended to it. */
  lemma CutInsideCharacter(text: string, c: char, m: nat, more: seq<Json>)
    requires 0 < m < |EncodeChar(c)| && forall i :: 0 <= i < |more| ==> more[i].Obj?
    ensures LoadBytes(Encode(text) + (EncodeChar(c)[..m] + Encode(Log(more)))).Err?
  {
    hide Encode, EncodeChar, Decode, Log;
    assert Encode(Log(more)) == [] || Encode(Log(more))[0] < 0x80 by {
      if more == [] {
        assert Encode(Log([])) == [] by { NothingEncoded(); }
      } else {
        LogStart(more);
        FirstByte(Log(more));
      }
    }
    CutCharFails(c, m, Encode(Log(more)));
    DecodeAfterEncoded(text, EncodeChar(c)[..m] + Encode(Log(more)));
  }

  lemma NothingEncoded()
    ensures Encode(Log([])) == []
  {
  }

  lemma LoadEncoded(text: string)
    ensures LoadBytes(Encode(text)) == LoadText(text)
  {
    hide Encode, Decode, LoadText;
    RoundTrip(text);
  }

  /** CutAppend for the bytes of a log file whose last append stopped after any number of bytes. */
  lemma CutAppendBytes(records: seq<Json>, record: Json, k: nat, more: seq<Json>)
    requires forall i :: 0 <= i < |records| ==> records[i].Obj? && IsDict(records[i])
    requires forall i :: 0 <= i < |more| ==> more[i].Obj? && IsDict(more[i])
    requires record.Obj? && IsDict(record) && k <= |Encode(RecordLine(record))|
    ensures var r := LoadBytes(Encode(Log(records)) + (Encode(RecordLine(record))[..k] + Encode(Log(more))));
            if k == 0 then r == Ok(records + more)
            else if k == |Encode(RecordLine(record))| then r == Ok(records + [record] + more)
            else if k == |Encode(Print(record, Spaced))| && more == [] then r == Ok(records + [record])
            else r.Err?
  {
    hide IsDict, LoadText, LoadBytes, Log, Print, Encode, EncodeChar, Decode, RecordLine;
    var line := RecordLine(record);
    var j, m := CutEncoding(line, k);
    LineOfPrint(record);
    PrintedObjectEnds(record, Spaced);
    Boundaries(line, |Print(record, Spaced)|, j, k, m);
    if m == 0 {
      assert Encode(line)[..k] == Encode(line[..j]) by { assert j < |line| ==> EncodeChar(line[j])[..0] == []; }
      EncodeConcat(Log(records), line[..j]);
      EncodeConcat(Log(records) + line[..j], Log(more));
      ConcatAssociates(Encode(Log(records)), Encode(line[..j]), Encode(Log(more)));
      LoadEncoded(Log(records) + line[..j] + Log(more));
      CutAppend(records, record, j, more);
    } else {
      EncodeConcat(Log(records), line[..j]);
      var rest := EncodeChar(line[j])[..m];
      ConcatAssociates(Encode(line[..j]), rest, Encode(Log(more)));
      ConcatAssociates(Encode(Log(records)), Encode(line[..j]), rest + Encode(Log(more)));
      CutInsideCharacter(Log(records) + line[..j], line[j], m, more);
    }
  }

  lemma LineOfPrint(record: Json)
    ensures |RecordLine(record)| == |Print(record, Spaced)| + 1
    ensures RecordLine(record)[..|Print(record, Spaced)|] == Print(record, Spaced)
  {
  }

  /** The numbers of bytes at the ends of a text and of a prefix of it tell those cuts apart from all others. */
  lemma Boundaries(line: string, p: nat, j: nat, k: nat, m: nat)
    requires 0 < p < |line| && j <= |line| && k == |Encode(line[..j])| + m
    requires (j == |line| ==> m == 0) && (j < |line| ==> m < |EncodeChar(line[j])|)
    ensures k == 0 <==> j == 0 && m == 0
    ensures k == |Encode(line)| <==> j == |line|
    ensures k == |Encode(line[..p])| <==> j == p && m == 0
  {
    hide EncodeChar;
    assert line[..|line|] == line && line[..0] == "";
    if j > 0 { PrefixBytes(line, 0, j); }
    if j < |line| {
      NextBytes(line, j);
      if j + 1 < |line| { PrefixBytes(line, j + 1, |line|); }
      if j + 1 < p { PrefixBytes(line, j + 1, p); }
    }
    if p < j { PrefixBytes(line, p, j); }
  }

  lemma NextBytes(line: string, j: nat)
    requires j < |line|
    ensures |Encode(line[..j + 1])| == |Encode(line[..j])| + |EncodeChar(line[j])|
  {
    hide EncodeChar;
    assert line[..j + 1] == line[..j] + [line[j]];
    EncodeConcat(line[..j], [line[j]]);
    assert [line[j]][1..] == "";
  }

  /** Two logs that fail: one cut inside its only record, one that only lost its line break and got an append. */
  lemma CutExamples()
    ensures LoadText("{").Err?
    ensures LoadText("{}") == Ok([Obj([])]) && LoadText("{}" + "{}\n").Err?
  {
    hide LoadText;
    var r := Obj([]);
    assert Print(r, Spaced) == "{}" && RecordLine(r) == "{}\n" by { EmptyObject(); }
    assert Log([]) == "";
    LogOfOne(r);
    CutAppend([], r, 1, []);
    CutAppend([], r, 2, []);
    CutAppend([], r, 2, [r]);
    assert "" + RecordLine(r)[..1] + "" == "{" && "" + RecordLine(r)[..2] + "" == "{}";
    assert "" + RecordLine(r)[..2] + RecordLine(r) == "{}" + "{}\n";
    assert [] + [r] == [r];
  }

  lemma EmptyObject()
    ensures Print(Obj([]), Spaced) == "{}" && RecordLine(Obj([])) == "{}\n"
  {
  }
}
