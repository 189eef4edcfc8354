/** Cutting a streamed response body into lines while its chunks arrive, to report reasoning
    deltas before the body is complete. */
module SseFraming {
  import opened Wrappers
  import opened Json
  import opened Texts

  function Last(fields: seq<string>): string
    requires fields != []
  {
    fields[|fields| - 1]
  }

  function AllButLast(fields: seq<string>): seq<string>
    requires fields != []
  {
    fields[..|fields| - 1]
  }

  /** The fields of a text with `c` put before it. */
  function Prepend(c: char, fields: seq<string>): (r: seq<string>)
    requires fields != []
    ensures r != []
  {
    if c == '\n' then [""] + fields else [[c] + fields[0]] + fields[1..]
  }

  /** `s.split("\n")` */
  function Split(s: string): (fields: seq<string>)
    ensures fields != []
  {
    if s == "" then [""] else Prepend(s[0], Split(s[1..]))
  }

  function Unsplit(fields: seq<string>): string
    requires fields != []
  {
    if |fields| == 1 then fields[0] else fields[0] + "\n" + Unsplit(fields[1..])
  }

  predicate Lines(fields: seq<string>) {
    forall i :: 0 <= i < |fields| ==> '\n' !in fields[i]
  }

  // ----- The fields of a text are the one way to write it as newline-free lines -----

  lemma PrependUnsplit(c: char, fields: seq<string>)
    requires fields != [] && Lines(fields)
    ensures Lines(Prepend(c, fields)) && Unsplit(Prepend(c, fields)) == [c] + Unsplit(fields)
  {
    var r := Prepend(c, fields);
    if c == '\n' {
      assert r[1..] == fields;
      assert Unsplit(r) == "" + "\n" + Unsplit(fields);
    } else if |fields| > 1 {
      assert r[1..] == fields[1..];
      assert Unsplit(r) == ([c] + fields[0]) + "\n" + Unsplit(fields[1..]);
      assert Unsplit(fields) == fields[0] + "\n" + Unsplit(fields[1..]);
      assert Unsplit(r) == [c] + Unsplit(fields);
    } else {
      assert Unsplit(r) == [c] + fields[0];
    }
  }

  lemma {:induction false} SplitIsLines(s: string)
    ensures Lines(Split(s)) && Unsplit(Split(s)) == s
  {
    hide Prepend, Unsplit, Lines;
    if s == "" {
      LoneLine("");
    } else {
      SplitIsLines(s[1..]);
      PrependUnsplit(s[0], Split(s[1..]));
      assert s == [s[0]] + s[1..];
    }
  }

  lemma LoneLine(line: string)
    requires '\n' !in line
    ensures Lines([line]) && Unsplit([line]) == line
  {
  }

  /** Taking the first character off a list of lines. */
  lemma Unprepend(fields: seq<string>) returns (c: char, shorter: seq<string>)
    requires fields != [] && Lines(fields) && fields != [""]
    ensures shorter != [] && Lines(shorter) && fields == Prepend(c, shorter)
    ensures |shorter| < |fields| || (|shorter| == |fields| && |shorter[0]| < |fields[0]|)
  {
    if fields[0] == "" {
      c, shorter := '\n', fields[1..];
      assert fields == [""] + shorter;
    } else {
      c, shorter := fields[0][0], [fields[0][1..]] + fields[1..];
      assert c in fields[0] && shorter[1..] == fields[1..];
      assert [c] + shorter[0] == fields[0];
      assert fields == [fields[0]] + fields[1..];
    }
  }

  lemma {:induction false} UnsplitOnce(fields: seq<string>)
    requires fields != [] && Lines(fields)
    ensures Split(Unsplit(fields)) == fields
    decreases |fields|, if fields == [] then 0 else |fields[0]|
  {
    hide Prepend, Lines, Unsplit;
    if fields == [""] {
      LoneLine("");
    } else {
      var c, shorter := Unprepend(fields);
      UnsplitOnce(shorter);
      PrependUnsplit(c, shorter);
      assert Unsplit(fields)[0] == c && Unsplit(fields)[1..] == Unsplit(shorter);
    }
  }

  /** Splitting is characterised: of all newline-free lists of lines, it is the one that joins to
      the text. */
  lemma SplitExactly(s: string, fields: seq<string>)
    requires fields != []
    ensures Split(s) == fields <==> Lines(fields) && Unsplit(fields) == s
  {
    SplitIsLines(s);
    if Lines(fields) {
      UnsplitOnce(fields);
    }
  }

  // ----- Chunks -----

  lemma PrependConcat(c: char, fields: seq<string>, tail: seq<string>)
    requires fields != [] && tail != [] && (|fields| > 1 || c == '\n')
    ensures Prepend(c, AllButLast(fields) + tail) == AllButLast(Prepend(c, fields)) + tail
    ensures Last(Prepend(c, fields)) == Last(fields)
  {
    if c != '\n' {
      assert (AllButLast(fields) + tail)[1..] == AllButLast(fields)[1..] + tail;
    }
  }

  lemma {:induction false} SplitConcat(a: string, b: string)
    ensures Split(a + b) == AllButLast(Split(a)) + Split(Last(Split(a)) + b)
  {
    if a == "" {
      assert a + b == b && "" + b == b;
    } else {
      assert (a + b)[1..] == a[1..] + b && (a + b)[0] == a[0];
      SplitConcat(a[1..], b);
      var rest := Split(a[1..]);
      var tail := Split(Last(rest) + b);
      if a[0] == '\n' || |rest| > 1 {
        hide Prepend, AllButLast, Last;
        PrependConcat(a[0], rest, tail);
      } else {
        assert AllButLast(rest) + tail == tail;
        hide Split;
        LoneFieldConcat(a[0], rest, b);
      }
    }
  }

  lemma LoneFieldConcat(c: char, fields: seq<string>, b: string)
    requires |fields| == 1 && c != '\n'
    ensures Prepend(c, Split(Last(fields) + b)) == AllButLast(Prepend(c, fields)) + Split(Last(Prepend(c, fields)) + b)
  {
    var last := Last(Prepend(c, fields));
    assert last == [c] + fields[0];
    assert (last + b)[1..] == fields[0] + b && (last + b)[0] == c;
    assert AllButLast(Prepend(c, fields)) == [];
  }

  // ----- What a line reports -----

  /** Python's `str.isspace` and `json.loads`, which are not part of this model. */
  datatype Reader = Reader(isSpace: char -> bool, decode: string -> Option<Json>)

  const DATA: string := "data:"

  /** The event on a line. */
  function EventOf(line: string, reader: Reader): Option<Entries> {
    var line := Strip(line, reader.isSpace);
    if !(DATA <= line) then None
    else
      match reader.decode(Strip(line[|DATA|..], reader.isSpace))
      case Some(Obj(event)) => Some(event)
      case _ => None
  }

  function ReasoningDelta(line: string, reader: Reader): Option<string> {
    match EventOf(line, reader)
    case None => None
    case Some(event) =>
      if Get(event, "type") != Some(Str("response.reasoning_summary_text.delta")) then None
      else
        match Get(event, "delta")
        case Some(Str(delta)) => Some(delta)
        case _ => None
  }

  /** The reasoning deltas of a list of lines. */
  function Reported(lines: seq<string>, reader: Reader): seq<string> {
    if lines == [] then []
    else
      (match ReasoningDelta(lines[0], reader) case Some(delta) => [delta] case None => [])
      + Reported(lines[1..], reader)
  }

  lemma {:induction false} ReportedConcat(a: seq<string>, b: seq<string>, reader: Reader)
    ensures Reported(a + b, reader) == Reported(a, reader) + Reported(b, reader)
  {
    if a == [] {
      assert a + b == b;
    } else {
      assert (a + b)[1..] == a[1..] + b;
      ReportedConcat(a[1..], b, reader);
    }
  }

  /** The reading loop: `body` collects the chunks, `buffer` holds the unfinished line. However
      the body is cut into chunks, the reported deltas are those of all its fields but the last,
      and the last field is left in the buffer. */
  method ReadChunks(chunks: seq<string>, reader: Reader)
    returns (body: string, buffer: string, reported: seq<string>)
    ensures body == Join(chunks)
    ensures buffer == Last(Split(Join(chunks)))
    ensures reported == Reported(AllButLast(Split(Join(chunks))), reader)
  {
    hide Split, ReasoningDelta, Join;
    assert Join([]) == "" by { JoinNothing(); }
    body, buffer, reported := "", "", [];
    assert Split("") == [""] by { SplitExactly("", [""]); }
    assert AllButLast(Split("")) == [];
    for n := 0 to |chunks|
      invariant body == Join(chunks[..n])
      invariant buffer == Last(Split(body))
      invariant reported == Reported(AllButLast(Split(body)), reader)
    {
      ghost var before := Split(body);
      SplitConcat(body, chunks[n]);
      body := body + chunks[n];
      assert body == Join(chunks[..n + 1]) by { JoinNext(chunks, n); }
      buffer := buffer + chunks[n];
      var lines := Split(buffer);
      buffer := lines[|lines| - 1];
      lines := lines[..|lines| - 1];
      assert AllButLast(Split(body)) == AllButLast(before) + lines;
      ReportedConcat(AllButLast(before), lines, reader);
      ghost var earlier := reported;
      for i := 0 to |lines|
        invariant reported == earlier + Reported(lines[..i], reader)
      {
        var delta := ReasoningDelta(lines[i], reader);
        if delta.Some? {
          reported := reported + [delta.value];
        }
        assert lines[..i + 1] == lines[..i] + [lines[i]];
        ReportedConcat(lines[..i], [lines[i]], reader);
        assert Reported([lines[i]], reader) == if delta.Some? then [delta.value] else [] by { ReportedOne(lines[i], reader); }
      }
      assert lines[..|lines|] == lines;
    }
    assert chunks[..|chunks|] == chunks;
  }

  lemma ReportedOne(line: string, reader: Reader)
    ensures Reported([line], reader) == match ReasoningDelta(line, reader) case Some(delta) => [delta] case None => []
  {
    assert [line][1..] == [];
  }

  /** Which lines report: around the prefix `data:` and around the payload only space is left out, the
      payload must decode to an object of the delta type, and its delta must be a text. */
  lemma DeltaOfLine(before: string, gap: string, payload: string, after: string, reader: Reader)
    requires AllKept(before, reader.isSpace) && AllKept(gap, reader.isSpace) && AllKept(after, reader.isSpace)
    requires !reader.isSpace('d') && !reader.isSpace(':')
    requires if payload == "" then gap == "" else !reader.isSpace(payload[0]) && !reader.isSpace(payload[|payload| - 1])
    ensures ReasoningDelta(before + "data:" + gap + payload + after, reader)
            == match reader.decode(payload)
               case Some(Obj(event)) =>
                 (match (Get(event, "type"), Get(event, "delta"))
                  case (Some(Str(kind)), Some(Str(delta))) =>
                    if kind == "response.reasoning_summary_text.delta" then Some(delta) else None
                  case _ => None)
               case _ => None
  {
    var text := "data:" + gap + payload;
    var line := before + "data:" + gap + payload + after;
    assert line == before + text + after;
    StripBetween(before, text, after, reader.isSpace);
    assert text[|DATA|..] == gap + payload + "";
    StripBetween(gap, payload, "", reader.isSpace);
    hide Get, Strip;
  }

  /** A line whose text does not start with the prefix reports nothing. */
  lemma OtherLinesReportNothing(before: string, text: string, after: string, reader: Reader)
    requires AllKept(before, reader.isSpace) && AllKept(after, reader.isSpace)
    requires text != "" ==> !reader.isSpace(text[0]) && !reader.isSpace(text[|text| - 1])
    requires !("data:" <= text)
    ensures ReasoningDelta(before + text + after, reader) == None
  {
    StripBetween(before, text, after, reader.isSpace);
    hide Strip;
  }

  // ----- The complete body -----

  /** The characters at which `str.splitlines` ends a line. */
  predicate EndsLine(c: char) {
    c in "\n\r\U{0B}\U{0C}\U{1C}\U{1D}\U{1E}\U{85}\U{2028}\U{2029}"
  }

  /** Their code points: line feed, line tabulation, form feed, carriage return, the file, group and
      record separators, next line, and the line and paragraph separators. */
  lemma LineEndsExactly(c: char)
    ensures EndsLine(c) <==> c as int in {10, 11, 12, 13, 28, 29, 30, 133, 8232, 8233}
  {
  }

  /** `s.splitlines()`, by which the complete body is read. */
  function SplitLines(s: string): seq<string>
    decreases |s|
  {
    if s == "" then []
    else if EndsLine(s[0]) then [""] + SplitLines(if "\r\n" <= s then s[2..] else s[1..])
    else
      var rest := SplitLines(s[1..]);
      if rest == [] then [s] else [[s[0]] + rest[0]] + rest[1..]
  }

  lemma LineEndIsNotInner(c: char)
    requires !EndsLine(c)
    ensures c != '\n'
  {
  }

  lemma SplitLinesNothing()
    ensures SplitLines("") == []
  {
  }

  lemma SplitLinesSomething(s: string)
    requires s != ""
    ensures SplitLines(s) != []
  {
  }

  /** Characters before the first line end lengthen the first line. */
  function OnFirst(start: string, lines: seq<string>): seq<string> {
    if lines == [] then [start] else [start + lines[0]] + lines[1..]
  }

  lemma OnFirstTwice(a: string, b: string, lines: seq<string>)
    ensures OnFirst(a, OnFirst(b, lines)) == OnFirst(a + b, lines)
  {
    if lines != [] { assert a + (b + lines[0]) == (a + b) + lines[0]; }
  }

  lemma OnFirstConcat(start: string, lines: seq<string>, more: seq<string>)
    ensures OnFirst(start, [""] + more) == [start] + more
    ensures lines != [] ==> OnFirst(start, lines + more) == OnFirst(start, lines) + more
  {
    assert start + "" == start;
  }

  lemma OtherFirst(s: string)
    requires s != "" && !EndsLine(s[0])
    ensures SplitLines(s) == OnFirst([s[0]], SplitLines(s[1..]))
  {
    hide EndsLine;
    if SplitLines(s[1..]) == [] {
      assert s[1..] == "";
      assert [s[0]] == s;
    }
  }

  lemma EndFirst(s: string)
    requires s != "" && EndsLine(s[0]) && !(s[0] == '\r' && |s| > 1 && s[1] == '\n')
    ensures SplitLines(s) == [""] + SplitLines(s[1..])
  {
  }

  lemma NewlineFirst(rest: string)
    ensures SplitLines("\n" + rest) == [""] + SplitLines(rest)
    ensures SplitLines("\r\n" + rest) == [""] + SplitLines(rest)
  {
    assert ("\n" + rest)[1..] == rest && ("\r\n" + rest)[2..] == rest;
  }

  lemma SplitLinesReturn()
    ensures SplitLines("\r") == [""]
  {
  }

  predicate Inner(s: string) {
    forall c :: c in s ==> !EndsLine(c)
  }

  lemma {:induction false} InnerFirst(start: string, rest: string)
    requires Inner(start) && (start != "" || rest != "")
    ensures SplitLines(start + rest) == OnFirst(start, SplitLines(rest))
  {
    if start == "" {
      assert start + rest == rest;
      var lines := SplitLines(rest);
      assert "" + lines[0] == lines[0];
    } else {
      var s := start + rest;
      assert start[0] in start && forall c :: c in start[1..] ==> c in start;
      assert s[1..] == start[1..] + rest && start == [start[0]] + start[1..];
      hide EndsLine, SplitLines;
      OtherFirst(s);
      if |start| == 1 {
        assert s[1..] == rest && [start[0]] == start;
      } else {
        InnerFirst(start[1..], rest);
        OnFirstTwice([start[0]], start[1..], SplitLines(rest));
      }
    }
  }

  // ----- The lines of the body are those of its fields -----

  /** Whether a newline after the field ends a blank line of its own. */
  predicate EndsBlank(field: string) {
    field == "" || (field[|field| - 1] != '\r' && EndsLine(field[|field| - 1]))
  }

  lemma FieldLonger(field: string, rest: string)
    requires field != "" && field != "\r" && '\n' !in field
    requires SplitLines(field[1..] + "\n" + rest)
             == SplitLines(field[1..]) + (if EndsBlank(field[1..]) then [""] else []) + SplitLines(rest)
    ensures SplitLines(field + "\n" + rest) == SplitLines(field) + (if EndsBlank(field) then [""] else []) + SplitLines(rest)
  {
    hide EndsLine, SplitLines;
    var s := field + "\n" + rest;
    assert s[0] == field[0] && s[1..] == field[1..] + "\n" + rest;
    if |field| == 1 {
      SplitLinesNothing();
      assert field[1..] == "";
    } else {
      assert field[1] in field && s[1] == field[1];
      SplitLinesSomething(field[1..]);
    }
    var more := (if EndsBlank(field[1..]) then [""] else []) + SplitLines(rest);
    if EndsLine(field[0]) {
      EndFirst(s);
      EndFirst(field);
    } else {
      OtherFirst(s);
      OtherFirst(field);
      OnFirstConcat([field[0]], [], SplitLines(rest));
      OnFirstConcat([field[0]], SplitLines(field[1..]), more);
      assert SplitLines(s[1..]) == SplitLines(field[1..]) + more;
    }
  }

  lemma {:induction false} FieldFirst(field: string, rest: string)
    requires '\n' !in field
    ensures SplitLines(field + "\n" + rest) == SplitLines(field) + (if EndsBlank(field) then [""] else []) + SplitLines(rest)
  {
    var s := field + "\n" + rest;
    NewlineFirst(rest);
    SplitLinesNothing();
    SplitLinesReturn();
    hide EndsLine, SplitLines;
    if field == "" {
      assert s == "\n" + rest;
    } else if field == "\r" {
      assert s == "\r\n" + rest;
    } else {
      FieldFirst(field[1..], rest);
      FieldLonger(field, rest);
    }
  }

  /** The deltas found in the complete body, field by field. */
  function ByField(fields: seq<string>, reader: Reader): seq<string> {
    if fields == [] then [] else Reported(SplitLines(fields[0]), reader) + ByField(fields[1..], reader)
  }

  lemma {:induction false} FieldsFirst(fields: seq<string>, reader: Reader)
    requires fields != [] && Lines(fields)
    ensures Reported(SplitLines(Unsplit(fields)), reader) == ByField(fields, reader)
  {
    hide SplitLines, Reported, EndsBlank;
    if |fields| == 1 {
      assert fields[1..] == [];
      assert ByField([], reader) == [];
    } else {
      var field, rest := fields[0], Unsplit(fields[1..]);
      assert Unsplit(fields) == field + "\n" + rest;
      FieldFirst(field, rest);
      FieldsFirst(fields[1..], reader);
      var blank := if EndsBlank(field) then [""] else [];
      ReportedConcat(SplitLines(field) + blank, SplitLines(rest), reader);
      ReportedConcat(SplitLines(field), blank, reader);
      BlankLineReportsNothing(reader);
      ReportedNone(reader);
    }
  }

  lemma ReportedNone(reader: Reader)
    ensures Reported([], reader) == [] && Reported([""], reader) == []
  {
    BlankLineReportsNothing(reader);
    ReportedOne("", reader);
  }

  /** The complete body is read as its fields are, one after the other, for every body and any line
      ends. */
  lemma BodyByField(body: string, reader: Reader)
    ensures Reported(SplitLines(body), reader) == ByField(Split(body), reader)
  {
    SplitIsLines(body);
    FieldsFirst(Split(body), reader);
  }

  // ----- Line ends around the text of a field -----

  /** The line ends of the field are space to the reader, as they are to `str.strip`. */
  predicate EndsAreSpace(field: string, reader: Reader) {
    forall c :: c in field && EndsLine(c) ==> reader.isSpace(c)
  }

  /** The field has a line end inside its stripped text. */
  predicate Broken(field: string, reader: Reader) {
    !Inner(Strip(field, reader.isSpace))
  }

  predicate Blank(s: string, reader: Reader) {
    forall c :: c in s ==> reader.isSpace(c)
  }

  lemma SameStripReportsTheSame(a: string, b: string, reader: Reader)
    requires Strip(a, reader.isSpace) == Strip(b, reader.isSpace)
    ensures ReasoningDelta(a, reader) == ReasoningDelta(b, reader)
  {
    hide Strip, Get;
  }

  lemma {:induction false} StripBlankEnd(s: string, blank: string, reader: Reader)
    requires Blank(blank, reader)
    ensures Strip(s + blank, reader.isSpace) == Strip(s, reader.isSpace)
  {
    if blank == "" {
      assert s + blank == s;
    } else {
      var n := |blank| - 1;
      assert s + blank == (s + blank[..n]) + [blank[n]] && blank[n] in blank;
      StripBlankEnd(s, blank[..n], reader);
      StripTrailing(s + blank[..n], blank[n], reader.isSpace);
    }
  }

  lemma {:induction false} BlankReportsNothing(lines: seq<string>, reader: Reader)
    requires forall line :: line in lines ==> Blank(line, reader)
    ensures Reported(lines, reader) == []
  {
    if lines != [] {
      assert lines[0] in lines && "" + lines[0] == lines[0];
      StripBlankEnd("", lines[0], reader);
      SameStripReportsTheSame(lines[0], "", reader);
      BlankLineReportsNothing(reader);
      BlankReportsNothing(lines[1..], reader);
      hide ReasoningDelta;
    }
  }

  lemma {:induction false} LinesOfBlank(s: string, reader: Reader)
    requires Blank(s, reader)
    ensures forall line :: line in SplitLines(s) ==> Blank(line, reader)
    decreases |s|
  {
    if s != "" {
      var rest := if "\r\n" <= s then s[2..] else s[1..];
      assert s[0] in s && forall c :: c in s[1..] || c in rest ==> c in s;
      LinesOfBlank(s[1..], reader);
      LinesOfBlank(rest, reader);
      hide EndsLine;
      var lines := SplitLines(s[1..]);
      if !EndsLine(s[0]) && lines != [] { assert lines[0] in lines; }
    }
  }

  lemma TextBeforeBlankReports(text: string, blank: string, reader: Reader)
    requires text != "" && Inner(text) && Blank(blank, reader)
    ensures Reported(SplitLines(text + blank), reader) == Reported([text + blank], reader)
  {
    var lines := SplitLines(blank);
    InnerFirst(text, blank);
    LinesOfBlank(blank, reader);
    StripBlankEnd(text, blank, reader);
    SameStripReportsTheSame(text + blank, text, reader);
    ReportedOne(text + blank, reader);
    hide SplitLines, Reported, ReasoningDelta, EndsLine, Strip;
    if lines == [] {
      ReportedOne(text, reader);
    } else {
      var first := text + lines[0];
      assert lines[0] in lines;
      StripBlankEnd(text, lines[0], reader);
      SameStripReportsTheSame(first, text, reader);
      ReportedOne(first, reader);
      ReportedConcat([first], lines[1..], reader);
      BlankReportsNothing(lines[1..], reader);
    }
  }

  /** A character of space before a text changes nothing. */
  lemma SpaceFirst(c: char, s: string, reader: Reader)
    requires reader.isSpace(c)
    ensures Strip([c] + s, reader.isSpace) == Strip(s, reader.isSpace)
    ensures Reported([[c] + s], reader) == Reported([s], reader)
  {
    assert ([c] + s)[1..] == s;
    SameStripReportsTheSame([c] + s, s, reader);
    ReportedOne([c] + s, reader);
    ReportedOne(s, reader);
    hide Reported;
  }

  lemma SpaceOnFirst(c: char, lines: seq<string>, reader: Reader)
    requires reader.isSpace(c)
    ensures Reported(OnFirst([c], lines), reader) == Reported(lines, reader)
  {
    ReportedNone(reader);
    hide Reported;
    if lines == [] {
      SpaceFirst(c, "", reader);
      assert [c] + "" == [c];
    } else {
      SpaceFirst(c, lines[0], reader);
      ReportedConcat([[c] + lines[0]], lines[1..], reader);
      ReportedConcat([lines[0]], lines[1..], reader);
      assert lines == [lines[0]] + lines[1..];
    }
  }

  /** When all line ends of a field are around its text, its lines report what the field reports. */
  lemma {:induction false} WholeFieldReports(field: string, reader: Reader)
    requires '\n' !in field && EndsAreSpace(field, reader) && !Broken(field, reader)
    ensures Reported(SplitLines(field), reader) == Reported([field], reader)
  {
    ReportedNone(reader);
    if field == "" {
      SplitLinesNothing();
    } else if reader.isSpace(field[0]) {
      var rest := field[1..];
      assert field == [field[0]] + rest && forall c :: c in rest ==> c in field;
      SpaceFirst(field[0], rest, reader);
      hide EndsLine, Reported, SplitLines, Strip;
      WholeFieldReports(rest, reader);
      if EndsLine(field[0]) {
        if |field| > 1 { assert field[1] in field; }
        EndFirst(field);
        ReportedConcat([""], SplitLines(rest), reader);
      } else {
        OtherFirst(field);
        SpaceOnFirst(field[0], SplitLines(rest), reader);
      }
    } else {
      var text := Strip(field, reader.isSpace);
      StripRightRest(field, reader.isSpace);
      var blank := field[|text|..];
      assert field == text + blank;
      TextBeforeBlankReports(text, blank, reader);
    }
  }

  // ----- When the two readers agree -----

  predicate Reports(field: string, reader: Reader) {
    ReasoningDelta(field, reader).Some?
  }

  /** The stream reports the delta of the field, which the complete body breaks. */
  predicate Lost(field: string, reader: Reader) {
    Broken(field, reader) && Reports(field, reader)
  }

  /** The complete body breaks the field into lines of which one reports a delta. */
  predicate Gained(field: string, reader: Reader) {
    Broken(field, reader) && exists line :: line in SplitLines(field) && Reports(line, reader)
  }

  function Unbroken(fields: seq<string>, reader: Reader): seq<string> {
    if fields == [] then []
    else if Broken(fields[0], reader) then Unbroken(fields[1..], reader)
    else [fields[0]] + Unbroken(fields[1..], reader)
  }

  lemma {:induction false} ReportsSomething(lines: seq<string>, reader: Reader)
    ensures Reported(lines, reader) != [] <==> exists line :: line in lines && Reports(line, reader)
  {
    if lines != [] {
      ReportsSomething(lines[1..], reader);
      hide ReasoningDelta;
      if Reports(lines[0], reader) { assert lines[0] in lines; }
      assert forall line :: line in lines <==> line == lines[0] || line in lines[1..];
    }
  }

  lemma FieldCompared(field: string, reader: Reader)
    requires '\n' !in field && EndsAreSpace(field, reader)
    ensures if Broken(field, reader) then
              (Lost(field, reader) <==> Reported([field], reader) != [])
              && (Gained(field, reader) <==> Reported(SplitLines(field), reader) != [])
            else
              !Lost(field, reader) && !Gained(field, reader)
              && Reported(SplitLines(field), reader) == Reported([field], reader)
  {
    ReportsSomething([field], reader);
    ReportsSomething(SplitLines(field), reader);
    hide Broken, Reports, SplitLines, EndsAreSpace, Reported;
    if !Broken(field, reader) { WholeFieldReports(field, reader); }
  }

  /** What both readers report are the deltas of the unbroken fields; to them the stream adds those
      of the lost fields. */
  lemma {:induction false} StreamCompared(fields: seq<string>, reader: Reader)
    requires Lines(fields) && forall f :: f in fields ==> EndsAreSpace(f, reader)
    ensures var both := Reported(Unbroken(fields, reader), reader);
            if exists f :: f in fields && Lost(f, reader) then |Reported(fields, reader)| > |both|
            else Reported(fields, reader) == both
  {
    if fields != [] {
      var field, rest := fields[0], fields[1..];
      assert field in fields && forall f :: f in fields <==> f == field || f in rest;
      hide Broken, Lost, Gained, SplitLines, EndsAreSpace, Reported;
      StreamCompared(rest, reader);
      FieldCompared(field, reader);
      assert [field] + rest == fields;
      ReportedConcat([field], rest, reader);
      ReportedConcat([field], Unbroken(rest, reader), reader);
    }
  }

  /** To them the complete body adds the deltas that are gained. */
  lemma {:induction false} BodyCompared(fields: seq<string>, reader: Reader)
    requires Lines(fields) && forall f :: f in fields ==> EndsAreSpace(f, reader)
    ensures var both := Reported(Unbroken(fields, reader), reader);
            if exists f :: f in fields && Gained(f, reader) then |ByField(fields, reader)| > |both|
            else ByField(fields, reader) == both
  {
    if fields != [] {
      var field, rest := fields[0], fields[1..];
      assert field in fields && forall f :: f in fields <==> f == field || f in rest;
      hide Broken, Lost, Gained, SplitLines, EndsAreSpace, Reported;
      BodyCompared(rest, reader);
      FieldCompared(field, reader);
      ReportedConcat([field], Unbroken(rest, reader), reader);
    }
  }

  /** Streaming and reading the complete body report the same deltas, that of an unfinished last
      line included, exactly when no line that is broken by line ends inside it reports a delta,
      whole or in pieces. (Where one line loses a delta and another gains one, the two could only
      be the same by chance.) */
  lemma ReadersAgreeExactly(body: string, reader: Reader)
    requires forall f :: f in Split(body) ==> EndsAreSpace(f, reader)
    requires (forall f :: f in Split(body) ==> !Lost(f, reader)) || (forall f :: f in Split(body) ==> !Gained(f, reader))
    ensures Reported(SplitLines(body), reader) == Reported(Split(body), reader)
            <==> forall f :: f in Split(body) ==> !Lost(f, reader) && !Gained(f, reader)
  {
    BodyByField(body, reader);
    SplitIsLines(body);
    StreamCompared(Split(body), reader);
    BodyCompared(Split(body), reader);
    hide Split, Lost, Gained, ByField, Reported, EndsAreSpace, SplitLines;
  }

  /** Where a line that loses a delta is followed by one that gains it, the two agree by chance. */
  lemma LossAndGainCanCancel(x: string, y: string, reader: Reader)
    requires '\n' !in x && '\n' !in y
    requires Lost(x, reader) && !Gained(x, reader) && !Reports(y, reader)
    requires Reported(SplitLines(y), reader) == Reported([x], reader)
    ensures Reported(SplitLines(x + "\n" + y), reader) == Reported(Split(x + "\n" + y), reader)
  {
    hide Broken, SplitLines, Reported, ReasoningDelta;
    SplitTwo(x, y);
    BodyByField(x + "\n" + y, reader);
    ReportsSomething(SplitLines(x), reader);
    ReportsSomething([y], reader);
    assert [x, y][1..] == [y] && [y][1..] == [];
    assert ByField([], reader) == [] && ByField([y], reader) == Reported(SplitLines(y), reader);
    assert [x, y] == [x] + [y];
    ReportedConcat([x], [y], reader);
  }

  lemma SplitTwo(x: string, y: string)
    requires '\n' !in x && '\n' !in y
    ensures Split(x + "\n" + y) == [x, y]
  {
    assert [x, y][1..] == [y];
    assert Unsplit([x, y]) == x + "\n" + Unsplit([y]);
    SplitExactly(x + "\n" + y, [x, y]);
  }

  // ----- Plain line ends -----

  /** A line end of the text is a newline, or a carriage return before one. */
  predicate PlainAt(s: string, i: nat)
    requires i < |s|
  {
    EndsLine(s[i]) ==> s[i] == '\n' || (s[i] == '\r' && i + 1 < |s| && s[i + 1] == '\n')
  }

  predicate PlainLineEnds(s: string) {
    forall i :: 0 <= i < |s| ==> PlainAt(s, i)
  }

  /** The field has no line end but a carriage return at its end. */
  predicate PlainField(field: string) {
    Inner(field) || (field != "" && field[|field| - 1] == '\r' && Inner(field[..|field| - 1]))
  }

  lemma PlainFieldLonger(c: char, field: string)
    requires PlainField(field) && (EndsLine(c) ==> c == '\r' && field == "")
    ensures PlainField([c] + field)
  {
    hide EndsLine;
    if Inner(field) {
      assert !EndsLine(c) ==> Inner([c] + field);
      assert EndsLine(c) ==> [c] + field == [c] && [c][..0] == "";
    } else {
      assert ([c] + field)[..|field|] == [c] + field[..|field| - 1];
    }
  }

  lemma {:induction false} FieldsArePlain(s: string)
    requires PlainLineEnds(s)
    ensures forall f :: f in Split(s) ==> PlainField(f)
  {
    if s != "" {
      var rest := Split(s[1..]);
      assert PlainAt(s, 0);
      forall i | 0 <= i < |s[1..]| ensures PlainAt(s[1..], i) { assert PlainAt(s, i + 1); hide EndsLine; }
      FieldsArePlain(s[1..]);
      if |s| > 1 && s[1] == '\n' { assert rest[0] == ""; }
      hide EndsLine, PlainField;
      assert rest[0] in rest;
      if s[0] == '\n' {
        assert PlainField("") by { BlankIsPlain(); }
      } else {
        PlainFieldLonger(s[0], rest[0]);
      }
    } else {
      BlankIsPlain();
    }
  }

  lemma BlankIsPlain()
    ensures PlainField("")
  {
  }

  lemma PlainIsUnbroken(field: string, reader: Reader)
    requires PlainField(field) && reader.isSpace('\r')
    ensures EndsAreSpace(field, reader) && !Lost(field, reader) && !Gained(field, reader)
  {
    StripEnds(field, reader.isSpace);
    if !Inner(field) {
      var text := field[..|field| - 1];
      assert field == text + ['\r'];
      StripTrailing(text, '\r', reader.isSpace);
      StripEnds(text, reader.isSpace);
    }
    hide EndsLine, Strip;
  }

  /** When every line of the body ends with a newline, with or without a carriage return before it,
      the deltas reported while streaming, followed by that of an unfinished last line, are those
      found in the complete body. */
  lemma StreamedDeltasAreTheBodys(body: string, reader: Reader)
    requires reader.isSpace('\r') && PlainLineEnds(body)
    ensures Reported(SplitLines(body), reader)
            == Reported(AllButLast(Split(body)), reader) + Reported([Last(Split(body))], reader)
  {
    hide Split, SplitLines, Reported, PlainField, PlainLineEnds, Lost, Gained, EndsAreSpace, ReasoningDelta;
    var fields := Split(body);
    FieldsArePlain(body);
    forall f | f in fields ensures EndsAreSpace(f, reader) && !Lost(f, reader) && !Gained(f, reader) {
      PlainIsUnbroken(f, reader);
    }
    ReadersAgreeExactly(body, reader);
    ReportedSplit(fields, reader);
    hide AllButLast, Last;
  }

  lemma ReportedSplit(fields: seq<string>, reader: Reader)
    requires fields != []
    ensures Reported(fields, reader) == Reported(AllButLast(fields), reader) + Reported([Last(fields)], reader)
  {
    assert fields == AllButLast(fields) + [Last(fields)];
    ReportedConcat(AllButLast(fields), [Last(fields)], reader);
  }

  // ----- An instance -----

  const SEPARATOR: char := '\U{2028}'

  /** JSON allows a raw U+2028 inside a string, and a line with one is broken: when the first half
      alone is not decodable and the second does not read as data, a delta that was streamed is
      missing from the complete body. */
  lemma RawSeparatorHidesDelta(x: string, y: string, reader: Reader, delta: string)
    requires forall c :: c in x || c in y ==> !EndsLine(c)
    requires ReasoningDelta(DATA + x + [SEPARATOR] + y, reader) == Some(delta)
    requires EventOf(DATA + x, reader).None? && EventOf(y, reader).None?
    ensures var body := DATA + x + [SEPARATOR] + y + "\n";
            Reported(AllButLast(Split(body)), reader) == [delta] && Reported(SplitLines(body), reader) == []
  {
    hide EndsLine, Split, EventOf, Unsplit, SplitLines, Reported;
    var start, rest := DATA + x, [SEPARATOR] + y;
    var line := start + rest;
    var body := line + "\n" + "";
    SeparatorEndsLine();
    forall c | c in start ensures !EndsLine(c) { DataIsInner(c, x); }
    forall c | c in line ensures c != '\n' {
      if c in start || c in y { LineEndIsNotInner(c); }
    }
    assert body == DATA + x + [SEPARATOR] + y + "\n" && line == DATA + x + [SEPARATOR] + y;
    SplitTwo(line, "");
    assert AllButLast([line, ""]) == [line];
    ReportedOne(line, reader);
    BodyByField(body, reader);
    SplitLinesNothing();
    assert [line, ""][1..] == [""] && [""][1..] == [];
    assert ByField([""], reader) == Reported(SplitLines(""), reader) + ByField([], reader);
    ReportedNone(reader);
    InnerFirst(start, rest);
    EndFirst(rest);
    assert rest[1..] == y;
    OnFirstConcat(start, [], SplitLines(y));
    assert SplitLines(line) == [start] + SplitLines(y);
    ReportedConcat([start], SplitLines(y), reader);
    ReportedOne(start, reader);
    if y != "" {
      InnerFirst(y, "");
      assert y + "" == y;
      ReportedOne(y, reader);
    }
  }

  lemma SeparatorEndsLine()
    ensures EndsLine(SEPARATOR) && SEPARATOR != '\n' && SEPARATOR != '\r'
  {
  }

  lemma DataIsInner(c: char, x: string)
    requires c in DATA + x && forall d :: d in x ==> !EndsLine(d)
    ensures !EndsLine(c)
  {
    if c in DATA { assert c in "dat:"; }
  }

  lemma BlankLineReportsNothing(reader: Reader)
    ensures ReasoningDelta("", reader) == None
  {
  }
}
