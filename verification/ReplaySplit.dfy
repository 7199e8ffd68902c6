/**
 The bridge's dev replay: seed files are read line by line, a marker line ends a record, and every
 non-blank record is published.
 */
module ReplaySplit {
  import opened Text
  import opened Sequences

  const SEPARATOR := "-----RECORD-----"

  /** `Character.isWhitespace` */
  predicate JavaSpace(c: char) {
    || c == ' ' || '\t' <= c <= '\r' || '\U{1C}' <= c <= '\U{1F}' || c == '\U{1680}'
    || ('\U{2000}' <= c <= '\U{200A}' && c != '\U{2007}') || c == '\U{2028}' || c == '\U{2029}'
    || c == '\U{205F}' || c == '\U{3000}'
  }

  // ---------- lines ----------

  /** Where the first line ends. */
  function BreakAt(text: string): (i: nat)
    ensures i <= |text|
    ensures forall k :: 0 <= k < i ==> text[k] != '\n' && text[k] != '\r'
    ensures i < |text| ==> text[i] == '\n' || text[i] == '\r'
  {
    if text == [] || text[0] == '\n' || text[0] == '\r' then 0 else 1 + BreakAt(text[1..])
  }

  /** `BufferedReader.readLine` until the end: a line ends with LF, CR or CR LF. */
  function Lines(text: string): seq<string>
    decreases |text|
  {
    if text == [] then []
    else
      var i := BreakAt(text);
      var next := if i == |text| then i
                  else if text[i] == '\r' && i + 1 < |text| && text[i + 1] == '\n' then i + 2
                  else i + 1;
      [text[..i]] + Lines(text[next..])
  }

  /** The lines of a record, at least one. */
  function RecordLines(r: string): (ls: seq<string>)
    ensures ls != []
    decreases |r|
  {
    var i := BreakAt(r);
    if i == |r| then [r] else [r[..i]] + RecordLines(r[i + 1..])
  }

  lemma BreakBeforeNewline(r: string, rest: string)
    ensures BreakAt(r + ("\n" + rest)) == BreakAt(r)
  {
    var text := r + ("\n" + rest);
    var i, j := BreakAt(text), BreakAt(r);
    assert forall k :: 0 <= k < |r| ==> text[k] == r[k];
    assert text[|r|] == '\n';
  }

  /** A record followed by a newline is read back as its own lines. */
  lemma {:induction false} LinesOfRecord(r: string, rest: string)
    requires '\r' !in r
    ensures Lines(r + ("\n" + rest)) == RecordLines(r) + Lines(rest)
    decreases |r|
  {
    var i := BreakAt(r);
    FirstLineOfText(r, rest, i);
    if i == |r| {
      OneLine(r);
      assert r[..i] == r;
    } else {
      var tail := r[i + 1..];
      FirstLine(r, i);
      LinesOfRecord(tail, rest);
      Reassociate([r[..i]], RecordLines(tail), Lines(rest));
    }
  }

  lemma FirstLineOfText(r: string, rest: string, i: nat)
    requires '\r' !in r && i == BreakAt(r)
    ensures Lines(r + ("\n" + rest))
         == [r[..i]] + Lines(if i == |r| then rest else r[i + 1..] + ("\n" + rest))
  {
    var text := r + ("\n" + rest);
    BreakBeforeNewline(r, rest);
    CutText(r, rest, i);
    LinesAfterNewline(text, i);
  }

  lemma CutText(r: string, rest: string, i: nat)
    requires i <= |r| && (i < |r| ==> r[i] == '\n')
    ensures var text := r + ("\n" + rest);
      && text[..i] == r[..i] && text[i] == '\n'
      && text[i + 1..] == if i == |r| then rest else r[i + 1..] + ("\n" + rest)
  {
  }

  lemma LinesAfterNewline(text: string, i: nat)
    requires i == BreakAt(text) < |text| && text[i] == '\n'
    ensures Lines(text) == [text[..i]] + Lines(text[i + 1..])
  {
  }

  lemma OneLine(r: string)
    requires BreakAt(r) == |r|
    ensures RecordLines(r) == [r]
  {
  }

  /** The first line of a record and the rest of it. */
  lemma FirstLine(r: string, i: nat)
    requires i == BreakAt(r) < |r|
    ensures RecordLines(r) == [r[..i]] + RecordLines(r[i + 1..])
  {
  }

  lemma BreakAfterLine(line: string, more: string)
    requires '\n' !in line && '\r' !in line && more != [] && (more[0] == '\n' || more[0] == '\r')
    ensures BreakAt(line + more) == |line|
  {
    var text := line + more;
    var i := BreakAt(text);
    assert text[|line|] == more[0];
    assert forall k :: 0 <= k < |line| ==> text[k] == line[k];
  }

  /** A line may end in LF, in CR or in both; a CR before an LF is not a line of its own. */
  lemma LinesEndThreeWays(line: string, rest: string)
    requires '\n' !in line && '\r' !in line
    ensures Lines(line + ("\n" + rest)) == [line] + Lines(rest)
    ensures Lines(line + ("\r\n" + rest)) == [line] + Lines(rest)
    ensures rest == [] || rest[0] != '\n' ==> Lines(line + ("\r" + rest)) == [line] + Lines(rest)
  {
    LineAndRest(line, "\n", rest);
    LineAndRest(line, "\r\n", rest);
    if rest == [] || rest[0] != '\n' {
      LineAndRest(line, "\r", rest);
    }
  }

  lemma LineAndRest(line: string, end: string, rest: string)
    requires '\n' !in line && '\r' !in line
    requires end == "\n" || end == "\r\n" || (end == "\r" && (rest == [] || rest[0] != '\n'))
    ensures Lines(line + (end + rest)) == [line] + Lines(rest)
  {
    var text := line + (end + rest);
    BreakAfterLine(line, end + rest);
    assert text[..|line|] == line && text[|line| + |end|..] == rest;
    assert text[|line|] == end[0];
    assert |line| + 1 < |text| ==> text[|line| + 1] == (end + rest)[1];
  }

  // ---------- records ----------

  datatype State = State(buffer: string, sent: seq<string>)

  /** `publishRecord` */
  function Published(s: State): seq<string> {
    var record := Trim(s.buffer, JavaSpace);
    if record == [] then s.sent else s.sent + [record]
  }

  function Feed(s: State, line: string): State {
    if line == SEPARATOR then State([], Published(s))
    else State(if |s.buffer| > 0 then s.buffer + ("\n" + line) else line, s.sent)
  }

  function FeedAll(s: State, lines: seq<string>): State
    decreases |lines|
  {
    if lines == [] then s else FeedAll(Feed(s, lines[0]), lines[1..])
  }

  /** What has been sent once one more file was replayed. */
  function ReplayedAfter(sent: seq<string>, text: string): seq<string> {
    Published(FeedAll(State([], sent), Lines(text)))
  }

  function Replayed(text: string): seq<string> {
    ReplayedAfter([], text)
  }

  lemma {:induction false} FeedConcat(s: State, a: seq<string>, b: seq<string>)
    ensures FeedAll(s, a + b) == FeedAll(FeedAll(s, a), b)
    decreases |a|
  {
    if a == [] {
      assert a + b == b;
    } else {
      assert (a + b)[1..] == a[1..] + b;
      FeedConcat(Feed(s, a[0]), a[1..], b);
    }
  }

  lemma {:induction false} FeedSnoc(s: State, lines: seq<string>, line: string)
    ensures FeedAll(s, lines + [line]) == Feed(FeedAll(s, lines), line)
  {
    FeedConcat(s, lines, [line]);
    assert [line][1..] == [];
  }

  /** The line loop as the source runs it. */
  method ReplayFile(text: string) returns (sent: seq<string>)
    ensures sent == Replayed(text)
  {
    var lines := Lines(text);
    var buffer: string := [];
    sent := [];
    assert lines[..0] == [];
    for i := 0 to |lines|
      invariant State(buffer, sent) == FeedAll(State([], []), lines[..i])
    {
      assert lines[..i + 1] == lines[..i] + [lines[i]];
      FeedSnoc(State([], []), lines[..i], lines[i]);
      if lines[i] == SEPARATOR {
        sent := PublishRecord(buffer, sent);
        buffer := [];
      } else {
        ghost var before := buffer;
        if |buffer| > 0 {
          buffer := buffer + "\n";
        }
        buffer := buffer + lines[i];
        assert |before| > 0 ==> buffer == before + ("\n" + lines[i]);
        assert State(buffer, sent) == Feed(State(before, sent), lines[i]);
      }
    }
    assert lines[..|lines|] == lines;
    sent := PublishRecord(buffer, sent);
  }

  method PublishRecord(buffer: string, sent: seq<string>) returns (r: seq<string>)
    ensures r == Published(State(buffer, sent))
  {
    var record := Trim(buffer, JavaSpace);
    if record == [] {
      return sent;
    }
    r := sent + [record];
  }

  ghost predicate AllStripped(records: seq<string>) {
    forall i :: 0 <= i < |records| ==> records[i] != [] && Trimmed(records[i], JavaSpace)
  }

  lemma PublishedStaysStripped(s: State)
    requires AllStripped(s.sent)
    ensures AllStripped(Published(s))
  {
  }

  lemma {:induction false} FedStaysStripped(s: State, lines: seq<string>)
    requires AllStripped(s.sent)
    ensures AllStripped(FeedAll(s, lines).sent)
    decreases |lines|
  {
    if lines != [] {
      PublishedStaysStripped(s);
      FedStaysStripped(Feed(s, lines[0]), lines[1..]);
    }
  }

  /** Whatever a file holds, no blank record is published, and none with space around it. */
  lemma OnlyStrippedRecordsAreSent(text: string)
    ensures AllStripped(Replayed(text))
  {
    FedStaysStripped(State([], []), Lines(text));
    PublishedStaysStripped(FeedAll(State([], []), Lines(text)));
  }

  lemma JavaSpacesOfAscii(c: char)
    requires c < '\U{80}'
    ensures JavaSpace(c)
       <==> c in {' ', '\t', '\n', '\U{B}', '\U{C}', '\r', '\U{1C}', '\U{1D}', '\U{1E}', '\U{1F}'}
  {
  }

  // ---------- printing ----------

  /** A record the capture tool can have written: stripped, not blank, no separator line in it. */
  ghost predicate Printable(r: string) {
    r != [] && Trimmed(r, JavaSpace) && '\r' !in r && SEPARATOR !in RecordLines(r)
  }

  ghost predicate AllPrintable(records: seq<string>) {
    forall i :: 0 <= i < |records| ==> Printable(records[i])
  }

  /** How a file ends: in a separator line, right after its marker, in a line end, or right after the last record. */
  datatype Ending = Separated | Marker | Newline | Bare

  /** Records with a separator line between them. */
  function Print(records: seq<string>, end: Ending): string {
    if records == [] then []
    else if |records| == 1 && end.Newline? then records[0] + "\n"
    else if |records| == 1 && end.Bare? then records[0]
    else if |records| == 1 && end.Marker? then records[0] + ("\n" + SEPARATOR)
    else records[0] + ("\n" + (SEPARATOR + ("\n" + Print(records[1..], end))))
  }

  lemma CutAt(r: string, i: nat)
    requires i < |r| && r[i] == '\n'
    ensures r == r[..i] + ("\n" + r[i + 1..])
  {
  }

  lemma TwoLinesOnto(b: string, x: string, tail: string)
    ensures (b + ("\n" + x)) + ("\n" + tail) == b + ("\n" + (x + ("\n" + tail)))
  {
  }

  lemma FeedFirst(s: State, line: string, lines: seq<string>)
    requires line != SEPARATOR
    ensures FeedAll(s, [line] + lines) == FeedAll(Feed(s, line), lines)
  {
    assert ([line] + lines)[1..] == lines;
  }

  lemma FeedOne(s: State, line: string)
    ensures FeedAll(s, [line]) == Feed(s, line)
  {
    assert [line][1..] == [];
  }

  lemma {:induction false} FeedOntoBuffer(b: string, sent: seq<string>, r: string)
    requires b != [] && '\r' !in r && SEPARATOR !in RecordLines(r)
    ensures FeedAll(State(b, sent), RecordLines(r)) == State(b + ("\n" + r), sent)
    decreases |r|
  {
    var i := BreakAt(r);
    if i == |r| {
      OneLine(r);
      FeedOne(State(b, sent), r);
    } else {
      var line, tail := r[..i], r[i + 1..];
      FirstLine(r, i);
      CutAt(r, i);
      NotSeparated(line, RecordLines(tail));
      FeedFirst(State(b, sent), line, RecordLines(tail));
      FeedOntoBuffer(b + ("\n" + line), sent, tail);
      TwoLinesOnto(b, line, tail);
    }
  }

  lemma NotSeparated(line: string, lines: seq<string>)
    requires SEPARATOR !in [line] + lines
    ensures line != SEPARATOR && SEPARATOR !in lines
  {
    assert ([line] + lines)[0] == line;
    assert forall k :: 0 <= k < |lines| ==> ([line] + lines)[k + 1] == lines[k];
  }

  /** Fed to an empty buffer, the lines of a record put it back together. */
  lemma FeedRecord(sent: seq<string>, r: string)
    requires r != [] && !JavaSpace(r[0]) && '\r' !in r && SEPARATOR !in RecordLines(r)
    ensures FeedAll(State([], sent), RecordLines(r)) == State(r, sent)
  {
    var i := BreakAt(r);
    if i == |r| {
      OneLine(r);
      FeedOne(State([], sent), r);
    } else {
      var line, tail := r[..i], r[i + 1..];
      FirstLine(r, i);
      CutAt(r, i);
      NotSeparated(line, RecordLines(tail));
      FeedFirst(State([], sent), line, RecordLines(tail));
      FeedOntoBuffer(line, sent, tail);
    }
  }

  lemma SeparatorIsOneLine()
    ensures '\r' !in SEPARATOR && '\n' !in SEPARATOR
  {
  }

  lemma SeparatorIsALine(rest: string)
    ensures Lines(SEPARATOR + ("\n" + rest)) == [SEPARATOR] + Lines(rest)
  {
    SeparatorIsOneLine();
    OneLineRecord(SEPARATOR);
    LinesOfRecord(SEPARATOR, rest);
  }

  lemma OneLineRecord(r: string)
    requires '\r' !in r && '\n' !in r
    ensures RecordLines(r) == [r]
  {
  }

  lemma FeedSeparator(r: string, sent: seq<string>, lines: seq<string>)
    requires Printable(r)
    ensures FeedAll(State(r, sent), [SEPARATOR] + lines) == FeedAll(State([], sent + [r]), lines)
    ensures Published(State(r, sent)) == sent + [r]
  {
    assert ([SEPARATOR] + lines)[1..] == lines;
  }

  /** Without a line end after it, a record that does not end in one is read as the same lines. */
  lemma {:induction false} LinesWithoutLineEnd(r: string)
    requires '\r' !in r && r != [] && r[|r| - 1] != '\n'
    ensures Lines(r) == RecordLines(r)
    decreases |r|
  {
    var i := BreakAt(r);
    if i == |r| {
      OneLine(r);
      assert r[..i] == r && r[i..] == [];
    } else {
      FirstLine(r, i);
      assert r[i] == '\n';
      LinesWithoutLineEnd(r[i + 1..]);
    }
  }

  lemma MarkerAtTheEnd()
    ensures Lines(SEPARATOR) == [SEPARATOR]
  {
    SeparatorIsOneLine();
    OneLineRecord(SEPARATOR);
    LinesWithoutLineEnd(SEPARATOR);
  }

  lemma MarkedRecordComesBack(sent: seq<string>, r: string)
    requires Printable(r)
    ensures ReplayedAfter(sent, r + ("\n" + SEPARATOR)) == sent + [r]
  {
    LinesOfRecord(r, SEPARATOR);
    MarkerAtTheEnd();
    FeedConcat(State([], sent), RecordLines(r), [SEPARATOR]);
    FeedRecord(sent, r);
    FeedSeparator(r, sent, []);
    assert [SEPARATOR] + [] == [SEPARATOR];
    NothingBuffered(sent + [r]);
  }

  lemma NothingBuffered(sent: seq<string>)
    ensures Published(FeedAll(State([], sent), [])) == sent
  {
  }

  lemma LastRecordComesBack(sent: seq<string>, r: string, end: Ending)
    requires Printable(r) && !end.Separated?
    ensures ReplayedAfter(sent, Print([r], end)) == sent + [r]
  {
    FeedRecord(sent, r);
    FeedSeparator(r, sent, []);
    if end.Bare? {
      LinesWithoutLineEnd(r);
    } else if end.Marker? {
      MarkedRecordComesBack(sent, r);
    } else {
      LinesOfRecord(r, []);
      assert r + ("\n" + []) == r + "\n" && RecordLines(r) + [] == RecordLines(r);
    }
  }

  lemma SeparatedRecordComesBack(sent: seq<string>, r: string, after: string)
    requires Printable(r)
    ensures FeedAll(State([], sent), Lines(r + ("\n" + (SEPARATOR + ("\n" + after)))))
         == FeedAll(State([], sent + [r]), Lines(after))
  {
    var lines := Lines(after);
    LinesOfRecord(r, SEPARATOR + ("\n" + after));
    SeparatorIsALine(after);
    FeedConcat(State([], sent), RecordLines(r), [SEPARATOR] + lines);
    FeedRecord(sent, r);
    FeedSeparator(r, sent, lines);
  }

  lemma PrintFirst(records: seq<string>, end: Ending)
    requires |records| > 1 || (|records| == 1 && end.Separated?)
    ensures Print(records, end) == records[0] + ("\n" + (SEPARATOR + ("\n" + Print(records[1..], end))))
  {
  }

  lemma FirstRecordComesBack(sent: seq<string>, records: seq<string>, end: Ending)
    requires |records| > 1 || (|records| == 1 && end.Separated?)
    requires Printable(records[0])
    ensures ReplayedAfter(sent, Print(records, end)) == ReplayedAfter(sent + [records[0]], Print(records[1..], end))
  {
    PrintFirst(records, end);
    SeparatedRecordComesBack(sent, records[0], Print(records[1..], end));
  }

  lemma NothingPrinted(sent: seq<string>, end: Ending)
    ensures ReplayedAfter(sent, Print([], end)) == sent
  {
  }

  lemma TailIsPrintable(records: seq<string>)
    requires records != [] && AllPrintable(records)
    ensures Printable(records[0]) && AllPrintable(records[1..])
  {
  }

  lemma FirstThenRest(sent: seq<string>, records: seq<string>)
    requires records != []
    ensures sent + [records[0]] + records[1..] == sent + records
  {
  }

  lemma {:induction false} PrintedRecordsComeBack(sent: seq<string>, records: seq<string>, end: Ending)
    requires AllPrintable(records)
    ensures ReplayedAfter(sent, Print(records, end)) == sent + records
    decreases |records|
  {
    if records == [] {
      NothingPrinted(sent, end);
    } else {
      TailIsPrintable(records);
      FirstThenRest(sent, records);
      if |records| == 1 && !end.Separated? {
        assert records == [records[0]];
        LastRecordComesBack(sent, records[0], end);
      } else {
        FirstRecordComesBack(sent, records, end);
        PrintedRecordsComeBack(sent + [records[0]], records[1..], end);
      }
    }
  }

  /** Splitting undoes printing, however the file ends. */
  lemma SplittingUndoesPrinting(records: seq<string>, end: Ending)
    requires AllPrintable(records)
    ensures Replayed(Print(records, end)) == records
  {
    PrintedRecordsComeBack([], records, end);
  }

  // ---------- several files ----------

  /** One pass over the seed files, in order. */
  method ReplayFiles(files: seq<string>) returns (sent: seq<string>)
    ensures sent == Concat(ReplayedEach(files))
  {
    sent := [];
    for i := 0 to |files|
      invariant sent == Concat(ReplayedEach(files[..i]))
    {
      var more := ReplayFile(files[i]);
      assert ReplayedEach(files[..i + 1])[..i] == ReplayedEach(files[..i]);
      sent := sent + more;
    }
    assert files[..|files|] == files;
  }

  function ReplayedEach(files: seq<string>): seq<seq<string>> {
    seq(|files|, i requires 0 <= i < |files| => Replayed(files[i]))
  }

  /** However the records are cut into files, and however each file ends. */
  lemma AnyCutReplaysTheSame(groups: seq<seq<string>>, ends: seq<Ending>, files: seq<string>)
    requires |groups| == |ends| == |files|
    requires forall k :: 0 <= k < |groups| ==> AllPrintable(groups[k]) && files[k] == Print(groups[k], ends[k])
    ensures Concat(ReplayedEach(files)) == Concat(groups)
  {
    forall k | 0 <= k < |groups| ensures Replayed(files[k]) == groups[k] {
      SplittingUndoesPrinting(groups[k], ends[k]);
    }
    assert ReplayedEach(files) == groups;
  }
}
