/**
 The files of a diagnostic bundle: text files are redacted record by record, and files that would make
 the bundle too large are left out.
 */
module DiagnosticFiles {
  import opened Wrappers
  import opened Bytes
  import opened Characters
  import opened Redaction
  import opened DiagnosticRecords

  // ---------------------------------------------------------------------------------------------
  // Records
  // ---------------------------------------------------------------------------------------------

  /** Reading and writing one-line JSON, which are not part of this model. */
  datatype JsonText = JsonText(parse: string -> Option<Json>, write: Json -> string)

  function TrimEnd(record: string): (line: string)
    ensures |line| <= |record| && line == record[..|line|]
    ensures line != "" ==> line[|line| - 1] != '\r' && line[|line| - 1] != '\n'
    decreases |record|
  {
    if record != "" && (record[|record| - 1] == '\r' || record[|record| - 1] == '\n')
    then TrimEnd(record[..|record| - 1])
    else record
  }

  function RedactLine(json: JsonText, roots: seq<string>, line: string): string {
    match json.parse(line)
    case Some(v) => json.write(RedactJson(v, roots))
    case None => RedactString(line, roots)
  }

  function RedactRecord(json: JsonText, roots: seq<string>, record: string): string {
    RedactLine(json, roots, TrimEnd(record)) + if EndsLine(record) then "\n" else ""
  }

  predicate EndsLine(record: string) {
    record != "" && record[|record| - 1] == '\n'
  }

  /** Where the record that starts at a position ends: behind its newline, or at the end of the text. */
  function RecordEnd(text: string, from: nat): (end: nat)
    requires from < |text|
    ensures from < end <= |text|
  {
    match FirstChar(text, '\n', from)
    case None => |text|
    case Some(newline) => newline + 1
  }

  /** The redacted records behind a position. */
  function RedactFrom(json: JsonText, roots: seq<string>, text: string, from: nat): seq<string>
    decreases |text| - from
  {
    if from >= |text| then []
    else
      var end := RecordEnd(text, from);
      [RedactRecord(json, roots, text[from..end])] + RedactFrom(json, roots, text, end)
  }

  function Concat(parts: seq<string>): string {
    if parts == [] then "" else parts[0] + Concat(parts[1..])
  }

  lemma ConcatStep(output: string, part: string, parts: seq<string>)
    ensures output + Concat([part] + parts) == output + part + Concat(parts)
  {
    assert ([part] + parts)[1..] == parts;
  }

  method RedactTextRecords(json: JsonText, roots: seq<string>, text: string) returns (output: string)
    ensures output == Concat(RedactFrom(json, roots, text, 0))
  {
    output := "";
    var from := 0;
    while from < |text|
      invariant from <= |text|
      invariant Concat(RedactFrom(json, roots, text, 0)) == output + Concat(RedactFrom(json, roots, text, from))
      decreases |text| - from
    {
      var end := RecordEnd(text, from);
      var record := RedactRecord(json, roots, text[from..end]);
      assert RedactFrom(json, roots, text, from) == [record] + RedactFrom(json, roots, text, end);
      ConcatStep(output, record, RedactFrom(json, roots, text, end));
      output := output + record;
      from := end;
    }
  }

  ghost predicate OneLine(s: string) {
    forall i :: 0 <= i < |s| ==> s[i] != '\n'
  }

  /** What a redacted line is: clean text, or the text of a clean value. */
  ghost predicate CleanLine(json: JsonText, roots: seq<string>, line: string) {
    CleanString(line, roots) || exists v :: CleanJson(v, roots) && line == json.write(v)
  }

  lemma LinesAreClean(json: JsonText, roots: seq<string>, line: string)
    requires forall r <- roots :: IsPrivateRoot(r)
    ensures CleanLine(json, roots, RedactLine(json, roots, line))
  {
    match json.parse(line)
    case Some(v) => RedactJsonCleans(v, roots);
    case None => RedactStringCleans(line, roots);
  }

  lemma OneLineIsAbsent(s: string)
    ensures OneLine(s) <==> Absent(s, "\n")
  {
    if OneLine(s) {
      forall p: nat ensures !MatchesAt(s, "\n", p) {
        if p < |s| {
          assert Lower(s[p + 0]) != Lower("\n"[0]);
        }
      }
    } else {
      var i :| 0 <= i < |s| && s[i] == '\n';
      assert MatchesAt(s, "\n", i);
    }
  }

  /** Redaction does not break a line in two. */
  lemma RedactedLineIsOneLine(json: JsonText, roots: seq<string>, line: string)
    requires OneLine(line) && forall v :: OneLine(json.write(v))
    ensures OneLine(RedactLine(json, roots, line))
  {
    if json.parse(line).None? {
      OneLineIsAbsent(line);
      OneLineIsAbsent(PROFILE);
      OneLineIsAbsent(MASK);
      ReplaceRootsKeepAbsent(line, roots, "\n");
      RedactTextKeepsAbsent(ReplaceRoots(line, roots), "\n");
      OneLineIsAbsent(RedactString(line, roots));
    }
  }

  function LineOf(record: string): string {
    if EndsLine(record) then record[..|record| - 1] else record
  }

  ghost predicate CleanRecord(json: JsonText, roots: seq<string>, record: string) {
    OneLine(LineOf(record)) && CleanLine(json, roots, LineOf(record))
  }

  /** Clean records, of which every one but the last ends its line. */
  ghost predicate CleanRecords(json: JsonText, roots: seq<string>, records: seq<string>) {
    records == []
    || (CleanRecord(json, roots, records[0]) && (|records| > 1 ==> EndsLine(records[0]))
        && CleanRecords(json, roots, records[1..]))
  }

  lemma MoreCleanRecords(json: JsonText, roots: seq<string>, record: string, records: seq<string>)
    requires CleanRecord(json, roots, record) && (records != [] ==> EndsLine(record))
    requires CleanRecords(json, roots, records)
    ensures CleanRecords(json, roots, [record] + records)
  {
    assert ([record] + records)[1..] == records;
  }

  lemma RecordIsClean(json: JsonText, roots: seq<string>, record: string)
    requires (forall r <- roots :: IsPrivateRoot(r)) && (forall v :: OneLine(json.write(v))) && OneLine(LineOf(record))
    ensures CleanRecord(json, roots, RedactRecord(json, roots, record))
    ensures EndsLine(RedactRecord(json, roots, record)) <==> EndsLine(record)
  {
    var line := TrimEnd(record);
    TrimmedIsOneLine(record);
    LinesAreClean(json, roots, line);
    RedactedLineIsOneLine(json, roots, line);
    assert LineOf(RedactRecord(json, roots, record)) == RedactLine(json, roots, line);
  }

  lemma TrimmedIsOneLine(record: string)
    requires OneLine(LineOf(record))
    ensures OneLine(TrimEnd(record))
  {
    var line := TrimEnd(record);
    assert forall i :: 0 <= i < |line| ==> line[i] == record[i];
  }

  /**
   Every record of a redacted file is one clean line, and every record but the last one ends its line,
   as long as JSON values are written in one line.
   */
  lemma {:induction false} RecordsAreClean(json: JsonText, roots: seq<string>, text: string, from: nat)
    requires (forall r <- roots :: IsPrivateRoot(r)) && (forall v :: OneLine(json.write(v)))
    ensures CleanRecords(json, roots, RedactFrom(json, roots, text, from))
    decreases |text| - from
  {
    if from < |text| {
      var end := RecordEnd(text, from);
      RecordIsOneLine(text, from);
      RecordIsClean(json, roots, text[from..end]);
      RecordsAreClean(json, roots, text, end);
      assert RedactFrom(json, roots, text, end) != [] ==> end < |text|;
      MoreCleanRecords(json, roots, RedactRecord(json, roots, text[from..end]), RedactFrom(json, roots, text, end));
    }
  }

  lemma RecordIsOneLine(text: string, from: nat)
    requires from < |text|
    ensures var end := RecordEnd(text, from);
            OneLine(LineOf(text[from..end])) && (end < |text| ==> EndsLine(text[from..end]))
  {
    NoneBeforeFirst(text, '\n', from);
    var end := RecordEnd(text, from);
    forall i | 0 <= i < |LineOf(text[from..end])| ensures LineOf(text[from..end])[i] != '\n' {
      assert text[from..end][i] == text[from + i];
    }
  }

  // ---------------------------------------------------------------------------------------------
  // Line by line
  // ---------------------------------------------------------------------------------------------

  /** A line as it is redacted: a JSON value is read, redacted and written, and any other text is a string. */
  ghost predicate LineBecomes(json: JsonText, roots: seq<string>, line: string, redacted: string) {
    redacted == match json.parse(line)
                case Some(v) => json.write(RedactJson(v, roots))
                case None => RedactString(line, roots)
  }

  ghost predicate OnlyReturns(cr: string) {
    forall i :: 0 <= i < |cr| ==> cr[i] == '\r'
  }

  lemma {:induction false} TrimmedReturns(line: string, cr: string)
    requires OnlyReturns(cr) && (line == "" || line[|line| - 1] !in {'\r', '\n'})
    ensures TrimEnd(line + cr) == line && TrimEnd(line + cr + "\n") == line
    decreases |cr|
  {
    var record := line + cr;
    assert (record + "\n")[..|record|] == record;
    if cr == "" {
      assert record == line;
    } else {
      assert record[..|record| - 1] == line + cr[..|cr| - 1];
      TrimmedReturns(line, cr[..|cr| - 1]);
    }
  }

  /** The records behind a position as they stand. */
  function Records(text: string, from: nat): seq<string>
    decreases |text| - from
  {
    if from >= |text| then [] else [text[from..RecordEnd(text, from)]] + Records(text, RecordEnd(text, from))
  }

  function RedactEach(json: JsonText, roots: seq<string>, records: seq<string>): seq<string> {
    if records == [] then [] else [RedactRecord(json, roots, records[0])] + RedactEach(json, roots, records[1..])
  }

  lemma {:induction false} EachIsRedacted(json: JsonText, roots: seq<string>, text: string, from: nat)
    ensures RedactFrom(json, roots, text, from) == RedactEach(json, roots, Records(text, from))
    decreases |text| - from
  {
    if from < |text| {
      var end := RecordEnd(text, from);
      EachIsRedacted(json, roots, text, end);
      assert Records(text, from)[1..] == Records(text, end);
    }
  }

  lemma {:induction false} RecordsShift(text: string, m: nat, rest: string, from: nat)
    requires m <= |text| && rest == text[m..] && from <= |rest|
    ensures Records(text, m + from) == Records(rest, from)
    decreases |rest| - from
  {
    if from < |rest| {
      EndBehind(text, m, rest, from);
      RecordsShift(text, m, rest, RecordEnd(rest, from));
    }
  }

  lemma RecordsBehind(json: JsonText, roots: seq<string>, text: string, m: nat, rest: string)
    requires m <= |text| && rest == text[m..]
    ensures RedactFrom(json, roots, text, m) == RedactFrom(json, roots, rest, 0)
  {
    EachIsRedacted(json, roots, text, m);
    EachIsRedacted(json, roots, rest, 0);
    RecordsShift(text, m, rest, 0);
  }

  lemma EndBehind(text: string, m: nat, rest: string, from: nat)
    requires m <= |text| && rest == text[m..] && from < |rest|
    ensures RecordEnd(text, m + from) == m + RecordEnd(rest, from)
    ensures text[m + from..m + RecordEnd(rest, from)] == rest[from..RecordEnd(rest, from)]
  {
    var newline := FirstChar(rest, '\n', from);
    NoneBeforeFirst(rest, '\n', from);
    var at := if newline.Some? then newline.value else |rest|;
    forall i | m + from <= i < m + at ensures text[i] != '\n' {
      assert text[i] == rest[i - m];
    }
    FirstCharIsFirst(text, '\n', m + from, m + at);
  }

  /** A line is redacted on its own and keeps its newline; carriage cr in front of that are dropped. */
  lemma FirstLineIsRedacted(json: JsonText, roots: seq<string>, line: string, cr: string, rest: string)
    returns (redacted: string)
    requires OneLine(line) && (line == "" || line[|line| - 1] != '\r') && OnlyReturns(cr)
    ensures LineBecomes(json, roots, line, redacted)
    ensures Concat(RedactFrom(json, roots, line + cr + "\n" + rest, 0))
         == redacted + "\n" + Concat(RedactFrom(json, roots, rest, 0))
  {
    var record := line + cr + "\n";
    var text := record + rest;
    redacted := RedactLine(json, roots, line);
    NoNewline(line, cr);
    FirstRecord(line + cr, rest);
    TrimmedReturns(line, cr);
    assert text[0..|record|] == record && text[|record|..] == rest;
    RecordsBehind(json, roots, text, |record|, rest);
    var later := RedactFrom(json, roots, rest, 0);
    assert RedactRecord(json, roots, record) == redacted + "\n";
    assert RedactFrom(json, roots, text, 0) == [redacted + "\n"] + later;
    assert ([redacted + "\n"] + later)[1..] == later;
  }

  lemma NoNewline(line: string, cr: string)
    requires OneLine(line) && OnlyReturns(cr)
    ensures OneLine(line + cr)
  {
  }

  lemma FirstRecord(line: string, rest: string)
    requires OneLine(line)
    ensures RecordEnd(line + "\n" + rest, 0) == |line| + 1
  {
    var text := line + "\n" + rest;
    forall i | 0 <= i < |line| ensures text[i] != '\n' {
      assert text[i] == line[i];
    }
    FirstCharIsFirst(text, '\n', 0, |line|);
  }

  /** The last line may lack its newline; an empty text stays empty. */
  lemma LastLineIsRedacted(json: JsonText, roots: seq<string>, line: string, cr: string)
    returns (redacted: string)
    requires OneLine(line) && (line == "" || line[|line| - 1] != '\r') && OnlyReturns(cr)
    ensures LineBecomes(json, roots, line, redacted)
    ensures Concat(RedactFrom(json, roots, line + cr, 0)) == if line + cr == "" then "" else redacted
  {
    var text := line + cr;
    redacted := RedactLine(json, roots, line);
    TrimmedReturns(line, cr);
    if text != "" {
      NoNewline(line, cr);
      FirstCharIsFirst(text, '\n', 0, |text|);
      assert text[0..|text|] == text && RedactFrom(json, roots, text, |text|) == [];
      assert redacted + "" == redacted;
    }
  }

  // ---------------------------------------------------------------------------------------------
  // The size of a bundle
  // ---------------------------------------------------------------------------------------------

  const MAX_BUNDLE_BYTES := 64 * 1024 * 1024
  const MAX_FILE_BYTES := MAX_BUNDLE_BYTES - 1024 * 1024

  datatype CollectedFile = CollectedFile(path: string, size: u64)

  datatype Selection = Selection(kept: seq<CollectedFile>, omitted: seq<string>)

  function TotalSize(files: seq<CollectedFile>): nat {
    if files == [] then 0 else TotalSize(files[..|files| - 1]) + files[|files| - 1].size
  }

  function OmissionNote(f: CollectedFile): string {
    f.path + ":bundle_limit"
  }

  lemma TotalStep(files: seq<CollectedFile>, f: CollectedFile)
    ensures TotalSize(files + [f]) == TotalSize(files) + f.size
  {
    assert (files + [f])[..|files|] == files;
  }

  /** Files are taken in order, and one that does not fit any more is passed over. */
  function Select(files: seq<CollectedFile>): Selection {
    if files == [] then Selection([], [])
    else
      var f, before := files[|files| - 1], Select(files[..|files| - 1]);
      if TotalSize(before.kept) + f.size <= MAX_FILE_BYTES then before.(kept := before.kept + [f])
      else before.(omitted := before.omitted + [OmissionNote(f)])
  }

  function SaturatingAdd(a: u64, b: u64): u64 {
    Min(a + b, U64_MAX)
  }

  method EnforceTotalLimit(files: seq<CollectedFile>) returns (kept: seq<CollectedFile>, omitted: seq<string>)
    ensures Selection(kept, omitted) == Select(files)
  {
    var total: u64 := 0;
    kept, omitted := [], [];
    for i := 0 to |files|
      invariant Selection(kept, omitted) == Select(files[..i]) && total == TotalSize(kept) <= MAX_FILE_BYTES
    {
      var f := files[i];
      assert files[..i + 1][..i] == files[..i];
      if SaturatingAdd(total, f.size) <= MAX_FILE_BYTES {
        total := SaturatingAdd(total, f.size);
        TotalStep(kept, f);
        kept := kept + [f];
      } else {
        omitted := omitted + [OmissionNote(f)];
      }
    }
    assert files[..|files|] == files;
  }

  lemma {:induction false} SelectionFits(files: seq<CollectedFile>)
    ensures TotalSize(Select(files).kept) <= MAX_FILE_BYTES
    decreases |files|
  {
    if files != [] {
      SelectionFits(files[..|files| - 1]);
      TotalStep(Select(files[..|files| - 1]).kept, files[|files| - 1]);
    }
  }

  lemma {:induction false} EverythingKept(files: seq<CollectedFile>)
    requires TotalSize(files) <= MAX_FILE_BYTES
    ensures Select(files) == Selection(files, [])
    decreases |files|
  {
    if files != [] {
      EverythingKept(files[..|files| - 1]);
      assert files[..|files| - 1] + [files[|files| - 1]] == files;
    }
  }

  lemma {:induction false} NothingOmitted(files: seq<CollectedFile>)
    requires Select(files).omitted == []
    ensures Select(files).kept == files
    decreases |files|
  {
    if files != [] {
      var f, front := files[|files| - 1], files[..|files| - 1];
      assert |Select(front).omitted + [OmissionNote(f)]| > 0;
      NothingOmitted(front);
      assert Select(files).kept == front + [f];
    }
  }

  /** The kept files fit, and nothing is left out exactly when everything fits together. */
  lemma SelectionExactly(files: seq<CollectedFile>)
    ensures TotalSize(Select(files).kept) <= MAX_FILE_BYTES
    ensures Select(files).omitted == [] <==> TotalSize(files) <= MAX_FILE_BYTES
  {
    SelectionFits(files);
    if TotalSize(files) <= MAX_FILE_BYTES {
      EverythingKept(files);
    }
    if Select(files).omitted == [] {
      NothingOmitted(files);
    }
  }

  // The selection, said by marking files

  /** The files with a mark, in order, and the notes on the others. */
  function Marked(files: seq<CollectedFile>, marks: seq<bool>): seq<CollectedFile>
    requires |marks| == |files|
  {
    if files == [] then []
    else
      var last := |files| - 1;
      Marked(files[..last], marks[..last]) + if marks[last] then [files[last]] else []
  }

  function Unmarked(files: seq<CollectedFile>, marks: seq<bool>): seq<string>
    requires |marks| == |files|
  {
    if files == [] then []
    else
      var last := |files| - 1;
      Unmarked(files[..last], marks[..last]) + if marks[last] then [] else [files[last].path + ":bundle_limit"]
  }

  /** A file has a mark exactly when it fits 63 MiB together with the marked files in front of it. */
  ghost predicate MarksFit(files: seq<CollectedFile>, marks: seq<bool>) {
    && |marks| == |files|
    && forall i :: 0 <= i < |files| ==>
         (marks[i] <==> TotalSize(Marked(files[..i], marks[..i])) + files[i].size <= 66_060_288)
  }

  /**
   Every file is kept that fits together with the kept files in front of it, also behind one that does
   not; the others are noted. The marks are the only ones of this kind.
   */
  lemma {:induction false} SelectionIsGreedy(files: seq<CollectedFile>) returns (marks: seq<bool>)
    ensures MarksFit(files, marks) && Select(files) == Selection(Marked(files, marks), Unmarked(files, marks))
    decreases |files|
  {
    if files == [] {
      marks := [];
    } else {
      var last := |files| - 1;
      var front := files[..last];
      var before := SelectionIsGreedy(front);
      var fits := TotalSize(Select(front).kept) + files[last].size <= MAX_FILE_BYTES;
      marks := before + [fits];
      assert marks[..last] == before && marks[last] == fits;
      MoreMarksFit(files, before, marks);
    }
  }

  lemma MoreMarksFit(files: seq<CollectedFile>, before: seq<bool>, marks: seq<bool>)
    requires files != [] && MarksFit(files[..|files| - 1], before) && |marks| == |files|
    requires marks[..|files| - 1] == before
    requires var last := |files| - 1;
             marks[last] <==> TotalSize(Marked(files[..last], before)) + files[last].size <= 66_060_288
    ensures MarksFit(files, marks)
  {
    var last := |files| - 1;
    var front := files[..last];
    forall i | 0 <= i < |files|
      ensures marks[i] <==> TotalSize(Marked(files[..i], marks[..i])) + files[i].size <= 66_060_288
    {
      if i < last {
        assert files[..i] == front[..i] && marks[..i] == before[..i];
      }
    }
  }

  lemma {:induction false} MarksAreUnique(files: seq<CollectedFile>, a: seq<bool>, b: seq<bool>)
    requires MarksFit(files, a) && MarksFit(files, b)
    ensures a == b
    decreases |files|
  {
    if files != [] {
      var last := |files| - 1;
      FrontMarksFit(files, a);
      FrontMarksFit(files, b);
      MarksAreUnique(files[..last], a[..last], b[..last]);
      SameLast(files, a, b);
    }
  }

  lemma SameLast(files: seq<CollectedFile>, a: seq<bool>, b: seq<bool>)
    requires files != [] && MarksFit(files, a) && MarksFit(files, b) && a[..|files| - 1] == b[..|files| - 1]
    ensures a == b
  {
    var last := |files| - 1;
    assert a[last] <==> TotalSize(Marked(files[..last], a[..last])) + files[last].size <= 66_060_288;
    assert b[last] <==> TotalSize(Marked(files[..last], a[..last])) + files[last].size <= 66_060_288;
    forall i | 0 <= i < |files| ensures a[i] == b[i] {
      assert i < last ==> a[i] == a[..last][i] && b[i] == b[..last][i];
    }
  }

  lemma FrontMarksFit(files: seq<CollectedFile>, marks: seq<bool>)
    requires files != [] && MarksFit(files, marks)
    ensures MarksFit(files[..|files| - 1], marks[..|files| - 1])
  {
    var last := |files| - 1;
    var front, before := files[..last], marks[..last];
    forall i | 0 <= i < last
      ensures before[i] <==> TotalSize(Marked(front[..i], before[..i])) + front[i].size <= 66_060_288
    {
      assert front[..i] == files[..i] && before[..i] == marks[..i];
    }
  }
}
