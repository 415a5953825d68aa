/**
 * The row loop of `import_real_questions_from_csv`: skip rows lacking a
 * subject, question text or correct option, trim every field, default the
 * section and passage columns, and count what is inserted.
 */
module Import {
  import opened Wrappers

  /** Python's `str.isspace`, the characters `str.strip()` removes. */
  predicate IsSpace(c: char) {
    var n := c as int;
    || 0x09 <= n <= 0x0D || 0x1C <= n <= 0x20 || n == 0x85 || n == 0xA0
    || n == 0x1680 || 0x2000 <= n <= 0x200A || n == 0x2028 || n == 0x2029
    || n == 0x202F || n == 0x205F || n == 0x3000
  }

  /** `s` with its leading whitespace removed. */
  function TrimStart(s: string): (r: string)
    ensures |r| <= |s|
  {
    if s != [] && IsSpace(s[0]) then TrimStart(s[1..]) else s
  }

  /** `TrimStart` drops a prefix of whitespace and stops at a non-space. */
  lemma TrimStartSpec(s: string)
    ensures var r := TrimStart(s);
            && |r| <= |s| && r == s[|s| - |r|..]
            && (r == [] || !IsSpace(r[0]))
            && forall i :: 0 <= i < |s| - |r| ==> IsSpace(s[i])
  {
    if s != [] && IsSpace(s[0]) {
      var t, r := s[1..], TrimStart(s);
      TrimStartSpec(t);
      assert r == TrimStart(t);
      assert t[|t| - |r|..] == s[|s| - |r|..];
      forall i | 0 < i < |s| - |r| ensures IsSpace(s[i]) {
        assert s[i] == t[i - 1];
      }
    }
  }

  /** `s` with its trailing whitespace removed. */
  function TrimEnd(s: string): (r: string)
    ensures |r| <= |s|
  {
    if s != [] && IsSpace(s[|s| - 1]) then TrimEnd(s[..|s| - 1]) else s
  }

  /** `TrimEnd` drops a suffix of whitespace and stops at a non-space. */
  lemma TrimEndSpec(s: string)
    ensures var r := TrimEnd(s);
            && |r| <= |s| && r == s[..|r|]
            && (r == [] || !IsSpace(r[|r| - 1]))
            && forall i :: |r| <= i < |s| ==> IsSpace(s[i])
  {
    if s != [] && IsSpace(s[|s| - 1]) {
      var t, r := s[..|s| - 1], TrimEnd(s);
      TrimEndSpec(t);
      assert r == TrimEnd(t);
      assert t[..|r|] == s[..|r|];
      forall i | |r| <= i < |s| - 1 ensures IsSpace(s[i]) {
        assert s[i] == t[i];
      }
    }
  }

  /** Neither starts nor ends with whitespace. */
  predicate IsTrimmed(s: string) {
    s == [] || (!IsSpace(s[0]) && !IsSpace(s[|s| - 1]))
  }

  /** Python's `s.strip()`. */
  function Strip(s: string): (r: string)
    ensures |r| <= |s|
    ensures s == [] ==> r == []
  {
    TrimEnd(TrimStart(s))
  }

  /**
   * `strip()` keeps a contiguous middle part of `s` that starts and ends
   * with a non-space, and removes only whitespace around it.
   */
  lemma StripSpec(s: string)
    ensures IsTrimmed(Strip(s))
    ensures exists i, j :: 0 <= i <= j <= |s| && Strip(s) == s[i..j]
              && (forall k :: 0 <= k < i ==> IsSpace(s[k]))
              && (forall k :: j <= k < |s| ==> IsSpace(s[k]))
  {
    var t := TrimStart(s);
    var r := TrimEnd(t);
    TrimStartSpec(s);
    TrimEndSpec(t);
    assert r != [] ==> r[0] == t[0];
    var i := |s| - |t|;
    var j := i + |r|;
    assert r == s[i..j];
    forall k | j <= k < |s| ensures IsSpace(s[k]) {
      assert s[k] == t[k - i];
    }
  }

  /** Stripping twice is stripping once. */
  lemma StripIdempotent(s: string)
    ensures Strip(Strip(s)) == Strip(s)
  {
    var r := Strip(s);
    StripSpec(s);
    assert TrimStart(r) == r;
    assert TrimEnd(r) == r;
  }

  /** The header names the import reads. */
  datatype Column =
    | SubjectCol       // "subject"
    | SectionCol       // "section"
    | PassageCol       // "passage_text"
    | QuestionTextCol  // "question_text"
    | OptionACol       // "option_a"
    | OptionBCol       // "option_b"
    | OptionCCol       // "option_c"
    | OptionDCol       // "option_d"
    | CorrectCol       // "correct_option"

  /**
   * A CSV record as `csv.DictReader` yields it, restricted to the columns
   * the import reads: column to cell text.
   */
  type Row = map<Column, string>

  /** The section of a row without a `section` column. */
  const DefaultSection: string := "قسم عام"

  /** The values of one INSERT, in column order (the id is assigned by the table). */
  datatype NewQuestion = NewQuestion(
    subject: string,
    section: string,
    passage: string,
    text: string,
    optionA: string,
    optionB: string,
    optionC: string,
    optionD: string,
    correct: string)

  /**
   * The import stops at a row lacking an option column (a `KeyError`);
   * nothing is committed. The exception names only the column; the model
   * also records the row's `row_num`, the record number of the reader.
   */
  datatype ImportError = MissingColumn(rowNumber: int, column: Column)

  /** The result of a completed import: the rows inserted and `inserted_count`. */
  datatype ImportReport = ImportReport(inserted: seq<NewQuestion>, count: nat)

  /** `row.get(key)` is truthy: present and non-empty. */
  predicate Truthy(row: Row, key: Column) {
    key in row && row[key] != ""
  }

  /** The row passes the check for the three required columns. */
  predicate HasRequired(row: Row) {
    Truthy(row, SubjectCol) && Truthy(row, QuestionTextCol) && Truthy(row, CorrectCol)
  }

  /** `row.get(key, default)`. */
  function CellOr(row: Row, key: Column, default: string): string {
    if key in row then row[key] else default
  }

  /** The first option column, in insert order, that the row lacks. */
  function MissingOption(row: Row): Option<Column> {
    if OptionACol !in row then Some(OptionACol)
    else if OptionBCol !in row then Some(OptionBCol)
    else if OptionCCol !in row then Some(OptionCCol)
    else if OptionDCol !in row then Some(OptionDCol)
    else None
  }

  /** The option columns in the order the INSERT reads them. */
  const OptionColumns: seq<Column> := [OptionACol, OptionBCol, OptionCCol, OptionDCol]

  /**
   * `MissingOption` finds the first option column, in insert order, that
   * the row lacks: the one whose lookup raises the `KeyError`.
   */
  lemma MissingOptionIsFirst(row: Row)
    ensures MissingOption(row).None? <==> forall k :: 0 <= k < |OptionColumns| ==> OptionColumns[k] in row
    ensures MissingOption(row).Some? ==>
              exists k :: 0 <= k < |OptionColumns| && OptionColumns[k] == MissingOption(row).value
                          && OptionColumns[k] !in row
                          && forall j :: 0 <= j < k ==> OptionColumns[j] in row
  {
    if MissingOption(row).Some? {
      var k := if OptionACol !in row then 0 else if OptionBCol !in row then 1 else if OptionCCol !in row then 2 else 3;
      assert OptionColumns[k] == MissingOption(row).value;
    } else {
      forall k | 0 <= k < |OptionColumns|
        ensures OptionColumns[k] in row
      {
        assert k == 0 || k == 1 || k == 2 || k == 3;
      }
    }
  }

  /** Whether every value of the insert is whitespace-trimmed. */
  predicate AllTrimmed(q: NewQuestion) {
    && IsTrimmed(q.subject) && IsTrimmed(q.section) && IsTrimmed(q.passage) && IsTrimmed(q.text)
    && IsTrimmed(q.optionA) && IsTrimmed(q.optionB) && IsTrimmed(q.optionC) && IsTrimmed(q.optionD)
    && IsTrimmed(q.correct)
  }

  /** The INSERT values of a row that has every column it is indexed by. */
  function Insert(row: Row): (r: NewQuestion)
    requires HasRequired(row) && MissingOption(row).None?
    ensures |r.subject| <= |row[SubjectCol]| && |r.text| <= |row[QuestionTextCol]| && |r.correct| <= |row[CorrectCol]|
    ensures PassageCol !in row ==> r.passage == ""
  {
    NewQuestion(
      Strip(row[SubjectCol]),
      Strip(CellOr(row, SectionCol, DefaultSection)),
      Strip(CellOr(row, PassageCol, "")),
      Strip(row[QuestionTextCol]),
      Strip(row[OptionACol]),
      Strip(row[OptionBCol]),
      Strip(row[OptionCCol]),
      Strip(row[OptionDCol]),
      Strip(row[CorrectCol]))
  }

  /** The INSERT values for an accepted row, or the column whose lookup fails. */
  function Normalize(row: Row): (r: Result<NewQuestion, Column>)
    requires HasRequired(row)
    ensures r.Err? <==> MissingOption(row).Some?
    ensures r.Err? ==> r.error == MissingOption(row).value
    ensures r.Ok? ==> r.value == Insert(row)
    ensures r.Err? <==> exists k :: 0 <= k < |OptionColumns| && OptionColumns[k] !in row
    ensures r.Err? ==>
              exists k :: 0 <= k < |OptionColumns| && OptionColumns[k] == r.error && r.error !in row
                          && forall j :: 0 <= j < k ==> OptionColumns[j] in row
  {
    MissingOptionIsFirst(row);
    match MissingOption(row)
    case Some(column) => Err(column)
    case None => Ok(Insert(row))
  }

  /** Every value of an insert is whitespace-trimmed. */
  lemma InsertTrimmed(row: Row)
    requires HasRequired(row) && MissingOption(row).None?
    ensures AllTrimmed(Insert(row))
  {
    StripSpec(row[SubjectCol]);
    StripSpec(CellOr(row, SectionCol, DefaultSection));
    StripSpec(CellOr(row, PassageCol, ""));
    StripSpec(row[QuestionTextCol]);
    StripSpec(row[OptionACol]);
    StripSpec(row[OptionBCol]);
    StripSpec(row[OptionCCol]);
    StripSpec(row[OptionDCol]);
    StripSpec(row[CorrectCol]);
  }

  /**
   * Section and passage take their defaults only when the column is
   * absent; a present but blank cell stays empty.
   */
  lemma InsertDefaults(row: Row)
    requires HasRequired(row) && MissingOption(row).None?
    ensures var q := Insert(row);
            && (SectionCol !in row ==> q.section == DefaultSection)
            && (SectionCol in row ==> q.section == Strip(row[SectionCol]))
            && (PassageCol !in row ==> q.passage == "")
            && (PassageCol in row ==> q.passage == Strip(row[PassageCol]))
  {
    if SectionCol !in row {
      DefaultSectionTrimmed();
    }
  }

  /** The default section has no surrounding whitespace. */
  lemma DefaultSectionTrimmed()
    ensures Strip(DefaultSection) == DefaultSection
  {
    assert !IsSpace(DefaultSection[0]);
    assert TrimStart(DefaultSection) == DefaultSection;
    assert !IsSpace(DefaultSection[|DefaultSection| - 1]);
    assert TrimEnd(DefaultSection) == DefaultSection;
  }

  /** The row lacks none of the option columns. */
  predicate Complete(row: Row) {
    MissingOption(row).None?
  }

  /** A cell made only of whitespace strips to the empty string. */
  lemma StripAllSpaces(s: string)
    requires forall k :: 0 <= k < |s| ==> IsSpace(s[k])
    ensures Strip(s) == []
  {
    StripSpec(s);
  }

  /**
   * The required-column check looks only for a non-empty cell: a subject
   * of whitespace passes it, and the row is inserted with an empty subject.
   */
  lemma BlankSubjectInsertsEmpty(row: Row)
    requires SubjectCol in row && row[SubjectCol] != ""
    requires forall k :: 0 <= k < |row[SubjectCol]| ==> IsSpace(row[SubjectCol][k])
    requires Truthy(row, QuestionTextCol) && Truthy(row, CorrectCol) && Complete(row)
    ensures HasRequired(row)
    ensures Insert(row).subject == ""
  {
    StripAllSpaces(row[SubjectCol]);
  }

  /** The rows that pass the required-column check, in file order. */
  function AcceptedRows(rows: seq<Row>): (r: seq<Row>)
    ensures |r| <= |rows|
    ensures forall row :: row in r <==> row in rows && HasRequired(row)
  {
    if rows == [] then []
    else (if HasRequired(rows[0]) then [rows[0]] else []) + AcceptedRows(rows[1..])
  }

  /** The INSERT values of accepted, complete rows, in order. */
  function InsertAll(acc: seq<Row>): (r: seq<NewQuestion>)
    requires forall row :: row in acc ==> HasRequired(row) && Complete(row)
    ensures |r| == |acc|
  {
    if acc == [] then []
    else
      var row := acc[0];
      assert row in acc && HasRequired(row) && Complete(row);
      [Insert(row)] + InsertAll(acc[1..])
  }

  /** The `i`-th insert of `InsertAll` is the insert of the `i`-th accepted row. */
  lemma {:induction false} InsertAllInOrder(acc: seq<Row>, i: int)
    requires forall row :: row in acc ==> HasRequired(row) && Complete(row)
    requires 0 <= i < |acc|
    ensures acc[i] in acc && InsertAll(acc)[i] == Insert(acc[i])
    decreases i
  {
    if i > 0 {
      assert acc[1..][i - 1] == acc[i];
      InsertAllInOrder(acc[1..], i - 1);
    }
  }

  /** The outcome of importing `rows`, the first of them being record number `line`. */
  function ImportSpec(rows: seq<Row>, line: int): (r: Result<seq<NewQuestion>, ImportError>)
    ensures r.Ok? ==> |r.value| <= |rows|
    ensures r.Err? ==> line <= r.error.rowNumber < line + |rows|
  {
    if rows == [] then Ok([])
    else if !HasRequired(rows[0]) then ImportSpec(rows[1..], line + 1)
    else
      match MissingOption(rows[0])
      case Some(column) => Err(MissingColumn(line, column))
      case None =>
        match ImportSpec(rows[1..], line + 1)
        case Ok(tail) => Ok([Insert(rows[0])] + tail)
        case Err(e) => Err(e)
  }

  /**
   * The import completes exactly when every accepted row has all four
   * option columns, and then inserts the accepted rows, in file order,
   * each normalized.
   */
  lemma {:induction false} ImportSpecOk(rows: seq<Row>, line: int)
    ensures ImportSpec(rows, line).Ok? <==> forall row :: row in AcceptedRows(rows) ==> Complete(row)
    ensures ImportSpec(rows, line).Ok? ==> ImportSpec(rows, line).value == InsertAll(AcceptedRows(rows))
  {
    if rows != [] {
      var rest := rows[1..];
      ImportSpecOk(rest, line + 1);
      var acc, accRest := AcceptedRows(rows), AcceptedRows(rest);
      if HasRequired(rows[0]) {
        assert acc == [rows[0]] + accRest;
        assert acc[1..] == accRest;
        if !Complete(rows[0]) {
          assert rows[0] in acc;
        } else if ImportSpec(rest, line + 1).Ok? {
          assert forall row :: row in acc ==> Complete(row);
          assert InsertAll(acc) == [Insert(rows[0])] + InsertAll(accRest);
        }
      } else {
        assert acc == accRest;
      }
    }
  }

  /**
   * A failed import names the record number of an accepted row that lacks an option
   * column, and every accepted row before it was complete.
   */
  lemma {:induction false} ImportSpecErr(rows: seq<Row>, line: int)
    requires ImportSpec(rows, line).Err?
    ensures var e := ImportSpec(rows, line).error;
            var i := e.rowNumber - line;
            && 0 <= i < |rows| && HasRequired(rows[i])
            && MissingOption(rows[i]) == Some(e.column)
            && forall k :: 0 <= k < i && HasRequired(rows[k]) ==> Complete(rows[k])
  {
    var rest := rows[1..];
    var e := ImportSpec(rows, line).error;
    if HasRequired(rows[0]) && !Complete(rows[0]) {
      ImportSpecErrHere(rows, line);
    } else {
      ImportSpecErrPasses(rows, line);
      ImportSpecErr(rest, line + 1);
      var i := e.rowNumber - line;
      assert rows[i] == rest[i - 1];
      forall k | 0 <= k < i && HasRequired(rows[k])
        ensures Complete(rows[k])
      {
        if k > 0 {
          assert rows[k] == rest[k - 1];
        }
      }
    }
  }

  /** An accepted first record that lacks an option column fails the import with its own number. */
  lemma ImportSpecErrHere(rows: seq<Row>, line: int)
    requires rows != [] && HasRequired(rows[0]) && !Complete(rows[0])
    ensures ImportSpec(rows, line) == Err(MissingColumn(line, MissingOption(rows[0]).value))
  {
  }

  /** A failed import whose first record is skipped or complete fails on the rest, with the same error. */
  lemma ImportSpecErrPasses(rows: seq<Row>, line: int)
    requires rows != [] && ImportSpec(rows, line).Err?
    requires !HasRequired(rows[0]) || Complete(rows[0])
    ensures ImportSpec(rows[1..], line + 1) == ImportSpec(rows, line)
  {
    if HasRequired(rows[0]) {
      assert MissingOption(rows[0]).None?;
    }
  }

  /** Every value a completed import inserts is whitespace-trimmed. */
  lemma {:induction false} InsertAllTrimmed(acc: seq<Row>)
    requires forall row :: row in acc ==> HasRequired(row) && Complete(row)
    ensures forall q :: q in InsertAll(acc) ==> AllTrimmed(q)
  {
    if acc != [] {
      InsertTrimmed(acc[0]);
      InsertAllTrimmed(acc[1..]);
    }
  }

  /** `ImportSpec` after `done` inserts, continuing with `rest`. */
  function Continue(done: seq<NewQuestion>, rest: Result<seq<NewQuestion>, ImportError>): Result<seq<NewQuestion>, ImportError> {
    match rest
    case Ok(tail) => Ok(done + tail)
    case Err(e) => Err(e)
  }

  /** Continuing after `a` and then `b` is continuing after `a + b`. */
  lemma ContinueConcat(a: seq<NewQuestion>, b: seq<NewQuestion>, rest: Result<seq<NewQuestion>, ImportError>)
    ensures Continue(a, Continue(b, rest)) == Continue(a + b, rest)
  {
    match rest
    case Ok(tail) => assert a + (b + tail) == a + b + tail;
    case Err(e) =>
  }

  /** Continuing after no inserts changes nothing. */
  lemma ContinueNothing(rest: Result<seq<NewQuestion>, ImportError>)
    ensures Continue([], rest) == rest
  {
    match rest
    case Ok(tail) => assert [] + tail == tail;
    case Err(e) =>
  }

  /** One record of the loop: skipped, refused or inserted. */
  lemma ImportSpecStep(rows: seq<Row>, i: nat)
    requires i < |rows|
    ensures !HasRequired(rows[i]) ==> ImportSpec(rows[i..], i + 2) == ImportSpec(rows[i + 1..], i + 3)
    ensures HasRequired(rows[i]) && !Complete(rows[i]) ==>
              ImportSpec(rows[i..], i + 2) == Err(MissingColumn(i + 2, MissingOption(rows[i]).value))
    ensures HasRequired(rows[i]) && Complete(rows[i]) ==>
              ImportSpec(rows[i..], i + 2) == Continue([Insert(rows[i])], ImportSpec(rows[i + 1..], i + 3))
    ensures |AcceptedRows(rows[i..])| == (if HasRequired(rows[i]) then 1 else 0) + |AcceptedRows(rows[i + 1..])|
  {
    assert rows[i..][0] == rows[i];
    assert rows[i..][1..] == rows[i + 1..];
  }

  /**
   * The loop of `import_real_questions_from_csv` over the records of the
   * file, numbered by `enumerate(reader, start=2)` from 2 (the header is
   * line 1; a record spanning several lines still counts once).
   */
  method ImportRows(rows: seq<Row>) returns (outcome: Result<ImportReport, ImportError>)
    ensures outcome.Err? <==> ImportSpec(rows, 2).Err?
    ensures outcome.Err? ==> outcome.error == ImportSpec(rows, 2).error
    ensures outcome.Ok? ==> outcome.value.inserted == ImportSpec(rows, 2).value
    ensures outcome.Ok? ==> outcome.value.count == |outcome.value.inserted| == |AcceptedRows(rows)|
  {
    var inserted: seq<NewQuestion> := [];
    var insertedCount: nat := 0;
    assert rows[0..] == rows;
    ContinueNothing(ImportSpec(rows, 2));
    for i := 0 to |rows|
      invariant ImportSpec(rows, 2) == Continue(inserted, ImportSpec(rows[i..], i + 2))
      invariant insertedCount == |inserted|
      invariant |AcceptedRows(rows)| == insertedCount + |AcceptedRows(rows[i..])|
    {
      var row := rows[i];
      ImportSpecStep(rows, i);
      if !HasRequired(row) {
        continue;
      }
      var normalized := Normalize(row);
      if normalized.Err? {
        return Err(MissingColumn(i + 2, normalized.error));
      }
      ContinueConcat(inserted, [normalized.value], ImportSpec(rows[i + 1..], i + 3));
      inserted := inserted + [normalized.value];
      insertedCount := insertedCount + 1;
    }
    assert rows[|rows|..] == [];
    outcome := Ok(ImportReport(inserted, insertedCount));
  }
}
