/** The word import (`import_words`): every data row of an uploaded CSV is parsed, checked
    against the catalog for an existing `(english, japanese)` pair, and counted as imported,
    skipped or an error; the reply is one message with the counts and the error lines. */
module Admin {
  import opened Wrappers
  import opened Text
  import opened Ledger

  /** One data row as `csv.DictReader` yields it: a map from the header's column names to
      the cells. A column the header lacks is absent; a row shorter than the header maps the
      missing cells to `None`. */
  type CsvRow = map<string, Option<string>>

  /** Why a row was rejected: the three exception types the loop catches, with the two
      `ValueError`s of `int()` told apart. */
  datatype RowError =
    | MissingColumn(column: string)   // KeyError
    | MissingCell                     // AttributeError: `None.strip()`
    | NotAnInteger(text: string)      // ValueError from `int(...)`: not a literal
    | OverDigitLimit(digits: nat)     // ValueError from `int(...)`: over the digit limit

  /** A word to be inserted: the stripped fields and the parsed section. */
  datatype NewWord = NewWord(english: string, japanese: string, englishKatakana: string, section: int)

  /** `row[column].strip()`. */
  function Field(row: CsvRow, column: string): (r: Result<string, RowError>)
    ensures r.Success? <==> column in row && row[column].Some?
    ensures r.Success? ==> r.value == Strip(row[column].value)
    ensures r == Failure(MissingColumn(column)) <==> column !in row
  {
    if column !in row then Failure(MissingColumn(column))
    else if row[column].None? then Failure(MissingCell)
    else Success(Strip(row[column].value))
  }

  /** The four fields of a row, read in the order `english`, `japanese`, `english_katakana`,
      `section`; the first failure is the one reported. */
  function ParseRow(row: CsvRow): (r: Result<NewWord, RowError>)
    ensures r.Success? <==>
      && Field(row, "english").Success? && Field(row, "japanese").Success?
      && Field(row, "english_katakana").Success? && Field(row, "section").Success?
      && ConvertInt(Field(row, "section").value).Success?
    ensures r.Success? ==>
      && r.value.english == Strip(row["english"].value)
      && r.value.japanese == Strip(row["japanese"].value)
      && r.value.englishKatakana == Strip(row["english_katakana"].value)
      && ConvertInt(Strip(row["section"].value)) == Success(r.value.section)
  {
    match Field(row, "english")
    case Failure(e) => Failure(e)
    case Success(english) =>
      match Field(row, "japanese")
      case Failure(e) => Failure(e)
      case Success(japanese) =>
        match Field(row, "english_katakana")
        case Failure(e) => Failure(e)
        case Success(katakana) =>
          match Field(row, "section")
          case Failure(e) => Failure(e)
          case Success(text) =>
            match ConvertInt(text)
            case Failure(InvalidLiteral) => Failure(NotAnInteger(text))
            case Failure(TooManyDigits(n)) => Failure(OverDigitLimit(n))
            case Success(section) => Success(NewWord(english, japanese, katakana, section))
  }

  /** `str(e)` for the caught exception (Python's `repr` quoting is taken to be single
      quotes throughout). */
  function ErrorText(e: RowError): string {
    match e
    case MissingColumn(column) => "'" + column + "'"
    case MissingCell => "'NoneType' object has no attribute 'strip'"
    case NotAnInteger(text) => "invalid literal for int() with base 10: '" + text + "'"
    case OverDigitLimit(n) => DigitLimitHead + NatToString(n) + DigitLimitTail
  }

  /** The two halves of the message of `int()`'s digit limit, around the digit count. */
  const DigitLimitHead: string := "Exceeds the limit (4300 digits) for integer string conversion: value has "
  const DigitLimitTail: string := " digits; use sys.set_int_max_str_digits() to increase the limit"

  /** `f"{i}行目: {e}"` for the row numbered `i` from 1. */
  function ErrorLine(i: nat, e: RowError): string {
    NatToString(i) + "行目: " + ErrorText(e)
  }

  /** The catalog already holds a word with the same English and Japanese. */
  predicate IsDuplicate(catalog: seq<Word>, english: string, japanese: string) {
    exists k :: 0 <= k < |catalog| && catalog[k].english == english && catalog[k].japanese == japanese
  }

  /** What happens to one row. */
  datatype RowOutcome = Invalid(error: RowError) | Duplicate | Fresh(word: NewWord)

  /** The fate of `row` against the catalog as it stood before the upload. */
  function Classify(catalog: seq<Word>, row: CsvRow): (o: RowOutcome)
    ensures o.Invalid? <==> ParseRow(row).Failure?
    ensures o.Invalid? ==> o.error == ParseRow(row).error
    ensures o.Duplicate? <==>
      (ParseRow(row).Success? && IsDuplicate(catalog, ParseRow(row).value.english, ParseRow(row).value.japanese))
    ensures o.Fresh? ==> o.word == ParseRow(row).value
  {
    match ParseRow(row)
    case Failure(e) => Invalid(e)
    case Success(w) => if IsDuplicate(catalog, w.english, w.japanese) then Duplicate else Fresh(w)
  }

  /** The fate of every row, in row order. */
  function Outcomes(catalog: seq<Word>, rows: seq<CsvRow>): (os: seq<RowOutcome>)
    ensures |os| == |rows|
  {
    if rows == [] then []
    else Outcomes(catalog, rows[..|rows| - 1]) + [Classify(catalog, rows[|rows| - 1])]
  }

  /** The outcome at position `i` is the fate of row `i`. */
  lemma {:induction false} OutcomeAt(catalog: seq<Word>, rows: seq<CsvRow>, i: int)
    requires 0 <= i < |rows|
    ensures Outcomes(catalog, rows)[i] == Classify(catalog, rows[i])
  {
    if i < |rows| - 1 {
      OutcomeAt(catalog, rows[..|rows| - 1], i);
    }
  }

  /** The words a run of outcomes adds, in order. */
  function AddedBy(os: seq<RowOutcome>): (ws: seq<NewWord>)
    ensures |ws| <= |os|
  {
    if os == [] then []
    else
      var o := os[|os| - 1];
      AddedBy(os[..|os| - 1]) + (if o.Fresh? then [o.word] else [])
  }

  /** How many of a run of outcomes are duplicates. */
  function SkippedBy(os: seq<RowOutcome>): (n: nat)
    ensures n <= |os|
  {
    if os == [] then 0
    else SkippedBy(os[..|os| - 1]) + (if os[|os| - 1].Duplicate? then 1 else 0)
  }

  /** The error lines of a run of outcomes; the last outcome is row number `|os|`. */
  function LinesBy(os: seq<RowOutcome>): (es: seq<string>)
    ensures |es| <= |os|
  {
    if os == [] then []
    else
      var o := os[|os| - 1];
      LinesBy(os[..|os| - 1]) + (if o.Invalid? then [ErrorLine(|os|, o.error)] else [])
  }

  /** The words the rows add, in row order. */
  function FreshWords(catalog: seq<Word>, rows: seq<CsvRow>): (ws: seq<NewWord>)
    ensures |ws| <= |rows|
  {
    AddedBy(Outcomes(catalog, rows))
  }

  /** How many rows named an existing word. */
  function SkippedCount(catalog: seq<Word>, rows: seq<CsvRow>): (n: nat)
    ensures n <= |rows|
  {
    SkippedBy(Outcomes(catalog, rows))
  }

  /** The error lines, in row order. */
  function ErrorLines(catalog: seq<Word>, rows: seq<CsvRow>): (es: seq<string>)
    ensures |es| <= |rows|
  {
    LinesBy(Outcomes(catalog, rows))
  }

  /** One more outcome: a fresh one adds its word. */
  lemma AddedStep(os: seq<RowOutcome>, o: RowOutcome)
    ensures AddedBy(os + [o]) == AddedBy(os) + (if o.Fresh? then [o.word] else [])
  {
    assert (os + [o])[..|os|] == os;
  }

  /** One more outcome: a duplicate one counts as skipped. */
  lemma SkippedStep(os: seq<RowOutcome>, o: RowOutcome)
    ensures SkippedBy(os + [o]) == SkippedBy(os) + (if o.Duplicate? then 1 else 0)
  {
    assert (os + [o])[..|os|] == os;
  }

  /** One more outcome: an invalid one adds its line, numbered after the earlier rows. */
  lemma LinesStep(os: seq<RowOutcome>, o: RowOutcome)
    ensures LinesBy(os + [o]) == LinesBy(os) + (if o.Invalid? then [ErrorLine(|os| + 1, o.error)] else [])
  {
    assert (os + [o])[..|os|] == os;
  }

  /** A prefix one longer is the prefix and the next outcome. */
  lemma PrefixStep(os: seq<RowOutcome>, i: int)
    requires 0 <= i < |os|
    ensures os[..i + 1] == os[..i] + [os[i]]
  {
  }

  /** Every outcome is counted exactly once: as added, as skipped or as an error line. */
  lemma {:induction false} CountedOnce(os: seq<RowOutcome>)
    ensures |AddedBy(os)| + SkippedBy(os) + |LinesBy(os)| == |os|
  {
    if os != [] {
      CountedOnce(os[..|os| - 1]);
    }
  }

  /** Every row is counted exactly once: as imported, as skipped or as an error. */
  lemma EveryRowCountedOnce(catalog: seq<Word>, rows: seq<CsvRow>)
    ensures |FreshWords(catalog, rows)| + SkippedCount(catalog, rows) + |ErrorLines(catalog, rows)| == |rows|
  {
    CountedOnce(Outcomes(catalog, rows));
  }

  /** A fresh outcome adds its word. */
  lemma {:induction false} FreshOutcomeIsAdded(os: seq<RowOutcome>, i: int)
    requires 0 <= i < |os| && os[i].Fresh?
    ensures os[i].word in AddedBy(os)
  {
    var init := os[..|os| - 1];
    if i < |os| - 1 {
      assert init[i] == os[i];
      FreshOutcomeIsAdded(init, i);
    }
  }

  /** Every added word comes from a fresh outcome. */
  lemma {:induction false} AddedWordHasOutcome(os: seq<RowOutcome>, w: NewWord) returns (i: nat)
    requires w in AddedBy(os)
    ensures i < |os| && os[i] == Fresh(w)
  {
    var init := os[..|os| - 1];
    if w in AddedBy(init) {
      i := AddedWordHasOutcome(init, w);
      assert os[i] == init[i];
    } else {
      i := |os| - 1;
    }
  }

  /** A word is added exactly when some row is classified as adding it. */
  lemma FreshWordsFromRows(catalog: seq<Word>, rows: seq<CsvRow>, w: NewWord)
    ensures w in FreshWords(catalog, rows) <==> exists i :: 0 <= i < |rows| && Classify(catalog, rows[i]) == Fresh(w)
  {
    var os := Outcomes(catalog, rows);
    if w in FreshWords(catalog, rows) {
      var i := AddedWordHasOutcome(os, w);
      OutcomeAt(catalog, rows, i);
    }
    if exists i :: 0 <= i < |rows| && Classify(catalog, rows[i]) == Fresh(w) {
      var i :| 0 <= i < |rows| && Classify(catalog, rows[i]) == Fresh(w);
      OutcomeAt(catalog, rows, i);
      FreshOutcomeIsAdded(os, i);
    }
  }

  /** `line` is the error line an outcome gives for row number `n`. */
  predicate ReportsAs(o: RowOutcome, n: nat, line: string) {
    o.Invalid? && line == ErrorLine(n, o.error)
  }

  /** An invalid outcome leaves its numbered line among the error lines. */
  lemma {:induction false} InvalidOutcomeIsReported(os: seq<RowOutcome>, i: int)
    requires 0 <= i < |os| && os[i].Invalid?
    ensures ErrorLine(i + 1, os[i].error) in LinesBy(os)
  {
    var init := os[..|os| - 1];
    if i < |os| - 1 {
      assert init[i] == os[i];
      InvalidOutcomeIsReported(init, i);
    }
  }

  /** Every error line comes from an invalid outcome, and names its position. */
  lemma {:induction false} ReportedLineHasOutcome(os: seq<RowOutcome>, line: string) returns (i: nat)
    requires line in LinesBy(os)
    ensures i < |os| && ReportsAs(os[i], i + 1, line)
  {
    var init := os[..|os| - 1];
    if line in LinesBy(init) {
      i := ReportedLineHasOutcome(init, line);
      assert os[i] == init[i];
    } else {
      i := |os| - 1;
    }
  }

  /** Row number `i + 1` has an error line exactly when it fails to parse, and the line
      carries that number and that failure. */
  lemma ErrorLinesFromRows(catalog: seq<Word>, rows: seq<CsvRow>, line: string)
    ensures line in ErrorLines(catalog, rows) <==>
      exists i :: 0 <= i < |rows| && ReportsAs(Classify(catalog, rows[i]), i + 1, line)
  {
    var os := Outcomes(catalog, rows);
    if line in ErrorLines(catalog, rows) {
      var i := ReportedLineHasOutcome(os, line);
      OutcomeAt(catalog, rows, i);
    }
    if exists i :: 0 <= i < |rows| && ReportsAs(Classify(catalog, rows[i]), i + 1, line) {
      var i :| 0 <= i < |rows| && ReportsAs(Classify(catalog, rows[i]), i + 1, line);
      OutcomeAt(catalog, rows, i);
      InvalidOutcomeIsReported(os, i);
    }
  }

  /** Every inserted word has whitespace-free ends on all three text fields, and its pair
      was not in the catalog. */
  lemma FreshWordsAreStrippedAndNew(catalog: seq<Word>, rows: seq<CsvRow>, w: NewWord)
    requires w in FreshWords(catalog, rows)
    ensures Strip(w.english) == w.english
    ensures Strip(w.japanese) == w.japanese
    ensures Strip(w.englishKatakana) == w.englishKatakana
    ensures forall k :: 0 <= k < |catalog| ==> catalog[k].english != w.english || catalog[k].japanese != w.japanese
  {
    FreshWordsFromRows(catalog, rows, w);
    var i :| 0 <= i < |rows| && Classify(catalog, rows[i]) == Fresh(w);
    StripIdempotent(rows[i]["english"].value);
    StripIdempotent(rows[i]["japanese"].value);
    StripIdempotent(rows[i]["english_katakana"].value);
  }

  /** The section plays no part in the duplicate test: two well-formed rows that agree on
      the English and Japanese cells are both skipped or both added. */
  lemma SectionPlaysNoPart(catalog: seq<Word>, r1: CsvRow, r2: CsvRow)
    requires ParseRow(r1).Success? && ParseRow(r2).Success?
    requires r1["english"] == r2["english"] && r1["japanese"] == r2["japanese"]
    ensures Classify(catalog, r1).Duplicate? <==> Classify(catalog, r2).Duplicate?
  {
  }

  /** Whitespace around a cell does not hide a duplicate: a row spelling a catalog word's
      English and Japanese with padding is skipped. */
  lemma PaddedRowIsDuplicate(catalog: seq<Word>, k: int, row: CsvRow, pre: string, post: string)
    requires 0 <= k < |catalog|
    requires AllSpace(pre) && AllSpace(post)
    requires Strip(catalog[k].english) == catalog[k].english
    requires ParseRow(row).Success?
    requires row["english"] == Some(pre + catalog[k].english + post)
    requires row["japanese"] == Some(catalog[k].japanese)
    requires Strip(catalog[k].japanese) == catalog[k].japanese
    ensures Classify(catalog, row) == Duplicate
  {
    StripIgnoresPadding(pre, catalog[k].english, post);
  }

  /** The row loop of `import_words`: counts, error lines and the words handed to the
      session, against the catalog as it stood before the upload. Each row is parsed and,
      when it parses, looked up in the catalog (`Classify`). */
  method ImportRows(catalog: seq<Word>, rows: seq<CsvRow>)
    returns (imported: nat, skipped: nat, errors: seq<string>, added: seq<NewWord>)
    ensures added == FreshWords(catalog, rows) && imported == |added|
    ensures skipped == SkippedCount(catalog, rows)
    ensures errors == ErrorLines(catalog, rows)
    ensures imported + skipped + |errors| == |rows|
  {
    imported, skipped, errors, added := 0, 0, [], [];
    ghost var os := Outcomes(catalog, rows);
    for i := 0 to |rows|
      invariant added == AddedBy(os[..i]) && imported == |added|
      invariant skipped == SkippedBy(os[..i])
      invariant errors == LinesBy(os[..i])
    {
      var o := Classify(catalog, rows[i]);
      OutcomeAt(catalog, rows, i);
      PrefixStep(os, i);
      ghost var done := os[..i];
      AddedStep(done, o);
      SkippedStep(done, o);
      LinesStep(done, o);
      match o {
        case Invalid(e) =>
          errors := errors + [ErrorLine(i + 1, e)];
        case Duplicate =>
          skipped := skipped + 1;
        case Fresh(w) =>
          added := added + [w];
          imported := imported + 1;
      }
    }
    assert os[..|rows|] == os;
    EveryRowCountedOnce(catalog, rows);
  }

  /** The summed lengths of `parts`. */
  function TotalLength(parts: seq<string>): nat {
    if parts == [] then 0 else TotalLength(parts[..|parts| - 1]) + |parts[|parts| - 1]|
  }

  /** `sep.join(parts)`. */
  function Join(parts: seq<string>, sep: string): (r: string)
    ensures parts == [] ==> r == []
    ensures |parts| == 1 ==> r == parts[0]
    ensures parts != [] ==> |r| == TotalLength(parts) + (|parts| - 1) * |sep|
    decreases |parts|
  {
    if parts == [] then []
    else if |parts| == 1 then parts[0]
    else Join(parts[..|parts| - 1], sep) + sep + parts[|parts| - 1]
  }

  /** Where `sep.join(parts)` puts part `k`: after the `k` earlier parts and `k` separators.
      With `JoinSeparatorAfter` and the length in `Join`'s contract this fixes every
      character of the result. */
  lemma {:induction false} JoinPartAt(parts: seq<string>, sep: string, k: int)
    requires 0 <= k < |parts|
    ensures var o := TotalLength(parts[..k]) + k * |sep|;
      o + |parts[k]| <= |Join(parts, sep)| && Join(parts, sep)[o..o + |parts[k]|] == parts[k]
    decreases |parts|
  {
    var n := |parts|;
    if n == 1 {
      assert parts[..0] == [];
    } else {
      var init := parts[..n - 1];
      var j := Join(init, sep);
      assert Join(parts, sep) == j + sep + parts[n - 1];
      if k == n - 1 {
        assert parts[..k] == init;
        assert k * |sep| == (n - 2) * |sep| + |sep|;
      } else {
        assert parts[..k] == init[..k];
        JoinPartAt(init, sep, k);
      }
    }
  }

  /** Every part but the last is followed by the separator. */
  lemma {:induction false} JoinSeparatorAfter(parts: seq<string>, sep: string, k: int)
    requires 0 <= k < |parts| - 1
    ensures var e := TotalLength(parts[..k + 1]) + k * |sep|;
      e + |sep| <= |Join(parts, sep)| && Join(parts, sep)[e..e + |sep|] == sep
    decreases |parts|
  {
    var n := |parts|;
    var init := parts[..n - 1];
    var j := Join(init, sep);
    var r := Join(parts, sep);
    assert r == j + sep + parts[n - 1];
    assert parts[..k + 1] == init[..k + 1];
    var e := TotalLength(parts[..k + 1]) + k * |sep|;
    if k == n - 2 {
      assert init[..k + 1] == init;
      assert e == |j|;
      assert r[e..e + |sep|] == sep;
    } else {
      JoinSeparatorAfter(init, sep, k);
      assert e + |sep| <= |j|;
      assert r[e..e + |sep|] == j[e..e + |sep|];
    }
  }

  /** The part of the reply every import has: the imported and skipped counts. */
  function CountsMessage(imported: nat, skipped: nat): string {
    NatToString(imported) + "件の単語を登録しました" + " (" + NatToString(skipped) + "件は既登録のためスキップ)"
  }

  /** The reply: the counts, then, only when there were errors, their number and the lines. */
  function ImportMessage(imported: nat, skipped: nat, errors: seq<string>): (msg: string)
    ensures CountsMessage(imported, skipped) <= msg
    ensures errors == [] <==> msg == CountsMessage(imported, skipped)
    ensures errors != [] ==>
      msg[|CountsMessage(imported, skipped)|..] == " エラー" + NatToString(|errors|) + "件: " + Join(errors, "; ")
  {
    var counts := CountsMessage(imported, skipped);
    if errors == [] then counts
    else counts + " エラー" + NatToString(|errors|) + "件: " + Join(errors, "; ")
  }
}
