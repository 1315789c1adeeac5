/** The weak-word report (`_get_weak_words`, served to parents as `child_weak_words` and to
    the learner as `my_weak_words`): one row per catalog word the child answered and is
    weak at, with its counts and rounded accuracy, sorted by a chosen key. */
module Report {
  import opened Wrappers
  import opened Seqs
  import opened Text
  import opened Ledger

  /** One row of the report (the `WeakWordOut` schema). `accuracy` is in thousandths:
      the model's integer for `round(pure / total, 3)`. */
  datatype WeakWordOut = WeakWordOut(
    id: int, english: string, japanese: string, englishKatakana: string,
    totalAttempts: nat, correctCount: nat, hintCount: nat, accuracy: int)

  /** The correct answers of a word split into those without and those with a hint, and
      neither exceeds the attempts. */
  lemma {:induction false} CorrectSplits(rs: seq<LearningRecord>, id: int)
    ensures CorrectCount(rs, id) == PureCorrect(rs, id) + HintCount(rs, id)
    ensures HintCount(rs, id) <= CorrectCount(rs, id) <= Attempts(rs, id)
    decreases |rs|
  {
    if rs != [] {
      CorrectSplits(rs[..|rs| - 1], id);
    }
  }

  /** `correct - hint if correct and hint else (correct or 0)`. */
  function PureOf(correct: nat, hint: nat): int {
    if correct != 0 && hint != 0 then correct - hint else correct
  }

  /** Both branches of the conditional give `correct - hint` (a zero hint count makes the
      subtraction a no-op, and no hints are possible without correct answers), so `pure`
      is the number of correct answers given without a hint. */
  lemma PureIsCorrectWithoutHint(rs: seq<LearningRecord>, id: int)
    ensures PureOf(CorrectCount(rs, id), HintCount(rs, id)) == CorrectCount(rs, id) - HintCount(rs, id)
    ensures PureOf(CorrectCount(rs, id), HintCount(rs, id)) == PureCorrect(rs, id)
  {
    CorrectSplits(rs, id);
  }

  /** `round(p / t, 3)` in thousandths: the nearest integer to `1000 * p / t`, an exact tie
      going up. */
  function RoundThousandths(p: int, t: int): (r: int)
    requires t > 0
    ensures 2 * t * r - t <= 2000 * p < 2 * t * r + t
  {
    (2000 * p + t) / (2 * t)
  }

  /** `round(pure / total, 3) if total else 0.0`. */
  function Accuracy(pure: int, total: nat): (r: int)
    ensures 0 <= pure <= total ==> 0 <= r <= 1000
  {
    if total == 0 then 0
    else
      var r := RoundThousandths(pure, total);
      assert 0 <= pure <= total ==> 0 <= r <= 1000 by {
        if 0 <= pure <= total {
          MultiplyMonotonic(2000, pure, total);
          if r > 1000 {
            MultiplyMonotonic(2 * total, 1001, r);
          }
          if r < 0 {
            MultiplyMonotonic(2 * total, r, -1);
          }
        }
      }
      r
  }

  /** A weak word never reports more than 0.9: the ratio is below 0.9, and rounding to three
      places can bring it up to 0.9 but not past it. */
  lemma WeakAccuracyAtMostNineTenths(pure: nat, total: nat)
    requires total > 0 && WeakRatio(pure, total)
    ensures 0 <= Accuracy(pure, total) <= 900
  {
    var r := RoundThousandths(pure, total);
    if r > 900 {
      MultiplyMonotonic(2 * total, 901, r);
    }
    if r < 0 {
      MultiplyMonotonic(2 * total, r, 0);
    }
  }

  lemma MultiplyMonotonic(k: int, a: int, b: int)
    requires k >= 0 && a <= b
    ensures k * a <= k * b
  {
    assert k * b - k * a == k * (b - a);
  }

  /** One sixth reports 0.167; 188 pure answers out of 209 make a weak word that still
      reports exactly 0.9. */
  lemma RoundingExamples()
    ensures Accuracy(1, 6) == 167
    ensures WeakRatio(188, 209) && Accuracy(188, 209) == 900
  {
  }

  /** The report row of catalog word `w` over the child's records `rs`. */
  function RowOf(w: Word, rs: seq<LearningRecord>): (r: WeakWordOut)
    ensures r.id == w.id && r.totalAttempts == Attempts(rs, w.id)
    ensures r.hintCount <= r.correctCount <= r.totalAttempts
    ensures 0 <= r.accuracy <= 1000
  {
    CorrectSplits(rs, w.id);
    PureIsCorrectWithoutHint(rs, w.id);
    var correct := CorrectCount(rs, w.id);
    var hint := HintCount(rs, w.id);
    WeakWordOut(w.id, w.english, w.japanese, w.englishKatakana,
      Attempts(rs, w.id), correct, hint, Accuracy(PureOf(correct, hint), Attempts(rs, w.id)))
  }

  /** The rows of the grouped query: the catalog words joined with the child's records,
      grouped by word, kept by the HAVING clause, in catalog order. */
  function WeakGroups(words: seq<Word>, rs: seq<LearningRecord>): (r: seq<Word>)
    ensures forall w :: w in r <==> w in words && IsWeakAmong(rs, w.id)
  {
    Filter(words, (w: Word) => IsWeakAmong(rs, w.id))
  }

  /** The rows built for the words `ws`, in order. */
  function RowsOf(ws: seq<Word>, rs: seq<LearningRecord>): (r: seq<WeakWordOut>)
    ensures |r| == |ws|
    decreases |ws|
  {
    if ws == [] then [] else RowsOf(ws[..|ws| - 1], rs) + [RowOf(ws[|ws| - 1], rs)]
  }

  /** One more word, one more row. */
  lemma RowsOfStep(ws: seq<Word>, i: int, rs: seq<LearningRecord>)
    requires 0 <= i < |ws|
    ensures RowsOf(ws[..i + 1], rs) == RowsOf(ws[..i], rs) + [RowOf(ws[i], rs)]
  {
    assert ws[..i + 1][..i] == ws[..i];
  }

  /** The unsorted report of `child`. */
  function WeakRows(words: seq<Word>, records: seq<LearningRecord>, child: int): seq<WeakWordOut> {
    var rs := ChildRecords(records, child, AnyTime);
    RowsOf(WeakGroups(words, rs), rs)
  }

  lemma {:induction false} RowsOfMembers(ws: seq<Word>, rs: seq<LearningRecord>, row: WeakWordOut)
    ensures row in RowsOf(ws, rs) <==> exists w :: w in ws && row == RowOf(w, rs)
    decreases |ws|
  {
    if ws != [] {
      var init, last := ws[..|ws| - 1], ws[|ws| - 1];
      RowsOfMembers(init, rs, row);
      assert ws == init + [last];
      if row in RowsOf(ws, rs) && row != RowOf(last, rs) {
        var w :| w in init && row == RowOf(w, rs);
        assert w in ws;
      }
    }
  }

  /** The report has a row for a catalog word exactly when the child answered it and under
      90% of the answers were correct without a hint; each row carries that word's own
      counts, with `hint <= correct <= total`, and an accuracy between 0 and 0.9. */
  lemma WeakRowsCharacterized(words: seq<Word>, records: seq<LearningRecord>, child: int, w: Word)
    requires w in words
    ensures var rs := ChildRecords(records, child, AnyTime);
      RowOf(w, rs) in WeakRows(words, records, child)
        <== Attempts(rs, w.id) > 0 && 10 * PureCorrect(rs, w.id) < 9 * Attempts(rs, w.id)
  {
    var rs := ChildRecords(records, child, AnyTime);
    RowsOfMembers(WeakGroups(words, rs), rs, RowOf(w, rs));
  }

  lemma WeakRowsSound(words: seq<Word>, records: seq<LearningRecord>, child: int, row: WeakWordOut)
    requires row in WeakRows(words, records, child)
    ensures exists w :: w in words && w.id == row.id && w.english == row.english && w.japanese == row.japanese
    ensures var rs := ChildRecords(records, child, AnyTime);
      && row.totalAttempts == Attempts(rs, row.id) > 0
      && row.correctCount == CorrectCount(rs, row.id)
      && row.hintCount == HintCount(rs, row.id)
      && 10 * PureCorrect(rs, row.id) < 9 * row.totalAttempts
    ensures row.hintCount <= row.correctCount <= row.totalAttempts
    ensures 0 <= row.accuracy <= 900
  {
    var rs := ChildRecords(records, child, AnyTime);
    RowsOfMembers(WeakGroups(words, rs), rs, row);
    var w :| w in WeakGroups(words, rs) && row == RowOf(w, rs);
    CorrectSplits(rs, w.id);
    PureIsCorrectWithoutHint(rs, w.id);
    WeakAccuracyAtMostNineTenths(PureCorrect(rs, w.id), Attempts(rs, w.id));
  }

  /** The keys of `sort_key_map`. */
  datatype SortBy = ByAccuracy | ByTotalAttempts | ByEnglish | ByJapanese

  /** `sort_key_map.get(sort_by, accuracy)`: an unknown key sorts by accuracy. */
  function ParseSortBy(s: string): (k: SortBy)
    ensures k == ByTotalAttempts <==> s == "total_attempts"
    ensures k == ByEnglish <==> s == "english"
    ensures k == ByJapanese <==> s == "japanese"
  {
    if s == "total_attempts" then ByTotalAttempts
    else if s == "english" then ByEnglish
    else if s == "japanese" then ByJapanese
    else ByAccuracy
  }

  /** `order`, after anything but `asc` or `desc` became `asc`: true for descending. */
  function Descending(order: string): bool {
    var normalized := if order == "asc" || order == "desc" then order else "asc";
    normalized == "desc"
  }

  /** The defaults and the fallbacks: accuracy for an unknown key, ascending for anything
      but `desc`. */
  lemma SortDefaults(s: string, order: string)
    requires s !in {"total_attempts", "english", "japanese"}
    ensures ParseSortBy(s) == ByAccuracy
    ensures Descending(order) <==> order == "desc"
  {
  }

  /** A sort key: a number or a string. */
  datatype Key = NumKey(n: int) | TextKey(s: string)

  /** The key of a row: accuracy, attempts, the lower-cased English or the Japanese. */
  function KeyOf(row: WeakWordOut, key: SortBy): Key {
    match key
    case ByAccuracy => NumKey(row.accuracy)
    case ByTotalAttempts => NumKey(row.totalAttempts)
    case ByEnglish => TextKey(Lower(row.english))
    case ByJapanese => TextKey(row.japanese)
  }

  /** Python's `<=` on keys of one kind: numbers by value, strings by code points. The
      kinds never mix under one `SortBy`; numbers are put first to make the order total. */
  predicate KeyLe(a: Key, b: Key) {
    match (a, b)
    case (NumKey(x), NumKey(y)) => x <= y
    case (TextKey(x), TextKey(y)) => LexLe(x, y)
    case (NumKey(_), TextKey(_)) => true
    case (TextKey(_), NumKey(_)) => false
  }

  lemma KeyLeTotal(a: Key, b: Key)
    ensures KeyLe(a, b) || KeyLe(b, a)
  {
    if a.TextKey? && b.TextKey? {
      LexLeTotal(a.s, b.s);
    }
  }

  lemma KeyLeTransitive(a: Key, b: Key, c: Key)
    requires KeyLe(a, b) && KeyLe(b, c)
    ensures KeyLe(a, c)
  {
    if a.TextKey? && b.TextKey? && c.TextKey? {
      LexLeTransitive(a.s, b.s, c.s);
    }
  }

  /** `x` may come before `y` in the sorted report. */
  predicate RowLe(x: WeakWordOut, y: WeakWordOut, key: SortBy, desc: bool) {
    if desc then KeyLe(KeyOf(y, key), KeyOf(x, key)) else KeyLe(KeyOf(x, key), KeyOf(y, key))
  }

  lemma RowLeTotal(x: WeakWordOut, y: WeakWordOut, key: SortBy, desc: bool)
    ensures RowLe(x, y, key, desc) || RowLe(y, x, key, desc)
  {
    KeyLeTotal(KeyOf(x, key), KeyOf(y, key));
  }

  lemma RowLeTransitive(x: WeakWordOut, y: WeakWordOut, z: WeakWordOut, key: SortBy, desc: bool)
    requires RowLe(x, y, key, desc) && RowLe(y, z, key, desc)
    ensures RowLe(x, z, key, desc)
  {
    if desc {
      KeyLeTransitive(KeyOf(z, key), KeyOf(y, key), KeyOf(x, key));
    } else {
      KeyLeTransitive(KeyOf(x, key), KeyOf(y, key), KeyOf(z, key));
    }
  }

  /** Non-decreasing in the key for ascending order, non-increasing for descending. */
  predicate SortedRows(s: seq<WeakWordOut>, key: SortBy, desc: bool) {
    forall i, j :: 0 <= i < j < |s| ==> RowLe(s[i], s[j], key, desc)
  }

  /** Insert `x` into `s` after every row it may follow, scanning from the end. */
  function InsertRow(s: seq<WeakWordOut>, x: WeakWordOut, key: SortBy, desc: bool): (r: seq<WeakWordOut>)
    ensures multiset(r) == multiset(s) + multiset{x}
    decreases |s|
  {
    if s == [] || RowLe(s[|s| - 1], x, key, desc) then s + [x]
    else
      assert s == s[..|s| - 1] + [s[|s| - 1]];
      InsertRow(s[..|s| - 1], x, key, desc) + [s[|s| - 1]]
  }

  /** Inserting into a sorted sequence keeps it sorted. */
  lemma {:induction false} InsertRowSorted(s: seq<WeakWordOut>, x: WeakWordOut, key: SortBy, desc: bool)
    requires SortedRows(s, key, desc)
    ensures SortedRows(InsertRow(s, x, key, desc), key, desc)
    decreases |s|
  {
    if s == [] {
    } else if RowLe(s[|s| - 1], x, key, desc) {
      forall i | 0 <= i < |s|
        ensures RowLe(s[i], x, key, desc)
      {
        if i < |s| - 1 {
          RowLeTransitive(s[i], s[|s| - 1], x, key, desc);
        }
      }
    } else {
      var init, last := s[..|s| - 1], s[|s| - 1];
      assert SortedRows(init, key, desc);
      InsertRowSorted(init, x, key, desc);
      var t := InsertRow(init, x, key, desc);
      RowLeTotal(last, x, key, desc);
      forall i | 0 <= i < |t|
        ensures RowLe(t[i], last, key, desc)
      {
        InsertRowMember(init, x, key, desc, t[i]);
        if t[i] != x {
          var k :| 0 <= k < |init| && init[k] == t[i];
          assert s[k] == t[i];
        }
      }
      SortedSnoc(t, last, key, desc);
    }
  }

  lemma InsertRowMember(s: seq<WeakWordOut>, x: WeakWordOut, key: SortBy, desc: bool, y: WeakWordOut)
    requires y in InsertRow(s, x, key, desc)
    ensures y in s || y == x
  {
    assert y in multiset(InsertRow(s, x, key, desc));
  }

  lemma SortedSnoc(t: seq<WeakWordOut>, last: WeakWordOut, key: SortBy, desc: bool)
    requires SortedRows(t, key, desc)
    requires forall i :: 0 <= i < |t| ==> RowLe(t[i], last, key, desc)
    ensures SortedRows(t + [last], key, desc)
  {
  }

  /** `result.sort(key=..., reverse=(order == "desc"))`, an insertion at a time. */
  function SortRows(s: seq<WeakWordOut>, key: SortBy, desc: bool): (r: seq<WeakWordOut>)
    decreases |s|
  {
    if s == [] then [] else InsertRow(SortRows(s[..|s| - 1], key, desc), s[|s| - 1], key, desc)
  }

  /** The sort returns a sorted reordering of its input. */
  lemma {:induction false} SortRowsCorrect(s: seq<WeakWordOut>, key: SortBy, desc: bool)
    ensures multiset(SortRows(s, key, desc)) == multiset(s)
    ensures SortedRows(SortRows(s, key, desc), key, desc)
    decreases |s|
  {
    if s != [] {
      var init := s[..|s| - 1];
      SortRowsCorrect(init, key, desc);
      InsertRowSorted(SortRows(init, key, desc), s[|s| - 1], key, desc);
      assert s == init + [s[|s| - 1]];
    }
  }

  /** `_get_weak_words`: run the grouped query, build one row per group in a loop, then sort
      by the requested key and direction. */
  method GetWeakWords(words: seq<Word>, records: seq<LearningRecord>, child: int, sortBy: string, order: string)
    returns (result: seq<WeakWordOut>)
    ensures result == SortRows(WeakRows(words, records, child), ParseSortBy(sortBy), Descending(order))
    ensures multiset(result) == multiset(WeakRows(words, records, child))
    ensures SortedRows(result, ParseSortBy(sortBy), Descending(order))
  {
    var desc := Descending(order);
    var key := ParseSortBy(sortBy);
    var rs := ChildRecords(records, child, AnyTime);
    var groups := WeakGroups(words, rs);
    var rows: seq<WeakWordOut> := [];
    for i := 0 to |groups|
      invariant rows == RowsOf(groups[..i], rs)
    {
      RowsOfStep(groups, i, rs);
      rows := rows + [RowOf(groups[i], rs)];
    }
    assert groups[..|groups|] == groups;
    result := SortRows(rows, key, desc);
    SortRowsCorrect(rows, key, desc);
  }
}
