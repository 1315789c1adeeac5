/** The catalog and the answer ledger (the `words` and `learning_records` tables), the
    recency windows the learner endpoints filter the ledger by, and the two id sets
    computed over it: the words a child has learned and the words a child is weak at. */
module Ledger {
  import opened Wrappers
  import opened Seqs
  import Clock

  /** Which quiz produced an answer; the API accepts only these three tags. */
  datatype SessionType = Today | Review | Weak

  /** A catalog entry. */
  datatype Word = Word(id: int, english: string, japanese: string, englishKatakana: string, section: int)

  /** One answer attempt; `answeredAt` is a UTC timestamp in seconds. */
  datatype LearningRecord = LearningRecord(
    childId: int, wordId: int, isCorrect: bool, usedHint: bool, answeredAt: int, sessionType: SessionType)

  /** Word ids are the table's primary key. */
  predicate UniqueIds(words: seq<Word>) {
    forall i, j :: 0 <= i < j < |words| ==> words[i].id != words[j].id
  }

  /** A recency filter on `answered_at`. */
  datatype Window = AnyTime | Since(cutoff: int) | Before(cutoff: int)

  predicate InWindow(w: Window, t: int) {
    match w
    case AnyTime => true
    case Since(c) => t >= c
    case Before(c) => t < c
  }

  const Week := 7 * Clock.SecondsPerDay
  const Month := 30 * Clock.SecondsPerDay

  /** The `period` query parameter as the endpoints pass it on: `"all"` becomes no period. */
  function PeriodArgument(period: string): (r: Option<string>)
    ensures r == None <==> period == "all"
    ensures period != "all" ==> r == Some(period)
  {
    if period == "all" then None else Some(period)
  }

  /** The window `_get_learned_word_ids` applies: a missing or empty period, or an
      unknown token, filters nothing. */
  function LearnedWindow(period: Option<string>, now: int): Window {
    if period == None || period.value == "" then AnyTime
    else if period.value == "week" then Since(now - Week)
    else if period.value == "month" then Since(now - Month)
    else if period.value == "over_month" then Before(now - Month)
    else AnyTime
  }

  /** The window `_get_weak_word_ids` applies: only `month` and `over_month` filter. */
  function WeakWindow(period: Option<string>, now: int): Window {
    if period == None || period.value == "" then AnyTime
    else if period.value == "month" then Since(now - Month)
    else if period.value == "over_month" then Before(now - Month)
    else AnyTime
  }

  /** The rows `WHERE child_id = child AND <window>` selects, in ledger order. */
  function ChildRecords(records: seq<LearningRecord>, child: int, w: Window): seq<LearningRecord> {
    Filter(records, (r: LearningRecord) => r.childId == child && InWindow(w, r.answeredAt))
  }

  /** `SELECT DISTINCT word_id ... WHERE child_id = child AND <window>`. */
  function LearnedIds(records: seq<LearningRecord>, child: int, w: Window): set<int> {
    set r | r in records && r.childId == child && InWindow(w, r.answeredAt) :: r.wordId
  }

  /** COUNT of the attempts at word `id` in `rs`. */
  function Attempts(rs: seq<LearningRecord>, id: int): nat {
    Count(rs, (r: LearningRecord) => r.wordId == id)
  }

  /** Attempts at `id` answered correctly without a hint ("pure correct"). */
  function PureCorrect(rs: seq<LearningRecord>, id: int): nat {
    Count(rs, (r: LearningRecord) => r.wordId == id && r.isCorrect && !r.usedHint)
  }

  /** Attempts at `id` answered correctly, with or without a hint. */
  function CorrectCount(rs: seq<LearningRecord>, id: int): nat {
    Count(rs, (r: LearningRecord) => r.wordId == id && r.isCorrect)
  }

  /** Attempts at `id` answered correctly with a hint. */
  function HintCount(rs: seq<LearningRecord>, id: int): nat {
    Count(rs, (r: LearningRecord) => r.wordId == id && r.isCorrect && r.usedHint)
  }

  /** The HAVING clause `pure_correct * 1.0 / count < 0.9`, cross-multiplied. */
  predicate WeakRatio(pure: int, total: int) {
    10 * pure < 9 * total
  }

  /** A word is weak among `rs` when it was attempted and fewer than 90% of its
      attempts were correct without a hint. */
  predicate IsWeakAmong(rs: seq<LearningRecord>, id: int) {
    Attempts(rs, id) > 0 && WeakRatio(PureCorrect(rs, id), Attempts(rs, id))
  }

  /** `_get_weak_word_ids`: filter by child and window, group by word, keep the weak groups. */
  function WeakIds(records: seq<LearningRecord>, child: int, w: Window): set<int> {
    var rs := ChildRecords(records, child, w);
    set id | id in LearnedIds(records, child, w) && IsWeakAmong(rs, id)
  }

  /** Word `id` is learned in window `w` exactly when some attempt at it survives the filter. */
  lemma LearnedIffAttempted(records: seq<LearningRecord>, child: int, w: Window, id: int)
    ensures id in LearnedIds(records, child, w) <==> Attempts(ChildRecords(records, child, w), id) > 0
  {
    var rs := ChildRecords(records, child, w);
    if id in LearnedIds(records, child, w) {
      var r :| r in records && r.childId == child && InWindow(w, r.answeredAt) && r.wordId == id;
      assert r in rs;
    }
    if Attempts(rs, id) > 0 {
      var i :| 0 <= i < |rs| && rs[i].wordId == id;
      assert rs[i] in rs;
    }
  }

  /** A word is weak in a window exactly when the records left by the window make it weak;
      the window is applied before grouping. */
  lemma WeakIdsCharacterized(records: seq<LearningRecord>, child: int, w: Window, id: int)
    ensures id in WeakIds(records, child, w) <==> IsWeakAmong(ChildRecords(records, child, w), id)
  {
    LearnedIffAttempted(records, child, w, id);
  }

  /** Every weak word is a learned word of the same window. */
  lemma WeakIdsAreLearned(records: seq<LearningRecord>, child: int, w: Window)
    ensures WeakIds(records, child, w) <= LearnedIds(records, child, w)
  {
  }

  /** A narrower window never yields more learned words. */
  lemma LearnedIdsMonotonic(records: seq<LearningRecord>, child: int, w1: Window, w2: Window)
    requires forall t :: InWindow(w1, t) ==> InWindow(w2, t)
    ensures LearnedIds(records, child, w1) <= LearnedIds(records, child, w2)
  {
  }

  /** The menu's review counts are nested: week within month within all time. */
  lemma ReviewCountsNested(records: seq<LearningRecord>, child: int, now: int)
    ensures LearnedIds(records, child, LearnedWindow(Some("week"), now))
         <= LearnedIds(records, child, LearnedWindow(Some("month"), now))
         <= LearnedIds(records, child, LearnedWindow(None, now))
    ensures |LearnedIds(records, child, LearnedWindow(Some("week"), now))|
         <= |LearnedIds(records, child, LearnedWindow(Some("month"), now))|
         <= |LearnedIds(records, child, LearnedWindow(None, now))|
  {
    var week := LearnedIds(records, child, LearnedWindow(Some("week"), now));
    var month := LearnedIds(records, child, LearnedWindow(Some("month"), now));
    var all := LearnedIds(records, child, LearnedWindow(None, now));
    LearnedIdsMonotonic(records, child, LearnedWindow(Some("week"), now), LearnedWindow(Some("month"), now));
    LearnedIdsMonotonic(records, child, LearnedWindow(Some("month"), now), AnyTime);
    SubsetCardinality(week, month);
    SubsetCardinality(month, all);
  }

  lemma SubsetCardinality(a: set<int>, b: set<int>)
    requires a <= b
    ensures |a| <= |b|
  {
    assert b == a + (b - a);
  }

  /** `month` read at `tMonth` and `over_month` read at a later `tOverMonth` together give
      every learned word; a word is in both exactly when it was answered on or after the
      first cutoff and also before the second. */
  lemma MonthSplitsLearnedIds(records: seq<LearningRecord>, child: int, tMonth: int, tOverMonth: int)
    requires tMonth <= tOverMonth
    ensures LearnedIds(records, child, LearnedWindow(Some("month"), tMonth))
          + LearnedIds(records, child, LearnedWindow(Some("over_month"), tOverMonth))
         == LearnedIds(records, child, LearnedWindow(None, tMonth))
    ensures forall id ::
      id in LearnedIds(records, child, LearnedWindow(Some("month"), tMonth))
          * LearnedIds(records, child, LearnedWindow(Some("over_month"), tOverMonth))
      <==> ((exists r :: r in records && r.childId == child && r.wordId == id && r.answeredAt >= tMonth - Month)
         && (exists r :: r in records && r.childId == child && r.wordId == id && r.answeredAt < tOverMonth - Month))
  {
  }

  /** Answering appends one record; the child's learned words grow by exactly that word. */
  lemma AnswerAddsLearnedWord(records: seq<LearningRecord>, r: LearningRecord)
    ensures LearnedIds(records + [r], r.childId, AnyTime) == LearnedIds(records, r.childId, AnyTime) + {r.wordId}
  {
    var child := r.childId;
    forall id | id in LearnedIds(records + [r], child, AnyTime)
      ensures id in LearnedIds(records, child, AnyTime) + {r.wordId}
    {
      var q :| q in records + [r] && q.childId == child && q.wordId == id;
      if q != r {
        assert q in records;
      }
    }
    assert r in records + [r];
    forall id | id in LearnedIds(records, child, AnyTime)
      ensures id in LearnedIds(records + [r], child, AnyTime)
    {
      var q :| q in records && q.childId == child && q.wordId == id;
      assert q in records + [r];
    }
  }

  /** A correct answer without a hint never turns a strong word weak, and any other
      answer never turns a weak word strong. */
  lemma AnswerEffectOnWeakness(rs: seq<LearningRecord>, r: LearningRecord)
    ensures r.isCorrect && !r.usedHint ==> (IsWeakAmong(rs + [r], r.wordId) ==> IsWeakAmong(rs, r.wordId))
    ensures !(r.isCorrect && !r.usedHint) ==> (IsWeakAmong(rs, r.wordId) ==> IsWeakAmong(rs + [r], r.wordId))
  {
    assert (rs + [r])[..|rs|] == rs;
  }
}
