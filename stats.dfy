/** The monthly calendar report (`child_stats`, and its verbatim copy `my_stats`):
    one entry per day of the requested month, each holding a 3x3 grid of answer
    counts, session type by outcome, for the child's answers on that regional day. */
module Stats {
  import opened Wrappers
  import opened Seqs
  import opened Clock
  import opened Ledger

  /** The three outcome columns of the grid. */
  datatype Outcome = CorrectNoHint | CorrectWithHint | Incorrect

  /** The CASE condition of one grid cell: the session type matches and
      `correct`: correct and no hint; `hint`: correct with a hint; `incorrect`: not correct. */
  predicate InCell(r: LearningRecord, t: SessionType, o: Outcome) {
    r.sessionType == t &&
    match o
    case CorrectNoHint => r.isCorrect && !r.usedHint
    case CorrectWithHint => r.isCorrect && r.usedHint
    case Incorrect => !r.isCorrect
  }

  /** Every record lies in exactly one cell of the grid. */
  lemma ExactlyOneCell(r: LearningRecord)
    ensures InCell(r, r.sessionType, if !r.isCorrect then Incorrect else if r.usedHint then CorrectWithHint else CorrectNoHint)
    ensures forall t, o :: InCell(r, t, o) ==>
              (t == r.sessionType && o == (if !r.isCorrect then Incorrect else if r.usedHint then CorrectWithHint else CorrectNoHint))
  {
  }

  /** One entry of the report (the `DailyStat` schema). */
  datatype DailyStat = DailyStat(
    date: Date,
    todayCorrect: nat, todayHint: nat, todayIncorrect: nat,
    reviewCorrect: nat, reviewHint: nat, reviewIncorrect: nat,
    weakCorrect: nat, weakHint: nat, weakIncorrect: nat)

  /** The counter of one cell. */
  function Cell(s: DailyStat, t: SessionType, o: Outcome): nat {
    match (t, o)
    case (Today, CorrectNoHint) => s.todayCorrect
    case (Today, CorrectWithHint) => s.todayHint
    case (Today, Incorrect) => s.todayIncorrect
    case (Review, CorrectNoHint) => s.reviewCorrect
    case (Review, CorrectWithHint) => s.reviewHint
    case (Review, Incorrect) => s.reviewIncorrect
    case (Weak, CorrectNoHint) => s.weakCorrect
    case (Weak, CorrectWithHint) => s.weakHint
    case (Weak, Incorrect) => s.weakIncorrect
  }

  /** The entry the loop puts on a day without a row: every counter zero. */
  function ZeroStat(date: Date): DailyStat {
    DailyStat(date, 0, 0, 0, 0, 0, 0, 0, 0, 0)
  }

  /** The sum of the nine counters. */
  function CellSum(s: DailyStat): nat {
    s.todayCorrect + s.todayHint + s.todayIncorrect
    + s.reviewCorrect + s.reviewHint + s.reviewIncorrect
    + s.weakCorrect + s.weakHint + s.weakIncorrect
  }

  /** `SUM(CASE WHEN <cell> THEN 1 ELSE 0 END)` over `rs`. */
  function CellCount(rs: seq<LearningRecord>, t: SessionType, o: Outcome): (n: nat)
    ensures n <= |rs|
  {
    if rs == [] then 0
    else CellCount(rs[..|rs| - 1], t, o) + (if InCell(rs[|rs| - 1], t, o) then 1 else 0)
  }

  /** The nine sums of the query for one group of records. */
  function Tally(date: Date, rs: seq<LearningRecord>): DailyStat {
    DailyStat(date,
      CellCount(rs, Today, CorrectNoHint), CellCount(rs, Today, CorrectWithHint), CellCount(rs, Today, Incorrect),
      CellCount(rs, Review, CorrectNoHint), CellCount(rs, Review, CorrectWithHint), CellCount(rs, Review, Incorrect),
      CellCount(rs, Weak, CorrectNoHint), CellCount(rs, Weak, CorrectWithHint), CellCount(rs, Weak, Incorrect))
  }

  /** The child's records whose regional day is `day` (an ordinal). */
  function DayRecords(records: seq<LearningRecord>, child: int, day: int): seq<LearningRecord> {
    if records == [] then []
    else
      var r := records[|records| - 1];
      DayRecords(records[..|records| - 1], child, day)
        + (if r.childId == child && RegionalOrdinal(r.answeredAt) == day then [r] else [])
  }

  /** The report entry for date `d`: the nine counts over the child's records answered
      on that regional day. */
  function DayStat(records: seq<LearningRecord>, child: int, d: Date): DailyStat
    requires 1 <= d.month <= 12
  {
    Tally(d, DayRecords(records, child, Ordinal(d)))
  }

  /** A group without records has all nine counters at zero. */
  lemma EmptyGroupIsZero(date: Date, rs: seq<LearningRecord>)
    requires |rs| == 0
    ensures Tally(date, rs) == ZeroStat(date)
  {
  }

  /** The entries of days 1 to `n` of a month whose first day has ordinal `first`, in order. */
  function MonthPrefix(records: seq<LearningRecord>, child: int, year: int, month: int, first: int, n: nat): (r: seq<DailyStat>)
    ensures |r| == n
  {
    if n == 0 then [] else
      MonthPrefix(records, child, year, month, first, n - 1)
        + [Tally(Date(year, month, n), DayRecords(records, child, first + n - 1))]
  }

  /** Walking one more day appends that day's counts. */
  lemma MonthPrefixStep(records: seq<LearningRecord>, child: int, year: int, month: int, first: int, current: int)
    requires first <= current
    ensures MonthPrefix(records, child, year, month, first, current - first + 1)
      == MonthPrefix(records, child, year, month, first, current - first)
         + [Tally(Date(year, month, current - first + 1), DayRecords(records, child, current))]
  {
  }

  /** The report the endpoint promises for a valid month: day 1 to the last day, in order. */
  function MonthStats(records: seq<LearningRecord>, child: int, year: int, month: int): (r: seq<DailyStat>)
    requires ValidYearMonth(year, month)
    ensures |r| == DaysInMonth(year, month)
  {
    MonthPrefix(records, child, year, month, Ordinal(Date(year, month, 1)), DaysInMonth(year, month))
  }

  /** Position `i` of the first `n` days holds the counts of the day `i` days after the first. */
  lemma {:induction false} MonthPrefixEntry(records: seq<LearningRecord>, child: int, year: int, month: int, first: int, n: nat, i: int)
    requires 0 <= i < n
    ensures MonthPrefix(records, child, year, month, first, n)[i]
              == Tally(Date(year, month, i + 1), DayRecords(records, child, first + i))
  {
    if i < n - 1 {
      MonthPrefixEntry(records, child, year, month, first, n - 1, i);
    }
  }

  /** The report has one entry per day of the month, dated with consecutive days, and each
      entry counts the records whose regional day is that date. */
  lemma MonthStatsDays(records: seq<LearningRecord>, child: int, year: int, month: int, i: int)
    requires ValidYearMonth(year, month) && 0 <= i < DaysInMonth(year, month)
    ensures MonthStats(records, child, year, month)[i] == DayStat(records, child, Date(year, month, i + 1))
    ensures MonthStats(records, child, year, month)[i].date == Date(year, month, i + 1)
    ensures ValidDate(MonthStats(records, child, year, month)[i].date)
    ensures i + 1 < DaysInMonth(year, month) ==>
              MonthStats(records, child, year, month)[i + 1].date == NextDay(MonthStats(records, child, year, month)[i].date)
  {
    var first := Ordinal(Date(year, month, 1));
    MonthPrefixEntry(records, child, year, month, first, DaysInMonth(year, month), i);
    OrdinalInMonth(year, month, i + 1);
    if i + 1 < DaysInMonth(year, month) {
      MonthPrefixEntry(records, child, year, month, first, DaysInMonth(year, month), i + 1);
    }
  }

  datatype StatsError =
    | InvalidDate   // `date(year, month, 1)` or `monthrange` raise: year outside 1..9999 or month outside 1..12
    | DateOverflow  // `current += timedelta(days=1)` steps past 9999-12-31
    | ChildNotFound // the child is not the caller's

  /** What the stats endpoints answer for a month once the child is known: an invalid
      year or month is refused, December 9999 overflows after its last day, and any other
      month gets its calendar. */
  function MonthReport(records: seq<LearningRecord>, child: int, year: int, month: int): (r: Result<seq<DailyStat>, StatsError>)
    ensures r.Success? ==> ValidYearMonth(year, month) && |r.value| == DaysInMonth(year, month)
  {
    if !ValidYearMonth(year, month) then Failure(InvalidDate)
    else if (year, month) == (MaxYear, 12) then Failure(DateOverflow)
    else Success(MonthStats(records, child, year, month))
  }

  /** The grouped query `GROUP BY date(answered_at, '+9 hours')` between the ordinals
      `first` and `last`, turned into the dictionary keyed by day: a day has a row exactly
      when the child answered something on it, and the row counts that day's records. */
  method GroupRows(records: seq<LearningRecord>, child: int, year: int, month: int, first: int, last: int)
    returns (m: map<int, DailyStat>)
    ensures forall d :: d in m <==> (first <= d <= last
      && exists r :: r in records && r.childId == child && RegionalOrdinal(r.answeredAt) == d)
    ensures forall d :: first <= d <= last && d !in m ==> DayRecords(records, child, d) == []
    ensures forall d :: d in m ==> m[d] == Tally(Date(year, month, d - first + 1), DayRecords(records, child, d))
  {
    m := map d | first <= d <= last && |DayRecords(records, child, d)| > 0
      :: Tally(Date(year, month, d - first + 1), DayRecords(records, child, d));
    forall d | first <= d <= last
      ensures |DayRecords(records, child, d)| > 0
          <==> exists r :: r in records && r.childId == child && RegionalOrdinal(r.answeredAt) == d
    {
      var rs := DayRecords(records, child, d);
      if |rs| > 0 {
        DayRecordsMembers(records, child, d, rs[0]);
      }
      if exists r :: r in records && r.childId == child && RegionalOrdinal(r.answeredAt) == d {
        var r :| r in records && r.childId == child && RegionalOrdinal(r.answeredAt) == d;
        DayRecordsMembers(records, child, d, r);
      }
    }
  }

  /** The body of `child_stats` / `my_stats` after the ownership check: build the
      grouped rows, then walk the month day by day, taking a day's row when there is one
      and a zero entry otherwise. */
  method MonthlyStats(records: seq<LearningRecord>, child: int, year: int, month: int)
    returns (r: Result<seq<DailyStat>, StatsError>)
    ensures !ValidYearMonth(year, month) ==> r == Failure(InvalidDate)
    ensures ValidYearMonth(year, month) && (year, month) == (MaxYear, 12) ==> r == Failure(DateOverflow)
    ensures ValidYearMonth(year, month) && (year, month) != (MaxYear, 12) ==> r == Success(MonthStats(records, child, year, month))
    ensures r == MonthReport(records, child, year, month)
  {
    if !ValidYearMonth(year, month) {
      return Failure(InvalidDate);
    }
    var first := Ordinal(Date(year, month, 1));
    var last := Ordinal(Date(year, month, DaysInMonth(year, month)));
    assert last == first + DaysInMonth(year, month) - 1 && last <= MaxOrdinal
      && (last == MaxOrdinal <==> (year, month) == (MaxYear, 12)) by {
      LastDayOfMonthBound(year, month);
      OrdinalInMonth(year, month, DaysInMonth(year, month));
    }
    var statsMap := GroupRows(records, child, year, month, first, last);
    var result: seq<DailyStat> := [];
    var current := first;
    while current <= last
      invariant first <= current <= last + 1
      invariant current <= MaxOrdinal
      invariant result == MonthPrefix(records, child, year, month, first, current - first)
    {
      var date := Date(year, month, current - first + 1);
      var entry;
      if current in statsMap {
        entry := statsMap[current];
      } else {
        entry := ZeroStat(date);
        EmptyGroupIsZero(date, DayRecords(records, child, current));
      }
      assert entry == Tally(date, DayRecords(records, child, current));
      MonthPrefixStep(records, child, year, month, first, current);
      result := result + [entry];
      if current == MaxOrdinal {
        return Failure(DateOverflow);
      }
      current := current + 1;
    }
    return Success(result);
  }

  /** The outcome column a record falls in. */
  function OutcomeOf(r: LearningRecord): (o: Outcome)
    ensures InCell(r, r.sessionType, o)
  {
    if !r.isCorrect then Incorrect else if r.usedHint then CorrectWithHint else CorrectNoHint
  }

  /** One more record adds one to its own cell and leaves the other eight alone. */
  lemma TallyAppend(date: Date, rs: seq<LearningRecord>, r: LearningRecord, t: SessionType, o: Outcome)
    ensures Cell(Tally(date, rs + [r]), t, o)
      == Cell(Tally(date, rs), t, o) + (if t == r.sessionType && o == OutcomeOf(r) then 1 else 0)
  {
    assert (rs + [r])[..|rs|] == rs;
    ExactlyOneCell(r);
  }

  /** The nine counters of a group add up to the number of records in it: every record
      is counted in exactly one cell. */
  lemma {:induction false} TallySum(date: Date, rs: seq<LearningRecord>)
    ensures CellSum(Tally(date, rs)) == |rs|
    decreases |rs|
  {
    if rs != [] {
      var init, r := rs[..|rs| - 1], rs[|rs| - 1];
      TallySum(date, init);
      assert rs == init + [r];
      ExactlyOneCell(r);
    }
  }

  /** A record is in the group of regional day `day` exactly when it is one of the child's
      records answered on that day. */
  lemma {:induction false} DayRecordsMembers(records: seq<LearningRecord>, child: int, day: int, r: LearningRecord)
    ensures r in DayRecords(records, child, day) <==>
      r in records && r.childId == child && RegionalOrdinal(r.answeredAt) == day
    decreases |records|
  {
    if records != [] {
      var init := records[..|records| - 1];
      DayRecordsMembers(init, child, day, r);
      assert records == init + [records[|records| - 1]];
    }
  }

  /** Recording one more answer extends exactly the group of the child and regional day
      it belongs to. */
  lemma DayRecordsAppend(records: seq<LearningRecord>, r: LearningRecord, child: int, day: int)
    ensures DayRecords(records + [r], child, day)
      == DayRecords(records, child, day)
         + (if r.childId == child && RegionalOrdinal(r.answeredAt) == day then [r] else [])
  {
    assert (records + [r])[..|records|] == records;
  }

  /** Each day's nine counters add up to the number of the child's answers that day. */
  lemma DayTotal(records: seq<LearningRecord>, child: int, year: int, month: int, i: int)
    requires ValidYearMonth(year, month) && 0 <= i < DaysInMonth(year, month)
    ensures CellSum(MonthStats(records, child, year, month)[i])
      == |DayRecords(records, child, Ordinal(Date(year, month, i + 1)))|
  {
    MonthStatsDays(records, child, year, month, i);
    TallySum(Date(year, month, i + 1), DayRecords(records, child, Ordinal(Date(year, month, i + 1))));
  }

  /** A new answer raises exactly one counter of the report: the cell of its session
      type and outcome, on the day it was answered (regional time), and only in the
      report of its own child. */
  lemma AnswerRaisesOneCell(records: seq<LearningRecord>, r: LearningRecord, child: int, year: int, month: int,
                            i: int, t: SessionType, o: Outcome)
    requires ValidYearMonth(year, month) && 0 <= i < DaysInMonth(year, month)
    ensures Cell(MonthStats(records + [r], child, year, month)[i], t, o)
      == Cell(MonthStats(records, child, year, month)[i], t, o)
         + (if r.childId == child && RegionalOrdinal(r.answeredAt) == Ordinal(Date(year, month, i + 1))
               && t == r.sessionType && o == OutcomeOf(r) then 1 else 0)
  {
    var date := Date(year, month, i + 1);
    var before := DayRecords(records, child, Ordinal(date));
    var after := DayRecords(records + [r], child, Ordinal(date));
    MonthStatsDays(records, child, year, month, i);
    MonthStatsDays(records + [r], child, year, month, i);
    DayRecordsAppend(records, r, child, Ordinal(date));
    if r.childId == child && RegionalOrdinal(r.answeredAt) == Ordinal(date) {
      TallyAppend(date, before, r, t, o);
    } else {
      assert after == before + [];
      assert before + [] == before;
    }
  }
}
