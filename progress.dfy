/** The per-child section tracker (`child_progress` row) and the daily step
    `today_words` applies to it. */
module Progress {
  import opened Wrappers
  import Clock

  /** `current_section` and `last_section_date` (a UTC timestamp, absent before the first visit). */
  datatype ProgressRow = ProgressRow(currentSection: int, lastSectionDate: Option<int>)

  /** The row `_get_progress` creates for a child that has none: section 1, no timestamp. */
  const NewProgress := ProgressRow(1, None)

  /** The step `today_words` applies at instant `now`: the first visit only stamps the time;
      later visits move on by one section when the stored instant's regional day differs
      from today's, and re-stamp the time when they do. */
  function Advance(p: ProgressRow, now: int): (r: ProgressRow)
    ensures r.currentSection == p.currentSection || r.currentSection == p.currentSection + 1
    ensures r.lastSectionDate.Some? && Clock.RegionalOrdinal(r.lastSectionDate.value) == Clock.RegionalOrdinal(now)
  {
    match p.lastSectionDate
    case None => p.(lastSectionDate := Some(now))
    case Some(last) =>
      if Clock.RegionalOrdinal(last) != Clock.RegionalOrdinal(now) then
        ProgressRow(p.currentSection + 1, Some(now))
      else p
  }

  /** The first visit keeps the section and records `now`. */
  lemma FirstVisitDoesNotAdvance(p: ProgressRow, now: int)
    requires p.lastSectionDate == None
    ensures Advance(p, now).currentSection == p.currentSection
    ensures Advance(p, now).lastSectionDate == Some(now)
  {
  }

  /** A later visit moves on by exactly one section when the regional day has changed,
      however many days have passed, and otherwise changes nothing. */
  lemma LaterVisitAdvancesByOne(p: ProgressRow, now: int)
    requires p.lastSectionDate.Some?
    ensures var q := Advance(p, now);
      if Clock.RegionalOrdinal(p.lastSectionDate.value) != Clock.RegionalOrdinal(now)
      then q.currentSection == p.currentSection + 1 && q.lastSectionDate == Some(now)
      else q == p
  {
  }

  /** After any visit the stored instant lies on today's regional day. */
  lemma StampIsToday(p: ProgressRow, now: int)
    ensures Advance(p, now).lastSectionDate.Some?
    ensures Clock.RegionalOrdinal(Advance(p, now).lastSectionDate.value) == Clock.RegionalOrdinal(now)
  {
  }

  /** A second visit on the same regional day changes nothing. */
  lemma SameDayVisitIsIdempotent(p: ProgressRow, t1: int, t2: int)
    requires Clock.RegionalOrdinal(t1) == Clock.RegionalOrdinal(t2)
    ensures Advance(Advance(p, t1), t2) == Advance(p, t1)
  {
  }

  /** The row after a series of visits at the instants `ts`, in order. */
  function AdvanceAll(p: ProgressRow, ts: seq<int>): ProgressRow
    decreases |ts|
  {
    if ts == [] then p else Advance(AdvanceAll(p, ts[..|ts| - 1]), ts[|ts| - 1])
  }

  /** The number of consecutive pairs in `ts` that fall on different regional days. */
  function DayChanges(ts: seq<int>): nat
    decreases |ts|
  {
    if |ts| < 2 then 0
    else DayChanges(ts[..|ts| - 1])
         + (if Clock.RegionalOrdinal(ts[|ts| - 2]) != Clock.RegionalOrdinal(ts[|ts| - 1]) then 1 else 0)
  }

  /** Over any series of visits the section grows by exactly the number of regional-day
      changes between consecutive visits (counting from the stored instant, if any): never
      backwards, never twice on one day, and by one after an absence of any length. */
  lemma {:induction false} SectionCountsDayChanges(p: ProgressRow, ts: seq<int>)
    requires p.lastSectionDate.Some? || ts != []
    ensures var stamps := if p.lastSectionDate.Some? then [p.lastSectionDate.value] + ts else ts;
      AdvanceAll(p, ts).currentSection == p.currentSection + DayChanges(stamps)
    ensures AdvanceAll(p, ts).lastSectionDate.Some?
    ensures Clock.RegionalOrdinal(AdvanceAll(p, ts).lastSectionDate.value)
         == Clock.RegionalOrdinal(if ts == [] then p.lastSectionDate.value else ts[|ts| - 1])
    decreases |ts|
  {
    var stamps := if p.lastSectionDate.Some? then [p.lastSectionDate.value] + ts else ts;
    if ts == [] {
    } else {
      var init := ts[..|ts| - 1];
      var stampsInit := if p.lastSectionDate.Some? then [p.lastSectionDate.value] + init else init;
      assert stamps[..|stamps| - 1] == stampsInit;
      if p.lastSectionDate.Some? || init != [] {
        SectionCountsDayChanges(p, init);
        StampIsToday(AdvanceAll(p, init), ts[|ts| - 1]);
        assert stamps[|stamps| - 2] == (if init == [] then p.lastSectionDate.value else init[|init| - 1]);
      } else {
        assert AdvanceAll(p, init) == p;
      }
    }
  }

  /** Consequence: visits that all fall on one regional day advance at most once in total. */
  lemma OneDayAdvancesAtMostOnce(p: ProgressRow, ts: seq<int>)
    requires ts != []
    requires forall i :: 0 <= i < |ts| ==> Clock.RegionalOrdinal(ts[i]) == Clock.RegionalOrdinal(ts[0])
    ensures p.currentSection <= AdvanceAll(p, ts).currentSection <= p.currentSection + 1
  {
    SectionCountsDayChanges(p, ts);
    SameDayNoChanges(ts);
    if p.lastSectionDate.Some? {
      DayChangesSplit(p.lastSectionDate.value, ts);
    }
  }

  lemma {:induction false} SameDayNoChanges(ts: seq<int>)
    requires forall i :: 0 <= i < |ts| ==> Clock.RegionalOrdinal(ts[i]) == Clock.RegionalOrdinal(ts[0])
    ensures DayChanges(ts) == 0
    decreases |ts|
  {
    if |ts| >= 2 {
      SameDayNoChanges(ts[..|ts| - 1]);
    }
  }

  lemma {:induction false} DayChangesSplit(t0: int, ts: seq<int>)
    requires ts != []
    ensures DayChanges([t0] + ts)
         == DayChanges(ts) + (if Clock.RegionalOrdinal(t0) != Clock.RegionalOrdinal(ts[0]) then 1 else 0)
    decreases |ts|
  {
    if |ts| >= 2 {
      var init := ts[..|ts| - 1];
      assert ([t0] + ts)[..|ts|] == [t0] + init;
      DayChangesSplit(t0, init);
    }
  }
}
