/** The backend's persistent state (users, catalog, answer ledger, per-child progress)
    and the endpoints that read or change it: the learner's today quiz, answer and menu,
    the parent's stats, weak-word report, child deletion and password reset, and the
    word import. */
module Api {
  import opened Wrappers
  import opened Ledger
  import opened Progress
  import opened Quiz
  import Clock
  import Stats
  import Report
  import Admin

  datatype Role = ParentRole | ChildRole

  /** A row of the `users` table; a child carries its parent's id. The password hash is
      whatever the hashing library produced. */
  datatype User = User(id: int, username: string, hashedPassword: string, role: Role, parentId: Option<int>)

  /** The ownership test every parent endpoint makes: the child exists and its
      `parent_id` is the caller. */
  predicate Owns(users: map<int, User>, parent: int, child: int) {
    child in users && users[child].parentId == Some(parent)
  }

  /** The failed answers: the two 404s, and the server error of an integer the database
      cannot store. */
  datatype ApiError = WordNotFound | ChildNotFound | IntegerOverflow

  /** The range of SQLite's `INTEGER` storage class, a signed 64-bit integer. */
  const MinInteger := -0x8000_0000_0000_0000
  const MaxInteger := 0x7FFF_FFFF_FFFF_FFFF

  /** Every word to be added has a section the database can store. */
  predicate SectionsFit(added: seq<Admin.NewWord>) {
    forall k :: 0 <= k < |added| ==> MinInteger <= added[k].section <= MaxInteger
  }

  /** The reply to an answer (the `AnswerResult` schema). */
  datatype AnswerResult = AnswerResult(isCorrect: bool, correctAnswer: string, englishKatakana: string)

  /** The reply of `menu_status` (the `MenuStatus` schema). */
  datatype MenuCounts = MenuCounts(
    today: nat,
    reviewWeek: nat, reviewMonth: nat, reviewOverMonth: nat, reviewAll: nat,
    weakMonth: nat, weakOverMonth: nat, weakAll: nat)

  /** The clock readings of `menu_status`, one per windowed query (the all-time queries
      read no clock). */
  datatype MenuClock = MenuClock(week: int, month: int, overMonth: int, weakMonth: int, weakOverMonth: int)

  /** `query(Word).filter(Word.id == id).first()`. */
  function FindWord(words: seq<Word>, id: int): (r: Option<Word>)
    ensures r.None? <==> forall w :: w in words ==> w.id != id
    ensures r.Some? ==> r.value in words && r.value.id == id
    decreases |words|
  {
    if words == [] then None
    else if words[0].id == id then Some(words[0])
    else FindWord(words[1..], id)
  }

  /** The ledger after `DELETE FROM learning_records WHERE child_id = child`. */
  function RemoveChild(records: seq<LearningRecord>, child: int): (r: seq<LearningRecord>)
    ensures forall x :: x in r <==> x in records && x.childId != child
    decreases |records|
  {
    if records == [] then []
    else
      var last := records[|records| - 1];
      RemoveChild(records[..|records| - 1], child) + (if last.childId != child then [last] else [])
  }

  /** The largest id in the catalog, 0 for an empty one. */
  function MaxId(words: seq<Word>): (m: int)
    ensures forall w :: w in words ==> w.id <= m
    ensures words == [] ==> m == 0
    decreases |words|
  {
    if words == [] then 0
    else
      var m := MaxId(words[..|words| - 1]);
      assert forall w :: w in words ==> w in words[..|words| - 1] || w == words[|words| - 1];
      if words[|words| - 1].id > m then words[|words| - 1].id else m
  }

  /** The imported words as the database stores them: consecutive ids from `next`. */
  function Stamped(added: seq<Admin.NewWord>, next: int): (ws: seq<Word>)
    ensures |ws| == |added|
    ensures forall k :: 0 <= k < |ws| ==>
      ws[k] == Word(next + k, added[k].english, added[k].japanese, added[k].englishKatakana, added[k].section)
    decreases |added|
  {
    if added == [] then []
    else
      var a := added[|added| - 1];
      Stamped(added[..|added| - 1], next) + [Word(next + |added| - 1, a.english, a.japanese, a.englishKatakana, a.section)]
  }

  /** New ids above every old one keep the catalog's ids unique. */
  lemma StampedKeepsIdsUnique(words: seq<Word>, added: seq<Admin.NewWord>)
    requires UniqueIds(words)
    ensures UniqueIds(words + Stamped(added, MaxId(words) + 1))
  {
    var all := words + Stamped(added, MaxId(words) + 1);
    forall i, j | 0 <= i < j < |all|
      ensures all[i].id != all[j].id
    {
      if j >= |words| && i < |words| {
        assert words[i] in words;
      }
    }
  }

  /** The catalog after an import commits: the old words, then the fresh ones under new ids. */
  function Committed(catalog: seq<Word>, added: seq<Admin.NewWord>): (ws: seq<Word>)
    ensures UniqueIds(catalog) ==> UniqueIds(ws)
    ensures |ws| == |catalog| + |added| && ws[..|catalog|] == catalog
  {
    assert UniqueIds(catalog) ==> UniqueIds(catalog + Stamped(added, MaxId(catalog) + 1)) by {
      if UniqueIds(catalog) {
        StampedKeepsIdsUnique(catalog, added);
      }
    }
    catalog + Stamped(added, MaxId(catalog) + 1)
  }

  /** Deleting a child's answers leaves every other child's ledger, in every window,
      exactly as it was. */
  lemma {:induction false} RemoveChildKeepsOthers(records: seq<LearningRecord>, child: int, other: int, w: Window)
    requires other != child
    ensures ChildRecords(RemoveChild(records, child), other, w) == ChildRecords(records, other, w)
    decreases |records|
  {
    if records != [] {
      var init, last := records[..|records| - 1], records[|records| - 1];
      var kept := RemoveChild(init, child);
      RemoveChildKeepsOthers(init, child, other, w);
      if last.childId != child {
        assert RemoveChild(records, child) == kept + [last];
        assert (kept + [last])[..|kept|] == kept;
      } else {
        assert RemoveChild(records, child) == kept;
      }
    }
  }

  /** None of the deleted child's answers remain, in any window. */
  lemma RemoveChildLeavesNone(records: seq<LearningRecord>, child: int, w: Window)
    ensures ChildRecords(RemoveChild(records, child), child, w) == []
  {
  }

  /** Deleting a child leaves every other child's learned words as they were. */
  lemma RemoveChildKeepsLearnedIds(records: seq<LearningRecord>, child: int, other: int, w: Window)
    requires other != child
    ensures LearnedIds(RemoveChild(records, child), other, w) == LearnedIds(records, other, w)
  {
    var kept := RemoveChild(records, child);
    forall id | id in LearnedIds(records, other, w)
      ensures id in LearnedIds(kept, other, w)
    {
      var r :| r in records && r.childId == other && InWindow(w, r.answeredAt) && r.wordId == id;
      assert r in kept;
    }
  }

  /** How the learning menu's id sets compare, each windowed query at its own clock
      reading: the month, over_month and weak sets never exceed all learned ids, and the
      other comparisons hold when the readings are ordered as stated. */
  lemma MenuCountsOrdered(records: seq<LearningRecord>, child: int, clock: MenuClock)
    ensures var all := |LearnedIds(records, child, AnyTime)|;
      && |LearnedIds(records, child, LearnedWindow(Some("month"), clock.month))| <= all
      && |LearnedIds(records, child, LearnedWindow(Some("over_month"), clock.overMonth))| <= all
      && |WeakIds(records, child, AnyTime)| <= all
    ensures clock.month - Month <= clock.week - Week ==>
      |LearnedIds(records, child, LearnedWindow(Some("week"), clock.week))|
        <= |LearnedIds(records, child, LearnedWindow(Some("month"), clock.month))|
    ensures clock.month <= clock.overMonth ==>
      |LearnedIds(records, child, AnyTime)|
        <= |LearnedIds(records, child, LearnedWindow(Some("month"), clock.month))|
          + |LearnedIds(records, child, LearnedWindow(Some("over_month"), clock.overMonth))|
    ensures clock.month <= clock.weakMonth ==>
      |WeakIds(records, child, WeakWindow(Some("month"), clock.weakMonth))|
        <= |LearnedIds(records, child, LearnedWindow(Some("month"), clock.month))|
    ensures clock.weakOverMonth <= clock.overMonth ==>
      |WeakIds(records, child, WeakWindow(Some("over_month"), clock.weakOverMonth))|
        <= |LearnedIds(records, child, LearnedWindow(Some("over_month"), clock.overMonth))|
  {
    var week := LearnedIds(records, child, LearnedWindow(Some("week"), clock.week));
    var month := LearnedIds(records, child, LearnedWindow(Some("month"), clock.month));
    var overMonth := LearnedIds(records, child, LearnedWindow(Some("over_month"), clock.overMonth));
    var all := LearnedIds(records, child, AnyTime);
    var weakMonth := WeakIds(records, child, WeakWindow(Some("month"), clock.weakMonth));
    var weakOverMonth := WeakIds(records, child, WeakWindow(Some("over_month"), clock.weakOverMonth));
    var weakAll := WeakIds(records, child, AnyTime);
    LearnedIdsMonotonic(records, child, LearnedWindow(Some("month"), clock.month), AnyTime);
    LearnedIdsMonotonic(records, child, LearnedWindow(Some("over_month"), clock.overMonth), AnyTime);
    SubsetCardinality(month, all);
    SubsetCardinality(overMonth, all);
    WeakIdsAreLearned(records, child, AnyTime);
    SubsetCardinality(weakAll, all);
    if clock.month - Month <= clock.week - Week {
      LearnedIdsMonotonic(records, child,
        LearnedWindow(Some("week"), clock.week), LearnedWindow(Some("month"), clock.month));
      SubsetCardinality(week, month);
    }
    if clock.month <= clock.overMonth {
      MonthSplitsLearnedIds(records, child, clock.month, clock.overMonth);
      assert all == month + overMonth;
    }
    if clock.month <= clock.weakMonth {
      WeakIdsAreLearned(records, child, WeakWindow(Some("month"), clock.weakMonth));
      LearnedIdsMonotonic(records, child,
        LearnedWindow(Some("month"), clock.weakMonth), LearnedWindow(Some("month"), clock.month));
      SubsetCardinality(weakMonth, month);
    }
    if clock.weakOverMonth <= clock.overMonth {
      WeakIdsAreLearned(records, child, WeakWindow(Some("over_month"), clock.weakOverMonth));
      LearnedIdsMonotonic(records, child,
        LearnedWindow(Some("over_month"), clock.weakOverMonth), LearnedWindow(Some("over_month"), clock.overMonth));
      SubsetCardinality(weakOverMonth, overMonth);
    }
  }

  class Store {
    var users: map<int, User>
    var words: seq<Word>
    var records: seq<LearningRecord>
    var progress: map<int, ProgressRow>

    /** Word ids are the catalog's primary key. */
    predicate Valid()
      reads this
    {
      UniqueIds(words)
    }

    /** A store over a given user table and catalog, with no answers and no progress rows. */
    constructor (users: map<int, User>, words: seq<Word>)
      requires UniqueIds(words)
      ensures Valid()
      ensures this.users == users && this.words == words && records == [] && progress == map[]
    {
      this.users := users;
      this.words := words;
      records := [];
      progress := map[];
    }

    /** The child's progress row, or the one `_get_progress` would create. */
    function ProgressOf(child: int): ProgressRow
      reads this
    {
      if child in progress then progress[child] else NewProgress
    }

    /** `_get_progress`: fetch the child's row, creating section 1 without a timestamp on
        the first call. */
    method GetProgress(child: int) returns (p: ProgressRow)
      modifies this
      ensures p == old(ProgressOf(child))
      ensures progress == old(progress)[child := p]
      ensures users == old(users) && words == old(words) && records == old(records)
    {
      if child !in progress {
        progress := progress[child := NewProgress];
      }
      p := progress[child];
    }

    /** `today_words` at instant `now`: apply the daily step to the child's progress, then
        hand out every word of the (possibly new) current section. The database's random
        order is not modelled: the quiz is specified up to reordering. */
    method TodayWords(child: int, now: int) returns (quiz: seq<Word>)
      modifies this
      ensures progress == old(progress)[child := Advance(old(ProgressOf(child)), now)]
      ensures users == old(users) && words == old(words) && records == old(records)
      ensures multiset(quiz) == multiset(SectionWords(words, progress[child].currentSection))
      ensures forall w :: w in quiz <==> w in words && w.section == progress[child].currentSection
    {
      var p := GetProgress(child);
      if p.lastSectionDate.None? {
        p := p.(lastSectionDate := Some(now));
        progress := progress[child := p];
      } else if Clock.RegionalOrdinal(p.lastSectionDate.value) != Clock.RegionalOrdinal(now) {
        p := p.(currentSection := p.currentSection + 1, lastSectionDate := Some(now));
        progress := progress[child := p];
      }
      quiz := SectionWords(words, p.currentSection);
    }

    /** `submit_answer` at instant `now`: an unknown word is refused and nothing is
        recorded; otherwise the verdict is computed and exactly one record is appended. */
    method SubmitAnswer(child: int, wordId: int, answer: string, usedHint: bool, sessionType: SessionType, now: int)
      returns (r: Result<AnswerResult, ApiError>)
      modifies this
      ensures users == old(users) && words == old(words) && progress == old(progress)
      ensures FindWord(words, wordId).None? ==> r == Failure(WordNotFound) && records == old(records)
      ensures FindWord(words, wordId).Some? ==>
        var w := FindWord(words, wordId).value;
        && r == Success(AnswerResult(IsCorrectAnswer(answer, w.english), w.english, w.englishKatakana))
        && records == old(records) + [LearningRecord(child, wordId, IsCorrectAnswer(answer, w.english), usedHint, now, sessionType)]
    {
      var found := FindWord(words, wordId);
      if found.None? {
        return Failure(WordNotFound);
      }
      var word := found.value;
      var isCorrect := Text.Lower(Text.Strip(answer)) == Text.Lower(word.english);
      records := records + [LearningRecord(child, wordId, isCorrect, usedHint, now, sessionType)];
      r := Success(AnswerResult(isCorrect, word.english, word.englishKatakana));
    }

    /** `menu_status`: the size of today's section and of the learned and weak id sets per
        period, each windowed query reading the clock afresh (`clock`). The counts over all
        time bound the month counts and the weak counts. The others are related only when
        the readings are in the order the calls make them: week within month when the month
        cutoff is not later than the week cutoff, all time within month plus over_month when
        over_month was read no earlier, and the weak counts within the learned counts of the
        same period when the readings allow it. */
    method MenuStatus(child: int, clock: MenuClock) returns (m: MenuCounts)
      modifies this
      ensures progress == old(progress)[child := old(ProgressOf(child))]
      ensures users == old(users) && words == old(words) && records == old(records)
      ensures m.today == |SectionWords(words, progress[child].currentSection)|
      ensures m.reviewWeek == |LearnedIds(records, child, LearnedWindow(Some("week"), clock.week))|
      ensures m.reviewMonth == |LearnedIds(records, child, LearnedWindow(Some("month"), clock.month))|
      ensures m.reviewOverMonth == |LearnedIds(records, child, LearnedWindow(Some("over_month"), clock.overMonth))|
      ensures m.reviewAll == |LearnedIds(records, child, AnyTime)|
      ensures m.weakMonth == |WeakIds(records, child, WeakWindow(Some("month"), clock.weakMonth))|
      ensures m.weakOverMonth == |WeakIds(records, child, WeakWindow(Some("over_month"), clock.weakOverMonth))|
      ensures m.weakAll == |WeakIds(records, child, AnyTime)|
      ensures m.reviewMonth <= m.reviewAll && m.reviewOverMonth <= m.reviewAll && m.weakAll <= m.reviewAll
      ensures clock.month - Month <= clock.week - Week ==> m.reviewWeek <= m.reviewMonth
      ensures clock.month <= clock.overMonth ==> m.reviewAll <= m.reviewMonth + m.reviewOverMonth
      ensures clock.month <= clock.weakMonth ==> m.weakMonth <= m.reviewMonth
      ensures clock.weakOverMonth <= clock.overMonth ==> m.weakOverMonth <= m.reviewOverMonth
    {
      var p := GetProgress(child);
      var week := LearnedIds(records, child, LearnedWindow(Some("week"), clock.week));
      var month := LearnedIds(records, child, LearnedWindow(Some("month"), clock.month));
      var overMonth := LearnedIds(records, child, LearnedWindow(Some("over_month"), clock.overMonth));
      var all := LearnedIds(records, child, AnyTime);
      var weakMonth := WeakIds(records, child, WeakWindow(Some("month"), clock.weakMonth));
      var weakOverMonth := WeakIds(records, child, WeakWindow(Some("over_month"), clock.weakOverMonth));
      var weakAll := WeakIds(records, child, AnyTime);
      MenuCountsOrdered(records, child, clock);
      m := MenuCounts(|SectionWords(words, p.currentSection)|,
        |week|, |month|, |overMonth|, |all|, |weakMonth|, |weakOverMonth|, |weakAll|);
    }

    /** `child_stats`: a child that is not the caller's is not found; otherwise the month's
        calendar. Nothing is changed. */
    method ChildStats(parent: int, child: int, year: int, month: int)
      returns (r: Result<seq<Stats.DailyStat>, Stats.StatsError>)
      ensures !Owns(users, parent, child) ==> r == Failure(Stats.ChildNotFound)
      ensures Owns(users, parent, child) ==> r == Stats.MonthReport(records, child, year, month)
    {
      if !Owns(users, parent, child) {
        return Failure(Stats.ChildNotFound);
      }
      r := Stats.MonthlyStats(records, child, year, month);
    }

    /** `my_stats`: the same calendar for the calling child, with no ownership test. */
    method MyStats(child: int, year: int, month: int)
      returns (r: Result<seq<Stats.DailyStat>, Stats.StatsError>)
      ensures r == Stats.MonthReport(records, child, year, month)
      ensures r.Success? ==> Clock.ValidYearMonth(year, month) && |r.value| == Clock.DaysInMonth(year, month)
    {
      r := Stats.MonthlyStats(records, child, year, month);
    }

    /** `child_weak_words`: a child that is not the caller's is not found; otherwise the
        sorted weak-word report. Nothing is changed. */
    method ChildWeakWords(parent: int, child: int, sortBy: string, order: string)
      returns (r: Result<seq<Report.WeakWordOut>, ApiError>)
      ensures !Owns(users, parent, child) ==> r == Failure(ChildNotFound)
      ensures Owns(users, parent, child) ==>
        && r.Success?
        && multiset(r.value) == multiset(Report.WeakRows(words, records, child))
        && Report.SortedRows(r.value, Report.ParseSortBy(sortBy), Report.Descending(order))
    {
      if !Owns(users, parent, child) {
        return Failure(ChildNotFound);
      }
      var rows := Report.GetWeakWords(words, records, child, sortBy, order);
      r := Success(rows);
    }

    /** `my_weak_words`: the calling child's own report. */
    method MyWeakWords(child: int, sortBy: string, order: string) returns (rows: seq<Report.WeakWordOut>)
      ensures multiset(rows) == multiset(Report.WeakRows(words, records, child))
      ensures Report.SortedRows(rows, Report.ParseSortBy(sortBy), Report.Descending(order))
    {
      rows := Report.GetWeakWords(words, records, child, sortBy, order);
    }

    /** `delete_child`: a child that is not the caller's is not found and nothing changes;
        otherwise its answers, its progress row and its user row are removed. */
    method DeleteChild(parent: int, child: int) returns (r: Result<string, ApiError>)
      modifies this
      ensures !old(Owns(users, parent, child)) ==> r == Failure(ChildNotFound) && unchanged(this)
      ensures old(Owns(users, parent, child)) ==>
        && r == Success("子アカウントを削除しました")
        && records == RemoveChild(old(records), child)
        && progress == old(progress) - {child}
        && users == old(users) - {child}
        && words == old(words)
    {
      if !Owns(users, parent, child) {
        return Failure(ChildNotFound);
      }
      records := RemoveChild(records, child);
      progress := progress - {child};
      users := users - {child};
      r := Success("子アカウントを削除しました");
    }

    /** `update_child_password`: a child that is not the caller's is not found and nothing
        changes; otherwise only that child's stored hash is replaced by `hashed`, the hash
        of the new password. */
    method UpdateChildPassword(parent: int, child: int, hashed: string) returns (r: Result<string, ApiError>)
      modifies this
      ensures !old(Owns(users, parent, child)) ==> r == Failure(ChildNotFound) && unchanged(this)
      ensures old(Owns(users, parent, child)) ==>
        && r == Success("パスワードを更新しました")
        && users == old(users)[child := old(users)[child].(hashedPassword := hashed)]
        && words == old(words) && records == old(records) && progress == old(progress)
    {
      if !Owns(users, parent, child) {
        return Failure(ChildNotFound);
      }
      users := users[child := users[child].(hashedPassword := hashed)];
      r := Success("パスワードを更新しました");
    }

    /** `import_words`: run the row loop against the catalog as it stood, then commit the
        new words under fresh ids and reply with the message. A section beyond the
        database's 64-bit `INTEGER` makes the flush of that word fail, which fails the
        whole request: nothing is stored. */
    method ImportWords(rows: seq<Admin.CsvRow>) returns (r: Result<string, ApiError>)
      requires Valid()
      modifies this
      ensures Valid()
      ensures users == old(users) && records == old(records) && progress == old(progress)
      ensures SectionsFit(Admin.FreshWords(old(words), rows)) ==>
        && words == Committed(old(words), Admin.FreshWords(old(words), rows))
        && r == Success(Admin.ImportMessage(
             |Admin.FreshWords(old(words), rows)|, Admin.SkippedCount(old(words), rows), Admin.ErrorLines(old(words), rows)))
      ensures !SectionsFit(Admin.FreshWords(old(words), rows)) ==>
        r == Failure(IntegerOverflow) && words == old(words)
    {
      var imported, skipped, errors, added := Admin.ImportRows(words, rows);
      if !SectionsFit(added) {
        return Failure(IntegerOverflow);
      }
      words := Committed(words, added);
      r := Success(Admin.ImportMessage(imported, skipped, errors));
    }
  }
}
