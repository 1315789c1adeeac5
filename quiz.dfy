/** Quiz selection for the three learner menus (today, review, weak) and the
    answer check of `submit_answer`. */
module Quiz {
  import opened Wrappers
  import opened Seqs
  import opened Text
  import opened Ledger

  /** The most words a review or weak quiz hands out. */
  const QuizLimit := 10

  /** `WHERE section = s`: the words of one section, in catalog order. */
  function SectionWords(words: seq<Word>, section: int): (r: seq<Word>)
    ensures forall w :: w in r <==> w in words && w.section == section
  {
    Filter(words, (w: Word) => w.section == section)
  }

  /** `WHERE id IN ids`: the catalog words among the given ids, in catalog order. */
  function WordsAmong(words: seq<Word>, ids: set<int>): (r: seq<Word>)
    ensures forall w :: w in r <==> w in words && w.id in ids
  {
    Filter(words, (w: Word) => w.id in ids)
  }

  /** A filtered catalog with unique ids holds no word twice. */
  lemma {:induction false} FilterKeepsDistinct(words: seq<Word>, p: Word -> bool)
    requires UniqueIds(words)
    ensures Distinct(Filter(words, p))
    ensures UniqueIds(Filter(words, p))
    decreases |words|
  {
    if words != [] {
      var init := words[..|words| - 1];
      var last := words[|words| - 1];
      assert UniqueIds(init);
      FilterKeepsDistinct(init, p);
      if p(last) {
        forall w | w in Filter(init, p)
          ensures w.id != last.id
        {
          var j :| 0 <= j < |init| && init[j] == w;
        }
        UniqueIdsSnoc(Filter(init, p), last);
      }
    }
    UniqueIdsAreDistinct(Filter(words, p));
  }

  /** Appending a word whose id is new keeps the ids unique. */
  lemma UniqueIdsSnoc(ws: seq<Word>, w: Word)
    requires UniqueIds(ws)
    requires forall x :: x in ws ==> x.id != w.id
    ensures UniqueIds(ws + [w])
  {
    forall i, j | 0 <= i < j < |ws + [w]|
      ensures (ws + [w])[i].id != (ws + [w])[j].id
    {
      if j == |ws| {
        assert (ws + [w])[i] in ws;
      }
    }
  }

  /** Words with pairwise different ids are pairwise different. */
  lemma UniqueIdsAreDistinct(ws: seq<Word>)
    requires UniqueIds(ws)
    ensures Distinct(ws)
  {
  }

  /** A reordering of a sequence without repetitions has none either. */
  lemma PermutationKeepsDistinct<T>(a: seq<T>, b: seq<T>)
    requires Distinct(a) && multiset(a) == multiset(b)
    ensures Distinct(b)
  {
    forall i, j | 0 <= i < j < |b|
      ensures b[i] != b[j]
    {
      TwoPositions(b, i, j);
      DistinctOccursOnce(a, b[i]);
    }
  }

  lemma TwoPositions<T>(s: seq<T>, i: int, j: int)
    requires 0 <= i < j < |s|
    ensures multiset(s)[s[i]] >= if s[i] == s[j] then 2 else 1
  {
    assert s == s[..i] + [s[i]] + s[i + 1..j] + [s[j]] + s[j + 1..];
  }

  lemma {:induction false} DistinctOccursOnce<T>(a: seq<T>, x: T)
    requires Distinct(a)
    ensures multiset(a)[x] <= 1
    decreases |a|
  {
    if a != [] {
      var init := a[..|a| - 1];
      assert a == init + [a[|a| - 1]];
      DistinctOccursOnce(init, x);
      if a[|a| - 1] == x {
        assert x !in init;
      }
    }
  }

  /** `ORDER BY random() LIMIT 10` on the words among `ids`: `shuffled` stands for the
      random order the database chose and must be a reordering of those words. An empty
      id set gives the empty quiz straight away. */
  function DrawQuiz(words: seq<Word>, ids: set<int>, shuffled: seq<Word>): (r: seq<Word>)
    requires multiset(shuffled) == multiset(WordsAmong(words, ids))
    ensures ids == {} ==> r == []
    ensures |r| == if |WordsAmong(words, ids)| < QuizLimit then |WordsAmong(words, ids)| else QuizLimit
    ensures forall w :: w in r ==> w in words && w.id in ids
    ensures UniqueIds(words) ==> Distinct(r)
  {
    assert |shuffled| == |multiset(shuffled)|;
    if ids == {} then []
    else
      var r := shuffled[..if |shuffled| < QuizLimit then |shuffled| else QuizLimit];
      assert forall w :: w in r ==> w in multiset(shuffled);
      assert UniqueIds(words) ==> Distinct(r) by {
        if UniqueIds(words) {
          FilterKeepsDistinct(words, (w: Word) => w.id in ids);
          PermutationKeepsDistinct(WordsAmong(words, ids), shuffled);
        }
      }
      r
  }

  /** `review_words`: up to ten of the child's learned words of the period, in random order. */
  function ReviewWords(words: seq<Word>, records: seq<LearningRecord>, child: int,
                       period: string, now: int, shuffled: seq<Word>): (r: seq<Word>)
    requires multiset(shuffled)
          == multiset(WordsAmong(words, LearnedIds(records, child, LearnedWindow(PeriodArgument(period), now))))
    ensures |r| <= QuizLimit
    ensures var eligible := |WordsAmong(words, LearnedIds(records, child, LearnedWindow(PeriodArgument(period), now)))|;
      |r| == if eligible < QuizLimit then eligible else QuizLimit
    ensures forall w :: w in r ==> w in words && w.id in LearnedIds(records, child, LearnedWindow(PeriodArgument(period), now))
    ensures UniqueIds(words) ==> Distinct(r)
  {
    DrawQuiz(words, LearnedIds(records, child, LearnedWindow(PeriodArgument(period), now)), shuffled)
  }

  /** `weak_words`: up to ten of the child's weak words of the period, in random order. */
  function WeakQuizWords(words: seq<Word>, records: seq<LearningRecord>, child: int,
                         period: string, now: int, shuffled: seq<Word>): (r: seq<Word>)
    requires multiset(shuffled)
          == multiset(WordsAmong(words, WeakIds(records, child, WeakWindow(PeriodArgument(period), now))))
    ensures |r| <= QuizLimit
    ensures var eligible := |WordsAmong(words, WeakIds(records, child, WeakWindow(PeriodArgument(period), now)))|;
      |r| == if eligible < QuizLimit then eligible else QuizLimit
    ensures forall w :: w in r ==> w in words && w.id in WeakIds(records, child, WeakWindow(PeriodArgument(period), now))
    ensures UniqueIds(words) ==> Distinct(r)
  {
    DrawQuiz(words, WeakIds(records, child, WeakWindow(PeriodArgument(period), now)), shuffled)
  }

  /** A child with no answers in the ledger, whatever other children answered, gets an
      empty review quiz for every period. */
  lemma NoHistoryNoReview(words: seq<Word>, records: seq<LearningRecord>, child: int, period: string, now: int)
    requires forall r :: r in records ==> r.childId != child
    ensures ReviewWords(words, records, child, period, now, []) == []
  {
    var ids := LearnedIds(records, child, LearnedWindow(PeriodArgument(period), now));
    assert ids == {};
  }

  /** `submit_answer`'s check: the submitted text, stripped and lower-cased, equals the
      catalog spelling lower-cased (the catalog spelling is not stripped). */
  predicate IsCorrectAnswer(answer: string, english: string)
    ensures IsCorrectAnswer(answer, english) ==> |Strip(answer)| == |english|
  {
    Lower(Strip(answer)) == Lower(english)
  }

  /** Whitespace around the submitted answer never changes the verdict. */
  lemma AnswerIgnoresPadding(pre: string, answer: string, post: string, english: string)
    requires AllSpace(pre) && AllSpace(post)
    ensures IsCorrectAnswer(pre + answer + post, english) == IsCorrectAnswer(answer, english)
  {
    StripIgnoresPadding(pre, answer, post);
  }

  /** Letter case never changes the verdict. */
  lemma AnswerIgnoresCase(answer: string, english: string)
    ensures IsCorrectAnswer(Lower(answer), english) == IsCorrectAnswer(answer, english)
  {
    StripCommutesWithLower(answer);
    LowerIdempotent(Strip(answer));
  }

  /** Only the answer is stripped: a catalog spelling with surrounding whitespace can never be
      matched, whatever is submitted. */
  lemma PaddedCatalogSpellingNeverMatches(answer: string, english: string)
    requires english != [] && (IsSpace(english[0]) || IsSpace(english[|english| - 1]))
    ensures !IsCorrectAnswer(answer, english)
  {
    var s := Strip(answer);
    assert IsSpace(Lower(english)[0]) || IsSpace(Lower(english)[|english| - 1]);
    assert s == [] || (!IsSpace(Lower(s)[0]) && !IsSpace(Lower(s)[|s| - 1]));
  }
}
