/** The two persisted entities of the polls application, Question and Choice,
    with the fields they declare and their "published recently" predicates.

    The clock read inside each predicate becomes the parameter `now`.
 */
module PollsModels {
  import opened Time

  /** A nullable model field. */
  datatype Option<+T> = None | Some(value: T)

  /** A poll topic: its text, its required publication instant and an
      optional author. */
  datatype Question = Question(
    questionText: string,
    pubDate: Instant,
    authorName: Option<string>)
  {
    /** True when the question was published no later than `now` and no
        earlier than one day before `now`. */
    function WasPublishedRecently(now: Instant): (r: bool)
      ensures r <==> pubDate <= now && now - pubDate <= OneDay
      ensures pubDate > now ==> !r
    {
      now - OneDay <= pubDate <= now
    }
  }

  /** An answer option of a question, with its vote counter and an optional
      publication instant. */
  datatype Choice = Choice(
    question: Question,
    choiceText: string,
    votes: int,
    pubDate: Option<Instant>)
  {
    /** False for a choice without a publication instant; otherwise the same
        window test as the one a question applies. The short-circuit guard
        is what makes reading `pubDate.value` well defined. */
    function WasPublishedRecently(now: Instant): (r: bool)
      ensures pubDate.None? ==> !r
      ensures r ==> pubDate.Some? && pubDate.value <= now && now - pubDate.value <= OneDay
      ensures pubDate.Some? ==> (r <==> InWindow(pubDate.value, now))
    {
      pubDate.Some? && now - OneDay <= pubDate.value <= now
    }
  }

  /** A question built with only the required fields given: an absent
      author, as a nullable field without a default is null. */
  function NewQuestion(questionText: string, pubDate: Instant): (q: Question)
    ensures q.questionText == questionText && q.pubDate == pubDate
    ensures q.authorName.None?
  {
    Question(questionText, pubDate, None)
  }

  /** A choice built with its question and text only: no votes yet, and no
      publication instant, since that field is nullable. */
  function NewChoice(question: Question, choiceText: string): (c: Choice)
    ensures c.question == question && c.choiceText == choiceText
    ensures c.votes == 0
    ensures c.pubDate.None?
    ensures forall now: Instant :: !c.WasPublishedRecently(now)
  {
    Choice(question, choiceText, 0, None)
  }

  /** The question predicate is the shared window applied to its date. */
  lemma QuestionUsesWindow(q: Question, now: Instant)
    ensures q.WasPublishedRecently(now) <==> InWindow(q.pubDate, now)
  {
  }

  /** A dated choice agrees with any question published at the same instant,
      whatever the other fields of either hold. */
  lemma ChoiceAgreesWithQuestion(c: Choice, q: Question, now: Instant)
    requires c.pubDate == Some(q.pubDate)
    ensures c.WasPublishedRecently(now) == q.WasPublishedRecently(now)
  {
  }

  /** An undated choice is never recent, at any clock reading. */
  lemma UndatedChoiceNeverRecent(c: Choice, now: Instant)
    requires c.pubDate == None
    ensures !c.WasPublishedRecently(now)
  {
  }

  /** Only the publication instant matters: two questions, or two choices,
      with equal dates get the same answer. */
  lemma RecencyDependsOnlyOnPubDate(q1: Question, q2: Question, c1: Choice, c2: Choice, now: Instant)
    requires q1.pubDate == q2.pubDate
    requires c1.pubDate == c2.pubDate
    ensures q1.WasPublishedRecently(now) == q2.WasPublishedRecently(now)
    ensures c1.WasPublishedRecently(now) == c2.WasPublishedRecently(now)
  {
  }

  /** The upper bound is inclusive: a question dated `now` is recent. */
  lemma PublishedNowIsRecent(q: Question, now: Instant)
    requires q.pubDate == now
    ensures q.WasPublishedRecently(now)
  {
  }

  /** The lower bound is inclusive: a question dated exactly one day before
      `now` is recent, one microsecond earlier it is not. */
  lemma LowerBoundInclusive(q: Question, now: Instant)
    ensures q.pubDate == now - OneDay ==> q.WasPublishedRecently(now)
    ensures q.pubDate == now - OneDay - 1 ==> !q.WasPublishedRecently(now)
  {
  }

  /* Each of the three model tests reads the clock twice: once, as `now0`,
     to build the date, and once more, as `now`, inside the predicate. The
     lemmas below say for which second readings each test passes. */

  /** A question dated thirty days after `now0` is recent only from thirty
      to thirty-one days after `now0`; so it is not recent at any reading
      taken less than thirty days after the first. */
  lemma FutureQuestionNotRecent(q: Question, now0: Instant, now: Instant)
    requires q.pubDate == now0 + Delta(30, 0, 0, 0)
    ensures q.WasPublishedRecently(now) <==> now0 + Delta(30, 0, 0, 0) <= now <= now0 + Delta(31, 0, 0, 0)
    ensures now < now0 + Delta(30, 0, 0, 0) ==> !q.WasPublishedRecently(now)
  {
  }

  /** A question dated one day and one second before `now0` stopped being
      recent one second before `now0`; so it is not recent at any reading
      taken later than that, including `now0` itself and every later one. */
  lemma OldQuestionNotRecent(q: Question, now0: Instant, now: Instant)
    requires q.pubDate == now0 - Delta(1, 0, 0, 1)
    ensures q.WasPublishedRecently(now) <==> now0 - Delta(1, 0, 0, 1) <= now <= now0 - MicrosPerSecond
    ensures now > now0 - MicrosPerSecond ==> !q.WasPublishedRecently(now)
  {
  }

  /** A question dated 23 hours, 59 minutes and 59 seconds before `now0` is
      recent exactly at the readings from its date up to one second after
      `now0`: the test passes only while at most one second elapses
      between its two clock reads. */
  lemma RecentQuestionIsRecent(q: Question, now0: Instant, now: Instant)
    requires q.pubDate == now0 - Delta(0, 23, 59, 59)
    ensures q.WasPublishedRecently(now) <==> now0 - Delta(0, 23, 59, 59) <= now <= now0 + MicrosPerSecond
  {
  }
}
