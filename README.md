# Polls: the "published recently" rule

A model of the entity layer of a small Django polling application. It covers
`polls/models.py`. That file declares two persisted entities:

- **Question**: a text, a required publication instant `pub_date` and an
  optional `author_name`.
- **Choice**: belongs to a question. It has a text, a vote counter `votes`
  that defaults to 0, and an optional `pub_date`.

Each entity has a `was_published_recently` predicate. For a question it holds
when `now - timedelta(days=1) <= pub_date <= now`. For a choice it is the same
test, guarded by `pub_date is not None`. So an undated choice is simply not
recent, and no comparison with a null is ever made.

Modelling decisions:

- Instants and durations are integers counting microseconds (module `Time`).
  Aware datetimes and `timedelta` are exact, so for two aware datetimes the
  comparisons come out the same. The type errors that the comparisons
  themselves raise are not modelled; see "## Left out".
  `Time.Delta` gives the length of a `timedelta`, and `Time.OneDay` is
  `timedelta(days=1)`.
- The clock read `timezone.now()` in each predicate becomes the parameter
  `now`.
- The entities are datatypes (module `PollsModels`). The predicates are
  functions over these values, so by construction they change no field.
- The shared window is `Time.InWindow`. Both predicates are proved to apply
  it, and so to agree whenever a choice and a question carry the same date.
- The foreign key from a choice to its question is a `Question` value.

The concrete instants used by `polls/tests.py` are restated as lemmas. They
are: thirty days ahead, one day and one second ago, and 23h59m59s ago. Each
test reads the clock twice: once to build the date and once inside the
predicate. So each lemma takes both readings, `now0` and `now`, and says for
which second readings the test passes.

## Model

| member | source | states |
|---|---|---|
| Time.InWindow | polls/models.py:21 | the shared window holds exactly when the instant is not in the future and is at most one day old; both end points are inside |
| Time.InWindowAsClockRange | polls/models.py:21 | seen from the clock, an instant is recent exactly from its own time until one day later, both ends included |
| Time.InWindowConvex | polls/models.py:21 | an instant recent at two clock readings is recent at every reading between them |
| Time.RecentInstantsSize | polls/models.py:21 | at any clock reading the recent instants form the closed interval of the past day, one day plus one microsecond of instants: both bounds are inclusive |
| Time.OneDayInMicroseconds | polls/models.py:21 | `timedelta(days=1)` is 86,400,000,000 microseconds, the same as 24 hours or 1440 minutes |
| PollsModels.Question.WasPublishedRecently | polls/models.py:19-21 | a question is recent exactly when its pub_date is not after now and not more than one day before it; any future date is rejected |
| PollsModels.Choice.WasPublishedRecently | polls/models.py:42-44 | a choice without pub_date is never recent; a dated choice is recent exactly when its date is in the shared window |
| PollsModels.NewQuestion | polls/models.py:6-9 | a question built from text and date alone has those fields and no author, as author_name is nullable |
| PollsModels.NewChoice | polls/models.py:28-32 | a new choice keeps its question and text, has zero votes and no pub_date, and so is never recent |
| PollsModels.QuestionUsesWindow | polls/models.py:19-21 | the question predicate is the shared window applied to pub_date |
| PollsModels.ChoiceAgreesWithQuestion | polls/models.py:42-44 | a choice dated t gives the same answer as a question dated t, at every clock reading |
| PollsModels.UndatedChoiceNeverRecent | polls/models.py:32-44 | a choice whose pub_date is null is not recent, at any clock reading |
| PollsModels.RecencyDependsOnlyOnPubDate | polls/models.py:19-44 | the answer depends on pub_date and now alone; text, author, votes and question play no part |
| PollsModels.PublishedNowIsRecent | polls/models.py:21 | upper bound inclusive: pub_date equal to now is recent |
| PollsModels.LowerBoundInclusive | polls/models.py:21 | lower bound inclusive: exactly one day old is recent, one microsecond older is not |
| PollsModels.FutureQuestionNotRecent | polls/tests.py:17-25 | with the date thirty days after the first clock reading, the question is recent exactly from thirty to thirty-one days after it; so it is not recent at any second reading taken less than thirty days later |
| PollsModels.OldQuestionNotRecent | polls/tests.py:27-35 | with the date one day and one second before the first clock reading, the question is recent exactly up to one second before that reading; so it is not recent at any later second reading |
| PollsModels.RecentQuestionIsRecent | polls/tests.py:37-45 | with the date 23h59m59s before the first clock reading, the question is recent exactly when the second reading lies between that date and one second after the first reading: the test relies on this one-second margin |

## Left out

- Persistence: `save()`, `objects.create` and the database-generated ids are
  handled by the ORM and the database. Cascade delete of choices with their
  question (polls/models.py:29) and the `max_length` limits (polls/models.py:7,
  9, 30) are enforced there too, not by this code.
- The range of Python datetimes, years 1 to 9999, is not modelled. Outside it,
  `now - timedelta(days=1)` would raise `OverflowError`. A clock reading is
  never that close to year 1. Instants here are unbounded integers.
- The database column widths, such as a 32-bit `votes`, are not modelled.
  `votes` is an unbounded integer.
- Admin display metadata (`@admin.display`, polls/models.py:14-18, 37-41) and
  the `Meta` verbose names (polls/models.py:23-25, 46-48) only affect
  presentation.
- `__str__` (polls/models.py:11-12, 34-35) returns the entity's text. It is
  used only for display and is not modelled.
- A question constructed without a `pub_date`, and never successfully
  saved, is not modelled. Its `pub_date` is None. Saving it fails, because
  the column is NOT NULL (polls/models.py:8 has no `null=True`). Calling
  `was_published_recently` on it raises `TypeError` in the comparison at
  polls/models.py:21; Question has no guard like Choice's at
  polls/models.py:44. Here `Question.pubDate` is always an instant, so this
  error path cannot be expressed.
- Naive datetimes are not modelled. Comparing a naive `pub_date` with the
  aware `now` raises `TypeError` in both predicates. Every instant here is
  an exact point in time, like an aware datetime.
- The clock itself is an input, `now`. The model does not read it.
- The index and detail views are not part of this model, and nor are their
  routing and templates. Their behaviour is reached only through Django's
  HTTP test client (polls/tests.py:47-120). That behaviour is: list questions
  dated at or before now, newest first, and answer 404 for a future question.
