# Trivia API request logic in Dafny

A model of the request handlers of the trivia-question web service
(`flaskr/__init__.py`): listing categories, paging through questions,
deleting a question, the dual-purpose search-or-create endpoint, questions by
category, and the next-question draw of the quiz. The database is two
immutable sequences held in ascending primary-key order, together with the id
sequence that numbers new questions. The listing and search reads ask for that
order with `order_by(id)`; the by-category read and the id lookups ask for no
order and the quiz read orders at random, so for those the ascending order is
the model's choice of store order, not a promise of the source. Every handler is a pure function from the database and the request
to a reply — `Ok(payload)` or `Err(NotFound | Unprocessable | Fault)`, which
the error handlers render as 404, 422 and an unhandled 500 — and, for delete
and create, the database afterwards.

Modules, one per concern of the source:

- `Strings` (`strings.dfy`): Python `str()` of an integer (`Decimal`, with its
  parse-back inverse) and the ASCII case-insensitive substring test that
  stands for SQL `ILIKE '%term%'`.
- `Seqs` (`seqs.dfy`): `Option`, and the query shapes `filter(...).all()`
  (`Filter`) and `query.get(...)` (`Find`) over sequences.
- `Store` (`store.dfy`): the `Category` and `Question` rows, the database
  `Db`, its consistency predicate `Valid` (unique ascending primary keys, id
  sequence ahead of every id), the category map, and row removal/insertion.
- `Http` (`http.dfy`): error kinds, status codes, the JSON error bodies, JSON
  scalars and Python truthiness.
- `Pagination` (`pagination.dfy`): `paginate_questions` with Python's slice
  semantics, negative page numbers included.
- `Routes` (`routes.dfy`): the category, question, delete, search/create and
  by-category handlers.
- `Quizzes` (`quizzes.dfy`): the quiz draw.

Nondeterminism and the parts of the database the handlers cannot see are
parameters: `roll` (the random ordering of the quiz draw), `committed` (the
database completes a delete), and `insert` (the row the database accepts for
a create, `None` when constructing or inserting raises).

The model follows the code where it differs from the service's documented
intent: deleting a missing question answers 422, not 404, because the
`abort(404)` is raised inside a `try` whose `except Exception` turns it into
`abort(422)`; and an empty `searchTerm` is falsy, so it creates a question
instead of searching.

## Model

All source paths are under `projects/02_trivia_api/starter/backend/`.

| member | source | states |
|---|---|---|
| Pagination.PySlice | projects/02_trivia_api/starter/backend/flaskr/__init__.py:22 | a Python slice is the run of the list that starts at the normalised start bound and is as long as the gap to the normalised end bound (empty when there is none), never longer than `end - start` |
| Pagination.PageArgument | projects/02_trivia_api/starter/backend/flaskr/__init__.py:16 | the `page` text `str(N)` selects page N for every integer N, as does `+N` for N >= 0; an absent argument, or text without a digit, selects page 1 |
| Strings.ParseIntDecimal | projects/02_trivia_api/starter/backend/flaskr/__init__.py:16 | `int(str(n)) == n`, and `int('+' + str(n)) == n` for n >= 0 |
| Pagination.DefaultPageIsFirst | projects/02_trivia_api/starter/backend/flaskr/__init__.py:16-22 | without a `page` argument the listing is the first `min(10, n)` questions, empty only when there are none |
| Pagination.Paginate | projects/02_trivia_api/starter/backend/flaskr/__init__.py:15-22 | a page holds at most 10 questions and is a contiguous run of the id-ordered list |
| Pagination.PaginatePositive | projects/02_trivia_api/starter/backend/flaskr/__init__.py:18-22 | for page p >= 1 the page is exactly the rows with index in `[(p-1)*10, min(p*10, n))` |
| Pagination.PaginateEmptyIff | projects/02_trivia_api/starter/backend/flaskr/__init__.py:18-22 | a page is empty exactly when it starts past the end (p >= 1), is page 0, or is a negative page reaching before the front |
| Pagination.PaginateLocates | projects/02_trivia_api/starter/backend/flaskr/__init__.py:18-22 | row i of the list is entry `i % 10` of page `i / 10 + 1`, so every question is on some page |
| Pagination.NineteenRows | projects/02_trivia_api/starter/backend/flaskr/__init__.py:18-22 | with 19 questions page 1 has the first 10, page 2 the last 9, page 3 none |
| Store.CategoryMap | projects/02_trivia_api/starter/backend/flaskr/__init__.py:46-48 | the id-to-label map has exactly the category ids as keys and each value is the label of a category with that id |
| Store.CategoryMapExact | projects/02_trivia_api/starter/backend/flaskr/__init__.py:45-48 | with unique ids the map has one entry per category, holding that category's label |
| Store.FindQuestion | projects/02_trivia_api/starter/backend/flaskr/__init__.py:79 | the lookup finds a question with that id exactly when one exists |
| Store.FindCategory | projects/02_trivia_api/starter/backend/flaskr/__init__.py:141 | the lookup finds a category with that id exactly when one exists |
| Store.RemoveQuestion | projects/02_trivia_api/starter/backend/flaskr/__init__.py:84 | removal keeps exactly the questions with another id and leaves categories and the id sequence alone |
| Store.RemoveCount | projects/02_trivia_api/starter/backend/flaskr/__init__.py:84 | with unique ids, removing an existing id removes exactly one row and removing a missing one removes none |
| Store.InsertQuestion | projects/02_trivia_api/starter/backend/flaskr/__init__.py:126 | an insert appends exactly one row, carrying the next sequence value as id and the given column values, keeps every existing row in place, leaves categories alone and advances the sequence |
| Store.InsertKeepsValid | projects/02_trivia_api/starter/backend/flaskr/__init__.py:120-126 | an inserted question gets an id above all existing ids, so ids stay unique and ascending |
| Http.ErrorResponse | projects/02_trivia_api/starter/backend/flaskr/__init__.py:187-199 | 404 and 422 carry `{error, message}` with the code equal to the status ("Not found", "unprocessable"); other faults have no JSON body |
| Routes.GetCategories | projects/02_trivia_api/starter/backend/flaskr/__init__.py:43-55 | 404 exactly when there are no categories; otherwise the map has exactly the category ids as keys, each with its label |
| Routes.GetQuestions | projects/02_trivia_api/starter/backend/flaskr/__init__.py:57-74 | 404 exactly when the page has no rows; otherwise 1..10 stored questions, the id-range slice for p >= 1, the unpaged total, the category map (every category id as a key, each mapped to a stored label of that id), and a null current category |
| Routes.DeleteQuestion | projects/02_trivia_api/starter/backend/flaskr/__init__.py:76-90 | success exactly when the id exists and the removal completes, answering the id; a missing id or failed removal is 422 with the database unchanged; afterwards no question has that id and all others remain |
| Routes.DeleteKeepsValid | projects/02_trivia_api/starter/backend/flaskr/__init__.py:76-90 | a delete keeps ids unique and ascending and a successful one removes exactly one row |
| Routes.DeleteTwice | projects/02_trivia_api/starter/backend/flaskr/__init__.py:78-90 | deleting the same id again after a successful delete answers 422 |
| Routes.SearchQuestions | projects/02_trivia_api/starter/backend/flaskr/__init__.py:104-107 | the hits are exactly the stored questions whose text contains the term, ignoring ASCII case |
| Routes.PostQuestions | projects/02_trivia_api/starter/backend/flaskr/__init__.py:92-133 | a body that is not a JSON object is an unhandled fault; a truthy `searchTerm` of any scalar kind searches for its Python text (200, hits and their count, null category, database unchanged); otherwise a rejected row is 422 with the database unchanged and an accepted one is appended under the next id and answered with that id and 201 |
| Http.PyStr | projects/02_trivia_api/starter/backend/flaskr/__init__.py:106 | the text an f-string splices in: a string as is, an integer as a decimal numeral that reads back as the integer |
| Routes.SearchInIdOrder | projects/02_trivia_api/starter/backend/flaskr/__init__.py:104-107 | search hits come in ascending id order |
| Routes.CreatedIsFreshAndListed | projects/02_trivia_api/starter/backend/flaskr/__init__.py:119-130 | a created id exceeds every existing id, the database stays consistent, and the new question is listed on the last page of GET /questions, requested as `?page=<that page number>` |
| Routes.GetQuestionsByCategory | projects/02_trivia_api/starter/backend/flaskr/__init__.py:135-152 | 404 exactly when no category has the id, whatever questions reference it; otherwise exactly the questions whose category text is `str(id)`, their count, and that category's label |
| Routes.ByCategoryLabelAndOrder | projects/02_trivia_api/starter/backend/flaskr/__init__.py:137-151 | with unique ids the label is the category's own; the questions follow the model's ascending-id store order (the source query requests no order) |
| Strings.Decimal | projects/02_trivia_api/starter/backend/flaskr/__init__.py:138 | `str(n)` is a non-empty numeral: a leading `-` exactly for negative n, digits everywhere else, and no leading zero except in `0` itself |
| Strings.DecimalRoundTrip | projects/02_trivia_api/starter/backend/flaskr/__init__.py:138 | `str(id)` reads back as the id |
| Strings.DecimalInjective | projects/02_trivia_api/starter/backend/flaskr/__init__.py:138 | two ids have the same text exactly when they are equal, so `category == str(id)` selects one category |
| Strings.ContainsIffOccurs | projects/02_trivia_api/starter/backend/flaskr/__init__.py:106 | the substring scan holds exactly when the term occurs at some position of the text |
| Quizzes.CategoryKey | projects/02_trivia_api/starter/backend/flaskr/__init__.py:159-175 | a string `quiz_category.id` is compared with the category column as is, an integer through its decimal text, which reads back as the integer (an assumption about the database, see Left out) |
| Quizzes.CandidatesAreEligible | projects/02_trivia_api/starter/backend/flaskr/__init__.py:161-178 | the four query branches select exactly the questions not asked before and, when a category is chosen, in it; an empty `previous_questions` excludes nothing |
| Quizzes.NextQuestion | projects/02_trivia_api/starter/backend/flaskr/__init__.py:154-185 | a missing `quiz_category` or `previous_questions` is an unhandled fault; otherwise the reply is null exactly when no question is eligible, and a drawn question is stored and eligible |
| Quizzes.EveryEligibleCanBeDrawn | projects/02_trivia_api/starter/backend/flaskr/__init__.py:163-178 | every eligible question is the draw for some random ordering |
| Quizzes.CategoryExhausted | projects/02_trivia_api/starter/backend/flaskr/__init__.py:161-185 | once every question of the chosen category was asked, the reply is null |

## Left out

- The Flask app factory, route decorators, `jsonify`, CORS and the
  `after_request` header injection (`flaskr/__init__.py:25-41`): transport
  plumbing with no logic of its own.
- SQLAlchemy and `models.py` (`setup_db`, `format`, `insert`, `delete`):
  `models.py` is not part of this model. The tables become sequences; a
  formatted question is the `Question` record itself.
- Routes.PostQuestions: how the database turns the body's `question`,
  `answer`, `category` and `difficulty` into column values (type casts, NULL
  for absent keys) is not modelled; the handler receives the accepted row or
  the rejection as the `insert` parameter, because the source delegates all
  validation to the database.
- Routes.PostQuestions: a `searchTerm` that is a JSON array, object or
  non-integer number is not modelled (the body's scalar covers null, booleans,
  integers and strings).
- Routes.PostQuestions: a failure of the search query itself (caught and
  answered with 422) is not modelled; the model's search always succeeds.
- Routes.PostQuestions: a PostgreSQL sequence may consume a value on a failed
  insert; the model leaves the id sequence unchanged, which does not affect
  freshness of later ids.
- Routes.SearchQuestions: SQL `ILIKE` treats `%` and `_` inside the term as
  wildcards and folds case by locale; the model uses a literal substring test
  on ASCII-lower-cased text.
- Routes.GetQuestionsByCategory: the source query has no `order_by`, so the
  database may return rows in any order; the model returns them in id order.
- Pagination.PageNumber: Python's `int()` also accepts surrounding
  whitespace, `_` between digits and non-ASCII digits; the model reads only an
  optional sign followed by ASCII digits and treats any other text as not an
  integer (page 1).
- Routes.GetCategories: JSON object key order and the conversion of integer
  keys to strings by `jsonify` are not modelled; the reply is a Dafny `map`.
- Quizzes.NextQuestion: `func.random()` is modelled only as "some eligible
  row" (the `roll` index); no claim about the distribution is made.
- Quizzes.CategoryKey: assumes a database that compares a numeric or
  boolean `quiz_category.id` with the text category column through its Python
  text form. PostgreSQL has no implicit cast between text and integer, so
  there a truthy numeric id would most likely raise an unhandled error (500)
  instead of filtering; `models.py`, which fixes the column type, is not part
  of this model.
- Quizzes.NextQuestion: a `quiz_category` that is not an object, a
  `previous_questions` that is not a list, and a request body that is not a
  JSON object are not modelled.
- `print(sys.exc_info())` in the create handler: diagnostic output only.
