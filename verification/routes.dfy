/** The route handlers of the trivia API, each a pure function from the
    database and the request to a reply (and, for the two that write, the
    database afterwards). */
module Routes {
  import opened Seqs
  import opened Strings
  import opened Store
  import opened Http
  import opened Pagination

  /** A handler that may write: its reply and the database after it. */
  datatype Effect<+T> = Effect(reply: Result<T>, after: Db)

  // ---------------------------------------------------------------- GET /categories

  datatype CategoryListing = CategoryListing(categories: map<int, string>)

  /** GET /categories: the id-to-label map of all categories, or 404 when
      there are none. */
  function GetCategories(db: Db): (r: Result<CategoryListing>)
    ensures r.Err? <==> db.categories == []
    ensures r.Err? ==> r.error == NotFound
    ensures r.Ok? ==> r.value.categories.Keys == CategoryIds(db.categories)
    ensures r.Ok? ==> forall k :: k in r.value.categories ==> Category(k, r.value.categories[k]) in db.categories
  {
    var m := CategoryMap(db.categories);
    assert db.categories != [] ==> db.categories[0].id in m;
    if |m| == 0 then Err(NotFound) else Ok(CategoryListing(m))
  }

  // ---------------------------------------------------------------- GET /questions

  datatype QuestionPage = QuestionPage(
    questions: seq<Question>,
    totalQuestions: int,
    categories: map<int, string>,
    currentCategory: Option<string>)

  /** GET /questions?page=N: one page of the questions in id order, the
      count of all questions, and the category map; 404 when the page is
      empty. `page` is the raw text of the query argument. */
  function GetQuestions(db: Db, page: Option<string>): (r: Result<QuestionPage>)
    ensures r.Err? <==> !PageHasRows(|db.questions|, PageNumber(page))
    ensures r.Err? ==> r.error == NotFound
    ensures r.Ok? ==> 1 <= |r.value.questions| <= QuestionsPerPage
    ensures r.Ok? ==> forall q :: q in r.value.questions ==> q in db.questions
    ensures r.Ok? ==> r.value.totalQuestions == |db.questions|
    ensures r.Ok? ==> r.value.categories.Keys == CategoryIds(db.categories)
    ensures r.Ok? ==> forall k :: k in r.value.categories ==> Category(k, r.value.categories[k]) in db.categories
    ensures r.Ok? ==> r.value.currentCategory == None
    ensures r.Ok? && PageNumber(page) >= 1 ==>
              var p := PageNumber(page);
              r.value.questions == db.questions[(p - 1) * QuestionsPerPage..Min(p * QuestionsPerPage, |db.questions|)]
  {
    var p := PageNumber(page);
    var rows := Paginate(db.questions, p);
    PageFacts(db.questions, p);
    if |rows| == 0 then Err(NotFound)
    else Ok(QuestionPage(rows, |db.questions|, CategoryMap(db.categories), None))
  }

  /** What a page is, gathered for the handler's proof. */
  lemma PageFacts(s: seq<Question>, p: int)
    ensures Paginate(s, p) == [] <==> !PageHasRows(|s|, p)
    ensures forall q :: q in Paginate(s, p) ==> q in s
    ensures p >= 1 ==> Paginate(s, p) == s[Min((p - 1) * QuestionsPerPage, |s|)..Min(p * QuestionsPerPage, |s|)]
  {
    var rows := Paginate(s, p);
    PaginateEmptyIff(s, p);
    if p >= 1 {
      PaginatePositive(s, p);
    }
    var a :| IsWindow(s, rows, a);
    forall q | q in rows
      ensures q in s
    {
      var k :| 0 <= k < |rows| && rows[k] == q;
      assert s[a + k] == q;
    }
  }

  // ---------------------------------------------------------------- DELETE /questions/<id>

  datatype Deletion = Deletion(deleted: int)

  /** DELETE /questions/<id>. The `abort(404)` for a missing id is raised
      inside the `try` and caught by `except Exception`, so it reaches the
      client as 422, as does a failure of the removal itself (`committed`
      is false when the database does not complete it). */
  function DeleteQuestion(db: Db, id: int, committed: bool): (r: Effect<Deletion>)
    ensures r.reply.Ok? <==> (exists q :: q in db.questions && q.id == id) && committed
    ensures r.reply.Err? ==> r.reply.error == Unprocessable && r.after == db
    ensures r.reply.Ok? ==> r.reply.value.deleted == id
    ensures r.reply.Ok? ==> forall q :: q in r.after.questions <==> q in db.questions && q.id != id
    ensures r.after.categories == db.categories && r.after.nextId == db.nextId
  {
    match FindQuestion(db, id)
    case None => Effect(Err(Unprocessable), db)
    case Some(_) =>
      if committed then Effect(Ok(Deletion(id)), RemoveQuestion(db, id))
      else Effect(Err(Unprocessable), db)
  }

  /** Deleting keeps the database consistent and removes exactly one row. */
  lemma DeleteKeepsValid(db: Db, id: int, committed: bool)
    requires Valid(db)
    ensures Valid(DeleteQuestion(db, id, committed).after)
    ensures DeleteQuestion(db, id, committed).reply.Ok? ==>
              |DeleteQuestion(db, id, committed).after.questions| == |db.questions| - 1
  {
    RemoveKeepsValid(db, id);
    RemoveCount(db, id);
  }

  /** A second delete of the same id is refused with 422. */
  lemma DeleteTwice(db: Db, id: int, committed: bool, again: bool)
    requires DeleteQuestion(db, id, committed).reply.Ok?
    ensures DeleteQuestion(DeleteQuestion(db, id, committed).after, id, again).reply == Err(Unprocessable)
  {
  }

  // ---------------------------------------------------------------- POST /questions

  /** The column values the database makes of the body's `question`,
      `answer`, `category` and `difficulty` when it accepts the new row. */
  datatype Draft = Draft(question: string, answer: string, category: string, difficulty: int)

  datatype PostReply =
    | SearchHits(questions: seq<Question>, totalQuestions: int, currentCategory: Option<string>)
    | Created(created: int)

  /** 201 for a creation, 200 for a search. */
  function PostStatus(p: PostReply): (code: int)
  {
    if p.Created? then 201 else 200
  }

  /** The part of the POST /questions body the handler branches on:
      `body.get('searchTerm')` (`Null` when the key is absent). */
  datatype PostBody = PostBody(searchTerm: Scalar)

  /** `if search:`: absent, `null`, `""`, `0` and `false` are falsy. */
  predicate SearchRequested(body: PostBody)
  {
    Truthy(body.searchTerm)
  }

  /** `Question.question.ilike(f'%{search}%')`. */
  predicate MatchesTerm(q: Question, term: string)
  {
    ContainsIgnoringCase(q.question, term)
  }

  function SearchQuestions(db: Db, term: string): (hits: seq<Question>)
    ensures forall q :: q in hits <==> q in db.questions && MatchesTerm(q, term)
  {
    Filter(db.questions, (q: Question) => MatchesTerm(q, term))
  }

  /** POST /questions, which searches when `searchTerm` is truthy and creates
      otherwise. `body` is `None` when the request body is not a JSON object:
      `body.get` then raises before the `try`, an unhandled fault.
      Construction and insertion are left to the database: `insert` is the
      row it accepts, or `None` when constructing or inserting raised, which
      the handler turns into 422. */
  function PostQuestions(db: Db, body: Option<PostBody>, insert: Option<Draft>): (r: Effect<PostReply>)
    ensures body.None? ==> r.reply == Err(Fault) && r.after == db
    ensures body.Some? && SearchRequested(body.value) ==>
              && r.after == db
              && r.reply.Ok? && r.reply.value.SearchHits?
              && (forall q :: q in r.reply.value.questions <==>
                                q in db.questions && MatchesTerm(q, PyStr(body.value.searchTerm)))
              && r.reply.value.totalQuestions == |r.reply.value.questions|
              && r.reply.value.currentCategory == None
    ensures body.Some? && !SearchRequested(body.value) && insert.None? ==>
              r.reply == Err(Unprocessable) && r.after == db
    ensures body.Some? && !SearchRequested(body.value) && insert.Some? ==>
              && r.reply == Ok(Created(db.nextId))
              && r.after.categories == db.categories
              && r.after.questions == db.questions + [Question(db.nextId, insert.value.question, insert.value.answer,
                                                              insert.value.category, insert.value.difficulty)]
    ensures r.reply.Ok? ==> PostStatus(r.reply.value) == (if SearchRequested(body.value) then 200 else 201)
  {
    match body
    case None => Effect(Err(Fault), db)
    case Some(b) =>
      if SearchRequested(b) then
        var hits := SearchQuestions(db, PyStr(b.searchTerm));
        Effect(Ok(SearchHits(hits, |hits|, None)), db)
      else
        match insert
        case None => Effect(Err(Unprocessable), db)
        case Some(d) =>
          Effect(Ok(Created(db.nextId)), InsertQuestion(db, d.question, d.answer, d.category, d.difficulty))
  }

  /** Search hits come in ascending id order. */
  lemma SearchInIdOrder(db: Db, term: string)
    requires Valid(db)
    ensures StrictlyIncreasing(SearchQuestions(db, term), QuestionId)
  {
    FilterKeepsIncreasing(db.questions, (q: Question) => MatchesTerm(q, term), QuestionId);
  }

  /** A created question gets an id above every id in the table, the
      database stays consistent, and the question is listed on the last page
      of GET /questions. */
  lemma CreatedIsFreshAndListed(db: Db, body: Option<PostBody>, insert: Option<Draft>)
    requires Valid(db)
    requires PostQuestions(db, body, insert).reply.Ok?
    requires PostQuestions(db, body, insert).reply.value.Created?
    ensures var id := PostQuestions(db, body, insert).reply.value.created;
            forall q :: q in db.questions ==> q.id < id
    ensures Valid(PostQuestions(db, body, insert).after)
    ensures var r := PostQuestions(db, body, insert);
            var listed := GetQuestions(r.after, Some(Decimal(|db.questions| / QuestionsPerPage + 1)));
            listed.Ok? && exists q :: q in listed.value.questions && q.id == r.reply.value.created
  {
    var d := insert.value;
    var after := InsertQuestion(db, d.question, d.answer, d.category, d.difficulty);
    InsertKeepsValid(db, d.question, d.answer, d.category, d.difficulty);
    var n := |db.questions|;
    PageArgument(n / QuestionsPerPage + 1, "");
    PaginateLocates(after.questions, n);
    PaginateEmptyIff(after.questions, n / QuestionsPerPage + 1);
    var page := Paginate(after.questions, n / QuestionsPerPage + 1);
    assert page[n % QuestionsPerPage] == after.questions[n];
    assert after.questions[n] in page;
  }

  // ---------------------------------------------------------------- GET /categories/<id>/questions

  datatype CategoryQuestions = CategoryQuestions(
    questions: seq<Question>,
    totalQuestions: int,
    currentCategory: string)

  /** GET /categories/<id>/questions: the questions whose text column equals
      `str(id)`, with the category's label; 404 when no category has that
      id, whatever the questions table holds. The route converter only
      admits non-negative integers. */
  function GetQuestionsByCategory(db: Db, categoryId: nat): (r: Result<CategoryQuestions>)
    ensures r.Err? <==> categoryId !in CategoryIds(db.categories)
    ensures r.Err? ==> r.error == NotFound
    ensures r.Ok? ==> forall q :: q in r.value.questions <==> q in db.questions && q.category == Decimal(categoryId)
    ensures r.Ok? ==> r.value.totalQuestions == |r.value.questions|
    ensures r.Ok? ==> Category(categoryId, r.value.currentCategory) in db.categories
  {
    var key := Decimal(categoryId);
    var rows := Filter(db.questions, (q: Question) => q.category == key);
    match FindCategory(db, categoryId)
    case None => Err(NotFound)
    case Some(c) => Ok(CategoryQuestions(rows, |rows|, c.kind))
  }

  /** With unique category ids the label is the category's own, and the
      rows come in ascending id order. */
  lemma ByCategoryLabelAndOrder(db: Db, categoryId: nat)
    requires Valid(db)
    requires GetQuestionsByCategory(db, categoryId).Ok?
    ensures forall c :: c in db.categories && c.id == categoryId ==>
              GetQuestionsByCategory(db, categoryId).value.currentCategory == c.kind
    ensures StrictlyIncreasing(GetQuestionsByCategory(db, categoryId).value.questions, QuestionId)
  {
    var key := Decimal(categoryId);
    FilterKeepsIncreasing(db.questions, (q: Question) => q.category == key, QuestionId);
    CategoryMapExact(db.categories);
    var r := GetQuestionsByCategory(db, categoryId).value;
    forall c | c in db.categories && c.id == categoryId
      ensures r.currentCategory == c.kind
    {
      assert Category(categoryId, r.currentCategory) in db.categories;
      UniqueIdSameCategory(db.categories, c, Category(categoryId, r.currentCategory));
    }
  }

  lemma UniqueIdSameCategory(cs: seq<Category>, c: Category, d: Category)
    requires StrictlyIncreasing(cs, CategoryId)
    requires c in cs && d in cs && c.id == d.id
    ensures c == d
  {
    var i :| 0 <= i < |cs| && cs[i] == c;
    var j :| 0 <= j < |cs| && cs[j] == d;
  }
}
