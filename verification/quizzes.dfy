/** POST /quizzes: the next quiz question, drawn at random from the
    questions not yet asked, optionally restricted to one category. */
module Quizzes {
  import opened Seqs
  import opened Strings
  import opened Store
  import opened Http

  /** The `quiz_category` object; only its `id` is read (`Null` when the key
      is missing). */
  datatype QuizCategory = QuizCategory(id: Scalar)

  /** The request body; `None` marks a key that is absent. */
  datatype QuizBody = QuizBody(previousQuestions: Option<seq<int>>, quizCategory: Option<QuizCategory>)

  /** The text the category column is compared with: a string id as is.
      For a numeric (or boolean) id this assumes a database that compares it
      with the text column through its Python text form. */
  function CategoryKey(v: Scalar): (key: string)
    ensures v.Text? ==> key == v.s
    ensures v.Num? ==> key == Decimal(v.n) && ParseDecimal(key) == v.n
  {
    PyStr(v)
  }

  /** The rows of the query, before random ordering, in the four branches
      the handler writes out. */
  function Candidates(qs: seq<Question>, previous: seq<int>, category: Scalar): (r: seq<Question>)
  {
    if |previous| > 0 then
      if Truthy(category) then
        Filter(qs, (q: Question) => q.id !in previous && q.category == CategoryKey(category))
      else
        Filter(qs, (q: Question) => q.id !in previous)
    else
      if Truthy(category) then
        Filter(qs, (q: Question) => q.category == CategoryKey(category))
      else
        qs
  }

  /** The rule the four branches implement: not asked before, and in the
      chosen category when one is chosen. */
  predicate Eligible(q: Question, previous: seq<int>, category: Scalar)
  {
    q.id !in previous && (Truthy(category) ==> q.category == CategoryKey(category))
  }

  /** The branches select exactly the eligible rows; with no previous
      questions the missing `notin_` filter excludes nothing. */
  lemma CandidatesAreEligible(qs: seq<Question>, previous: seq<int>, category: Scalar)
    ensures forall q :: q in Candidates(qs, previous, category) <==> q in qs && Eligible(q, previous, category)
  {
  }

  /** POST /quizzes. `roll` stands for the random ordering: the reply is the
      row at that position of the eligible rows, or `null` when there is
      none. A missing `quiz_category` or `previous_questions` raises outside
      any handler (500). */
  function NextQuestion(db: Db, body: QuizBody, roll: nat): (r: Result<Option<Question>>)
    ensures r.Err? <==> body.quizCategory.None? || body.previousQuestions.None?
    ensures r.Err? ==> r.error == Fault
    ensures r.Ok? ==>
              var previous := body.previousQuestions.value;
              var category := body.quizCategory.value.id;
              && (r.value.None? <==> forall q :: q in db.questions ==> !Eligible(q, previous, category))
              && (r.value.Some? ==> r.value.value in db.questions && Eligible(r.value.value, previous, category))
  {
    match body.quizCategory
    case None => Err(Fault)
    case Some(quiz) =>
      match body.previousQuestions
      case None => Err(Fault)
      case Some(previous) =>
        var rows := Candidates(db.questions, previous, quiz.id);
        CandidatesAreEligible(db.questions, previous, quiz.id);
        if |rows| == 0 then Ok(None)
        else
          assert rows[roll % |rows|] in rows;
          Ok(Some(rows[roll % |rows|]))
  }

  /** Every eligible question can come out of the draw. */
  lemma EveryEligibleCanBeDrawn(db: Db, previous: seq<int>, category: Scalar, q: Question)
    requires q in db.questions && Eligible(q, previous, category)
    ensures exists roll: nat :: NextQuestion(db, QuizBody(Some(previous), Some(QuizCategory(category))), roll) == Ok(Some(q))
  {
    var rows := Candidates(db.questions, previous, category);
    CandidatesAreEligible(db.questions, previous, category);
    var k :| 0 <= k < |rows| && rows[k] == q;
    assert k % |rows| == k;
    assert NextQuestion(db, QuizBody(Some(previous), Some(QuizCategory(category))), k) == Ok(Some(q));
  }

  /** Once every question of the chosen category has been asked, the quiz
      is over: the reply is `null`. */
  lemma CategoryExhausted(db: Db, previous: seq<int>, category: Scalar, roll: nat)
    requires Truthy(category)
    requires forall q :: q in db.questions && q.category == CategoryKey(category) ==> q.id in previous
    ensures NextQuestion(db, QuizBody(Some(previous), Some(QuizCategory(category))), roll) == Ok(None)
  {
  }
}
