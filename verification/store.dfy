/** The two tables of the trivia database, held as sequences in ascending
    primary-key order (the order the listing and search reads request with
    `order_by(id)`; the model uses it for every read), plus the id sequence
    that hands out primary keys to new questions. */
module Store {
  import opened Seqs

  /** A row of the `categories` table; `kind` is the column called `type`. */
  datatype Category = Category(id: int, kind: string)

  /** A row of the `questions` table, which is also its formatted JSON shape.
      `category` is a text column holding a category id. */
  datatype Question = Question(id: int, question: string, answer: string, category: string, difficulty: int)

  /** The database: both tables and the next value of the question id
      sequence. */
  datatype Db = Db(categories: seq<Category>, questions: seq<Question>, nextId: int)

  function CategoryId(c: Category): (id: int) { c.id }

  function QuestionId(q: Question): (id: int) { q.id }

  /** What the database guarantees: primary keys are unique (the tables are
      read in ascending key order) and the id sequence is ahead of every
      question id it has handed out. */
  ghost predicate Valid(db: Db)
  {
    && StrictlyIncreasing(db.categories, CategoryId)
    && StrictlyIncreasing(db.questions, QuestionId)
    && (forall q :: q in db.questions ==> q.id < db.nextId)
  }

  ghost function CategoryIds(cs: seq<Category>): (ids: set<int>)
  {
    set c | c in cs :: c.id
  }

  /** `{category.id: category.type for category in categories}`: a later row
      overwrites an earlier one with the same key. */
  function CategoryMap(cs: seq<Category>): (m: map<int, string>)
    ensures m.Keys == CategoryIds(cs)
    ensures forall k :: k in m ==> Category(k, m[k]) in cs
  {
    if cs == [] then map[]
    else
      var last := cs[|cs| - 1];
      var m := CategoryMap(cs[..|cs| - 1]);
      assert forall c :: c in cs ==> c == last || c in cs[..|cs| - 1];
      m[last.id := last.kind]
  }

  /** With unique keys the map has exactly one entry per category, holding
      that category's label. */
  lemma CategoryMapExact(cs: seq<Category>)
    requires StrictlyIncreasing(cs, CategoryId)
    ensures |CategoryMap(cs)| == |cs|
    ensures forall c :: c in cs ==> CategoryMap(cs)[c.id] == c.kind
  {
    CategoryMapSize(cs);
    forall c | c in cs
      ensures CategoryMap(cs)[c.id] == c.kind
    {
      CategoryMapValue(cs, c);
    }
  }

  lemma {:induction false} CategoryMapSize(cs: seq<Category>)
    requires StrictlyIncreasing(cs, CategoryId)
    ensures |CategoryMap(cs)| == |cs|
  {
    if cs != [] {
      var init := cs[..|cs| - 1];
      var last := cs[|cs| - 1];
      assert StrictlyIncreasing(init, CategoryId);
      CategoryMapSize(init);
      LastIdIsNew(cs);
      var m := CategoryMap(init);
      assert CategoryMap(cs) == m[last.id := last.kind];
    }
  }

  lemma {:induction false} CategoryMapValue(cs: seq<Category>, c: Category)
    requires StrictlyIncreasing(cs, CategoryId)
    requires c in cs
    ensures CategoryMap(cs)[c.id] == c.kind
  {
    var init := cs[..|cs| - 1];
    var last := cs[|cs| - 1];
    if c != last {
      var i :| 0 <= i < |cs| && cs[i] == c;
      assert init[i] == c;
      assert StrictlyIncreasing(init, CategoryId);
      LastIdIsNew(cs);
      CategoryMapValue(init, c);
    }
  }

  /** The last category's id occurs nowhere before it. */
  lemma LastIdIsNew(cs: seq<Category>)
    requires cs != [] && StrictlyIncreasing(cs, CategoryId)
    ensures cs[|cs| - 1].id !in CategoryIds(cs[..|cs| - 1])
    ensures forall c :: c in cs[..|cs| - 1] ==> c.id != cs[|cs| - 1].id
  {
    var init := cs[..|cs| - 1];
    forall c | c in init
      ensures c.id != cs[|cs| - 1].id
    {
      var i :| 0 <= i < |init| && init[i] == c;
      assert CategoryId(cs[i]) < CategoryId(cs[|cs| - 1]);
    }
  }

  /** `Category.query.get(id)`. */
  function FindCategory(db: Db, id: int): (r: Option<Category>)
    ensures r.None? <==> id !in CategoryIds(db.categories)
    ensures r.Some? ==> r.value in db.categories && r.value.id == id
  {
    Find(db.categories, (c: Category) => c.id == id)
  }

  /** `Question.query.get(id)`. */
  function FindQuestion(db: Db, id: int): (r: Option<Question>)
    ensures r.None? <==> forall q :: q in db.questions ==> q.id != id
    ensures r.Some? ==> r.value in db.questions && r.value.id == id
  {
    Find(db.questions, (q: Question) => q.id == id)
  }

  /** `question.delete()` followed by the commit. */
  function RemoveQuestion(db: Db, id: int): (r: Db)
    ensures forall q :: q in r.questions <==> q in db.questions && q.id != id
    ensures r.categories == db.categories && r.nextId == db.nextId
  {
    db.(questions := Filter(db.questions, (q: Question) => q.id != id))
  }

  /** `new_question.insert()`: the row takes the next sequence value as its
      id, and the sequence advances. */
  function InsertQuestion(db: Db, question: string, answer: string, category: string, difficulty: int): (r: Db)
    ensures |r.questions| == |db.questions| + 1
    ensures r.questions[..|db.questions|] == db.questions
    ensures r.questions[|db.questions|] == Question(db.nextId, question, answer, category, difficulty)
    ensures r.categories == db.categories && r.nextId > db.nextId
  {
    db.(questions := db.questions + [Question(db.nextId, question, answer, category, difficulty)],
        nextId := db.nextId + 1)
  }

  lemma RemoveKeepsValid(db: Db, id: int)
    requires Valid(db)
    ensures Valid(RemoveQuestion(db, id))
  {
    FilterKeepsIncreasing(db.questions, (q: Question) => q.id != id, QuestionId);
  }

  /** Removing an existing question shrinks the table by exactly one row. */
  lemma RemoveCount(db: Db, id: int)
    requires Valid(db)
    ensures |RemoveQuestion(db, id).questions| ==
            |db.questions| - (if FindQuestion(db, id).Some? then 1 else 0)
  {
    var keep := (q: Question) => q.id != id;
    FilterOutKeyCount(db.questions, QuestionId, id, keep);
    if FindQuestion(db, id).Some? {
      var q := FindQuestion(db, id).value;
      assert q in db.questions && QuestionId(q) == id;
    }
  }

  /** The inserted row gets an id above every existing one, so the table
      stays in ascending id order and the sequence stays ahead. */
  lemma InsertKeepsValid(db: Db, question: string, answer: string, category: string, difficulty: int)
    requires Valid(db)
    ensures Valid(InsertQuestion(db, question, answer, category, difficulty))
  {
    var r := InsertQuestion(db, question, answer, category, difficulty);
    forall i, j | 0 <= i < j < |r.questions|
      ensures QuestionId(r.questions[i]) < QuestionId(r.questions[j])
    {
      assert r.questions[i] == db.questions[i];
      if j < |db.questions| {
        assert r.questions[j] == db.questions[j];
      } else {
        assert db.questions[i] in db.questions;
      }
    }
    forall q | q in r.questions
      ensures q.id < r.nextId
    {
      assert q in db.questions || q == r.questions[|db.questions|] by {
        var k :| 0 <= k < |r.questions| && r.questions[k] == q;
        if k < |db.questions| {
          assert db.questions[k] == q;
        }
      }
    }
  }
}
