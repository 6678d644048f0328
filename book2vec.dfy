/**
 * The embedding model of modules/book2vec.py: the corpus built from the stored (user, book)
 * edges, the mapping of the hyperparameters onto the trainer's arguments, the choice between
 * update and fresh training, and the guards of the similarity query. The trained vectors and
 * the similarity numbers are not modelled; a trained model is its vocabulary and the arguments
 * it was trained with.
 */
module Book2Vec {
  import opened Wrappers
  import opened Text
  import Mongo

  // ---- the corpus ----

  /** A row of the `(user_id, book_id)` frame; a missing field is NaN. */
  datatype Row = Row(user: Option<string>, book: Option<string>)

  /** `_load_data_from_db`: every stored edge has both fields. */
  function RowsOf(edges: seq<Mongo.Edge>): (rows: seq<Row>)
    ensures |rows| == |edges|
    ensures forall i :: 0 <= i < |rows| ==> rows[i] == Row(Some(edges[i].userId), Some(edges[i].bookId))
  {
    seq(|edges|, i requires 0 <= i < |edges| => Row(Some(edges[i].userId), Some(edges[i].bookId)))
  }

  /** `drop_duplicates`: the first occurrence of every row is kept, in order (`DropDuplicatesOrder`). */
  function DropDuplicates(rows: seq<Row>): (r: seq<Row>)
    ensures forall x :: x in r <==> x in rows
    ensures Mongo.Distinct(r)
    ensures |r| <= |rows|
    decreases |rows|
  {
    if rows == [] then []
    else
      var rest := DropDuplicates(rows[..|rows| - 1]);
      var last := rows[|rows| - 1];
      assert forall x :: x in rows <==> x in rows[..|rows| - 1] || x == last;
      if last in rest then rest else rest + [last]
  }

  /** `x` occurs in `rows` before the first occurrence of `y`. */
  ghost predicate FirstBefore(rows: seq<Row>, x: Row, y: Row)
  {
    forall q :: 0 <= q < |rows| && rows[q] == y ==> x in rows[..q]
  }

  /** The kept rows are in the order of their first occurrences. */
  lemma {:induction false} DropDuplicatesOrder(rows: seq<Row>)
    ensures forall i, j :: 0 <= i < j < |DropDuplicates(rows)| ==>
      FirstBefore(rows, DropDuplicates(rows)[i], DropDuplicates(rows)[j])
    decreases |rows|
  {
    if rows != [] {
      var init := rows[..|rows| - 1];
      var last := rows[|rows| - 1];
      var rest := DropDuplicates(init);
      var r := DropDuplicates(rows);
      DropDuplicatesOrder(init);
      assert forall q :: 0 <= q < |init| ==> rows[q] == init[q] && rows[..q] == init[..q];
      forall i, j | 0 <= i < j < |r|
        ensures FirstBefore(rows, r[i], r[j])
      {
        if j < |rest| {
          assert r[i] == rest[i] && r[j] == rest[j];
          assert FirstBefore(init, rest[i], rest[j]);
          forall q | 0 <= q < |rows| && rows[q] == r[j]
            ensures r[i] in rows[..q]
          {
            if q == |init| {
              var q' :| 0 <= q' < |init| && init[q'] == r[j];
              assert r[i] in init[..q'];
              assert init[..q'] <= rows[..q];
            }
          }
        } else {
          assert r[j] == last && last !in init && r[i] == rest[i] && r[i] in init;
          assert rows[..|init|] == init;
        }
      }
    }
  }

  /** Rows that hold no repeated row lose nothing. */
  lemma {:induction false} DropDuplicatesOfDistinct(rows: seq<Row>)
    requires Mongo.Distinct(rows)
    ensures DropDuplicates(rows) == rows
    decreases |rows|
  {
    if rows != [] {
      var init := rows[..|rows| - 1];
      DropDuplicatesOfDistinct(init);
      assert rows[|rows| - 1] !in init;
      assert init + [rows[|rows| - 1]] == rows;
    }
  }

  /** `dropna(subset=["book_id"])`, in order. */
  function DropNullBooks(rows: seq<Row>): (r: seq<Row>)
    ensures forall x :: x in r <==> x in rows && x.book.Some?
    decreases |rows|
  {
    if rows == [] then []
    else (if rows[0].book.Some? then [rows[0]] else []) + DropNullBooks(rows[1..])
  }

  lemma {:induction false} DropNullBooksDistinct(rows: seq<Row>)
    requires Mongo.Distinct(rows)
    ensures Mongo.Distinct(DropNullBooks(rows))
    decreases |rows|
  {
    if rows != [] {
      DropNullBooksDistinct(rows[1..]);
      assert rows[0] !in rows[1..];
    }
  }

  /** The non-null users of the rows, with repeats. */
  function UserKeys(rows: seq<Row>): (us: seq<string>)
    ensures forall u :: u in us <==> exists x :: x in rows && x.user == Some(u)
    decreases |rows|
  {
    if rows == [] then []
    else
      var rest := UserKeys(rows[1..]);
      assert forall x :: x in rows <==> x == rows[0] || x in rows[1..];
      if rows[0].user.Some? then [rows[0].user.value] + rest else rest
  }

  /** The books of a user's rows, in order: `agg({"book_id": list})` for one group. */
  function BooksOf(rows: seq<Row>, u: string): (bs: seq<string>)
    requires forall x :: x in rows ==> x.book.Some?
    ensures forall b :: b in bs <==> Row(Some(u), Some(b)) in rows
    decreases |rows|
  {
    if rows == [] then []
    else
      var rest := BooksOf(rows[1..], u);
      assert forall x :: x in rows <==> x == rows[0] || x in rows[1..];
      if rows[0].user == Some(u) then [rows[0].book.value] + rest else rest
  }

  lemma {:induction false} BooksOfDistinct(rows: seq<Row>, u: string)
    requires forall x :: x in rows ==> x.book.Some?
    requires Mongo.Distinct(rows)
    ensures Mongo.Distinct(BooksOf(rows, u))
    decreases |rows|
  {
    if rows != [] {
      BooksOfDistinct(rows[1..], u);
      if rows[0].user == Some(u) {
        assert rows[0] !in rows[1..];
        assert rows[0].book.value !in BooksOf(rows[1..], u);
      }
    }
  }

  // ---- sorting the group keys ----

  /** Strictly ascending in Python's string order, hence without repeats. */
  ghost predicate Sorted(s: seq<string>)
  {
    forall i, j :: 0 <= i < j < |s| ==> StrLess(s[i], s[j])
  }

  function InsertSorted(x: string, s: seq<string>): (r: seq<string>)
    ensures forall y :: y in r <==> y == x || y in s
    decreases |s|
  {
    if s == [] then [x]
    else if x == s[0] then s
    else if StrLess(x, s[0]) then [x] + s
    else [s[0]] + InsertSorted(x, s[1..])
  }

  lemma {:induction false} InsertSortedSorted(x: string, s: seq<string>)
    requires Sorted(s)
    ensures Sorted(InsertSorted(x, s))
    decreases |s|
  {
    if s != [] && x != s[0] {
      if StrLess(x, s[0]) {
        var r := [x] + s;
        forall i, j | 0 <= i < j < |r| ensures StrLess(r[i], r[j]) {
          if i == 0 && j > 1 {
            StrLessTransitive(x, s[0], s[j - 1]);
          }
        }
      } else {
        StrLessTotal(x, s[0]);
        InsertSortedSorted(x, s[1..]);
        var t := InsertSorted(x, s[1..]);
        var r := [s[0]] + t;
        forall i, j | 0 <= i < j < |r| ensures StrLess(r[i], r[j]) {
          if i == 0 {
            assert r[j] in t;
            assert r[j] == x || r[j] in s[1..];
          } else {
            assert r[i] == t[i - 1] && r[j] == t[j - 1];
          }
        }
      }
    }
  }

  /** What `groupby` does to its keys: every distinct key once, in ascending order. */
  function SortStrings(s: seq<string>): (r: seq<string>)
    ensures forall y :: y in r <==> y in s
    decreases |s|
  {
    if s == [] then [] else InsertSorted(s[0], SortStrings(s[1..]))
  }

  lemma {:induction false} SortStringsSorted(s: seq<string>)
    ensures Sorted(SortStrings(s))
    decreases |s|
  {
    if s != [] {
      SortStringsSorted(s[1..]);
      InsertSortedSorted(s[0], SortStrings(s[1..]));
    }
  }

  // ---- `_generate_sentences` ----

  /** The rows that reach the grouping: duplicates and null books dropped. */
  function CleanRows(rows: seq<Row>): (r: seq<Row>)
    ensures forall x :: x in r ==> x.book.Some?
  {
    DropNullBooks(DropDuplicates(rows))
  }

  /** The group keys, in ascending order. */
  function CorpusUsers(rows: seq<Row>): seq<string>
  {
    SortStrings(UserKeys(CleanRows(rows)))
  }

  /** The corpus: one list of books per group key. */
  function Corpus(rows: seq<Row>): (c: seq<seq<string>>)
    ensures |c| == |CorpusUsers(rows)|
  {
    var clean := CleanRows(rows);
    var users := CorpusUsers(rows);
    seq(|users|, i requires 0 <= i < |users| => BooksOf(clean, users[i]))
  }

  /**
   * The corpus has one sentence per user that has a row with a book, in ascending user order;
   * no sentence is empty or lists a book twice, and a sentence holds exactly that user's books.
   */
  lemma CorpusShape(rows: seq<Row>)
    ensures Sorted(CorpusUsers(rows))
    ensures forall u :: u in CorpusUsers(rows) <==> exists b :: Row(Some(u), Some(b)) in rows
    ensures forall i :: 0 <= i < |Corpus(rows)| ==>
      && Corpus(rows)[i] != []
      && Mongo.Distinct(Corpus(rows)[i])
      && (forall b :: b in Corpus(rows)[i] <==> Row(Some(CorpusUsers(rows)[i]), Some(b)) in rows)
  {
    var clean := CleanRows(rows);
    var users := CorpusUsers(rows);
    var c := Corpus(rows);
    SortStringsSorted(UserKeys(clean));
    DropNullBooksDistinct(DropDuplicates(rows));
    forall u ensures u in users <==> exists b :: Row(Some(u), Some(b)) in rows {
      if u in users {
        var x :| x in clean && x.user == Some(u);
        assert Row(Some(u), Some(x.book.value)) == x;
      }
      if b :| Row(Some(u), Some(b)) in rows {
        assert Row(Some(u), Some(b)) in clean;
      }
    }
    forall i | 0 <= i < |c|
      ensures c[i] != [] && Mongo.Distinct(c[i])
    {
      var x :| x in clean && x.user == Some(users[i]);
      assert Row(Some(users[i]), Some(x.book.value)) == x;
      assert x.book.value in c[i];
      BooksOfDistinct(clean, users[i]);
    }
  }

  // ---- hyperparameters ----

  /** The hyperparameter dictionary. */
  datatype Params = Params(modelType: string, approximation: string, size: int, window: int, epochs: int, negativeSize: int, minCount: int)

  const DEFAULT_PARAMS := Params("cbow", "negative", 208, 29, 5, 9, 1)
  const MODEL_TYPE_MAPPING: map<string, int> := map["skipgram" := 1, "cbow" := 0]
  const APPROXIMATION_MAPPING: map<string, int> := map["hierarchical" := 1, "negative" := 0]

  /** The keyword arguments handed to the trainer. */
  datatype TrainerArgs = TrainerArgs(
    sentences: Option<seq<seq<string>>>, sg: int, hs: int, negative: int, vectorSize: int,
    window: int, epochs: int, computeLoss: bool, minCount: int)

  datatype ModelError =
    | KeyError(key: string)  // a dictionary or vocabulary lookup failed
    | NotLoaded              // "Model is not loaded or trained"
    | EmptyVocabulary        // the trainer refuses a corpus with no word to learn
    | NoModelFile            // the model file does not exist

  /** `_get_model_params`: the model type is looked up first, then the approximation. */
  function GetModelParams(params: Params, sentences: Option<seq<seq<string>>>): (r: Result<TrainerArgs, ModelError>)
    ensures r.Ok? <==> params.modelType in MODEL_TYPE_MAPPING && params.approximation in APPROXIMATION_MAPPING
    ensures params.modelType !in MODEL_TYPE_MAPPING ==> r == Err(KeyError(params.modelType))
    ensures params.modelType in MODEL_TYPE_MAPPING && params.approximation !in APPROXIMATION_MAPPING ==>
      r == Err(KeyError(params.approximation))
    ensures r.Ok? ==>
      && r.value.sentences == sentences
      && r.value.negative == params.negativeSize && r.value.vectorSize == params.size
      && r.value.window == params.window && r.value.epochs == params.epochs
      && r.value.minCount == params.minCount && r.value.computeLoss
  {
    if params.modelType !in MODEL_TYPE_MAPPING then Err(KeyError(params.modelType))
    else if params.approximation !in APPROXIMATION_MAPPING then Err(KeyError(params.approximation))
    else
      var sg := MODEL_TYPE_MAPPING[params.modelType];
      var hs := APPROXIMATION_MAPPING[params.approximation];
      Ok(TrainerArgs(sentences, sg, hs, params.negativeSize, params.size, params.window, params.epochs, true, params.minCount))
  }

  /** Skip-gram is chosen exactly for "skipgram", hierarchical softmax exactly for "hierarchical". */
  lemma ModelParamEncodings(params: Params, sentences: Option<seq<seq<string>>>)
    requires GetModelParams(params, sentences).Ok?
    ensures GetModelParams(params, sentences).value.sg == 1 <==> params.modelType == "skipgram"
    ensures GetModelParams(params, sentences).value.sg == 0 <==> params.modelType == "cbow"
    ensures GetModelParams(params, sentences).value.hs == 1 <==> params.approximation == "hierarchical"
    ensures GetModelParams(params, sentences).value.hs == 0 <==> params.approximation == "negative"
  {
  }

  // ---- training ----

  /** All books of a corpus, sentence by sentence. */
  function Flatten(corpus: seq<seq<string>>): seq<string>
  {
    if corpus == [] then [] else corpus[0] + Flatten(corpus[1..])
  }

  /** The books occurring at least `minCount` times across the corpus. */
  function Vocabulary(corpus: seq<seq<string>>, minCount: int): (v: set<string>)
    ensures forall b :: b in v ==> b in Flatten(corpus)
  {
    var all := Flatten(corpus);
    set b | b in all && multiset(all)[b] >= minCount
  }

  /** With a minimum count of at most 1 every book of the corpus is in the vocabulary. */
  lemma VocabularyAll(corpus: seq<seq<string>>, minCount: int)
    requires minCount <= 1
    ensures forall b :: b in Vocabulary(corpus, minCount) <==> b in Flatten(corpus)
  {
    forall b | b in Flatten(corpus) ensures b in Vocabulary(corpus, minCount) {
      assert b in multiset(Flatten(corpus));
    }
  }

  lemma {:induction false} FlattenEmpty(corpus: seq<seq<string>>)
    ensures Flatten(corpus) == [] <==> forall i :: 0 <= i < |corpus| ==> corpus[i] == []
    decreases |corpus|
  {
    if corpus != [] {
      FlattenEmpty(corpus[1..]);
      assert forall i :: 1 <= i < |corpus| ==> corpus[i] == corpus[1..][i - 1];
    }
  }

  /** A trained model: its vocabulary and the arguments it was trained with. */
  datatype Embedding = Embedding(vocabulary: set<string>, args: TrainerArgs)

  /** `Word2Vec(**args)`: builds the vocabulary and trains; it refuses an empty vocabulary. */
  function FreshModel(args: TrainerArgs): (r: Result<Embedding, ModelError>)
    ensures r.Ok? ==> r.value.args == args
    ensures r.Ok? && args.sentences.Some? ==> forall b :: b in r.value.vocabulary ==> b in Flatten(args.sentences.value)
    ensures r.Err? <==> args.sentences.Some? && Vocabulary(args.sentences.value, args.minCount) == {}
    ensures r.Err? ==> r.error == EmptyVocabulary
  {
    match args.sentences
    case None => Ok(Embedding({}, args))
    case Some(corpus) =>
      var vocab := Vocabulary(corpus, args.minCount);
      if vocab == {} then Err(EmptyVocabulary) else Ok(Embedding(vocab, args))
  }

  /** Which mode `train_model` uses. */
  predicate UpdateMode(update: bool, modelFile: Option<Embedding>)
  {
    update && modelFile.Some?
  }

  /**
   * The model `train_model` ends with. Retraining a loaded model keeps its vocabulary and
   * arguments; new books in the corpus are not added to it.
   */
  function Trained(update: bool, modelFile: Option<Embedding>, params: Params, corpus: seq<seq<string>>): (r: Result<Embedding, ModelError>)
    ensures UpdateMode(update, modelFile) ==> r == Ok(modelFile.value)
    ensures !UpdateMode(update, modelFile) && r.Ok? ==>
      && r.value.args.sentences == Some(corpus)
      && forall b :: b in r.value.vocabulary ==> b in Flatten(corpus)
  {
    if UpdateMode(update, modelFile) then Ok(modelFile.value)
    else
      match GetModelParams(params, Some(corpus))
      case Err(e) => Err(e)
      case Ok(args) => FreshModel(args)
  }

  /**
   * Update mode is used exactly when asked for and a model file exists, and keeps that model's
   * vocabulary; otherwise a fresh model is trained whose vocabulary is the corpus's books that
   * occur at least `min_count` times, and training fails when there is none.
   */
  lemma TrainedMode(update: bool, modelFile: Option<Embedding>, params: Params, corpus: seq<seq<string>>)
    ensures update && modelFile.Some? ==> Trained(update, modelFile, params, corpus) == Ok(modelFile.value)
    ensures !(update && modelFile.Some?) && GetModelParams(params, Some(corpus)).Ok? ==>
      (Trained(update, modelFile, params, corpus).Ok? <==> Vocabulary(corpus, params.minCount) != {})
    ensures !(update && modelFile.Some?) && Trained(update, modelFile, params, corpus).Ok? ==>
      Trained(update, modelFile, params, corpus).value.vocabulary == Vocabulary(corpus, params.minCount)
      && Trained(update, modelFile, params, corpus).value.args == GetModelParams(params, Some(corpus)).value
  {
  }

  /**
   * With the default hyperparameters fresh training uses CBOW with negative sampling, learns
   * every book of the corpus, and fails exactly when the corpus holds no book.
   */
  lemma DefaultTraining(modelFile: Option<Embedding>, corpus: seq<seq<string>>)
    ensures Trained(false, modelFile, DEFAULT_PARAMS, corpus).Ok? <==> exists i :: 0 <= i < |corpus| && corpus[i] != []
    ensures Trained(false, modelFile, DEFAULT_PARAMS, corpus).Ok? ==>
      && (forall b :: b in Trained(false, modelFile, DEFAULT_PARAMS, corpus).value.vocabulary <==> b in Flatten(corpus))
      && Trained(false, modelFile, DEFAULT_PARAMS, corpus).value.args.sg == 0
      && Trained(false, modelFile, DEFAULT_PARAMS, corpus).value.args.hs == 0
  {
    assert "cbow" in MODEL_TYPE_MAPPING && "negative" in APPROXIMATION_MAPPING;
    var args := GetModelParams(DEFAULT_PARAMS, Some(corpus)).value;
    assert args.sg == 0 && args.hs == 0 && args.sentences == Some(corpus) && args.minCount == 1;
    assert Trained(false, modelFile, DEFAULT_PARAMS, corpus) == FreshModel(args);
    VocabularyAll(corpus, 1);
    FlattenEmpty(corpus);
    if Flatten(corpus) != [] {
      assert Flatten(corpus)[0] in Vocabulary(corpus, 1);
    }
  }

  /** What `get_similar_books` hands to the nearest-neighbour query once its guards pass. */
  datatype SimilarQuery = SimilarQuery(bookId: string, topn: int)

  // ---- the model object ----

  class Model {
    var model: Option<Embedding>
    var sentences: Option<seq<seq<string>>>
    var defaultParams: Params
    /** The contents of `book2vec.model`; `None` when the file does not exist. */
    var modelFile: Option<Embedding>

    constructor (file: Option<Embedding>)
      ensures model == None && sentences == None && defaultParams == DEFAULT_PARAMS && modelFile == file
    {
      model := None;
      sentences := None;
      defaultParams := DEFAULT_PARAMS;
      modelFile := file;
    }

    /** `not self.sentences`: nothing cached, or an empty corpus. */
    predicate NeedsSentences()
      reads this
    {
      sentences.None? || sentences.value == []
    }

    /** `_generate_sentences`, the stored edges given as rows. */
    method GenerateSentences(rows: seq<Row>)
      modifies this
      ensures sentences == Some(Corpus(rows))
      ensures model == old(model) && defaultParams == old(defaultParams) && modelFile == old(modelFile)
    {
      sentences := Some(Corpus(rows));
    }

    /** `train_model`: the error, if the trainer raised one. */
    method TrainModel(update: bool, rows: seq<Row>) returns (failure: Option<ModelError>)
      modifies this
      ensures sentences == (if old(NeedsSentences()) then Some(Corpus(rows)) else old(sentences))
      ensures defaultParams == old(defaultParams)
      ensures match Trained(update, old(modelFile), old(defaultParams), sentences.value)
        case Ok(m) => failure == None && model == Some(m) && modelFile == Some(m)
        case Err(e) => failure == Some(e) && model == old(model) && modelFile == old(modelFile)
    {
      if NeedsSentences() {
        GenerateSentences(rows);
      }
      if update && modelFile.Some? {
        model := modelFile;
      } else {
        var args := GetModelParams(defaultParams, sentences);
        if args.Err? {
          return Some(args.error);
        }
        var trained := FreshModel(args.value);
        if trained.Err? {
          return Some(trained.error);
        }
        model := Some(trained.value);
      }
      modelFile := model;
      failure := None;
    }

    /** `load_model`. */
    method LoadModel() returns (failure: Option<ModelError>)
      modifies this
      ensures modelFile.Some? ==> failure == None && model == modelFile
      ensures modelFile.None? ==> failure == Some(NoModelFile) && model == old(model)
      ensures sentences == old(sentences) && defaultParams == old(defaultParams) && modelFile == old(modelFile)
    {
      if modelFile.None? {
        return Some(NoModelFile);
      }
      model := modelFile;
      failure := None;
    }

    /** `get_similar_books`: its two guards, in order. */
    function GetSimilarBooks(bookId: string, topn: int): (r: Result<SimilarQuery, ModelError>)
      reads this
      ensures r.Ok? <==> model.Some? && bookId in model.value.vocabulary
      ensures model.None? ==> r == Err(NotLoaded)
      ensures model.Some? && bookId !in model.value.vocabulary ==>
        r == Err(KeyError("Key '" + bookId + "' not present in vocabulary"))
      ensures r.Ok? ==> r.value == SimilarQuery(bookId, topn)
    {
      if model.None? then Err(NotLoaded)
      else if bookId !in model.value.vocabulary then Err(KeyError("Key '" + bookId + "' not present in vocabulary"))
      else Ok(SimilarQuery(bookId, topn))
    }
  }
}
