/** The `Word` document (src/models/word.model.js): a required, unique `word`, string
    fields that default to the empty string and a `meanings` list that defaults to the
    empty list. The services also read a list of per-user associations (`users`), each
    holding an ordered list of test scores. */
module WordModel {
  import opened Base

  /** One entry of an association's `testScores`: only `{ score }` is stored. */
  datatype Score = Score(score: int)

  /** One element of `word.users`. */
  datatype Association = Association(userId: Id, testScores: seq<Score>)

  datatype Word = Word(
    id: Id,
    word: string,
    root: string,
    skeleton: string,
    wikiLink: string,
    meanings: seq<string>,
    pronunciation: string,
    audioFile: string,
    users: seq<Association>)

  /** The fields given to `Word.create`; an absent field is `None`. */
  datatype WordInput = WordInput(
    word: Option<string>,
    root: Option<string>,
    skeleton: Option<string>,
    wikiLink: Option<string>,
    meanings: Option<seq<string>>,
    pronunciation: Option<string>,
    audioFile: Option<string>)

  function OrEmpty(field: Option<string>): string {
    match field
    case None => ""
    case Some(v) => v
  }

  /** A new document: the given fields, each absent one at its schema default. */
  function NewWord(id: Id, input: WordInput): (w: Word)
    ensures w.id == id && w.users == []
    ensures Some(w.word) == input.word || (input.word.None? && w.word == "")
    ensures input.root.None? ==> w.root == ""
    ensures input.skeleton.None? ==> w.skeleton == ""
    ensures input.wikiLink.None? ==> w.wikiLink == ""
    ensures input.pronunciation.None? ==> w.pronunciation == ""
    ensures input.audioFile.None? ==> w.audioFile == ""
    ensures input.meanings.None? ==> w.meanings == []
    ensures input.root.Some? ==> w.root == input.root.value
    ensures input.skeleton.Some? ==> w.skeleton == input.skeleton.value
    ensures input.wikiLink.Some? ==> w.wikiLink == input.wikiLink.value
    ensures input.pronunciation.Some? ==> w.pronunciation == input.pronunciation.value
    ensures input.audioFile.Some? ==> w.audioFile == input.audioFile.value
    ensures input.meanings.Some? ==> w.meanings == input.meanings.value
  {
    Word(
      id,
      OrEmpty(input.word),
      OrEmpty(input.root),
      OrEmpty(input.skeleton),
      OrEmpty(input.wikiLink),
      match input.meanings case None => [] case Some(m) => m,
      OrEmpty(input.pronunciation),
      OrEmpty(input.audioFile),
      [])
  }

  predicate UniqueWordIds(words: seq<Word>) {
    forall i, j :: 0 <= i < j < |words| ==> words[i].id != words[j].id
  }

  /** The unique index on `word`. */
  predicate UniqueNames(words: seq<Word>) {
    forall i, j :: 0 <= i < j < |words| ==> words[i].word != words[j].word
  }

  /** What holds of the word collection at rest: unique ids, unique and present `word`. */
  predicate WordsValid(words: seq<Word>) {
    UniqueWordIds(words) && UniqueNames(words) && forall w :: w in words ==> w.word != ""
  }

  /** `findById`: the position of the word with this id. */
  function WordIndex(words: seq<Word>, id: Id): Option<nat> {
    FirstIndex(words, (w: Word) => w.id == id)
  }

  /** `Word.create`: validation of the required `word` (absent or empty fails), then the
      unique index on `word`. The id is a freshly generated ObjectId. */
  function CreateWord(words: seq<Word>, id: Id, input: WordInput): (r: Result<seq<Word>>)
    requires forall w :: w in words ==> w.id != id
    ensures input.word.None? || input.word == Some("") ==> r == Failure(ValidationFailed("Word"))
    ensures (exists w :: w in words && Some(w.word) == input.word) ==> r.Failure?
    ensures r.Success? <==> input.word.Some? && input.word.value != "" && forall w :: w in words ==> w.word != input.word.value
    ensures r.Success? ==> r.value == words + [NewWord(id, input)]
    ensures r.Success? && WordsValid(words) ==> WordsValid(r.value)
  {
    if input.word.None? || input.word.value == "" then Failure(ValidationFailed("Word"))
    else if FirstIndex(words, (w: Word) => w.word == input.word.value).Some? then Failure(DuplicateKey("word"))
    else Success(words + [NewWord(id, input)])
  }

  /** A second document with an existing `word` is refused, and the first stays. */
  lemma CreateTwiceFails(words: seq<Word>, id1: Id, id2: Id, input: WordInput)
    requires forall w :: w in words ==> w.id != id1 && w.id != id2
    requires id1 != id2
    requires CreateWord(words, id1, input).Success?
    ensures CreateWord(CreateWord(words, id1, input).value, id2, input) == Failure(DuplicateKey("word"))
  {
    var after := CreateWord(words, id1, input).value;
    assert after[|words|] == NewWord(id1, input);
    assert after[|words|] in after;
  }

  /** A word with a unique id is the one `findById` returns. */
  lemma WordIndexOfUnique(words: seq<Word>, i: nat)
    requires UniqueWordIds(words) && i < |words|
    ensures WordIndex(words, words[i].id) == Some(i)
  {
    var p := (w: Word) => w.id == words[i].id;
    assert p(words[i]);
  }

  /** Rewriting one stored word in place keeps the collection valid as long as its id and
      `word` stay. */
  lemma WordsValidUpdate(words: seq<Word>, i: nat, w: Word)
    requires WordsValid(words) && i < |words|
    requires w.id == words[i].id && w.word == words[i].word
    ensures WordsValid(words[i := w])
  {
    var after := words[i := w];
    forall v | v in after ensures v.word != "" {
      var k :| 0 <= k < |after| && after[k] == v;
      if k != i { assert v == words[k]; }
    }
  }
}
