/** The saved-word list and test-score bookkeeping of src/services/word.service.js, over
    the in-memory store. `saveWord`, `deleteWord` and `saveTestScore` load a document,
    change it and save it back; `getSavedWords` and `findWordInDatabase` only read. */
module WordService {
  import opened Base
  import opened UserModel
  import opened WordModel
  import opened Store

  predicate NoDuplicates(s: seq<Id>) {
    forall i, j :: 0 <= i < j < |s| ==> s[i] != s[j]
  }

  /* ---------- saveWord ---------- */

  /** The saved list after `if (!includes(wordId)) push(wordId)`. */
  function Saved(list: seq<Id>, wordId: Id): (r: seq<Id>)
    ensures wordId in r
    ensures |list| <= |r| <= |list| + 1 && r[..|list|] == list
    ensures forall x :: x in r ==> x in list || x == wordId
    ensures wordId in list ==> r == list
    ensures NoDuplicates(list) ==> NoDuplicates(r)
  {
    if wordId in list then list else list + [wordId]
  }

  /** Saving is idempotent: saving the same word twice leaves the list as saving it once. */
  lemma SavedIdempotent(list: seq<Id>, wordId: Id)
    ensures Saved(Saved(list, wordId), wordId) == Saved(list, wordId)
  {
  }

  /** `saveWord(wordId, userId)`: the user must exist, then the word; on success the id
      is at the end of that user's list (once), and nothing else in the store changes. */
  method SaveWord(db: Database, wordId: Id, userId: Id) returns (r: Result<User>)
    requires db.Valid()
    modifies db
    ensures db.Valid() && db.words == old(db.words)
    ensures UserIndex(old(db.users), userId).None? ==>
      r == Failure(UserNotFound) && db.users == old(db.users)
    ensures UserIndex(old(db.users), userId).Some? && WordIndex(old(db.words), wordId).None? ==>
      r == Failure(WordNotFound) && db.users == old(db.users)
    ensures UserIndex(old(db.users), userId).Some? && WordIndex(old(db.words), wordId).Some? ==>
      var i := UserIndex(old(db.users), userId).value;
      var u := old(db.users)[i];
      && db.users == old(db.users)[i := u.(savedWords := Saved(u.savedWords, wordId))]
      && r == Success(db.users[i])
  {
    var ui := UserIndex(db.users, userId);
    if ui.None? {
      return Failure(UserNotFound);
    }
    var wi := WordIndex(db.words, wordId);
    if wi.None? {
      return Failure(WordNotFound);
    }
    var user := db.users[ui.value];
    if wordId !in user.savedWords {
      user := user.(savedWords := user.savedWords + [wordId]);
    }
    UsersValidUpdate(db.users, ui.value, user);
    db.users := db.users[ui.value := user];
    r := Success(user);
  }

  /* ---------- deleteWord ---------- */

  /** `savedWords.filter(id => id !== wordId)`. */
  function Without(list: seq<Id>, wordId: Id): (r: seq<Id>)
    ensures wordId !in r
    ensures |r| <= |list|
    ensures forall x :: x != wordId ==> multiset(r)[x] == multiset(list)[x]
    decreases |list|
  {
    if list == [] then []
    else
      assert list == [list[0]] + list[1..];
      (if list[0] == wordId then [] else [list[0]]) + Without(list[1..], wordId)
  }

  /** The filter keeps order: it distributes over concatenation. */
  lemma {:induction false} WithoutAppend(a: seq<Id>, b: seq<Id>, wordId: Id)
    ensures Without(a + b, wordId) == Without(a, wordId) + Without(b, wordId)
    decreases |a|
  {
    if a != [] {
      assert (a + b)[1..] == a[1..] + b;
      WithoutAppend(a[1..], b, wordId);
    } else {
      assert a + b == b;
    }
  }

  /** A list that does not hold the id is left exactly as it was. */
  lemma {:induction false} WithoutAbsent(list: seq<Id>, wordId: Id)
    requires wordId !in list
    ensures Without(list, wordId) == list
    decreases |list|
  {
    if list != [] {
      WithoutAbsent(list[1..], wordId);
      assert list == [list[0]] + list[1..];
    }
  }

  /** Deleting is idempotent. */
  lemma WithoutIdempotent(list: seq<Id>, wordId: Id)
    ensures Without(Without(list, wordId), wordId) == Without(list, wordId)
  {
    WithoutAbsent(Without(list, wordId), wordId);
  }

  /** `deleteWord(wordId, userId)`: the user must exist; every occurrence of the id leaves
      that user's list, the other ids keep their order; the word itself need not exist
      or be saved, and nothing else in the store changes. */
  method DeleteWord(db: Database, wordId: Id, userId: Id) returns (r: Result<User>)
    requires db.Valid()
    modifies db
    ensures db.Valid() && db.words == old(db.words)
    ensures UserIndex(old(db.users), userId).None? ==>
      r == Failure(UserNotFound) && db.users == old(db.users)
    ensures UserIndex(old(db.users), userId).Some? ==>
      var i := UserIndex(old(db.users), userId).value;
      var u := old(db.users)[i];
      && db.users == old(db.users)[i := u.(savedWords := Without(u.savedWords, wordId))]
      && r == Success(db.users[i])
  {
    var ui := UserIndex(db.users, userId);
    if ui.None? {
      return Failure(UserNotFound);
    }
    var user := db.users[ui.value];
    user := user.(savedWords := Without(user.savedWords, wordId));
    UsersValidUpdate(db.users, ui.value, user);
    db.users := db.users[ui.value := user];
    r := Success(user);
  }

  /* ---------- saveTestScore ---------- */

  /** `word.users.find(user => user.userId === userId)`. */
  function AssociationIndex(users: seq<Association>, userId: Id): Option<nat> {
    FirstIndex(users, (a: Association) => a.userId == userId)
  }

  /** The word after `push({ score })` onto the scores of its association `k`. */
  function WithScore(w: Word, k: nat, score: int): (r: Word)
    requires k < |w.users|
    ensures |r.users| == |w.users| && r.users[k].userId == w.users[k].userId
    ensures r.users[k].testScores == w.users[k].testScores + [Score(score)]
    ensures forall j :: 0 <= j < |w.users| && j != k ==> r.users[j] == w.users[j]
    ensures r.(users := w.users) == w
  {
    var a := w.users[k];
    w.(users := w.users[k := a.(testScores := a.testScores + [Score(score)])])
  }

  /** `saveTestScore(wordId, userId, score)`: the word must exist and hold an association
      for the user; on success exactly one score is appended to the first such
      association, and nothing else in the store changes. */
  method SaveTestScore(db: Database, wordId: Id, userId: Id, score: int) returns (r: Result<Word>)
    requires db.Valid()
    modifies db
    ensures db.Valid() && db.users == old(db.users)
    ensures WordIndex(old(db.words), wordId).None? ==>
      r == Failure(WordNotFound) && db.words == old(db.words)
    ensures WordIndex(old(db.words), wordId).Some? ==>
      var i := WordIndex(old(db.words), wordId).value;
      var w := old(db.words)[i];
      && (AssociationIndex(w.users, userId).None? ==>
            r == Failure(WordNotSaved) && db.words == old(db.words))
      && (AssociationIndex(w.users, userId).Some? ==>
            db.words == old(db.words)[i := WithScore(w, AssociationIndex(w.users, userId).value, score)]
            && r == Success(db.words[i]))
  {
    var wi := WordIndex(db.words, wordId);
    if wi.None? {
      return Failure(WordNotFound);
    }
    var word := db.words[wi.value];
    var ai := AssociationIndex(word.users, userId);
    if ai.None? {
      return Failure(WordNotSaved);
    }
    var entry := word.users[ai.value];
    entry := entry.(testScores := entry.testScores + [Score(score)]);
    word := word.(users := word.users[ai.value := entry]);
    WordsValidUpdate(db.words, wi.value, word);
    db.words := db.words[wi.value := word];
    r := Success(word);
  }

  /* ---------- getSavedWords ---------- */

  /** `populate("savedWords")`: each saved id replaced by its word document, in list
      order; an id with no document is dropped. */
  function Populate(ids: seq<Id>, words: seq<Word>): (r: seq<Word>)
    ensures |r| <= |ids|
    ensures forall w :: w in r ==> w in words && w.id in ids
    decreases |ids|
  {
    if ids == [] then []
    else
      var head := match WordIndex(words, ids[0]) case None => [] case Some(k) => [words[k]];
      head + Populate(ids[1..], words)
  }

  /** When every saved id has a document, the populated list is those documents, one per
      id, in the stored order. */
  lemma {:induction false} PopulateResolved(ids: seq<Id>, words: seq<Word>)
    requires forall id :: id in ids ==> WordIndex(words, id).Some?
    ensures |Populate(ids, words)| == |ids|
    ensures forall k :: 0 <= k < |ids| ==> Populate(ids, words)[k].id == ids[k]
    decreases |ids|
  {
    if ids != [] {
      assert ids[0] in ids;
      forall id | id in ids[1..] ensures WordIndex(words, id).Some? {
        assert id in ids;
      }
      PopulateResolved(ids[1..], words);
    }
  }

  /** Population keeps list order: it distributes over concatenation. */
  lemma {:induction false} PopulateAppend(a: seq<Id>, b: seq<Id>, words: seq<Word>)
    ensures Populate(a + b, words) == Populate(a, words) + Populate(b, words)
    decreases |a|
  {
    if a != [] {
      assert (a + b)[0] == a[0];
      assert (a + b)[1..] == a[1..] + b;
      PopulateAppend(a[1..], b, words);
    } else {
      assert a + b == b;
    }
  }

  /** Saving a stored word that is not yet on the list makes that word the last entry of
      the populated list, the earlier entries staying as they were. */
  lemma SavedThenPopulated(list: seq<Id>, words: seq<Word>, wordId: Id)
    requires WordIndex(words, wordId).Some? && wordId !in list
    ensures Populate(Saved(list, wordId), words)
            == Populate(list, words) + [words[WordIndex(words, wordId).value]]
  {
    PopulateAppend(list, [wordId], words);
    assert [wordId][1..] == [];
  }

  /** A deleted word is absent from the populated list. */
  lemma DeletedNotPopulated(list: seq<Id>, words: seq<Word>, wordId: Id)
    ensures forall w :: w in Populate(Without(list, wordId), words) ==> w.id != wordId
  {
  }

  /** `getSavedWords(userId)`: the user must exist; the result is that user's saved
      list, populated, and the store is only read. */
  function GetSavedWords(users: seq<User>, words: seq<Word>, userId: Id): (r: Result<seq<Word>>)
    ensures r.Failure? <==> UserIndex(users, userId).None?
    ensures r.Failure? ==> r.error == UserNotFound
    ensures r.Success? ==>
      var u := users[UserIndex(users, userId).value];
      && u.id == userId
      && r.value == Populate(u.savedWords, words)
      && forall w :: w in r.value ==> w in words && w.id in u.savedWords
  {
    match UserIndex(users, userId)
    case None => Failure(UserNotFound)
    case Some(i) => Success(Populate(users[i].savedWords, words))
  }

  /* ---------- findWordInDatabase ---------- */

  /** The `$or` of the search: `word`, `root` or `skeleton` matches, or some element of
      `meanings` does (`$elemMatch`). */
  predicate Hit(w: Word, matches: string -> bool) {
    matches(w.word) || matches(w.root) || matches(w.skeleton) || exists m :: m in w.meanings && matches(m)
  }

  /** The documents of the collection that satisfy the search, in collection order. */
  function Filter(words: seq<Word>, matches: string -> bool): (r: seq<Word>)
    ensures |r| <= |words|
    ensures forall w :: w in r <==> w in words && Hit(w, matches)
    decreases |words|
  {
    if words == [] then []
    else
      assert words == [words[0]] + words[1..];
      (if Hit(words[0], matches) then [words[0]] else []) + Filter(words[1..], matches)
  }

  /** The search keeps collection order: it distributes over concatenation. */
  lemma {:induction false} FilterAppend(a: seq<Word>, b: seq<Word>, matches: string -> bool)
    ensures Filter(a + b, matches) == Filter(a, matches) + Filter(b, matches)
    decreases |a|
  {
    if a != [] {
      assert (a + b)[1..] == a[1..] + b;
      FilterAppend(a[1..], b, matches);
    } else {
      assert a + b == b;
    }
  }

  /** `findWordInDatabase(query)`: the query is compiled to a case-insensitive pattern
      (which fails for a malformed one) and the collection is filtered by it. */
  function FindWordInDatabase(words: seq<Word>, query: string, compile: string -> Option<string -> bool>)
    : (r: Result<seq<Word>>)
    ensures compile(query).None? ==> r.Failure? && r.error == InvalidPattern
    ensures compile(query).Some? ==>
      && r.Success?
      && |r.value| <= |words|
      && forall w :: w in r.value <==> w in words && Hit(w, compile(query).value)
  {
    match compile(query)
    case None => Failure(InvalidPattern)
    case Some(matches) => Success(Filter(words, matches))
  }
}
