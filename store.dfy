/** The two MongoDB collections the services work on, held in memory: an explicitly
    constructed handle in place of mongoose's process-wide connection. */
module Store {
  import opened UserModel
  import opened WordModel

  class Database {
    /** The `users` collection, in natural order. */
    var users: seq<User>
    /** The `words` collection, in natural order. */
    var words: seq<Word>

    /** The unique indexes and schema rules hold of every stored document. */
    ghost predicate Valid()
      reads this
    {
      UsersValid(users) && WordsValid(words)
    }

    constructor ()
      ensures Valid() && users == [] && words == []
    {
      users := [];
      words := [];
    }
  }
}
