/** Values shared by every layer of the back end: optional values, the outcome of a
    service call, the errors the services throw, and first-match lookup. */
module Base {

  /** A document identifier (a MongoDB ObjectId, compared through its string form). */
  type Id = string

  datatype Option<+T> = None | Some(value: T)

  /** A service call either resolves with a value or throws one of the errors below. */
  datatype Result<+T> = Success(value: T) | Failure(error: Error)

  /** The errors the services throw; `Message` is the text the caller matches on. */
  datatype Error =
    | UserNotFound
    | WordNotFound
    | WordNotSaved
    | EmailExists
    | InvalidLogin
    | OldPasswordIncorrect
    | ValidationFailed(model: string)
    | DuplicateKey(path: string)
    | InvalidPattern
  {
    /** The `message` of each error. The controllers only compare against the first six,
        so for the last three only that they differ from those matters. */
    function Message(): string {
      match this
      case UserNotFound => "User not found"
      case WordNotFound => "Word not found"
      case WordNotSaved => "Word not saved for this user"
      case EmailExists => "Email already exists"
      case InvalidLogin => "Invalid login details"
      case OldPasswordIncorrect => "Old password is incorrect"
      case ValidationFailed(model) => model + " validation failed"
      case DuplicateKey(path) => "E11000 duplicate key error: " + path
      case InvalidPattern => "Invalid regular expression"
    }
  }

  /** The controllers tell errors apart by `error.message`: each message they compare
      against belongs to exactly one error, whatever the model or path of the others. */
  lemma ControllerMessages(e: Error)
    ensures e.Message() == "Email already exists" <==> e == EmailExists
    ensures e.Message() == "Invalid login details" <==> e == InvalidLogin
    ensures e.Message() == "Old password is incorrect" <==> e == OldPasswordIncorrect
  {
    match e
    case ValidationFailed(model) =>
      var m := e.Message();
      assert |m| == |model| + 18 && m[|model| + 1] == 'v';
      assert |model| == 2 ==> m != "Email already exists";
      assert |model| == 3 ==> m != "Invalid login details";
      assert |model| == 7 ==> m != "Old password is incorrect";
    case DuplicateKey(path) =>
      assert |e.Message()| >= 28;
    case _ =>
  }

  /** The index of the first element satisfying `p`, as `findById`, `findOne` and
      `Array.prototype.find` return the first match. */
  function FirstIndex<T>(s: seq<T>, p: T -> bool): (r: Option<nat>)
    ensures r.Some? ==> r.value < |s| && p(s[r.value])
    ensures r.Some? ==> forall j :: 0 <= j < r.value ==> !p(s[j])
    ensures r.None? <==> forall j :: 0 <= j < |s| ==> !p(s[j])
    decreases |s|
  {
    if s == [] then None
    else if p(s[0]) then Some(0)
    else
      match FirstIndex(s[1..], p)
      case None => None
      case Some(k) => Some(k + 1)
  }
}
