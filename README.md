# AVB-server core in Dafny

AVB-server is an Express/MongoDB back end for a vocabulary app. Users sign up, log in
and get a JWT. With that token they can change their password and keep a list of saved
words. They can also search the word collection and record test scores against a word.
This project models the parts of the back end that hold the rules:

- the two mongoose models, `User` and `Word`, with their schema rules. These are
  `required`, `unique`, defaults, and the email `match` pattern.
- the word service: `findWordInDatabase`, `saveWord`, `deleteWord`, `saveTestScore` and
  `getSavedWords`.
- the user service: `signUpUser`, `loginUser` and `changePassword`.
- the request validation chains: `signUpValidation`, `loginValidation` and
  `passwordValidation`.
- the `verifyToken` middleware.

Modules:

- `Base` holds the shared values: `Option`, `Result`, and the errors the services throw,
  with their messages. It also holds `FirstIndex`, the first-match lookup. `findById`,
  `findOne` and `Array.prototype.find` all resolve to it.
- `Crypto` holds the two foreign primitives as values that carry functions. The bcrypt
  helpers become `Hasher(hash, compare)` and `jsonwebtoken` becomes `Jwt(sign, verify)`.
  Each has a soundness predicate. `HashSound` says a password checks out against its own
  hash. `JwtSound` says a signed token verifies to its own claims.
- `UserModel` and `WordModel` hold the documents and the schema rules. Each also has the
  invariant that holds of its collection at rest.
- `Store` is a class `Database` holding the two collections as sequences, in natural
  order. The state-changing service calls are methods on it.
- `WordService`, `UserService`, `UsersValidation` and `AuthJwt` follow the source files
  of the same names.

The email pattern `^\w+([.-]?\w+)*@\w+([.-]?\w+)*(\.\w{2,3})+$` is written in two ways.
One follows its sub-expressions. The other is a plain shape: a dotted local part, an
`@`, a dotted domain, and a `.xx` or `.xxx` ending. A lemma proves the two accept the
same strings.

## Model

| member | source | states |
|---|---|---|
| Base.FirstIndex | src/services/word.service.js:18 | the lookup returns the first element satisfying the query, or none exactly when no element does |
| UserModel.EmailPatternIffShape | src/models/user.model.js:9 | the anchored email pattern accepts exactly the strings of the shape: dotted local part, `@`, dotted domain, 2–3 character final suffix |
| UserModel.AcceptedEmailShape | src/models/user.model.js:8-11 | every accepted email has exactly one `@`, with word characters on both sides of it; it starts with a word character and ends in `.` followed by two or three word characters; every `.` or `-` in it is followed by a word character |
| UserModel.SegmentedIffDotted | src/models/user.model.js:9 | the sub-expression `\w+([.-]?\w+)*` accepts exactly the non-empty strings that start with a word character, contain only word characters and single separators, and do not end in a separator |
| UserModel.SuffixesShape | src/models/user.model.js:9 | one or more `(\.\w{2,3})` groups form a string that starts with `.` and a word character, has only single separators, and ends in a TLD |
| UserModel.AcceptsTestAddress | test/user.test.js:26-39 | the address used by the sign-up tests matches the schema's email pattern |
| UserModel.RejectsAddressWithoutAt | test/user.test.js:57-70 | the address without `@` used by the invalid-email test does not match the pattern |
| UserModel.InsertUser | src/models/user.model.js:3-17 | saving a new user fails validation when the email is empty or does not match, or when the password is empty; it fails on a duplicate email; it succeeds exactly when the document is valid and its email is new, and then it appends the document; the collection invariant (unique ids and emails, every document valid) is preserved |
| UserModel.EmailIndexOfUnique | src/models/user.model.js:7 | with unique emails, `findOne({ email })` returns exactly the user holding that email |
| UserModel.UserIndexOfUnique | src/services/user.service.js:46 | with unique ids, `findById` returns exactly the user holding that id |
| UserModel.UsersValidUpdate | src/services/word.service.js:32 | rewriting one user, keeping its id and email and with a password that is kept or non-empty, keeps the collection invariant |
| WordModel.NewWord | src/models/word.model.js:3-33 | each absent optional field takes its schema default (`""`, or `[]` for meanings), an absent `word`, which has no default, is left empty (and `CreateWord` refuses it), each given field is kept, and the association list starts empty |
| WordModel.CreateWord | src/models/word.model.js:4-8 | creation succeeds exactly when `word` is present, non-empty and not already stored; an absent or empty `word` is a validation failure; success appends the new document and keeps the collection invariant |
| WordModel.CreateTwiceFails | src/models/word.model.js:7 | creating the same `word` a second time is refused with a duplicate-key error |
| WordModel.WordIndexOfUnique | src/services/word.service.js:23 | with unique ids, `findById` returns exactly the word holding that id |
| WordModel.WordsValidUpdate | src/services/word.service.js:63-64 | rewriting one word, keeping its id and `word`, keeps the collection invariant |
| WordService.Saved | src/services/word.service.js:28-30 | the id ends up in the list; the old list is a prefix of the new one; at most one entry is added, and none when the id was already there; a list without duplicates stays without duplicates |
| WordService.SavedIdempotent | src/services/word.service.js:28-30 | saving the same id twice gives the same list as saving it once |
| WordService.SaveWord | src/services/word.service.js:17-34 | an unknown user gives "User not found", then an unknown word gives "Word not found", and in both cases nothing changes; otherwise only that user's list changes, to the saved list, and the updated user is returned; the store invariant is kept |
| WordService.Without | src/services/word.service.js:42-44 | the id is gone from the list, and every other id occurs exactly as often as before |
| WordService.WithoutAppend | src/services/word.service.js:42-44 | the filter keeps the order of the remaining ids |
| WordService.WithoutAbsent | src/services/word.service.js:42-44 | a list that does not hold the id is left unchanged |
| WordService.WithoutIdempotent | src/services/word.service.js:42-44 | deleting twice is the same as deleting once |
| WordService.DeleteWord | src/services/word.service.js:36-48 | an unknown user gives "User not found" and nothing changes; otherwise only that user's list changes, to the filtered list, whether or not the word exists or was saved |
| WordService.WithScore | src/services/word.service.js:63 | exactly one score is appended to the chosen association; the other associations and every other field of the word stay as they were |
| WordService.SaveTestScore | src/services/word.service.js:50-67 | an unknown word gives "Word not found" and a word with no association for the user gives "Word not saved for this user", and in both cases nothing changes; otherwise only that word changes, with the score appended to the user's first association; users are untouched |
| WordService.Populate | src/services/word.service.js:70 | every populated document is a stored word whose id is on the list, and there are no more of them than ids |
| WordService.PopulateResolved | src/services/word.service.js:70-74 | when every id has a document, the result holds one document per id, in list order |
| WordService.PopulateAppend | src/services/word.service.js:70 | population keeps list order |
| WordService.SavedThenPopulated | test/word.test.js:38-58 | after saving a stored word that was not yet on the list, the populated list is the old one followed by that word |
| WordService.DeletedNotPopulated | src/services/word.service.js:36-48 | after deleting, the deleted word is not among the populated saved words |
| WordService.GetSavedWords | src/services/word.service.js:69-75 | fails exactly when the user is unknown, and then with "User not found"; otherwise succeeds with the populated saved list of that user, holding only stored words from that list |
| WordService.Filter | src/services/word.service.js:7-14 | a word is in the result exactly when it is stored and its `word`, `root` or `skeleton`, or one of its meanings, matches |
| WordService.FilterAppend | src/services/word.service.js:7-14 | the search keeps collection order |
| WordService.FindWordInDatabase | src/services/word.service.js:4-15 | a query that does not compile as a pattern fails; otherwise the result is exactly the stored words that match, by the `$or` of the four fields |
| UserService.SignUpUser | src/services/user.service.js:7-23 | a taken email gives "Email already exists" and nothing changes; otherwise a user with the hash of the password and no saved words is appended and its new id is returned, unless schema validation refuses it, in which case nothing changes |
| Base.ControllerMessages | src/controllers/user.controller.js:11-42 | the three messages the user controller compares `error.message` against ("Email already exists", "Invalid login details", "Old password is incorrect") each belong to exactly one error, so the controller answers 400 for exactly those errors |
| UserService.LoginUser | src/services/user.service.js:25-42 | every failure is `InvalidLogin`, whose message is "Invalid login details"; an unknown email fails; a token is returned only for a stored user with that email whose hash the password checks out against, and it is signed for that user's id; with unique emails, login succeeds exactly when the password checks out |
| UserService.ChangePassword | src/services/user.service.js:44-59 | an unknown user gives "User not found", then a wrong old password gives "Old password is incorrect", then an empty hash fails validation, and in these cases nothing changes; otherwise only that user's password is replaced by the hash of the new one |
| UserService.SignUpThenLogin | test/user.test.js:88-103 | a user who has just signed up logs in with the same password and receives a token for the new id |
| UserService.ChangeThenLogin | test/user.test.js:133-164 | after a password change the new password logs in, and a password that does not check out against the new hash is refused |
| UsersValidation.Chain | src/middlewares/users.validation.js:5-13 | one error per failed rule, on the chain's field with one of its four messages; with pairwise different messages an error is present exactly when its rule fails, and the errors come in rule order |
| UsersValidation.ChainMembers | src/middlewares/users.validation.js:5-13 | every failed rule adds its message and, with pairwise different messages, a rule that holds adds none |
| UsersValidation.ChainRanked | src/middlewares/users.validation.js:5-13 | with pairwise different messages the errors come in the order the rules are declared |
| UsersValidation.StrengthErrors | src/middlewares/users.validation.js:5-13 | no errors exactly when the password is at least 8 characters long as `isLength` counts them and has an upper-case letter, a digit and a special character; as many errors as failed rules, all on the field; with pairwise different messages an error is present exactly when its rule fails, and the errors come in rule order, a short password reporting the length message first |
| UsersValidation.MessagesDistinct | src/middlewares/users.validation.js:5-13 | the four messages of the sign-up chain are pairwise different, and so are the four of the change-password chain |
| UsersValidation.VisibleLengthPlain | src/middlewares/users.validation.js:6 | without the variation selectors U+FE0E and U+FE0F, the length `isLength` compares is the number of characters |
| UsersValidation.VisibleLengthSelectors | src/middlewares/users.validation.js:6 | a string made only of variation selectors has length 0 for `isLength` |
| UsersValidation.VisibleLengthAppend | src/middlewares/users.validation.js:6 | the `isLength` length of a concatenation is the sum of the two lengths |
| UsersValidation.SelectorPaddedPassword | src/middlewares/users.validation.js:5-13 | "Ab1!" followed by four U+FE0F is eight characters but four for `isLength`, so the length rule, and only it, fails |
| UsersValidation.Decide | src/middlewares/users.validation.js:14-20 | the request passes on exactly when there are no errors; otherwise the reply is 400 with the whole error list |
| UsersValidation.SignUpValidation | src/middlewares/users.validation.js:3-21 | passes exactly when the email is valid and the password strong; an invalid email is the first error, with its message; a valid email with a weak password fails, and its first error is on `password` with one of the four "Password must …" messages; the 400 reply lists the email rule's error, if any, followed by the strength chain's errors in rule order |
| UsersValidation.LoginValidation | src/middlewares/users.validation.js:23-33 | passes exactly when the email is valid and the password is non-empty; every error carries the default message; the 400 reply lists the `email` error, if that rule fails, followed by the `password` error, if that rule fails |
| UsersValidation.PasswordValidation | src/middlewares/users.validation.js:35-53 | passes exactly when the old password is non-empty and the new one strong; an empty old password is the first error, "Old password required"; otherwise a weak new password fails, and its first error is on `newPassword` with one of the four "New password must …" messages; the 400 reply lists the `oldPassword` error, if any, followed by the strength chain's errors in rule order |
| UsersValidation.WeakTestPassword | test/user.test.js:72-85 | the weak password of the test breaks all four strength rules, and the first error is the length message |
| UsersValidation.TestPasswordLength | test/user.test.js:26-30 | the password of the sign-up tests is 13 characters long for `isLength` |
| UsersValidation.StrongTestPassword | test/user.test.js:26-30 | the password of the sign-up tests satisfies the strength rules |
| UsersValidation.LoginIgnoresStrength | src/middlewares/users.validation.js:25 | a non-empty weak password passes login validation yet fails sign-up validation |
| AuthJwt.IndexFrom | src/middlewares/authJwt.js:13 | the first occurrence of the pattern at or after the start position, or none exactly when there is none |
| AuthJwt.StripBearer | src/middlewares/authJwt.js:13 | the first "Bearer " is removed, wherever it occurs; a header without one is left as it is |
| AuthJwt.StripBearerPrefix | src/middlewares/authJwt.js:13 | a header "Bearer " followed by a token yields that token |
| AuthJwt.StripBearerOnlyFirst | src/middlewares/authJwt.js:13 | only the first occurrence is removed: "Bearer Bearer x" yields "Bearer x" |
| AuthJwt.Authenticate | src/middlewares/authJwt.js:5-21 | no token exactly when the header is missing or empty; an invalid token exactly when the stripped header does not verify; otherwise authenticated with the verified claims |
| AuthJwt.LoginTokenAuthenticates | test/user.test.js:146-150 | a header "Bearer " followed by a freshly signed token authenticates the user it was signed for |
| AuthJwt.VerifyToken | src/middlewares/authJwt.js:5-21 | 401 "Access denied, no token provided" or 400 "Invalid token" leave the request untouched; otherwise `req.user` is set to the verified claims and the request passes on |

## Left out

- The database connection, the process-wide mongoose state and `async`/`await` are not modelled. The store is an explicit `Database` object, and each service call runs to completion on its own. Concurrent requests and races between a lookup and a save are not modelled.
- bcrypt and jsonwebtoken are not modelled: hashing and signing are abstract. Salting is not modelled because the hash is a function of the password. Token expiry (`expiresIn: "2h"`) is not modelled because there is no clock. The `SECRET` environment variable is folded into `sign` and `verify`.
- express-validator's `isEmail` is a parameter. The case-insensitive regular expression engine behind `findWordInDatabase` is a parameter `compile` that may reject a malformed query.
- Strings are sequences of Unicode scalar values, which is what `isLength` counts once it has merged surrogate pairs; a JavaScript string holding an unpaired surrogate has no counterpart in the model. `VisibleLength` leaves out U+FE0E and U+FE0F as `isLength` does.
- Neither schema declares `savedWords` on users or `users` (the score associations) on words. The model gives the documents these fields, as the services and the tests use them. Nothing in the services ever adds an association to `word.users`, so `saveTestScore` can only succeed on data written by other means.
- Scores are unbounded integers, not JavaScript numbers.
- Ids are compared by their string form. An id that is not a valid ObjectId is treated as "not found"; mongoose would raise a cast error instead.
- A failure thrown by `next()` inside the `try` of `verifyToken` is not modelled; the source would answer 400 for it.
- The controllers, routes, server bootstrap and the Wiktionary fetching used by the word controller are not part of this model. `getRandomWords` in the word controller is not part of this model either.
- Lookups by email are exact and case-sensitive, as `findOne({ email })` is. No case folding is applied.
- DuplicateKey, ValidationFailed and InvalidPattern errors are reported as error values, not with the exact message texts of MongoDB, mongoose and `RegExp`; the controllers compare `error.message` only with the texts of other errors, so only that these differ from them matters.
