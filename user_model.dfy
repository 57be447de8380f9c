/** The `User` document (src/models/user.model.js): a required, unique email that must
    match the schema's pattern, and a required (hashed) password. The services also keep
    an ordered list of saved word ids on each user. */
module UserModel {
  import opened Base

  datatype User = User(id: Id, email: string, password: string, savedWords: seq<Id>)

  /* ---------- The email pattern  ^\w+([.-]?\w+)*@\w+([.-]?\w+)*(\.\w{2,3})+$ ---------- */

  /** `\w` without the unicode flag: ASCII letters, digits and underscore. */
  predicate IsWordChar(c: char) {
    'a' <= c <= 'z' || 'A' <= c <= 'Z' || '0' <= c <= '9' || c == '_'
  }

  /** `[.-]` */
  predicate IsSeparator(c: char) {
    c == '.' || c == '-'
  }

  predicate AllWordChars(s: string) {
    forall i :: 0 <= i < |s| ==> IsWordChar(s[i])
  }

  /** `\w+` */
  predicate WordRun(s: string) {
    |s| > 0 && AllWordChars(s)
  }

  /** `[.-]?\w+` */
  predicate Piece(s: string) {
    WordRun(s) || (|s| > 1 && IsSeparator(s[0]) && WordRun(s[1..]))
  }

  /** `([.-]?\w+)*` */
  predicate Pieces(s: string)
    decreases |s|
  {
    s == [] || exists k :: 1 <= k <= |s| && Piece(s[..k]) && Pieces(s[k..])
  }

  /** `\w+([.-]?\w+)*`, the shape of the local part and of the start of the domain. */
  predicate Segmented(s: string) {
    exists k :: 1 <= k <= |s| && WordRun(s[..k]) && Pieces(s[k..])
  }

  /** `\.\w{2,3}` */
  predicate DomainSuffix(s: string) {
    (|s| == 3 || |s| == 4) && s[0] == '.' && AllWordChars(s[1..])
  }

  /** `(\.\w{2,3})+` anchored at the end of the input. */
  predicate Suffixes(s: string)
    decreases |s|
  {
    exists k :: 3 <= k <= 4 && k <= |s| && DomainSuffix(s[..k]) && (k == |s| || Suffixes(s[k..]))
  }

  /** The whole anchored pattern: a segmented local part, `@`, a segmented domain head and
      one or more `.xx` / `.xxx` groups. */
  predicate EmailPattern(e: string) {
    exists i, j :: 0 <= i < j <= |e| && e[i] == '@' && Segmented(e[..i]) && Segmented(e[i + 1..j]) && Suffixes(e[j..])
  }

  /* ---------- A reference description of the same language ---------- */

  /** Every character is a word character or a separator, and every separator is
      followed by a word character. */
  predicate Linked(s: string) {
    && (forall i :: 0 <= i < |s| ==> IsWordChar(s[i]) || IsSeparator(s[i]))
    && (|s| > 0 ==> !IsSeparator(s[|s| - 1]))
    && FollowedByWord(s)
  }

  /** Each separator that is not last is followed by a word character. The successor is
      bound separately so that instantiating the quantifier creates no new index terms. */
  predicate FollowedByWord(s: string) {
    forall i, j :: 0 <= i < |s| && j - i == 1 && j < |s| && IsSeparator(s[i]) ==> IsWordChar(s[j])
  }

  /** Non-empty, starting with a word character, separators single and never last. */
  predicate Dotted(s: string) {
    |s| > 0 && IsWordChar(s[0]) && Linked(s)
  }

  /** Ends in `.` followed by two or three word characters. */
  predicate TldEnd(s: string) {
    && |s| >= 3 && IsWordChar(s[|s| - 1]) && IsWordChar(s[|s| - 2])
    && (s[|s| - 3] == '.' || (|s| >= 4 && s[|s| - 4] == '.' && IsWordChar(s[|s| - 3])))
  }

  /** One `@` between a dotted local part and a dotted domain that ends in a TLD. */
  predicate EmailShape(e: string) {
    exists i :: 0 <= i < |e| && e[i] == '@' && Dotted(e[..i]) && Dotted(e[i + 1..]) && TldEnd(e[i + 1..])
  }

  lemma LinkedAppend(a: string, b: string)
    requires Linked(a) && Linked(b)
    ensures Linked(a + b)
  {
    var d := a + b;
    forall i | 0 <= i < |d|
      ensures IsWordChar(d[i]) || IsSeparator(d[i])
    {
      if i < |a| { assert d[i] == a[i]; } else { assert d[i] == b[i - |a|]; }
    }
    if |b| > 0 {
      assert d[|d| - 1] == b[|b| - 1];
    } else {
      assert d == a;
    }
    forall i, j | 0 <= i < |d| && j - i == 1 && j < |d| && IsSeparator(d[i])
      ensures IsWordChar(d[j])
    {
      if j < |a| {
        assert d[i] == a[i] && d[j] == a[j];
      } else if i >= |a| {
        assert d[i] == b[i - |a|] && d[j] == b[j - |a|];
      }
    }
  }

  lemma LinkedSuffix(s: string, k: nat)
    requires Linked(s) && k <= |s|
    ensures Linked(s[k..])
  {
    var t := s[k..];
    if |t| > 0 {
      assert t[|t| - 1] == s[|s| - 1];
    }
    forall i, j | 0 <= i < |t| && j - i == 1 && j < |t| && IsSeparator(t[i])
      ensures IsWordChar(t[j])
    {
      assert t[i] == s[i + k] && t[j] == s[j + k];
    }
  }

  lemma LinkedPrefix(s: string, k: nat)
    requires Linked(s) && 0 < k <= |s| && !IsSeparator(s[k - 1])
    ensures Linked(s[..k])
  {
    var t := s[..k];
    assert t[k - 1] == s[k - 1];
    forall i, j | 0 <= i < |t| && j - i == 1 && j < |t| && IsSeparator(t[i])
      ensures IsWordChar(t[j])
    {
      assert t[i] == s[i] && t[j] == s[j];
    }
  }

  lemma PieceLinked(s: string)
    requires Piece(s)
    ensures Linked(s)
  {
    var t := s[1..];
    if !WordRun(s) {
      forall i | 1 <= i < |s| ensures IsWordChar(s[i]) {
        assert s[i] == t[i - 1];
      }
    }
  }

  /** `([.-]?\w+)*` accepts only linked strings... */
  lemma {:induction false} PiecesAreLinked(s: string)
    requires Pieces(s)
    ensures Linked(s)
    decreases |s|
  {
    if s != [] {
      var k :| 1 <= k <= |s| && Piece(s[..k]) && Pieces(s[k..]);
      PiecesAreLinked(s[k..]);
      PieceLinked(s[..k]);
      LinkedAppend(s[..k], s[k..]);
      assert s == s[..k] + s[k..];
    }
  }

  /** ... and every linked string. */
  lemma {:induction false} LinkedArePieces(s: string)
    requires Linked(s)
    ensures Pieces(s)
    decreases |s|
  {
    if s != [] {
      var k := if IsWordChar(s[0]) then 1 else 2;
      LinkedSuffix(s, k);
      LinkedArePieces(s[k..]);
      assert Piece(s[..k]) by {
        if k == 2 {
          assert s[..k][1..] == [s[1]];
        }
      }
    }
  }

  /** A run of word characters is linked. */
  lemma WordRunLinked(w: string)
    requires WordRun(w)
    ensures Linked(w)
  {
  }

  /** `\w+([.-]?\w+)*` accepts only dotted strings... */
  lemma SegmentedIsDotted(s: string)
    requires Segmented(s)
    ensures Dotted(s)
  {
    var k :| 1 <= k <= |s| && WordRun(s[..k]) && Pieces(s[k..]);
    PiecesAreLinked(s[k..]);
    WordRunLinked(s[..k]);
    LinkedAppend(s[..k], s[k..]);
    assert s == s[..k] + s[k..];
  }

  /** ... and every dotted string. */
  lemma DottedIsSegmented(s: string)
    requires Dotted(s)
    ensures Segmented(s)
  {
    LinkedSuffix(s, 1);
    LinkedArePieces(s[1..]);
    assert WordRun(s[..1]);
  }

  /** The segmented form `\w+([.-]?\w+)*` is exactly the dotted shape. */
  lemma SegmentedIffDotted(s: string)
    ensures Segmented(s) <==> Dotted(s)
  {
    if Segmented(s) {
      SegmentedIsDotted(s);
    }
    if Dotted(s) {
      DottedIsSegmented(s);
    }
  }

  lemma TldEndAppend(a: string, b: string)
    requires TldEnd(b)
    ensures TldEnd(a + b)
  {
    var d := a + b;
    assert d[|d| - 1] == b[|b| - 1];
    assert d[|d| - 2] == b[|b| - 2];
    assert d[|d| - 3] == b[|b| - 3];
    if |b| >= 4 {
      assert d[|d| - 4] == b[|b| - 4];
    }
  }

  lemma DomainSuffixShape(g: string)
    requires DomainSuffix(g)
    ensures SuffixShape(g)
  {
    forall i | 1 <= i < |g| ensures IsWordChar(g[i]) {
      assert g[i] == g[1..][i - 1];
    }
  }

  /** A `.`, a word character, and linked up to a TLD ending: the shape of one or more
      suffix groups. */
  predicate SuffixShape(s: string) {
    |s| >= 3 && s[0] == '.' && IsWordChar(s[1]) && Linked(s) && TldEnd(s)
  }

  /** Suffix groups in a row keep that shape. */
  lemma SuffixShapeAppend(g: string, t: string)
    requires SuffixShape(g) && SuffixShape(t)
    ensures SuffixShape(g + t)
  {
    LinkedAppend(g, t);
    TldEndAppend(g, t);
    assert (g + t)[0] == g[0] && (g + t)[1] == g[1];
  }

  /** A run of `.xx` / `.xxx` groups is linked, starts with `.` and ends in a TLD. */
  lemma {:induction false} SuffixesShape(s: string)
    requires Suffixes(s)
    ensures SuffixShape(s)
    decreases |s|
  {
    var k :| 3 <= k <= 4 && k <= |s| && DomainSuffix(s[..k]) && (k == |s| || Suffixes(s[k..]));
    DomainSuffixShape(s[..k]);
    if k == |s| {
      assert s == s[..k];
    } else {
      SuffixesShape(s[k..]);
      SuffixShapeAppend(s[..k], s[k..]);
      assert s == s[..k] + s[k..];
    }
  }

  /** A dotted head followed by suffix groups is dotted. */
  lemma DottedThenSuffixes(a: string, t: string)
    requires Dotted(a) && Suffixes(t)
    ensures Dotted(a + t) && TldEnd(a + t)
  {
    SuffixesShape(t);
    LinkedAppend(a, t);
    TldEndAppend(a, t);
    assert (a + t)[0] == a[0];
  }

  /** A dotted domain ending in a TLD splits into a dotted head and one suffix group. */
  lemma SplitDomain(d: string) returns (j: nat)
    requires Dotted(d) && TldEnd(d)
    ensures 1 <= j < |d| && Dotted(d[..j]) && Suffixes(d[j..])
  {
    j := if d[|d| - 3] == '.' then |d| - 3 else |d| - 4;
    assert d[j] == '.';
    assert j != 0;
    assert !IsSeparator(d[j - 1]);
    LinkedPrefix(d, j);
    var g := d[j..];
    assert d[..j][0] == d[0];
    assert AllWordChars(g[1..]) by {
      forall i | 0 <= i < |g[1..]| ensures IsWordChar(g[1..][i]) {
        assert g[1..][i] == d[j + 1 + i];
      }
    }
    assert DomainSuffix(g[..|g|]) by {
      assert g[..|g|] == g;
    }
  }

  /** A dotted head from `a` to `j` followed by suffix groups is a dotted domain ending
      in a TLD. */
  lemma DomainShape(e: string, a: nat, j: nat)
    requires a < j <= |e| && Dotted(e[a..j]) && Suffixes(e[j..])
    ensures Dotted(e[a..]) && TldEnd(e[a..])
  {
    DottedThenSuffixes(e[a..j], e[j..]);
    assert e[a..j] + e[j..] == e[a..];
  }

  /** The parts of the reference shape, found at `i`, make a string of that shape. */
  lemma ShapeAt(e: string, i: nat)
    requires i < |e| && e[i] == '@' && Dotted(e[..i]) && Dotted(e[i + 1..]) && TldEnd(e[i + 1..])
    ensures EmailShape(e)
  {
  }

  /** Every string the anchored pattern accepts has the reference shape. */
  lemma PatternHasShape(e: string)
    requires EmailPattern(e)
    ensures EmailShape(e)
  {
    var i, j :| 0 <= i < j <= |e| && e[i] == '@' && Segmented(e[..i]) && Segmented(e[i + 1..j]) && Suffixes(e[j..]);
    SegmentedIffDotted(e[..i]);
    SegmentedIffDotted(e[i + 1..j]);
    DomainShape(e, i + 1, j);
    ShapeAt(e, i);
  }

  /** Slicing a suffix of `s` again is slicing `s`. Kept apart from `DomainParts` so that
      the solver proves these slice equalities in a small context. */
  lemma SubSlices(s: string, a: nat, j: nat)
    requires a <= |s| && j <= |s| - a
    ensures s[a..][..j] == s[a..a + j] && s[a..][j..] == s[a + j..]
  {
  }

  /** The pattern's parts do not depend on how equal strings are written. Kept apart from
      `DomainParts` for the same reason as `SubSlices`. */
  lemma SameParts(head: string, head': string, tail: string, tail': string)
    requires Segmented(head) && Suffixes(tail) && head == head' && tail == tail'
    ensures Segmented(head') && Suffixes(tail')
  {
  }

  /** The three parts of the pattern, found at `i` and `j`, make a match. */
  lemma PatternAt(e: string, i: nat, j: nat)
    requires i < j <= |e| && e[i] == '@'
    requires Segmented(e[..i]) && Segmented(e[i + 1..j]) && Suffixes(e[j..])
    ensures EmailPattern(e)
  {
  }

  /** The `@` of a string of the reference shape. */
  lemma ShapeWitness(e: string) returns (i: nat)
    requires EmailShape(e)
    ensures i < |e| && e[i] == '@' && Dotted(e[..i]) && Dotted(e[i + 1..]) && TldEnd(e[i + 1..])
  {
    i :| 0 <= i < |e| && e[i] == '@' && Dotted(e[..i]) && Dotted(e[i + 1..]) && TldEnd(e[i + 1..]);
  }

  /** A dotted domain ending in a TLD, starting at `a`, is a segmented head followed by
      suffix groups. */
  lemma DomainParts(e: string, a: nat) returns (k: nat)
    requires a <= |e| && Dotted(e[a..]) && TldEnd(e[a..])
    ensures a < k < |e| && Segmented(e[a..k]) && Suffixes(e[k..])
  {
    var d := e[a..];
    var j := SplitDomain(d);
    SegmentedIffDotted(d[..j]);
    k := a + j;
    SubSlices(e, a, j);
    SameParts(d[..j], e[a..k], d[j..], e[k..]);
  }

  /** A string of the reference shape splits where the pattern needs it: a segmented
      local part, the `@`, a segmented domain head and suffix groups. */
  lemma ShapeParts(e: string) returns (i: nat, k: nat)
    requires EmailShape(e)
    ensures i < k <= |e| && e[i] == '@'
    ensures Segmented(e[..i]) && Segmented(e[i + 1..k]) && Suffixes(e[k..])
  {
    i := ShapeWitness(e);
    SegmentedIffDotted(e[..i]);
    k := DomainParts(e, i + 1);
  }

  /** Every string of the reference shape is accepted by the anchored pattern. */
  lemma ShapeMatchesPattern(e: string)
    requires EmailShape(e)
    ensures EmailPattern(e)
  {
    var i, k := ShapeParts(e);
    PatternAt(e, i, k);
  }

  /** The anchored pattern and the reference shape accept the same strings. */
  lemma EmailPatternIffShape(e: string)
    ensures EmailPattern(e) <==> EmailShape(e)
  {
    if EmailPattern(e) {
      PatternHasShape(e);
    }
    if EmailShape(e) {
      ShapeMatchesPattern(e);
    }
  }

  lemma DottedEndsInWord(s: string)
    requires Dotted(s)
    ensures IsWordChar(s[|s| - 1])
  {
  }

  /** Around the `@` at position `i` between a dotted local part and a dotted domain:
      nothing else is an `@`, no two separators touch, and the `@` has word characters on
      both sides. */
  lemma AtSignAlone(e: string, i: nat)
    requires i < |e| && e[i] == '@' && Dotted(e[..i]) && Dotted(e[i + 1..])
    ensures forall j :: 0 <= j < |e| && e[j] == '@' ==> j == i
    ensures FollowedByWord(e)
    ensures 0 < i < |e| - 1 && IsWordChar(e[i - 1]) && IsWordChar(e[i + 1])
  {
    var local, domain := e[..i], e[i + 1..];
    forall j | 0 <= j < |e| && j != i ensures e[j] != '@' {
      if j < i { assert e[j] == local[j]; } else { assert e[j] == domain[j - i - 1]; }
    }
    forall k, l | 0 <= k < |e| && l - k == 1 && l < |e| && IsSeparator(e[k])
      ensures IsWordChar(e[l])
    {
      if l < i {
        assert e[k] == local[k] && e[l] == local[l];
      } else if l > i {
        assert e[k] == domain[k - i - 1] && e[l] == domain[l - i - 1];
      }
    }
    DottedEndsInWord(local);
    assert e[i - 1] == local[i - 1];
    assert e[i + 1] == domain[0];
  }

  /** The consequences below, for the reference shape. */
  lemma ShapeConsequences(e: string, i: nat)
    requires i < |e| && e[i] == '@' && Dotted(e[..i]) && Dotted(e[i + 1..]) && TldEnd(e[i + 1..])
    ensures IsWordChar(e[0]) && TldEnd(e)
  {
    TldEndAppend(e[..i + 1], e[i + 1..]);
    assert e == e[..i + 1] + e[i + 1..];
    assert e[0] == e[..i][0];
  }

  /** Position `i` holds the only `@` of `e`. */
  predicate OnlyAt(e: string, i: int) {
    0 <= i < |e| && e[i] == '@' && forall j :: 0 <= j < |e| && e[j] == '@' ==> j == i
  }

  /** What every accepted email looks like: exactly one `@`, a word character first,
      a `.xx` or `.xxx` ending, no two separators side by side, and word characters on
      both sides of the `@`. */
  lemma AcceptedEmailShape(e: string)
    requires EmailPattern(e)
    ensures exists i :: OnlyAt(e, i) && 0 < i < |e| - 1 && IsWordChar(e[i - 1]) && IsWordChar(e[i + 1])
    ensures IsWordChar(e[0])
    ensures TldEnd(e)
    ensures FollowedByWord(e)
  {
    PatternHasShape(e);
    var i := ShapeWitness(e);
    AtSignAlone(e, i);
    ShapeConsequences(e, i);
    assert OnlyAt(e, i);
  }

  /** The address the sign-up tests use is accepted. */
  lemma AcceptsTestAddress()
    ensures EmailPattern("newUser@email.com")
  {
    var e := "newUser@email.com";
    var local, domain := e[..7], e[8..];
    assert local == "newUser";
    assert domain == "email.com";
    assert Linked(local) by {
      forall i | 0 <= i < |local| ensures IsWordChar(local[i]) {}
    }
    assert Linked(domain) by {
      forall i | 0 <= i < |domain| ensures IsWordChar(domain[i]) || domain[i] == '.' {}
    }
    assert Dotted(local) && Dotted(domain) && TldEnd(domain);
    assert e[7] == '@';
    assert EmailShape(e);
    EmailPatternIffShape(e);
  }

  /** A string without `@`, as in the invalid-email sign-up test, is rejected. */
  lemma RejectsAddressWithoutAt()
    ensures !EmailPattern("invalidEmail")
  {
    var bad := "invalidEmail";
    EmailPatternIffShape(bad);
    assert forall i :: 0 <= i < |bad| ==> bad[i] != '@';
  }

  /* ---------- Schema rules ---------- */

  /** `required: true` on a String path rejects the missing and the empty value; `match`
      applies the pattern to the email. */
  predicate SchemaValid(u: User) {
    u.email != "" && EmailPattern(u.email) && u.password != ""
  }

  predicate UniqueUserIds(users: seq<User>) {
    forall i, j :: 0 <= i < j < |users| ==> users[i].id != users[j].id
  }

  /** The unique index on `email`. */
  predicate UniqueEmails(users: seq<User>) {
    forall i, j :: 0 <= i < j < |users| ==> users[i].email != users[j].email
  }

  /** What holds of the user collection at rest. */
  predicate UsersValid(users: seq<User>) {
    UniqueUserIds(users) && UniqueEmails(users) && forall u :: u in users ==> SchemaValid(u)
  }

  /** `findById`: the position of the user with this id. */
  function UserIndex(users: seq<User>, id: Id): Option<nat> {
    FirstIndex(users, (u: User) => u.id == id)
  }

  /** `findOne({ email })`: the position of the first user with this email. */
  function EmailIndex(users: seq<User>, email: string): Option<nat> {
    FirstIndex(users, (u: User) => u.email == email)
  }

  /** Saving a new document: schema validation first, then the unique indexes. */
  function InsertUser(users: seq<User>, u: User): (r: Result<seq<User>>)
    requires forall v :: v in users ==> v.id != u.id
    ensures !SchemaValid(u) ==> r == Failure(ValidationFailed("User"))
    ensures SchemaValid(u) && (exists v :: v in users && v.email == u.email) ==> r == Failure(DuplicateKey("email"))
    ensures r.Success? <==> SchemaValid(u) && forall v :: v in users ==> v.email != u.email
    ensures r.Success? ==> r.value == users + [u]
    ensures r.Success? && UsersValid(users) ==> UsersValid(r.value)
  {
    if !SchemaValid(u) then Failure(ValidationFailed("User"))
    else if EmailIndex(users, u.email).Some? then Failure(DuplicateKey("email"))
    else Success(users + [u])
  }

  /** A user with a unique email is the one `findOne` returns. */
  lemma EmailIndexOfUnique(users: seq<User>, i: nat)
    requires UniqueEmails(users) && i < |users|
    ensures EmailIndex(users, users[i].email) == Some(i)
  {
    var p := (u: User) => u.email == users[i].email;
    assert p(users[i]);
  }

  /** A user with a unique id is the one `findById` returns. */
  lemma UserIndexOfUnique(users: seq<User>, i: nat)
    requires UniqueUserIds(users) && i < |users|
    ensures UserIndex(users, users[i].id) == Some(i)
  {
    var p := (u: User) => u.id == users[i].id;
    assert p(users[i]);
  }

  /** Rewriting one stored user in place keeps the collection valid as long as its id and
      email stay and its password is kept or replaced by a present one. */
  lemma UsersValidUpdate(users: seq<User>, i: nat, u: User)
    requires UsersValid(users) && i < |users|
    requires u.id == users[i].id && u.email == users[i].email
    requires u.password == users[i].password || u.password != ""
    ensures UsersValid(users[i := u])
  {
    assert users[i] in users;
    var after := users[i := u];
    forall v | v in after ensures SchemaValid(v) {
      var k :| 0 <= k < |after| && after[k] == v;
      if k != i { assert v == users[k]; }
    }
  }
}
