/** The foreign primitives the services call but whose code is not part of this model:
    the bcrypt helpers `hashPassword` / `comparePassword` and `jwt.sign` / `jwt.verify`.
    Each is a function-valued parameter; what the services rely on is stated as a
    soundness predicate that callers supply as a precondition. */
module Crypto {
  import opened Base

  /** `hashPassword` and `comparePassword`. bcrypt salts each hash; the model fixes one
      outcome per password. */
  datatype Hasher = Hasher(hash: string -> string, compare: (string, string) -> bool)

  /** A password always checks out against its own hash. */
  ghost predicate HashSound(h: Hasher) {
    forall p :: h.compare(p, h.hash(p))
  }

  /** The payload `loginUser` signs: `{ userId }`. */
  datatype Claims = Claims(userId: Id)

  /** `jwt.sign(payload, SECRET, { expiresIn: "2h" })` and `jwt.verify(token, SECRET)`; a
      failed verification (bad signature, expiry, malformed token) is `None`. The secret and
      the clock are folded into the two functions. */
  datatype Jwt = Jwt(sign: Id -> string, verify: string -> Option<Claims>)

  /** A token that was just signed verifies to the payload it was signed with. */
  ghost predicate JwtSound(j: Jwt) {
    forall id :: j.verify(j.sign(id)) == Some(Claims(id))
  }
}
