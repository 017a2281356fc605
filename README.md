# Auth controller model

A Dafny model of the authentication controller of an Express/Sequelize forum
back end. The controller has three handlers:

- `register` hashes the password with bcrypt (cost 10), inserts a member row and
  answers with a token.
- `login` finds a member whose pseudo equals the identifier, or whose email equals
  the lowercased identifier. It checks the password with bcrypt and answers with a
  token. Both failures give the same reply, `422 {message: 'Bad credential', code: 422}`.
- `refresh` reloads the member under the id of the authenticated user and answers
  with a fresh token.

A token is generated from the claims `{id, pseudo, isAdmin}` of a member.

The model has three modules:

- `Ascii` (`ascii.dfy`): `toLowerCase` restricted to ASCII, with its properties.
- `Members` (`members.dfy`): the member row, the claim record and `tokenGenerator`.
  It also has `findOne`/`findByPk` as a lookup over the table's rows, and the
  `db.Member` table as a class (`MemberTable`). The class holds the rows and the
  auto-increment counter. Its `Create` method inserts one row.
- `AuthController` (`auth_controller.dfy`): `Login` and `Refresh` are functions of
  the table's rows. Because they are functions, they can read the table but cannot
  change it. `Register` is a method that modifies the table. The module also holds
  the lemmas on uniform failure, case behaviour and claim contents.

Foreign code is replaced as follows:

- bcrypt's `hash` and `compare` are function-valued parameters. Nothing is
  assumed about them. A lemma that needs `compare(p, hash(p, 10))` states it as a
  requirement.
- `generateJWT` is replaced by the claim record itself.

Two behaviours of the code are easy to miss:

- Email matching: the code lowercases only the identifier (line 46), not the
  stored email. This model takes the database's string equality to be exact,
  as under a binary, case-sensitive collation. Under that assumption, a stored
  email with a capital letter never matches through the email branch (see
  `MixedCaseEmailMatchesOnlyByPseudo` and `AliceEmailLoginFails`). A
  case-insensitive collation would let it match.
- Refresh of a missing id: the code has no not-found branch. `findByPk` yields
  null, and `tokenGenerator(null)` throws. The model gives this outcome as
  `Reply.TypeErrorOnNull`, not as a designed "account not found" reply.

## Model

| member | source | states |
|---|---|---|
| `Members.TokenGenerator` | controllers/auth-controller.js:7-13 | the claims are exactly the member's id, pseudo and isAdmin |
| `Members.TokenOmitsEmailAndPassword` | controllers/auth-controller.js:7-13 | changing a member's email or stored password hash does not change its token |
| `Members.FindOne` | controllers/auth-controller.js:39-50 | a returned row is in the table and satisfies the condition; none is returned exactly when no row satisfies it |
| `Members.FindOneUnique` | controllers/auth-controller.js:39-50 | when exactly one row satisfies the condition, that row is returned |
| `Members.FindByPk` | controllers/auth-controller.js:77 | a returned row carries the requested id; none exactly when no row has it; with unique ids it is the row stored under that id |
| `Members.MemberTable.Create` | controllers/auth-controller.js:25 | appends exactly one row holding the given pseudo, email and password, with a fresh id and isAdmin false; earlier rows unchanged; ids stay unique |
| `Ascii.LowerChar` | controllers/auth-controller.js:46 | result is never a capital; capitals map to their lower-case letter, every other character is kept |
| `Ascii.ToLower` | controllers/auth-controller.js:46 | same length, no capital in the result, each character lowered, a string without capitals is returned as is |
| `Ascii.ToLowerIdempotent` | controllers/auth-controller.js:46 | lowercasing twice equals lowercasing once |
| `Ascii.ToLowerIgnoresCase` | controllers/auth-controller.js:46 | strings equal up to letter case lowercase to the same string |
| `Ascii.UpperNeverLowered` | controllers/auth-controller.js:46 | a string containing a capital is not the lowercase form of any string |
| `AuthController.LookupByIdentifier` | controllers/auth-controller.js:39-50 | lookup soundness (a returned member matches by pseudo or by lowercased email) and completeness (none exactly when no member matches) |
| `AuthController.Login` | controllers/auth-controller.js:34-70 | the reply is a token or BadCredential (422, 'Bad credential', 422); a token comes from a matching member whose hash the password passes, and carries that member's claims; with no matching member the reply is BadCredential |
| `AuthController.LoginRejectsUniformly` | controllers/auth-controller.js:52-63 | when no matching member accepts the password (none matches, or the matches reject it) the reply is BadCredential |
| `AuthController.UnknownAndWrongPasswordIndistinguishable` | controllers/auth-controller.js:53-63 | an unknown identifier and a known identifier with a wrong password give identical reply values |
| `AuthController.CompareCalled` | controllers/auth-controller.js:53-58 | bcrypt's compare runs exactly when some member matches the identifier |
| `AuthController.UnknownIdentifierSkipsCompare` | controllers/auth-controller.js:53-63 | an unknown identifier is rejected without calling compare, while a known identifier with a wrong password is rejected only after compare |
| `AuthController.TokenOnlyAfterCompare` | controllers/auth-controller.js:53-66 | a token is issued only on a run that called compare |
| `AuthController.LoginWithSingleMatch` | controllers/auth-controller.js:39-66 | with one matching member, login gives that member's claims if compare accepts the password, BadCredential otherwise |
| `AuthController.LoginAcceptsWhenEveryMatchAccepts` | controllers/auth-controller.js:39-66 | some member matches and every match accepts the password, so login issues a token |
| `AuthController.MixedCaseEmailMatchesOnlyByPseudo` | controllers/auth-controller.js:41-47 | a member whose stored email contains a capital matches an identifier if and only if its pseudo equals it |
| `AuthController.EmailBranchIgnoresIdentifierCase` | controllers/auth-controller.js:46 | identifiers that differ only in letter case match the same stored emails |
| `AuthController.MatchesByPseudoWhenEmailDiffers` | controllers/auth-controller.js:41-48 | when the stored email is not the lowered identifier, a member matches exactly when its pseudo equals the identifier verbatim |
| `AuthController.PseudoBranchIsCaseSensitive` | controllers/auth-controller.js:43 | example: pseudo alice does not match identifier Alice |
| `AuthController.MixedCaseEmailLoginFails` | controllers/auth-controller.js:39-63 | a lone member with a capital in its stored email gets BadCredential for every identifier other than its pseudo |
| `AuthController.Refresh` | controllers/auth-controller.js:72-84 | the token carries the claims of the row stored under the user's id; the null dereference happens exactly when no row has that id |
| `AuthController.RefreshIgnoresIncomingClaims` | controllers/auth-controller.js:74-77 | the incoming pseudo and isAdmin claims play no part: only the id is used |
| `AuthController.RefreshSeesUpdatedIsAdmin` | controllers/auth-controller.js:77-80 | after a row's isAdmin is changed in the table, refresh issues the new value |
| `AuthController.Register` | controllers/auth-controller.js:17-32 | appends exactly one row, whose password is hash(plaintext, 10), with a fresh id and isAdmin false; earlier rows unchanged; the id counter advances by one; the reply is the token of the new row |
| `AuthController.LoginAfterRegisterByPseudo` | controllers/auth-controller.js:17-69 | if compare accepts a plaintext against its own hash, a just-registered member logs in by pseudo and gets its own claims |
| `AuthController.AliceLogsInByPseudo` | controllers/auth-controller.js:39-66 | alice / secret123 yields the claims {1, alice, false} |
| `AuthController.AliceWrongPassword` | controllers/auth-controller.js:53-63 | alice / wrong yields BadCredential |
| `AuthController.AliceEmailLoginFails` | controllers/auth-controller.js:41-55 | alice stored with email Alice@Example.com cannot log in with ALICE@example.com |

## Left out

- routes/index.js: it only mounts routers and has no logic.
- bcrypt internals: salting, the cost factor's effect, and constant-time comparison. `hash` and `compare` are uninterpreted parameters.
- `Register`: cannot promise that the stored password differs from the plaintext. That depends on bcrypt, which is not modelled.
- generateJWT, signing, `iat`/`exp`, token verification and expiry. utils/jwt-utils and the authentication middleware are not part of this model. A token is its claim record.
- The Member model definition is not part of this model. The isAdmin default (false) and ids starting at 1 and auto-incrementing are assumptions of the model.
- Sequelize query execution and SQL row order. When several rows match, `FindOne` takes the first in table order. The lemmas about login are stated so that they do not depend on that choice.
- Uniqueness constraints on pseudo and email. A duplicate makes `db.Member.create` throw, which the handler does not catch. That outcome is not modelled: `Register` always appends.
- Request validation (`req.validatedData`), `req`/`res` handling, the HTTP status of successful replies, and async scheduling.
- Full Unicode `toLowerCase`. Only ASCII letters are lowered.
- The collation of the email and pseudo columns. The models directory is not part of this model. Both equality tests of the lookup (lines 43 and 46) run in the database and are modelled as exact string equality, as under a binary, case-sensitive collation. Under a case-insensitive collation (MySQL's default, for one), both branches ignore case. A PAD SPACE collation also ignores trailing blanks. `MixedCaseEmailMatchesOnlyByPseudo`, `PseudoBranchIsCaseSensitive`, `MixedCaseEmailLoginFails` and `AliceEmailLoginFails` would then not describe the program.
- Response time. The unknown-identifier branch (lines 53-55) returns before bcrypt's compare (line 58), so it answers faster than a wrong password does. The model records only whether compare is called (`CompareCalled`), not how long anything takes. Identical replies therefore do not mean the two failures cannot be told apart.
- Edits to a member outside this controller, such as promotion to admin. They appear only as a changed table in `RefreshSeesUpdatedIsAdmin`.
