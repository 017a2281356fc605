/** The auth controller: register, login and refresh over the member table.
    bcrypt's hash and compare are parameters (hash: plaintext and cost to
    digest; compare: plaintext and digest to verdict); nothing is assumed
    about them except where a lemma states it as a requirement. */
module AuthController {
  import opened Ascii
  import opened Members

  /** bcrypt cost factor passed at registration. */
  const SaltRounds: nat := 10

  /** Body of an error reply: a message and a code. */
  datatype ErrorResponse = ErrorResponse(message: string, code: int)

  /** What a handler ends with. */
  datatype Reply =
    | Token(claims: Claims)                      // res.json(token)
    | Rejected(status: int, body: ErrorResponse) // res.status(status).json(body)
    | TypeErrorOnNull                            // tokenGenerator(null) throws

  /** The single failure value of login, whichever check failed. */
  const BadCredential: Reply := Rejected(422, ErrorResponse("Bad credential", 422))

  /** The where clause of the login query: the pseudo equals the identifier
      exactly, or the stored email equals the lowercased identifier. */
  predicate MatchesIdentifier(m: Member, identifier: string) {
    m.pseudo == identifier || m.email == ToLower(identifier)
  }

  /** The login lookup: a matching row if there is one, none exactly when no row matches. */
  function LookupByIdentifier(rows: seq<Member>, identifier: string): (r: Option<Member>)
    ensures r.Some? ==> r.value in rows && MatchesIdentifier(r.value, identifier)
    ensures r.None? <==> forall i :: 0 <= i < |rows| ==> !MatchesIdentifier(rows[i], identifier)
  {
    FindOne(rows, (m: Member) => MatchesIdentifier(m, identifier))
  }

  /** login: look the member up, check the password, issue a token. Both
      failures give the same reply. A function of the table: it only reads it. */
  function Login(rows: seq<Member>, identifier: string, password: string,
                 compare: (string, string) -> bool): (r: Reply)
    ensures r.Token? || r == BadCredential
    ensures r.Token? ==>
      exists m :: m in rows && MatchesIdentifier(m, identifier) && compare(password, m.password)
                  && r.claims == TokenGenerator(m)
    ensures (forall i :: 0 <= i < |rows| ==> !MatchesIdentifier(rows[i], identifier)) ==> r == BadCredential
  {
    match LookupByIdentifier(rows, identifier)
    case None => BadCredential
    case Some(m) =>
      if !compare(password, m.password) then BadCredential
      else Token(TokenGenerator(m))
  }

  /** Uniform failure: when no matching member accepts the password (because
      none matches, or because the matches reject it) the reply is BadCredential. */
  lemma LoginRejectsUniformly(rows: seq<Member>, identifier: string, password: string,
                              compare: (string, string) -> bool)
    requires forall i :: 0 <= i < |rows| && MatchesIdentifier(rows[i], identifier) ==>
               !compare(password, rows[i].password)
    ensures Login(rows, identifier, password, compare) == BadCredential
  {
    var found := LookupByIdentifier(rows, identifier);
    if found.Some? {
      var k :| 0 <= k < |rows| && rows[k] == found.value;
      assert !compare(password, rows[k].password);
    }
  }

  /** An unknown identifier and a known identifier with a wrong password give
      identical reply values. (They differ in whether compare runs: see
      UnknownIdentifierSkipsCompare.) */
  lemma UnknownAndWrongPasswordIndistinguishable(
    rows: seq<Member>, unknown: string, anyPassword: string,
    known: string, wrongPassword: string, k: nat, compare: (string, string) -> bool)
    requires forall i :: 0 <= i < |rows| ==> !MatchesIdentifier(rows[i], unknown)
    requires k < |rows| && MatchesIdentifier(rows[k], known)
    requires forall i :: 0 <= i < |rows| && MatchesIdentifier(rows[i], known) ==> rows[i] == rows[k]
    requires !compare(wrongPassword, rows[k].password)
    ensures Login(rows, unknown, anyPassword, compare) == Login(rows, known, wrongPassword, compare)
    ensures Login(rows, unknown, anyPassword, compare) == BadCredential
  {
    LoginRejectsUniformly(rows, known, wrongPassword, compare);
  }

  /** Whether login reaches bcrypt's compare: it runs only after the lookup
      found a member, and the unknown-identifier branch returns before it. */
  function CompareCalled(rows: seq<Member>, identifier: string): (called: bool)
    ensures called <==> exists i :: 0 <= i < |rows| && MatchesIdentifier(rows[i], identifier)
  {
    LookupByIdentifier(rows, identifier).Some?
  }

  /** The two failures of UnknownAndWrongPasswordIndistinguishable are told
      apart by the work done: the unknown identifier is rejected without the
      bcrypt comparison, the wrong password only after it. */
  lemma UnknownIdentifierSkipsCompare(rows: seq<Member>, unknown: string, known: string, k: nat)
    requires forall i :: 0 <= i < |rows| ==> !MatchesIdentifier(rows[i], unknown)
    requires k < |rows| && MatchesIdentifier(rows[k], known)
    ensures !CompareCalled(rows, unknown)
    ensures CompareCalled(rows, known)
  {
  }

  /** Login issues a token only on a run that called compare. */
  lemma TokenOnlyAfterCompare(rows: seq<Member>, identifier: string, password: string,
                              compare: (string, string) -> bool)
    ensures Login(rows, identifier, password, compare).Token? ==> CompareCalled(rows, identifier)
  {
  }

  /** With exactly one matching member, login succeeds if and only if bcrypt
      accepts the password against that member's stored hash, and then the
      token carries exactly that member's id, pseudo and isAdmin. */
  lemma LoginWithSingleMatch(rows: seq<Member>, identifier: string, password: string,
                             k: nat, compare: (string, string) -> bool)
    requires k < |rows| && MatchesIdentifier(rows[k], identifier)
    requires forall i :: 0 <= i < |rows| && MatchesIdentifier(rows[i], identifier) ==> rows[i] == rows[k]
    ensures Login(rows, identifier, password, compare) ==
              if compare(password, rows[k].password)
              then Token(Claims(rows[k].id, rows[k].pseudo, rows[k].isAdmin))
              else BadCredential
  {
    FindOneUnique(rows, (m: Member) => MatchesIdentifier(m, identifier), k);
  }

  /** When some member matches and every matching member accepts the password,
      login issues a token for one of them. */
  lemma LoginAcceptsWhenEveryMatchAccepts(rows: seq<Member>, identifier: string, password: string,
                                          compare: (string, string) -> bool)
    requires exists i :: 0 <= i < |rows| && MatchesIdentifier(rows[i], identifier)
    requires forall i :: 0 <= i < |rows| && MatchesIdentifier(rows[i], identifier) ==>
               compare(password, rows[i].password)
    ensures Login(rows, identifier, password, compare).Token?
  {
    var found := LookupByIdentifier(rows, identifier);
    var k :| 0 <= k < |rows| && rows[k] == found.value;
    assert compare(password, rows[k].password);
  }

  /** A member whose stored email holds an upper-case letter can only be
      matched by its pseudo: the email branch compares against a lowercased
      identifier. */
  lemma MixedCaseEmailMatchesOnlyByPseudo(m: Member, identifier: string, i: nat)
    requires i < |m.email| && IsUpper(m.email[i])
    ensures MatchesIdentifier(m, identifier) <==> m.pseudo == identifier
  {
    UpperNeverLowered(m.email, i, identifier);
  }

  /** The email branch ignores the case of the identifier. */
  lemma EmailBranchIgnoresIdentifierCase(m: Member, identifier: string, other: string)
    requires |identifier| == |other|
    requires forall i :: 0 <= i < |identifier| ==> LowerChar(identifier[i]) == LowerChar(other[i])
    ensures m.email == ToLower(identifier) <==> m.email == ToLower(other)
  {
    ToLowerIgnoresCase(identifier, other);
  }

  /** When the email branch fails, a member matches exactly when its pseudo
      equals the identifier verbatim, with no case folding. */
  lemma MatchesByPseudoWhenEmailDiffers(m: Member, identifier: string)
    requires m.email != ToLower(identifier)
    ensures MatchesIdentifier(m, identifier) <==> m.pseudo == identifier
  {
  }

  /** The pseudo branch is case-sensitive: pseudo alice does not match the
      identifier Alice. */
  lemma PseudoBranchIsCaseSensitive()
    ensures !MatchesIdentifier(Member(1, "alice", "alice@example.com", "h", false), "Alice")
  {
    assert ToLower("Alice") == "alice";
    MatchesByPseudoWhenEmailDiffers(Member(1, "alice", "alice@example.com", "h", false), "Alice");
  }

  /** refresh: the member currently stored under the id of the authenticated
      user, projected to a token. The source has no branch for a missing row:
      tokenGenerator then dereferences null and throws. */
  function Refresh(rows: seq<Member>, user: Claims): (r: Reply)
    ensures r.Token? || r == TypeErrorOnNull
    ensures r.Token? ==>
      r.claims.id == user.id && exists m :: m in rows && m.id == user.id && r.claims == TokenGenerator(m)
    ensures r == TypeErrorOnNull <==> forall i :: 0 <= i < |rows| ==> rows[i].id != user.id
  {
    match FindByPk(rows, user.id)
    case None => TypeErrorOnNull
    case Some(m) => Token(TokenGenerator(m))
  }

  /** Refresh uses only the id of the incoming claims; their pseudo and
      isAdmin, which may be stale, play no part. */
  lemma RefreshIgnoresIncomingClaims(rows: seq<Member>, user: Claims, pseudo: string, isAdmin: bool)
    ensures Refresh(rows, user.(pseudo := pseudo, isAdmin := isAdmin)) == Refresh(rows, user)
  {
  }

  /** A change of a member's isAdmin made after its token was issued shows up
      in the refreshed token. */
  lemma RefreshSeesUpdatedIsAdmin(rows: seq<Member>, user: Claims, k: nat, isAdmin: bool)
    requires DistinctIds(rows)
    requires k < |rows| && rows[k].id == user.id
    ensures Refresh(rows[k := rows[k].(isAdmin := isAdmin)], user) ==
              Token(Claims(user.id, rows[k].pseudo, isAdmin))
  {
    var updated := rows[k := rows[k].(isAdmin := isAdmin)];
    assert forall i :: 0 <= i < |updated| ==> updated[i].id == rows[i].id;
    assert DistinctIds(updated);
  }

  /** register: hash the password with cost SaltRounds, insert the member with
      the hash in place of the plaintext, and issue a token from the new row. */
  method Register(db: MemberTable, pseudo: string, email: string, password: string,
                  hash: (string, nat) -> string) returns (r: Reply)
    requires db.Valid()
    modifies db
    ensures db.Valid()
    ensures db.nextId == old(db.nextId) + 1
    ensures |db.rows| == |old(db.rows)| + 1 && db.rows[..|old(db.rows)|] == old(db.rows)
    ensures db.rows[|db.rows| - 1] ==
              Member(old(db.nextId), pseudo, email, hash(password, SaltRounds), DefaultIsAdmin)
    ensures r == Token(TokenGenerator(db.rows[|db.rows| - 1]))
  {
    var digest := hash(password, SaltRounds);
    var m := db.Create(pseudo, email, digest);
    r := Token(TokenGenerator(m));
  }

  /** A member just appended by register can log in with its pseudo, provided
      bcrypt accepts the plaintext against its own hash and no older row
      matches that pseudo as an identifier. */
  lemma LoginAfterRegisterByPseudo(rows: seq<Member>, id: nat, pseudo: string, email: string,
                                   password: string, hash: (string, nat) -> string,
                                   compare: (string, string) -> bool)
    requires compare(password, hash(password, SaltRounds))
    requires forall i :: 0 <= i < |rows| ==> !MatchesIdentifier(rows[i], pseudo)
    ensures Login(rows + [Member(id, pseudo, email, hash(password, SaltRounds), DefaultIsAdmin)],
                  pseudo, password, compare) == Token(Claims(id, pseudo, DefaultIsAdmin))
  {
    var m := Member(id, pseudo, email, hash(password, SaltRounds), DefaultIsAdmin);
    var after := rows + [m];
    assert forall i :: 0 <= i < |rows| ==> after[i] == rows[i];
    LoginWithSingleMatch(after, pseudo, password, |rows|, compare);
  }

  /** The member registered as alice with email Alice@Example.com, with
      SaltRounds as bcrypt's cost. */
  function Alice(hash: (string, nat) -> string): Member {
    Member(1, "alice", "Alice@Example.com", hash("secret123", SaltRounds), DefaultIsAdmin)
  }

  /** alice logs in by pseudo with the right password. */
  lemma AliceLogsInByPseudo(hash: (string, nat) -> string, compare: (string, string) -> bool)
    requires compare("secret123", hash("secret123", SaltRounds))
    ensures Login([Alice(hash)], "alice", "secret123", compare) == Token(Claims(1, "alice", false))
  {
    LoginWithSingleMatch([Alice(hash)], "alice", "secret123", 0, compare);
  }

  /** alice with a wrong password gets BadCredential. */
  lemma AliceWrongPassword(hash: (string, nat) -> string, compare: (string, string) -> bool)
    requires !compare("wrong", hash("secret123", SaltRounds))
    ensures Login([Alice(hash)], "alice", "wrong", compare) == BadCredential
  {
    LoginWithSingleMatch([Alice(hash)], "alice", "wrong", 0, compare);
  }

  /** A lone member whose stored email holds a capital cannot log in with
      any identifier other than its pseudo. */
  lemma MixedCaseEmailLoginFails(m: Member, identifier: string, password: string,
                                 i: nat, compare: (string, string) -> bool)
    requires i < |m.email| && IsUpper(m.email[i])
    requires m.pseudo != identifier
    ensures Login([m], identifier, password, compare) == BadCredential
  {
    MixedCaseEmailMatchesOnlyByPseudo(m, identifier, i);
    LoginRejectsUniformly([m], identifier, password, compare);
  }

  /** alice's email, typed in any case, does not log her in: the stored email
      keeps its capitals and the identifier is lowercased. */
  lemma AliceEmailLoginFails(hash: (string, nat) -> string, compare: (string, string) -> bool)
    ensures Login([Alice(hash)], "ALICE@example.com", "secret123", compare) == BadCredential
  {
    var alice := Alice(hash);
    assert alice.pseudo != "ALICE@example.com" by {
      assert alice.pseudo[0] != "ALICE@example.com"[0];
    }
    MixedCaseEmailLoginFails(alice, "ALICE@example.com", "secret123", 0, compare);
  }
}
