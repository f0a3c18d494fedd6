/** Administrator accounts: registration with its duplicate check, login by
    username or email, and the current-administrator endpoint.  Password
    hashing and comparison are functions passed in by the caller, and a
    signed token is represented by the claims it carries. */
module Auth {
  import opened Wrappers

  type AdminId = nat

  /** A stored administrator; the password is kept only as its hash. */
  datatype Admin = Admin(id: AdminId, username: string, email: string, passwordHash: string)

  /** What a response shows of an administrator: never the password. */
  datatype AdminView = AdminView(id: AdminId, username: string, email: string)

  /** `expiresIn: '7d'`, in seconds. */
  const TokenLifetime: nat := 7 * 24 * 60 * 60

  /** The claims of a signed token: `{ id }` and its lifetime. */
  datatype TokenClaims = TokenClaims(subject: AdminId, expiresIn: nat)

  /** A successful register or login answer. */
  datatype Session = Session(token: TokenClaims, admin: AdminView)

  /** Both failures are answered 400. */
  datatype AuthError = AlreadyExists | InvalidCredentials

  function Status(e: AuthError): nat {
    400
  }

  function Message(e: AuthError): string {
    match e
    case AlreadyExists => "Admin already exists"
    case InvalidCredentials => "Invalid credentials"
  }

  /** `GET /api/auth/me`: the administrator the guard attached, without the
      password. */
  function Me(a: Admin): AdminView {
    AdminView(a.id, a.username, a.email)
  }

  function IssueToken(a: Admin): TokenClaims {
    TokenClaims(a.id, TokenLifetime)
  }

  /** The administrator answers to `identifier` as username or as email. */
  predicate Identifies(a: Admin, identifier: string) {
    a.username == identifier || a.email == identifier
  }

  /** Position `k` holds the first administrator that answers to the
      identifier. */
  predicate FirstAnswering(admins: seq<Admin>, identifier: string, k: int) {
    && 0 <= k < |admins|
    && Identifies(admins[k], identifier)
    && forall j :: 0 <= j < k ==> !Identifies(admins[j], identifier)
  }

  /** `Admin.findOne({ $or: [{ username }, { email: username }] })`, taken
      to return the first administrator, in natural order, that answers to the
      identifier. */
  function FindByIdentifier(admins: seq<Admin>, identifier: string): (r: Option<Admin>)
    ensures r.None? <==> forall k :: 0 <= k < |admins| ==> !Identifies(admins[k], identifier)
    ensures r.Some? ==> exists k :: FirstAnswering(admins, identifier, k) && admins[k] == r.value
  {
    if admins == [] then None
    else if Identifies(admins[0], identifier) then Some(admins[0])
    else
      var r := FindByIdentifier(admins[1..], identifier);
      assert r.Some? ==> exists k :: FirstAnswering(admins, identifier, k) && admins[k] == r.value by {
        if r.Some? {
          var k :| FirstAnswering(admins[1..], identifier, k) && admins[1..][k] == r.value;
          assert admins[k + 1] == r.value;
          forall j | 0 <= j < k + 1 ensures !Identifies(admins[j], identifier) {
            if j > 0 {
              assert admins[j] == admins[1..][j - 1];
            }
          }
          assert FirstAnswering(admins, identifier, k + 1);
        }
      }
      r
  }

  /** `POST /api/auth/login`. The token is issued only when an
      administrator answers to the identifier and the password matches its
      hash; every failure is the same "Invalid credentials". */
  function Login(admins: seq<Admin>, username: string, password: string, matches: (string, string) -> bool): (r: Result<Session, AuthError>)
    ensures r.Err? ==> r.error == InvalidCredentials
    ensures r.Err? ==> Status(r.error) == 400 && Message(r.error) == "Invalid credentials"
    ensures r.Ok? <==>
      && FindByIdentifier(admins, username).Some?
      && matches(FindByIdentifier(admins, username).value.passwordHash, password)
    ensures r.Ok? ==>
      var a := FindByIdentifier(admins, username).value;
      && r.value.token.subject == a.id
      && r.value.token.expiresIn == TokenLifetime
      && r.value.admin == Me(a)
  {
    match FindByIdentifier(admins, username)
    case None => Err(InvalidCredentials)
    case Some(a) =>
      if !matches(a.passwordHash, password) then Err(InvalidCredentials)
      else Ok(Session(IssueToken(a), Me(a)))
  }

  /** An unknown identifier and a wrong password are answered alike. */
  lemma FailuresAlike(admins: seq<Admin>, unknown: string, known: string, password: string, wrong: string,
                      matches: (string, string) -> bool)
    requires forall a :: a in admins ==> !Identifies(a, unknown)
    requires FindByIdentifier(admins, known).Some?
    requires !matches(FindByIdentifier(admins, known).value.passwordHash, wrong)
    ensures Login(admins, unknown, password, matches) == Login(admins, known, wrong, matches) == Err(InvalidCredentials)
  {
    assert forall k :: 0 <= k < |admins| ==> !Identifies(admins[k], unknown) by {
      forall k | 0 <= k < |admins| ensures !Identifies(admins[k], unknown) {
        assert admins[k] in admins;
      }
    }
  }

  /** The administrator found by id, as a guard that trusts the token's
      subject would load it. */
  function FindAdminById(admins: seq<Admin>, id: AdminId): (r: Option<Admin>)
    ensures r.Some? ==> r.value in admins && r.value.id == id
    ensures r.None? <==> forall k :: 0 <= k < |admins| ==> admins[k].id != id
  {
    if admins == [] then None
    else if admins[0].id == id then Some(admins[0])
    else FindAdminById(admins[1..], id)
  }

  predicate UniqueAdminIds(admins: seq<Admin>) {
    forall i, j :: 0 <= i < j < |admins| ==> admins[i].id != admins[j].id
  }

  lemma {:induction false} FindAdminByIdStored(admins: seq<Admin>, k: nat)
    requires UniqueAdminIds(admins) && k < |admins|
    ensures FindAdminById(admins, admins[k].id) == Some(admins[k])
  {
    if k > 0 {
      assert admins[0].id != admins[k].id;
      FindAdminByIdStored(admins[1..], k - 1);
    }
  }

  /** The session a login returns resolves, through its token, to the same
      administrator `/me` then shows. */
  lemma SessionResolves(admins: seq<Admin>, username: string, password: string, matches: (string, string) -> bool)
    requires UniqueAdminIds(admins)
    requires Login(admins, username, password, matches).Ok?
    ensures var s := Login(admins, username, password, matches).value;
      FindAdminById(admins, s.token.subject).Some?
      && Me(FindAdminById(admins, s.token.subject).value) == s.admin
  {
    var a := FindByIdentifier(admins, username).value;
    var k :| FirstAnswering(admins, username, k) && admins[k] == a;
    FindAdminByIdStored(admins, k);
  }

  /** The corrected duplicate check: the new username and the new email are
      each compared with both the username and the email of every stored
      administrator. */
  predicate Conflicts(admins: seq<Admin>, username: string, email: string) {
    exists a :: a in admins && (Identifies(a, username) || Identifies(a, email))
  }

  /** The duplicate check as written, `$or: [{ email }, { username }]`:
      each field is compared only with the same field. */
  predicate DuplicateAsWritten(admins: seq<Admin>, username: string, email: string) {
    exists a :: a in admins && (a.email == email || a.username == username)
  }

  /** Registration as written: the administrator list after the request,
      or the error. */
  function RegisterAsWritten(admins: seq<Admin>, id: AdminId, username: string, email: string, password: string,
                             hash: string -> string): (r: Result<seq<Admin>, AuthError>)
    ensures r.Err? <==> DuplicateAsWritten(admins, username, email)
    ensures r.Err? ==> Status(r.error) == 400 && Message(r.error) == "Admin already exists"
    ensures r.Ok? ==> r.value == admins + [Admin(id, username, email, hash(password))]
  {
    if DuplicateAsWritten(admins, username, email) then Err(AlreadyExists)
    else Ok(admins + [Admin(id, username, email, hash(password))])
  }

  /** A new administrator whose username is an existing administrator's
      email passes the written check, and then cannot log in with that
      username: the lookup, taken to scan in natural order, finds the older
      administrator first. The corrected check refuses the registration. */
  lemma UsernameShadowedByEmail()
    ensures var alice := Admin(0, "alice", "alice@example.org", "alice-secret");
      var hash := (s: string) => s;
      var matches := (h: string, c: string) => h == c;
      var after := RegisterAsWritten([alice], 1, "alice@example.org", "bob@example.org", "bob-secret", hash);
      && after.Ok?
      && Login(after.value, "alice@example.org", "bob-secret", matches) == Err(InvalidCredentials)
      && Conflicts([alice], "alice@example.org", "bob@example.org")
  {
    var alice := Admin(0, "alice", "alice@example.org", "alice-secret");
    var bob := Admin(1, "alice@example.org", "bob@example.org", "bob-secret");
    assert !DuplicateAsWritten([alice], "alice@example.org", "bob@example.org") by {
      forall a | a in [alice] ensures a.email != "bob@example.org" && a.username != "alice@example.org" {
        assert a == alice;
      }
    }
    assert FindByIdentifier([alice, bob], "alice@example.org") == Some(alice);
    assert alice in [alice];
  }

  /** Appending an administrator that answers to an identifier nobody else
      answers to makes the lookup find it. */
  lemma {:induction false} FindAppended(admins: seq<Admin>, a: Admin, identifier: string)
    requires forall k :: 0 <= k < |admins| ==> !Identifies(admins[k], identifier)
    requires Identifies(a, identifier)
    ensures FindByIdentifier(admins + [a], identifier) == Some(a)
    decreases |admins|
  {
    if admins != [] {
      assert (admins + [a])[1..] == admins[1..] + [a];
      FindAppended(admins[1..], a, identifier);
    } else {
      assert admins + [a] == [a];
    }
  }

  /** With the corrected check, an administrator that registers can log in
      with its username and with its email, and gets a token for itself. */
  lemma RegisterThenLogin(admins: seq<Admin>, id: AdminId, username: string, email: string, password: string,
                          hash: string -> string, matches: (string, string) -> bool)
    requires !Conflicts(admins, username, email)
    requires matches(hash(password), password)
    ensures var a := Admin(id, username, email, hash(password));
      && Login(admins + [a], username, password, matches) == Ok(Session(IssueToken(a), Me(a)))
      && Login(admins + [a], email, password, matches) == Ok(Session(IssueToken(a), Me(a)))
  {
    var a := Admin(id, username, email, hash(password));
    forall k | 0 <= k < |admins| ensures !Identifies(admins[k], username) && !Identifies(admins[k], email) {
      assert admins[k] in admins;
    }
    FindAppended(admins, a, username);
    FindAppended(admins, a, email);
  }

  /** No administrator answers to another's username or email. */
  predicate DistinctIdentifiers(admins: seq<Admin>) {
    forall a, b :: a in admins && b in admins && a.id != b.id ==>
      !Identifies(b, a.username) && !Identifies(b, a.email)
  }

  /** The administrator collection of `POST /api/auth/register`. */
  class CredentialStore {
    var admins: seq<Admin>
    var nextId: AdminId

    /** Ids are unique and below `nextId`, and every username and email
        identifies a single administrator. */
    ghost predicate Valid()
      reads this
    {
      && UniqueAdminIds(admins)
      && (forall a :: a in admins ==> a.id < nextId)
      && DistinctIdentifiers(admins)
    }

    constructor ()
      ensures Valid() && admins == [] && nextId == 0
    {
      admins := [];
      nextId := 0;
    }

    /** `POST /api/auth/register`: 400 "Admin already exists" when the
        username or the email is taken, as either field; otherwise exactly
        one administrator is added and a token for it is issued. */
    method Register(username: string, email: string, password: string, hash: string -> string)
      returns (r: Result<Session, AuthError>)
      requires Valid()
      modifies this
      ensures Valid()
      ensures Conflicts(old(admins), username, email) ==>
        r == Err(AlreadyExists) && admins == old(admins) && nextId == old(nextId)
      ensures !Conflicts(old(admins), username, email) ==>
        var a := Admin(old(nextId), username, email, hash(password));
        && admins == old(admins) + [a]
        && nextId == old(nextId) + 1
        && r == Ok(Session(IssueToken(a), Me(a)))
    {
      if Conflicts(admins, username, email) {
        r := Err(AlreadyExists);
      } else {
        var a := Admin(nextId, username, email, hash(password));
        RegisterKeepsValid(admins, nextId, a);
        admins := admins + [a];
        nextId := nextId + 1;
        r := Ok(Session(IssueToken(a), Me(a)));
      }
    }
  }

  /** Appending an administrator under the next id, whose identifiers
      conflict with nobody, keeps the store's invariant. */
  lemma RegisterKeepsValid(admins: seq<Admin>, nextId: AdminId, a: Admin)
    requires UniqueAdminIds(admins) && (forall x :: x in admins ==> x.id < nextId) && DistinctIdentifiers(admins)
    requires a.id == nextId && !Conflicts(admins, a.username, a.email)
    ensures UniqueAdminIds(admins + [a])
    ensures forall x :: x in admins + [a] ==> x.id < nextId + 1
    ensures DistinctIdentifiers(admins + [a])
  {
    var r := admins + [a];
    forall i, j | 0 <= i < j < |r| ensures r[i].id != r[j].id {
      assert r[i] == admins[i] && admins[i] in admins;
      if j < |admins| {
        assert r[j] == admins[j];
      }
    }
  }
}
