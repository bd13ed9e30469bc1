/** Registration and login (routes/auth.js) over an abstract user store.

    The store maps an e-mail address, exactly as given, to the user document.
    Password hashing and comparison are foreign cryptography and enter as the
    function parameters `hash` and `matches`; the document id the database
    would assign enters as `freshId`. */
module Auth {

  import opened Optional
  import opened Records
  import Text

  type UserStore = map<string, User>

  /** Every user is filed under its own e-mail address. */
  predicate WellKeyed(store: UserStore)
  {
    forall e :: e in store ==> store[e].email == e
  }

  datatype SignupRequest = SignupRequest(
    name: Option<string>,
    age: Option<nat>,
    email: Option<string>,
    phone: Option<string>,
    tnElectricityId: Option<string>,
    password: Option<string>
  )

  /** The part of a new user that registration sends back. */
  datatype PublicUser = PublicUser(id: string, name: string, email: string)

  datatype SignupResult = Registered(user: PublicUser) | SignupRejected(message: string)

  const MissingFieldsMessage := "Name, email, and password are required"
  const ShortPasswordMessage := "Password must be at least 6 characters long"
  const DuplicateEmailMessage := "User already exists with this email"
  const MinPasswordLength := 6

  predicate HasRequiredFields(req: SignupRequest)
  {
    Provided(req.name) && Provided(req.email) && Provided(req.password)
  }

  /** The request passes the two field checks that precede the store lookup. */
  predicate WellFormed(req: SignupRequest)
  {
    HasRequiredFields(req) && Text.Utf16Length(req.password.value) >= MinPasswordLength
  }

  /** Registration: the required-field check, then the password length check
      (JavaScript length, in UTF-16 code units), then the duplicate e-mail
      check; only then is the user stored, with all energy metrics at zero. */
  function Signup(store: UserStore, req: SignupRequest, freshId: string, hash: string -> string): (out: (SignupResult, UserStore))
    ensures out.0 == SignupRejected(MissingFieldsMessage) <==> !HasRequiredFields(req)
    ensures out.0 == SignupRejected(ShortPasswordMessage)
            <==> HasRequiredFields(req) && Text.Utf16Length(req.password.value) < MinPasswordLength
    ensures out.0 == SignupRejected(DuplicateEmailMessage) <==> WellFormed(req) && req.email.value in store
    ensures out.0.Registered? <==> WellFormed(req) && req.email.value !in store
    ensures out.0.SignupRejected? <==> out.1 == store
    ensures out.0.Registered? ==>
              && out.0.user == PublicUser(freshId, req.name.value, req.email.value)
              && out.1.Keys == store.Keys + {req.email.value}
              && (forall e :: e in store ==> out.1[e] == store[e])
              && var u := out.1[req.email.value];
                 && u.id == freshId && u.name == req.name.value && u.email == req.email.value
                 && u.age == req.age && u.phone == req.phone && u.tnElectricityId == req.tnElectricityId
                 && u.passwordHash == hash(req.password.value)
                 && u.energyPoints == Some(0) && u.energySaved == Some(0)
                 && u.coalSaved == Some(0) && u.co2Reduced == Some(0)
  {
    if !HasRequiredFields(req) then (SignupRejected(MissingFieldsMessage), store)
    else if Text.Utf16Length(req.password.value) < MinPasswordLength then (SignupRejected(ShortPasswordMessage), store)
    else if req.email.value in store then (SignupRejected(DuplicateEmailMessage), store)
    else
      var user := User(freshId, req.name.value, req.age, req.email.value, req.phone, req.tnElectricityId,
                       hash(req.password.value), Some(0), Some(0), Some(0), Some(0));
      (Registered(PublicUser(freshId, req.name.value, req.email.value)), store[req.email.value := user])
  }

  /** Registration keeps every user filed under its own address and grows the
      store by exactly one user. */
  lemma SignupPreservesStore(store: UserStore, req: SignupRequest, freshId: string, hash: string -> string)
    requires WellKeyed(store)
    ensures WellKeyed(Signup(store, req, freshId, hash).1)
    ensures Signup(store, req, freshId, hash).0.Registered? ==> |Signup(store, req, freshId, hash).1| == |store| + 1
  {
    var out := Signup(store, req, freshId, hash);
    if out.0.Registered? {
      assert out.1.Keys == store.Keys + {req.email.value};
      assert |out.1.Keys| == |store.Keys| + 1;
    }
  }

  /** Once an address is registered, registering it again is refused. */
  lemma SignupTwiceIsRefused(store: UserStore, req: SignupRequest, id1: string, id2: string, hash: string -> string)
    requires Signup(store, req, id1, hash).0.Registered?
    ensures Signup(Signup(store, req, id1, hash).1, req, id2, hash).0 == SignupRejected(DuplicateEmailMessage)
  {
  }

  /** What a successful login sends back: the profile, never the password hash. */
  datatype Profile = Profile(
    id: string,
    name: string,
    email: string,
    age: Option<nat>,
    phone: Option<string>,
    tnElectricityId: Option<string>,
    energyPoints: Option<nat>
  )

  datatype LoginResult = LoggedIn(profile: Profile) | LoginRejected(message: string)

  const InvalidCredentialsMessage := "Invalid email or password"

  /** Login: look the user up by address and compare the password with the
      stored hash. Both failures give the same message. The store is only read. */
  function Login(store: UserStore, email: string, password: string, matches: (string, string) -> bool): (r: LoginResult)
    ensures r.LoginRejected? <==> email !in store || !matches(password, store[email].passwordHash)
    ensures r.LoginRejected? ==> r.message == InvalidCredentialsMessage
    ensures r.LoggedIn? ==>
              var u := store[email];
              r.profile == Profile(u.id, u.name, u.email, u.age, u.phone, u.tnElectricityId, u.energyPoints)
  {
    if email !in store then LoginRejected(InvalidCredentialsMessage)
    else
      var u := store[email];
      if !matches(password, u.passwordHash) then LoginRejected(InvalidCredentialsMessage)
      else LoggedIn(Profile(u.id, u.name, u.email, u.age, u.phone, u.tnElectricityId, u.energyPoints))
  }

  /** An unknown address and a wrong password cannot be told apart. */
  lemma LoginFailuresIndistinguishable(store: UserStore, unknown: string, known: string, wrong: string,
                                       anyPassword: string, matches: (string, string) -> bool)
    requires unknown !in store
    requires known in store && !matches(wrong, store[known].passwordHash)
    ensures Login(store, unknown, anyPassword, matches) == Login(store, known, wrong, matches)
  {
  }

  /** With a hasher whose output the comparison accepts for the same password,
      a user can log in right after registering, and starts with zero points. */
  lemma SignupThenLogin(store: UserStore, req: SignupRequest, freshId: string,
                        hash: string -> string, matches: (string, string) -> bool)
    requires Signup(store, req, freshId, hash).0.Registered?
    requires forall p :: matches(p, hash(p))
    ensures Login(Signup(store, req, freshId, hash).1, req.email.value, req.password.value, matches)
            == LoggedIn(Profile(freshId, req.name.value, req.email.value, req.age, req.phone,
                                req.tnElectricityId, Some(0)))
  {
    var after := Signup(store, req, freshId, hash).1;
    assert matches(req.password.value, hash(req.password.value));
    assert after[req.email.value].passwordHash == hash(req.password.value);
  }
}
