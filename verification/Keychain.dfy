/** A user's passwords: `src/user.rs` and `src/auth.rs`, with bcrypt, HKDF and AES-GCM as terms.

    bcrypt is ideal: a hash verifies exactly the password it was made from. */
module Keychain {
  import opened Prelude

  // ----- symbolic cryptography

  /** A salted bcrypt hash. */
  datatype PasswordHash = Hash(password: Str, salt: Str)

  /** `derive_key`: HKDF of a secret under a salt. */
  datatype DerivedKey = Kdf(secret: Str, salt: Str)

  /** An AES-256-GCM ciphertext. */
  datatype Ciphertext = Seal(key: DerivedKey, nonce: Str, message: Str)

  predicate Verify(password: Str, h: PasswordHash) {
    password == h.password
  }

  function Open(key: DerivedKey, nonce: Str, c: Ciphertext): Option<Str> {
    if c.key == key && c.nonce == nonce then Some(c.message) else None
  }

  datatype AuthError =
    | WrongIntermediateKey
    | MainPasswordNotSet
    | CouldNotAuthenticate
    | MatchingAuthNotProvided
    | EncryptionError

  // ----- records

  datatype MainPassword = MainPassword(
    mainHash: PasswordHash,
    encMain: Ciphertext,
    encMainNonce: Str,
    ikSalt: Str,
    ikHash: PasswordHash)
  {
    /** `MainPassword::plain`: accepts the main password itself or the intermediate key. */
    function Plain(ikOrMain: Str): Result<Str, AuthError> {
      if Verify(ikOrMain, mainHash) then Ok(ikOrMain)
      else if !Verify(ikOrMain, ikHash) then Err(WrongIntermediateKey)
      else match Open(Kdf(ikOrMain, ikSalt), encMainNonce, encMain)
        case None => Err(EncryptionError)
        case Some(main) => if Verify(main, mainHash) then Ok(main) else Err(WrongIntermediateKey)
    }
  }

  datatype MainRandom = MainRandom(mainHashSalt: Str, ikHashSalt: Str, nonce: Str)

  /** `MainPassword::new`. */
  function NewMain(main: Str, ik: Str, ikSalt: Str, rnd: MainRandom): MainPassword {
    MainPassword(
      Hash(main, rnd.mainHashSalt),
      Seal(Kdf(ik, ikSalt), rnd.nonce, main),
      rnd.nonce,
      ikSalt,
      Hash(ik, rnd.ikHashSalt))
  }

  datatype SecondaryPassword = SecondaryPassword(
    encIntermediateNonce: Str,
    encIntermediate: Ciphertext,
    passwordSalt: Str,
    passwordHash: PasswordHash)
  {
    /** `SecondaryPassword::intermediate`. */
    function Intermediate(password: Str): Result<Str, AuthError> {
      if !Verify(password, passwordHash) then Err(CouldNotAuthenticate)
      else match Open(Kdf(password, passwordSalt), encIntermediateNonce, encIntermediate)
        case None => Err(EncryptionError)
        case Some(intermediate) => Ok(intermediate)
    }
  }

  datatype SecondaryRandom = SecondaryRandom(passwordSalt: Str, hashSalt: Str, nonce: Str)

  /** `SecondaryPassword::new`. */
  function NewSecondary(intermediate: Str, password: Str, rnd: SecondaryRandom): SecondaryPassword {
    SecondaryPassword(
      rnd.nonce,
      Seal(Kdf(password, rnd.passwordSalt), rnd.nonce, intermediate),
      rnd.passwordSalt,
      Hash(password, rnd.hashSalt))
  }

  datatype SecondaryAuthMethod = Password(password: SecondaryPassword)

  datatype SecondaryAuth = SecondaryAuth(name: Str, creationDate: nat, data: SecondaryAuthMethod)
  {
    /** `SecondaryAuth::intermediate`. */
    function Intermediate(provided: Option<Str>): Result<Str, AuthError> {
      match provided
      case None => Err(MatchingAuthNotProvided)
      case Some(p) => data.password.Intermediate(p)
    }
  }

  // ----- the keychain and its operations as values

  /** The contents of a `UserAuthData`. */
  datatype Keys = Keys(main: Option<MainPassword>, auth: seq<SecondaryAuth>)

  const NO_KEYS := Keys(None, [])

  /** `UserAuthData::main`. */
  function MainOf(k: Keys, ik: Str): Result<Str, AuthError> {
    if k.main.Some? then k.main.value.Plain(ik) else Err(MainPasswordNotSet)
  }

  /** What one secondary contributes to a login: the main password it leads to, if any. */
  function Unlock(m: MainPassword, a: SecondaryAuth, provided: Option<Str>): Option<Str> {
    match a.Intermediate(provided)
    case Err(_) => None
    case Ok(intermediate) =>
      match m.Plain(intermediate)
      case Err(_) => None
      case Ok(main) => Some(main)
  }

  /** The first secondary that leads to a main password decides. */
  function FirstUnlock(m: MainPassword, auth: seq<SecondaryAuth>, provided: Option<Str>): Option<Str> {
    if auth == [] then None
    else
      var first := Unlock(m, auth[0], provided);
      if first.Some? then first else FirstUnlock(m, auth[1..], provided)
  }

  /** What `main_by_auth` must answer. */
  function Login(k: Keys, provided: Option<Str>): Result<Str, AuthError> {
    if k.main.None? then Err(MainPasswordNotSet)
    else
      var m := k.main.value;
      if provided.Some? && m.Plain(provided.value).Ok? then m.Plain(provided.value)
      else match FirstUnlock(m, k.auth, provided)
        case Some(main) => Ok(main)
        case None => Err(CouldNotAuthenticate)
  }

  /** A call that changes the keychain, with the random values and the clock it reads. */
  datatype Change =
    | SetMain(main: Str, ik: Str, freshSalt: Str, mainRandom: MainRandom)
    | AddSecondary(name: Str, intermediate: Str, password: Str, now: nat, secondaryRandom: SecondaryRandom)

  /** What a change must do, and what it returns. */
  function Apply(k: Keys, c: Change): (Keys, Result<(), AuthError>) {
    match c
    case SetMain(main, ik, freshSalt, rnd) =>
      if k.main.None? then (k.(main := Some(NewMain(main, ik, freshSalt, rnd))), Ok(()))
      else if !Verify(ik, k.main.value.ikHash) then (k, Err(WrongIntermediateKey))
      else (k.(main := Some(NewMain(main, ik, k.main.value.ikSalt, rnd))), Ok(()))
    case AddSecondary(name, intermediate, password, now, rnd) =>
      match MainOf(k, intermediate)
      case Err(e) => (k, Err(e))
      case Ok(_) =>
        var entry := SecondaryAuth(name, now, Password(NewSecondary(intermediate, password, rnd)));
        (k.(auth := k.auth + [entry]), Ok(()))
  }

  /** `UserAuthData`. */
  class UserAuthData {
    var main: Option<MainPassword>
    var auth: seq<SecondaryAuth>

    function View(): Keys
      reads this
    {
      Keys(main, auth)
    }

    constructor ()
      ensures View() == NO_KEYS
    {
      main, auth := None, [];
    }

    method SetMain(newMain: Str, ik: Str, freshSalt: Str, rnd: MainRandom)
      returns (r: Result<(), AuthError>)
      modifies this
      ensures (View(), r) == Apply(old(View()), Change.SetMain(newMain, ik, freshSalt, rnd))
    {
      match main {
        case Some(m) =>
          if !Verify(ik, m.ikHash) {
            return Err(WrongIntermediateKey);
          }
          main := Some(NewMain(newMain, ik, m.ikSalt, rnd));
          r := Ok(());
        case None =>
          main := Some(NewMain(newMain, ik, freshSalt, rnd));
          r := Ok(());
      }
    }

    method AddSecondaryPassword(name: Str, intermediate: Str, password: Str, now: nat, rnd: SecondaryRandom)
      returns (r: Result<(), AuthError>)
      modifies this`auth
      ensures (View(), r) == Apply(old(View()), AddSecondary(name, intermediate, password, now, rnd))
    {
      var checked := MainOf(View(), intermediate);
      if checked.Err? {
        return Err(checked.error);
      }
      auth := auth + [SecondaryAuth(name, now, Password(NewSecondary(intermediate, password, rnd)))];
      r := Ok(());
    }

    /** `main_by_auth`: secondaries that fail are skipped, the first that succeeds ends the search. */
    method MainByAuth(provided: Option<Str>) returns (r: Result<Str, AuthError>)
      ensures r == Login(View(), provided)
    {
      if main.None? {
        return Err(MainPasswordNotSet);
      }
      if provided.Some? {
        var direct := main.value.Plain(provided.value);
        if direct.Ok? {
          return direct;
        }
      }
      for i := 0 to |auth|
        invariant FirstUnlock(main.value, auth, provided) == FirstUnlock(main.value, auth[i..], provided)
      {
        assert auth[i..][0] == auth[i] && auth[i..][1..] == auth[i + 1..];
        var intermediate := auth[i].Intermediate(provided);
        if intermediate.Ok? {
          var found := main.value.Plain(intermediate.value);
          if found.Ok? {
            return found;
          }
        }
      }
      r := Err(CouldNotAuthenticate);
    }

    method PushMain(value: MainPassword)
      modifies this`main
      ensures View() == old(View()).(main := Some(value))
    {
      main := Some(value);
    }

    method PushSecondary(value: SecondaryAuth)
      modifies this`auth
      ensures View() == old(View()).(auth := old(auth) + [value])
    {
      auth := auth + [value];
    }
  }

  // ----- any stored data

  /** Whatever a record holds, also one that was tampered with: it opens only with the hashed main
      password itself, or with the hashed intermediate key when that decrypts to the main password. */
  lemma PlainOfAnyRecord(m: MainPassword, p: Str)
    ensures var opens := m.encMain.key == Kdf(p, m.ikSalt) && m.encMain.nonce == m.encMainNonce;
      m.Plain(p) ==
        if p == m.mainHash.password then Ok(p)
        else if p != m.ikHash.password then Err(WrongIntermediateKey)
        else if !opens then Err(EncryptionError)
        else if m.encMain.message != m.mainHash.password then Err(WrongIntermediateKey)
        else Ok(m.encMain.message)
  {
  }

  /** A secondary gives its ciphertext's message exactly to the hashed password, if that decrypts it. */
  lemma IntermediateOfAnyRecord(s: SecondaryAuth, provided: Option<Str>)
    ensures var r := s.data.password;
      s.Intermediate(provided) ==
        if provided.None? then Err(MatchingAuthNotProvided)
        else if provided.value != r.passwordHash.password then Err(CouldNotAuthenticate)
        else if r.encIntermediate.key != Kdf(provided.value, r.passwordSalt)
             || r.encIntermediate.nonce != r.encIntermediateNonce then Err(EncryptionError)
        else Ok(r.encIntermediate.message)
  {
  }

  /** On any stored data, login either fails or hands over the hashed main password. It succeeds
      exactly when the password opens the main record, or some secondary that accepts it holds a value
      that does; without a main record it says so. */
  lemma LoginOnAnyData(k: Keys, provided: Option<Str>)
    ensures Login(k, provided).Ok? ==> k.main.Some? && Login(k, provided).value == k.main.value.mainHash.password
    ensures Login(k, provided).Ok? <==>
      && k.main.Some?
      && (|| (provided.Some? && k.main.value.Plain(provided.value).Ok?)
          || (exists i :: 0 <= i < |k.auth| && k.auth[i].Intermediate(provided).Ok?
                          && k.main.value.Plain(k.auth[i].Intermediate(provided).value).Ok?))
    ensures Login(k, provided).Err? ==>
      Login(k, provided).error == if k.main.None? then MainPasswordNotSet else CouldNotAuthenticate
  {
    if k.main.Some? {
      SearchOnAnyData(k.main.value, k.auth, provided);
    }
  }

  lemma {:induction false} SearchOnAnyData(m: MainPassword, auth: seq<SecondaryAuth>, provided: Option<Str>)
    ensures FirstUnlock(m, auth, provided).Some? ==> FirstUnlock(m, auth, provided).value == m.mainHash.password
    ensures FirstUnlock(m, auth, provided).Some? <==>
      exists i :: 0 <= i < |auth| && auth[i].Intermediate(provided).Ok?
                  && m.Plain(auth[i].Intermediate(provided).value).Ok?
  {
    if auth != [] {
      SearchOnAnyData(m, auth[1..], provided);
      if i :| 0 <= i < |auth| && auth[i].Intermediate(provided).Ok?
              && m.Plain(auth[i].Intermediate(provided).value).Ok? {
        assert i == 0 || auth[1..][i - 1] == auth[i];
      }
    }
  }

  /** What an accepted change writes: a main record made with the drawn salts and nonce, under the salt
      that the keychain already uses for its intermediate key, or the drawn one at first; or one more
      secondary at the end, with the name and the date given, made with the drawn values. The other
      records stay. */
  lemma RecordsWritten(k: Keys, c: Change)
    requires Apply(k, c).1.Ok?
    ensures var k' := Apply(k, c).0;
      match c
      case SetMain(main, ik, freshSalt, rnd) =>
        var salt := if k.main.Some? then k.main.value.ikSalt else freshSalt;
        && k'.auth == k.auth && k'.main.Some?
        && k'.main.value.mainHash == Hash(main, rnd.mainHashSalt)
        && k'.main.value.ikHash == Hash(ik, rnd.ikHashSalt)
        && k'.main.value.ikSalt == salt
        && k'.main.value.encMainNonce == rnd.nonce
        && k'.main.value.encMain == Seal(Kdf(ik, salt), rnd.nonce, main)
      case AddSecondary(name, intermediate, password, now, rnd) =>
        && k'.main == k.main && |k'.auth| == |k.auth| + 1 && k.auth <= k'.auth
        && k'.auth[|k.auth|].name == name && k'.auth[|k.auth|].creationDate == now
        && var r := k'.auth[|k.auth|].data.password;
           && r.passwordHash == Hash(password, rnd.hashSalt)
           && r.passwordSalt == rnd.passwordSalt && r.encIntermediateNonce == rnd.nonce
           && r.encIntermediate == Seal(Kdf(password, rnd.passwordSalt), rnd.nonce, intermediate)
  {
  }

  // ----- histories

  /** The keychain after a history of calls on a new `UserAuthData`. */
  ghost function Replay(history: seq<Change>): Keys {
    if history == [] then NO_KEYS
    else Apply(Replay(history[..|history| - 1]), history[|history| - 1]).0
  }

  /** What the keychain stands for: the passwords themselves, nothing hashed or encrypted. */
  datatype Account =
    | Unset
    | Account(main: Str, ik: Str, enrolled: seq<Enrolment>)

  /** A secondary password and the value given as "intermediate" when it was added. */
  datatype Enrolment = Enrolment(password: Str, wraps: Str)

  /** The account after one call: a new main needs the intermediate key; a new secondary needs
      either the intermediate key or the current main password, and keeps whichever was given. */
  ghost function Update(a: Account, c: Change): Account {
    match c
    case SetMain(main, ik, _, _) =>
      if a.Unset? then Account(main, ik, [])
      else if ik == a.ik then a.(main := main)
      else a
    case AddSecondary(_, intermediate, password, _, _) =>
      if a.Account? && (intermediate == a.main || intermediate == a.ik)
      then a.(enrolled := a.enrolled + [Enrolment(password, intermediate)])
      else a
  }

  ghost function AccountAfter(history: seq<Change>): Account {
    if history == [] then Unset
    else Update(AccountAfter(history[..|history| - 1]), history[|history| - 1])
  }

  /** The password opens the account directly or through an enrolment that still leads to the main. */
  ghost predicate Unlocks(a: Account, p: Str) {
    && a.Account?
    && (p == a.main || p == a.ik || exists e :: e in a.enrolled && Works(a, e, p))
  }

  ghost predicate Works(a: Account, e: Enrolment, p: Str)
    requires a.Account?
  {
    e.password == p && (e.wraps == a.main || e.wraps == a.ik)
  }

  // ----- records represent accounts

  ghost predicate IsMain(m: MainPassword, main: Str, ik: Str) {
    && m.mainHash.password == main
    && m.ikHash.password == ik
    && m.encMain == Seal(Kdf(ik, m.ikSalt), m.encMainNonce, main)
  }

  ghost predicate IsEnrolment(s: SecondaryAuth, e: Enrolment) {
    var p := s.data.password;
    && p.passwordHash.password == e.password
    && p.encIntermediate == Seal(Kdf(e.password, p.passwordSalt), p.encIntermediateNonce, e.wraps)
  }

  ghost predicate Represents(k: Keys, a: Account) {
    if a.Unset? then k == NO_KEYS
    else
      && k.main.Some? && IsMain(k.main.value, a.main, a.ik)
      && |k.auth| == |a.enrolled|
      && forall i :: 0 <= i < |k.auth| ==> IsEnrolment(k.auth[i], a.enrolled[i])
  }

  /** After every history the stored records represent the account. */
  lemma {:induction false} HistoryRepresents(history: seq<Change>)
    ensures Represents(Replay(history), AccountAfter(history))
  {
    if history != [] {
      HistoryRepresents(history[..|history| - 1]);
    }
  }

  /** A main record opens with the main password and with the intermediate key, and with nothing else. */
  lemma PlainExact(m: MainPassword, main: Str, ik: Str, p: Str)
    requires IsMain(m, main, ik)
    ensures m.Plain(p) == if p == main || p == ik then Ok(main) else Err(WrongIntermediateKey)
  {
  }

  /** After every history `main` answers the current main password to itself and to the intermediate
      key, and refuses everything else. */
  lemma MainExact(history: seq<Change>, x: Str)
    ensures var a := AccountAfter(history);
      MainOf(Replay(history), x) ==
        if a.Unset? then Err(MainPasswordNotSet)
        else if x == a.main || x == a.ik then Ok(a.main)
        else Err(WrongIntermediateKey)
  {
    HistoryRepresents(history);
  }

  lemma {:induction false} FirstUnlockExact(
    m: MainPassword, auth: seq<SecondaryAuth>, a: Account, enrolled: seq<Enrolment>, p: Str)
    requires a.Account? && IsMain(m, a.main, a.ik)
    requires |auth| == |enrolled| && forall i :: 0 <= i < |auth| ==> IsEnrolment(auth[i], enrolled[i])
    ensures FirstUnlock(m, auth, Some(p)) ==
      if exists e :: e in enrolled && Works(a, e, p) then Some(a.main) else None
  {
    if auth != [] {
      FirstUnlockExact(m, auth[1..], a, enrolled[1..], p);
      assert enrolled == [enrolled[0]] + enrolled[1..];
      assert IsEnrolment(auth[0], enrolled[0]);
      assert Unlock(m, auth[0], Some(p)).Some? <==> Works(a, enrolled[0], p);
      if Works(a, enrolled[0], p) {
        assert enrolled[0] in enrolled;
      }
    }
  }

  lemma {:induction false} NothingProvided(m: MainPassword, auth: seq<SecondaryAuth>)
    ensures FirstUnlock(m, auth, None) == None
  {
    if auth != [] {
      NothingProvided(m, auth[1..]);
    }
  }

  /** Login on a keychain that represents an account. */
  lemma LoginRepresents(k: Keys, a: Account, p: Str)
    requires Represents(k, a)
    ensures Login(k, Some(p)) ==
      if a.Unset? then Err(MainPasswordNotSet)
      else if Unlocks(a, p) then Ok(a.main)
      else Err(CouldNotAuthenticate)
  {
    if a.Account? {
      FirstUnlockExact(k.main.value, k.auth, a, a.enrolled, p);
    }
  }

  /** Soundness and completeness of login after every history: it succeeds exactly for the current
      main password, the intermediate key, and the secondaries whose wrapped value still equals one
      of the two; it then yields the current main password, and otherwise exactly these errors. */
  lemma LoginExact(history: seq<Change>, p: Str)
    ensures var a := AccountAfter(history);
      Login(Replay(history), Some(p)) ==
        if a.Unset? then Err(MainPasswordNotSet)
        else if Unlocks(a, p) then Ok(a.main)
        else Err(CouldNotAuthenticate)
    ensures Login(Replay(history), None) ==
      Err(if AccountAfter(history).Unset? then MainPasswordNotSet else CouldNotAuthenticate)
  {
    HistoryRepresents(history);
    LoginRepresents(Replay(history), AccountAfter(history), p);
    var k := Replay(history);
    if k.main.Some? {
      NothingProvided(k.main.value, k.auth);
    }
  }

  /** A change is accepted exactly when its key is right, and a refused change does nothing. */
  lemma ChangesExact(history: seq<Change>, c: Change)
    ensures var a := AccountAfter(history);
      Apply(Replay(history), c).1 ==
        match c
        case SetMain(_, ik, _, _) =>
          if a.Unset? || ik == a.ik then Ok(()) else Err(WrongIntermediateKey)
        case AddSecondary(_, intermediate, _, _, _) =>
          if a.Unset? then Err(MainPasswordNotSet)
          else if intermediate == a.main || intermediate == a.ik then Ok(())
          else Err(WrongIntermediateKey)
    ensures Apply(Replay(history), c).1.Err? ==> Apply(Replay(history), c).0 == Replay(history)
  {
    HistoryRepresents(history);
  }

  /** Every enrolment wraps the intermediate key or a main password that was current at some point. */
  lemma {:induction false} WrapsInvariant(history: seq<Change>, i: nat)
    requires AccountAfter(history).Account? && i < |AccountAfter(history).enrolled|
    ensures var a := AccountAfter(history);
      || a.enrolled[i].wraps == a.ik
      || exists n :: 0 <= n <= |history| && AccountAfter(history[..n]).Account?
                     && AccountAfter(history[..n]).main == a.enrolled[i].wraps
  {
    var n := |history| - 1;
    var before, after := AccountAfter(history[..n]), AccountAfter(history);
    if before.Account? && i < |before.enrolled| {
      WrapsInvariant(history[..n], i);
      if after.enrolled[i].wraps != after.ik {
        var m :| 0 <= m <= n && AccountAfter(history[..n][..m]).Account?
                 && AccountAfter(history[..n][..m]).main == before.enrolled[i].wraps;
        assert history[..n][..m] == history[..m];
      }
    }
  }

  /** Once set, the intermediate key and its salt are fixed for life: whatever calls follow, the same
      key verifies and the derived key is salted alike. The enrolments made so far stay as they are. */
  lemma {:induction false} IntermediateKeyFixed(history: seq<Change>, more: seq<Change>)
    requires AccountAfter(history).Account?
    ensures var k, k' := Replay(history), Replay(history + more);
      && k.main.Some? && k'.main.Some?
      && k'.main.value.ikSalt == k.main.value.ikSalt
      && (forall x :: Verify(x, k'.main.value.ikHash) <==> Verify(x, k.main.value.ikHash))
      && k.auth <= k'.auth
    ensures var a, a' := AccountAfter(history), AccountAfter(history + more);
      a'.Account? && a'.ik == a.ik && a.enrolled <= a'.enrolled
  {
    HistoryRepresents(history);
    if more == [] {
      assert history + more == history;
    } else {
      var n := |more| - 1;
      IntermediateKeyFixed(history, more[..n]);
      HistoryRepresents(history + more[..n]);
      assert (history + more)[..|history + more| - 1] == history + more[..n];
    }
  }

  /** Rotation preserves enrolments: after any further calls, a secondary enrolled with the
      intermediate key unlocks the then current main password, and one enrolled with a main password
      unlocks it exactly while that value equals the current main password or the intermediate key. */
  lemma RotationPreservesEnrolments(history: seq<Change>, more: seq<Change>, i: nat)
    requires AccountAfter(history).Account? && i < |AccountAfter(history).enrolled|
    ensures i < |Replay(history + more).auth| && Replay(history + more).main.Some?
    ensures var e := AccountAfter(history).enrolled[i];
      var a, k := AccountAfter(history + more), Replay(history + more);
      && a.Account?
      && Unlock(k.main.value, k.auth[i], Some(e.password)) ==
           (if e.wraps == a.main || e.wraps == a.ik then Some(a.main) else None)
      && (e.wraps == AccountAfter(history).ik ==> Login(k, Some(e.password)) == Ok(a.main))
  {
    IntermediateKeyFixed(history, more);
    HistoryRepresents(history + more);
    var e := AccountAfter(history).enrolled[i];
    var a, k := AccountAfter(history + more), Replay(history + more);
    assert a.enrolled[i] == e;
    assert IsEnrolment(k.auth[i], e);
    if e.wraps == a.ik {
      assert e in a.enrolled && Works(a, e, e.password);
      LoginExact(history + more, e.password);
    }
  }

  // ----- the login decision of the PAM module

  datatype PamResult = Success(credentials: Str) | UserUnknown | AuthFailure

  /** The decision of `sm_authenticate`: automatic login first, with the empty password; only then
      the password the user types. */
  function Authenticate(stored: Option<Keys>, typed: Str): PamResult {
    if stored.None? || stored.value.main.None? then UserUnknown
    else
      var automatic := Login(stored.value, Some([]));
      if automatic.Ok? then Success(automatic.value)
      else match Login(stored.value, Some(typed))
        case Ok(main) => Success(main)
        case Err(_) => AuthFailure
  }

  /** PAM authentication: a user without stored data, or without a main password in it, is unknown
      whatever is typed. After every history it hands over the current main password exactly when the
      empty password or the typed one unlocks the account. On any other data it hands over the hashed
      main password or nothing. */
  lemma AuthenticateExact(history: seq<Change>, typed: Str)
    ensures var a := AccountAfter(history);
      Authenticate(Some(Replay(history)), typed) ==
        if a.Unset? then UserUnknown
        else if Unlocks(a, []) || Unlocks(a, typed) then Success(a.main)
        else AuthFailure
    ensures Authenticate(None, typed) == UserUnknown
    ensures forall k: Keys :: k.main.None? ==> Authenticate(Some(k), typed) == UserUnknown
    ensures forall k: Keys :: k.main.Some? ==>
      Authenticate(Some(k), typed) ==
        if Login(k, Some([])).Ok? || Login(k, Some(typed)).Ok? then Success(k.main.value.mainHash.password)
        else AuthFailure
  {
    forall k: Keys | k.main.Some?
      ensures Authenticate(Some(k), typed) ==
        if Login(k, Some([])).Ok? || Login(k, Some(typed)).Ok? then Success(k.main.value.mainHash.password)
        else AuthFailure
    {
      LoginOnAnyData(k, Some([]));
      LoginOnAnyData(k, Some(typed));
    }
    HistoryRepresents(history);
    LoginExact(history, []);
    LoginExact(history, typed);
  }
}
