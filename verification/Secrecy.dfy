/** Who can learn what from the stored records: the promises of README.md:31-37, for an adversary
    who hashes, derives keys, encrypts and decrypts at will and knows every string that is not one
    of the secrets in question. */
module Secrecy {
  import opened Prelude
  import opened Keychain

  /** Messages. Salts and nonces are public. */
  datatype Term =
    | Atom(text: Str)
    | Hashed(t: Term, salt: Str)
    | Derived(t: Term, salt: Str)
    | Encrypted(key: Term, nonce: Str, message: Term)

  /** How a term was obtained. */
  datatype Derivation =
    | Given(term: Term)
    | Hashing(of: Derivation, salt: Str)
    | Deriving(of: Derivation, salt: Str)
    | Encrypting(key: Derivation, nonce: Str, message: Derivation)
    | Decrypting(key: Derivation, ciphertext: Derivation)

  /** The term a derivation obtains; a decryption under another key obtains nothing. */
  ghost function Yield(d: Derivation): Option<Term> {
    match d
    case Given(t) => Some(t)
    case Hashing(of, salt) =>
      (match Yield(of) case None => None case Some(t) => Some(Hashed(t, salt)))
    case Deriving(of, salt) =>
      (match Yield(of) case None => None case Some(t) => Some(Derived(t, salt)))
    case Encrypting(key, nonce, message) =>
      var k, m := Yield(key), Yield(message);
      if k.None? || m.None? then None else Some(Encrypted(k.value, nonce, m.value))
    case Decrypting(key, ciphertext) =>
      var k, c := Yield(key), Yield(ciphertext);
      if k.Some? && c.Some? && c.value.Encrypted? && c.value.key == k.value
      then Some(c.value.message)
      else None
  }

  /** The derivation starts from known terms only. */
  ghost predicate StartsFrom(d: Derivation, known: iset<Term>) {
    match d
    case Given(t) => t in known
    case Hashing(of, _) => StartsFrom(of, known)
    case Deriving(of, _) => StartsFrom(of, known)
    case Encrypting(key, _, message) => StartsFrom(key, known) && StartsFrom(message, known)
    case Decrypting(key, ciphertext) => StartsFrom(key, known) && StartsFrom(ciphertext, known)
  }

  ghost predicate Learns(known: iset<Term>, secret: Str) {
    exists d :: StartsFrom(d, known) && Yield(d) == Some(Atom(secret))
  }

  // ----- what the adversary holds

  ghost function OfHash(h: PasswordHash): Term {
    Hashed(Atom(h.password), h.salt)
  }

  ghost function OfCiphertext(c: Ciphertext): Term {
    Encrypted(Derived(Atom(c.key.secret), c.key.salt), c.nonce, Atom(c.message))
  }

  /** The terms in the stored records. */
  ghost predicate Stored(k: Keys, t: Term) {
    || (k.main.Some? && (
          || t == OfHash(k.main.value.mainHash)
          || t == OfHash(k.main.value.ikHash)
          || t == OfCiphertext(k.main.value.encMain)))
    || (exists s :: s in k.auth && StoredIn(s, t))
  }

  ghost predicate StoredIn(s: SecondaryAuth, t: Term) {
    || t == OfHash(s.data.password.passwordHash)
    || t == OfCiphertext(s.data.password.encIntermediate)
  }

  /** The records, the disclosed strings, and every string outside `secrets`. */
  ghost function Knowledge(k: Keys, disclosed: set<Str>, secrets: set<Str>): iset<Term> {
    iset t | Stored(k, t) || (t.Atom? && (t.text in disclosed || t.text !in secrets))
  }

  ghost function SecondaryPasswords(a: Account): set<Str>
    requires a.Account?
  {
    set e | e in a.enrolled :: e.password
  }

  // ----- the invariant of every derivation

  /** Hidden atoms are unsafe, a derived key is as safe as what it is derived from, and a ciphertext
      is safe when its message is or its key is not. */
  ghost predicate Safe(t: Term, hidden: set<Str>) {
    match t
    case Atom(text) => text !in hidden
    case Hashed(_, _) => true
    case Derived(of, _) => Safe(of, hidden)
    case Encrypted(key, _, message) => Safe(message, hidden) || !Safe(key, hidden)
  }

  lemma {:induction false} OnlySafeTerms(d: Derivation, known: iset<Term>, hidden: set<Str>)
    requires forall t :: t in known ==> Safe(t, hidden)
    requires StartsFrom(d, known) && Yield(d).Some?
    ensures Safe(Yield(d).value, hidden)
  {
    match d {
      case Given(_) =>
      case Hashing(of, _) => OnlySafeTerms(of, known, hidden);
      case Deriving(of, _) => OnlySafeTerms(of, known, hidden);
      case Encrypting(key, _, message) => OnlySafeTerms(message, known, hidden);
      case Decrypting(key, ciphertext) =>
        OnlySafeTerms(key, known, hidden);
        OnlySafeTerms(ciphertext, known, hidden);
    }
  }

  lemma LearnsGiven(known: iset<Term>, text: Str)
    requires Atom(text) in known
    ensures Learns(known, text)
  {
    var d := Given(Atom(text));
    assert StartsFrom(d, known) && Yield(d) == Some(Atom(text));
  }

  /** What a stored term is, for the account that the records represent. */
  lemma StoredEnrolment(k: Keys, a: Account, t: Term)
    requires Represents(k, a) && a.Account? && Stored(k, t)
    ensures
      || t.Hashed?
      || (t.Encrypted? && t.key.Derived? && t.key.t == Atom(a.ik) && t.message == Atom(a.main))
      || (exists e :: e in a.enrolled && IsSealedBy(t, e))
  {
    if s :| s in k.auth && StoredIn(s, t) {
      var i :| 0 <= i < |k.auth| && k.auth[i] == s;
      assert IsEnrolment(k.auth[i], a.enrolled[i]);
      assert t.Hashed? || IsSealedBy(t, a.enrolled[i]);
    }
  }

  ghost predicate IsSealedBy(t: Term, e: Enrolment) {
    t.Encrypted? && t.key.Derived? && t.key.t == Atom(e.password) && t.message == Atom(e.wraps)
  }

  // ----- which strings lead to which

  /** What the disclosed strings lead to in at most `n` unlockings: a secondary password to the value
      it wraps, the intermediate key to the main password. */
  ghost function Within(a: Account, disclosed: set<Str>, n: nat): set<Str>
    requires a.Account?
  {
    if n == 0 then disclosed
    else
      var before := Within(a, disclosed, n - 1);
      before + (set e | e in a.enrolled && e.password in before :: e.wraps)
        + (if a.ik in before then {a.main} else {})
  }

  ghost predicate LeadsTo(a: Account, disclosed: set<Str>, x: Str)
    requires a.Account?
  {
    exists n: nat :: x in Within(a, disclosed, n)
  }

  lemma LeadsOn(a: Account, disclosed: set<Str>, x: Str)
    requires a.Account? && LeadsTo(a, disclosed, x)
    ensures x == a.ik ==> LeadsTo(a, disclosed, a.main)
    ensures forall e :: e in a.enrolled && e.password == x ==> LeadsTo(a, disclosed, e.wraps)
  {
    var n: nat :| x in Within(a, disclosed, n);
    assert x == a.ik ==> a.main in Within(a, disclosed, n + 1);
    assert forall e :: e in a.enrolled && e.password == x ==> e.wraps in Within(a, disclosed, n + 1);
  }

  /** Strings that unlock nothing, or only what is disclosed as well, lead nowhere else. */
  lemma {:induction false} LeadsNowhere(a: Account, disclosed: set<Str>, n: nat)
    requires a.Account? && (a.ik in disclosed ==> a.main in disclosed)
    requires forall e :: e in a.enrolled && e.password in disclosed ==> e.wraps in disclosed
    ensures Within(a, disclosed, n) == disclosed
  {
    if n > 0 {
      LeadsNowhere(a, disclosed, n - 1);
    }
  }

  ghost function Secrets(a: Account): set<Str>
    requires a.Account?
  {
    {a.main, a.ik} + SecondaryPasswords(a)
  }

  // ----- exactly what can be learnt

  /** Whoever knows a string learns what is encrypted under a key derived from it. */
  lemma LearnsSealed(known: iset<Term>, key: Str, salt: Str, nonce: Str, message: Str)
    requires Learns(known, key) && Encrypted(Derived(Atom(key), salt), nonce, Atom(message)) in known
    ensures Learns(known, message)
  {
    var start :| StartsFrom(start, known) && Yield(start) == Some(Atom(key));
    var opening := Deriving(start, salt);
    assert StartsFrom(opening, known) && Yield(opening) == Some(Derived(Atom(key), salt));
    var sealed := Encrypted(Derived(Atom(key), salt), nonce, Atom(message));
    var record := Given(sealed);
    assert StartsFrom(record, known) && Yield(record) == Some(sealed);
    var d := Decrypting(opening, record);
    assert StartsFrom(d, known) && Yield(d) == Some(Atom(message));
  }

  lemma {:induction false} WhatLeadsIsLearnt(k: Keys, a: Account, disclosed: set<Str>, known: iset<Term>, n: nat, x: Str)
    requires Represents(k, a) && a.Account? && x in Within(a, disclosed, n)
    requires forall t :: Stored(k, t) || (t.Atom? && t.text in disclosed) ==> t in known
    ensures Learns(known, x)
  {
    if n == 0 {
      LearnsGiven(known, x);
    } else {
      var before := Within(a, disclosed, n - 1);
      if x in before {
        WhatLeadsIsLearnt(k, a, disclosed, known, n - 1, x);
      } else if e :| e in a.enrolled && e.password in before && e.wraps == x {
        WhatLeadsIsLearnt(k, a, disclosed, known, n - 1, e.password);
        EnrolmentOpens(k, a, e, known);
      } else {
        WhatLeadsIsLearnt(k, a, disclosed, known, n - 1, a.ik);
        var m := k.main.value;
        assert Stored(k, OfCiphertext(m.encMain));
        LearnsSealed(known, a.ik, m.ikSalt, m.encMainNonce, a.main);
      }
    }
  }

  lemma EnrolmentOpens(k: Keys, a: Account, e: Enrolment, known: iset<Term>)
    requires Represents(k, a) && a.Account? && e in a.enrolled && Learns(known, e.password)
    requires forall t :: Stored(k, t) ==> t in known
    ensures Learns(known, e.wraps)
  {
    var i :| 0 <= i < |a.enrolled| && a.enrolled[i] == e;
    assert IsEnrolment(k.auth[i], e);
    var p := k.auth[i].data.password;
    assert k.auth[i] in k.auth && StoredIn(k.auth[i], OfCiphertext(p.encIntermediate));
    LearnsSealed(known, e.password, p.passwordSalt, p.encIntermediateNonce, e.wraps);
  }

  /** What stays hidden from the adversary. */
  ghost function Hidden(a: Account, disclosed: set<Str>): set<Str>
    requires a.Account?
  {
    set s | s in Secrets(a) && !LeadsTo(a, disclosed, s)
  }

  lemma KnowledgeIsSafe(k: Keys, a: Account, disclosed: set<Str>, t: Term)
    requires Represents(k, a) && a.Account? && t in Knowledge(k, disclosed, Secrets(a))
    ensures Safe(t, Hidden(a, disclosed))
  {
    if Stored(k, t) {
      StoredEnrolment(k, a, t);
      if t.Encrypted? && t.key.t.text !in Hidden(a, disclosed) {
        LeadsOn(a, disclosed, t.key.t.text);
      }
    } else if t.text in disclosed {
      assert t.text in Within(a, disclosed, 0);
    }
  }

  /** After every history, from the records, any disclosed strings and whatever is no secret of the
      account, the adversary learns exactly the strings that the disclosed ones lead to, secret by
      secret. */
  lemma SecretsLeakExactly(history: seq<Change>, disclosed: set<Str>, x: Str)
    requires AccountAfter(history).Account?
    ensures var a := AccountAfter(history);
      (x !in Secrets(a) || LeadsTo(a, disclosed, x))
      <==> Learns(Knowledge(Replay(history), disclosed, Secrets(a)), x)
  {
    var a, k := AccountAfter(history), Replay(history);
    HistoryRepresents(history);
    var known := Knowledge(k, disclosed, Secrets(a));
    if x !in Secrets(a) {
      LearnsGiven(known, x);
    } else if n: nat :| x in Within(a, disclosed, n) {
      WhatLeadsIsLearnt(k, a, disclosed, known, n, x);
    } else if d :| StartsFrom(d, known) && Yield(d) == Some(Atom(x)) {
      forall t | t in known ensures Safe(t, Hidden(a, disclosed)) {
        KnowledgeIsSafe(k, a, disclosed, t);
      }
      OnlySafeTerms(d, known, Hidden(a, disclosed));
    }
  }

  /** Knowing the main password discloses neither the intermediate key nor any secondary password:
      after every history, some of them can be learnt from the records and the main password exactly
      when the main password is itself one of them; and then those it leads to. */
  lemma MainDisclosesNothing(history: seq<Change>)
    requires AccountAfter(history).Account?
    ensures var a := AccountAfter(history);
      var secrets := {a.ik} + SecondaryPasswords(a);
      var known := Knowledge(Replay(history), {a.main}, secrets);
      && ((exists x :: x in secrets && Learns(known, x)) <==> a.main in secrets)
      && (forall x :: x in secrets ==> (Learns(known, x) <==> LeadsTo(a, {a.main}, x)))
  {
    var a, k := AccountAfter(history), Replay(history);
    var secrets := {a.ik} + SecondaryPasswords(a);
    var known := Knowledge(k, {a.main}, secrets);
    assert known == Knowledge(k, {a.main}, Secrets(a));
    forall x | x in secrets ensures Learns(known, x) <==> LeadsTo(a, {a.main}, x) {
      SecretsLeakExactly(history, {a.main}, x);
    }
    if a.main in secrets {
      LearnsGiven(known, a.main);
    } else {
      forall n ensures Within(a, {a.main}, n) == {a.main} {
        LeadsNowhere(a, {a.main}, n);
      }
    }
  }

  /** Knowing the intermediate key as well discloses no secondary password, except when the main
      password or the intermediate key is itself one of them; and then those they lead to. */
  lemma IntermediateKeyDisclosesNoSecondary(history: seq<Change>)
    requires AccountAfter(history).Account?
    ensures var a := AccountAfter(history);
      var secrets := SecondaryPasswords(a);
      var known := Knowledge(Replay(history), {a.main, a.ik}, secrets);
      && ((exists x :: x in secrets && Learns(known, x)) <==> a.main in secrets || a.ik in secrets)
      && (forall x :: x in secrets ==> (Learns(known, x) <==> LeadsTo(a, {a.main, a.ik}, x)))
  {
    var a, k := AccountAfter(history), Replay(history);
    var secrets, disclosed := SecondaryPasswords(a), {a.main, a.ik};
    var known := Knowledge(k, disclosed, secrets);
    assert known == Knowledge(k, disclosed, Secrets(a));
    forall x | x in secrets ensures Learns(known, x) <==> LeadsTo(a, disclosed, x) {
      SecretsLeakExactly(history, disclosed, x);
    }
    if a.main in secrets {
      LearnsGiven(known, a.main);
    } else if a.ik in secrets {
      LearnsGiven(known, a.ik);
    } else {
      forall n ensures Within(a, disclosed, n) == disclosed {
        LeadsNowhere(a, disclosed, n);
      }
    }
  }

  /** A disclosed intermediate key discloses the main password, also every one set later: changing
      the main password does not help. */
  lemma IntermediateKeyDisclosesEveryMain(history: seq<Change>, more: seq<Change>, known: iset<Term>)
    requires AccountAfter(history).Account?
    requires Atom(AccountAfter(history).ik) in known
    requires forall t :: Stored(Replay(history + more), t) ==> t in known
    ensures AccountAfter(history + more).Account? && Learns(known, AccountAfter(history + more).main)
  {
    IntermediateKeyFixed(history, more);
    HistoryRepresents(history + more);
    var a, m := AccountAfter(history + more), Replay(history + more).main.value;
    assert Stored(Replay(history + more), OfCiphertext(m.encMain));
    LearnsGiven(known, a.ik);
    LearnsSealed(known, a.ik, m.ikSalt, m.encMainNonce, a.main);
  }
}
