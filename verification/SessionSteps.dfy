/** What each call of the session service answers and what it leaves behind, said of the world and the
    environment alone: which condition leads to which code (`src/pam/session.rs:136-330`). */
module SessionSteps {
  import opened Prelude
  import opened Cipher
  import opened Frame
  import opened Mounts
  import opened MountTable
  import opened AuthFile
  import opened Sessions
  import opened SessionRuns

  /** The key a call can use: one that is ready, or else the one that loading delivers. */
  ghost function KeyFor(w: World, joined: Option<PrivKey>): Option<PrivKey> {
    if w.service.privKey.Ready? then Some(w.service.privKey.key) else joined
  }

  /** A key that could be used is ready from then on. */
  ghost predicate KeyKept(w: World, w': World, joined: Option<PrivKey>) {
    if KeyFor(w, joined).Some? then w'.service.privKey == Ready(KeyFor(w, joined).value)
    else w'.service.privKey == w.service.privKey == InProgress
  }

  /** A prelude is issued exactly when there is a key, it can be written as PEM, and the prelude can be
      serialized, whatever other tokens are outstanding. It carries the public key and the token, which
      is stored under its hash. Nothing else changes. */
  lemma InitiateExact(p: Params, w: World, joined: Option<PrivKey>, token: Str, serialized: bool)
    ensures var (w', r) := Step(p, w, Initiate(joined, token, serialized));
      var key := KeyFor(w, joined);
      && (r.Issued? <==> key.Some? && p.suite.exportPem(p.suite.publicOf(key.value)).Some? && serialized)
      && (r.Issued? ==>
            && p.suite.exportPem(p.suite.publicOf(key.value)) == Some(r.prelude.pubPem)
            && r.prelude.oneTimeToken == token)
      && (!r.Issued? ==> r == NotIssued)
      && w'.service.tokens == (if r.Issued? then w.service.tokens[p.tokenHash(token) := token] else w.service.tokens)
      && KeyKept(w, w', joined)
      && w'.service.sessions == w.service.sessions && w'.file == w.file && w'.depth == w.depth
  {
  }

  // ----- opening

  /** Opening for an unknown user fails and changes nothing. For a user with a session it succeeds,
      whatever the frame holds, and only counts one up. */
  lemma OpenWithoutFrame(p: Params, w: World, c: Call)
    requires c.Valid() && c.Open?
    ensures c.found.None? ==> Step(p, w, c) == (w, Replied(CannotIdentifyUser, 0, 0))
    ensures c.found.Some? && c.found.value.name in w.service.sessions ==>
      var (w', r) := Step(p, w, c);
      var user := c.found.value;
      && r == Replied(Success, user.uid, user.gid)
      && w'.service.sessions.Keys == w.service.sessions.Keys
      && w'.service.sessions - {user.name} == w.service.sessions - {user.name}
      && w'.service.sessions[user.name].mounts == w.service.sessions[user.name].mounts
      && w'.service.sessions[user.name].count == (w.service.sessions[user.name].count + 1) % U64
      && w'.service.tokens == w.service.tokens && w'.service.privKey == w.service.privKey
      && w'.file == w.file && w'.depth == w.depth
  {
  }

  /** The call names a known user without a session, so its frame is looked at. */
  ghost predicate Presenting(w: World, c: Call) {
    c.Open? && c.found.Some? && c.found.value.name !in w.service.sessions
  }

  /** The frame decrypts to `Frame.Plain`. */
  ghost predicate Decrypts(p: Params, w: World, c: Call)
    requires c.Open?
  {
    KeyFor(w, c.joined).Some? && DecryptFrame(p.suite, KeyFor(w, c.joined).value, c.frame).Plain?
  }

  /** The token of a frame that decrypts. */
  ghost function TokenOf(p: Params, w: World, c: Call): Str
    requires c.Open? && Decrypts(p, w, c)
  {
    DecryptFrame(p.suite, KeyFor(w, c.joined).value, c.frame).otp
  }

  /** The frame decrypts and its token is outstanding. */
  ghost predicate Admits(p: Params, w: World, c: Call)
    requires c.Open?
  {
    && Decrypts(p, w, c)
    && var t := TokenOf(p, w, c);
       p.tokenHash(t) in w.service.tokens && w.service.tokens[p.tokenHash(t)] == t
  }

  /** Without a configuration nothing needs approval; with one, its digest must be on the list of the
      user, under the name the client gave. */
  ghost predicate Approved(p: Params, w: World, c: Call)
    requires c.Valid() && c.Open? && c.stored.Some?
  {
    c.stored.value.Some? ==>
      var l := c.stored.value.value;
      && w.file.Json? && c.username in w.file.auth.authorizations
      && Hex(p.digest(Preimage(l.cfg.home, Listing(l.cfg, l.hashOrder)))) in w.file.auth.authorizations[c.username]
  }

  /** The kernel grants every mount that is needed. */
  ghost predicate KernelAgrees(c: Call)
    requires c.Open? && c.stored.Some?
  {
    forall i: nat :: i < Needed(c.stored.value) ==> c.oracle(i)
  }

  lemma ApprovedIsGate(p: Params, w: World, c: Call)
    requires c.Valid() && c.Open? && c.stored.Some? && c.stored.value.Some?
    ensures Approved(p, w, c) <==> GateOpen(p, w.file, c.username, c.stored.value.value)
  {
    var l := c.stored.value.value;
    GrantsExact(w.file, c.username, DigestOf(p.digest, l.cfg, l.hashOrder));
  }

  /** The first half: the frame is decrypted and its token taken out, whether or not it was the one stored. */
  lemma AdmitExact(p: Params, w: World, c: Call)
    requires c.Open?
    ensures var key := KeyFor(w, c.joined);
      var (s', a) := Admit(p, w.service, c.frame, c.joined);
      && (a.Admitted? <==> Admits(p, w, c))
      && (a.Refused? ==>
            && (a.code == PubKeyError <==> key.None?)
            && (a.code == DataDecryptionFailed <==> key.Some? && DecryptFrame(p.suite, key.value, c.frame).Failed?)
            && (a.code == Unwound <==> key.Some? && DecryptFrame(p.suite, key.value, c.frame).Panicked?)
            && (a.code == EncryptionError <==> Decrypts(p, w, c))
            && a.code in {PubKeyError, DataDecryptionFailed, Unwound, EncryptionError})
      && KeyKept(w, w.(service := s'), c.joined)
      && s'.tokens ==
           (if Decrypts(p, w, c) then w.service.tokens - {p.tokenHash(TokenOf(p, w, c))} else w.service.tokens)
      && s'.sessions == w.service.sessions
  {
  }

  /** The second half: loading, the gate, mounting, and entering the session. */
  lemma MountExact(p: Params, w: World, c: Call)
    requires c.Valid() && Presenting(w, c)
    ensures var user := c.found.value;
      var (w', code) := MountStep(p, w, c.username, user, c.stored, c.oracle);
      && (code == CannotLoadUserMountError <==> c.stored.None?)
      && (code == UnauthorizedMount <==> c.stored.Some? && !Approved(p, w, c))
      && (code == MountError <==> c.stored.Some? && Approved(p, w, c) && !KernelAgrees(c))
      && (code == Success <==> c.stored.Some? && Approved(p, w, c) && KernelAgrees(c))
      && code in {CannotLoadUserMountError, UnauthorizedMount, MountError, Success}
      && w'.service.privKey == w.service.privKey && w'.service.tokens == w.service.tokens
      && w'.file ==
           (if c.stored.Some? && c.stored.value.Some? && w.file == Missing then Json(MountAuth(map[])) else w.file)
      && (if code == Success then Entered(w, w', c) else SameSessions(w, w'))
  {
    if c.stored.Some? {
      MountedExactly(c.stored.value, c.found.value, c.oracle);
      if c.stored.value.Some? {
        ApprovedIsGate(p, w, c);
      }
    }
  }

  /** The user has a session, counted once, with the mounts made for it; no other session changed. */
  ghost predicate Entered(w: World, w': World, c: Call)
    requires c.Valid() && Presenting(w, c)
  {
    var name := c.found.value.name;
    && c.stored.Some?
    && w'.service.sessions.Keys == w.service.sessions.Keys + {name}
    && w'.service.sessions - {name} == w.service.sessions
    && w'.service.sessions[name].count == 1
    && MadeFor(w'.service.sessions[name].mounts, c.stored.value, c.found.value)
    && w'.depth == w.depth + Targets(w'.service.sessions[name].mounts)
  }

  ghost predicate SameSessions(w: World, w': World) {
    w'.service.sessions == w.service.sessions && w'.depth == w.depth
  }

  /** The reply to a frame of a known user without a session: the first condition that fails decides,
      and success means that none does. Only success tells the user's ids. */
  lemma FrameReply(p: Params, w: World, c: Call)
    requires c.Valid() && Presenting(w, c)
    ensures var key, r := KeyFor(w, c.joined), Step(p, w, c).1;
      && r.Replied?
      && (r.code == PubKeyError <==> key.None?)
      && (r.code == DataDecryptionFailed <==> key.Some? && DecryptFrame(p.suite, key.value, c.frame).Failed?)
      && (r.code == Unwound <==> key.Some? && DecryptFrame(p.suite, key.value, c.frame).Panicked?)
      && (r.code == EncryptionError <==> Decrypts(p, w, c) && !Admits(p, w, c))
      && (r.code == CannotLoadUserMountError <==> Admits(p, w, c) && c.stored.None?)
      && (r.code == UnauthorizedMount <==> Admits(p, w, c) && c.stored.Some? && !Approved(p, w, c))
      && (r.code == MountError <==>
            Admits(p, w, c) && c.stored.Some? && Approved(p, w, c) && !KernelAgrees(c))
      && (r.code == Success <==>
            Admits(p, w, c) && c.stored.Some? && Approved(p, w, c) && KernelAgrees(c))
      && (r.uid, r.gid) == (if r.code == Success then (c.found.value.uid, c.found.value.gid) else (0, 0))
  {
    AdmitExact(p, w, c);
    MountExact(p, AfterAdmission(p, w, c), c);
  }

  ghost function AfterAdmission(p: Params, w: World, c: Call): World
    requires c.Open?
  {
    w.(service := Admit(p, w.service, c.frame, c.joined).0)
  }

  /** What a frame of a known user without a session leaves behind. Its token is taken out; the
      authorization file is looked at, and so created, once there is a configuration to approve; and
      only success enters a session. */
  lemma FrameEffect(p: Params, w: World, c: Call)
    requires c.Valid() && Presenting(w, c)
    ensures var (w', r) := Step(p, w, c);
      && KeyKept(w, w', c.joined)
      && w'.service.tokens ==
           (if Decrypts(p, w, c) then w.service.tokens - {p.tokenHash(TokenOf(p, w, c))} else w.service.tokens)
      && w'.file ==
           (if Admits(p, w, c) && c.stored.Some? && c.stored.value.Some? && w.file == Missing
            then Json(MountAuth(map[])) else w.file)
      && (if r.code == Success then Entered(w, w', c) else SameSessions(w, w'))
  {
    AdmitExact(p, w, c);
    MountExact(p, AfterAdmission(p, w, c), c);
  }

  // ----- closing

  /** Closing fails for an unknown user and for one without a session, and then changes nothing. It
      succeeds otherwise: the last close removes the entry and unmounts, any other counts one down. */
  lemma CloseExact(p: Params, w: World, c: Call)
    requires c.Close?
    ensures var (w', r) := Step(p, w, c);
      if c.found.None? then (w', r) == (w, Replied(CannotIdentifyUser, 0, 0))
      else if c.found.value.name !in w.service.sessions then (w', r) == (w, Replied(SessionAlreadyClosed, 0, 0))
      else
        var name := c.found.value.name;
        var session := w.service.sessions[name];
        && r == Replied(Success, 0, 0)
        && w'.service.tokens == w.service.tokens && w'.service.privKey == w.service.privKey && w'.file == w.file
        && w'.service.sessions - {name} == w.service.sessions - {name}
        && (name in w'.service.sessions <==> session.count != 1)
        && (session.count >= 2 ==> w'.service.sessions[name] == UserSession(session.mounts, session.count - 1))
        && w'.depth == (if session.count == 1 then w.depth - Targets(session.mounts) else w.depth)
  {
    if c.found.Some? && c.found.value.name in w.service.sessions {
      Wrap(w.service.sessions[c.found.value.name].count);
    }
  }

  // ----- the authorization file

  /** Authorizing is accepted unless the file cannot be read, grants that pair and no other, and
      touches nothing but the file. A check answers whether the pair is listed. */
  lemma AuthorizationExact(p: Params, w: World, username: Str, hash: Str)
    ensures var (w', r) := Step(p, w, Call.Authorize(username, hash));
      && r == Answered(w.file.Missing? || w.file.Json?)
      && w'.service == w.service && w'.depth == w.depth
      && (forall u, h :: Listed(w'.file, u, h)
            <==> Listed(w.file, u, h) || (r.answer && u == username && h == hash))
    ensures Step(p, w, Call.Check(username, hash)) ==
      (w.(file := if w.file == Missing then Json(MountAuth(map[])) else w.file), Answered(Listed(w.file, username, hash)))
  {
    forall u, h
      ensures Listed(Step(p, w, Call.Authorize(username, hash)).0.file, u, h) <==>
        Listed(w.file, u, h) || ((w.file.Missing? || w.file.Json?) && u == username && h == hash)
    {
      AuthorizeExact(w.file, username, hash, u, h);
    }
  }
}
