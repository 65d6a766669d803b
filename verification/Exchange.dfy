/** The honest exchange of `open_session_for_user` (`src/lib.rs`): obtain a prelude, encrypt the
    password, open the session, while other clients make any calls in between. */
module Exchange {
  import opened Prelude
  import opened Cipher
  import opened Frame
  import opened Sessions
  import opened SessionRuns
  import opened SessionSteps
  import opened Tokens
  import L = TokenLedger

  /** No call of the run takes the token stored under `h`, or issues another one under it. */
  ghost predicate Undisturbed(p: Params, w: World, calls: seq<Call>, h: Word)
    requires Valid(calls)
  {
    forall i :: 0 <= i < |calls| ==> LeavesAlone(p, EventsOf(p, w, calls)[i], h)
  }

  ghost predicate LeavesAlone(p: Params, e: L.Event, h: Word) {
    !e.Nothing? ==> p.tokenHash(e.token) != h
  }

  /** A ready key stays for good. */
  lemma StepKeepsKey(p: Params, w: World, c: Call)
    requires c.Valid() && w.service.privKey.Ready?
    ensures Step(p, w, c).0.service.privKey == w.service.privKey
  {
  }

  lemma {:induction false} KeyIsFixed(p: Params, w: World, calls: seq<Call>)
    requires Valid(calls) && w.service.privKey.Ready?
    ensures After(p, w, calls).service.privKey == w.service.privKey
  {
    if calls != [] {
      var n := |calls| - 1;
      KeyIsFixed(p, w, calls[..n]);
      StepKeepsKey(p, After(p, w, calls[..n]), calls[n]);
    }
  }

  lemma UndisturbedPrefix(p: Params, w: World, calls: seq<Call>, h: Word)
    requires Valid(calls) && calls != [] && Undisturbed(p, w, calls, h)
    ensures Undisturbed(p, w, calls[..|calls| - 1], h)
    ensures LeavesAlone(p, EventOf(p, After(p, w, calls[..|calls| - 1]), calls[|calls| - 1]), h)
  {
    var n := |calls| - 1;
    var events := EventsOf(p, w, calls);
    forall i | 0 <= i < n ensures LeavesAlone(p, EventsOf(p, w, calls[..n])[i], h) {
      assert events[i] == EventsOf(p, w, calls[..n])[i];
      assert LeavesAlone(p, events[i], h);
    }
    assert LeavesAlone(p, events[n], h);
  }

  lemma LiveLasts(p: Params, w: World, c: Call, t: Str)
    requires c.Valid() && L.Live(p.tokenHash, w.service.tokens, t)
    requires LeavesAlone(p, EventOf(p, w, c), p.tokenHash(t))
    ensures L.Live(p.tokenHash, Step(p, w, c).0.service.tokens, t)
  {
    StepIsEvent(p, w, c);
  }

  /** A stored token stays stored through calls that leave its key alone. */
  lemma {:induction false} TokenIsKept(p: Params, w: World, calls: seq<Call>, t: Str)
    requires Valid(calls) && L.Live(p.tokenHash, w.service.tokens, t)
    requires Undisturbed(p, w, calls, p.tokenHash(t))
    ensures L.Live(p.tokenHash, After(p, w, calls).service.tokens, t)
  {
    if calls != [] {
      var n := |calls| - 1;
      UndisturbedPrefix(p, w, calls, p.tokenHash(t));
      TokenIsKept(p, w, calls[..n], t);
      LiveLasts(p, After(p, w, calls[..n]), calls[n], t);
    }
  }

  /** What the service decides about a user whose frame has been accepted. */
  ghost function Decision(p: Params, w: World, c: Call): Code
    requires c.Valid() && c.Open?
  {
    if c.found.None? then CannotIdentifyUser
    else if c.found.value.name in w.service.sessions then Success
    else if c.stored.None? then CannotLoadUserMountError
    else if !Approved(p, w, c) then UnauthorizedMount
    else if !KernelAgrees(c) then MountError
    else Success
  }

  /** The reply that carries a decision: the user's ids on success, zeros otherwise. */
  ghost function DecisionReply(p: Params, w: World, c: Call): Reply
    requires c.Valid() && c.Open?
  {
    var code := Decision(p, w, c);
    if code.Success? then Replied(code, c.found.value.uid, c.found.value.gid) else Replied(code, 0, 0)
  }

  /** An honest exchange survives any interleaving. Once a prelude is issued, and as long as nobody
      takes or overwrites its token, the frame `encrypt` makes from it is decrypted and its token
      accepted, whatever calls come between: the password reaches the service without its zero
      octets, and the reply depends on the user, the configuration and the kernel alone. */
  lemma HonestExchange(
    p: Params, w: World, initiate: Call, between: seq<Call>, password: Str, rnd: Randomness, open: Call)
    requires Cipher.Lawful(p.suite)
    requires initiate.Valid() && Issues(p, w, initiate)
    requires Valid(between)
    requires Undisturbed(p, Step(p, w, initiate).0, between, p.tokenHash(initiate.token))
    requires open.Valid() && open.Open? && |rnd.key| == KEY_LEN
    requires EncryptFrame(p.suite, Step(p, w, initiate).1.prelude, password, rnd) == Ok(open.frame)
    ensures var w' := After(p, Step(p, w, initiate).0, between);
      && Admit(p, w'.service, open.frame, open.joined).1 == Admitted(initiate.token, NonZero(password))
      && Step(p, w', open).1 == DecisionReply(p, w', open)
  {
    var w1 := Step(p, w, initiate).0;
    var prelude := Step(p, w, initiate).1.prelude;
    var key := w1.service.privKey.key;
    assert prelude.oneTimeToken == initiate.token;
    assert p.suite.importPem(prelude.pubPem) == Some(p.suite.publicOf(key)) by {
      assert p.suite.exportPem(p.suite.publicOf(key)) == Some(prelude.pubPem);
    }
    FrameRoundTrip(p.suite, key, prelude, password, rnd);
    KeyIsFixed(p, w1, between);
    TokenIsKept(p, w1, between, initiate.token);
    var w' := After(p, w1, between);
    AdmittedDecides(p, w', open);
  }

  /** The reply to an admitted frame. */
  lemma AdmittedDecides(p: Params, w: World, open: Call)
    requires open.Valid() && open.Open?
    requires Admit(p, w.service, open.frame, open.joined).1.Admitted?
    ensures Step(p, w, open).1 == DecisionReply(p, w, open)
  {
    OpenWithoutFrame(p, w, open);
    if Presenting(w, open) {
      AdmitExact(p, w, open);
      FrameReply(p, w, open);
    }
  }

  /** The client gives up before opening exactly when the password is longer than 255 octets or the
      RSA library refuses the key; in particular never for a prelude of this service otherwise. */
  lemma ClientEncrypts(p: Params, w: World, initiate: Call, password: Str, rnd: Randomness)
    requires Cipher.Lawful(p.suite)
    requires initiate.Valid() && Issues(p, w, initiate)
    requires |initiate.token| == FIELD && |rnd.nonce| == NONCE_LEN
    ensures var key := Step(p, w, initiate).0.service.privKey;
      && key.Ready?
      && (EncryptFrame(p.suite, Step(p, w, initiate).1.prelude, password, rnd).Ok? <==>
            |password| <= 255 && p.suite.rsaEncrypt(p.suite.publicOf(key.key), rnd.seed, rnd.key).Some?)
  {
    var key := Step(p, w, initiate).0.service.privKey.key;
    assert p.suite.exportPem(p.suite.publicOf(key)) == Some(Step(p, w, initiate).1.prelude.pubPem);
    EncryptSucceedsExactly(p.suite, Step(p, w, initiate).1.prelude, password, rnd);
  }
}
