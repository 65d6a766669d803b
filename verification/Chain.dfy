/** From configuring a mount to logging in with it: the configuration is stored, its digest is
    authorized by one process and checked by another, which meets the premounts in an order of its own
    (`src/storage.rs:316-377`, `src/mount.rs:116-141`, `src/pam/session.rs:247-263`). */
module Chain {
  import opened Prelude
  import opened Mounts
  import opened Digest
  import opened MountTable
  import opened AuthFile
  import opened Storage
  import opened Sessions
  import opened SessionRuns
  import opened SessionSteps
  import opened MountRuns
  import opened Tokens
  import opened Exchange
  import C = Cipher
  import F = Frame

  /** The world after root authorized a configuration for a user, having met its premounts in `order`. */
  ghost function Authorized(p: Params, w: World, username: Str, cfg: MountPoints, order: seq<Str>): World
    requires Enumerates(order, cfg.mounts)
  {
    Step(p, w, Authorize(username, DigestOf(p.digest, cfg, order))).0
  }

  /** After authorizing a configuration with at most one premount the gate is open to it, in whatever
      order a login meets the premounts. */
  lemma GateOpens(p: Params, w: World, username: Str, cfg: MountPoints, order: seq<Str>, login: Loaded)
    requires |cfg.mounts| <= 1 && Enumerates(order, cfg.mounts)
    requires login.Valid() && login.cfg == cfg && Effective(w.file).Some?
    ensures GateOpen(p, Authorized(p, w, username, cfg, order).file, username, login)
  {
    var h := DigestOf(p.digest, cfg, order);
    OneOrder(cfg.mounts, order, login.hashOrder);
    AuthorizeExact(w.file, username, h, username, h);
  }

  /** Once open, the gate stays open through any calls. */
  lemma GateStaysOpen(p: Params, w: World, calls: seq<Call>, username: Str, login: Loaded)
    requires Valid(calls) && login.Valid() && GateOpen(p, w.file, username, login)
    ensures GateOpen(p, After(p, w, calls).file, username, login)
  {
    GrantsLast(p, w, calls, username, DigestOf(p.digest, login.cfg, login.hashOrder));
  }

  /** A configuration with at most one premount, once stored, is read back unchanged by every process;
      once one of them had its digest authorized, the gate lets the user in for good, whatever calls
      come between and whatever orders the processes iterate in. */
  lemma AuthorizeThenLogin(
      p: Params, c: Codec, file: Option<Str>, mounts: Ordered, owner: Owner,
      w: World, username: Str, order: seq<Str>, between: seq<Call>, login: Loaded)
    requires Storage.Lawful(c) && mounts.Valid()
    requires |mounts.cfg.mounts| <= 1
    requires StoreMounts(c, file, Some(mounts), owner).1.Ok?
    requires Enumerates(order, mounts.cfg.mounts) && login.Valid() && Valid(between)
    requires LoadMounts(c, StoreMounts(c, file, Some(mounts), owner).0) == Ok(Some(login.cfg))
    requires Effective(w.file).Some?
    ensures LoadMounts(c, StoreMounts(c, file, Some(mounts), owner).0) == Ok(Some(mounts.cfg))
    ensures GateOpen(p, After(p, Authorized(p, w, username, mounts.cfg, order), between).file, username, login)
  {
    MountsRoundTrip(c, file, Some(mounts), owner);
    GateOpens(p, w, username, mounts.cfg, order, login);
    GateStaysOpen(p, Authorized(p, w, username, mounts.cfg, order), between, username, login);
  }

  /** The gate lets every later login in, in whatever orders the two processes iterate. */
  ghost predicate EveryOrderLetsIn(p: Params, f: File, username: Str, cfg: MountPoints) {
    forall authorized, l: Loaded :: Enumerates(authorized, cfg.mounts) && l.cfg == cfg && l.Valid()
      ==> LetsIn(p, f, username, cfg, authorized, l)
  }

  ghost predicate LetsIn(p: Params, f: File, username: Str, cfg: MountPoints, authorized: seq<Str>, l: Loaded)
    requires Enumerates(authorized, cfg.mounts) && l.Valid()
  {
    GateOpen(p, AfterAuthorize(f, username, DigestOf(p.digest, cfg, authorized)).0, username, l)
  }

  /** Authorizing once is enough for every later login exactly when the configuration has at most one
      premount: with two, some login meets them in another order and is refused. (For strings clear of
      the separators, a digest that does not collide on this configuration, and a user for whom nothing
      was authorized yet.) */
  lemma AuthorizingOnceSufficesExactly(p: Params, f: File, username: Str, cfg: MountPoints)
    requires SeparableConfig(cfg) && NoSwapCollides(p.digest, cfg)
    requires Effective(f).Some? && forall h :: !Grants(f, username, h)
    ensures EveryOrderLetsIn(p, f, username, cfg) <==> |cfg.mounts| <= 1
  {
    if |cfg.mounts| <= 1 {
      forall authorized, l: Loaded | Enumerates(authorized, cfg.mounts) && l.cfg == cfg && l.Valid()
        ensures LetsIn(p, f, username, cfg, authorized, l)
      {
        var h := DigestOf(p.digest, cfg, authorized);
        OneOrder(cfg.mounts, authorized, l.hashOrder);
        AuthorizeExact(f, username, h, username, h);
      }
    } else {
      var o, o' := TwoDigests(p.digest, cfg);
      var h, h' := DigestOf(p.digest, cfg, o), DigestOf(p.digest, cfg, o');
      AuthorizeExact(f, username, h, username, h');
      assert !LetsIn(p, f, username, cfg, o, Loaded(cfg, o', o'));
    }
  }

  /** The whole way: a configuration with at most one premount is authorized, a client obtains a
      prelude and encrypts the password, and others make any calls in between; then opening the session
      of a known user succeeds, provided the kernel grants every mount. */
  lemma FirstLogin(
      p: Params, w: World, username: Str, cfg: MountPoints, order: seq<Str>,
      before: seq<Call>, initiate: Call, between: seq<Call>, password: Str, rnd: F.Randomness, open: Call)
    requires C.Lawful(p.suite) && |cfg.mounts| <= 1 && Enumerates(order, cfg.mounts)
    requires Effective(w.file).Some? && Valid(before) && initiate.Valid() && Valid(between)
    requires open.Valid() && Asks(open, username, cfg)
    requires var ready := After(p, Authorized(p, w, username, cfg, order), before);
      Exchanged(p, ready, initiate, between, password, rnd, open)
    requires KernelAgrees(open)
    ensures var ready := After(p, Authorized(p, w, username, cfg, order), before);
      Step(p, After(p, Step(p, ready, initiate).0, between), open).1
        == Replied(Success, open.found.value.uid, open.found.value.gid)
  {
    var authorized, login := Authorized(p, w, username, cfg, order), open.stored.value.value;
    var ready := After(p, authorized, before);
    GateOpens(p, w, username, cfg, order, login);
    GateStaysOpen(p, authorized, before, username, login);
    GateStaysOpen(p, Step(p, ready, initiate).0, between, username, login);
    HonestExchange(p, ready, initiate, between, password, rnd, open);
    ApprovedIsGate(p, After(p, Step(p, ready, initiate).0, between), open);
  }

  /** The open names a known user and finds the configuration. */
  ghost predicate Asks(open: Call, username: Str, cfg: MountPoints) {
    && open.Open? && open.username == username && open.found.Some?
    && open.stored.Some? && open.stored.value.Some? && open.stored.value.value.cfg == cfg
  }

  /** The frame of `open` was made from the prelude that `initiate` issued, and no call in between
      took or replaced the token. */
  ghost predicate Exchanged(
      p: Params, w: World, initiate: Call, between: seq<Call>, password: Str, rnd: F.Randomness, open: Call)
    requires initiate.Valid() && Valid(between) && open.Open?
  {
    && Issues(p, w, initiate)
    && Undisturbed(p, Step(p, w, initiate).0, between, p.tokenHash(initiate.token))
    && |rnd.key| == C.KEY_LEN
    && F.EncryptFrame(p.suite, Step(p, w, initiate).1.prelude, password, rnd) == Ok(open.frame)
  }
}
