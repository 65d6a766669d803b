/** The session service: `src/pam/session.rs`. Every call runs to its end before the next one starts,
    since the methods take `&mut self`. */
module Sessions {
  import opened Prelude
  import opened Cipher
  import opened Frame
  import opened Mounts
  import opened MountTable
  import opened AuthFile

  /** The libraries the service depends on, each an arbitrary function: the cipher suite, the hasher
      that maps a token to its key in the token map, and the digest of mount configurations. */
  datatype Params = Params(suite: Suite, tokenHash: Str -> Word, digest: Str -> Word)

  datatype KeyStatus = Ready(key: PrivKey) | InProgress

  /** `count` is a `usize`. */
  datatype UserSession = UserSession(mounts: seq<Mount>, count: Word)

  /** The fields of `Sessions`. */
  datatype Service = Service(privKey: KeyStatus, tokens: map<Word, Str>, sessions: map<Str, UserSession>)

  /** The service, the authorization file and the mounts in effect. */
  datatype World = World(service: Service, file: File, depth: multiset<Str>)

  /** The `ServiceOperationResult` values the session service returns. A call that panics unwinds
      without a reply: `Unwound`. */
  datatype Code =
    | Success
    | PubKeyError
    | DataDecryptionFailed
    | CannotLoadUserMountError
    | MountError
    | SessionAlreadyClosed
    | CannotIdentifyUser
    | EncryptionError
    | UnauthorizedMount
    | Unwound

  datatype Reply =
    | Issued(prelude: SessionPrelude)
    | NotIssued
    | Replied(code: Code, uid: nat, gid: nat)
    | Answered(answer: bool)

  /** A call, with what the environment answers while it runs: the outcome of loading the key,
      the random token, the user database, the stored mount configuration and the kernel. */
  datatype Call =
    | Initiate(joined: Option<PrivKey>, token: Str, serialized: bool)
    | Open(username: Str, found: Option<User>, frame: Str, joined: Option<PrivKey>,
           stored: Option<Option<Loaded>>, oracle: Oracle)
    | Close(username: Str, found: Option<User>)
    | Authorize(username: Str, hash: Str)
    | Check(username: Str, hash: Str)
  {
    ghost predicate Valid() {
      Open? ==> |frame| <= VEC_MAX && (stored.Some? && stored.value.Some? ==> stored.value.value.Valid())
    }
  }

  // ----- what each call must do

  /** `fetch_priv_key`: a key that is ready stays; otherwise loading it may deliver it. */
  function Fetch(status: KeyStatus, joined: Option<PrivKey>): (KeyStatus, Option<PrivKey>) {
    match status
    case Ready(key) => (status, Some(key))
    case InProgress =>
      match joined
      case None => (status, None)
      case Some(key) => (Ready(key), Some(key))
  }

  /** `initiate_session`. */
  function InitiateStep(p: Params, s: Service, joined: Option<PrivKey>, token: Str, serialized: bool)
    : (Service, Reply)
  {
    var (status, key) := Fetch(s.privKey, joined);
    var s' := s.(privKey := status);
    if key.None? then (s', NotIssued)
    else match p.suite.exportPem(p.suite.publicOf(key.value))
      case None => (s', NotIssued)
      case Some(pem) =>
        if !serialized then (s', NotIssued)
        else (s'.(tokens := s'.tokens[p.tokenHash(token) := token]), Issued(SessionPrelude(pem, token)))
  }

  datatype Admission = Refused(code: Code) | Admitted(otp: Str, password: Str)

  /** The first half of `open_user_session` for a user without a session: decrypt the frame and
      consume its token. A token is consumed even when another one was stored under the same key. */
  function Admit(p: Params, s: Service, frame: Str, joined: Option<PrivKey>): (Service, Admission) {
    var (status, key) := Fetch(s.privKey, joined);
    var s' := s.(privKey := status);
    if key.None? then (s', Refused(PubKeyError))
    else match DecryptFrame(p.suite, key.value, frame)
      case Failed(_) => (s', Refused(DataDecryptionFailed))
      case Panicked => (s', Refused(Unwound))
      case Plain(otp, password) =>
        var h := p.tokenHash(otp);
        if h !in s'.tokens then (s', Refused(EncryptionError))
        else
          var consumed := s'.(tokens := s'.tokens - {h});
          if s'.tokens[h] != otp then (consumed, Refused(EncryptionError))
          else (consumed, Admitted(otp, password))
  }

  /** The gate before mounting: a configuration must have been authorized under the name the client gave. */
  predicate GateOpen(p: Params, f: File, username: Str, l: Loaded)
    requires forall dir :: dir in l.hashOrder ==> dir in l.cfg.mounts
  {
    Grants(f, username, DigestOf(p.digest, l.cfg, l.hashOrder))
  }

  /** The second half of `open_user_session` for a user without a session: load, gate, mount, enter. */
  ghost function MountStep(
    p: Params, w: World, username: Str, user: User, stored: Option<Option<Loaded>>, oracle: Oracle): (World, Code)
    requires stored.Some? && stored.value.Some? ==> stored.value.value.Valid()
  {
    if stored.None? then (w, CannotLoadUserMountError)
    else
      var loaded := stored.value;
      var file := if loaded.Some? then AfterRead(w.file) else w.file;
      if loaded.Some? && !GateOpen(p, w.file, username, loaded.value) then (w.(file := file), UnauthorizedMount)
      else
        var mounts := Mounted(loaded, user, oracle);
        if mounts == [] then (w.(file := file), MountError)
        else
          var sessions := w.service.sessions[user.name := UserSession(mounts, 1)];
          (World(w.service.(sessions := sessions), file, w.depth + Targets(mounts)), Success)
  }

  /** `open_user_session`. */
  ghost function OpenStep(
    p: Params, w: World, username: Str, found: Option<User>, frame: Str, joined: Option<PrivKey>,
    stored: Option<Option<Loaded>>, oracle: Oracle): (World, Reply)
    requires stored.Some? && stored.value.Some? ==> stored.value.value.Valid()
  {
    if found.None? then (w, Replied(CannotIdentifyUser, 0, 0))
    else
      var user := found.value;
      if user.name in w.service.sessions then
        var session := w.service.sessions[user.name];
        var session' := session.(count := (session.count + 1) % U64);
        (w.(service := w.service.(sessions := w.service.sessions[user.name := session'])),
         Replied(Success, user.uid, user.gid))
      else
        var (service, admission) := Admit(p, w.service, frame, joined);
        var w' := w.(service := service);
        if admission.Refused? then (w', Replied(admission.code, 0, 0))
        else
          var (w'', code) := MountStep(p, w', username, user, stored, oracle);
          (w'', if code.Success? then Replied(Success, user.uid, user.gid) else Replied(code, 0, 0))
  }

  /** `close_user_session`: closing the last session drops, and so unmounts, its mounts. */
  function CloseStep(w: World, found: Option<User>): (World, Reply) {
    if found.None? then (w, Replied(CannotIdentifyUser, 0, 0))
    else if found.value.name !in w.service.sessions then (w, Replied(SessionAlreadyClosed, 0, 0))
    else
      var name := found.value.name;
      var session := w.service.sessions[name];
      var count := (session.count + U64 - 1) % U64;
      if count == 0 then
        (World(w.service.(sessions := w.service.sessions - {name}), w.file, w.depth - Targets(session.mounts)),
         Replied(Success, 0, 0))
      else
        (w.(service := w.service.(sessions := w.service.sessions[name := session.(count := count)])),
         Replied(Success, 0, 0))
  }

  /** One call of any kind. */
  ghost function Step(p: Params, w: World, c: Call): (World, Reply)
    requires c.Valid()
  {
    match c
    case Initiate(joined, token, serialized) =>
      var (service, reply) := InitiateStep(p, w.service, joined, token, serialized);
      (w.(service := service), reply)
    case Open(username, found, frame, joined, stored, oracle) =>
      OpenStep(p, w, username, found, frame, joined, stored, oracle)
    case Close(_, found) => CloseStep(w, found)
    case Authorize(username, hash) =>
      var (file, accepted) := AfterAuthorize(w.file, username, hash);
      (w.(file := file), Answered(accepted))
    case Check(username, hash) => (w.(file := AfterRead(w.file)), Answered(Grants(w.file, username, hash)))
  }

  // ----- the service itself

  /** `Sessions`, with the authorization file it shares and the mounts it makes. */
  class SessionService {
    const params: Params
    const mountsAuth: AuthService
    const table: Table
    var privKey: KeyStatus
    var oneTimeTokens: map<Word, Str>
    var sessions: map<Str, UserSession>

    function View(): World
      reads this, mountsAuth, table
    {
      World(Service(privKey, oneTimeTokens, sessions), mountsAuth.file, table.depth)
    }

    constructor (params: Params, mountsAuth: AuthService, table: Table)
      ensures this.params == params && this.mountsAuth == mountsAuth && this.table == table
      ensures View() == World(Service(InProgress, map[], map[]), mountsAuth.file, table.depth)
    {
      this.params, this.mountsAuth, this.table := params, mountsAuth, table;
      privKey, oneTimeTokens, sessions := InProgress, map[], map[];
    }

    method FetchPrivKey(joined: Option<PrivKey>) returns (key: Option<PrivKey>)
      modifies this`privKey
      ensures (privKey, key) == Fetch(old(privKey), joined)
    {
      match privKey {
        case Ready(k) => key := Some(k);
        case InProgress =>
          key := joined;
          if joined.Some? {
            privKey := Ready(joined.value);
          }
      }
    }

    method InitiateSession(joined: Option<PrivKey>, token: Str, serialized: bool) returns (reply: Reply)
      modifies this
      ensures (View(), reply) == Step(params, old(View()), Initiate(joined, token, serialized))
    {
      var key := FetchPrivKey(joined);
      if key.None? {
        return NotIssued;
      }
      var pem := params.suite.exportPem(params.suite.publicOf(key.value));
      if pem.None? {
        return NotIssued;
      }
      var prelude := SessionPrelude(pem.value, token);
      var h := params.tokenHash(prelude.oneTimeToken);
      if !serialized {
        return NotIssued;
      }
      oneTimeTokens := oneTimeTokens[h := prelude.oneTimeToken];
      reply := Issued(prelude);
    }

    /** Decrypting a frame and consuming its token. */
    method AdmitFrame(frame: Str, joined: Option<PrivKey>) returns (admission: Admission)
      requires |frame| <= VEC_MAX
      modifies this`privKey, this`oneTimeTokens
      ensures (Service(privKey, oneTimeTokens, sessions), admission)
        == Admit(params, old(Service(privKey, oneTimeTokens, sessions)), frame, joined)
    {
      var key := FetchPrivKey(joined);
      if key.None? {
        return Refused(PubKeyError);
      }
      var decrypted := Decrypt(params.suite, key.value, frame);
      match decrypted {
        case Failed(_) => admission := Refused(DataDecryptionFailed);
        case Panicked => admission := Refused(Unwound);
        case Plain(otp, password) =>
          var h := params.tokenHash(otp);
          if h !in oneTimeTokens {
            return Refused(EncryptionError);
          }
          var stored := oneTimeTokens[h];
          oneTimeTokens := oneTimeTokens - {h};
          if stored != otp {
            return Refused(EncryptionError);
          }
          admission := Admitted(otp, password);
      }
    }

    /** Checking that root approved the configuration. */
    method CheckGate(username: Str, loaded: Loaded) returns (open: bool)
      requires loaded.Valid()
      modifies mountsAuth
      ensures mountsAuth.file == AfterRead(old(mountsAuth.file))
      ensures open == GateOpen(params, old(mountsAuth.file), username, loaded)
    {
      var hash := Hash(params.digest, loaded.cfg, loaded.hashOrder);
      var auth := mountsAuth.ReadAuthFile();
      open := auth.Some? && auth.value.Authorized(username, hash);
    }

    /** Loading, gate, mounting, and entering the session. */
    method MountAndEnter(username: Str, user: User, stored: Option<Option<Loaded>>, oracle: Oracle)
      returns (code: Code)
      requires stored.Some? && stored.value.Some? ==> stored.value.value.Valid()
      modifies this`sessions, mountsAuth, table
      ensures (View(), code) == MountStep(params, old(View()), username, user, stored, oracle)
    {
      if stored.None? {
        return CannotLoadUserMountError;
      }
      if stored.value.Some? {
        var open := CheckGate(username, stored.value.value);
        if !open {
          return UnauthorizedMount;
        }
      }
      var mounts := table.MountAll(stored.value, user, oracle);
      if mounts == [] {
        assert table.depth == old(table.depth);
        return MountError;
      }
      sessions := sessions[user.name := UserSession(mounts, 1)];
      code := Success;
    }

    method OpenUserSession(
        username: Str, found: Option<User>, frame: Str, joined: Option<PrivKey>,
        stored: Option<Option<Loaded>>, oracle: Oracle)
      returns (reply: Reply)
      requires Open(username, found, frame, joined, stored, oracle).Valid()
      modifies this, mountsAuth, table
      ensures (View(), reply) == Step(params, old(View()), Open(username, found, frame, joined, stored, oracle))
    {
      if found.None? {
        return Replied(CannotIdentifyUser, 0, 0);
      }
      var user := found.value;
      if user.name in sessions {
        var session := sessions[user.name];
        sessions := sessions[user.name := session.(count := (session.count + 1) % U64)];
      } else {
        var admission := AdmitFrame(frame, joined);
        if admission.Refused? {
          return Replied(admission.code, 0, 0);
        }
        var code := MountAndEnter(username, user, stored, oracle);
        if !code.Success? {
          return Replied(code, 0, 0);
        }
      }
      reply := Replied(Success, user.uid, user.gid);
    }

    method CloseUserSession(username: Str, found: Option<User>) returns (reply: Reply)
      modifies this`sessions, table
      ensures (View(), reply) == Step(params, old(View()), Close(username, found))
    {
      if found.None? {
        return Replied(CannotIdentifyUser, 0, 0);
      }
      var name := found.value.name;
      if name !in sessions {
        return Replied(SessionAlreadyClosed, 0, 0);
      }
      var session := sessions[name];
      var count: Word := (session.count + U64 - 1) % U64;
      if count == 0 {
        sessions := sessions - {name};
        table.Drop(session.mounts);
      } else {
        sessions := sessions[name := session.(count := count)];
      }
      reply := Replied(Success, 0, 0);
    }
  }
}
