/** Readers and writers of the authorization file, step by step: workers take the shared lock, look
    whether the file exists, create it, write, read and release, in any interleaving
    (`src/pam/mount.rs:286-379`, `src/pam/disk.rs:32-88`). File operations succeed. */
module AuthProtocol {
  import opened Prelude
  import opened AuthFile

  datatype Request =
    | Check(username: Str, hash: Str)
    | Authorize(username: Str, hash: Str)

  /** How far a worker has come with its request. */
  datatype Phase =
    | Waiting(req: Request)
    | Locked(req: Request)
    | SawFile(req: Request)
    | SawMissing(req: Request)
    | Created(req: Request)
    | Read(req: Request, text: File)
    | Truncated(req: Request, next: MountAuth)
    | Wrote(req: Request)
    | Done(req: Request, answer: bool)

  /** One effective authorization and the worker that wrote it. */
  datatype Entry = Entry(worker: nat, username: Str, hash: Str)

  /** The file and the workers; and for stating what happened: the authorizations written so far, and
      how many there were when a worker took the lock and when it let go. */
  datatype State = State(
    file: File,
    workers: map<nat, Phase>,
    log: seq<Entry>,
    entered: map<nat, nat>,
    left: map<nat, nat>)

  datatype Event = Arrive(worker: nat, req: Request) | Move(worker: nat)

  predicate Holding(p: Phase) {
    !p.Waiting? && !p.Done?
  }

  /** The lock: any number of readers, or one writer. */
  predicate CanLock(s: State, req: Request) {
    forall t :: t in s.workers && Holding(s.workers[t]) ==> req.Check? && s.workers[t].req.Check?
  }

  /** The next step of worker `t`; a worker that cannot get the lock stays where it is. */
  function Advance(s: State, t: nat): State
    requires t in s.workers
  {
    match s.workers[t]
    case Waiting(req) =>
      if CanLock(s, req) then s.(workers := s.workers[t := Locked(req)], entered := s.entered[t := |s.log|])
      else s
    case Locked(req) =>
      s.(workers := s.workers[t := if s.file.Missing? then SawMissing(req) else SawFile(req)])
    case SawFile(req) => s.(workers := s.workers[t := Read(req, s.file)])
    case SawMissing(req) => s.(workers := s.workers[t := Created(req)], file := Empty)
    case Created(req) => s.(workers := s.workers[t := Read(req, Json(DEFAULT))], file := Json(DEFAULT))
    case Read(req, text) =>
      (match req
       case Check(u, h) => Finish(s, t, req, text.Json? && text.auth.Authorized(u, h))
       case Authorize(u, h) =>
         if !text.Json? then Finish(s, t, req, false)
         else s.(workers := s.workers[t := Truncated(req, text.auth.Add(u, h))], file := Empty))
    case Truncated(req, next) =>
      s.(workers := s.workers[t := Wrote(req)], file := Json(next),
         log := s.log + [Entry(t, req.username, req.hash)])
    case Wrote(req) => Finish(s, t, req, true)
    case Done(_, _) => s
  }

  /** Release the lock and answer. */
  function Finish(s: State, t: nat, req: Request, answer: bool): State {
    s.(workers := s.workers[t := Done(req, answer)], left := s.left[t := |s.log|])
  }

  function Handle(s: State, e: Event): State {
    match e
    case Arrive(t, req) => if t in s.workers then s else s.(workers := s.workers[t := Waiting(req)])
    case Move(t) => if t in s.workers then Advance(s, t) else s
  }

  function Start(file: File): State {
    State(file, map[], [], map[], map[])
  }

  /** Any interleaving: the state after a sequence of arrivals and moves. */
  ghost function Run(file: File, events: seq<Event>): State {
    if events == [] then Start(file)
    else Handle(Run(file, events[..|events| - 1]), events[|events| - 1])
  }

  /** The authorizations after the first ones of the log. */
  ghost function Replayed(base: MountAuth, log: seq<Entry>): MountAuth {
    if log == [] then base
    else
      var last := log[|log| - 1];
      Replayed(base, log[..|log| - 1]).Add(last.username, last.hash)
  }

  // ----- the invariant

  ghost predicate LocksOk(s: State) {
    forall t, u :: t in s.workers && u in s.workers && t != u && Holding(s.workers[t]) && Holding(s.workers[u])
      ==> s.workers[t].req.Check? && s.workers[u].req.Check?
  }

  /** The file was missing at first and nothing has been authorized yet. */
  ghost predicate Virgin(file: File, s: State) {
    file.Missing? && s.log == []
  }

  ghost function Base(file: File): MountAuth {
    if file.Json? then file.auth else DEFAULT
  }

  ghost function Current(file: File, s: State): MountAuth {
    Replayed(Base(file), s.log)
  }

  ghost predicate PhaseOk(file: File, s: State, t: nat)
    requires t in s.workers
  {
    var p := s.workers[t];
    && (Holding(p) ==> t in s.entered && s.entered[t] <= |s.log|)
    && (Holding(p) && !p.Wrote? ==> s.entered[t] == |s.log|)
    && match p
       case Waiting(_) => true
       case Locked(_) => true
       case SawFile(_) => !s.file.Missing?
       case SawMissing(_) => Virgin(file, s)
       case Created(_) => Virgin(file, s) && !s.file.Missing?
       case Read(req, text) =>
         !s.file.Missing? && (text == Json(Current(file, s)) || (req.Check? && text == Empty && Virgin(file, s)))
       case Truncated(req, next) =>
         req.Authorize? && s.file == Empty && next == Current(file, s).Add(req.username, req.hash)
       case Wrote(req) =>
         req.Authorize? && s.file == Json(Current(file, s)) && s.entered[t] < |s.log|
         && s.log[|s.log| - 1] == Entry(t, req.username, req.hash)
       case Done(req, answer) => DoneOk(file, s, t, req, answer)
  }

  /** What an answer means: a check saw the authorizations of a moment at which it held the lock, and
      an accepted authorization was written in that time. */
  ghost predicate DoneOk(file: File, s: State, t: nat, req: Request, answer: bool) {
    && t in s.entered && t in s.left && s.entered[t] <= s.left[t] <= |s.log|
    && (req.Check? ==> Saw(file, s, t, req, answer))
    && (req.Authorize? ==> answer && Logged(s, t, req))
  }

  ghost predicate Saw(file: File, s: State, t: nat, req: Request, answer: bool)
    requires t in s.entered && t in s.left && s.entered[t] <= s.left[t] <= |s.log|
  {
    exists n :: s.entered[t] <= n <= s.left[t] && answer == AnswerAt(file, s, n, req)
  }

  /** What the authorizations would answer when `n` of the log were in effect. */
  ghost predicate AnswerAt(file: File, s: State, n: nat, req: Request)
    requires n <= |s.log|
  {
    Replayed(Base(file), s.log[..n]).Authorized(req.username, req.hash)
  }

  ghost predicate Logged(s: State, t: nat, req: Request)
    requires t in s.entered && t in s.left && s.entered[t] <= s.left[t] <= |s.log|
  {
    exists i :: s.entered[t] <= i < s.left[t] && s.log[i] == Entry(t, req.username, req.hash)
  }

  ghost predicate FileOk(file: File, s: State) {
    || s.file == Json(Current(file, s))
    || (Virgin(file, s) && s.file == Missing)
    || (Virgin(file, s) && s.file == Empty && exists t :: t in s.workers && s.workers[t].Created?)
    || (exists t :: t in s.workers && s.workers[t].Truncated?)
  }

  /** Each worker is logged at most once, and only once it has written. */
  ghost predicate LogOk(s: State) {
    && (forall i :: 0 <= i < |s.log| ==> HasWritten(s, s.log[i].worker))
    && (forall i, j :: 0 <= i < j < |s.log| ==> s.log[i].worker != s.log[j].worker)
  }

  ghost predicate HasWritten(s: State, t: nat) {
    t in s.workers && (s.workers[t].Wrote? || s.workers[t].Done?)
  }

  ghost predicate Inv(file: File, s: State) {
    && LocksOk(s)
    && FileOk(file, s)
    && LogOk(s)
    && forall t :: t in s.workers ==> PhaseOk(file, s, t)
  }

  // ----- every step keeps it

  /** A finished worker's answer stays justified while the log grows and other workers move. */
  lemma DoneLasts(file: File, s: State, s': State, t: nat, req: Request, answer: bool)
    requires DoneOk(file, s, t, req, answer)
    requires s.log <= s'.log
    requires t in s'.entered && t in s'.left
    requires s'.entered[t] == s.entered[t] && s'.left[t] == s.left[t]
    ensures DoneOk(file, s', t, req, answer)
  {
    if req.Check? {
      var n :| s.entered[t] <= n <= s.left[t] && answer == AnswerAt(file, s, n, req);
      assert s'.log[..n] == s.log[..n];
      assert answer == AnswerAt(file, s', n, req);
    } else {
      var i :| s.entered[t] <= i < s.left[t] && s.log[i] == Entry(t, req.username, req.hash);
      assert s'.log[i] == s.log[i];
    }
  }

  /** What another worker relies on when the log stays as it is. */
  lemma PhaseLasts(file: File, s: State, s': State, u: nat)
    requires u in s.workers && u in s'.workers && s'.workers[u] == s.workers[u] && PhaseOk(file, s, u)
    requires s'.log == s.log && SameMarks(s, s', u)
    requires s'.file.Missing? ==> s.file.Missing?
    requires s.workers[u].Truncated? || s.workers[u].Wrote? ==> s'.file == s.file
    ensures PhaseOk(file, s', u)
  {
    if s.workers[u].Done? {
      DoneLasts(file, s, s', u, s.workers[u].req, s.workers[u].answer);
    }
  }

  ghost predicate SameMarks(s: State, s': State, u: nat) {
    && (u in s.entered ==> u in s'.entered && s'.entered[u] == s.entered[u])
    && (u in s.left ==> u in s'.left && s'.left[u] == s.left[u])
  }

  /** Everything but the moved worker `t` is as before. */
  ghost predicate Moved(s: State, s': State, t: nat) {
    && t in s.workers && t in s'.workers && s'.workers == s.workers[t := s'.workers[t]]
    && forall u :: u != t ==> SameMarks(s, s', u)
  }

  /** A step of one worker that writes no log entry keeps the invariant, if it does so for that worker
      and the file. */
  lemma OthersLast(file: File, s: State, s': State, t: nat)
    requires Inv(file, s) && Moved(s, s', t) && s'.log == s.log
    requires s'.file.Missing? ==> s.file.Missing?
    requires s'.file == s.file || (Holding(s.workers[t]) && ExclusiveOrUnwritten(s, t))
    requires Holding(s'.workers[t]) ==> Holding(s.workers[t]) && s'.workers[t].req == s.workers[t].req
    requires s.workers[t].Wrote? || s.workers[t].Done? ==> s'.workers[t].Done?
    requires PhaseOk(file, s', t) && FileOk(file, s')
    ensures Inv(file, s')
  {
    forall u | u in s.workers && u != t ensures PhaseOk(file, s', u) {
      assert SameMarks(s, s', u);
      assert PhaseOk(file, s, u);
      PhaseLasts(file, s, s', u);
    }
    LocksLast(s, s', t);
    LogOkLasts(s, s', t);
  }

  lemma LocksLast(s: State, s': State, t: nat)
    requires LocksOk(s) && Moved(s, s', t)
    requires Holding(s'.workers[t]) ==> Holding(s.workers[t]) && s'.workers[t].req == s.workers[t].req
    ensures LocksOk(s')
  {
  }

  /** No other worker is between truncating the file and releasing the lock. */
  ghost predicate ExclusiveOrUnwritten(s: State, t: nat) {
    forall u :: u in s.workers && u != t ==> !s.workers[u].Truncated? && !s.workers[u].Wrote?
  }

  lemma TakeLock(file: File, s: State, t: nat)
    requires Inv(file, s) && t in s.workers && s.workers[t].Waiting?
    ensures Inv(file, Advance(s, t))
  {
    var s' := Advance(s, t);
    if s' != s {
      forall u | u in s'.workers ensures PhaseOk(file, s', u) {
        assert PhaseOk(file, s, u);
        if u != t {
          assert SameMarks(s, s', u);
          PhaseLasts(file, s, s', u);
        }
      }
      FileOkLasts(file, s, s', t);
      LogOkLasts(s, s', t);
    }
  }

  lemma Look(file: File, s: State, t: nat)
    requires Inv(file, s) && t in s.workers && (s.workers[t].Locked? || s.workers[t].SawFile?)
    ensures Inv(file, Advance(s, t))
  {
    var s' := Advance(s, t);
    assert PhaseOk(file, s, t);
    NoOtherWriter(file, s, t);
    FileOkLasts(file, s, s', t);
    if s.workers[t].SawFile? {
      OnlyReadersSeeEmpty(file, s, t);
    }
    OthersLast(file, s, s', t);
  }

  /** A worker that holds the lock excludes writers, so what it finds in the file is settled. */
  lemma NoOtherWriter(file: File, s: State, t: nat)
    requires Inv(file, s) && t in s.workers && Holding(s.workers[t])
    ensures ExclusiveOrUnwritten(s, t)
  {
    forall u | u in s.workers && u != t && Holding(s.workers[u]) ensures s.workers[u].req.Check? {
    }
    forall u | u in s.workers && u != t ensures !s.workers[u].Truncated? && !s.workers[u].Wrote? {
      assert PhaseOk(file, s, u);
    }
  }

  /** The file is found empty only by a reader, while another reader is creating it. */
  lemma OnlyReadersSeeEmpty(file: File, s: State, t: nat)
    requires Inv(file, s) && t in s.workers && s.workers[t].SawFile?
    ensures s.file == Json(Current(file, s))
      || (s.file == Empty && Virgin(file, s) && s.workers[t].req.Check?)
  {
    NoOtherWriter(file, s, t);
    assert PhaseOk(file, s, t);
    if c :| c in s.workers && s.workers[c].Created? {
      assert Holding(s.workers[c]) && c != t;
    }
  }

  lemma Create(file: File, s: State, t: nat)
    requires Inv(file, s) && t in s.workers && (s.workers[t].SawMissing? || s.workers[t].Created?)
    ensures Inv(file, Advance(s, t))
  {
    var s' := Advance(s, t);
    assert PhaseOk(file, s, t);
    NoOtherWriter(file, s, t);
    if s.workers[t].SawMissing? {
      assert s'.workers[t].Created?;
    }
    OthersLast(file, s, s', t);
  }

  lemma Answer(file: File, s: State, t: nat)
    requires Inv(file, s) && t in s.workers && s.workers[t].Read? && s.workers[t].req.Check?
    ensures Inv(file, Advance(s, t))
  {
    var s' := Advance(s, t);
    var req, text := s.workers[t].req, s.workers[t].text;
    assert PhaseOk(file, s, t);
    assert s'.log[..|s'.log|] == s.log;
    assert s'.workers[t].answer == AnswerAt(file, s', |s.log|, req);
    FileOkLasts(file, s, s', t);
    OthersLast(file, s, s', t);
  }

  lemma Truncate(file: File, s: State, t: nat)
    requires Inv(file, s) && t in s.workers && s.workers[t].Read? && s.workers[t].req.Authorize?
    ensures Inv(file, Advance(s, t))
  {
    var s' := Advance(s, t);
    assert PhaseOk(file, s, t);
    NoOtherWriter(file, s, t);
    assert s'.workers[t].Truncated?;
    OthersLast(file, s, s', t);
  }

  /** Writing: no other worker holds the lock, so none relies on the log staying as it is. */
  lemma Write(file: File, s: State, t: nat)
    requires Inv(file, s) && t in s.workers && s.workers[t].Truncated?
    ensures Inv(file, Advance(s, t))
  {
    assert PhaseOk(file, s, t);
    WriteIsCurrent(file, s, t);
    forall u | u in s.workers && u != t ensures PhaseOk(file, Advance(s, t), u) {
      WriteLeavesOthers(file, s, t, u);
    }
    WriteIsLoggedOnce(s, t);
  }

  lemma WriteIsCurrent(file: File, s: State, t: nat)
    requires t in s.workers && s.workers[t].Truncated? && PhaseOk(file, s, t)
    ensures PhaseOk(file, Advance(s, t), t) && FileOk(file, Advance(s, t))
  {
    var s' := Advance(s, t);
    assert s'.log[..|s'.log| - 1] == s.log;
    assert Current(file, s') == s.workers[t].next;
  }

  lemma WriteLeavesOthers(file: File, s: State, t: nat, u: nat)
    requires Inv(file, s) && t in s.workers && s.workers[t].Truncated?
    requires u in s.workers && u != t
    ensures PhaseOk(file, Advance(s, t), u)
  {
    assert PhaseOk(file, s, t) && PhaseOk(file, s, u);
    assert !Holding(s.workers[u]);
    if s.workers[u].Done? {
      DoneLasts(file, s, Advance(s, t), u, s.workers[u].req, s.workers[u].answer);
    }
  }

  lemma WriteIsLoggedOnce(s: State, t: nat)
    requires LogOk(s) && t in s.workers && s.workers[t].Truncated? && s.workers[t].req.Authorize?
    ensures LogOk(Advance(s, t))
  {
    var s' := Advance(s, t);
    forall i | 0 <= i < |s'.log| ensures HasWritten(s', s'.log[i].worker) {
      if i < |s.log| {
        assert HasWritten(s, s.log[i].worker);
      }
    }
    forall i | 0 <= i < |s.log| ensures s.log[i].worker != t {
      assert HasWritten(s, s.log[i].worker);
    }
  }

  lemma Release(file: File, s: State, t: nat)
    requires Inv(file, s) && t in s.workers && s.workers[t].Wrote?
    ensures Inv(file, Advance(s, t))
  {
    var s' := Advance(s, t);
    assert PhaseOk(file, s, t);
    assert s'.log[|s.log| - 1] == Entry(t, s.workers[t].req.username, s.workers[t].req.hash);
    FileOkLasts(file, s, s', t);
    OthersLast(file, s, s', t);
  }

  /** A step that leaves the file alone and whose worker is in neither of the two phases that explain
      a file other than the current one. */
  lemma FileOkLasts(file: File, s: State, s': State, t: nat)
    requires FileOk(file, s) && t in s.workers
    requires s'.file == s.file && s'.log == s.log
    requires !s.workers[t].Created? && !s.workers[t].Truncated?
    requires forall u :: u in s.workers && u != t ==> u in s'.workers && s'.workers[u] == s.workers[u]
    ensures FileOk(file, s')
  {
    if u :| u in s.workers && s.workers[u].Created? {
      assert s'.workers[u].Created?;
    }
    if u :| u in s.workers && s.workers[u].Truncated? {
      assert s'.workers[u].Truncated?;
    }
  }

  lemma LogOkLasts(s: State, s': State, t: nat)
    requires LogOk(s) && t in s.workers && t in s'.workers
    requires s'.log == s.log
    requires s.workers[t].Wrote? || s.workers[t].Done? ==> s'.workers[t].Done?
    requires forall u :: u in s.workers && u != t ==> u in s'.workers && s'.workers[u] == s.workers[u]
    ensures LogOk(s')
  {
    forall i | 0 <= i < |s'.log| ensures HasWritten(s', s'.log[i].worker) {
      assert HasWritten(s, s.log[i].worker);
    }
  }

  lemma EveryMove(file: File, s: State, t: nat)
    requires Inv(file, s) && t in s.workers
    ensures Inv(file, Advance(s, t))
  {
    match s.workers[t] {
      case Waiting(_) => TakeLock(file, s, t);
      case Locked(_) => Look(file, s, t);
      case SawFile(_) => Look(file, s, t);
      case SawMissing(_) => Create(file, s, t);
      case Created(_) => Create(file, s, t);
      case Read(req, _) =>
        if req.Check? {
          Answer(file, s, t);
        } else {
          Truncate(file, s, t);
        }
      case Truncated(_, _) => Write(file, s, t);
      case Wrote(_) => Release(file, s, t);
      case Done(_, _) =>
    }
  }

  lemma EveryArrival(file: File, s: State, t: nat, req: Request)
    requires Inv(file, s) && t !in s.workers
    ensures Inv(file, Handle(s, Arrive(t, req)))
  {
    var s' := Handle(s, Arrive(t, req));
    forall u | u in s'.workers ensures PhaseOk(file, s', u) {
      if u != t {
        assert PhaseOk(file, s, u);
        PhaseLasts(file, s, s', u);
      }
    }
    if u :| u in s.workers && s.workers[u].Created? {
      assert s'.workers[u].Created?;
    }
    if u :| u in s.workers && s.workers[u].Truncated? {
      assert s'.workers[u].Truncated?;
    }
    forall i | 0 <= i < |s'.log| ensures HasWritten(s', s'.log[i].worker) {
      assert HasWritten(s, s.log[i].worker);
    }
  }

  lemma {:induction false} AlwaysInv(file: File, events: seq<Event>)
    requires file.Missing? || file.Json?
    ensures Inv(file, Run(file, events))
  {
    if events != [] {
      var n := |events| - 1;
      AlwaysInv(file, events[..n]);
      var s := Run(file, events[..n]);
      match events[n] {
        case Arrive(t, req) =>
          if t !in s.workers {
            EveryArrival(file, s, t, req);
          }
        case Move(t) =>
          if t in s.workers {
            EveryMove(file, s, t);
          }
      }
    }
  }

  // ----- what the protocol guarantees

  /** Every check that has answered did so as of some moment between taking and releasing the lock. */
  lemma ChecksAreCurrent(file: File, events: seq<Event>, t: nat)
    requires file.Missing? || file.Json?
    requires var s := Run(file, events);
      t in s.workers && s.workers[t].Done? && s.workers[t].req.Check?
    ensures var s := Run(file, events);
      && t in s.entered && t in s.left && s.entered[t] <= s.left[t] <= |s.log|
      && exists n :: s.entered[t] <= n <= s.left[t]
           && s.workers[t].answer == AnswerAt(file, s, n, s.workers[t].req)
  {
    AlwaysInv(file, events);
    assert PhaseOk(file, Run(file, events), t);
  }

  /** No update is lost: every authorization that has answered was accepted, is in the log exactly
      once, and whenever nobody holds the lock the file grants exactly what the log adds up to. */
  lemma NoUpdateIsLost(file: File, events: seq<Event>, t: nat)
    requires file.Missing? || file.Json?
    requires var s := Run(file, events);
      t in s.workers && s.workers[t].Done? && s.workers[t].req.Authorize?
    ensures var s := Run(file, events);
      var req := s.workers[t].req;
      && s.workers[t].answer
      && (exists i :: 0 <= i < |s.log| && s.log[i] == Entry(t, req.username, req.hash))
      && (forall i, j :: 0 <= i < j < |s.log| ==> s.log[i].worker != s.log[j].worker)
    ensures var s := Run(file, events);
      (forall u :: u in s.workers ==> !Holding(s.workers[u])) ==>
        && s.file == Json(Current(file, s))
        && Effective(s.file).value.Authorized(s.workers[t].req.username, s.workers[t].req.hash)
  {
    AlwaysInv(file, events);
    var s := Run(file, events);
    assert PhaseOk(file, s, t);
    var req := s.workers[t].req;
    var i :| s.entered[t] <= i < s.left[t] && s.log[i] == Entry(t, req.username, req.hash);
    LoggedIsGranted(Base(file), s.log, i);
  }

  lemma {:induction false} LoggedIsGranted(base: MountAuth, log: seq<Entry>, i: nat)
    requires i < |log|
    ensures Replayed(base, log).Authorized(log[i].username, log[i].hash)
  {
    var n := |log| - 1;
    if i < n {
      LoggedIsGranted(base, log[..n], i);
    }
  }

  /** A check that takes the lock after an authorization of the same pair was released answers yes,
      whatever other workers did in between. */
  lemma AuthorizedIsSeen(file: File, events: seq<Event>, writer: nat, reader: nat)
    requires file.Missing? || file.Json?
    requires var s := Run(file, events);
      && writer in s.workers && s.workers[writer].Done? && s.workers[writer].req.Authorize?
      && reader in s.workers && s.workers[reader].Done? && s.workers[reader].req.Check?
      && s.workers[reader].req.username == s.workers[writer].req.username
      && s.workers[reader].req.hash == s.workers[writer].req.hash
      && writer in s.left && reader in s.entered && s.left[writer] <= s.entered[reader]
    ensures Run(file, events).workers[reader].answer
  {
    AlwaysInv(file, events);
    var s := Run(file, events);
    assert PhaseOk(file, s, writer) && PhaseOk(file, s, reader);
    var req := s.workers[reader].req;
    var i :| s.entered[writer] <= i < s.left[writer] && s.log[i] == Entry(writer, req.username, req.hash);
    var n :| s.entered[reader] <= n <= s.left[reader] && s.workers[reader].answer == AnswerAt(file, s, n, req);
    LoggedIsGranted(Base(file), s.log[..n], i);
  }

  // ----- every request is answered

  /** How many steps of its own a worker still has to take, at most. */
  function StepsLeft(p: Phase): nat {
    match p
    case Waiting(_) => 7
    case Locked(_) => 6
    case SawFile(_) => 5
    case SawMissing(_) => 5
    case Created(_) => 4
    case Read(_, _) => if p.req.Authorize? then 3 else 1
    case Truncated(_, _) => 2
    case Wrote(_) => 1
    case Done(_, _) => 0
  }

  /** A worker that waits gets the lock exactly when no writer holds it, and no reader either if it
      wants to write; a worker that holds it always moves on. Every move brings its request nearer to
      its answer, and touches no other worker. */
  lemma MovesExactly(s: State, t: nat)
    requires t in s.workers && !s.workers[t].Done?
    ensures var s', p := Advance(s, t), s.workers[t];
      && (s' == s <==> p.Waiting? && exists u :: u in s.workers && !s.workers[u].Waiting? && !s.workers[u].Done?
                                       && (p.req.Authorize? || s.workers[u].req.Authorize?))
      && (s' != s ==> StepsLeft(s'.workers[t]) < StepsLeft(p) && s'.workers[t].req == p.req)
      && s'.workers.Keys == s.workers.Keys
      && forall u :: u in s.workers && u != t ==> s'.workers[u] == s.workers[u]
  {
    if s.workers[t].Waiting? && CanLock(s, s.workers[t].req) {
      assert Advance(s, t).workers[t] == Locked(s.workers[t].req);
    }
  }

  /** Any request may arrive at any time; it then waits, and nothing else changes. */
  lemma ArrivesExactly(s: State, t: nat, req: Request)
    requires t !in s.workers
    ensures var s' := Handle(s, Arrive(t, req));
      && s'.workers.Keys == s.workers.Keys + {t} && s'.workers - {t} == s.workers
      && s'.workers[t] == Waiting(req)
      && s'.file == s.file && s'.log == s.log && s'.entered == s.entered && s'.left == s.left
  {
  }

  /** The protocol never deadlocks: while some worker is unfinished, some worker can take a step. */
  lemma NoDeadlock(s: State, t: nat) returns (u: nat)
    requires t in s.workers && !s.workers[t].Done?
    ensures u in s.workers && !s.workers[u].Done? && Advance(s, u) != s
  {
    if v :| v in s.workers && Holding(s.workers[v]) {
      u := v;
    } else {
      u := t;
    }
    MovesExactly(s, u);
  }

  /** The steps that all workers have left. */
  ghost function TotalLeft(workers: map<nat, Phase>): nat
    decreases |workers|
  {
    if workers == map[] then 0
    else
      var t :| t in workers;
      FewerWorkers(workers, t);
      StepsLeft(workers[t]) + TotalLeft(workers - {t})
  }

  lemma FewerWorkers(workers: map<nat, Phase>, t: nat)
    requires t in workers
    ensures |workers - {t}| < |workers|
  {
    assert (workers - {t}).Keys == workers.Keys - {t};
    assert |(workers - {t}).Keys| < |workers.Keys|;
  }

  lemma {:induction false} TotalSplit(workers: map<nat, Phase>, t: nat)
    requires t in workers
    ensures TotalLeft(workers) == StepsLeft(workers[t]) + TotalLeft(workers - {t})
    decreases |workers|
  {
    var u :| u in workers && TotalLeft(workers) == StepsLeft(workers[u]) + TotalLeft(workers - {u});
    if u != t {
      FewerWorkers(workers, t);
      FewerWorkers(workers, u);
      TotalSplit(workers - {u}, t);
      TotalSplit(workers - {t}, u);
      assert workers - {u} - {t} == workers - {t} - {u};
    }
  }

  lemma MoveLeavesLess(s: State, t: nat)
    requires t in s.workers && !s.workers[t].Done? && Advance(s, t) != s
    ensures TotalLeft(Advance(s, t).workers) < TotalLeft(s.workers)
  {
    MovesExactly(s, t);
    var workers, workers' := s.workers, Advance(s, t).workers;
    TotalSplit(workers, t);
    TotalSplit(workers', t);
    assert workers' - {t} == workers - {t};
  }

  /** Every request can be answered: wherever a run stands, the workers there can take turns until all
      of them are done, in no more steps than they have left. */
  lemma {:induction false} EveryoneCanFinish(file: File, events: seq<Event>) returns (more: seq<Event>)
    ensures |more| <= TotalLeft(Run(file, events).workers)
    ensures forall e :: e in more ==> e.Move?
    ensures var s, s' := Run(file, events), Run(file, events + more);
      && s'.workers.Keys == s.workers.Keys
      && forall t :: t in s.workers ==> s'.workers[t].Done? && s'.workers[t].req == s.workers[t].req
    decreases TotalLeft(Run(file, events).workers)
  {
    var s := Run(file, events);
    if t :| t in s.workers && !s.workers[t].Done? {
      var u := NoDeadlock(s, t);
      MoveLeavesLess(s, u);
      MovesExactly(s, u);
      var next := events + [Move(u)];
      assert next[..|next| - 1] == events;
      assert Run(file, next) == Advance(s, u);
      var rest := EveryoneCanFinish(file, next);
      more := [Move(u)] + rest;
      assert next + rest == events + more;
    } else {
      more := [];
      assert events + more == events;
    }
  }

  /** A check that released the lock before anything was authorized answers no, whatever is authorized
      later: whether it found the file missing, created it itself, or saw another reader's file still
      empty. */
  lemma RacingReadersRefuse(events: seq<Event>, t: nat)
    requires var s := Run(Missing, events);
      && t in s.workers && s.workers[t].Done? && s.workers[t].req.Check?
      && t in s.left && s.left[t] == 0
    ensures !Run(Missing, events).workers[t].answer
  {
    ChecksAreCurrent(Missing, events, t);
  }
}
