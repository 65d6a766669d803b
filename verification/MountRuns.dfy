/** Mounts and their authorization over whole runs of the session service. */
module MountRuns {
  import opened Prelude
  import opened Mounts
  import opened MountTable
  import opened AuthFile
  import opened Sessions
  import opened SessionRuns
  import opened Tokens

  // ----- conservation of mounts

  /** The paths covered by the mount lists of all live sessions, with multiplicity. */
  ghost function Held(sessions: map<Str, UserSession>): multiset<Str>
    decreases |sessions|
  {
    if sessions == map[] then multiset{}
    else
      var u :| u in sessions;
      Smaller(sessions, u);
      Targets(sessions[u].mounts) + Held(sessions - {u})
  }

  lemma Smaller(sessions: map<Str, UserSession>, u: Str)
    requires u in sessions
    ensures |sessions - {u}| < |sessions|
  {
    assert (sessions - {u}).Keys == sessions.Keys - {u};
    assert |(sessions - {u}).Keys| < |sessions.Keys|;
  }

  /** The sum may be taken apart at any session. */
  lemma {:induction false} HeldSplit(sessions: map<Str, UserSession>, u: Str)
    requires u in sessions
    ensures Held(sessions) == Targets(sessions[u].mounts) + Held(sessions - {u})
    decreases |sessions|
  {
    var v :| v in sessions && Held(sessions) == Targets(sessions[v].mounts) + Held(sessions - {v});
    if u != v {
      Smaller(sessions, u);
      Smaller(sessions, v);
      HeldSplit(sessions - {v}, u);
      HeldSplit(sessions - {u}, v);
      assert sessions - {v} - {u} == sessions - {u} - {v};
      SwapSum(Targets(sessions[v].mounts), Targets(sessions[u].mounts), Held(sessions - {u} - {v}));
    }
  }

  lemma SwapSum(a: multiset<Str>, b: multiset<Str>, c: multiset<Str>)
    ensures a + (b + c) == b + (a + c)
  {
  }

  lemma HeldNew(sessions: map<Str, UserSession>, u: Str, s: UserSession)
    requires u !in sessions
    ensures Held(sessions[u := s]) == Targets(s.mounts) + Held(sessions)
  {
    HeldSplit(sessions[u := s], u);
    assert sessions[u := s] - {u} == sessions;
  }

  lemma HeldSame(sessions: map<Str, UserSession>, u: Str, s: UserSession)
    requires u in sessions && s.mounts == sessions[u].mounts
    ensures Held(sessions[u := s]) == Held(sessions)
  {
    HeldSplit(sessions[u := s], u);
    HeldSplit(sessions, u);
    assert sessions[u := s] - {u} == sessions - {u};
  }

  /** How one call changes the sessions and the mounts in effect. */
  datatype Effect =
    | Unchanged
    | Recounted(u: Str, count: Word)
    | Entered(u: Str, mounts: seq<Mount>)
    | Left(u: Str)

  ghost predicate HasEffect(sessions: map<Str, UserSession>, depth: multiset<Str>,
                            sessions': map<Str, UserSession>, depth': multiset<Str>, e: Effect) {
    match e
    case Unchanged => sessions' == sessions && depth' == depth
    case Recounted(u, count) =>
      u in sessions && sessions' == sessions[u := sessions[u].(count := count)] && depth' == depth
    case Entered(u, mounts) =>
      u !in sessions && sessions' == sessions[u := UserSession(mounts, 1)] && depth' == depth + Targets(mounts)
    case Left(u) =>
      u in sessions && sessions' == sessions - {u} && depth' == depth - Targets(sessions[u].mounts)
  }

  lemma StepEffect(p: Params, w: World, c: Call) returns (e: Effect)
    requires c.Valid()
    ensures var w' := Step(p, w, c).0;
      HasEffect(w.service.sessions, w.depth, w'.service.sessions, w'.depth, e)
    ensures e.Entered? <==> Creates(p, w, c)
    ensures e.Entered? ==> EntersWith(p, w, c, e)
  {
    if c.Open? {
      e := OpenEffect(p, w, c);
    } else if c.Close? {
      e := CloseEffect(p, w, c);
    } else {
      FailedCallsChangeNoSession(p, w, c);
      e := Unchanged;
    }
  }

  /** A session is entered with what `mount_all` made, behind the gate. */
  ghost predicate EntersWith(p: Params, w: World, c: Call, e: Effect)
    requires c.Valid() && e.Entered?
  {
    && c.Open? && c.found.Some? && e.u == c.found.value.name && c.stored.Some?
    && e.mounts == Mounted(c.stored.value, c.found.value, c.oracle) != []
    && Granted(p, w.file, c)
  }

  lemma OpenEffect(p: Params, w: World, c: Call) returns (e: Effect)
    requires c.Valid() && c.Open?
    ensures var w' := Step(p, w, c).0;
      HasEffect(w.service.sessions, w.depth, w'.service.sessions, w'.depth, e)
    ensures e.Entered? <==> Creates(p, w, c)
    ensures e.Entered? ==> EntersWith(p, w, c, e)
  {
    if c.found.Some? && c.found.value.name in w.service.sessions {
      var u := c.found.value.name;
      e := Recounted(u, Step(p, w, c).0.service.sessions[u].count);
    } else if Creates(p, w, c) {
      e := Entered(c.found.value.name, Mounted(c.stored.value, c.found.value, c.oracle));
    } else {
      FailedCallsChangeNoSession(p, w, c);
      e := Unchanged;
    }
  }

  lemma CloseEffect(p: Params, w: World, c: Call) returns (e: Effect)
    requires c.Valid() && c.Close?
    ensures var w' := Step(p, w, c).0;
      HasEffect(w.service.sessions, w.depth, w'.service.sessions, w'.depth, e)
    ensures !e.Entered?
  {
    if c.found.Some? && c.found.value.name in w.service.sessions {
      var u, sessions := c.found.value.name, Step(p, w, c).0.service.sessions;
      e := if u in sessions then Recounted(u, sessions[u].count) else Left(u);
    } else {
      e := Unchanged;
    }
  }

  lemma EffectConserves(sessions: map<Str, UserSession>, depth: multiset<Str>,
                        sessions': map<Str, UserSession>, depth': multiset<Str>, e: Effect, others: multiset<Str>)
    requires HasEffect(sessions, depth, sessions', depth', e)
    requires depth == others + Held(sessions)
    ensures depth' == others + Held(sessions')
  {
    match e {
      case Unchanged =>
      case Recounted(u, count) => HeldSame(sessions, u, sessions[u].(count := count));
      case Entered(u, mounts) => HeldNew(sessions, u, UserSession(mounts, 1));
      case Left(u) => HeldSplit(sessions, u);
    }
  }

  /** In every run, each path is covered exactly as often as the mount lists of the live sessions
      cover it, on top of what was mounted when the service started. */
  lemma {:induction false} MountsConserved(p: Params, w: World, calls: seq<Call>)
    requires Fresh(w) && Valid(calls)
    ensures var w' := After(p, w, calls);
      w'.depth == w.depth + Held(w'.service.sessions)
  {
    if calls != [] {
      var n := |calls| - 1;
      MountsConserved(p, w, calls[..n]);
      var before, after := After(p, w, calls[..n]), After(p, w, calls);
      var e := StepEffect(p, before, calls[n]);
      EffectConserves(before.service.sessions, before.depth, after.service.sessions, after.depth, e, w.depth);
    }
  }

  // ----- what a session holds, and by whose leave

  /** What the configuration, if any, needs from the authorization file. */
  ghost predicate Granted(p: Params, f: File, c: Call)
    requires c.Valid() && c.Open? && c.stored.Some?
  {
    c.stored.value.Some? ==> GateOpen(p, f, c.username, c.stored.value.value)
  }

  /** No session is created with a configuration whose digest is not on the user's list, under the
      name the client gave: not for an unreadable file, nor a missing one. */
  lemma CreationNeedsApproval(p: Params, w: World, c: Call)
    requires c.Valid() && Creates(p, w, c)
    ensures c.stored.Some?
    ensures c.stored.value.Some? ==>
      var l := c.stored.value.value;
      && w.file.Json?
      && c.username in w.file.auth.authorizations
      && Hex(p.digest(Preimage(l.cfg.home, Listing(l.cfg, l.hashOrder)))) in w.file.auth.authorizations[c.username]
  {
    if c.stored.Some? && c.stored.value.Some? {
      var l := c.stored.value.value;
      GrantsExact(w.file, c.username, DigestOf(p.digest, l.cfg, l.hashOrder));
    }
  }

  /** Granted stays granted, through any calls. */
  lemma StepKeepsGrants(p: Params, w: World, c: Call, u: Str, h: Str)
    requires c.Valid() && Grants(w.file, u, h)
    ensures Grants(Step(p, w, c).0.file, u, h)
  {
    match c {
      case Authorize(username, hash) => AuthorizeExact(w.file, username, hash, u, h);
      case Open(_, _, frame, joined, _, _) => AuthorizeExact(w.file, u, h, u, h);
      case _ => AuthorizeExact(w.file, u, h, u, h);
    }
  }

  lemma {:induction false} GrantsLast(p: Params, w: World, calls: seq<Call>, u: Str, h: Str)
    requires Valid(calls) && Grants(w.file, u, h)
    ensures Grants(After(p, w, calls).file, u, h)
  {
    if calls != [] {
      var n := |calls| - 1;
      GrantsLast(p, w, calls[..n], u, h);
      StepKeepsGrants(p, After(p, w, calls[..n]), calls[n], u, h);
    }
  }

  lemma StepKeepsGranted(p: Params, w: World, c: Call, open: Call)
    requires c.Valid() && open.Valid() && open.Open? && open.stored.Some? && Granted(p, w.file, open)
    ensures Granted(p, Step(p, w, c).0.file, open)
  {
    if open.stored.value.Some? {
      var l := open.stored.value.value;
      StepKeepsGrants(p, w, c, open.username, DigestOf(p.digest, l.cfg, l.hashOrder));
    }
  }

  /** The open `c` made the mounts that user `u` holds in world `w`, and its configuration is authorized there. */
  ghost predicate Accounts(p: Params, w: World, u: Str, c: Call)
    requires c.Valid()
  {
    && c.Open? && c.found.Some? && c.found.value.name == u && c.stored.Some?
    && u in w.service.sessions
    && w.service.sessions[u].mounts == Mounted(c.stored.value, c.found.value, c.oracle) != []
    && Granted(p, w.file, c)
  }

  lemma AccountsNew(p: Params, w: World, c: Call, e: Effect, u: Str)
    requires c.Valid() && Creates(p, w, c) && c.found.value.name == u
    requires HasEffect(w.service.sessions, w.depth, Step(p, w, c).0.service.sessions, Step(p, w, c).0.depth, e)
    requires e.Entered? && e.u == u && EntersWith(p, w, c, e)
    ensures Accounts(p, Step(p, w, c).0, u, c)
  {
    StepKeepsGranted(p, w, c, c);
  }

  lemma AccountsLast(p: Params, w: World, c: Call, e: Effect, u: Str, open: Call)
    requires c.Valid() && open.Valid() && Accounts(p, w, u, open)
    requires HasEffect(w.service.sessions, w.depth, Step(p, w, c).0.service.sessions, Step(p, w, c).0.depth, e)
    requires u in Step(p, w, c).0.service.sessions
    ensures Accounts(p, Step(p, w, c).0, u, open)
  {
    StepKeepsGranted(p, w, c, open);
  }

  /** From call `i` on, `u` has had one and the same session: it was never closed for good. */
  ghost predicate LivesSince(p: Params, w: World, calls: seq<Call>, u: Str, i: nat)
    requires Valid(calls)
  {
    forall j :: i < j <= |calls| ==> u in Before(p, w, calls, j).service.sessions
  }

  lemma LivesFromNow(p: Params, w: World, calls: seq<Call>, u: Str)
    requires Valid(calls) && calls != [] && u in After(p, w, calls).service.sessions
    ensures LivesSince(p, w, calls, u, |calls| - 1)
  {
    assert calls[..|calls|] == calls;
  }

  lemma LivesOn(p: Params, w: World, calls: seq<Call>, u: Str, i: nat)
    requires Valid(calls) && calls != []
    requires LivesSince(p, w, calls[..|calls| - 1], u, i) && u in After(p, w, calls).service.sessions
    ensures LivesSince(p, w, calls, u, i)
  {
    var n := |calls| - 1;
    assert calls[..n + 1] == calls;
    forall j | i < j <= n ensures u in Before(p, w, calls, j).service.sessions {
      PrefixBefore(p, w, calls, n, j);
      assert u in Before(p, w, calls[..n], j).service.sessions;
    }
  }

  /** The call that created the session that `u` now has. */
  lemma {:induction false} Creator(p: Params, w: World, calls: seq<Call>, u: Str) returns (i: nat)
    requires Fresh(w) && Valid(calls)
    requires u in After(p, w, calls).service.sessions
    ensures i < |calls| && CreatesAt(p, w, calls, i)
    ensures Accounts(p, After(p, w, calls), u, calls[i])
    ensures Granted(p, Before(p, w, calls, i).file, calls[i])
    ensures LivesSince(p, w, calls, u, i)
  {
    var n := |calls| - 1;
    var before, c := After(p, w, calls[..n]), calls[n];
    var e := StepEffect(p, before, c);
    if e.Entered? && e.u == u {
      i := n;
      AccountsNew(p, before, c, e, u);
      LivesFromNow(p, w, calls, u);
    } else {
      i := Creator(p, w, calls[..n], u);
      PrefixBefore(p, w, calls, n, i);
      AccountsLast(p, before, c, e, u, calls[i]);
      LivesOn(p, w, calls, u, i);
    }
  }

  /** The gate as a run invariant: every live session was created by an open of this run and has lived
      since. It holds the very mounts that open made: the runtime directory alone, or also every mount
      of its configuration with its own device, type and flags, and no others. The digest of that
      configuration was authorized, for the name given, when the session was created, and is
      authorized ever after. */
  lemma SessionsAreAuthorized(p: Params, w: World, calls: seq<Call>, u: Str, more: seq<Call>) returns (i: nat)
    requires Fresh(w) && Valid(calls) && Valid(more)
    requires u in After(p, w, calls).service.sessions
    ensures i < |calls| && CreatesAt(p, w, calls, i)
    ensures calls[i].Open? && calls[i].found.Some? && calls[i].found.value.name == u && calls[i].stored.Some?
    ensures LivesSince(p, w, calls, u, i)
    ensures MadeFor(After(p, w, calls).service.sessions[u].mounts, calls[i].stored.value, calls[i].found.value)
    ensures calls[i].stored.value.Some? ==>
      var l, username := calls[i].stored.value.value, calls[i].username;
      var h := Hex(p.digest(Preimage(l.cfg.home, Listing(l.cfg, l.hashOrder))));
      forall file | file in {Before(p, w, calls, i).file, After(p, After(p, w, calls), more).file} ::
        && file.Json? && username in file.auth.authorizations && h in file.auth.authorizations[username]
  {
    i := Creator(p, w, calls, u);
    var c := calls[i];
    MountedExactly(c.stored.value, c.found.value, c.oracle);
    if c.stored.value.Some? {
      var l := c.stored.value.value;
      var h := DigestOf(p.digest, l.cfg, l.hashOrder);
      GrantsExact(Before(p, w, calls, i).file, c.username, h);
      GrantsLast(p, After(p, w, calls), more, c.username, h);
      GrantsExact(After(p, After(p, w, calls), more).file, c.username, h);
    }
  }
}
