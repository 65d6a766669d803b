/** What the session service guarantees over whole runs: any sequence of calls by any clients. */
module SessionRuns {
  import opened Prelude
  import opened Sessions

  ghost predicate Valid(calls: seq<Call>) {
    forall i :: 0 <= i < |calls| ==> calls[i].Valid()
  }

  /** The world after a run. */
  ghost function After(p: Params, w: World, calls: seq<Call>): World
    requires Valid(calls)
  {
    if calls == [] then w
    else Step(p, After(p, w, calls[..|calls| - 1]), calls[|calls| - 1]).0
  }

  /** The world in which call `i` of a run starts. */
  ghost function Before(p: Params, w: World, calls: seq<Call>, i: nat): World
    requires Valid(calls) && i <= |calls|
  {
    After(p, w, calls[..i])
  }

  /** A service that has just started. */
  ghost predicate Fresh(w: World) {
    w.service == Service(InProgress, map[], map[])
  }

  lemma PrefixBefore(p: Params, w: World, calls: seq<Call>, n: nat, i: nat)
    requires Valid(calls) && i <= n <= |calls|
    ensures Before(p, w, calls[..n], i) == Before(p, w, calls, i)
  {
    assert calls[..n][..i] == calls[..i];
  }

  // ----- the session map refines a counter

  /** The call opens a session for `u`. */
  ghost predicate Opens(p: Params, w: World, c: Call, u: Str)
    requires c.Valid()
  {
    c.Open? && c.found.Some? && c.found.value.name == u && Step(p, w, c).1.code.Success?
  }

  /** The call closes a session of `u`. */
  ghost predicate Closes(p: Params, w: World, c: Call, u: Str)
    requires c.Valid()
  {
    c.Close? && c.found.Some? && c.found.value.name == u && Step(p, w, c).1.code.Success?
  }

  /** Successful opens and successful closes for `u` in a run. */
  ghost function Tally(p: Params, w: World, calls: seq<Call>, u: Str): (t: (nat, nat))
    requires Valid(calls)
    ensures t.0 + t.1 <= |calls|
  {
    if calls == [] then (0, 0)
    else
      var n := |calls| - 1;
      TallyStep(p, After(p, w, calls[..n]), calls[n], u, Tally(p, w, calls[..n], u))
  }

  /** The tally after one more call. */
  ghost function TallyStep(p: Params, w: World, c: Call, u: Str, t: (nat, nat)): (nat, nat)
    requires c.Valid()
  {
    (if Opens(p, w, c, u) then t.0 + 1 else t.0, if Closes(p, w, c, u) then t.1 + 1 else t.1)
  }

  ghost function Count(w: World, u: Str): nat {
    if u in w.service.sessions then w.service.sessions[u].count else 0
  }

  lemma Wrap(count: Word)
    ensures count + 1 < U64 ==> (count + 1) % U64 == count + 1
    ensures count >= 1 ==> (count + U64 - 1) % U64 == count - 1
  {
  }

  lemma OpenCounts(p: Params, w: World, c: Call, u: Str)
    requires c.Valid() && c.Open?
    ensures var w' := Step(p, w, c).0;
      if Opens(p, w, c, u) then
        u in w'.service.sessions && (Count(w, u) + 1 < U64 ==> Count(w', u) == Count(w, u) + 1)
      else (u in w'.service.sessions <==> u in w.service.sessions) && Count(w', u) == Count(w, u)
  {
    if c.found.Some? && c.found.value.name in w.service.sessions {
      Wrap(w.service.sessions[c.found.value.name].count);
    }
  }

  lemma CloseCounts(p: Params, w: World, c: Call, u: Str)
    requires c.Valid() && c.Close?
    requires c.found.Some? && c.found.value.name in w.service.sessions ==> Count(w, c.found.value.name) >= 1
    ensures var w' := Step(p, w, c).0;
      if Closes(p, w, c, u) then
        && Count(w, u) >= 1
        && (u in w'.service.sessions <==> Count(w, u) > 1)
        && Count(w', u) == Count(w, u) - 1
      else (u in w'.service.sessions <==> u in w.service.sessions) && Count(w', u) == Count(w, u)
  {
    if c.found.Some? && c.found.value.name in w.service.sessions {
      Wrap(w.service.sessions[c.found.value.name].count);
    }
  }

  /** In every run of fewer than 2^64 calls, a user has an entry exactly while successful opens
      outnumber successful closes, and its count is the difference. No close ever finds a count of
      zero to decrement. */
  lemma {:induction false} SessionsCount(p: Params, w: World, calls: seq<Call>, u: Str)
    requires Fresh(w) && Valid(calls) && |calls| < U64
    ensures Counted(After(p, w, calls), u, Tally(p, w, calls, u))
  {
    if calls != [] {
      var n := |calls| - 1;
      var before, c := After(p, w, calls[..n]), calls[n];
      var t := Tally(p, w, calls[..n], u);
      SessionsCount(p, w, calls[..n], u);
      if c.Close? && c.found.Some? {
        SessionsCount(p, w, calls[..n], c.found.value.name);
      }
      CountedStep(p, before, c, u, t);
    }
  }

  lemma CountedStep(p: Params, w: World, c: Call, u: Str, t: (nat, nat))
    requires c.Valid() && Counted(w, u, t) && t.0 + 1 < U64
    requires c.Close? && c.found.Some? && c.found.value.name in w.service.sessions
      ==> Count(w, c.found.value.name) >= 1
    ensures Counted(Step(p, w, c).0, u, TallyStep(p, w, c, u, t))
  {
    if c.Open? {
      CountedOpen(p, w, c, u, t);
    } else if c.Close? {
      CountedClose(p, w, c, u, t);
    } else {
      FailedCallsChangeNoSession(p, w, c);
    }
  }

  /** The entry of `u` is what `t.0` opens and `t.1` closes leave. */
  ghost predicate Counted(w: World, u: Str, t: (nat, nat)) {
    && t.1 <= t.0
    && (u in w.service.sessions <==> t.1 < t.0)
    && Count(w, u) == t.0 - t.1
  }

  lemma CountedOpen(p: Params, w: World, c: Call, u: Str, t: (nat, nat))
    requires c.Valid() && c.Open? && Counted(w, u, t) && t.0 + 1 < U64
    ensures Counted(Step(p, w, c).0, u, if Opens(p, w, c, u) then (t.0 + 1, t.1) else t)
  {
    OpenCounts(p, w, c, u);
  }

  lemma CountedClose(p: Params, w: World, c: Call, u: Str, t: (nat, nat))
    requires c.Valid() && c.Close? && Counted(w, u, t)
    requires c.found.Some? && c.found.value.name in w.service.sessions ==> Count(w, c.found.value.name) >= 1
    ensures Counted(Step(p, w, c).0, u, if Closes(p, w, c, u) then (t.0, t.1 + 1) else t)
  {
    CloseCounts(p, w, c, u);
  }

  /** A call that reports an error, or that is neither an open nor a close, leaves the sessions and
      the mounts in effect as they are. */
  lemma FailedCallsChangeNoSession(p: Params, w: World, c: Call)
    requires c.Valid()
    requires c.Open? || c.Close? ==> !Step(p, w, c).1.code.Success?
    ensures Step(p, w, c).0.service.sessions == w.service.sessions
    ensures Step(p, w, c).0.depth == w.depth
  {
  }
}
