/** One-time tokens over whole runs of the session service, for any hash function on tokens. */
module Tokens {
  import opened Prelude
  import opened Sessions
  import opened SessionRuns
  import opened SessionSteps
  import L = TokenLedger

  /** The call issues a token. */
  ghost predicate Issues(p: Params, w: World, c: Call)
    requires c.Valid()
  {
    c.Initiate? && Step(p, w, c).1.Issued?
  }

  /** The token of a frame that is looked at and decrypts. */
  ghost function Presented(p: Params, w: World, c: Call): Option<Str> {
    if Presenting(w, c) && Decrypts(p, w, c) then Some(TokenOf(p, w, c)) else None
  }

  /** The call creates a session entry. */
  ghost predicate Creates(p: Params, w: World, c: Call)
    requires c.Valid()
  {
    Presenting(w, c) && Step(p, w, c).1.code.Success?
  }

  /** What the call does to the token map, seen from the ledger. */
  ghost function EventOf(p: Params, w: World, c: Call): L.Event
    requires c.Valid()
  {
    if Issues(p, w, c) then L.Issue(c.token)
    else if Presented(p, w, c).Some? then L.Take(Presented(p, w, c).value, Creates(p, w, c))
    else L.Nothing
  }

  ghost function EventsOf(p: Params, w: World, calls: seq<Call>): (events: seq<L.Event>)
    requires Valid(calls)
    ensures |events| == |calls|
  {
    if calls == [] then []
    else
      var n := |calls| - 1;
      EventsOf(p, w, calls[..n]) + [EventOf(p, After(p, w, calls[..n]), calls[n])]
  }

  /** Each call acts on the token map as its ledger event does; a call that creates a session presents
      a token that is live. */
  lemma StepIsEvent(p: Params, w: World, c: Call)
    requires c.Valid()
    ensures Step(p, w, c).0.service.tokens == L.Apply(p.tokenHash, w.service.tokens, EventOf(p, w, c))
    ensures Creates(p, w, c) ==>
      Presented(p, w, c).Some? && L.Live(p.tokenHash, w.service.tokens, Presented(p, w, c).value)
  {
    match c {
      case Initiate(joined, token, serialized) => InitiateExact(p, w, joined, token, serialized);
      case Open(_, _, _, _, _, _) => OpenIsEvent(p, w, c);
      case _ =>
    }
  }

  lemma OpenIsEvent(p: Params, w: World, c: Call)
    requires c.Valid() && c.Open?
    ensures Step(p, w, c).0.service.tokens == L.Apply(p.tokenHash, w.service.tokens, EventOf(p, w, c))
    ensures Creates(p, w, c) ==>
      Presented(p, w, c).Some? && L.Live(p.tokenHash, w.service.tokens, Presented(p, w, c).value)
  {
    if Presenting(w, c) {
      FrameReply(p, w, c);
      FrameEffect(p, w, c);
    } else {
      OpenWithoutFrame(p, w, c);
    }
  }

  lemma {:induction false} EventAt(p: Params, w: World, calls: seq<Call>, i: nat)
    requires Valid(calls) && i < |calls|
    ensures EventsOf(p, w, calls)[i] == EventOf(p, Before(p, w, calls, i), calls[i])
    ensures EventsOf(p, w, calls)[..i] == EventsOf(p, w, calls[..i])
    decreases |calls|
  {
    var n := |calls| - 1;
    var init := EventsOf(p, w, calls[..n]);
    var events := init + [EventOf(p, After(p, w, calls[..n]), calls[n])];
    assert EventsOf(p, w, calls) == events;
    if i < n {
      EventAt(p, w, calls[..n], i);
      PrefixBefore(p, w, calls, n, i);
      assert calls[..n][..i] == calls[..i];
      assert events[..i] == init[..i] && events[i] == init[i];
    } else {
      assert events[..i] == init;
    }
  }

  lemma {:induction false} RunIsLedger(p: Params, w: World, calls: seq<Call>)
    requires Fresh(w) && Valid(calls)
    ensures After(p, w, calls).service.tokens == L.Tokens(p.tokenHash, EventsOf(p, w, calls))
  {
    if calls != [] {
      var n := |calls| - 1;
      RunIsLedger(p, w, calls[..n]);
      StepIsEvent(p, After(p, w, calls[..n]), calls[n]);
      assert EventsOf(p, w, calls)[..n] == EventsOf(p, w, calls[..n]);
    }
  }

  lemma RunIsLawful(p: Params, w: World, calls: seq<Call>)
    requires Fresh(w) && Valid(calls)
    ensures L.Lawful(p.tokenHash, EventsOf(p, w, calls))
  {
    var events := EventsOf(p, w, calls);
    forall j | 0 <= j < |events| ensures L.LawfulAt(p.tokenHash, events, j) {
      EventAt(p, w, calls, j);
      RunIsLedger(p, w, calls[..j]);
      StepIsEvent(p, Before(p, w, calls, j), calls[j]);
    }
  }

  // ----- the guarantees

  ghost predicate IssuesAt(p: Params, w: World, calls: seq<Call>, i: nat)
    requires Valid(calls) && i < |calls|
  {
    Issues(p, Before(p, w, calls, i), calls[i])
  }

  ghost predicate CreatesAt(p: Params, w: World, calls: seq<Call>, j: nat)
    requires Valid(calls) && j < |calls|
  {
    Creates(p, Before(p, w, calls, j), calls[j])
  }

  ghost function PresentedAt(p: Params, w: World, calls: seq<Call>, j: nat): Option<Str>
    requires Valid(calls) && j < |calls|
  {
    Presented(p, Before(p, w, calls, j), calls[j])
  }

  /** The events of a run: call `i` issues its token, or takes the token of its frame and then creates
      a session or not, or leaves the tokens alone. */
  lemma EventMeaning(p: Params, w: World, calls: seq<Call>, i: nat)
    requires Valid(calls) && i < |calls|
    ensures var e := EventsOf(p, w, calls)[i];
      && (e.Issue? <==> IssuesAt(p, w, calls, i))
      && (e.Issue? ==> e.token == calls[i].token)
      && (e.Take? && e.creates <==> CreatesAt(p, w, calls, i))
      && (e.Take? <==> PresentedAt(p, w, calls, i).Some?)
      && (e.Take? ==> PresentedAt(p, w, calls, i) == Some(e.token))
  {
    EventAt(p, w, calls, i);
    StepIsEvent(p, Before(p, w, calls, i), calls[i]);
  }

  /** In every run, the live tokens and the sessions ever created together never outnumber the tokens issued. */
  lemma TokensConserved(p: Params, w: World, calls: seq<Call>)
    requires Fresh(w) && Valid(calls)
    ensures var events := EventsOf(p, w, calls);
      |After(p, w, calls).service.tokens| + L.Creations(events) <= L.Issues(events)
  {
    RunIsLawful(p, w, calls);
    RunIsLedger(p, w, calls);
    L.LedgerBalance(p.tokenHash, EventsOf(p, w, calls));
  }

  /** The sessions created in a run are matched, one to one, to earlier issues of the token they used. */
  lemma CreationsMatchIssues(p: Params, w: World, calls: seq<Call>) returns (origin: map<nat, nat>)
    requires Fresh(w) && Valid(calls)
    ensures var events := EventsOf(p, w, calls);
      && (forall j: nat :: j in origin <==> j < |events| && events[j].Take? && events[j].creates)
      && (forall j :: j in origin ==> origin[j] < j && events[origin[j]] == L.Issue(events[j].token))
      && (forall j, k :: j in origin && k in origin && j != k ==> origin[j] != origin[k])
  {
    RunIsLawful(p, w, calls);
    var events := EventsOf(p, w, calls);
    L.OriginsMatch(p.tokenHash, events);
    L.OriginsAreDistinct(p.tokenHash, events);
    origin := L.OriginsOf(p.tokenHash, events).used;
  }

  /** No replay: once a call has taken a token, no later call creates a session with it unless it was
      issued again in between. So one frame creates at most one session for each time its token is
      issued, and a frame refused after its token was taken creates none. */
  lemma NoReplay(p: Params, w: World, calls: seq<Call>, i: nat, j: nat, t: Str, created: bool)
    requires Fresh(w) && Valid(calls) && i < j < |calls|
    requires EventsOf(p, w, calls)[i] == L.Take(t, created) && EventsOf(p, w, calls)[j] == L.Take(t, true)
    ensures exists k :: i < k < j && EventsOf(p, w, calls)[k] == L.Issue(t)
  {
    RunIsLawful(p, w, calls);
    L.NoSecondCreation(p.tokenHash, EventsOf(p, w, calls), i, j);
  }
}
