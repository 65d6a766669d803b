/** The token map of the session service as a ledger of its own: tokens are issued under the key they
    hash to, and taken out by the calls that present them. */
module TokenLedger {
  import opened Prelude

  /** What a call does to the token map. A call that takes a token may go on to create a session. */
  datatype Event =
    | Issue(token: Str)
    | Take(token: Str, creates: bool)
    | Nothing

  type TokenHash = Str -> Word

  function Apply(hash: TokenHash, tokens: map<Word, Str>, e: Event): map<Word, Str> {
    match e
    case Issue(t) => tokens[hash(t) := t]
    case Take(t, _) => tokens - {hash(t)}
    case Nothing => tokens
  }

  ghost function Tokens(hash: TokenHash, events: seq<Event>): map<Word, Str> {
    if events == [] then map[]
    else Apply(hash, Tokens(hash, events[..|events| - 1]), events[|events| - 1])
  }

  ghost predicate Live(hash: TokenHash, tokens: map<Word, Str>, t: Str) {
    hash(t) in tokens && tokens[hash(t)] == t
  }

  /** Only a live token creates a session. */
  ghost predicate Lawful(hash: TokenHash, events: seq<Event>) {
    forall j :: 0 <= j < |events| ==> LawfulAt(hash, events, j)
  }

  ghost predicate LawfulAt(hash: TokenHash, events: seq<Event>, j: nat)
    requires j < |events|
  {
    events[j].Take? && events[j].creates ==> Live(hash, Tokens(hash, events[..j]), events[j].token)
  }

  lemma LawfulPrefix(hash: TokenHash, events: seq<Event>, n: nat)
    requires n <= |events| && Lawful(hash, events)
    ensures Lawful(hash, events[..n])
  {
    forall j | 0 <= j < n ensures LawfulAt(hash, events[..n], j) {
      assert LawfulAt(hash, events, j);
      assert events[..n][..j] == events[..j];
    }
  }

  // ----- conservation

  /** Which event issued the token stored under a key, and the token each creating event used. */
  datatype Origins = Origins(live: map<Word, nat>, used: map<nat, nat>)

  ghost function Record(hash: TokenHash, o: Origins, n: nat, e: Event): Origins {
    match e
    case Issue(t) => o.(live := o.live[hash(t) := n])
    case Take(t, creates) =>
      Origins(o.live - {hash(t)}, if creates && hash(t) in o.live then o.used[n := o.live[hash(t)]] else o.used)
    case Nothing => o
  }

  ghost function OriginsOf(hash: TokenHash, events: seq<Event>): Origins {
    if events == [] then Origins(map[], map[])
    else
      var n := |events| - 1;
      Record(hash, OriginsOf(hash, events[..n]), n, events[n])
  }

  /** The stored tokens are those of the issues on record. */
  ghost predicate LiveOk(hash: TokenHash, events: seq<Event>) {
    var o, tokens := OriginsOf(hash, events), Tokens(hash, events);
    && o.live.Keys == tokens.Keys
    && forall h :: h in o.live ==>
         o.live[h] < |events| && events[o.live[h]] == Issue(tokens[h]) && hash(tokens[h]) == h
  }

  /** No issue is on record twice. */
  ghost predicate Distinct(o: Origins) {
    && (forall j, k :: j in o.used && k in o.used && j != k ==> o.used[j] != o.used[k])
    && (forall j, h :: j in o.used && h in o.live ==> o.used[j] != o.live[h])
    && (forall h, k :: h in o.live && k in o.live && h != k ==> o.live[h] != o.live[k])
  }

  /** The creating events are exactly the ones on record, each matched to an earlier issue of its token. */
  ghost predicate UsedOk(events: seq<Event>, o: Origins) {
    && (forall j: nat :: j in o.used <==> j < |events| && events[j].Take? && events[j].creates)
    && (forall j :: j in o.used ==> o.used[j] < j && events[o.used[j]] == Issue(events[j].token))
  }

  lemma {:induction false} OriginsAreLive(hash: TokenHash, events: seq<Event>)
    ensures LiveOk(hash, events)
  {
    if events != [] {
      OriginsAreLive(hash, events[..|events| - 1]);
    }
  }

  ghost predicate Below(o: Origins, n: nat) {
    && (forall j :: j in o.used ==> j < n && o.used[j] < n)
    && (forall h :: h in o.live ==> o.live[h] < n)
  }

  lemma RecordIssue(hash: TokenHash, o: Origins, n: nat, t: Str)
    requires Distinct(o) && Below(o, n)
    ensures Distinct(Record(hash, o, n, Issue(t))) && Below(Record(hash, o, n, Issue(t)), n + 1)
  {
  }

  lemma RecordTake(hash: TokenHash, o: Origins, n: nat, t: Str, creates: bool)
    requires Distinct(o) && Below(o, n)
    ensures var o' := Record(hash, o, n, Take(t, creates)); Distinct(o') && Below(o', n + 1)
  {
  }

  lemma {:induction false} OriginsAreDistinct(hash: TokenHash, events: seq<Event>)
    ensures Distinct(OriginsOf(hash, events)) && Below(OriginsOf(hash, events), |events|)
  {
    if events != [] {
      var n := |events| - 1;
      OriginsAreDistinct(hash, events[..n]);
      match events[n] {
        case Issue(t) => RecordIssue(hash, OriginsOf(hash, events[..n]), n, t);
        case Take(t, creates) => RecordTake(hash, OriginsOf(hash, events[..n]), n, t, creates);
        case Nothing =>
      }
    }
  }

  lemma {:induction false} OriginsMatch(hash: TokenHash, events: seq<Event>)
    requires Lawful(hash, events)
    ensures UsedOk(events, OriginsOf(hash, events))
  {
    if events != [] {
      var n := |events| - 1;
      LawfulPrefix(hash, events, n);
      OriginsMatch(hash, events[..n]);
      OriginsAreLive(hash, events[..n]);
      assert LawfulAt(hash, events, n);
      var o := OriginsOf(hash, events[..n]);
      forall j | j in o.used ensures o.used[j] < j && events[o.used[j]] == Issue(events[j].token) {
        assert events[..n][o.used[j]] == Issue(events[..n][j].token);
      }
    }
  }

  ghost function Issues(events: seq<Event>): nat {
    if events == [] then 0
    else Issues(events[..|events| - 1]) + (if events[|events| - 1].Issue? then 1 else 0)
  }

  ghost function Creations(events: seq<Event>): nat {
    if events == [] then 0
    else
      var last := events[|events| - 1];
      Creations(events[..|events| - 1]) + (if last.Take? && last.creates then 1 else 0)
  }

  lemma {:induction false} LedgerBalance(hash: TokenHash, events: seq<Event>)
    requires Lawful(hash, events)
    ensures |Tokens(hash, events)| + Creations(events) <= Issues(events)
  {
    if events != [] {
      var n := |events| - 1;
      LawfulPrefix(hash, events, n);
      LedgerBalance(hash, events[..n]);
      assert LawfulAt(hash, events, n);
      if events[n].Take? {
        Removal(Tokens(hash, events[..n]), hash(events[n].token));
      }
    }
  }

  lemma Removal(m: map<Word, Str>, h: Word)
    ensures |m - {h}| == if h in m then |m| - 1 else |m|
  {
    assert (m - {h}).Keys == m.Keys - {h};
    assert |(m - {h}).Keys| == |m - {h}| && |m.Keys| == |m|;
  }

  // ----- no replay

  /** A token that is not live stays dead until it is issued again. */
  lemma {:induction false} DeadStaysDead(hash: TokenHash, events: seq<Event>, t: Str, from: nat)
    requires from <= |events|
    requires !Live(hash, Tokens(hash, events[..from]), t)
    requires forall i :: from <= i < |events| ==> events[i] != Issue(t)
    ensures !Live(hash, Tokens(hash, events), t)
    decreases |events| - from
  {
    if from == |events| {
      assert events[..from] == events;
    } else {
      assert events[..from + 1][..from] == events[..from];
      DeadStaysDead(hash, events, t, from + 1);
    }
  }

  /** Between two creating events with one token lies another issue of it. */
  lemma NoSecondCreation(hash: TokenHash, events: seq<Event>, i: nat, j: nat)
    requires Lawful(hash, events) && i < j < |events|
    requires events[i].Take? && events[j] == Take(events[i].token, true)
    ensures exists k :: i < k < j && events[k] == Issue(events[i].token)
  {
    var t := events[i].token;
    assert LawfulAt(hash, events, j);
    if forall k :: i < k < j ==> events[k] != Issue(t) {
      var before := events[..j];
      assert before[..i + 1] == events[..i + 1] && events[..i + 1][..i] == events[..i];
      DeadStaysDead(hash, before, t, i + 1);
    }
  }
}
