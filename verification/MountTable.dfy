/** Mounting a user's directories, all or nothing: `src/pam/mount.rs`. The kernel is an oracle that
    lets each attempt succeed or fail; unmounting succeeds. */
module MountTable {
  import opened Prelude
  import opened Mounts

  /** A mount the service holds: what the kernel was asked for, and where it sits. */
  datatype Mount = Mount(fstype: Option<Str>, data: Option<Str>, source: Str, target: Str)

  /** The part of the user database entry that mounting needs. */
  datatype User = User(name: Str, uid: nat, gid: nat, home: Str)

  /** A configuration as loaded by a login, with the orders in which two passes over its premounts meet them. */
  datatype Loaded = Loaded(cfg: MountPoints, hashOrder: seq<Str>, mountOrder: seq<Str>)
  {
    ghost predicate Valid() {
      Enumerates(hashOrder, cfg.mounts) && Enumerates(mountOrder, cfg.mounts)
    }
  }

  /** Does attempt number `i` of a login succeed? */
  type Oracle = nat -> bool

  /** What `mount` asks the kernel for; without a type, the options are not passed either. */
  function Request(fstype: Str, data: Str, source: Str, target: Str): Mount {
    if fstype == [] then Mount(None, None, source, target)
    else Mount(Some(fstype), Some(data), source, target)
  }

  /** `mount_xdg`: a private tmpfs for the user's runtime directory. */
  function RuntimeRequest(user: User): Mount {
    Request(
      Ascii("tmpfs"),
      Ascii("uid=") + Decimal(user.uid) + Ascii(",gid=") + Decimal(user.gid),
      Ascii("tmpfs"),
      Ascii("/tmp/xdg/") + Decimal(user.uid))
  }

  function ParamsRequest(params: MountParams, target: Str): Mount {
    Request(params.fstype, Join(params.flags), params.device, target)
  }

  function PremountRequests(list: seq<Premount>): (r: seq<Mount>)
    ensures |r| == |list|
  {
    seq(|list|, i requires 0 <= i < |list| => ParamsRequest(list[i].params, list[i].dir))
  }

  /** What a configuration asks for: each premount in the order met, then the home directory. */
  ghost function ConfiguredRequests(loaded: Option<Loaded>, user: User): seq<Mount>
    requires loaded.Some? ==> loaded.value.Valid()
  {
    match loaded
    case None => []
    case Some(l) =>
      PremountRequests(Listing(l.cfg, l.mountOrder)) + [ParamsRequest(l.cfg.home, user.home)]
  }

  /** Everything a login has to mount, the runtime directory first. */
  ghost function Requests(loaded: Option<Loaded>, user: User): seq<Mount>
    requires loaded.Some? ==> loaded.value.Valid()
  {
    [RuntimeRequest(user)] + ConfiguredRequests(loaded, user)
  }

  /** The first `n` attempts succeed. */
  ghost predicate AllSucceed(oracle: Oracle, n: nat) {
    n == 0 || (AllSucceed(oracle, n - 1) && oracle(n - 1))
  }

  /** One failure is enough, whatever comes after it. */
  lemma {:induction false} FailureLasts(oracle: Oracle, m: nat, n: nat)
    requires m <= n && !AllSucceed(oracle, m)
    ensures !AllSucceed(oracle, n)
  {
    if m < n {
      FailureLasts(oracle, m, n - 1);
    }
  }

  /** All the requests when every attempt succeeds, nothing otherwise. */
  ghost function Mounted(loaded: Option<Loaded>, user: User, oracle: Oracle): seq<Mount>
    requires loaded.Some? ==> loaded.value.Valid()
  {
    AllOrNothing(Requests(loaded, user), oracle)
  }

  ghost function AllOrNothing(requests: seq<Mount>, oracle: Oracle): seq<Mount> {
    if AllSucceed(oracle, |requests|) then requests else []
  }

  /** The paths a list of mounts covers, with multiplicity. */
  function Targets(mounts: seq<Mount>): multiset<Str> {
    if mounts == [] then multiset{} else multiset{mounts[0].target} + Targets(mounts[1..])
  }

  lemma {:induction false} TargetsAppend(a: seq<Mount>, b: seq<Mount>)
    ensures Targets(a + b) == Targets(a) + Targets(b)
  {
    if a == [] {
      assert a + b == b;
    } else {
      assert (a + b)[1..] == a[1..] + b;
      TargetsAppend(a[1..], b);
    }
  }

  /** Mounting one more path on top of others. */
  lemma TargetsPush(others: multiset<Str>, mounts: seq<Mount>, m: Mount)
    ensures others + Targets(mounts) + multiset{m.target} == others + Targets(mounts + [m])
  {
    TargetsAppend(mounts, [m]);
  }

  lemma AddThenRemove(others: multiset<Str>, some: multiset<Str>)
    ensures others + some - some == others
  {
  }

  lemma TakeOneThenRest(all: multiset<Str>, one: multiset<Str>, rest: multiset<Str>)
    ensures all - one - rest == all - (one + rest)
  {
  }

  /** The mounts in effect: how deep each path is covered. */
  class Table {
    var depth: multiset<Str>

    constructor (initial: multiset<Str>)
      ensures depth == initial
    {
      depth := initial;
    }

    /** One attempt at the kernel. */
    method Attempt(request: Mount, succeeds: bool) returns (mounted: Option<Mount>)
      modifies this
      ensures mounted == if succeeds then Some(request) else None
      ensures depth == old(depth) + if succeeds then multiset{request.target} else multiset{}
    {
      if succeeds {
        depth := depth + multiset{request.target};
        mounted := Some(request);
      } else {
        mounted := None;
      }
    }

    /** Dropping a list of mounts unmounts each of them, front to back. */
    method Drop(mounts: seq<Mount>)
      modifies this
      ensures depth == old(depth) - Targets(mounts)
    {
      for i := 0 to |mounts|
        invariant depth - Targets(mounts[i..]) == old(depth) - Targets(mounts)
      {
        assert mounts[i..][1..] == mounts[i + 1..];
        TakeOneThenRest(depth, multiset{mounts[i].target}, Targets(mounts[i + 1..]));
        depth := depth - multiset{mounts[i].target};
      }
    }

    /** An early exit of `mount_all` drops what was mounted on top of others. */
    method Abandon(mounts: seq<Mount>, ghost others: multiset<Str>)
      requires depth == others + Targets(mounts)
      modifies this
      ensures depth == others
    {
      AddThenRemove(others, Targets(mounts));
      Drop(mounts);
    }

    /** `mount_all`: an early exit drops, and so unmounts, everything mounted so far. */
    method MountAll(loaded: Option<Loaded>, user: User, oracle: Oracle) returns (mounts: seq<Mount>)
      requires loaded.Some? ==> loaded.value.Valid()
      modifies this
      ensures mounts == Mounted(loaded, user, oracle)
      ensures depth == old(depth) + Targets(mounts)
    {
      var runtimeRequest := RuntimeRequest(user);
      var runtime := Attempt(runtimeRequest, oracle(0));
      if runtime.None? {
        FailureLasts(oracle, 1, |Requests(loaded, user)|);
        return [];
      }
      mounts := [runtime.value];
      if loaded.None? {
        assert mounts == Requests(loaded, user);
        return;
      }
      var list := Listing(loaded.value.cfg, loaded.value.mountOrder);
      var homeRequest := ParamsRequest(loaded.value.cfg.home, user.home);
      mounts := MountConfigured(PremountRequests(list), homeRequest, oracle, runtime.value, old(depth));
    }

    /** The part of `mount_all` that a configuration asks for. */
    method MountConfigured(
        premounts: seq<Mount>, homeRequest: Mount, oracle: Oracle, runtime: Mount, ghost others: multiset<Str>)
      returns (mounts: seq<Mount>)
      requires oracle(0) && depth == others + multiset{runtime.target}
      modifies this
      ensures mounts == AllOrNothing([runtime] + (premounts + [homeRequest]), oracle)
      ensures depth == others + Targets(mounts)
    {
      var ok;
      ok, mounts := MountPremounts(premounts, oracle, runtime, others);
      if !ok {
        return [];
      }
      mounts := MountHome(mounts, homeRequest, oracle(|mounts|), others);
      assert [runtime] + premounts + [homeRequest] == [runtime] + (premounts + [homeRequest]);
    }

    /** The last step of `mount_all`. */
    method MountHome(before: seq<Mount>, homeRequest: Mount, succeeds: bool, ghost others: multiset<Str>)
      returns (mounts: seq<Mount>)
      requires depth == others + Targets(before)
      modifies this
      ensures mounts == if succeeds then before + [homeRequest] else []
      ensures depth == others + Targets(mounts)
    {
      var home := Attempt(homeRequest, succeeds);
      if home.None? {
        Abandon(before, others);
        return [];
      }
      TargetsPush(others, before, homeRequest);
      mounts := before + [home.value];
    }

    /** The loop of `mount_all`, entered with the runtime directory mounted. */
    method MountPremounts(requests: seq<Mount>, oracle: Oracle, runtime: Mount, ghost others: multiset<Str>)
      returns (ok: bool, mounts: seq<Mount>)
      requires oracle(0) && depth == others + multiset{runtime.target}
      modifies this
      ensures ok == AllSucceed(oracle, |requests| + 1)
      ensures ok ==> mounts == [runtime] + requests
      ensures depth == if ok then others + Targets(mounts) else others
    {
      mounts := [runtime];
      for i := 0 to |requests|
        invariant mounts == [runtime] + requests[..i]
        invariant AllSucceed(oracle, i + 1)
        invariant depth == others + Targets(mounts)
      {
        var mounted := Attempt(requests[i], oracle(i + 1));
        if mounted.None? {
          Abandon(mounts, others);
          FailureLasts(oracle, i + 2, |requests| + 1);
          return false, [];
        }
        TargetsPush(others, mounts, requests[i]);
        assert requests[..i + 1] == requests[..i] + [requests[i]];
        mounts := mounts + [mounted.value];
      }
      assert requests[..|requests|] == requests;
      ok := true;
    }
  }

  /** The paths a configuration covers: every premount directory once, and the home directory. */
  ghost function Configured(loaded: Option<Loaded>, user: User): multiset<Str> {
    match loaded
    case None => multiset{}
    case Some(l) => multiset(l.cfg.mounts.Keys) + multiset{user.home}
  }

  /** The mount that the kernel must make for some parameters: the device is the source, and type and
      comma-joined flags are passed only when there is a type. */
  ghost predicate MadeFrom(m: Mount, params: MountParams, target: Str) {
    && m.target == target
    && m.source == params.device
    && m.fstype == (if params.fstype == [] then None else Some(params.fstype))
    && m.data == (if params.fstype == [] then None else Some(Join(params.flags)))
  }

  /** A tmpfs for the user's runtime directory `/tmp/xdg/UID`, with the options `uid=UID,gid=GID`. */
  ghost predicate IsRuntime(m: Mount, user: User) {
    && m.fstype == Some([116, 109, 112, 102, 115]) && m.source == [116, 109, 112, 102, 115]
    && m.target == [47, 116, 109, 112, 47, 120, 100, 103, 47] + Decimal(user.uid)
    && m.data == Some([117, 105, 100, 61] + Decimal(user.uid) + [44, 103, 105, 100, 61] + Decimal(user.gid))
  }

  /** How many mounts a login makes: the runtime directory; and every premount and the home directory. */
  ghost function Needed(loaded: Option<Loaded>): nat {
    if loaded.None? then 1 else 2 + |loaded.value.cfg.mounts|
  }

  /** The list holds the runtime mount, each premount of the configuration in the order met, and the
      home mount, each made from its own parameters, and nothing else. */
  ghost predicate MadeFor(mounts: seq<Mount>, loaded: Option<Loaded>, user: User)
    requires loaded.Some? ==> loaded.value.Valid()
  {
    && |mounts| == Needed(loaded)
    && IsRuntime(mounts[0], user)
    && (loaded.Some? ==>
          var cfg, order := loaded.value.cfg, loaded.value.mountOrder;
          && |order| + 2 == |mounts|
          && (forall i :: 0 <= i < |order| ==>
                order[i] in cfg.mounts && MadeFrom(mounts[i + 1], cfg.mounts[order[i]], order[i]))
          && MadeFrom(mounts[|order| + 1], cfg.home, user.home))
  }

  lemma {:induction false} AllSucceedMeaning(oracle: Oracle, n: nat)
    ensures AllSucceed(oracle, n) <==> forall i: nat :: i < n ==> oracle(i)
  {
    if n > 0 {
      AllSucceedMeaning(oracle, n - 1);
    }
  }

  lemma OrderLength(order: seq<Str>, keys: set<Str>)
    requires forall k :: k in order <==> k in keys
    requires forall i, j :: 0 <= i < j < |order| ==> order[i] != order[j]
    ensures |order| == |keys|
  {
    DistinctMultiset(order, keys);
    assert |multiset(order)| == |order| && |multiset(keys)| == |keys|;
  }

  lemma RuntimeOctets(user: User)
    ensures IsRuntime(RuntimeRequest(user), user)
  {
    assert Ascii("tmpfs") == [116, 109, 112, 102, 115];
    assert Ascii("uid=") == [117, 105, 100, 61];
    assert Ascii(",gid=") == [44, 103, 105, 100, 61];
    assert Ascii("/tmp/xdg/") == [47, 116, 109, 112, 47, 120, 100, 103, 47];
  }

  /** Three parts laid end to end. */
  lemma Positions(first: Mount, middle: seq<Mount>, last: Mount)
    ensures var all := [first] + (middle + [last]);
      && |all| == |middle| + 2 && all[0] == first && all[|middle| + 1] == last
      && forall i :: 0 <= i < |middle| ==> all[i + 1] == middle[i]
  {
  }

  lemma ConfiguredMade(l: Loaded, user: User)
    requires l.Valid()
    ensures MadeFor(Requests(Some(l), user), Some(l), user)
  {
    var cfg, order := l.cfg, l.mountOrder;
    OrderLength(order, cfg.mounts.Keys);
    assert |cfg.mounts.Keys| == |cfg.mounts|;
    var premounts := PremountRequests(Listing(cfg, order));
    Positions(RuntimeRequest(user), premounts, ParamsRequest(cfg.home, user.home));
    var all := [RuntimeRequest(user)] + (premounts + [ParamsRequest(cfg.home, user.home)]);
    RuntimeOctets(user);
    forall i | 0 <= i < |order|
      ensures order[i] in cfg.mounts && MadeFrom(all[i + 1], cfg.mounts[order[i]], order[i])
    {
      assert all[i + 1] == premounts[i] == ParamsRequest(cfg.mounts[order[i]], order[i]);
    }
  }

  lemma RequestsMade(loaded: Option<Loaded>, user: User)
    requires loaded.Some? ==> loaded.value.Valid()
    ensures MadeFor(Requests(loaded, user), loaded, user)
  {
    if loaded.Some? {
      ConfiguredMade(loaded.value, user);
    } else {
      RuntimeOctets(user);
    }
  }

  /** `mount_all` succeeds exactly when every attempt does. It then holds the runtime mount, made
      first, every premount once and one home mount, each with its own parameters, and these paths are
      covered; otherwise it holds nothing. */
  lemma MountedExactly(loaded: Option<Loaded>, user: User, oracle: Oracle)
    requires loaded.Some? ==> loaded.value.Valid()
    ensures var m := Mounted(loaded, user, oracle);
      && (m != [] <==> forall i: nat :: i < Needed(loaded) ==> oracle(i))
      && (m != [] ==>
            && MadeFor(m, loaded, user)
            && Targets(m) == multiset{m[0].target}
                 + (if loaded.None? then multiset{} else multiset(loaded.value.cfg.mounts.Keys) + multiset{user.home}))
  {
    RequestsMade(loaded, user);
    AllSucceedMeaning(oracle, Needed(loaded));
    TargetsAppend([RuntimeRequest(user)], ConfiguredRequests(loaded, user));
    ConfiguredTargets(loaded, user);
  }

  lemma ConfiguredTargets(loaded: Option<Loaded>, user: User)
    requires loaded.Some? ==> loaded.value.Valid()
    ensures Targets(ConfiguredRequests(loaded, user)) == Configured(loaded, user)
  {
    if loaded.Some? {
      var l := loaded.value;
      PremountsCovered(l.cfg, l.mountOrder);
      TargetsWithHome(PremountRequests(Listing(l.cfg, l.mountOrder)), ParamsRequest(l.cfg.home, user.home));
    }
  }

  lemma PremountsCovered(cfg: MountPoints, order: seq<Str>)
    requires Enumerates(order, cfg.mounts)
    ensures Targets(PremountRequests(Listing(cfg, order))) == multiset(cfg.mounts.Keys)
  {
    PremountTargets(cfg, order, PremountRequests(Listing(cfg, order)));
    DistinctMultiset(order, cfg.mounts.Keys);
  }

  lemma TargetsWithHome(premounts: seq<Mount>, home: Mount)
    ensures Targets(premounts + [home]) == Targets(premounts) + multiset{home.target}
  {
    TargetsAppend(premounts, [home]);
  }

  lemma {:induction false} PremountTargets(cfg: MountPoints, order: seq<Str>, premounts: seq<Mount>)
    requires |premounts| == |order|
    requires forall i :: 0 <= i < |order| ==> premounts[i].target == order[i]
    ensures Targets(premounts) == multiset(order)
  {
    if order != [] {
      PremountTargets(cfg, order[1..], premounts[1..]);
      assert order == [order[0]] + order[1..];
    }
  }

  lemma {:induction false} DistinctMultiset(order: seq<Str>, keys: set<Str>)
    requires forall k :: k in order <==> k in keys
    requires forall i, j :: 0 <= i < j < |order| ==> order[i] != order[j]
    ensures multiset(order) == multiset(keys)
  {
    if order != [] {
      var n := |order| - 1;
      var rest := keys - {order[n]};
      forall k ensures k in order[..n] <==> k in rest {
        if k in rest {
          var i :| 0 <= i < |order| && order[i] == k;
          assert order[..n][i] == k;
        }
      }
      DistinctMultiset(order[..n], rest);
      assert order == order[..n] + [order[n]];
      assert keys == rest + {order[n]};
    }
  }
}
