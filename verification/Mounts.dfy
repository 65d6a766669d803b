/** Mount configurations and the octets their digest is computed from: `src/mount.rs`. */
module Mounts {
  import opened Prelude
  import opened Words

  datatype MountParams = MountParams(device: Str, fstype: Str, flags: seq<Str>)

  datatype MountPoints = MountPoints(home: MountParams, mounts: map<Str, MountParams>)
  {
    /** `with_premount`: what was set for the directory before goes first. */
    function WithPremount(dir: Str, params: MountParams): MountPoints {
      this.(mounts := (mounts - {dir})[dir := params])
    }

    /** `with_mount`. */
    function WithMount(params: MountParams): MountPoints {
      this.(home := params)
    }

    /** Premounts added one after the other. */
    function WithPremounts(list: seq<Premount>): MountPoints {
      if list == [] then this
      else
        var last := list[|list| - 1];
        WithPremounts(list[..|list| - 1]).WithPremount(last.dir, last.params)
    }
  }

  /** One entry met while iterating over the premounts. */
  datatype Premount = Premount(dir: Str, params: MountParams)

  /** The premounts in the order the map iterates over them. */
  function Listing(cfg: MountPoints, order: seq<Str>): (list: seq<Premount>)
    requires forall dir :: dir in order ==> dir in cfg.mounts
    ensures |list| == |order|
    ensures forall i :: 0 <= i < |list| ==>
      list[i].dir == order[i] && list[i].dir in cfg.mounts && list[i].params == cfg.mounts[list[i].dir]
  {
    seq(|order|, i requires 0 <= i < |order| =>
      assert order[i] in order; Premount(order[i], cfg.mounts[order[i]]))
  }

  /** `flags.concat()`. */
  function Concat(parts: seq<Str>): Str {
    if parts == [] then [] else parts[0] + Concat(parts[1..])
  }

  /** `flags.join(",")`. */
  function Join(parts: seq<Str>): Str {
    if parts == [] then []
    else if |parts| == 1 then parts[0]
    else parts[0] + [44] + Join(parts[1..])
  }

  /** However premounts are added, each directory has what was set for it last. */
  lemma {:induction false} LastPremountWins(cfg: MountPoints, list: seq<Premount>, i: nat)
    requires i < |list| && (forall j :: i < j < |list| ==> list[j].dir != list[i].dir)
    ensures var r := cfg.WithPremounts(list);
      list[i].dir in r.mounts && r.mounts[list[i].dir] == list[i].params
  {
    var n := |list| - 1;
    if i < n {
      LastPremountWins(cfg, list[..n], i);
    }
  }

  /** Adding premounts touches no other directory, and commutes with replacing the home mount. */
  lemma {:induction false} OtherMountsStay(cfg: MountPoints, list: seq<Premount>, dir: Str, home: MountParams)
    requires forall p :: p in list ==> p.dir != dir
    ensures var r := cfg.WithPremounts(list);
      && (dir in r.mounts <==> dir in cfg.mounts)
      && (dir in r.mounts ==> r.mounts[dir] == cfg.mounts[dir])
      && r.home == cfg.home
    ensures cfg.WithMount(home) == MountPoints(home, cfg.mounts)
    ensures cfg.WithPremounts(list).WithMount(home) == cfg.WithMount(home).WithPremounts(list)
  {
    if list != [] {
      OtherMountsStay(cfg, list[..|list| - 1], dir, home);
    }
  }

  /** Concatenation keeps every string whole and in order. */
  lemma {:induction false} ConcatAppend(a: seq<Str>, b: seq<Str>)
    ensures Concat(a + b) == Concat(a) + Concat(b)
    ensures forall f :: Concat([f]) == f
  {
    if a == [] {
      assert a + b == b;
    } else {
      assert (a + b)[1..] == a[1..] + b;
      ConcatAppend(a[1..], b);
    }
  }

  /** Joining puts one comma between any two neighbours, and nothing else. */
  lemma {:induction false} JoinAppend(a: seq<Str>, b: seq<Str>)
    requires a != [] && b != []
    ensures Join(a + b) == Join(a) + [44] + Join(b)
    ensures Join([]) == [] && forall f :: Join([f]) == f
  {
    if |a| > 1 {
      assert (a + b)[1..] == a[1..] + b;
      JoinAppend(a[1..], b);
    } else {
      assert (a + b)[1..] == b;
    }
  }

  // ----- the octets fed to the hasher

  /** `write_usize` on a little-endian machine with 64-bit words. */
  function Index(i: nat): (r: Str)
    ensures |r| == 8
  {
    Digits(i, 8)
  }

  /** What the flags from position `k` on contribute. */
  function FlagOctets(flags: seq<Str>, k: nat): Str
    requires k <= |flags|
    decreases |flags| - k
  {
    if k == |flags| then [] else Index(k) + flags[k] + FlagOctets(flags, k + 1)
  }

  /** What one premount contributes before its flags. */
  function PremountHead(p: Premount, i: nat): Str {
    Index(i) + [0] + p.dir + [1] + p.params.device + [2] + p.params.fstype + [3]
  }

  /** What the premounts from position `i` on contribute. */
  function PremountOctets(list: seq<Premount>, i: nat): Str
    requires i <= |list|
    decreases |list| - i
  {
    if i == |list| then []
    else PremountHead(list[i], i) + FlagOctets(list[i].params.flags, 0) + PremountOctets(list, i + 1)
  }

  function HomeOctets(home: MountParams): Str {
    home.device + home.fstype + Concat(home.flags)
  }

  /** The whole preimage of the digest. */
  function Preimage(home: MountParams, list: seq<Premount>): Str {
    HomeOctets(home) + PremountOctets(list, 0)
  }

  /** The digest of a configuration met in a given iteration order: the hasher yields 64 bits, for any
      function it may compute, and they are written in hexadecimal. */
  function DigestOf(digest: Str -> Word, cfg: MountPoints, order: seq<Str>): Str
    requires forall dir :: dir in order ==> dir in cfg.mounts
  {
    Hex(digest(Preimage(cfg.home, Listing(cfg, order))))
  }

  // ----- what the preimage looks like

  lemma {:induction false} FlagsGrow(flags: seq<Str>, f: Str, k: nat)
    requires k <= |flags|
    ensures FlagOctets(flags + [f], k) == FlagOctets(flags, k) + Digits(|flags|, 8) + f
    decreases |flags| - k
  {
    if k < |flags| {
      FlagsGrow(flags, f, k + 1);
    }
  }

  lemma {:induction false} PremountsGrow(list: seq<Premount>, p: Premount, i: nat)
    requires i <= |list|
    ensures PremountOctets(list + [p], i)
      == PremountOctets(list, i) + (PremountHead(p, |list|) + FlagOctets(p.params.flags, 0))
    decreases |list| - i
  {
    var all, added := list + [p], PremountHead(p, |list|) + FlagOctets(p.params.flags, 0);
    if i < |list| {
      PremountsGrow(list, p, i + 1);
      assert all[i] == list[i];
      var head, flags := PremountHead(list[i], i), FlagOctets(list[i].params.flags, 0);
      Regroup(head, flags, PremountOctets(list, i + 1), added);
      assert PremountOctets(all, i) == head + flags + (PremountOctets(list, i + 1) + added);
    } else {
      assert all[i] == p && PremountOctets(all, i + 1) == [];
      assert added + [] == added;
    }
  }

  /** The preimage starts with the home device, type and flags, run together. Each further premount
      adds its position in eight octets, a zero, and its directory, device and type, ended by the
      octets 1, 2 and 3; then its flags. */
  lemma PreimageGrows(home: MountParams, list: seq<Premount>, p: Premount)
    ensures Preimage(home, []) == home.device + home.fstype + Concat(home.flags)
    ensures Preimage(home, list + [p]) == Preimage(home, list)
      + ((Digits(|list|, 8) + [0] + p.dir + [1] + p.params.device + [2] + p.params.fstype + [3])
         + FlagOctets(p.params.flags, 0))
  {
    PremountsGrow(list, p, 0);
    RegroupTail(HomeOctets(home), PremountOctets(list, 0), PremountHead(p, |list|) + FlagOctets(p.params.flags, 0));
  }

  lemma RegroupTail(a: Str, b: Str, c: Str)
    ensures a + (b + c) == a + b + c
  {
  }

  /** Each further flag of a premount adds its position among the flags, in eight octets, and itself. */
  lemma FlagOctetsGrow(flags: seq<Str>, f: Str)
    ensures FlagOctets([], 0) == []
    ensures FlagOctets(flags + [f], 0) == FlagOctets(flags, 0) + Digits(|flags|, 8) + f
  {
    FlagsGrow(flags, f, 0);
  }

  lemma LeftCancel(a: Str, b: Str, c: Str, d: Str)
    requires |c| == |d| && a + c == b + d
    ensures a == b
  {
    assert (a + c)[..|a|] == a && (b + d)[..|b|] == b;
  }

  /** Another home device, or another home type, gives another preimage, whatever else is configured. */
  lemma HomeFieldsMatter(home: MountParams, list: seq<Premount>, s: Str)
    ensures Preimage(home.(device := s), list) == Preimage(home, list) <==> s == home.device
    ensures Preimage(home.(fstype := s), list) == Preimage(home, list) <==> s == home.fstype
  {
    var rest := PremountOctets(list, 0);
    var flags := Concat(home.flags);
    if Preimage(home.(device := s), list) == Preimage(home, list) {
      Regroup(s, home.fstype, flags, rest);
      Regroup(home.device, home.fstype, flags, rest);
      LeftCancel(s, home.device, home.fstype + flags + rest, home.fstype + flags + rest);
    }
    if Preimage(home.(fstype := s), list) == Preimage(home, list) {
      RegroupTail(home.device + s, flags, rest);
      RegroupTail(home.device + home.fstype, flags, rest);
      LeftCancel(home.device + s, home.device + home.fstype, flags + rest, flags + rest);
      assert (home.device + s)[|home.device|..] == s;
      assert (home.device + home.fstype)[|home.device|..] == home.fstype;
    }
  }

  /** A streaming hasher: it digests everything written to it. */
  class Hasher {
    var fed: Str

    constructor ()
      ensures fed == []
    {
      fed := [];
    }

    method Write(octets: Str)
      modifies this
      ensures fed == old(fed) + octets
    {
      fed := fed + octets;
    }

    method WriteU8(b: Byte)
      modifies this
      ensures fed == old(fed) + [b]
    {
      Write([b]);
    }

    method WriteUsize(i: nat)
      modifies this
      ensures fed == old(fed) + Index(i)
    {
      Write(Index(i));
    }
  }

  /** The inner loop of `MountPoints::hash`. */
  method FeedFlags(hasher: Hasher, flags: seq<Str>)
    modifies hasher
    ensures hasher.fed == old(hasher.fed) + FlagOctets(flags, 0)
  {
    for k := 0 to |flags|
      invariant hasher.fed + FlagOctets(flags, k) == old(hasher.fed) + FlagOctets(flags, 0)
    {
      Regroup(hasher.fed, Index(k), flags[k], FlagOctets(flags, k + 1));
      hasher.WriteUsize(k);
      hasher.Write(flags[k]);
    }
    assert hasher.fed + [] == hasher.fed;
  }

  /** The part of the outer loop of `MountPoints::hash` before the flags. */
  method FeedHead(hasher: Hasher, p: Premount, i: nat)
    modifies hasher
    ensures hasher.fed == old(hasher.fed) + PremountHead(p, i)
  {
    hasher.WriteUsize(i);
    hasher.WriteU8(0);
    hasher.Write(p.dir);
    hasher.WriteU8(1);
    hasher.Write(p.params.device);
    hasher.WriteU8(2);
    hasher.Write(p.params.fstype);
    hasher.WriteU8(3);
    assert hasher.fed == old(hasher.fed) + PremountHead(p, i);
  }

  /** `MountPoints::hash`. */
  method Hash(digest: Str -> Word, cfg: MountPoints, order: seq<Str>) returns (h: Str)
    requires Enumerates(order, cfg.mounts)
    ensures h == DigestOf(digest, cfg, order)
    ensures h == Hex(digest(
      cfg.home.device + cfg.home.fstype + Concat(cfg.home.flags) + PremountOctets(Listing(cfg, order), 0)))
  {
    var hasher := new Hasher();
    hasher.Write(cfg.home.device);
    hasher.Write(cfg.home.fstype);
    hasher.Write(Concat(cfg.home.flags));
    assert hasher.fed == HomeOctets(cfg.home);
    var list := Listing(cfg, order);
    for i := 0 to |list|
      invariant hasher.fed + PremountOctets(list, i) == Preimage(cfg.home, list)
    {
      ghost var before := hasher.fed;
      FeedHead(hasher, list[i], i);
      FeedFlags(hasher, list[i].params.flags);
      Regroup(before, PremountHead(list[i], i), FlagOctets(list[i].params.flags, 0), PremountOctets(list, i + 1));
    }
    assert hasher.fed + [] == hasher.fed;
    var numericHash := digest(hasher.fed);
    h := Hex(numericHash);
  }

  lemma Regroup(a: Str, b: Str, c: Str, d: Str)
    ensures a + b + c + d == a + (b + c + d) == a + b + (c + d)
  {
  }
}
