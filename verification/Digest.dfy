/** What the digest preimage of a mount configuration identifies: a decoder for the octets that
    `MountPoints::hash` feeds to its hasher, and what follows from it. */
module Digest {
  import opened Prelude
  import opened Words
  import opened Mounts

  /** The strings stay clear of the separator that ends them, and every index fits one octet. */
  ghost predicate SeparablePremount(p: Premount) {
    && 1 !in p.dir && 2 !in p.params.device && 3 !in p.params.fstype
    && |p.params.flags| <= 256
    && ZeroFree(p.params.flags)
  }

  ghost predicate ZeroFree(parts: seq<Str>) {
    forall f :: f in parts ==> 0 !in f
  }

  ghost predicate Separable(home: MountParams, list: seq<Premount>) {
    && 0 !in HomeOctets(home)
    && |list| <= 256
    && forall p :: p in list ==> SeparablePremount(p)
  }

  // ----- the decoder

  /** Reads one item off the front of a string. */
  type Reader<T> = Str -> Option<(T, Str)>

  /** Reads items while there are any; also gives back what is left. */
  function ReadAll<T>(next: Reader<T>, s: Str): (r: (seq<T>, Str))
    ensures |r.1| <= |s|
    decreases |s|
  {
    match next(s)
    case None => ([], s)
    case Some((item, rest)) =>
      if |rest| >= |s| then ([item], [])
      else
        var (more, left) := ReadAll(next, rest);
        ([item] + more, left)
  }

  /** Reads a flag; `s` starts at its index, of eight octets. A ninth octet of zero means that the
      index belongs to a premount instead. What follows the flag, if anything, is again an index: one
      nonzero octet and then seven zeros, so the flag ends one octet before the next zero. */
  function NextFlag(s: Str): Option<(Str, Str)> {
    if |s| < 8 || (|s| > 8 && s[8] == 0) then None
    else
      var text := s[8..];
      var z := IndexOf(text, 0);
      if z == |text| then Some((text, []))
      else if z == 0 then None
      else Some((text[..z - 1], text[z - 1..]))
  }

  /** Reads the three separated strings of a premount; the rest starts at its flags. */
  function DecodeFields(a: Str): (r: Option<(Str, Str, Str, Str)>)
    ensures r.Some? ==> |r.value.3| < |a|
  {
    var d := IndexOf(a, 1);
    if d == |a| then None
    else
      var b := a[d + 1..];
      var v := IndexOf(b, 2);
      if v == |b| then None
      else
        var c := b[v + 1..];
        var f := IndexOf(c, 3);
        if f == |c| then None else Some((a[..d], b[..v], c[..f], c[f + 1..]))
  }

  /** Reads one premount: nine octets of index and separator, three separated strings, the flags. */
  function DecodeNext(s: Str): (r: Option<(Premount, Str)>)
    ensures r.Some? ==> |r.value.1| < |s|
  {
    if |s| < 9 then None
    else match DecodeFields(s[9..])
      case None => None
      case Some((dir, device, fstype, after)) =>
        var (flags, rest) := ReadAll(NextFlag, after);
        Some((Premount(dir, MountParams(device, fstype, flags)), rest))
  }

  /** Reads a preimage: the concatenated home strings and the list of premounts. */
  function Decode(s: Str): (Str, seq<Premount>) {
    var z := IndexOf(s, 0);
    (s[..z], ReadAll(DecodeNext, s[z..]).0)
  }

  // ----- the decoder inverts the hasher's input

  lemma SmallIndex(i: nat)
    requires i < 256
    ensures Index(i) == [i, 0, 0, 0, 0, 0, 0, 0]
  {
    assert i / 256 == 0 && i % 256 == i;
    ZeroDigits(7);
    assert Index(i) == [i] + Zeros(7);
  }

  lemma {:induction false} ZeroDigits(w: nat)
    ensures Digits(0, w) == Zeros(w)
  {
    if w > 0 {
      ZeroDigits(w - 1);
    }
  }

  /** Strings that a reader takes from each to the next yield the items read on the way. */
  lemma {:induction false} ReadAllAlong<T>(next: Reader<T>, items: seq<T>, strings: seq<Str>)
    requires |strings| == |items| + 1
    requires forall i :: 0 <= i < |items| ==>
      next(strings[i]) == Some((items[i], strings[i + 1])) && |strings[i + 1]| < |strings[i]|
    requires next(strings[|items|]) == None
    ensures ReadAll(next, strings[0]) == (items, strings[|items|])
    decreases |items|
  {
    if items != [] {
      ReadAllAlong(next, items[1..], strings[1..]);
      assert items == [items[0]] + items[1..];
    }
  }

  /** The octets from the end of a premount on: nothing, or the next premount's index and separator. */
  ghost predicate AtPremount(s: Str) {
    s == [] || (|s| >= 9 && s[0] != 0 && s[1] == 0 && s[8] == 0)
  }

  /** The octets from the end of a flag on: nothing, or the index of what follows. */
  ghost predicate AtIndex(s: Str) {
    s == [] || (|s| >= 2 && s[0] != 0 && s[1] == 0)
  }

  /** A zero-free flag ends where the index of what follows begins. */
  lemma NextFlagReads(index: Str, f: Str, rest: Str)
    requires |index| == 8 && 0 !in f && AtIndex(rest)
    ensures NextFlag(index + f + rest) == Some((f, rest))
  {
    var s := index + f + rest;
    var text := s[8..];
    assert text == f + rest;
    if rest == [] {
      assert text == f;
      IndexOfAbsent(f, 0);
    } else {
      assert text == (f + [rest[0]]) + [0] + rest[2..];
      IndexOfSeparator(f + [rest[0]], 0, rest[2..]);
      assert text[..|f|] == f && text[|f|..] == rest;
    }
    if |s| > 8 {
      assert s[8] == text[0];
      if f != [] {
        assert text[0] == f[0] && f[0] in f;
      }
    }
  }

  /** The octets left to read when `k` flags have been read. */
  function FlagsLeft(flags: seq<Str>, tail: Str, k: nat): Str
    requires k <= |flags|
  {
    FlagOctets(flags, k) + tail
  }

  lemma FlagsLeftAtIndex(flags: seq<Str>, tail: Str, k: nat)
    requires 1 <= k <= |flags| <= 256 && AtPremount(tail)
    ensures AtIndex(FlagsLeft(flags, tail, k))
  {
    if k < |flags| {
      SmallIndex(k);
    }
  }

  lemma FlagsLeftNext(flags: seq<Str>, tail: Str, k: nat)
    requires k < |flags| <= 256 && ZeroFree(flags) && AtPremount(tail)
    ensures NextFlag(FlagsLeft(flags, tail, k)) == Some((flags[k], FlagsLeft(flags, tail, k + 1)))
    ensures |FlagsLeft(flags, tail, k + 1)| < |FlagsLeft(flags, tail, k)|
  {
    assert flags[k] in flags;
    var rest := FlagsLeft(flags, tail, k + 1);
    FlagsLeftAtIndex(flags, tail, k + 1);
    NextFlagReads(Index(k), flags[k], rest);
    assert FlagsLeft(flags, tail, k) == Index(k) + flags[k] + rest;
  }

  lemma DecodeFlagsCorrect(flags: seq<Str>, tail: Str)
    requires |flags| <= 256 && ZeroFree(flags) && AtPremount(tail)
    ensures ReadAll(NextFlag, FlagOctets(flags, 0) + tail) == (flags, tail)
  {
    var strings := seq(|flags| + 1, k requires 0 <= k <= |flags| => FlagsLeft(flags, tail, k));
    forall k | 0 <= k < |flags|
      ensures NextFlag(strings[k]) == Some((flags[k], strings[k + 1])) && |strings[k + 1]| < |strings[k]|
    {
      FlagsLeftNext(flags, tail, k);
    }
    assert FlagsLeft(flags, tail, |flags|) == tail;
    ReadAllAlong(NextFlag, flags, strings);
  }

  /** Cutting at the first separator. */
  lemma CutAtSeparator(s: Str, b: Byte, rest: Str)
    requires b !in s
    ensures var t := s + [b] + rest;
      IndexOf(t, b) == |s| < |t| && t[..|s|] == s && t[|s| + 1..] == rest
  {
    IndexOfSeparator(s, b, rest);
  }

  lemma DecodeFieldsCorrect(dir: Str, device: Str, fstype: Str, after: Str)
    requires 1 !in dir && 2 !in device && 3 !in fstype
    ensures DecodeFields(dir + [1] + (device + [2] + (fstype + [3] + after)))
            == Some((dir, device, fstype, after))
  {
    CutAtSeparator(dir, 1, device + [2] + (fstype + [3] + after));
    CutAtSeparator(device, 2, fstype + [3] + after);
    CutAtSeparator(fstype, 3, after);
  }

  /** Reading one premount off the front, when its fields and flags are read correctly. */
  lemma DecodeHead(p: Premount, index: Str, fields: Str, after: Str, rest: Str)
    requires |index| == 8
    requires DecodeFields(fields) == Some((p.dir, p.params.device, p.params.fstype, after))
    requires ReadAll(NextFlag, after) == (p.params.flags, rest)
    ensures DecodeNext(index + [0] + fields) == Some((p, rest))
  {
    assert (index + [0] + fields)[9..] == fields;
  }

  lemma RegroupHead(i: Str, d: Str, v: Str, f: Str, flags: Str, tail: Str)
    ensures (i + [0] + d + [1] + v + [2] + f + [3]) + flags + tail
            == i + [0] + (d + [1] + (v + [2] + (f + [3] + (flags + tail))))
  {
    var c := f + [3] + (flags + tail);
    var b := v + [2] + c;
    var a := d + [1] + b;
    assert f + [3] + flags + tail == c;
    assert v + [2] + f + [3] + flags + tail == b;
    assert d + [1] + v + [2] + f + [3] + flags + tail == a;
  }

  lemma DecodeOne(p: Premount, i: nat, tail: Str)
    requires SeparablePremount(p) && AtPremount(tail)
    ensures DecodeNext(PremountHead(p, i) + FlagOctets(p.params.flags, 0) + tail) == Some((p, tail))
  {
    var flags := FlagOctets(p.params.flags, 0);
    RegroupHead(Index(i), p.dir, p.params.device, p.params.fstype, flags, tail);
    DecodeFlagsCorrect(p.params.flags, tail);
    var fields := p.dir + [1] + (p.params.device + [2] + (p.params.fstype + [3] + (flags + tail)));
    DecodeFieldsCorrect(p.dir, p.params.device, p.params.fstype, flags + tail);
    DecodeHead(p, Index(i), fields, flags + tail, tail);
  }

  lemma PremountsStart(list: seq<Premount>, i: nat)
    requires 1 <= i <= |list| <= 256
    ensures AtPremount(PremountOctets(list, i))
  {
    if i < |list| {
      SmallIndex(i);
      var head := PremountHead(list[i], i);
      assert head[..9] == Index(i) + [0];
      assert PremountOctets(list, i)[..9] == head[..9];
      forall j | 0 <= j < 9 ensures PremountOctets(list, i)[j] == (Index(i) + [0])[j] {
        assert PremountOctets(list, i)[j] == PremountOctets(list, i)[..9][j];
      }
    }
  }

  /** The reader takes the premount at position `i` off the octets that start there. */
  ghost predicate ReadsAt(next: Reader<Premount>, list: seq<Premount>, i: nat)
    requires i < |list|
  {
    && next(PremountOctets(list, i)) == Some((list[i], PremountOctets(list, i + 1)))
    && |PremountOctets(list, i + 1)| < |PremountOctets(list, i)|
  }

  /** From any premount on, such a reader reads the rest of the list. */
  lemma {:induction false} ReadsOn(next: Reader<Premount>, list: seq<Premount>, i: nat)
    requires i <= |list| && next([]) == None
    requires forall k :: 0 <= k < |list| ==> ReadsAt(next, list, k)
    ensures ReadAll(next, PremountOctets(list, i)) == (list[i..], [])
    decreases |list| - i
  {
    if i < |list| {
      assert ReadsAt(next, list, i);
      ReadsOn(next, list, i + 1);
      assert list[i..] == [list[i]] + list[i + 1..];
    }
  }

  lemma OctetsReadAll(list: seq<Premount>)
    requires |list| <= 256 && forall p :: p in list ==> SeparablePremount(p)
    ensures ReadAll(DecodeNext, PremountOctets(list, 0)) == (list, [])
  {
    forall i | 0 <= i < |list| ensures ReadsAt(DecodeNext, list, i) {
      OctetsReadNext(list, i);
    }
    ReadsOn(DecodeNext, list, 0);
  }

  lemma OctetsReadNext(list: seq<Premount>, i: nat)
    requires i < |list| <= 256 && forall p :: p in list ==> SeparablePremount(p)
    ensures DecodeNext(PremountOctets(list, i)) == Some((list[i], PremountOctets(list, i + 1)))
    ensures |PremountOctets(list, i + 1)| < |PremountOctets(list, i)|
  {
    assert list[i] in list;
    PremountsStart(list, i + 1);
    DecodeOne(list[i], i, PremountOctets(list, i + 1));
  }

  /** The preimage decodes: to the ordered list of premounts, and to the home strings run together. */
  lemma PreimageDecodes(home: MountParams, list: seq<Premount>)
    requires Separable(home, list)
    ensures Decode(Preimage(home, list)) == (home.device + home.fstype + Concat(home.flags), list)
  {
    var h, s := HomeOctets(home), Preimage(home, list);
    if list == [] {
      assert s == h;
      IndexOfAbsent(h, 0);
      assert s[..|h|] == h && s[|h|..] == [];
    } else {
      SmallIndex(0);
      assert PremountOctets(list, 0)[0] == Index(0)[0] == 0;
      assert s == h + [0] + PremountOctets(list, 0)[1..];
      IndexOfSeparator(h, 0, PremountOctets(list, 0)[1..]);
      assert s[..|h|] == h && s[|h|..] == PremountOctets(list, 0);
      OctetsReadAll(list);
    }
  }

  /** Two configurations feed the hasher the same octets exactly when they list the same premounts
      in the same order and their home device, type and flags run together to the same string. */
  lemma PreimageIdentifies(home: MountParams, list: seq<Premount>, home': MountParams, list': seq<Premount>)
    requires Separable(home, list) && Separable(home', list')
    ensures Preimage(home, list) == Preimage(home', list') <==>
      && list == list'
      && home.device + home.fstype + Concat(home.flags) == home'.device + home'.fstype + Concat(home'.flags)
  {
    PreimageDecodes(home, list);
    PreimageDecodes(home', list');
  }

  /** A directory that holds the separator octet 1 can be confused with a device: the separators
      alone do not tell the strings apart. */
  lemma SeparatorsCollide()
    ensures var home := MountParams([], [], []);
      var a := [Premount([1], MountParams([], [], []))];
      var b := [Premount([], MountParams([1], [], []))];
      a != b && Preimage(home, a) == Preimage(home, b)
  {
    var home := MountParams([], [], []);
    var a := [Premount([1], MountParams([], [], []))];
    var b := [Premount([], MountParams([1], [], []))];
    assert a[0].dir != b[0].dir;
    assert PremountHead(a[0], 0) == PremountHead(b[0], 0);
    assert PremountOctets(a, 1) == PremountOctets(b, 1) == [];
    assert FlagOctets(a[0].params.flags, 0) == FlagOctets(b[0].params.flags, 0) == [];
  }

  /** Two premounts of one configuration that hold separator octets can be confused with each other:
      then the order makes no difference to any digest. */
  lemma SwappedTwinsCollide()
    ensures var home := MountParams([], [], []);
      var cfg := MountPoints(home, map[[1] := MountParams([], [], []), [] := MountParams([1], [], [])]);
      && Enumerates([[1], []], cfg.mounts) && Enumerates([[], [1]], cfg.mounts)
      && Preimage(home, Listing(cfg, [[1], []])) == Preimage(home, Listing(cfg, [[], [1]]))
  {
    var home := MountParams([], [], []);
    var cfg := MountPoints(home, map[[1] := MountParams([], [], []), [] := MountParams([1], [], [])]);
    var order, order' := [[1], []], [[], [1]];
    var p, q := Premount([1], MountParams([], [], [])), Premount([], MountParams([1], [], []));
    assert Listing(cfg, order) == [p, q] && Listing(cfg, order') == [q, p];
    forall i: nat ensures PremountHead(p, i) == PremountHead(q, i) {
    }
    assert PremountOctets([p, q], 1) == PremountOctets([q, p], 1);
  }

  // ----- iteration order

  lemma ListingOrder(cfg: MountPoints, order: seq<Str>, order': seq<Str>)
    requires Enumerates(order, cfg.mounts) && Enumerates(order', cfg.mounts)
    ensures Listing(cfg, order) == Listing(cfg, order') <==> order == order'
  {
    var l, l' := Listing(cfg, order), Listing(cfg, order');
    if l == l' {
      forall i | 0 <= i < |order| ensures order[i] == order'[i] {
        assert l[i].dir == l'[i].dir;
      }
    }
  }

  lemma EnumerationLength(order: seq<Str>, m: map<Str, MountParams>)
    requires Enumerates(order, m)
    ensures |order| == |m|
  {
    var keys := set k | k in order;
    assert keys == m.Keys;
    DistinctSize(order);
    assert |m.Keys| == |m|;
  }

  lemma {:induction false} DistinctSize(s: seq<Str>)
    requires forall i, j :: 0 <= i < j < |s| ==> s[i] != s[j]
    ensures |set k | k in s| == |s|
  {
    if s != [] {
      var n := |s| - 1;
      DistinctSize(s[..n]);
      assert (set k | k in s) == (set k | k in s[..n]) + {s[n]};
    }
  }

  /** Some order always exists. */
  lemma {:induction false} SomeEnumeration(m: map<Str, MountParams>) returns (order: seq<Str>)
    ensures Enumerates(order, m)
    decreases |m|
  {
    if m == map[] {
      order := [];
    } else {
      var k :| k in m;
      var rest := m - {k};
      assert rest.Keys == m.Keys - {k};
      assert |rest.Keys| < |m.Keys|;
      order := SomeEnumeration(rest);
      order := order + [k];
    }
  }

  /** A configuration whose strings stay clear of the separators, in any order of iteration. */
  ghost predicate SeparableConfig(cfg: MountPoints) {
    && 0 !in HomeOctets(cfg.home)
    && |cfg.mounts| <= 256
    && forall dir :: dir in cfg.mounts ==> SeparablePremount(Premount(dir, cfg.mounts[dir]))
  }

  lemma SeparableListing(cfg: MountPoints, order: seq<Str>)
    requires SeparableConfig(cfg) && Enumerates(order, cfg.mounts)
    ensures Separable(cfg.home, Listing(cfg, order))
  {
    EnumerationLength(order, cfg.mounts);
    var list := Listing(cfg, order);
    forall p | p in list ensures SeparablePremount(p) {
      var i :| 0 <= i < |list| && list[i] == p;
      assert order[i] in order;
    }
  }

  /** Two iterations over one configuration feed the hasher the same octets exactly when they use
      the same order. */
  lemma PreimageOrder(cfg: MountPoints, order: seq<Str>, order': seq<Str>)
    requires SeparableConfig(cfg) && Enumerates(order, cfg.mounts) && Enumerates(order', cfg.mounts)
    ensures Preimage(cfg.home, Listing(cfg, order)) == Preimage(cfg.home, Listing(cfg, order'))
      <==> order == order'
  {
    SeparableListing(cfg, order);
    SeparableListing(cfg, order');
    PreimageIdentifies(cfg.home, Listing(cfg, order), cfg.home, Listing(cfg, order'));
    ListingOrder(cfg, order, order');
  }

  /** Two configurations, each met in some order, have one preimage exactly when they hold the same
      premounts, met in the same order, and the same home strings run together. */
  lemma ConfigurationsIdentified(cfg: MountPoints, order: seq<Str>, cfg': MountPoints, order': seq<Str>)
    requires SeparableConfig(cfg) && Enumerates(order, cfg.mounts)
    requires SeparableConfig(cfg') && Enumerates(order', cfg'.mounts)
    ensures Preimage(cfg.home, Listing(cfg, order)) == Preimage(cfg'.home, Listing(cfg', order')) <==>
      && order == order' && cfg.mounts == cfg'.mounts
      && cfg.home.device + cfg.home.fstype + Concat(cfg.home.flags)
        == cfg'.home.device + cfg'.home.fstype + Concat(cfg'.home.flags)
  {
    SeparableListing(cfg, order);
    SeparableListing(cfg', order');
    var list, list' := Listing(cfg, order), Listing(cfg', order');
    PreimageIdentifies(cfg.home, list, cfg'.home, list');
    if list == list' {
      SameListing(cfg, order, cfg', order');
    }
  }

  lemma SameListing(cfg: MountPoints, order: seq<Str>, cfg': MountPoints, order': seq<Str>)
    requires Enumerates(order, cfg.mounts) && Enumerates(order', cfg'.mounts)
    requires Listing(cfg, order) == Listing(cfg', order')
    ensures order == order' && cfg.mounts == cfg'.mounts
  {
    var list, list' := Listing(cfg, order), Listing(cfg', order');
    assert forall i :: 0 <= i < |order| ==> order[i] == list[i].dir == list'[i].dir == order'[i];
    forall dir | dir in cfg.mounts ensures cfg.mounts[dir] == cfg'.mounts[dir] {
      assert dir in order;
      var i :| 0 <= i < |order| && order[i] == dir;
      assert list[i] == list'[i];
    }
    assert cfg.mounts.Keys == cfg'.mounts.Keys;
  }

  lemma OneOrder(m: map<Str, MountParams>, order: seq<Str>, order': seq<Str>)
    requires |m| <= 1 && Enumerates(order, m) && Enumerates(order', m)
    ensures order == order'
  {
    EnumerationLength(order, m);
    EnumerationLength(order', m);
    if |order| == 1 {
      assert order[0] in order && order'[0] in order';
      assert m.Keys == {order[0]} by {
        forall k | k in m ensures k == order[0] {
          assert k in order;
        }
      }
    }
  }

  // ----- the digest depends on the order

  /** The same order, but with the first two exchanged. */
  function Swapped(order: seq<Str>): seq<Str>
    requires |order| >= 2
  {
    [order[1], order[0]] + order[2..]
  }

  lemma SwappedEnumerates(order: seq<Str>, m: map<Str, MountParams>)
    requires |order| >= 2 && Enumerates(order, m)
    ensures Enumerates(Swapped(order), m) && Swapped(order) != order
  {
    var o := Swapped(order);
    assert forall i :: 2 <= i < |o| ==> o[i] == order[i];
    assert o[0] == order[1] && o[1] == order[0];
    forall k ensures k in o <==> k in order {
      assert order == [order[0], order[1]] + order[2..];
    }
  }

  /** The digest does not collide where it would hide an order: two preimages of this configuration
      that differ in the order of the first two premounts have different digests. */
  ghost predicate TellsSwapped(digest: Str -> Word, cfg: MountPoints, order: seq<Str>)
    requires |order| >= 2 && Enumerates(order, cfg.mounts)
  {
    SwappedEnumerates(order, cfg.mounts);
    var s, t := Preimage(cfg.home, Listing(cfg, order)), Preimage(cfg.home, Listing(cfg, Swapped(order)));
    digest(s) == digest(t) ==> s == t
  }

  ghost predicate NoSwapCollides(digest: Str -> Word, cfg: MountPoints) {
    forall order :: |order| >= 2 && Enumerates(order, cfg.mounts) ==> TellsSwapped(digest, cfg, order)
  }

  /** Two passes over the premounts always compute one digest. */
  ghost predicate OrderIndependent(digest: Str -> Word, cfg: MountPoints) {
    forall o, o' :: Enumerates(o, cfg.mounts) && Enumerates(o', cfg.mounts)
      ==> DigestOf(digest, cfg, o) == DigestOf(digest, cfg, o')
  }

  /** With at most one premount, all passes compute one digest. */
  lemma OneDigest(digest: Str -> Word, cfg: MountPoints)
    requires |cfg.mounts| <= 1
    ensures OrderIndependent(digest, cfg)
  {
    forall o, o' | Enumerates(o, cfg.mounts) && Enumerates(o', cfg.mounts)
      ensures DigestOf(digest, cfg, o) == DigestOf(digest, cfg, o')
    {
      OneOrder(cfg.mounts, o, o');
    }
  }

  /** With two premounts or more, some two passes compute different digests. */
  lemma TwoDigests(digest: Str -> Word, cfg: MountPoints) returns (o: seq<Str>, o': seq<Str>)
    requires SeparableConfig(cfg) && NoSwapCollides(digest, cfg) && |cfg.mounts| >= 2
    ensures Enumerates(o, cfg.mounts) && Enumerates(o', cfg.mounts)
    ensures DigestOf(digest, cfg, o) != DigestOf(digest, cfg, o')
  {
    o := SomeEnumeration(cfg.mounts);
    EnumerationLength(o, cfg.mounts);
    o' := Swapped(o);
    SwappedEnumerates(o, cfg.mounts);
    PreimageOrder(cfg, o, o');
    assert TellsSwapped(digest, cfg, o);
    var d, d' := digest(Preimage(cfg.home, Listing(cfg, o))), digest(Preimage(cfg.home, Listing(cfg, o')));
    if Hex(d) == Hex(d') {
      HexInjective(d, d');
    }
  }

  /** The digest of a configuration does not depend on the iteration order exactly when the
      configuration has at most one premount, for strings clear of the separators and a digest that
      does not collide on this configuration. */
  lemma OrderIndependentExactly(cfg: MountPoints, digest: Str -> Word)
    requires SeparableConfig(cfg) && NoSwapCollides(digest, cfg)
    ensures OrderIndependent(digest, cfg) <==> |cfg.mounts| <= 1
  {
    if |cfg.mounts| <= 1 {
      OneDigest(digest, cfg);
    } else {
      var o, o' := TwoDigests(digest, cfg);
    }
  }

  // ----- 64 bits are enough not to collide there

  /** A total order on strings. */
  predicate Precedes(a: Str, b: Str) {
    a != [] && (b == [] || a[0] > b[0] || (a[0] == b[0] && Precedes(a[1..], b[1..])))
  }

  lemma {:induction false} PrecedesTotal(a: Str, b: Str)
    requires a != b
    ensures Precedes(a, b) != Precedes(b, a)
  {
    if a != [] && b != [] && a[0] == b[0] {
      assert a == [a[0]] + a[1..] && b == [b[0]] + b[1..];
      PrecedesTotal(a[1..], b[1..]);
    }
  }

  /** A digest that keeps, of the whole preimage, only which of the first two directories precedes. */
  function OrderBit(s: Str): Word {
    var list := Decode(s).1;
    if |list| >= 2 && Precedes(list[0].dir, list[1].dir) then 1 else 0
  }

  lemma OrderBitTellsSwapped(cfg: MountPoints)
    requires SeparableConfig(cfg)
    ensures NoSwapCollides(OrderBit, cfg)
  {
    forall o | |o| >= 2 && Enumerates(o, cfg.mounts) ensures TellsSwapped(OrderBit, cfg, o) {
      var o' := Swapped(o);
      SwappedEnumerates(o, cfg.mounts);
      SeparableListing(cfg, o);
      SeparableListing(cfg, o');
      PreimageDecodes(cfg.home, Listing(cfg, o));
      PreimageDecodes(cfg.home, Listing(cfg, o'));
      PrecedesTotal(o[0], o[1]);
    }
  }

  lemma OrderBitDepends(cfg: MountPoints)
    requires SeparableConfig(cfg) && |cfg.mounts| >= 2
    ensures !OrderIndependent(OrderBit, cfg)
  {
    OrderBitTellsSwapped(cfg);
    var o, o' := TwoDigests(OrderBit, cfg);
  }

  /** Without a word about collisions: the order is irrelevant whatever 64-bit digest is computed
      exactly when the configuration has at most one premount. */
  lemma OrderIndependentForEveryDigest(cfg: MountPoints)
    requires SeparableConfig(cfg)
    ensures (forall digest: Str -> Word :: OrderIndependent(digest, cfg)) <==> |cfg.mounts| <= 1
  {
    if |cfg.mounts| <= 1 {
      forall digest: Str -> Word ensures OrderIndependent(digest, cfg) {
        OneDigest(digest, cfg);
      }
    } else {
      OrderBitDepends(cfg);
    }
  }
}
