/** Upgrade channels of a file-based catalog (internal/olm/operator/registry/index_image.go). */
module ChannelGraph {
  import opened Slices

  /** A channel entry; an empty `replacesName` means it replaces nothing. */
  datatype Entry = Entry(name: string, replacesName: string)

  // ----- Heads -----

  ghost predicate Named(entries: seq<Entry>, n: string) {
    exists i :: 0 <= i < |entries| && entries[i].name == n
  }

  /** Some entry replaces n. */
  ghost predicate Replaced(entries: seq<Entry>, n: string) {
    n != "" && exists i :: 0 <= i < |entries| && entries[i].replacesName == n
  }

  ghost predicate IsHead(entries: seq<Entry>, n: string) {
    Named(entries, n) && !Replaced(entries, n)
  }

  /** The head found first when the names are ranged over in some order. */
  method GetChannelHead(entries: seq<Entry>) returns (head: Option<string>)
    ensures head.Some? ==> IsHead(entries, head.value)
    ensures head.None? ==> forall n :: !IsHead(entries, n)
  {
    var names, replaced: set<string> := {}, {};
    for i := 0 to |entries|
      invariant forall n :: n in names <==> Named(entries[..i], n)
      invariant forall n :: n in replaced <==> Replaced(entries[..i], n)
    {
      assert entries[..i + 1] == entries[..i] + [entries[i]];
      NextEntry(entries[..i], entries[i]);
      names := names + {entries[i].name};
      if entries[i].replacesName != "" {
        replaced := replaced + {entries[i].replacesName};
      }
    }
    assert entries[..|entries|] == entries;
    var keys := RangeKeys(names);
    for k := 0 to |keys|
      invariant forall i :: 0 <= i < k ==> keys[i] in replaced
    {
      if keys[k] !in replaced {
        assert keys[k] in names;
        return Some(keys[k]);
      }
    }
    return None;
  }

  lemma NextEntry(entries: seq<Entry>, e: Entry)
    ensures forall n :: Named(entries + [e], n) <==> Named(entries, n) || e.name == n
    ensures forall n :: Replaced(entries + [e], n) <==> Replaced(entries, n) || (n != "" && e.replacesName == n)
  {
    var longer := entries + [e];
    assert longer[|entries|] == e && forall i :: 0 <= i < |entries| ==> longer[i] == entries[i];
    forall n
      ensures Named(longer, n) <==> Named(entries, n) || e.name == n
    {
      if Named(entries, n) {
        var i :| 0 <= i < |entries| && entries[i].name == n;
        assert longer[i].name == n;
      }
    }
    forall n
      ensures Replaced(longer, n) <==> Replaced(entries, n) || (n != "" && e.replacesName == n)
    {
      if Replaced(entries, n) {
        var i :| 0 <= i < |entries| && entries[i].replacesName == n;
        assert longer[i].replacesName == n;
      }
    }
  }

  // ----- Acyclic graphs have heads -----

  /** Some entry named b replaces a. */
  ghost predicate UpgradesTo(entries: seq<Entry>, a: string, b: string) {
    a != "" && Entry(b, a) in entries
  }

  ghost predicate UpgradePath(entries: seq<Entry>, p: seq<string>) {
    forall i :: 0 <= i < |p| - 1 ==> UpgradesTo(entries, p[i], p[i + 1])
  }

  ghost predicate Cycle(entries: seq<Entry>, p: seq<string>) {
    |p| >= 2 && p[0] == p[|p| - 1] && UpgradePath(entries, p)
  }

  ghost predicate Acyclic(entries: seq<Entry>) {
    forall p :: !Cycle(entries, p)
  }

  ghost function NameSet(entries: seq<Entry>): set<string> {
    set i | 0 <= i < |entries| :: entries[i].name
  }

  /** Without a head one can go on upgrading for ever. */
  lemma {:induction false} EndlessUpgrades(entries: seq<Entry>, n: nat) returns (p: seq<string>)
    requires entries != [] && forall x :: !IsHead(entries, x)
    ensures |p| == n + 1 && UpgradePath(entries, p)
    ensures forall i :: 0 <= i < |p| ==> p[i] in NameSet(entries)
  {
    if n == 0 {
      p := [entries[0].name];
    } else {
      p := EndlessUpgrades(entries, n - 1);
      var last := p[n - 1];
      assert Named(entries, last) && !IsHead(entries, last);
      var i :| 0 <= i < |entries| && entries[i].replacesName == last;
      assert entries[i] == Entry(entries[i].name, last) && entries[i] in entries;
      p := p + [entries[i].name];
    }
  }

  /** Every non-empty list of entries with an acyclic replaces graph has a head. */
  lemma AcyclicHasHead(entries: seq<Entry>)
    requires entries != [] && Acyclic(entries)
    ensures exists h :: IsHead(entries, h)
  {
    if forall h :: !IsHead(entries, h) {
      var p := EndlessUpgrades(entries, |NameSet(entries)|);
      if NoDup(p) {
        Pigeonhole(p, NameSet(entries));
      } else {
        var i, j :| 0 <= i < j < |p| && p[i] == p[j];
        SubPath(entries, p, i, j);
      }
    }
  }

  lemma SubPath(entries: seq<Entry>, p: seq<string>, i: nat, j: nat)
    requires UpgradePath(entries, p) && i < j < |p| && p[i] == p[j]
    ensures Cycle(entries, p[i..j + 1])
  {
    var c := p[i..j + 1];
    forall k | 0 <= k < |c| - 1
      ensures UpgradesTo(entries, c[k], c[k + 1])
    {
      assert UpgradesTo(entries, p[i + k], p[i + k + 1]);
    }
  }

  // ----- Single chains -----

  ghost function Link(order: seq<string>, tail: string, i: nat): Entry
    requires i < |order|
  {
    Entry(order[i], if i == 0 then tail else order[i - 1])
  }

  /** The entries, in whatever order they are listed, link `order` up from its first name to its last. */
  ghost predicate SingleChain(entries: seq<Entry>, order: seq<string>, tail: string) {
    && |order| > 0 && NoDup(order) && "" !in order && tail !in order
    && (forall i :: 0 <= i < |order| ==> Link(order, tail, i) in entries)
    && (forall e :: e in entries ==> exists i :: 0 <= i < |order| && e == Link(order, tail, i))
  }

  /** The head of a single chain is its last name, and no other. */
  lemma ChainHead(entries: seq<Entry>, order: seq<string>, tail: string, n: string)
    requires SingleChain(entries, order, tail)
    ensures IsHead(entries, n) <==> n == order[|order| - 1]
  {
    if Named(entries, n) {
      var k :| 0 <= k < |entries| && entries[k].name == n;
      assert entries[k] in entries;
      var i :| 0 <= i < |order| && entries[k] == Link(order, tail, i);
      if i + 1 < |order| {
        assert Link(order, tail, i + 1) in entries;
        var m :| 0 <= m < |entries| && entries[m] == Link(order, tail, i + 1);
        assert n in order && Replaced(entries, n);
      }
    }
    if n == order[|order| - 1] {
      var e := Link(order, tail, |order| - 1);
      var m :| 0 <= m < |entries| && entries[m] == e;
      assert Named(entries, n);
      forall k | 0 <= k < |entries|
        ensures entries[k].replacesName != n
      {
        assert entries[k] in entries;
        var i :| 0 <= i < |order| && entries[k] == Link(order, tail, i);
      }
    }
  }

  // ----- Appending an upgrade -----

  /** Appending an entry that replaces the head h: exactly which names are heads then. */
  lemma HeadsAfterUpgrade(entries: seq<Entry>, n: string, h: string, x: string)
    requires IsHead(entries, h) && h != ""
    ensures IsHead(entries + [Entry(n, h)], x) <==>
            (x == n && n != h && !Replaced(entries, n)) || (IsHead(entries, x) && x != h)
  {
    NextEntry(entries, Entry(n, h));
  }

  /** A fresh entry that replaces the head keeps the graph acyclic. */
  lemma UpgradeStaysAcyclic(entries: seq<Entry>, n: string, h: string)
    requires Acyclic(entries) && !Named(entries, n) && !Replaced(entries, n) && n != h && n != ""
    ensures Acyclic(entries + [Entry(n, h)])
  {
    var longer := entries + [Entry(n, h)];
    forall p
      ensures !Cycle(longer, p)
    {
      if Cycle(longer, p) {
        CycleAvoids(entries, n, h, p);
        assert Cycle(entries, p);
      }
    }
  }

  lemma CycleAvoids(entries: seq<Entry>, n: string, h: string, p: seq<string>)
    requires Cycle(entries + [Entry(n, h)], p) && !Replaced(entries, n) && n != h && n != ""
    ensures UpgradePath(entries, p)
  {
    var longer := entries + [Entry(n, h)];
    forall i | 0 <= i < |p| - 1
      ensures p[i] != n
    {
      assert UpgradesTo(longer, p[i], p[i + 1]);
      if Entry(p[i + 1], p[i]) in entries {
        var k :| 0 <= k < |entries| && entries[k] == Entry(p[i + 1], p[i]);
        assert entries[k].replacesName == p[i];
      }
    }
    forall i | 0 <= i < |p| - 1
      ensures UpgradesTo(entries, p[i], p[i + 1])
    {
      assert UpgradesTo(longer, p[i], p[i + 1]);
      assert p[i + 1] != n;
    }
  }

  /** Upgrading a single chain from its head gives the chain one name longer. */
  lemma ChainExtends(entries: seq<Entry>, order: seq<string>, tail: string, n: string, h: string)
    requires SingleChain(entries, order, tail) && IsHead(entries, h)
    requires n != "" && n != tail && n !in order
    ensures SingleChain(entries + [Entry(n, h)], order + [n], tail)
  {
    ChainHead(entries, order, tail, h);
    var longer, order' := entries + [Entry(n, h)], order + [n];
    NoDupAppend(order, n);
    forall i | 0 <= i < |order'|
      ensures Link(order', tail, i) in longer
    {
      if i < |order| {
        assert Link(order', tail, i) == Link(order, tail, i);
      } else {
        assert longer[|entries|] == Link(order', tail, i);
      }
    }
    forall e | e in longer
      ensures exists i :: 0 <= i < |order'| && e == Link(order', tail, i)
    {
      if e in entries {
        var i :| 0 <= i < |order| && e == Link(order, tail, i);
        assert e == Link(order', tail, i);
      } else {
        assert e == Link(order', tail, |order|);
      }
    }
  }

  /** `entries` becomes `final` by appending the names one after the other, each replacing a head
      there is at that moment, whichever one the map iteration met first. */
  ghost predicate UpgradeRun(entries: seq<Entry>, names: seq<string>, final: seq<Entry>)
    decreases |names|
  {
    if names == [] then final == entries
    else exists h :: IsHead(entries, h) && UpgradeRun(entries + [Entry(names[0], h)], names[1..], final)
  }

  /** Whatever the iteration orders, a run of upgrades of a single chain has one outcome: the chain
      that continues with the new names. */
  lemma {:induction false} RunKeepsChain(entries: seq<Entry>, order: seq<string>, tail: string, names: seq<string>,
                                         final: seq<Entry>)
    requires SingleChain(entries, order, tail) && UpgradeRun(entries, names, final)
    requires NoDup(order + names) && "" !in names && tail !in names
    ensures SingleChain(final, order + names, tail)
    decreases |names|
  {
    if names == [] {
      assert order + names == order;
    } else {
      var n := names[0];
      var h :| IsHead(entries, h) && UpgradeRun(entries + [Entry(n, h)], names[1..], final);
      assert n in names;
      var all := order + names;
      assert all[|order|] == n && forall i :: 0 <= i < |order| ==> all[i] == order[i];
      ChainExtends(entries, order, tail, n, h);
      assert order + names == (order + [n]) + names[1..];
      RunKeepsChain(entries + [Entry(n, h)], order + [n], tail, names[1..], final);
    }
  }

  // ----- Building the upgraded catalog -----

  datatype Bundle = Bundle(name: string, package: string)

  datatype Channel = Channel(name: string, package: string, entries: seq<Entry>)

  datatype Config = Config(channels: seq<Channel>, bundles: seq<Bundle>)

  /** Panicked: a run-time index error. */
  datatype Outcome = Failed | Panicked | Upgraded(config: Config)

  predicate IsChannel(c: Channel, name: string, package: string) {
    c.name == name && c.package == package
  }

  /** Index of the first channel of that name and package. */
  function ChannelIndex(channels: seq<Channel>, name: string, package: string): Option<nat> {
    if channels == [] then None
    else if IsChannel(channels[0], name, package) then Some(0)
    else
      match ChannelIndex(channels[1..], name, package)
      case None => None
      case Some(i) => Some(i + 1)
  }

  /** An entry for each of the first n bundles, each replacing the one before it. */
  function LinkedEntries(bundles: seq<Bundle>, first: string, n: nat): (r: seq<Entry>)
    requires n <= |bundles|
    ensures |r| == n
  {
    if n == 0 then []
    else LinkedEntries(bundles, first, n - 1) +
         [Entry(bundles[n - 1].name, if n == 1 then first else bundles[n - 2].name)]
  }

  /** An entry for the last bundle, replacing the one before it. */
  function LastEntry(bundles: seq<Bundle>, head: string): Entry
    requires bundles != []
  {
    var last := |bundles| - 1;
    Entry(bundles[last].name, if last == 0 then head else bundles[last - 1].name)
  }

  function PackageOf(bundles: seq<Bundle>, name: string): Option<string> {
    if bundles == [] then None
    else if bundles[|bundles| - 1].name == name then Some(bundles[|bundles| - 1].package)
    else PackageOf(bundles[..|bundles| - 1], name)
  }

  /** The bundles the original catalog does not have under the same package. */
  function NewBundles(bundles: seq<Bundle>, original: seq<Bundle>, n: nat): seq<Bundle>
    requires n <= |bundles|
  {
    if n == 0 then []
    else NewBundles(bundles, original, n - 1) +
         if PackageOf(original, bundles[n - 1].name) == Some(bundles[n - 1].package) then [] else [bundles[n - 1]]
  }

  /** The last bundle of that name in the catalog is this one. */
  ghost predicate Has(original: seq<Bundle>, b: Bundle) {
    exists i :: 0 <= i < |original| && original[i].name == b.name && original[i].package == b.package
                && forall j :: i < j < |original| ==> original[j].name != b.name
  }

  ghost function Lacks(original: seq<Bundle>): Bundle -> bool {
    b => !Has(original, b)
  }

  /** The rendered bundles the catalog lacks, in the order and as often as they were rendered. */
  ghost predicate AreMissing(extra: seq<Bundle>, bundles: seq<Bundle>, original: seq<Bundle>) {
    Picked(bundles, Lacks(original), Same, extra)
  }

  lemma {:induction false} HasIff(original: seq<Bundle>, b: Bundle)
    ensures Has(original, b) <==> PackageOf(original, b.name) == Some(b.package)
  {
    if original != [] {
      var front, last := original[..|original| - 1], original[|original| - 1];
      HasIff(front, b);
      assert forall i :: 0 <= i < |front| ==> front[i] == original[i];
      assert last.name != b.name ==> (Has(front, b) <==> Has(original, b));
    }
  }

  lemma {:induction false} NewAreMissing(bundles: seq<Bundle>, original: seq<Bundle>, n: nat)
    requires n <= |bundles|
    ensures AreMissing(NewBundles(bundles, original, n), bundles[..n], original)
  {
    if n > 0 {
      var b, extra := bundles[n - 1], NewBundles(bundles, original, n - 1);
      NewAreMissing(bundles, original, n - 1);
      HasIff(original, b);
      PickedNext(bundles[..n - 1], b, Lacks(original), Same, extra, b);
      assert bundles[..n] == bundles[..n - 1] + [b] && extra + [] == extra;
    }
  }

  /** In a catalog of distinct names, a bundle is added exactly if it is rendered and not there already. */
  lemma AddedIff(extra: seq<Bundle>, bundles: seq<Bundle>, original: seq<Bundle>, b: Bundle)
    requires AreMissing(extra, bundles, original)
    requires forall i, j :: 0 <= i < j < |original| ==> original[i].name != original[j].name
    ensures b in extra <==> b in bundles && b !in original
  {
    var from := PickedAt(bundles, Lacks(original), Same, extra);
    if b in original {
      var i :| 0 <= i < |original| && original[i] == b;
      assert Has(original, b);
    }
    if b in bundles && b !in original {
      var i :| 0 <= i < |bundles| && bundles[i] == b;
      assert Lacks(original)(b);
      var k :| 0 <= k < |from| && from[k] == i;
      assert extra[k] == b;
    }
    if b in extra {
      var k :| 0 <= k < |extra| && extra[k] == b;
      assert bundles[from[k]] == b;
    }
  }

  /** The loop over the rendered bundles. When the channel exists its entries are replaced
      in the copied list of channels, at the index it had in the original list. */
  method AddBundles(bundles: seq<Bundle>, original: seq<Bundle>, copied: seq<Channel>, index: Option<nat>, head: string)
    returns (panicked: bool, channels: seq<Channel>, entries: seq<Entry>, extra: seq<Bundle>)
    requires |bundles| > 0 && (index.Some? ==> |copied| == 1)
    ensures panicked <==> index.Some? && index.value > 0
    ensures !panicked ==> AreMissing(extra, bundles, original)
    ensures index.None? ==> entries == LinkedEntries(bundles, "", |bundles|) && channels == copied
    ensures !panicked && index.Some? ==> channels == [copied[0].(entries := [LastEntry(bundles, head)])]
  {
    panicked, channels, entries, extra := false, copied, [], [];
    for i := 0 to |bundles|
      invariant i > 0 && index.Some? ==> index.value == 0
      invariant extra == NewBundles(bundles, original, i)
      invariant index.None? ==> entries == LinkedEntries(bundles, "", i) && channels == copied
      invariant index.Some? ==> |channels| == 1 && channels == if i == 0 then copied
                                else [copied[0].(entries := [LinkedEntries(bundles, head, i)[i - 1]])]
    {
      var bundle := bundles[i];
      if PackageOf(original, bundle.name) != Some(bundle.package) {
        extra := extra + [bundle];
      }
      var entry := Entry(bundle.name, if i > 0 then bundles[i - 1].name else if index.Some? then head else "");
      match index
      case Some(k) =>
        if k >= |channels| {
          return true, channels, entries, extra;
        }
        channels := channels[k := channels[k].(entries := [entry])];
      case None =>
        entries := entries + [entry];
    }
    LinkedAt(bundles, head, |bundles|, |bundles| - 1);
    AllMissing(bundles, original);
  }

  lemma AllMissing(bundles: seq<Bundle>, original: seq<Bundle>)
    ensures AreMissing(NewBundles(bundles, original, |bundles|), bundles, original)
  {
    NewAreMissing(bundles, original, |bundles|);
    assert bundles[..|bundles|] == bundles;
  }

  ghost predicate IsFirst(channels: seq<Channel>, name: string, package: string, k: nat) {
    && k < |channels| && channels[k].name == name && channels[k].package == package
    && forall j :: 0 <= j < k ==> channels[j].name != name || channels[j].package != package
  }

  method FindChannel(channels: seq<Channel>, name: string, package: string) returns (index: Option<nat>)
    ensures index == ChannelIndex(channels, name, package)
    ensures match index
            case None => forall j :: 0 <= j < |channels| ==> channels[j].name != name || channels[j].package != package
            case Some(k) => IsFirst(channels, name, package, k)
  {
    for i := 0 to |channels|
      invariant forall j :: 0 <= j < i ==> channels[j].name != name || channels[j].package != package
      invariant ChannelIndex(channels, name, package) ==
                match ChannelIndex(channels[i..], name, package) case None => None case Some(k) => Some(i + k)
    {
      assert channels[i..][1..] == channels[i + 1..];
      if IsChannel(channels[i], name, package) {
        return Some(i);
      }
    }
    return None;
  }

  /** handleTraditionalUpgrade, for rendered bundles: the first channel of that name gets the new entry. */
  method TraditionalUpgrade(original: Config, bundles: seq<Bundle>, channelName: string) returns (r: Outcome)
    ensures r == Failed <==>
              || |bundles| != 1
              || var at := ChannelIndex(original.channels, channelName, bundles[0].package);
                 at.Some? && at.value < |original.channels|
                   && forall h :: !IsHead(original.channels[at.value].entries, h)
    ensures r != Failed ==>
              && r.Upgraded? && r.config.bundles == original.bundles + bundles
              && match ChannelIndex(original.channels, channelName, bundles[0].package)
                 case None => r.config.channels == original.channels
                 case Some(k) =>
                   && k < |original.channels|
                   && var before := original.channels[k];
                   && exists h ::
                        && IsHead(before.entries, h)
                        && r.config.channels ==
                           original.channels[k := before.(entries := before.entries + [Entry(bundles[0].name, h)])]
  {
    if |bundles| != 1 {
      return Failed;
    }
    var channels := original.channels;
    var index := FindChannel(channels, channelName, bundles[0].package);
    if index.Some? {
      var before := channels[index.value];
      var head := GetChannelHead(before.entries);
      if head.None? {
        return Failed;
      }
      channels := channels[index.value := before.(entries := before.entries + [Entry(bundles[0].name, head.value)])];
    }
    assert bundles == [bundles[0]];
    return Upgraded(Config(channels, original.bundles + [bundles[0]]));
  }

  /** What upgradeFBC makes of a catalog whose first channel of that name and package is number k. */
  ghost predicate UpgradesExisting(original: Config, k: nat, bundles: seq<Bundle>, r: Outcome)
    requires k < |original.channels| && bundles != []
  {
    var channel, last := original.channels[k], |bundles| - 1;
    && (r == Failed <==> Named(channel.entries, bundles[last].name) || forall h :: !IsHead(channel.entries, h))
    && (r == Panicked <==> r != Failed && k > 0)
    && (r.Upgraded? ==> exists h ::
          && IsHead(channel.entries, h)
          && r.config.channels == [channel.(entries := [LastEntry(bundles, h)])]
          && AreMissing(r.config.bundles, bundles, original.bundles))
  }

  /** What upgradeFBC makes of a catalog without such a channel: one with all bundles, each replacing the one before. */
  ghost predicate CreatesChannel(channelName: string, package: string, original: Config, bundles: seq<Bundle>,
                                 r: Outcome) {
    && r.Upgraded?
    && r.config.channels == [Channel(channelName, package, LinkedEntries(bundles, "", |bundles|))]
    && AreMissing(r.config.bundles, bundles, original.bundles)
  }

  lemma {:induction false} LeastIndex(channels: seq<Channel>, name: string, package: string)
    ensures forall k: nat :: IsFirst(channels, name, package, k) <==> ChannelIndex(channels, name, package) == Some(k)
  {
    if channels != [] {
      LeastIndex(channels[1..], name, package);
      forall k: nat
        ensures IsFirst(channels, name, package, k) <==>
                if IsChannel(channels[0], name, package) then k == 0
                else k > 0 && IsFirst(channels[1..], name, package, k - 1)
      {
        if k > 0 && IsFirst(channels[1..], name, package, k - 1) && !IsChannel(channels[0], name, package) {
          assert forall j :: 0 < j < k ==> channels[j] == channels[1..][j - 1];
        }
        if k > 0 && IsFirst(channels, name, package, k) {
          assert forall j :: 0 <= j < k - 1 ==> channels[1..][j] == channels[j + 1];
        }
      }
    }
  }

  /** upgradeFBC, for rendered bundles. */
  method UpgradeFbc(package: string, channelName: string, original: Config, bundles: seq<Bundle>) returns (r: Outcome)
    ensures bundles == [] ==> r == Failed
    ensures bundles != [] ==>
              match ChannelIndex(original.channels, channelName, package)
              case None => CreatesChannel(channelName, package, original, bundles, r)
              case Some(k) => k < |original.channels| && UpgradesExisting(original, k, bundles, r)
    ensures forall k: nat :: bundles != [] && IsFirst(original.channels, channelName, package, k) ==>
              UpgradesExisting(original, k, bundles, r)
    ensures bundles != [] && (forall k: nat :: !IsFirst(original.channels, channelName, package, k)) ==>
              CreatesChannel(channelName, package, original, bundles, r)
  {
    LeastIndex(original.channels, channelName, package);
    if |bundles| < 1 {
      return Failed;
    }
    var index := FindChannel(original.channels, channelName, package);
    var head, copied := "", [];
    if index.Some? {
      var channel := original.channels[index.value];
      for j := 0 to |channel.entries|
        invariant forall i :: 0 <= i < j ==> channel.entries[i].name != bundles[|bundles| - 1].name
      {
        if channel.entries[j].name == bundles[|bundles| - 1].name {
          return Failed;
        }
      }
      var found := GetChannelHead(channel.entries);
      if found.None? {
        return Failed;
      }
      head, copied := found.value, [channel];
    }
    var panicked, channels, entries, extra := AddBundles(bundles, original.bundles, copied, index, head);
    if panicked {
      return Panicked;
    }
    if index.None? {
      channels := [Channel(channelName, package, entries)];
    }
    return Upgraded(Config(channels, extra));
  }

  lemma {:induction false} LinkedAt(bundles: seq<Bundle>, first: string, n: nat, i: nat)
    requires i < n <= |bundles|
    ensures LinkedEntries(bundles, first, n)[i] == Entry(bundles[i].name, if i == 0 then first else bundles[i - 1].name)
  {
    if i < n - 1 { LinkedAt(bundles, first, n - 1, i); }
  }

  /** A channel newly built from distinct bundles is a single chain headed by the last one. */
  lemma {:induction false} NewChannelIsChain(bundles: seq<Bundle>, n: string)
    requires bundles != [] && forall i :: 0 <= i < |bundles| ==> bundles[i].name != ""
    requires forall i, j :: 0 <= i < j < |bundles| ==> bundles[i].name != bundles[j].name
    ensures var entries := LinkedEntries(bundles, "", |bundles|);
            && SingleChain(entries, seq(|bundles|, i requires 0 <= i < |bundles| => bundles[i].name), "")
            && (IsHead(entries, n) <==> n == bundles[|bundles| - 1].name)
  {
    var entries := LinkedEntries(bundles, "", |bundles|);
    var order := seq(|bundles|, i requires 0 <= i < |bundles| => bundles[i].name);
    forall i | 0 <= i < |order|
      ensures entries[i] == Link(order, "", i)
    {
      LinkedAt(bundles, "", |bundles|, i);
    }
    forall e | e in entries
      ensures exists i :: 0 <= i < |order| && e == Link(order, "", i)
    {
      var i :| 0 <= i < |entries| && entries[i] == e;
      assert e == Link(order, "", i);
    }
    ChainHead(entries, order, "", n);
  }

  // ----- Upgrading an existing channel -----

  /** The upgraded channel names every rendered bundle exactly when there is one and keeps no entry it had;
      the last bundle is its head, and only an upgrade that ends with this same bundle fails next. */
  lemma UpgradeForgets(original: Config, k: nat, bundles: seq<Bundle>, r: Outcome)
    requires k < |original.channels| && bundles != [] && UpgradesExisting(original, k, bundles, r) && r.Upgraded?
    requires forall i, j :: 0 <= i < j < |bundles| ==> bundles[i].name != bundles[j].name
    ensures k == 0 && |r.config.channels| == 1
    ensures var entries := r.config.channels[0].entries;
            && ((forall i :: 0 <= i < |bundles| ==> Named(entries, bundles[i].name)) <==> |bundles| == 1)
            && (forall e :: e in original.channels[k].entries ==> e !in entries)
            && (forall n :: IsHead(entries, n) <==> n == bundles[|bundles| - 1].name)
    ensures forall more: seq<Bundle>, next :: more != [] && UpgradesExisting(r.config, 0, more, next) ==>
              (next == Failed <==> more[|more| - 1].name == bundles[|bundles| - 1].name) && next != Panicked
  {
    var h, last := r.config.channels[0].entries[0].replacesName, bundles[|bundles| - 1].name;
    assert r.config.channels[0].entries == [Entry(last, h)];
    OneEntry(last, h);
    assert IsHead(r.config.channels[0].entries, last);
  }

  lemma OneEntry(name: string, replaced: string)
    requires name != replaced
    ensures forall n :: Named([Entry(name, replaced)], n) <==> n == name
    ensures forall n :: IsHead([Entry(name, replaced)], n) <==> n == name
  {
    assert [Entry(name, replaced)][0].name == name;
  }

  function TwoBundles(): seq<Bundle> {
    [Bundle("v2", "p"), Bundle("v3", "p")]
  }

  function CatalogWith(entries: seq<Entry>): Config {
    Config([Channel("beta", "p", []), Channel("alpha", "p", entries)], [])
  }

  /** A catalog whose second channel is to be upgraded: the call panics. */
  lemma SecondChannelPanics(r: Outcome)
    requires UpgradesExisting(CatalogWith([Entry("v1", "")]), 1, TwoBundles(), r)
    ensures ChannelIndex(CatalogWith([Entry("v1", "")]).channels, "alpha", "p") == Some(1)
    ensures r == Panicked
  {
    var channels := CatalogWith([Entry("v1", "")]).channels;
    var entries := channels[1].entries;
    assert "beta" != "alpha" && channels[1..][0] == channels[1];
    assert entries[0].name == "v1" && Named(entries, "v1") && IsHead(entries, "v1");
    assert forall i :: 0 <= i < |entries| ==> entries[i].name == "v1";
    assert !Named(entries, "v3");
  }

  /** Two bundles upgrade the only channel: neither the bundle it had nor the first of the two is in it any more. */
  lemma FirstBundleLost(r: Outcome)
    requires UpgradesExisting(Config([Channel("alpha", "p", [Entry("v1", "")])], []), 0, TwoBundles(), r)
    ensures r.Upgraded? && r.config.channels[0].entries == [Entry("v3", "v2")]
  {
    var entries := [Entry("v1", "")];
    assert entries[0].name == "v1" && Named(entries, "v1") && IsHead(entries, "v1");
    assert forall i :: 0 <= i < |entries| ==> entries[i].name == "v1";
    assert !Named(entries, "v3");
    forall h: string
      ensures LinkedEntries(TwoBundles(), h, 2)[1] == Entry("v3", "v2")
    {
      LinkedAt(TwoBundles(), h, 2, 1);
    }
  }
}
