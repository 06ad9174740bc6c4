/** tunnel/tools/wireguard-tools/src/setconf.c: `wg syncconf` turns a configuration file into a change
    to the running device: peers the file does not name are removed, the others are left alone. */
module SyncConf {
  import opened Numbers
  import opened Wrappers
  import opened Netlink
  import opened WgWire
  import opened SetDevice
  import opened KernelFold

  /** struct pubkey_origin. */
  datatype Origin = Origin(key: Key, fromFile: bool)

  // ---- The order ----

  /** The sign of memcmp. */
  function Memcmp(a: seq<uint8>, b: seq<uint8>): int
    requires |a| == |b|
  {
    if a == [] then 0 else if a[0] != b[0] then a[0] - b[0] else Memcmp(a[1..], b[1..])
  }

  function PubkeyCmp(a: Origin, b: Origin): int {
    var ret := Memcmp(a.key, b.key);
    if ret != 0 then ret else (if a.fromFile then 1 else 0) - if b.fromFile then 1 else 0
  }

  lemma {:induction false} MemcmpOrder(a: seq<uint8>, b: seq<uint8>, c: seq<uint8>)
    requires |a| == |b| == |c|
    ensures Memcmp(a, b) == 0 <==> a == b
    ensures Memcmp(a, b) == -Memcmp(b, a)
    ensures Memcmp(a, b) < 0 && Memcmp(b, c) < 0 ==> Memcmp(a, c) < 0
    decreases |a|
  {
    if a != [] {
      MemcmpOrder(a[1..], b[1..], c[1..]);
      assert a == [a[0]] + a[1..] && b == [b[0]] + b[1..];
    }
  }

  predicate Leq(a: Origin, b: Origin) { PubkeyCmp(a, b) <= 0 }

  /** pubkey_cmp is a total order, and only equal elements compare equal. */
  lemma PubkeyCmpOrder(a: Origin, b: Origin, c: Origin)
    ensures Leq(a, b) || Leq(b, a)
    ensures Leq(a, b) && Leq(b, a) <==> a == b
    ensures Leq(a, b) && Leq(b, c) ==> Leq(a, c)
  {
    MemcmpOrder(a.key, b.key, c.key);
    MemcmpOrder(b.key, c.key, a.key);
    MemcmpOrder(a.key, c.key, b.key);
  }

  predicate Ordered(s: seq<Origin>) { forall i, j :: 0 <= i < j < |s| ==> Leq(s[i], s[j]) }

  /** What is asked of qsort. */
  ghost predicate Sorts(qsort: seq<Origin> -> seq<Origin>) {
    forall s :: Ordered(qsort(s)) && multiset(qsort(s)) == multiset(s)
  }

  // ---- The scan ----

  predicate StaleHead(s: seq<Origin>)
    requires s != []
  {
    !s[0].fromFile && (|s| == 1 || !s[1].fromFile || s[0].key != s[1].key)
  }

  /** The keys the scan picks, one for each time it does. */
  function Stale(s: seq<Origin>): multiset<Key> {
    if s == [] then multiset{}
    else (if StaleHead(s) then multiset{s[0].key} else multiset{}) + Stale(s[1..])
  }

  /** A key's runtime entries are all picked if the file does not have it, and all but one if it does. */
  lemma {:induction false} StaleCount(s: seq<Origin>, key: Key)
    requires Ordered(s)
    ensures var n := multiset(s)[Origin(key, false)];
      Stale(s)[key] == if n > 0 && Origin(key, true) in s then n - 1 else n
  {
    hide Ordered;
    if s != [] {
      var h, t := s[0], s[1..];
      OrderedTail(s);
      StaleCount(t, key);
      CountHead(h, t, key);
      assert s == [h] + t;
      if h.key == key {
        Followers(s);
      }
    }
  }

  lemma OrderedTail(s: seq<Origin>)
    requires Ordered(s) && s != []
    ensures Ordered(s[1..])
  {
  }

  lemma CountHead(h: Origin, t: seq<Origin>, key: Key)
    ensures multiset([h] + t)[Origin(key, false)]
         == multiset(t)[Origin(key, false)] + if h == Origin(key, false) then 1 else 0
    ensures Origin(key, true) in [h] + t <==> h == Origin(key, true) || Origin(key, true) in t
  {
  }

  /** What can come after the head of a sorted list: no runtime entry of the head's key after a file
      entry or after a different key. */
  lemma Followers(s: seq<Origin>)
    requires Ordered(s) && s != []
    ensures s[0].fromFile || (|s| > 1 && (s[1].fromFile || s[1].key != s[0].key)) ==>
      multiset(s[1..])[Origin(s[0].key, false)] == 0
    ensures |s| > 1 && s[1].key != s[0].key ==> Origin(s[0].key, true) !in s[1..]
  {
    forall j | 1 <= j < |s|
      ensures s[0].fromFile || s[1].fromFile || s[1].key != s[0].key ==> s[j] != Origin(s[0].key, false)
      ensures s[1].key != s[0].key ==> s[j].key != s[0].key
    {
      MemcmpOrder(s[0].key, s[1].key, s[j].key);
      MemcmpOrder(s[0].key, s[j].key, s[1].key);
      MemcmpOrder(s[1].key, s[j].key, s[0].key);
      assert Leq(s[0], s[j]) && Leq(s[0], s[1]) && (j > 1 ==> Leq(s[1], s[j]));
    }
  }

  // ---- sync_conf ----

  class WgDevice {
    var replacePeers: bool
    var peers: seq<Peer>

    constructor (replacePeers: bool, peers: seq<Peer>)
      ensures this.replacePeers == replacePeers && this.peers == peers
    {
      this.replacePeers := replacePeers;
      this.peers := peers;
    }
  }

  function Keys(peers: seq<Peer>): (r: seq<Key>)
    ensures |r| == |peers|
  {
    seq(|peers|, i requires 0 <= i < |peers| => peers[i].publicKey)
  }

  function Origins(keys: seq<Key>, fromFile: bool): (r: seq<Origin>)
    ensures |r| == |keys|
  {
    seq(|keys|, i requires 0 <= i < |keys| => Origin(keys[i], fromFile))
  }

  lemma {:induction false} OriginsCount(keys: seq<Key>, fromFile: bool, key: Key)
    ensures multiset(Origins(keys, fromFile))[Origin(key, fromFile)] == multiset(keys)[key]
    ensures multiset(Origins(keys, fromFile))[Origin(key, !fromFile)] == 0
  {
    if keys != [] {
      var n := |keys| - 1;
      OriginsCount(keys[..n], fromFile, key);
      assert keys == keys[..n] + [keys[n]];
      assert Origins(keys, fromFile) == Origins(keys[..n], fromFile) + [Origin(keys[n], fromFile)];
    }
  }

  /** How often a key is removed: as often as the device has it, but once less if the file keeps it. */
  function Surplus(file: seq<Key>, runtime: seq<Key>, key: Key): nat {
    var n := multiset(runtime)[key];
    if n > 0 && key in file then n - 1 else n
  }

  lemma StaleIsSurplus(file: seq<Key>, runtime: seq<Key>, s: seq<Origin>)
    requires Ordered(s) && multiset(s) == multiset(Origins(file, true) + Origins(runtime, false))
    ensures forall key :: Stale(s)[key] == Surplus(file, runtime, key)
  {
    forall key ensures Stale(s)[key] == Surplus(file, runtime, key) {
      StaleCount(s, key);
      OriginsCount(file, true, key);
      OriginsCount(runtime, false, key);
      assert key in file <==> multiset(file)[key] > 0;
      assert Origin(key, true) in s <==> multiset(s)[Origin(key, true)] > 0;
    }
  }

  function RemovePeer(key: Key): Peer { Peer(key, true, false, NoScalars, []) }

  function RemovePeers(keys: seq<Key>): (r: seq<Peer>)
    ensures |r| == |keys|
  {
    seq(|keys|, i requires 0 <= i < |keys| => RemovePeer(keys[i]))
  }

  /** Fill the array. */
  method CollectKeys(file: seq<Peer>, runtime: seq<Key>) returns (pubkeys: seq<Origin>)
    ensures pubkeys == Origins(Keys(file), true) + Origins(runtime, false)
  {
    pubkeys := [];
    for i := 0 to |file|
      invariant |pubkeys| == i && forall k :: 0 <= k < i ==> pubkeys[k] == Origin(file[k].publicKey, true)
    {
      pubkeys := pubkeys + [Origin(file[i].publicKey, true)];
    }
    for i := 0 to |runtime|
      invariant |pubkeys| == |file| + i
      invariant forall k :: 0 <= k < |file| ==> pubkeys[k] == Origin(file[k].publicKey, true)
      invariant forall k :: |file| <= k < |pubkeys| ==> pubkeys[k] == Origin(runtime[k - |file|], false)
    {
      pubkeys := pubkeys + [Origin(runtime[i], false)];
    }
  }

  /** Scan the sorted array, putting a removal in front of the file's peers for each stale key. */
  method PrependStale(file: WgDevice, pubkeys: seq<Origin>) returns (ghost removed: seq<Key>)
    modifies file`peers
    ensures file.peers == RemovePeers(removed) + old(file.peers) && multiset(removed) == Stale(pubkeys)
  {
    hide Stale, RemovePeers;
    NothingRemoved();
    removed := [];
    var i := 0;
    assert pubkeys[0..] == pubkeys;
    while i < |pubkeys|
      invariant 0 <= i <= |pubkeys|
      invariant file.peers == RemovePeers(removed) + old(file.peers)
      invariant multiset(removed) + Stale(pubkeys[i..]) == Stale(pubkeys)
    {
      StaleStep(pubkeys, i);
      if !pubkeys[i].fromFile
         && (i == |pubkeys| - 1 || !pubkeys[i + 1].fromFile || pubkeys[i].key != pubkeys[i + 1].key) {
        file.peers := [RemovePeer(pubkeys[i].key)] + file.peers;
        RemoveFirst(pubkeys[i].key, removed);
        removed := [pubkeys[i].key] + removed;
      }
      i := i + 1;
    }
    assert pubkeys[i..] == [];
  }

  lemma NothingRemoved()
    ensures RemovePeers([]) == [] && Stale([]) == multiset{}
  {
  }

  lemma StaleStep(s: seq<Origin>, i: nat)
    requires i < |s|
    ensures Stale(s[i..]) == Stale(s[i + 1..]) +
      if !s[i].fromFile && (i == |s| - 1 || !s[i + 1].fromFile || s[i].key != s[i + 1].key)
      then multiset{s[i].key} else multiset{}
  {
    assert s[i..][1..] == s[i + 1..];
  }

  lemma RemoveFirst(key: Key, keys: seq<Key>)
    ensures RemovePeers([key] + keys) == [RemovePeer(key)] + RemovePeers(keys)
    ensures multiset([key] + keys) == multiset{key} + multiset(keys)
  {
  }

  /** `runtime` is what ipc_get_device finds: nothing when it fails, else the device's keys. */
  method SyncConf(file: WgDevice, runtime: Option<seq<Key>>, qsort: seq<Origin> -> seq<Origin>)
    returns (ok: bool, ghost removed: seq<Key>)
    requires Sorts(qsort)
    modifies file
    ensures ok <==> old(file.peers) == [] || runtime.Some?
    ensures file.peers == RemovePeers(removed) + old(file.peers)
    ensures if old(file.peers) == [] || runtime.None? || runtime.value == []
      then removed == [] && file.replacePeers == old(file.replacePeers)
      else !file.replacePeers
           && forall key :: multiset(removed)[key] == Surplus(Keys(old(file.peers)), runtime.value, key)
  {
    hide Stale, Ordered, Surplus;
    removed := [];
    if file.peers == [] {
      return true, removed;
    }
    if runtime.None? {
      return false, removed;
    }
    if runtime.value == [] {
      return true, removed;
    }
    file.replacePeers := false;
    var pubkeys := CollectKeys(file.peers, runtime.value);
    pubkeys := qsort(pubkeys);
    StaleIsSurplus(Keys(file.peers), runtime.value, pubkeys);
    removed := PrependStale(file, pubkeys);
    ok := true;
  }

  // ---- With the kernel ----

  function Lookup(k: Kernel, key: Key): Option<Scalars> { if key in k.peers then Some(k.peers[key]) else None }

  /** What a list of peers does to the peer with this key. */
  function PeerFold(x: Option<Scalars>, key: Key, peers: seq<Peer>): Option<Scalars> {
    if peers == [] then x
    else
      var p, y := peers[|peers| - 1], PeerFold(x, key, peers[..|peers| - 1]);
      if p.publicKey != key then y
      else if p.removeMe then None
      else Some(Merge(if y.Some? then y.value else NoScalars, p.scalars))
  }

  lemma {:induction false} LookupAfter(k: Kernel, key: Key, peers: seq<Peer>)
    ensures Lookup(ApplyRecords(k, PartRecords(true, WholeParts(peers))), key) == PeerFold(Lookup(k, key), key, peers)
    decreases |peers|
  {
    hide ApplyRecords;
    if peers == [] {
      NoRecords(k);
    } else {
      var n := |peers| - 1;
      LookupAfter(k, key, peers[..n]);
      RecordsSnoc(k, PartRecords(true, WholeParts(peers[..n])), PartRecord(true, WholePart(peers[n])));
      assert PartRecords(true, WholeParts(peers))
          == PartRecords(true, WholeParts(peers[..n])) + [PartRecord(true, WholePart(peers[n]))];
    }
  }

  lemma NoRecords(k: Kernel)
    ensures ApplyRecords(k, []) == k
  {
  }

  lemma {:induction false} FoldRemovals(x: Option<Scalars>, key: Key, removed: seq<Key>, peers: seq<Peer>)
    ensures PeerFold(x, key, RemovePeers(removed) + peers) == PeerFold(if key in removed then None else x, key, peers)
    decreases |removed| + |peers|
  {
    if peers != [] {
      var n := |peers| - 1;
      FoldRemovals(x, key, removed, peers[..n]);
      assert (RemovePeers(removed) + peers)[..|removed| + n] == RemovePeers(removed) + peers[..n];
    } else if removed != [] {
      var n := |removed| - 1;
      FoldRemovals(x, key, removed[..n], []);
      assert RemovePeers(removed[..n]) + [] == (RemovePeers(removed) + peers)[..n];
      assert removed == removed[..n] + [removed[n]];
    }
  }

  lemma {:induction false} FoldKeeps(x: Option<Scalars>, key: Key, peers: seq<Peer>)
    requires forall i :: 0 <= i < |peers| ==> !peers[i].removeMe
    ensures PeerFold(x, key, peers).Some? <==> x.Some? || key in Keys(peers)
    ensures key !in Keys(peers) ==> PeerFold(x, key, peers) == x
    decreases |peers|
  {
    if peers != [] {
      var n := |peers| - 1;
      FoldKeeps(x, key, peers[..n]);
      assert Keys(peers) == Keys(peers[..n]) + [peers[n].publicKey];
    }
  }

  lemma FoldUnique(x: Option<Scalars>, peers: seq<Peer>, i: nat)
    requires i < |peers| && forall j :: 0 <= j < |peers| ==> !peers[j].removeMe
    requires forall j :: 0 <= j < |peers| && j != i ==> peers[j].publicKey != peers[i].publicKey
    ensures PeerFold(x, peers[i].publicKey, peers)
         == Some(Merge(if x.Some? then x.value else NoScalars, peers[i].scalars))
    decreases |peers|
  {
    var n := |peers| - 1;
    if i < n {
      FoldUnique(x, peers[..n], i);
    } else {
      FoldKeeps(x, peers[i].publicKey, peers[..n]);
    }
  }

  /** A device whose keys are the runtime keys has exactly the file's keys after applying what
      sync_conf makes of the file, and that for each of its three successful exits. */
  lemma SyncLands(k: Kernel, file: seq<Peer>, runtime: seq<Key>, dev: Device, removed: seq<Key>)
    requires forall key :: key in k.peers <==> key in runtime
    requires forall i :: 0 <= i < |file| ==> !file[i].removeMe
    requires dev.peers == RemovePeers(removed) + file
    requires if file == [] || runtime == [] then removed == [] && dev.replacePeers
      else !dev.replacePeers && forall key :: multiset(removed)[key] == Surplus(Keys(file), runtime, key)
    ensures forall key :: key in ApplyRequest(k, WholeRequest(dev)).peers <==> key in Keys(file)
  {
    var k' := ApplyHead(k, WholeRequest(dev));
    forall key ensures key in ApplyRequest(k, WholeRequest(dev)).peers <==> key in Keys(file) {
      SyncLookup(k, dev, key);
      FoldRemovals(Lookup(k', key), key, removed, file);
      assert key in removed <==> multiset(removed)[key] > 0;
      assert key in runtime <==> multiset(runtime)[key] > 0;
      FoldKeeps(if key in removed then None else Lookup(k', key), key, file);
    }
  }

  lemma SyncLookup(k: Kernel, dev: Device, key: Key)
    ensures Lookup(ApplyRequest(k, WholeRequest(dev)), key)
         == PeerFold(Lookup(ApplyHead(k, WholeRequest(dev)), key), key, dev.peers)
  {
    hide ApplyRecords;
    LookupAfter(ApplyHead(k, WholeRequest(dev)), key, dev.peers);
    assert dev.peers == [] ==> PartRecords(true, WholeParts(dev.peers)) == [];
  }

  /** No peer the file keeps is removed, if and only if the device has none of the file's keys twice. */
  lemma KeepsIffDistinct(file: seq<Key>, runtime: seq<Key>, removed: seq<Key>)
    requires forall key :: multiset(removed)[key] == Surplus(file, runtime, key)
    ensures (forall key :: key in removed ==> key !in file)
       <==> (forall key :: key in file ==> multiset(runtime)[key] <= 1)
    ensures forall key :: key !in file ==> (key in removed <==> key in runtime)
  {
    forall key
      ensures key in removed <==> Surplus(file, runtime, key) > 0
      ensures key in runtime <==> multiset(runtime)[key] > 0
    {
      assert key in removed <==> multiset(removed)[key] > 0;
    }
  }

  /** So a running peer that stays is updated in place: what the file does not mention survives. */
  lemma SyncUpdates(k: Kernel, file: seq<Peer>, runtime: seq<Key>, dev: Device, removed: seq<Key>, i: nat)
    requires dev.peers == RemovePeers(removed) + file && !dev.replacePeers
    requires forall key :: multiset(removed)[key] == Surplus(Keys(file), runtime, key)
    requires forall j :: 0 <= j < |file| ==> !file[j].removeMe
    requires i < |file| && forall j :: 0 <= j < |file| && j != i ==> file[j].publicKey != file[i].publicKey
    requires multiset(runtime)[file[i].publicKey] == 1 && file[i].publicKey in k.peers
    ensures var key := file[i].publicKey;
      var k' := ApplyRequest(k, WholeRequest(dev));
      key in k'.peers && k'.peers[key] == Merge(k.peers[key], file[i].scalars)
  {
    var key := file[i].publicKey;
    assert key == Keys(file)[i];
    assert key in removed <==> multiset(removed)[key] > 0;
    SyncLookup(k, dev, key);
    FoldRemovals(Lookup(k, key), key, removed, file);
    FoldUnique(Lookup(k, key), file, i);
  }

  /** `wg syncconf` as far as the kernel: read the file, compare with the device, send the difference.
      The configuration reader asks for REPLACE_PEERS and never for a peer's removal. */
  method SyncDevice(file: Device, runtime: Option<seq<Key>>, qsort: seq<Origin> -> seq<Origin>)
    returns (ok: bool, dev: Device)
    requires Sorts(qsort) && file.replacePeers && forall i :: 0 <= i < |file.peers| ==> !file.peers[i].removeMe
    ensures ok <==> file.peers == [] || runtime.Some?
    ensures file.Valid() ==> dev.Valid()
    ensures ok ==> forall k: Kernel ::
      (runtime.Some? && forall key :: key in k.peers <==> key in runtime.value) ==>
      forall key :: key in ApplyRequest(k, WholeRequest(dev)).peers <==> key in Keys(file.peers)
  {
    hide Sorts, ApplyRequest, WholeRequest, Surplus, RemovePeers;
    var d := new WgDevice(file.replacePeers, file.peers);
    ghost var removed;
    ok, removed := SyncConf(d, runtime, qsort);
    dev := file.(replacePeers := d.replacePeers, peers := d.peers);
    RemovalsValid(removed);
    if ok && runtime.Some? {
      forall k: Kernel | forall key :: key in k.peers <==> key in runtime.value
        ensures forall key :: key in ApplyRequest(k, WholeRequest(dev)).peers <==> key in Keys(file.peers)
      {
        SyncLands(k, file.peers, runtime.value, dev, removed);
      }
    }
  }

  lemma RemovalsValid(keys: seq<Key>)
    ensures forall i :: 0 <= i < |RemovePeers(keys)| ==> RemovePeers(keys)[i].Valid()
  {
  }

  /** All the way: the messages that kernel_set_device writes for what sync_conf makes of the file,
      applied one after the other to a device with the runtime keys, leave exactly the file's keys. */
  method SyncKernel(file: Device, runtime: Option<seq<Key>>, qsort: seq<Origin> -> seq<Origin>, size: nat)
    returns (ok: bool, bodies: seq<Bytes>)
    requires Sorts(qsort) && file.replacePeers && forall i :: 0 <= i < |file.peers| ==> !file.peers[i].removeMe
    requires file.Valid() && MIN_BUFFER <= size <= 8192
    ensures ok <==> file.peers == [] || runtime.Some?
    ensures ok ==> forall i :: 0 <= i < |bodies| ==> HEADER + |bodies[i]| <= size
    ensures ok ==> forall k: Kernel ::
      (runtime.Some? && forall key :: key in k.peers <==> key in runtime.value) ==>
      forall key :: key in ApplyMessages(k, bodies).peers <==> key in Keys(file.peers)
  {
    hide Sorts, ApplyRequest, WholeRequest, ApplyMessages;
    var dev;
    ok, dev := SyncDevice(file, runtime, qsort);
    if !ok {
      return false, [];
    }
    bodies := Configure(dev, size);
  }
}
