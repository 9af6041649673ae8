/** The peer address tables: one map of peers, two tables by network group, and a shuffled list of keys. */
module PeerTables {
  import opened Bits
  import opened Bytes

  datatype NetAddr = NetAddr(ip: IpAddr, port: uint16, services: uint64, timestamp: uint32)

  datatype Peer = Peer(addr: NetAddr, source: NetAddr, attempts: uint32, lastTry: int, lastSuccess: int)

  const PEER_HORIZON_DAYS := 30
  const PEER_RETRIES := 3
  const MIN_PEER_FAIL_DAYS := 7
  const MAX_PEER_FAILURES := 10
  const MAX_GETADDR_PCT := 23
  const MAX_GETADDR_COUNT := 2500

  // Addresses are equal when IP and port are.
  predicate SameAddr(a: NetAddr, b: NetAddr) {
    a.ip == b.ip && a.port == b.port
  }

  predicate IsTerriblePeer(peer: Peer, now: int) {
    if peer.lastTry != 0 && peer.lastTry >= now - 60 then false
    else if peer.addr.timestamp > now + 10 * 60 then true
    else if peer.addr.timestamp == 0 || now - peer.addr.timestamp > PEER_HORIZON_DAYS * 24 * 60 * 60 then true
    else if peer.lastSuccess == 0 && peer.attempts >= PEER_RETRIES then true
    else now - peer.lastSuccess > MIN_PEER_FAIL_DAYS * 24 * 60 * 60 && peer.attempts >= MAX_PEER_FAILURES
  }

  /** A peer is kept exactly if it was tried in the last minute, or it was seen in the last thirty days, at most ten
      minutes ahead, with fewer than three attempts unless one succeeded and fewer than ten unless one succeeded in the
      last week. */
  lemma KeptIff(peer: Peer, now: int)
    ensures !IsTerriblePeer(peer, now) <==>
            || (peer.lastTry != 0 && now - peer.lastTry <= 60)
            || (&& peer.addr.timestamp > 0 && -600 <= now - peer.addr.timestamp <= 2_592_000
                && (peer.attempts < 3 || peer.lastSuccess != 0)
                && (peer.attempts < 10 || now - peer.lastSuccess <= 604_800))
  {
  }

  /** A peer that is terrible stays so, unless it is tried again or its time stamp lay ahead. */
  lemma TerribleStays(peer: Peer, now: int, later: int)
    requires IsTerriblePeer(peer, now) && now <= later && peer.addr.timestamp <= now + 600
    ensures IsTerriblePeer(peer, later)
  {
  }

  function Wrap32(n: int): uint32 { n % 0x1_0000_0000 }

  // What a repeated announcement changes in the stored peer.
  function Refreshed(peer: Peer, addr: NetAddr, timePenalty: int, now: int): Peer {
    if addr.timestamp == 0 || (peer.addr.timestamp != 0 && addr.timestamp <= peer.addr.timestamp) then peer
    else
      var interval := if now - addr.timestamp < 24 * 60 * 60 then 60 * 60 else 24 * 60 * 60;
      var late := peer.addr.timestamp == 0 || peer.addr.timestamp < Wrap32(addr.timestamp - interval) - timePenalty;
      var penalised := addr.timestamp - timePenalty;
      var timestamp := if late then Wrap32(if penalised < 0 then 0 else penalised) else peer.addr.timestamp;
      peer.(addr := peer.addr.(timestamp := timestamp, services := UnitedServices(peer.addr.services, addr.services)))
  }

  // Without news the stored peer stays as it is.
  lemma RefreshedWithoutNews(peer: Peer, addr: NetAddr, timePenalty: int, now: int)
    requires addr.timestamp == 0 || 0 < addr.timestamp <= peer.addr.timestamp
    ensures Refreshed(peer, addr, timePenalty, now) == peer
  {
  }

  /** News, that is a newer time stamp or any where there was none: a service is then known if it was known or is
      announced, the time stamp moves when it is more than an hour behind, or a day for news older than that, and the
      rest stays. */
  lemma RefreshedMeans(peer: Peer, addr: NetAddr, timePenalty: int, now: int)
    requires addr.timestamp > 0 && (peer.addr.timestamp == 0 || addr.timestamp > peer.addr.timestamp)
    ensures var r := Refreshed(peer, addr, timePenalty, now);
            && r.addr.ip == peer.addr.ip && r.addr.port == peer.addr.port && r.source == peer.source
            && r.attempts == peer.attempts && r.lastTry == peer.lastTry && r.lastSuccess == peer.lastSuccess
            && (forall j :: Bit(r.addr.services, j) <==> Bit(peer.addr.services, j) || Bit(addr.services, j))
    ensures var wait := if now - addr.timestamp < 86_400 then 3_600 else 86_400;
            var seen, heard := peer.addr.timestamp, addr.timestamp;
            var wraps := heard < wait && heard - seen > wait + timePenalty - 0x1_0000_0000;
            Refreshed(peer, addr, timePenalty, now).addr.timestamp ==
            if seen == 0 || heard - seen > wait + timePenalty || wraps
            then (if heard < timePenalty then 0 else (heard - timePenalty) % 0x1_0000_0000)
            else seen
  {
    forall j: nat
      ensures Bit(Or(peer.addr.services, addr.services), j) <==> Bit(peer.addr.services, j) || Bit(addr.services, j)
    {
      OrBit(peer.addr.services, addr.services, j);
    }
  }

  /** The time stamp of a stored peer falls exactly when one from the first hour of the epoch, or day, is announced:
      the comparison then wraps below zero. */
  lemma TimestampFalls(peer: Peer, addr: NetAddr, timePenalty: int, now: int)
    requires 0 <= timePenalty
    ensures var wait := if now - addr.timestamp < 86_400 then 3_600 else 86_400;
            var seen, heard := peer.addr.timestamp, addr.timestamp;
            Refreshed(peer, addr, timePenalty, now).addr.timestamp < seen <==>
            0 < seen < heard < wait && heard - timePenalty < seen < 0x1_0000_0000 + heard - wait - timePenalty
  {
  }

  function UnitedServices(a: uint64, b: uint64): uint64 {
    OrOfWords(a, b);
    Or(a, b)
  }

  lemma OrOfWords(a: uint64, b: uint64)
    ensures Or(a, b) < 0x1_0000_0000_0000_0000
  {
    Pow2Of64();
    OrBelow(a, b, 64);
  }

  // ---------- consistency of the tables ----------

  // A table entry names a stored peer of its group.
  ghost predicate TableOk(tbl: map<uint64, uint64>, peers: map<uint64, Peer>, groupKeyOf: IpAddr -> uint64) {
    forall g {:trigger tbl[g]} :: g in tbl ==> tbl[g] in peers && groupKeyOf(peers[tbl[g]].addr.ip) == g
  }

  ghost predicate PeersKeyed(peers: map<uint64, Peer>, mapKeyOf: IpAddr -> uint64) {
    forall k {:trigger peers[k]} :: k in peers ==> mapKeyOf(peers[k].addr.ip) == k
  }

  // Addresses with the same key belong to the same group.
  ghost predicate KeysAgree(mapKeyOf: IpAddr -> uint64, groupKeyOf: IpAddr -> uint64) {
    forall a: IpAddr, b: IpAddr {:trigger groupKeyOf(a), groupKeyOf(b)} ::
      mapKeyOf(a) == mapKeyOf(b) ==> groupKeyOf(a) == groupKeyOf(b)
  }

  // The list holds each key of the map exactly once.
  ghost predicate ListsKeys(order: seq<uint64>, peers: map<uint64, Peer>) {
    multiset(order) == multiset(peers.Keys)
  }

  function Without<V>(m: map<uint64, V>, k: uint64): map<uint64, V> { m - {k} }

  // A table without the entry of a group, if that names the peer.
  function Delisted(tbl: map<uint64, uint64>, g: uint64, k: uint64): map<uint64, uint64> {
    if g in tbl && tbl[g] == k then Without(tbl, g) else tbl
  }

  lemma ListsWithout(order: seq<uint64>, shorter: seq<uint64>, peers: map<uint64, Peer>, k: uint64)
    requires ListsKeys(order, peers) && k in peers
    requires multiset(shorter) == multiset(order) - multiset{k}
    ensures ListsKeys(shorter, Without(peers, k))
  {
    assert Without(peers, k).Keys == peers.Keys - {k};
  }

  lemma ListsWith(order: seq<uint64>, peers: map<uint64, Peer>, k: uint64, p: Peer)
    requires ListsKeys(order, peers) && k !in peers
    ensures ListsKeys(order + [k], peers[k := p])
  {
    assert peers[k := p].Keys == peers.Keys + {k};
  }

  // Removing a peer, and with it its entry if it has one, leaves a table in order.
  lemma TableDrop(tbl: map<uint64, uint64>, left: map<uint64, uint64>, peers: map<uint64, Peer>,
                  k: uint64, groupKeyOf: IpAddr -> uint64)
    requires TableOk(tbl, peers, groupKeyOf) && k in peers
    requires var g := groupKeyOf(peers[k].addr.ip);
             left == Without(tbl, g) || (left == tbl && (g !in tbl || tbl[g] != k))
    ensures TableOk(left, Without(peers, k), groupKeyOf)
  {
    forall h {:trigger left[h]} | h in left
      ensures left[h] in Without(peers, k) && groupKeyOf(Without(peers, k)[left[h]].addr.ip) == h
    {
      assert tbl[h] in peers;
    }
  }

  // A peer stored under a new key, with or without an entry, leaves a table in order.
  lemma TableAdd(tbl: map<uint64, uint64>, more: map<uint64, uint64>, peers: map<uint64, Peer>,
                 k: uint64, p: Peer, groupKeyOf: IpAddr -> uint64)
    requires TableOk(tbl, peers, groupKeyOf)
    requires k in peers ==> groupKeyOf(p.addr.ip) == groupKeyOf(peers[k].addr.ip)
    requires more == tbl || more == tbl[groupKeyOf(p.addr.ip) := k]
    ensures TableOk(more, peers[k := p], groupKeyOf)
  {
    forall h {:trigger more[h]} | h in more
      ensures more[h] in peers[k := p] && groupKeyOf(peers[k := p][more[h]].addr.ip) == h
    {
      if h in tbl { assert tbl[h] in peers; }
    }
  }

  /** The map, the two tables and the order agree: peers are stored under their own keys, every entry names a peer of
      its group, no group is in both tables, and the order holds each key once. */
  ghost predicate Agree(peers: map<uint64, Peer>, newTbl: map<uint64, uint64>, triedTbl: map<uint64, uint64>,
                        order: seq<uint64>, mapKeyOf: IpAddr -> uint64, groupKeyOf: IpAddr -> uint64) {
    PeersKeyed(peers, mapKeyOf) && TableOk(newTbl, peers, groupKeyOf) && TableOk(triedTbl, peers, groupKeyOf) &&
    newTbl.Keys !! triedTbl.Keys && ListsKeys(order, peers)
  }

  lemma AgreeWithout(peers: map<uint64, Peer>, newTbl: map<uint64, uint64>, triedTbl: map<uint64, uint64>,
                     order: seq<uint64>, mapKeyOf: IpAddr -> uint64, groupKeyOf: IpAddr -> uint64, k: uint64,
                     newLeft: map<uint64, uint64>, triedLeft: map<uint64, uint64>, shorter: seq<uint64>)
    requires Agree(peers, newTbl, triedTbl, order, mapKeyOf, groupKeyOf) && k in peers
    requires var g := groupKeyOf(peers[k].addr.ip);
             && (newLeft == Without(newTbl, g) || (newLeft == newTbl && (g !in newTbl || newTbl[g] != k)))
             && (triedLeft == Without(triedTbl, g) || (triedLeft == triedTbl && (g !in triedTbl || triedTbl[g] != k)))
    requires multiset(shorter) == multiset(order) - multiset{k}
    ensures Agree(Without(peers, k), newLeft, triedLeft, shorter, mapKeyOf, groupKeyOf)
  {
    TableDrop(newTbl, newLeft, peers, k, groupKeyOf);
    TableDrop(triedTbl, triedLeft, peers, k, groupKeyOf);
    ListsWithout(order, shorter, peers, k);
  }

  // Without repetition.
  ghost predicate Distinct<T(!new)>(s: seq<T>) {
    forall i, j :: 0 <= i < j < |s| ==> s[i] != s[j]
  }

  lemma OnceEach(order: seq<uint64>, peers: map<uint64, Peer>)
    requires ListsKeys(order, peers)
    ensures Distinct(order) && |order| == |peers|
    ensures forall i :: 0 <= i < |order| ==> order[i] in peers
  {
    assert |multiset(order)| == |order| && |multiset(peers.Keys)| == |peers.Keys|;
    forall i | 0 <= i < |order|
      ensures order[i] in peers
    {
      assert order[i] in multiset(order);
    }
    forall i, j | 0 <= i < j < |order|
      ensures order[i] != order[j]
    {
      var front, back := order[..j], order[j..];
      assert order == front + back;
      assert front[i] in multiset(front) && back[0] in multiset(back);
      assert multiset(peers.Keys)[order[i]] <= 1;
    }
  }

  // ---------- what GetAddrs selects ----------

  predicate IsUsable(k: uint64, peers: map<uint64, Peer>, now: int) { k in peers && !IsTerriblePeer(peers[k], now) }

  // The keys of peers that are not terrible, in the given order.
  function Usable(keys: seq<uint64>, peers: map<uint64, Peer>, now: int): seq<uint64> {
    if keys == [] then []
    else
      var last := keys[|keys| - 1];
      Usable(keys[..|keys| - 1], peers, now) + if IsUsable(last, peers, now) then [last] else []
  }

  function AddrsOf(keys: seq<uint64>, peers: map<uint64, Peer>): seq<NetAddr>
    requires forall k <- keys :: k in peers
  {
    seq(|keys|, i requires 0 <= i < |keys| => peers[keys[i]].addr)
  }

  /** Selected are exactly the stored peers among the keys that are not terrible. */
  lemma UsableIsFilter(keys: seq<uint64>, peers: map<uint64, Peer>, now: int)
    ensures var u := Usable(keys, peers, now);
            |u| <= |keys| &&
            (forall k :: k in u <==> k in keys && k in peers && !IsTerriblePeer(peers[k], now)) &&
            (Distinct(keys) ==> Distinct(u))
  {
    SelectsUsable(keys, peers, now);
  }

  lemma {:induction false} SelectsUsable(keys: seq<uint64>, peers: map<uint64, Peer>, now: int)
    ensures var u := Usable(keys, peers, now);
            |u| <= |keys| && (forall k :: k in u <==> k in keys && IsUsable(k, peers, now)) &&
            (Distinct(keys) ==> Distinct(u))
  {
    if keys != [] {
      var front, last := keys[..|keys| - 1], keys[|keys| - 1];
      SelectsUsable(front, peers, now);
      OneMoreKey(front, last, Usable(front, peers, now));
      assert keys == front + [last];
    }
  }

  lemma OneMoreKey(front: seq<uint64>, last: uint64, some: seq<uint64>)
    requires forall k <- some :: k in front
    requires Distinct(front) ==> Distinct(some)
    ensures Distinct(front + [last]) ==> Distinct(some + [last]) && Distinct(some)
  {
    if Distinct(front + [last]) {
      var all := front + [last];
      assert forall i :: 0 <= i < |front| ==> all[i] == front[i] && all[i] != all[|front|];
      assert Distinct(front);
      forall i | 0 <= i < |some|
        ensures some[i] != last
      {
        assert some[i] in some && some[i] in front;
      }
    }
  }

  /** The selected addresses are those of distinct stored peers, and no address appears twice. */
  lemma SelectedAreDistinct(keys: seq<uint64>, peers: map<uint64, Peer>, now: int,
                            mapKeyOf: IpAddr -> uint64)
    requires PeersKeyed(peers, mapKeyOf) && Distinct(keys)
    ensures forall k <- Usable(keys, peers, now) :: k in peers
    ensures var a := AddrsOf(Usable(keys, peers, now), peers);
            forall i, j :: 0 <= i < j < |a| ==> a[i].ip != a[j].ip
  {
    UsableIsFilter(keys, peers, now);
    var u := Usable(keys, peers, now);
    var a := AddrsOf(u, peers);
    forall i, j | 0 <= i < j < |a|
      ensures a[i].ip != a[j].ip
    {
      assert mapKeyOf(peers[u[i]].addr.ip) == u[i] && mapKeyOf(peers[u[j]].addr.ip) == u[j];
    }
  }

  class Peers {
    const mapKeyOf: IpAddr -> uint64
    const groupKeyOf: IpAddr -> uint64
    const isRoutable: IpAddr -> bool
    var mapPeers: map<uint64, Peer>
    var newTbl: map<uint64, uint64>
    var triedTbl: map<uint64, uint64>
    var randOrder: seq<uint64>

    ghost predicate Valid()
      reads this
    {
      KeysAgree(mapKeyOf, groupKeyOf) && Agree(mapPeers, newTbl, triedTbl, randOrder, mapKeyOf, groupKeyOf)
    }

    constructor (mapKeyOf: IpAddr -> uint64, groupKeyOf: IpAddr -> uint64, isRoutable: IpAddr -> bool)
      requires KeysAgree(mapKeyOf, groupKeyOf)
      ensures Valid() && mapPeers == map[] && newTbl == map[] && triedTbl == map[] && randOrder == []
      ensures this.mapKeyOf == mapKeyOf && this.groupKeyOf == groupKeyOf && this.isRoutable == isRoutable
    {
      this.mapKeyOf, this.groupKeyOf, this.isRoutable := mapKeyOf, groupKeyOf, isRoutable;
      mapPeers, newTbl, triedTbl, randOrder := map[], map[], map[], [];
    }

    // Removes one key by swapping it with the last.
    method EraseRand(key: uint64)
      modifies this`randOrder
      ensures multiset(randOrder) == multiset(old(randOrder)) - multiset{key}
    {
      var pos := |randOrder|;
      var i := 0;
      while i < |randOrder|
        invariant 0 <= i <= |randOrder| && randOrder == old(randOrder)
        invariant pos == |randOrder| && key !in randOrder[..i]
      {
        if key == randOrder[i] {
          pos := i;
          break;
        }
        i := i + 1;
      }
      if pos != |randOrder| {
        var last := |randOrder| - 1;
        randOrder := randOrder[pos := randOrder[last]][last := randOrder[pos]];
        assert multiset(randOrder) == multiset(old(randOrder));
        assert randOrder == randOrder[..last] + [key];
        randOrder := randOrder[..last];
      } else {
        assert randOrder[..|randOrder|] == randOrder;
        assert key !in multiset(randOrder);
      }
    }

    method Find(mapKey: uint64, groupKey: uint64) returns (found: bool, peer: Peer, isNew: bool, isTried: bool)
      ensures found <==> mapKey in mapPeers
      ensures found ==> peer == mapPeers[mapKey]
      ensures found ==> (isTried <==> groupKey in triedTbl && triedTbl[groupKey] == mapKey)
      ensures found ==> (isNew <==> groupKey in newTbl && newTbl[groupKey] == mapKey)
    {
      var nobody := NetAddr(seq(16, _ => 0), 0, 0, 0);
      found, peer, isNew, isTried := false, Peer(nobody, nobody, 0, 0, 0), false, false;
      if mapKey in mapPeers {
        isTried := groupKey in triedTbl && triedTbl[groupKey] == mapKey;
        isNew := groupKey in newTbl && newTbl[groupKey] == mapKey;
        peer := mapPeers[mapKey];
        found := true;
      }
    }

    /** A group entry always leads to a stored peer. */
    method FindSameGroup(groupKey: uint64) returns (found: bool, peer: Peer, isTried: bool, key: uint64)
      requires Valid()
      ensures found <==> groupKey in newTbl || groupKey in triedTbl
      ensures found ==> (isTried <==> groupKey in triedTbl)
      ensures found ==> key == (if isTried then triedTbl else newTbl)[groupKey]
      ensures found ==> key in mapPeers && peer == mapPeers[key] && groupKeyOf(peer.addr.ip) == groupKey
    {
      var nobody := NetAddr(seq(16, _ => 0), 0, 0, 0);
      found, peer, isTried, key := false, Peer(nobody, nobody, 0, 0, 0), false, 0;
      if groupKey in newTbl {
        key := newTbl[groupKey];
        return true, mapPeers[key], false, key;
      }
      if groupKey in triedTbl {
        key := triedTbl[groupKey];
        return true, mapPeers[key], true, key;
      }
    }

    // The key that represents a group in one of the tables.
    function Representative(g: uint64): (k: uint64)
      requires g in newTbl || g in triedTbl
      reads this
    {
      if g in newTbl then newTbl[g] else triedTbl[g]
    }

    // Takes a peer out of the table that lists it, the map and the order.
    method Evict(key: uint64, groupKey: uint64, fromNew: bool, fromTried: bool)
      requires Valid() && key in mapPeers && groupKeyOf(mapPeers[key].addr.ip) == groupKey
      requires fromNew <==> groupKey in newTbl && newTbl[groupKey] == key
      requires fromTried <==> groupKey in triedTbl && triedTbl[groupKey] == key
      modifies this
      ensures Valid() && mapPeers == Without(old(mapPeers), key)
      ensures newTbl == if fromNew then Without(old(newTbl), groupKey) else old(newTbl)
      ensures triedTbl == if fromTried then Without(old(triedTbl), groupKey) else old(triedTbl)
    {
      if fromNew {
        newTbl := Without(newTbl, groupKey);
      } else if fromTried {
        triedTbl := Without(triedTbl, groupKey);
      }
      mapPeers := Without(mapPeers, key);
      EraseRand(key);
      AgreeWithout(old(mapPeers), old(newTbl), old(triedTbl), old(randOrder), mapKeyOf, groupKeyOf,
                   key, newTbl, triedTbl, randOrder);
    }

    // The branch of Add for an address whose key is known.
    method AddKnown(addr: NetAddr, timePenalty: int, now: int)
      requires Valid() && mapKeyOf(addr.ip) in mapPeers
      modifies this
      ensures Valid()
      ensures var k, g := mapKeyOf(addr.ip), groupKeyOf(addr.ip);
              if IsTerriblePeer(old(mapPeers)[k], now)
              then mapPeers == Without(old(mapPeers), k) &&
                   newTbl == Delisted(old(newTbl), g, k) &&
                   triedTbl == Delisted(old(triedTbl), g, k)
              else mapPeers == old(mapPeers)[k := Refreshed(old(mapPeers)[k], addr, timePenalty, now)] &&
                   newTbl == old(newTbl) && triedTbl == old(triedTbl) && randOrder == old(randOrder)
    {
      var mapKey, groupKey := mapKeyOf(addr.ip), groupKeyOf(addr.ip);
      var found, existPeer, isNew, isTried := Find(mapKey, groupKey);
      assert mapKeyOf(existPeer.addr.ip) == mapKey;
      assert groupKeyOf(existPeer.addr.ip) == groupKey;
      if IsTerriblePeer(existPeer, now) {
        Evict(mapKey, groupKey, isNew, isTried);
        return;
      }
      Refresh(mapKey, existPeer, addr, timePenalty, now);
    }

    // The part of Add that updates a known peer that is kept.
    method Refresh(mapKey: uint64, existPeer: Peer, addr: NetAddr, timePenalty: int, now: int)
      requires Valid() && mapKey in mapPeers && existPeer == mapPeers[mapKey]
      modifies this`mapPeers
      ensures Valid() && mapPeers == old(mapPeers)[mapKey := Refreshed(existPeer, addr, timePenalty, now)]
    {
      // Nothing to update without news.
      if addr.timestamp == 0 || (existPeer.addr.timestamp != 0 && addr.timestamp <= existPeer.addr.timestamp) {
        assert mapPeers == mapPeers[mapKey := existPeer];
        return;
      }
      var currentlyOnline := now - addr.timestamp < 24 * 60 * 60;
      var updateInterval := if currentlyOnline then 60 * 60 else 24 * 60 * 60;
      var renewed := existPeer.addr;
      if existPeer.addr.timestamp == 0 ||
         existPeer.addr.timestamp < Wrap32(addr.timestamp - updateInterval) - timePenalty {
        var timestamp := addr.timestamp - timePenalty;
        renewed := renewed.(timestamp := Wrap32(if timestamp < 0 then 0 else timestamp));
        Store(mapKey, existPeer.(addr := renewed));
      }
      renewed := renewed.(services := UnitedServices(existPeer.addr.services, addr.services));
      Store(mapKey, existPeer.(addr := renewed));
    }

    // Removes a terrible representative of a group; tells whether the group has no representative left.
    method MakeRoom(groupKey: uint64, now: int) returns (addNew: bool)
      requires Valid()
      modifies this
      ensures Valid()
      ensures addNew ==> groupKey !in newTbl && groupKey !in triedTbl
      ensures old(groupKey !in newTbl && groupKey !in triedTbl) ==>
                addNew && mapPeers == old(mapPeers) && newTbl == old(newTbl) && triedTbl == old(triedTbl) &&
                randOrder == old(randOrder)
      ensures old(groupKey in newTbl || groupKey in triedTbl) ==>
                var r := old(Representative(groupKey));
                r in old(mapPeers) &&
                if IsTerriblePeer(old(mapPeers)[r], now)
                then addNew && mapPeers == Without(old(mapPeers), r) &&
                     newTbl == Without(old(newTbl), groupKey) && triedTbl == Without(old(triedTbl), groupKey)
                else !addNew && mapPeers == old(mapPeers) && newTbl == old(newTbl) && triedTbl == old(triedTbl)
    {
      addNew := true;
      var found, peer, isTried, key := FindSameGroup(groupKey);
      if found {
        if IsTerriblePeer(peer, now) {
          Evict(key, groupKey, !isTried, isTried);
        } else {
          addNew := false;
        }
      }
    }

    /** Adds a peer that is not yet known; a terrible representative of its group makes room for it.
        A known peer is refreshed, or removed when terrible. */
    method Add(addr: NetAddr, source: NetAddr, penalty: int, now: int) returns (added: bool)
      requires Valid()
      modifies this
      ensures Valid()
      ensures added <==> isRoutable(addr.ip) && mapKeyOf(addr.ip) !in old(mapPeers)
      ensures !isRoutable(addr.ip) ==>
                mapPeers == old(mapPeers) && newTbl == old(newTbl) && triedTbl == old(triedTbl) &&
                randOrder == old(randOrder)
      ensures var k, g := mapKeyOf(addr.ip), groupKeyOf(addr.ip);
              isRoutable(addr.ip) && k in old(mapPeers) ==>
                if IsTerriblePeer(old(mapPeers)[k], now)
                then mapPeers == Without(old(mapPeers), k) &&
                     newTbl == Delisted(old(newTbl), g, k) &&
                     triedTbl == Delisted(old(triedTbl), g, k)
                else var paid := if addr.ip == source.ip && addr.port == source.port then 0 else penalty;
                     mapPeers == old(mapPeers)[k := Refreshed(old(mapPeers)[k], addr, paid, now)] &&
                     newTbl == old(newTbl) && triedTbl == old(triedTbl) && randOrder == old(randOrder)
      ensures var k, g, entry := mapKeyOf(addr.ip), groupKeyOf(addr.ip), Peer(addr, source, 0, 0, 0);
              added && g !in old(newTbl) && g !in old(triedTbl) ==>
                mapPeers == old(mapPeers)[k := entry] && newTbl == old(newTbl)[g := k] && triedTbl == old(triedTbl)
      ensures var k, g, entry := mapKeyOf(addr.ip), groupKeyOf(addr.ip), Peer(addr, source, 0, 0, 0);
              added && old(g in newTbl || g in triedTbl) ==>
                var r := old(Representative(g));
                r in old(mapPeers) &&
                if IsTerriblePeer(old(mapPeers)[r], now)
                then mapPeers == Without(old(mapPeers), r)[k := entry] && newTbl == Without(old(newTbl), g)[g := k] &&
                     triedTbl == Without(old(triedTbl), g)
                else mapPeers == old(mapPeers)[k := entry] && newTbl == old(newTbl) && triedTbl == old(triedTbl)
    {
      var timePenalty := penalty;
      var mapKey := mapKeyOf(addr.ip);
      var groupKey := groupKeyOf(addr.ip);
      if !isRoutable(addr.ip) {
        return false;
      }
      // No penalty for a source's own announcement.
      if SameAddr(addr, source) {
        timePenalty := 0;
      }
      if mapKey in mapPeers {
        AddKnown(addr, timePenalty, now);
        return false;
      }
      var addNew := MakeRoom(groupKey, now);
      var entry := Peer(addr, source, 0, 0, 0);
      ListsWith(randOrder, mapPeers, mapKey, entry);
      TableAdd(newTbl, if addNew then newTbl[groupKey := mapKey] else newTbl, mapPeers, mapKey, entry, groupKeyOf);
      TableAdd(triedTbl, triedTbl, mapPeers, mapKey, entry, groupKeyOf);
      mapPeers := mapPeers[mapKey := entry];
      randOrder := randOrder + [mapKey];
      if addNew {
        newTbl := newTbl[groupKey := mapKey];
      }
      return true;
    }

    // A peer is addressed only with its exact address, port included.
    predicate Knows(addr: NetAddr)
      reads this
    {
      mapKeyOf(addr.ip) in mapPeers && SameAddr(mapPeers[mapKeyOf(addr.ip)].addr, addr)
    }

    /** Moves a peer to the tried table; an older tried peer of its group keeps the place. */
    method MakeTried(addr: NetAddr, time: int) returns (moved: bool)
      requires Valid()
      modifies this
      ensures Valid() && randOrder == old(randOrder)
      ensures var k, g := mapKeyOf(addr.ip), groupKeyOf(addr.ip);
              moved <==> old(Knows(addr)) && !(g in old(triedTbl) && old(triedTbl)[g] == k)
      ensures var k := mapKeyOf(addr.ip);
              k in old(mapPeers) && addr.port != old(mapPeers)[k].addr.port ==> !moved && mapPeers == old(mapPeers)
      ensures var k := mapKeyOf(addr.ip);
              mapPeers == if old(Knows(addr))
                          then old(mapPeers)[k := old(mapPeers)[k].(lastSuccess := time, lastTry := time, attempts := 0)]
                          else old(mapPeers)
      ensures var k, g := mapKeyOf(addr.ip), groupKeyOf(addr.ip);
              if moved
              then newTbl == Without(old(newTbl), g) && g in triedTbl &&
                   triedTbl == (if g in old(triedTbl) then old(triedTbl) else old(triedTbl)[g := k])
              else newTbl == old(newTbl) && triedTbl == old(triedTbl)
    {
      var mapKey := mapKeyOf(addr.ip);
      var groupKey := groupKeyOf(addr.ip);
      var found, existPeer, isNew, isTried := Find(mapKey, groupKey);
      if !found {
        return false;
      }
      if !SameAddr(existPeer.addr, addr) {
        return false;
      }
      Store(mapKey, existPeer.(lastSuccess := time, lastTry := time, attempts := 0));
      if isTried {
        return false;
      }
      assert groupKeyOf(mapPeers[mapKey].addr.ip) == groupKey;
      if groupKey !in triedTbl {
        triedTbl := triedTbl[groupKey := mapKey];
      }
      newTbl := Without(newTbl, groupKey);
      return true;
    }

    // Replaces a stored peer by one with the same IP.
    method Store(key: uint64, peer: Peer)
      requires Valid() && key in mapPeers && peer.addr.ip == mapPeers[key].addr.ip
      modifies this`mapPeers
      ensures Valid() && mapPeers == old(mapPeers)[key := peer]
    {
      TableAdd(newTbl, newTbl, mapPeers, key, peer, groupKeyOf);
      TableAdd(triedTbl, triedTbl, mapPeers, key, peer, groupKeyOf);
      mapPeers := mapPeers[key := peer];
      assert mapPeers.Keys == old(mapPeers).Keys;
    }

    // Looks a peer up by its exact address, including the same port.
    method FindExact(addr: NetAddr) returns (found: bool, peer: Peer)
      ensures var k := mapKeyOf(addr.ip);
              found <==> k in mapPeers && mapPeers[k].addr.ip == addr.ip && mapPeers[k].addr.port == addr.port
      ensures found ==> peer == mapPeers[mapKeyOf(addr.ip)]
    {
      var mapKey := mapKeyOf(addr.ip);
      var isNew, isTried;
      found, peer, isNew, isTried := Find(mapKey, groupKeyOf(addr.ip));
      found := found && SameAddr(peer.addr, addr);
    }

    method SetServices(addr: NetAddr, services: uint64) returns (ok: bool)
      requires Valid()
      modifies this`mapPeers
      ensures Valid()
      ensures var k := mapKeyOf(addr.ip);
              ok <==> k in old(mapPeers) &&
                      old(mapPeers)[k].addr.ip == addr.ip && old(mapPeers)[k].addr.port == addr.port
      ensures mapPeers == if ok then var k := mapKeyOf(addr.ip); var p := old(mapPeers)[k];
                                     old(mapPeers)[k := p.(addr := p.addr.(services := services))]
                          else old(mapPeers)
    {
      var mapKey := mapKeyOf(addr.ip);
      var found, existPeer := FindExact(addr);
      if !found {
        return false;
      }
      Store(mapKey, existPeer.(addr := existPeer.addr.(services := services)));
      return true;
    }

    method Attempt(addr: NetAddr, time: int) returns (ok: bool)
      requires Valid()
      modifies this`mapPeers
      ensures Valid()
      ensures var k := mapKeyOf(addr.ip);
              ok <==> k in old(mapPeers) &&
                      old(mapPeers)[k].addr.ip == addr.ip && old(mapPeers)[k].addr.port == addr.port
      ensures mapPeers == if ok then var k := mapKeyOf(addr.ip); var p := old(mapPeers)[k];
                                     old(mapPeers)[k := p.(lastTry := time, attempts := Wrap32(p.attempts + 1))]
                          else old(mapPeers)
    {
      var mapKey := mapKeyOf(addr.ip);
      var found, existPeer := FindExact(addr);
      if !found {
        return false;
      }
      Store(mapKey, existPeer.(lastTry := time, attempts := Wrap32(existPeer.attempts + 1)));
      return true;
    }

    method UpdateTime(addr: NetAddr, time: int) returns (ok: bool)
      requires Valid()
      modifies this`mapPeers
      ensures Valid()
      ensures var k := mapKeyOf(addr.ip);
              ok <==> k in old(mapPeers) &&
                      old(mapPeers)[k].addr.ip == addr.ip && old(mapPeers)[k].addr.port == addr.port
      ensures mapPeers == if ok && time - old(mapPeers)[mapKeyOf(addr.ip)].addr.timestamp > 20 * 60
                          then var k := mapKeyOf(addr.ip); var p := old(mapPeers)[k];
                               old(mapPeers)[k := p.(addr := p.addr.(timestamp := Wrap32(time)))]
                          else old(mapPeers)
    {
      var mapKey := mapKeyOf(addr.ip);
      var found, existPeer := FindExact(addr);
      if !found {
        return false;
      }
      if time - existPeer.addr.timestamp > 20 * 60 {
        Store(mapKey, existPeer.(addr := existPeer.addr.(timestamp := Wrap32(time))));
      }
      return true;
    }

    // How many list entries GetAddrs looks at.
    function AddrCount(): nat
      reads this
    {
      var share := MAX_GETADDR_PCT * |mapPeers| / 100;
      if share < MAX_GETADDR_COUNT then share else MAX_GETADDR_COUNT
    }

    /** Appends the addresses of the usable peers among the first of the newly shuffled keys.
        `shuffled` is the outcome of the shuffle. */
    method GetAddrs(before: seq<NetAddr>, shuffled: seq<uint64>, now: int) returns (out: seq<NetAddr>)
      requires Valid() && multiset(shuffled) == multiset(randOrder)
      modifies this`randOrder
      ensures Valid() && randOrder == shuffled && AddrCount() <= |shuffled|
      ensures var n, percents := AddrCount(), 23 * |mapPeers|;
              n == 2500 <= percents / 100 || (n < 2500 && 100 * n <= percents < 100 * (n + 1))
      ensures forall k <- Usable(shuffled[..AddrCount()], mapPeers, now) :: k in mapPeers
      ensures out == before + AddrsOf(Usable(shuffled[..AddrCount()], mapPeers, now), mapPeers)
      ensures var added := out[|before|..];
              |added| <= AddrCount() && forall i, j :: 0 <= i < j < |added| ==> added[i].ip != added[j].ip
    {
      var count := AddrCount();
      randOrder := shuffled;
      OnceEach(shuffled, mapPeers);
      assert count <= |shuffled|;
      out := before;
      ghost var keys := [];
      for i := 0 to count
        invariant keys == Usable(shuffled[..i], mapPeers, now)
        invariant forall k <- keys :: k in mapPeers
        invariant out == before + AddrsOf(keys, mapPeers)
      {
        assert shuffled[..i + 1][..i] == shuffled[..i];
        var peer := mapPeers[randOrder[i]];
        if !IsTerriblePeer(peer, now) {
          out := out + [peer.addr];
          keys := keys + [randOrder[i]];
        }
      }
      UsableIsFilter(shuffled[..count], mapPeers, now);
      SelectedAreDistinct(shuffled[..count], mapPeers, now, mapKeyOf);
      assert out[|before|..] == AddrsOf(keys, mapPeers);
    }

    /** Succeeds exactly when a table that may be used is not empty, and then returns a stored peer that an
        entry of the chosen table names. The iteration orders of the tables and the random draws are given. */
    method Select(newOnly: bool, coin: bool, newOrder: seq<uint64>, triedOrder: seq<uint64>, randPos: nat)
      returns (ok: bool, peer: Peer)
      requires Valid() && multiset(newOrder) == multiset(newTbl.Keys) && multiset(triedOrder) == multiset(triedTbl.Keys)
      requires newTbl != map[] && (newOnly || triedTbl == map[] || !coin) ==> randPos < |newOrder|
      requires triedTbl != map[] && !newOnly && (newTbl == map[] || coin) ==> randPos < |triedOrder|
      ensures ok <==> newTbl != map[] || (!newOnly && triedTbl != map[])
      ensures ok ==>
                var tried := !newOnly && triedTbl != map[] && (newTbl == map[] || coin);
                var tbl, order := if tried then triedTbl else newTbl, if tried then triedOrder else newOrder;
                randPos < |order| && order[randPos] in tbl && tbl[order[randPos]] in mapPeers &&
                peer == mapPeers[tbl[order[randPos]]] && groupKeyOf(peer.addr.ip) == order[randPos]
    {
      var nobody := NetAddr(seq(16, _ => 0), 0, 0, 0);
      ok, peer := false, Peer(nobody, nobody, 0, 0, 0);
      if |newTbl| == 0 && |triedTbl| == 0 {
        return;
      }
      if newOnly && |newTbl| == 0 {
        return;
      }
      if !newOnly && |triedTbl| > 0 && (|newTbl| == 0 || coin) {
        var it := Advance(triedOrder, randPos);
        assert triedOrder[it] in multiset(triedOrder);
        peer := mapPeers[triedTbl[triedOrder[it]]];
      } else {
        var it := Advance(newOrder, randPos);
        assert newOrder[it] in multiset(newOrder);
        peer := mapPeers[newTbl[newOrder[it]]];
      }
      ok := true;
    }

    // The iterator loop of Select.
    static method Advance(order: seq<uint64>, randPos: nat) returns (it: nat)
      requires randPos < |order|
      ensures it == randPos
    {
      var left: int := randPos;
      it := 0;
      while left > 0 && it != |order|
        invariant 0 <= left && it + left == randPos
      {
        left := left - 1;
        it := it + 1;
      }
    }

    method Clear()
      modifies this
      ensures mapPeers == map[] && newTbl == map[] && triedTbl == map[] && randOrder == []
      ensures KeysAgree(mapKeyOf, groupKeyOf) ==> Valid()
    {
      newTbl := map[];
      triedTbl := map[];
      mapPeers := map[];
      randOrder := [];
    }
  }
}
