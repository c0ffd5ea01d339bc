/**
The consensus client pool: grouping of client heads into forks, the ready clients of each
fork, the canonical fork, and round robin selection among ready clients.
Heads, client status and the block cache are read as one snapshot.
*/
module ConsensusPool {
  import opened BlockTree
  import opened BlockCaching
  import opened Sorting

  datatype ClientType = AnyClient | Named(id: nat)

  /** A pool client with the head it last reported. Indexes are handed out in ascending order. */
  datatype Client = Client(idx: nat, kind: ClientType, headSlot: Slot, headRoot: Root, online: bool)

  datatype HeadFork = HeadFork(slot: Slot, root: Root, readyClients: seq<Client>, allClients: seq<Client>)

  ghost predicate Ascending(clients: seq<Client>) {
    forall i, j :: 0 <= i < j < |clients| ==> clients[i].idx < clients[j].idx
  }

  /** All members follow the fork, and one of them reported its root and slot. */
  ghost predicate GoodFork(t: Tree, f: HeadFork) {
    && Ascending(f.allClients)
    && (forall c :: c in f.allClients ==> Linked(t, c.headRoot, f.root))
    && (exists c :: c in f.allClients && c.headRoot == f.root && c.headSlot == f.slot)
  }

  ghost predicate Unlinked(t: Tree, f: HeadFork, g: HeadFork) {
    !Linked(t, f.root, g.root) && !Linked(t, g.root, f.root)
  }

  /** The grouping promise: every fork is good, no two fork roots are linked in either direction,
      and every client is a member of exactly one fork. */
  ghost predicate Grouped(t: Tree, clients: seq<Client>, forks: seq<HeadFork>) {
    && (forall i :: 0 <= i < |forks| ==> GoodFork(t, forks[i]))
    && (forall i, j :: 0 <= i < j < |forks| ==> Unlinked(t, forks[i], forks[j]))
    && Partitioned(clients, forks)
  }

  ghost predicate Partitioned(clients: seq<Client>, forks: seq<HeadFork>) {
    && (forall c :: c in clients ==> exists i :: 0 <= i < |forks| && c in forks[i].allClients)
    && (forall i, c :: 0 <= i < |forks| && c in forks[i].allClients ==> c in clients)
    && (forall i, j, c :: 0 <= i < j < |forks| && c in forks[i].allClients ==> c !in forks[j].allClients)
  }

  /** A client is ready for a fork when it is online and its head is at most `dist` blocks behind. */
  ghost predicate IsReady(t: Tree, f: HeadFork, c: Client, dist: nat) {
    c.online && exists d: nat :: d <= dist && Reaches(t, f.root, c.headRoot, d)
  }

  ghost predicate ReadyExact(t: Tree, f: HeadFork, dist: nat) {
    && Ascending(f.readyClients)
    && forall c :: c in f.readyClients <==> c in f.allClients && IsReady(t, f, c, dist)
  }

  function ReadyCount(f: HeadFork): int { |f.readyClients| }

  ghost predicate HeadForks(t: Tree, clients: seq<Client>, forks: seq<HeadFork>, dist: nat) {
    && Grouped(t, clients, forks)
    && (forall i :: 0 <= i < |forks| ==> ReadyExact(t, forks[i], dist))
    && Descending(forks, ReadyCount)
  }

  // ----- how one client changes the grouping -----

  /** A client joining fork `i` leaves the fork root where it is or moves it forward to its head. */
  ghost predicate Joins(t: Tree, f: HeadFork, c: Client, f': HeadFork) {
    && f'.allClients == f.allClients + [c]
    && (|| (Linked(t, c.headRoot, f.root) && f'.root == f.root && f'.slot == f.slot)
        || (Linked(t, f.root, c.headRoot) && f'.root == c.headRoot && f'.slot == c.headSlot))
  }

  lemma {:induction false} JoinKeepsFork(t: Tree, f: HeadFork, c: Client, f': HeadFork)
    requires GoodFork(t, f) && Joins(t, f, c, f')
    requires forall m :: m in f.allClients ==> m.idx < c.idx
    ensures GoodFork(t, f') && Linked(t, f.root, f'.root)
  {
    forall m | m in f'.allClients ensures Linked(t, m.headRoot, f'.root) {
      if m in f.allClients {
        LinkedTransitive(t, m.headRoot, f.root, f'.root);
      }
    }
    if f'.root == c.headRoot && f'.slot == c.headSlot {
      assert c in f'.allClients;
    } else {
      var m :| m in f.allClients && m.headRoot == f.root && m.headSlot == f.slot;
      assert m in f'.allClients;
    }
  }

  /** Moving a root forward cannot link it to another fork. */
  lemma {:induction false} AdvanceStaysUnlinked(t: Tree, f: HeadFork, f': HeadFork, g: HeadFork)
    requires Unlinked(t, f, g) && Linked(t, f.root, f'.root)
    ensures Unlinked(t, f', g)
  {
    if Linked(t, f'.root, g.root) {
      LinkedTransitive(t, f.root, f'.root, g.root);
    }
    if Linked(t, g.root, f'.root) {
      LinkedComparable(t, f.root, g.root, f'.root);
    }
  }

  lemma {:induction false} JoinKeepsGrouping(t: Tree, done: seq<Client>, forks: seq<HeadFork>, i: nat, c: Client,
                                             f': HeadFork)
    requires Grouped(t, done, forks) && i < |forks| && Joins(t, forks[i], c, f')
    requires Ascending(done + [c])
    ensures Grouped(t, done + [c], forks[i := f'])
  {
    LaterIndex(done, c);
    assert GoodFork(t, forks[i]);
    JoinKeepsFork(t, forks[i], c, f');
    ReplaceUnlinked(t, forks, i, f', forks[i := f']);
    JoinKeepsPartition(done, forks, i, c, f');
  }

  lemma {:induction false} ReplaceUnlinked(t: Tree, forks: seq<HeadFork>, i: nat, f': HeadFork, forks': seq<HeadFork>)
    requires i < |forks| && forks' == forks[i := f'] && Linked(t, forks[i].root, f'.root)
    requires forall a, b :: 0 <= a < b < |forks| ==> Unlinked(t, forks[a], forks[b])
    ensures forall a, b :: 0 <= a < b < |forks'| ==> Unlinked(t, forks'[a], forks'[b])
  {
    forall a, b | 0 <= a < b < |forks'| ensures Unlinked(t, forks'[a], forks'[b]) {
      assert Unlinked(t, forks[a], forks[b]);
      if a == i { AdvanceStaysUnlinked(t, forks[a], f', forks[b]); }
      if b == i { AdvanceStaysUnlinked(t, forks[b], f', forks[a]); }
    }
  }

  lemma {:induction false} LaterIndex(done: seq<Client>, c: Client)
    requires Ascending(done + [c])
    ensures Ascending(done) && c !in done && forall m :: m in done ==> m.idx < c.idx
  {
    var all := done + [c];
    assert all[|done|] == c;
    assert forall i :: 0 <= i < |done| ==> all[i] == done[i];
  }

  lemma {:induction false} JoinKeepsPartition(done: seq<Client>, forks: seq<HeadFork>, i: nat, c: Client, f': HeadFork)
    requires Partitioned(done, forks) && i < |forks| && c !in done
    requires f'.allClients == forks[i].allClients + [c]
    ensures Partitioned(done + [c], forks[i := f'])
  {
    var forks' := forks[i := f'];
    forall m | m in done + [c] ensures exists k :: 0 <= k < |forks'| && m in forks'[k].allClients {
      if m in done {
        var k :| 0 <= k < |forks| && m in forks[k].allClients;
        assert m in forks'[k].allClients;
      } else {
        assert m in forks'[i].allClients;
      }
    }
  }

  lemma {:induction false} NewForkKeepsGrouping(t: Tree, done: seq<Client>, forks: seq<HeadFork>, c: Client,
                                                f: HeadFork)
    requires Grouped(t, done, forks) && Ascending(done + [c])
    requires f.allClients == [c] && f.root == c.headRoot && f.slot == c.headSlot
    requires forall i :: 0 <= i < |forks| ==> Unlinked(t, forks[i], f)
    ensures Grouped(t, done + [c], forks + [f])
  {
    LaterIndex(done, c);
    var forks' := forks + [f];
    assert GoodFork(t, f) by { assert c in f.allClients; }
    assert forks'[|forks|] == f;
    forall m | m in done + [c] ensures exists k :: 0 <= k < |forks'| && m in forks'[k].allClients {
      if m in done {
        var k :| 0 <= k < |forks| && m in forks[k].allClients;
        assert m in forks'[k].allClients;
      } else {
        assert m in forks'[|forks|].allClients;
      }
    }
  }

  /** The grouping does not depend on the order in which the forks are listed. */
  lemma {:induction false} SortKeepsForks(t: Tree, clients: seq<Client>, forks: seq<HeadFork>, sorted: seq<HeadFork>,
                                          dist: nat)
    requires Grouped(t, clients, forks) && Permutation(sorted, forks)
    requires forall i :: 0 <= i < |forks| ==> ReadyExact(t, forks[i], dist)
    ensures Grouped(t, clients, sorted)
    ensures forall i :: 0 <= i < |sorted| ==> ReadyExact(t, sorted[i], dist)
  {
    assert Distinct(forks) by {
      forall i, j | 0 <= i < j < |forks| ensures forks[i] != forks[j] {
        assert Unlinked(t, forks[i], forks[j]);
      }
    }
    forall i | 0 <= i < |sorted| ensures GoodFork(t, sorted[i]) && ReadyExact(t, sorted[i], dist) {
      assert sorted[i] in forks;
    }
    forall i, j | 0 <= i < j < |sorted|
      ensures Unlinked(t, sorted[i], sorted[j])
      ensures forall c :: c in sorted[i].allClients ==> c !in sorted[j].allClients
    {
      assert sorted[i] in forks && sorted[j] in forks;
      var a :| 0 <= a < |forks| && forks[a] == sorted[i];
      var b :| 0 <= b < |forks| && forks[b] == sorted[j];
      assert a < b || b < a;
      assert a < b ==> Unlinked(t, forks[a], forks[b]);
      assert b < a ==> Unlinked(t, forks[b], forks[a]);
    }
    forall c | c in clients ensures exists i :: 0 <= i < |sorted| && c in sorted[i].allClients {
      var k :| 0 <= k < |forks| && c in forks[k].allClients;
      assert forks[k] in sorted;
    }
    forall i, c | 0 <= i < |sorted| && c in sorted[i].allClients ensures c in clients {
      assert sorted[i] in forks;
    }
  }

  // ----- round robin selection -----

  predicate Matches(c: Client, kind: ClientType) {
    kind == AnyClient || c.kind == kind
  }

  /** The clients of the requested type, in list order. */
  function Matching(clients: seq<Client>, kind: ClientType): (ms: seq<Client>)
    ensures forall c :: c in ms <==> c in clients && (kind == AnyClient || c.kind == kind)
  {
    if clients == [] then []
    else
      var n := |clients| - 1;
      var ms := Matching(clients[..n], kind);
      if Matches(clients[n], kind) then ms + [clients[n]] else ms
  }

  lemma {:induction false} MatchingAscending(clients: seq<Client>, kind: ClientType)
    requires Ascending(clients)
    ensures Ascending(Matching(clients, kind))
    decreases |clients|
  {
    if clients != [] {
      var n := |clients| - 1;
      MatchingAscending(clients[..n], kind);
      var ms := Matching(clients[..n], kind);
      forall i | 0 <= i < |ms| ensures ms[i].idx < clients[n].idx {
        assert ms[i] in clients[..n];
      }
    }
  }

  /** Position of the first client whose index exceeds `last`; wraps to 0 when there is none. */
  function NextPosition(ms: seq<Client>, last: nat, from: nat := 0): (k: nat)
    requires ms != [] && from <= |ms|
    ensures k < |ms|
    decreases |ms| - from
  {
    if from == |ms| then 0 else if ms[from].idx > last then from else NextPosition(ms, last, from + 1)
  }

  /** `n` consecutive selections starting after the stored index `last`. */
  function Picks(ms: seq<Client>, last: nat, n: nat): (r: seq<Client>)
    requires ms != []
    ensures |r| == n
    decreases n
  {
    if n == 0 then []
    else var c := ms[NextPosition(ms, last)]; [c] + Picks(ms, c.idx, n - 1)
  }

  lemma {:induction false} NextAfterPosition(ms: seq<Client>, k: nat, from: nat)
    requires Ascending(ms) && k < |ms| && from <= k + 1
    ensures NextPosition(ms, ms[k].idx, from) == if k + 1 < |ms| then k + 1 else 0
    decreases |ms| - from
  {
    if from <= k {
      NextAfterPosition(ms, k, from + 1);
    }
  }

  lemma {:induction false} PicksFromPosition(ms: seq<Client>, last: nat, n: nat)
    requires ms != [] && Ascending(ms)
    requires NextPosition(ms, last) + n <= |ms|
    ensures var k := NextPosition(ms, last); Picks(ms, last, n) == ms[k..k + n]
    decreases n
  {
    if n > 0 {
      var k := NextPosition(ms, last);
      NextAfterPosition(ms, k, 0);
      if n > 1 {
        PicksFromPosition(ms, ms[k].idx, n - 1);
      }
    }
  }

  lemma {:induction false} PicksSplit(ms: seq<Client>, last: nat, m: nat, n: nat)
    requires ms != []
    ensures var front := Picks(ms, last, m);
            Picks(ms, last, m + n) == front + Picks(ms, if m == 0 then last else front[m - 1].idx, n)
    decreases m
  {
    if m > 0 {
      var c := ms[NextPosition(ms, last)];
      PicksSplit(ms, c.idx, m - 1, n);
    }
  }

  /** From any stored index, as many consecutive selections as there are matching clients form a
      rotation of the matching clients: each is selected exactly once. */
  lemma {:induction false} RoundIsRotation(ms: seq<Client>, last: nat)
    requires ms != [] && Ascending(ms)
    ensures var k := NextPosition(ms, last); Picks(ms, last, |ms|) == ms[k..] + ms[..k]
    ensures multiset(Picks(ms, last, |ms|)) == multiset(ms)
  {
    RoundTurns(ms, last);
    var k := NextPosition(ms, last);
    assert ms == ms[..k] + ms[k..];
  }

  /** The same for the ready list of a fork: one round over its clients of the requested type. */
  lemma {:induction false} RoundServesEveryClient(ready: seq<Client>, kind: ClientType, last: nat)
    requires Ascending(ready) && Matching(ready, kind) != []
    ensures var ms := Matching(ready, kind); multiset(Picks(ms, last, |ms|)) == multiset(ms)
  {
    MatchingAscending(ready, kind);
    RoundIsRotation(Matching(ready, kind), last);
  }

  lemma {:induction false} RoundTurns(ms: seq<Client>, last: nat)
    requires ms != [] && Ascending(ms)
    ensures var k := NextPosition(ms, last); Picks(ms, last, |ms|) == ms[k..] + ms[..k]
  {
    var k := NextPosition(ms, last);
    var n := |ms| - k;
    PicksSplit(ms, last, n, k);
    PicksFromPosition(ms, last, n);
    assert ms[k..k + n] == ms[k..];
    if k > 0 {
      NextAfterPosition(ms, |ms| - 1, 0);
      PicksFromPosition(ms, ms[|ms| - 1].idx, k);
    }
  }

  class Pool {
    const cache: BlockCache
    const configForkDistance: nat
    const schedulerMode: nat
    var clientCounter: nat    // 16 bits
    var clients: seq<Client>
    var forkCache: map<int, seq<HeadFork>>
    var rrLastIndexes: map<ClientType, nat>

    constructor (cache: BlockCache, configForkDistance: nat, schedulerMode: nat)
      ensures this.cache == cache && this.configForkDistance == configForkDistance
      ensures this.schedulerMode == schedulerMode
      ensures clients == [] && clientCounter == 0 && forkCache == map[] && rrLastIndexes == map[]
    {
      this.cache := cache;
      this.configForkDistance := configForkDistance;
      this.schedulerMode := schedulerMode;
      clients, clientCounter, forkCache, rrLastIndexes := [], 0, map[], map[];
    }

    /** The clients are in index order, and the next index is larger. */
    ghost predicate Numbered()
      reads this
    {
      Ascending(clients) && clientCounter < COUNTER_RANGE && forall c :: c in clients ==> c.idx < clientCounter
    }

    /** The index is used up also when the client cannot be created. The order is kept by every call, and
        the next call keeps it too unless the counter has wrapped around. */
    method AddEndpoint(created: bool) returns (client: Option<Client>)
      modifies `clients, `clientCounter
      ensures clientCounter == (old(clientCounter) + 1) % COUNTER_RANGE
      ensures client.Some? <==> created
      ensures client.Some? ==> client.value == NewClient(old(clientCounter)) && clients == old(clients) + [client.value]
      ensures client == None ==> clients == old(clients)
      ensures old(Numbered()) ==>
                Ascending(clients) && (Numbered() <==> clients == [] || old(clientCounter) + 1 < COUNTER_RANGE)
    {
      var clientIdx := clientCounter;
      clientCounter := (clientCounter + 1) % COUNTER_RANGE;
      assert clients != [] ==> clients[0] in clients;
      if !created {
        return None;
      }
      client := Some(NewClient(clientIdx));
      clients := clients + [client.value];
    }

    method ResetHeadForkCache()
      modifies `forkCache
      ensures forkCache == map[]
    {
      forkCache := map[];
    }

    /** The inner loop: the first fork that the head belongs to, or a new fork. */
    method PlaceClient(ghost t: Tree, ghost done: seq<Client>, forks: seq<HeadFork>, client: Client)
      returns (r: seq<HeadFork>)
      requires t == cache.View() && SlotsIncrease(t)
      requires Grouped(t, done, forks) && Ascending(done + [client])
      ensures Grouped(t, done + [client], r)
    {
      for i := 0 to |forks|
        invariant forall k :: 0 <= k < i ==>
                  !Linked(t, client.headRoot, forks[k].root) && !Linked(t, forks[k].root, client.headRoot)
        invariant t == cache.View()
      {
        var fork := forks[i];
        var behind := cache.IsCanonicalBlock(client.headRoot, fork.root);
        if fork.root == client.headRoot || behind {
          var joined := fork.(allClients := fork.allClients + [client]);
          JoinKeepsGrouping(t, done, forks, i, client, joined);
          return forks[i := joined];
        }
        var ahead := cache.IsCanonicalBlock(fork.root, client.headRoot);
        if ahead {
          var moved := fork.(root := client.headRoot, slot := client.headSlot,
                             allClients := fork.allClients + [client]);
          JoinKeepsGrouping(t, done, forks, i, client, moved);
          return forks[i := moved];
        }
      }
      var fork := HeadFork(client.headSlot, client.headRoot, [], [client]);
      NewForkKeepsGrouping(t, done, forks, client, fork);
      return forks + [fork];
    }

    method GroupHeads(ghost t: Tree) returns (forks: seq<HeadFork>)
      requires t == cache.View() && SlotsIncrease(t) && Ascending(clients)
      ensures Grouped(t, clients, forks)
    {
      forks := [];
      for n := 0 to |clients|
        invariant t == cache.View()
        invariant Grouped(t, clients[..n], forks)
      {
        assert clients[..n] + [clients[n]] == clients[..n + 1];
        forks := PlaceClient(t, clients[..n], forks, clients[n]);
      }
      assert clients[..|clients|] == clients;
    }

    /** The ready filter of one fork; the linked flag of the distance query is not looked at. */
    method FilterReady(ghost t: Tree, fork: HeadFork, forkDistance: nat) returns (f: HeadFork)
      requires t == cache.View() && SlotsIncrease(t) && GoodFork(t, fork)
      ensures f == fork.(readyClients := f.readyClients) && ReadyExact(t, f, forkDistance)
    {
      var ready: seq<Client> := [];
      for n := 0 to |fork.allClients|
        invariant t == cache.View()
        invariant Ascending(ready)
        invariant forall c :: c in ready <==> c in fork.allClients[..n] && IsReady(t, fork, c, forkDistance)
      {
        var client := fork.allClients[n];
        assert fork.allClients[..n + 1] == fork.allClients[..n] + [client];
        if client.online {
          var headDistance := 0;
          if fork.root != client.headRoot {
            var linked;
            linked, headDistance := cache.GetBlockDistance(client.headRoot, fork.root);
          }
          ReadyByDistance(t, fork, client, forkDistance, headDistance);
          if headDistance <= forkDistance {
            assert forall i :: 0 <= i < |ready| ==> ready[i] in fork.allClients[..n];
            ready := ready + [client];
          }
        }
      }
      assert fork.allClients[..|fork.allClients|] == fork.allClients;
      f := fork.(readyClients := ready);
      assert forall c :: IsReady(t, f, c, forkDistance) <==> IsReady(t, fork, c, forkDistance);
    }

    /** A negative distance selects the configured one. A stored result is returned as it is;
        otherwise the forks of the snapshot are computed and stored. */
    method GetHeadForks(requested: int) returns (forks: seq<HeadFork>)
      requires SlotsIncrease(cache.View()) && Ascending(clients)
      modifies `forkCache
      ensures var d := if requested < 0 then configForkDistance else requested;
              && forkCache == old(forkCache)[d := forks]
              && (d in old(forkCache) ==> forks == old(forkCache)[d])
              && (d !in old(forkCache) ==> HeadForks(cache.View(), clients, forks, d))
    {
      var forkDistance := if requested < 0 then configForkDistance else requested;
      if forkDistance in forkCache {
        return forkCache[forkDistance];
      }
      ghost var t := cache.View();
      var grouped := GroupHeads(t);
      grouped := FilterAll(t, grouped, forkDistance);
      forks := SortDescending(grouped, ReadyCount);
      SortKeepsForks(t, clients, grouped, forks, forkDistance);
      forkCache := forkCache[forkDistance := forks];
      assert cache.View() == t;
    }

    method FilterAll(ghost t: Tree, plain: seq<HeadFork>, forkDistance: nat) returns (forks: seq<HeadFork>)
      requires t == cache.View() && SlotsIncrease(t) && Grouped(t, clients, plain)
      ensures Grouped(t, clients, forks)
      ensures forall i :: 0 <= i < |forks| ==> ReadyExact(t, forks[i], forkDistance)
    {
      forks := plain;
      for i := 0 to |forks|
        invariant |forks| == |plain| && t == cache.View()
        invariant forall k :: 0 <= k < |forks| ==> forks[k] == plain[k].(readyClients := forks[k].readyClients)
        invariant forall k :: i <= k < |forks| ==> forks[k] == plain[k]
        invariant forall k :: 0 <= k < i ==> ReadyExact(t, forks[k], forkDistance)
      {
        assert GoodFork(t, plain[i]);
        var f := FilterReady(t, forks[i], forkDistance);
        forks := forks[i := f];
      }
      ReadyKeepsGrouping(t, clients, plain, forks);
    }

    /** The canonical fork is the first one of the stored grouping. In a grouping stored just now no fork
        has more ready clients, and there is none only without clients. */
    ghost predicate IsCanonical(before: map<int, seq<HeadFork>>, d: nat, fork: Option<HeadFork>)
      reads this`forkCache, this`clients, cache, cache.blockRootMap.Values
    {
      && d in forkCache && fork == First(forkCache[d])
      && (d in before ==> forkCache == before)
      && (d !in before ==>
            && HeadForks(cache.View(), clients, forkCache[d], d)
            && (fork == None <==> clients == [])
            && (fork.Some? ==> forall f :: f in forkCache[d] ==> |f.readyClients| <= |fork.value.readyClients|))
    }

    method GetCanonicalFork(requested: int) returns (fork: Option<HeadFork>)
      requires SlotsIncrease(cache.View()) && Ascending(clients)
      modifies `forkCache
      ensures IsCanonical(old(forkCache), if requested < 0 then configForkDistance else requested, fork)
    {
      var forks := GetHeadForks(requested);
      ghost var d := if requested < 0 then configForkDistance else requested;
      if d !in old(forkCache) {
        SomeForkIffClients(cache.View(), clients, forks);
      }
      if |forks| == 0 {
        return None;
      }
      return Some(forks[0]);
    }

    /** Round robin: the matching client that follows the stored index, wrapping around. Any other mode
        takes the first ready client, which must exist. */
    method RunClientScheduler(ready: seq<Client>, kind: ClientType) returns (selected: Option<Client>)
      requires schedulerMode != ROUND_ROBIN ==> ready != []
      modifies `rrLastIndexes
      ensures schedulerMode != ROUND_ROBIN ==> selected == Some(ready[0]) && rrLastIndexes == old(rrLastIndexes)
      ensures schedulerMode == ROUND_ROBIN ==> Selects(ready, kind, old(rrLastIndexes), selected, rrLastIndexes)
    {
      if schedulerMode != ROUND_ROBIN {
        return Some(ready[0]);
      }
      var last := if kind in rrLastIndexes then rrLastIndexes[kind] else 0;
      selected := FindClient(ready, kind, last);
      if selected.Some? {
        rrLastIndexes := rrLastIndexes[kind := selected.value.idx];
      }
    }

    /** One call per matching client, from any stored index: every one of them is selected, once. */
    method ServeRound(ready: seq<Client>, kind: ClientType) returns (served: seq<Client>)
      requires schedulerMode == ROUND_ROBIN && Ascending(ready)
      modifies `rrLastIndexes
      ensures multiset(served) == multiset(Matching(ready, kind))
    {
      ghost var ms := Matching(ready, kind);
      ghost var last := if kind in rrLastIndexes then rrLastIndexes[kind] else 0;
      var n := CountMatching(ready, kind);
      served := [];
      if n == 0 {
        return;
      }
      for i := 0 to n
        invariant |served| == i && served == Picks(ms, last, i)
        invariant i == 0 ==> last == if kind in rrLastIndexes then rrLastIndexes[kind] else 0
        invariant i > 0 ==> kind in rrLastIndexes && rrLastIndexes[kind] == served[i - 1].idx
      {
        var selected := RunClientScheduler(ready, kind);
        PicksNext(ms, last, i);
        served := served + [selected.value];
      }
      RoundServesEveryClient(ready, kind, last);
    }

    static method CountMatching(ready: seq<Client>, kind: ClientType) returns (n: nat)
      ensures n == |Matching(ready, kind)|
    {
      n := 0;
      for i := 0 to |ready|
        invariant n == |Matching(ready[..i], kind)|
      {
        MatchingStep(ready, kind, i);
        if Matches(ready[i], kind) {
          n := n + 1;
        }
      }
      assert ready[..|ready|] == ready;
    }

    /** A ready client of the canonical fork, if there is one. */
    method GetReadyEndpoint(kind: ClientType) returns (selected: Option<Client>, ghost fork: Option<HeadFork>)
      requires SlotsIncrease(cache.View()) && Ascending(clients)
      modifies `forkCache, `rrLastIndexes
      ensures IsCanonical(old(forkCache), configForkDistance, fork)
      ensures if fork == None || fork.value.readyClients == []
              then selected == None && rrLastIndexes == old(rrLastIndexes)
              else if schedulerMode == ROUND_ROBIN
              then Selects(fork.value.readyClients, kind, old(rrLastIndexes), selected, rrLastIndexes)
              else selected == Some(fork.value.readyClients[0]) && rrLastIndexes == old(rrLastIndexes)
      ensures selected.Some? ==> fork.Some? && selected.value in fork.value.readyClients
    {
      var canonicalFork := GetCanonicalFork(-1);
      selected, fork := None, canonicalFork;
      if canonicalFork == None {
        return;
      }
      var readyClients := canonicalFork.value.readyClients;
      if |readyClients| == 0 {
        return;
      }
      selected := RunClientScheduler(readyClients, kind);
      if selected.Some? && schedulerMode == ROUND_ROBIN {
        MatchingWithin(readyClients, kind);
      }
    }

    /** The scan: the first matching client with a larger index, else the first matching client. */
    static method FindClient(ready: seq<Client>, kind: ClientType, last: nat) returns (selected: Option<Client>)
      ensures var ms := Matching(ready, kind);
              selected == if ms == [] then None else Some(ms[NextPosition(ms, last)])
    {
      var first: Option<Client> := None;
      for n := 0 to |ready|
        invariant first == First(Matching(ready[..n], kind))
        invariant forall c :: c in Matching(ready[..n], kind) ==> c.idx <= last
      {
        var client := ready[n];
        MatchingStep(ready, kind, n);
        if !Matches(client, kind) {
          continue;
        }
        if first == None {
          first := Some(client);
        }
        if client.idx > last {
          FoundNext(ready, kind, n, last);
          return Some(client);
        }
      }
      assert ready[..|ready|] == ready;
      if first.Some? {
        NoneLater(Matching(ready, kind), last, 0);
      }
      return first;
    }
  }

  /** The one scheduler mode that a configuration can name. */
  const ROUND_ROBIN := 1

  /** Fails for an unknown scheduler mode and, as the block cache does, for a follow distance of 0. */
  method NewPool(followDistance: nat, configForkDistance: nat, mode: string) returns (pool: Pool?)
    ensures pool == null <==> mode !in {"", "rr", "roundrobin"} || followDistance == 0
    ensures pool != null ==>
              && fresh(pool) && pool.schedulerMode == ROUND_ROBIN && pool.configForkDistance == configForkDistance
              && fresh(pool.cache) && pool.cache.Valid() && pool.cache.blockRootMap == map[]
              && pool.cache.followDistance == followDistance
              && pool.clients == [] && pool.Numbered() && pool.forkCache == map[] && pool.rrLastIndexes == map[]
  {
    if mode != "" && mode != "rr" && mode != "roundrobin" {
      return null;
    }
    var blockCache := NewBlockCache(followDistance);
    if blockCache == null {
      return null;
    }
    pool := new Pool(blockCache, configForkDistance, ROUND_ROBIN);
  }

  const COUNTER_RANGE := 0x1_0000

  /** A client before anything is known of its node. */
  function NewClient(idx: nat): Client {
    Client(idx, AnyClient, 0, 0, false)
  }

  lemma {:induction false} PicksNext(ms: seq<Client>, last: nat, n: nat)
    requires ms != []
    ensures var front := Picks(ms, last, n);
            Picks(ms, last, n + 1) == front + [ms[NextPosition(ms, if n == 0 then last else front[n - 1].idx)]]
  {
    PicksSplit(ms, last, n, 1);
    PicksOne(ms, if n == 0 then last else Picks(ms, last, n)[n - 1].idx);
  }

  lemma {:induction false} PicksOne(ms: seq<Client>, last: nat)
    requires ms != []
    ensures Picks(ms, last, 1) == [ms[NextPosition(ms, last)]]
  {
    var c := ms[NextPosition(ms, last)];
    assert Picks(ms, c.idx, 0) == [];
  }

  /** One selection: nobody and nothing stored when no client matches, else the matching client that
      follows the stored index, whose index is stored. */
  ghost predicate Selects(ready: seq<Client>, kind: ClientType, before: map<ClientType, nat>,
                          selected: Option<Client>, after: map<ClientType, nat>) {
    var ms := Matching(ready, kind);
    var last := if kind in before then before[kind] else 0;
    if ms == [] then selected == None && after == before
    else selected == Some(ms[NextPosition(ms, last)]) && after == before[kind := selected.value.idx]
  }

  function First<T>(xs: seq<T>): Option<T> {
    if xs == [] then None else Some(xs[0])
  }

  lemma {:induction false} MatchingWithin(clients: seq<Client>, kind: ClientType)
    ensures forall c :: c in Matching(clients, kind) ==> c in clients && Matches(c, kind)
    decreases |clients|
  {
    if clients != [] {
      var n := |clients| - 1;
      MatchingWithin(clients[..n], kind);
      MatchingStep(clients, kind, n);
      assert clients[..n + 1] == clients;
    }
  }

  lemma {:induction false} MatchingStep(clients: seq<Client>, kind: ClientType, n: nat)
    requires n < |clients|
    ensures Matching(clients[..n + 1], kind) ==
            Matching(clients[..n], kind) + if Matches(clients[n], kind) then [clients[n]] else []
  {
    assert clients[..n + 1][..n] == clients[..n];
  }

  lemma {:induction false} SomeForkIffClients(t: Tree, clients: seq<Client>, forks: seq<HeadFork>)
    requires Grouped(t, clients, forks)
    ensures forks == [] <==> clients == []
  {
    if forks != [] {
      assert GoodFork(t, forks[0]);
      var c :| c in forks[0].allClients && c.headRoot == forks[0].root;
      assert c in clients;
    }
    if clients != [] {
      var c := clients[0];
      assert c in clients;
      var i :| 0 <= i < |forks| && c in forks[i].allClients;
    }
  }

  lemma {:induction false} ReadyByDistance(t: Tree, f: HeadFork, c: Client, limit: nat, d: nat)
    requires SlotsIncrease(t) && c.online && Linked(t, c.headRoot, f.root)
    requires Reaches(t, f.root, c.headRoot, d) && (f.root == c.headRoot ==> d == 0)
    ensures IsReady(t, f, c, limit) <==> d <= limit
  {
    if IsReady(t, f, c, limit) && f.root != c.headRoot {
      var e: nat :| e <= limit && Reaches(t, f.root, c.headRoot, e);
      DistanceUnique(t, f.root, c.headRoot, d, e);
    }
  }

  lemma {:induction false} ReadyKeepsGrouping(t: Tree, clients: seq<Client>, plain: seq<HeadFork>, forks: seq<HeadFork>)
    requires Grouped(t, clients, plain) && |forks| == |plain|
    requires forall k :: 0 <= k < |forks| ==> forks[k] == plain[k].(readyClients := forks[k].readyClients)
    ensures Grouped(t, clients, forks)
  {
  }

  lemma {:induction false} NoneLater(ms: seq<Client>, last: nat, from: nat)
    requires ms != [] && from <= |ms| && forall c :: c in ms ==> c.idx <= last
    ensures NextPosition(ms, last, from) == 0
    decreases |ms| - from
  {
    if from < |ms| {
      NoneLater(ms, last, from + 1);
    }
  }

  lemma {:induction false} MatchingPrefix(clients: seq<Client>, kind: ClientType, n: nat)
    requires n <= |clients|
    ensures Matching(clients[..n], kind) <= Matching(clients, kind)
    decreases |clients| - n
  {
    if n < |clients| {
      MatchingPrefix(clients, kind, n + 1);
      MatchingStep(clients, kind, n);
      assert Matching(clients[..n], kind) <= Matching(clients[..n + 1], kind);
    } else {
      assert clients[..n] == clients;
    }
  }

  lemma {:induction false} FirstLater(ms: seq<Client>, last: nat, k: nat, from: nat)
    requires from <= k < |ms| && ms[k].idx > last
    requires forall i :: 0 <= i < k ==> ms[i].idx <= last
    ensures NextPosition(ms, last, from) == k
    decreases k - from
  {
    if from < k {
      FirstLater(ms, last, k, from + 1);
    }
  }

  lemma {:induction false} FoundNext(ready: seq<Client>, kind: ClientType, n: nat, last: nat)
    requires n < |ready| && Matches(ready[n], kind) && ready[n].idx > last
    requires forall c :: c in Matching(ready[..n], kind) ==> c.idx <= last
    ensures var ms := Matching(ready, kind); ms != [] && ms[NextPosition(ms, last)] == ready[n]
  {
    var before := Matching(ready[..n], kind);
    assert ready[..n + 1][..n] == ready[..n];
    MatchingPrefix(ready, kind, n + 1);
    var ms := Matching(ready, kind);
    assert ms[|before|] == ready[n];
    FirstLater(ms, last, |before|, 0);
  }
}
