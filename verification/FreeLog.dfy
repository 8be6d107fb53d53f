/** The bounded log of freed pointers (src/ucb/memdbg.c): records live in a fixed
    pool of nodes that are threaded through hash buckets, a list by age and a list
    of spare slots. A node is named by its slot number; each link field of the
    nodes is one sequence indexed by slot. */
module FreeLog {
  import opened RecencyList

  const NULL := -1

  // ---------------------------------------------------------------------------
  // Linked lists over slot numbers
  // ---------------------------------------------------------------------------

  /** The i-th node of a list, or NULL beyond its ends. */
  function At(s: seq<int>, i: int): int {
    if 0 <= i < |s| then s[i] else NULL
  }

  ghost predicate Distinct(s: seq<int>) {
    s == [] || (s[0] !in s[1..] && Distinct(s[1..]))
  }

  lemma {:induction false} DistinctMeans(s: seq<int>)
    ensures Distinct(s) <==> forall i, j :: 0 <= i < j < |s| ==> s[i] != s[j]
  {
    if s != [] {
      var t := s[1..];
      DistinctMeans(t);
      assert forall i :: 0 <= i < |t| ==> t[i] == s[i + 1];
      if Distinct(s) {
        forall i, j | 0 <= i < j < |s| ensures s[i] != s[j] {
          assert t[j - 1] == s[j];
          if i > 0 {
            assert t[i - 1] == s[i];
          }
        }
      }
    }
  }

  lemma DistinctAt(s: seq<int>, i: nat, j: nat)
    requires Distinct(s) && i < |s| && j < |s| && i != j
    ensures s[i] != s[j]
  {
    DistinctMeans(s);
  }

  lemma DistinctFront(slot: int, s: seq<int>)
    requires Distinct(s) && slot !in s
    ensures Distinct([slot] + s)
  {
    assert ([slot] + s)[1..] == s;
  }

  ghost predicate InPool(s: seq<int>, n: nat) {
    forall i :: 0 <= i < |s| ==> 0 <= s[i] < n
  }

  function Removed(s: seq<int>, k: nat): seq<int>
    requires k < |s|
  {
    s[..k] + s[k + 1..]
  }

  /** t is s without its k-th node. */
  ghost predicate Dropped(t: seq<int>, s: seq<int>, k: nat) {
    && k < |s| == |t| + 1
    && (forall j {:trigger t[j]} :: 0 <= j < k ==> t[j] == s[j])
    && (forall j {:trigger t[j]} :: k <= j < |t| ==> t[j] == s[j + 1])
  }

  lemma DropNode(s: seq<int>, k: nat) returns (t: seq<int>)
    requires k < |s|
    ensures Dropped(t, s, k)
  {
    t := Removed(s, k);
  }

  /** Every node of s leads to the next one, the last to NULL. */
  ghost predicate Links(next: seq<int>, s: seq<int>) {
    InPool(s, |next|) && forall i {:trigger next[s[i]]} :: 0 <= i < |s| ==> next[s[i]] == At(s, i + 1)
  }

  /** Every node of s leads back to the one before, the first to NULL. */
  ghost predicate BackLinks(prev: seq<int>, s: seq<int>) {
    InPool(s, |prev|) && forall i {:trigger prev[s[i]]} :: 0 <= i < |s| ==> prev[s[i]] == At(s, i - 1)
  }

  lemma RemovedMembers(s: seq<int>, k: nat)
    requires k < |s| && Distinct(s)
    ensures Distinct(Removed(s, k))
    ensures forall n :: n in Removed(s, k) <==> n in s && n != s[k]
  {
    var t := Removed(s, k);
    DistinctMeans(s);
    DistinctMeans(t);
    forall n | n in s && n != s[k] ensures n in t {
      var i :| 0 <= i < |s| && s[i] == n;
      assert t[if i < k then i else i - 1] == n;
    }
  }

  lemma LinkSkipsAt(next: seq<int>, s: seq<int>, k: nat, t: seq<int>, i: nat)
    requires Links(next, s) && Distinct(s) && Dropped(t, s, k) && i < |t|
    ensures 0 <= t[i] < |next|
    ensures (if k == 0 then next else next[s[k - 1] := next[s[k]]])[t[i]] == At(t, i + 1)
  {
    var j := if i < k then i else i + 1;
    assert t[i] == s[j] && next[s[j]] == At(s, j + 1) && next[s[k]] == At(s, k + 1);
    if 0 < k != j + 1 {
      DistinctAt(s, j, k - 1);
    }
  }

  lemma BackLinkSkipsAt(prev: seq<int>, s: seq<int>, k: nat, t: seq<int>, i: nat)
    requires BackLinks(prev, s) && Distinct(s) && Dropped(t, s, k) && i < |t|
    ensures 0 <= t[i] < |prev|
    ensures (if k == |s| - 1 then prev else prev[s[k + 1] := prev[s[k]]])[t[i]] == At(t, i - 1)
  {
    var j := if i < k then i else i + 1;
    assert t[i] == s[j] && prev[s[j]] == At(s, j - 1) && prev[s[k]] == At(s, k - 1);
    if k + 1 < |s| && k + 1 != j {
      DistinctAt(s, j, k + 1);
    }
  }

  lemma LinksSkip(next: seq<int>, s: seq<int>, k: nat)
    requires Links(next, s) && Distinct(s) && k < |s|
    ensures Links(if k == 0 then next else next[s[k - 1] := next[s[k]]], Removed(s, k))
  {
    var t := Removed(s, k);
    var next' := if k == 0 then next else next[s[k - 1] := next[s[k]]];
    forall i | 0 <= i < |t| ensures 0 <= t[i] < |next'| && next'[t[i]] == At(t, i + 1) {
      LinkSkipsAt(next, s, k, t, i);
    }
  }

  lemma BackLinksSkip(prev: seq<int>, s: seq<int>, k: nat)
    requires BackLinks(prev, s) && Distinct(s) && k < |s|
    ensures BackLinks(if k == |s| - 1 then prev else prev[s[k + 1] := prev[s[k]]], Removed(s, k))
  {
    var t := Removed(s, k);
    var prev' := if k == |s| - 1 then prev else prev[s[k + 1] := prev[s[k]]];
    forall i | 0 <= i < |t| ensures 0 <= t[i] < |prev'| && prev'[t[i]] == At(t, i - 1) {
      BackLinkSkipsAt(prev, s, k, t, i);
    }
  }

  lemma LinksElsewhere(next: seq<int>, s: seq<int>, at: int, v: int)
    requires Links(next, s) && 0 <= at < |next| && at !in s
    ensures Links(next[at := v], s)
  {}

  lemma LinksFront(next: seq<int>, s: seq<int>, slot: int)
    requires Links(next, s) && 0 <= slot < |next| && slot !in s
    ensures Links(next[slot := At(s, 0)], [slot] + s)
  {}

  lemma BackLinksFront(prev: seq<int>, s: seq<int>, slot: int)
    requires BackLinks(prev, s) && 0 <= slot < |prev| && slot !in s && Distinct(s)
    ensures BackLinks(if s == [] then prev[slot := NULL] else prev[slot := NULL][s[0] := slot], [slot] + s)
  {
    DistinctMeans(s);
  }

  // ---------------------------------------------------------------------------
  // Buckets
  // ---------------------------------------------------------------------------

  /** Every member is in the chain of its pointer, and nothing else is. */
  ghost predicate Filed(hash: nat -> nat, chains: seq<seq<int>>, members: seq<int>, recs: seq<Record>) {
    && InPool(members, |recs|)
    && (forall p :: hash(p) < |chains|)
    && (forall b, i :: 0 <= b < |chains| && 0 <= i < |chains[b]| ==>
          chains[b][i] in members && hash(recs[chains[b][i]].ptr) == b)
    && (forall i :: 0 <= i < |members| ==> members[i] in chains[hash(recs[members[i]].ptr)])
  }

  ghost predicate Chain(next: seq<int>, head: int, s: seq<int>) {
    head == At(s, 0) && Distinct(s) && Links(next, s)
  }

  ghost predicate Chained(buckets: seq<int>, next: seq<int>, chains: seq<seq<int>>) {
    |buckets| == |chains| && forall b :: 0 <= b < |buckets| ==> Chain(next, buckets[b], chains[b])
  }

  /** Chains of different buckets have no node in common. */
  lemma ChainsApart(hash: nat -> nat, chains: seq<seq<int>>, members: seq<int>, recs: seq<Record>, h: nat, b: nat)
    requires Filed(hash, chains, members, recs) && h < |chains| && b < |chains| && b != h
    ensures forall n :: n in chains[b] ==> n !in chains[h]
  {}

  /** Taking one node out of the members and out of its chain. */
  lemma FiledShrinks(hash: nat -> nat, chains: seq<seq<int>>, cut: seq<seq<int>>, members: seq<int>, left: seq<int>,
                     recs: seq<Record>, gone: int)
    requires Filed(hash, chains, members, recs) && |cut| == |chains|
    requires forall n :: n in left <==> n in members && n != gone
    requires forall b, n :: 0 <= b < |cut| ==> (n in cut[b] <==> n in chains[b] && n != gone)
    ensures Filed(hash, cut, left, recs)
  {
    forall i | 0 <= i < |left|
      ensures 0 <= left[i] < |recs| && left[i] in cut[hash(recs[left[i]].ptr)]
    {
      assert left[i] in left;
    }
    forall b, i | 0 <= b < |cut| && 0 <= i < |cut[b]|
      ensures cut[b][i] in left && hash(recs[cut[b][i]].ptr) == b
    {
      assert cut[b][i] in cut[b];
    }
  }

  lemma FiledRemoved(hash: nat -> nat, chains: seq<seq<int>>, members: seq<int>, recs: seq<Record>, k: nat, h: nat, i: nat)
    requires Filed(hash, chains, members, recs) && Distinct(members) && k < |members|
    requires h == hash(recs[members[k]].ptr) && i < |chains[h]| && chains[h][i] == members[k] && Distinct(chains[h])
    ensures Filed(hash, chains[h := Removed(chains[h], i)], Removed(members, k), recs)
  {
    var gone, cut := members[k], chains[h := Removed(chains[h], i)];
    RemovedMembers(chains[h], i);
    RemovedMembers(members, k);
    assert gone in chains[h];
    forall b: nat | b < |cut| && b != h ensures gone !in chains[b] {
      ChainsApart(hash, chains, members, recs, b, h);
    }
    FiledShrinks(hash, chains, cut, members, Removed(members, k), recs, gone);
  }

  /** The link that led to the i-th node of chain h is redirected past it. */
  lemma ChainedSkip(hash: nat -> nat, buckets: seq<int>, next: seq<int>, chains: seq<seq<int>>, members: seq<int>,
                    recs: seq<Record>, h: nat, i: nat)
    requires Filed(hash, chains, members, recs) && Chained(buckets, next, chains)
    requires h < |chains| && i < |chains[h]|
    ensures Chain(next, buckets[h], chains[h])
    ensures var s := chains[h];
            Chained(if i == 0 then buckets[h := next[s[0]]] else buckets,
                    if i == 0 then next else next[s[i - 1] := next[s[i]]],
                    chains[h := Removed(s, i)])
  {
    var s := chains[h];
    assert Chain(next, buckets[h], s);
    var next' := if i == 0 then next else next[s[i - 1] := next[s[i]]];
    var buckets' := if i == 0 then buckets[h := next[s[0]]] else buckets;
    LinksSkip(next, s, i);
    RemovedMembers(s, i);
    forall b: nat | b < |chains| && b != h ensures Chain(next', buckets'[b], chains[b]) {
      assert Chain(next, buckets[b], chains[b]);
      ChainsApart(hash, chains, members, recs, h, b);
      if i > 0 {
        assert s[i - 1] in s;
        LinksElsewhere(next, chains[b], s[i - 1], next[s[i]]);
      }
    }
  }

  /** The link of a node that is in no chain does not matter. */
  lemma ChainedElsewhere(hash: nat -> nat, buckets: seq<int>, next: seq<int>, chains: seq<seq<int>>, members: seq<int>,
                         recs: seq<Record>, at: int, v: int)
    requires Filed(hash, chains, members, recs) && Chained(buckets, next, chains)
    requires 0 <= at < |next| && at !in members
    ensures Chained(buckets, next[at := v], chains)
  {
    forall b | 0 <= b < |buckets| ensures Chain(next[at := v], buckets[b], chains[b]) {
      assert Chain(next, buckets[b], chains[b]);
      assert at !in chains[b];
    }
  }

  /** A new member goes to the front of its chain. */
  lemma FiledFront(hash: nat -> nat, buckets: seq<int>, next: seq<int>, chains: seq<seq<int>>, members: seq<int>,
                   recs: seq<Record>, slot: int)
    requires Filed(hash, chains, members, recs) && Chained(buckets, next, chains)
    requires 0 <= slot < |recs| == |next| && slot !in members
    ensures var h := hash(recs[slot].ptr);
            && Filed(hash, chains[h := [slot] + chains[h]], [slot] + members, recs)
            && Chained(buckets[h := slot], next[slot := buckets[h]], chains[h := [slot] + chains[h]])
  {
    var h := hash(recs[slot].ptr);
    var more := chains[h := [slot] + chains[h]];
    var next' := next[slot := buckets[h]];
    forall b: nat | b < |chains| ensures Chain(next', buckets[h := slot][b], more[b]) {
      assert Chain(next, buckets[b], chains[b]);
      assert slot !in chains[b];
      LinksFront(next, chains[b], slot);
      DistinctFront(slot, chains[b]);
      LinksElsewhere(next, chains[b], slot, buckets[h]);
    }
    forall j | 0 <= j < |[slot] + members|
      ensures ([slot] + members)[j] in more[hash(recs[([slot] + members)[j]].ptr)]
    {
      if j > 0 {
        assert members[j - 1] in chains[hash(recs[members[j - 1]].ptr)];
      }
    }
    forall b, j | 0 <= b < |more| && 0 <= j < |more[b]|
      ensures more[b][j] in [slot] + members && hash(recs[more[b][j]].ptr) == b
    {
      assert more[b][j] in more[b];
      assert more[b][j] == slot || more[b][j] in chains[b];
    }
  }

  // ---------------------------------------------------------------------------
  // The table
  // ---------------------------------------------------------------------------

  /** Every slot is in the age list, spare, or held by the operation under way. */
  ghost predicate Partition(n: nat, ages: seq<int>, spare: seq<int>, held: int) {
    && Distinct(ages) && InPool(ages, n) && Distinct(spare) && InPool(spare, n)
    && (forall i :: 0 <= i < |ages| ==> ages[i] !in spare && ages[i] != held)
    && held !in spare
    && (held == NULL || 0 <= held < n)
    && (forall x :: 0 <= x < n ==> x in ages || x in spare || x == held)
    && |ages| + |spare| + (if held == NULL then 0 else 1) == n
  }

  lemma PartitionRemoved(n: nat, ages: seq<int>, spare: seq<int>, k: nat, left: seq<int>)
    requires Partition(n, ages, spare, NULL) && Dropped(left, ages, k)
    ensures Partition(n, left, spare, ages[k]) && ages[k] !in left
  {
    assert left == Removed(ages, k);
    RemovedMembers(ages, k);
    forall i | 0 <= i < |left| ensures left[i] !in spare && left[i] != ages[k] {
      assert left[i] in left;
    }
  }

  lemma PartitionFront(n: nat, ages: seq<int>, spare: seq<int>, slot: int)
    requires Partition(n, ages, spare, slot) && slot != NULL
    ensures Partition(n, [slot] + ages, spare, NULL) && slot !in ages
  {
    DistinctFront(slot, ages);
  }

  lemma PartitionSpared(n: nat, ages: seq<int>, spare: seq<int>, slot: int)
    requires Partition(n, ages, spare, slot) && slot != NULL
    ensures Partition(n, ages, [slot] + spare, NULL) && slot !in spare
  {
    DistinctFront(slot, spare);
  }

  lemma PartitionTaken(n: nat, ages: seq<int>, spare: seq<int>)
    requires Partition(n, ages, spare, NULL) && spare != []
    ensures Partition(n, ages, spare[1..], spare[0])
  {}

  lemma AllInUse(n: nat, ages: seq<int>, spare: seq<int>)
    requires Partition(n, ages, spare, NULL) && At(spare, 0) == NULL
    ensures |ages| == n
  {
  }

  /** The nodes hold the given records. */
  ghost predicate Hold(recs: seq<Record>, s: seq<int>, l: seq<Record>) {
    InPool(s, |recs|) && |s| == |l| && forall i :: 0 <= i < |s| ==> recs[s[i]] == l[i]
  }

  lemma HoldDropped(recs: seq<Record>, s: seq<int>, l: seq<Record>, k: nat, left: seq<int>)
    requires Hold(recs, s, l) && Dropped(left, s, k)
    ensures Hold(recs, left, l[..k] + l[k + 1..])
  {
    forall i | 0 <= i < |left| ensures 0 <= left[i] < |recs| && recs[left[i]] == (l[..k] + l[k + 1..])[i] {
      assert left[i] == s[if i < k then i else i + 1];
    }
  }

  lemma HoldRemoved(recs: seq<Record>, s: seq<int>, l: seq<Record>, k: nat, left: seq<int>)
    requires Hold(recs, s, l) && Dropped(left, s, k) && OnePerPointer(l)
    ensures Hold(recs, left, Without(l, recs[s[k]].ptr)) && OnePerPointer(Without(l, recs[s[k]].ptr))
  {
    HoldDropped(recs, s, l, k, left);
    WithoutAt(l, k);
    WithoutKeeps(l, l[k].ptr);
  }

  ghost predicate AgeList(newest: int, oldest: int, next: seq<int>, prev: seq<int>, s: seq<int>) {
    newest == At(s, 0) && oldest == At(s, |s| - 1) && Links(next, s) && BackLinks(prev, s)
  }

  /** The loop of free_table_find_locked. */
  method Search(recs: seq<Record>, next: seq<int>, head: int, ptr: nat, ghost chain: seq<int>) returns (node: int)
    requires |next| == |recs| && Chain(next, head, chain)
    ensures node == NULL ==> forall n :: n in chain ==> recs[n].ptr != ptr
    ensures node != NULL ==> node in chain && recs[node].ptr == ptr
  {
    node := head;
    ghost var k := 0;
    while node != NULL
      invariant 0 <= k <= |chain| && node == At(chain, k)
      invariant forall i :: 0 <= i < k ==> recs[chain[i]].ptr != ptr
      decreases |chain| - k
    {
      if recs[node].ptr == ptr {
        return;
      }
      node := next[node];
      k := k + 1;
    }
  }

  /** The links followed by free_table_detach_locked up to the one that leads to node. */
  method WalkTo(next: seq<int>, head: int, node: int, ghost chain: seq<int>) returns (prev: int, ghost i: nat)
    requires Chain(next, head, chain) && node in chain
    ensures i < |chain| && chain[i] == node && prev == At(chain, i - 1)
  {
    var cur := head;
    prev, i := NULL, 0;
    while cur != NULL && cur != node
      invariant i <= |chain| && cur == At(chain, i) && prev == At(chain, i - 1)
      invariant forall j :: 0 <= j < i ==> chain[j] != node
      decreases |chain| - i
    {
      prev, cur := cur, next[cur];
      i := i + 1;
    }
  }

  /** The first loop of free_table_detach_locked: redirect the link that leads to node. */
  method UnlinkHash(hash: nat -> nat, buckets: seq<int>, next: seq<int>, recs: seq<Record>, node: int,
                    ghost chains: seq<seq<int>>, ghost members: seq<int>, ghost k: nat, ghost left: seq<int>)
    returns (buckets': seq<int>, next': seq<int>, ghost chains': seq<seq<int>>)
    requires Filed(hash, chains, members, recs) && Chained(buckets, next, chains) && |next| == |recs|
    requires Distinct(members) && Dropped(left, members, k) && members[k] == node
    ensures |buckets'| == |buckets| && |next'| == |next|
    ensures Filed(hash, chains', left, recs) && Chained(buckets', next', chains')
  {
    assert left == Removed(members, k);
    var h := hash(recs[node].ptr);
    assert Chain(next, buckets[h], chains[h]);
    var prev: int, i: nat := WalkTo(next, buckets[h], node, chains[h]);
    ChainedSkip(hash, buckets, next, chains, members, recs, h, i);
    FiledRemoved(hash, chains, members, recs, k, h, i);
    buckets', next', chains' := buckets, next, chains[h := Removed(chains[h], i)];
    if prev == NULL {
      buckets' := buckets[h := next[node]];
    } else {
      next' := next[prev := next[node]];
    }
  }

  /** The nodes of a bucket with the pointer ptr are exactly the records of ptr. */
  lemma FiledFinds(hash: nat -> nat, chains: seq<seq<int>>, members: seq<int>, recs: seq<Record>, l: seq<Record>, ptr: nat)
    requires Filed(hash, chains, members, recs) && Hold(recs, members, l)
    ensures Holds(l, ptr) <==> exists n :: n in chains[hash(ptr)] && recs[n].ptr == ptr
    ensures forall n :: n in chains[hash(ptr)] ==> n in members && recs[n] in l
  {
    var chain := chains[hash(ptr)];
    if Holds(l, ptr) {
      var a :| 0 <= a < |l| && l[a].ptr == ptr;
      assert members[a] in chain && recs[members[a]].ptr == ptr;
    }
    forall n | n in chain ensures n in members && recs[n] in l {
      var a :| 0 <= a < |members| && members[a] == n;
      assert l[a] == recs[n];
    }
    if n :| n in chain && recs[n].ptr == ptr {
      var a :| 0 <= a < |members| && members[a] == n;
      assert l[a].ptr == ptr;
    }
  }

  /** The age part of free_table_detach_locked. */
  method UnlinkAge(newest: int, oldest: int, next: seq<int>, prev: seq<int>, node: int, ghost s: seq<int>, ghost k: nat,
                   ghost left: seq<int>)
    returns (newest': int, oldest': int, next': seq<int>, prev': seq<int>)
    requires AgeList(newest, oldest, next, prev, s) && Distinct(s) && Dropped(left, s, k) && s[k] == node
    ensures |next'| == |next| && |prev'| == |prev|
    ensures AgeList(newest', oldest', next', prev', left)
  {
    assert left == Removed(s, k);
    newest', oldest', next', prev' := newest, oldest, next, prev;
    LinksSkip(next, s, k);
    BackLinksSkip(prev, s, k);
    if prev[node] != NULL {
      next' := next[prev[node] := next[node]];
    } else {
      newest' := next[node];
    }
    if next[node] != NULL {
      prev' := prev[next[node] := prev[node]];
    } else {
      oldest' := prev[node];
    }
  }

  /** The age part of free_table_insert_locked: slot becomes the newest. */
  method LinkAge(newest: int, oldest: int, next: seq<int>, prev: seq<int>, slot: int, ghost s: seq<int>)
    returns (oldest': int, next': seq<int>, prev': seq<int>)
    requires AgeList(newest, oldest, next, prev, s) && Distinct(s)
    requires 0 <= slot < |next| == |prev| && slot !in s
    ensures |next'| == |next| && |prev'| == |prev|
    ensures AgeList(slot, oldest', next', prev', [slot] + s)
  {
    LinksFront(next, s, slot);
    BackLinksFront(prev, s, slot);
    next', prev', oldest' := next[slot := newest], prev[slot := NULL], oldest;
    if newest != NULL {
      prev' := prev'[newest := slot];
    } else {
      oldest' := slot;
    }
  }

  lemma AgeElsewhere(newest: int, oldest: int, next: seq<int>, prev: seq<int>, s: seq<int>, at: int, v: int)
    requires AgeList(newest, oldest, next, prev, s) && 0 <= at < |next| == |prev| && at !in s
    ensures AgeList(newest, oldest, next[at := v], prev[at := v], s)
  {}

  /** Filling a slot that is in no list touches no record of the log. */
  lemma FillSlot(hash: nat -> nat, chains: seq<seq<int>>, members: seq<int>, recs: seq<Record>, l: seq<Record>, slot: int,
                 e: Record)
    requires Filed(hash, chains, members, recs) && Hold(recs, members, l)
    requires 0 <= slot < |recs| && slot !in members
    ensures Filed(hash, chains, members, recs[slot := e])
    ensures Hold(recs[slot := e], members, l) && Hold(recs[slot := e], [slot] + members, [e] + l)
  {}

  lemma ChainTaken(next: seq<int>, head: int, s: seq<int>)
    requires Chain(next, head, s) && s != []
    ensures Chain(next, next[head], s[1..])
  {
    assert next[s[0]] == At(s, 1);
    assert forall i :: 0 <= i < |s[1..]| ==> s[1..][i] == s[i + 1];
  }

  /** s_free_pool, one column for each field of its nodes. */
  datatype Pool = Pool(recs: seq<Record>, hashNext: seq<int>, agePrev: seq<int>, ageNext: seq<int>, poolNext: seq<int>)

  /** What is in the lists: the age list with its records, the spare slots and the buckets. */
  datatype View = View(ages: seq<int>, entries: seq<Record>, spare: seq<int>, chains: seq<seq<int>>)

  ghost predicate Consistent(hash: nat -> nat, capacity: nat, pool: Pool, slots: int, buckets: seq<int>, newest: int,
                             oldest: int, v: View, held: int) {
    && |pool.hashNext| == |pool.agePrev| == |pool.ageNext| == |pool.poolNext| == |pool.recs|
    && |buckets| == capacity > 0
    && Partition(|pool.recs|, v.ages, v.spare, held)
    && Filed(hash, v.chains, v.ages, pool.recs) && Chained(buckets, pool.hashNext, v.chains)
    && AgeList(newest, oldest, pool.ageNext, pool.agePrev, v.ages)
    && Chain(pool.poolNext, slots, v.spare)
    && Hold(pool.recs, v.ages, v.entries) && OnePerPointer(v.entries)
  }

  /** The buckets and the spare list together hold every slot exactly once. */
  lemma SlotsPartition(hash: nat -> nat, capacity: nat, pool: Pool, slots: int, buckets: seq<int>, newest: int, oldest: int,
                       v: View, x: nat)
    requires Consistent(hash, capacity, pool, slots, buckets, newest, oldest, v, NULL) && x < |pool.recs|
    ensures x in v.ages <==> x !in v.spare
    ensures x in v.ages <==> exists b :: 0 <= b < capacity && x in v.chains[b]
    ensures forall b, c :: 0 <= b < capacity && 0 <= c < capacity && x in v.chains[b] && x in v.chains[c] ==> b == c
  {
    if x in v.ages {
      assert x in v.chains[hash(pool.recs[x].ptr)];
    }
  }

  /** Without a spare slot every slot is in use, and the oldest record is the last. */
  lemma Exhausted(hash: nat -> nat, capacity: nat, pool: Pool, slots: int, buckets: seq<int>, newest: int, oldest: int, v: View)
    requires Consistent(hash, capacity, pool, slots, buckets, newest, oldest, v, NULL)
    requires slots == NULL && |pool.recs| > 0
    ensures |v.ages| == |v.entries| == |pool.recs| && v.ages[|v.ages| - 1] == oldest
    ensures Without(v.entries, pool.recs[oldest].ptr) == v.entries[..|v.entries| - 1]
  {
    AllInUse(|pool.recs|, v.ages, v.spare);
    WithoutLast(v.entries);
  }

  /** The loop of free_table_clear_locked. */
  method RebuildSlots(links: seq<int>) returns (next: seq<int>, head: int)
    ensures |next| == |links| && Chain(next, head, Downto(|links|))
  {
    next, head := links, NULL;
    for i := 0 to |links|
      invariant |next| == |links| && Chain(next, head, Downto(i))
    {
      DistinctFront(i, Downto(i));
      LinksFront(next, Downto(i), i);
      next := next[i := head];
      head := i;
    }
  }

  /** The slots 0 to k - 1, last one first. */
  function Downto(k: nat): (s: seq<int>)
    ensures |s| == k && forall i :: 0 <= i < k ==> s[i] == k - 1 - i
  {
    if k == 0 then [] else [k - 1] + Downto(k - 1)
  }

  lemma EmptyIsConsistent(hash: nat -> nat, capacity: nat, pool: Pool, slots: int, buckets: seq<int>, spare: seq<int>)
    requires |pool.hashNext| == |pool.agePrev| == |pool.ageNext| == |pool.poolNext| == |pool.recs|
    requires |buckets| == capacity > 0 && (forall b :: 0 <= b < capacity ==> buckets[b] == NULL)
    requires forall p :: hash(p) < capacity
    requires Chain(pool.poolNext, slots, spare) && spare == Downto(|pool.recs|)
    ensures Consistent(hash, capacity, pool, slots, buckets, NULL, NULL, View([], [], spare, seq(capacity, _ => [])), NULL)
  {
    var chains: seq<seq<int>> := seq(capacity, _ => []);
    assert forall b :: 0 <= b < capacity ==> Chain(pool.hashNext, buckets[b], chains[b]);
    forall x | 0 <= x < |pool.recs| ensures x in spare {
      assert spare[|pool.recs| - 1 - x] == x;
    }
  }

  /** Fill the held slot and put it first in its bucket and in the age list. */
  method FillFront(hash: nat -> nat, capacity: nat, pool: Pool, slots: int, buckets: seq<int>, newest: int, oldest: int,
                   ghost v: View, slot: int, e: Record)
    returns (pool': Pool, buckets': seq<int>, oldest': int, ghost v': View)
    requires Consistent(hash, capacity, pool, slots, buckets, newest, oldest, v, slot)
    requires slot != NULL && !Holds(v.entries, e.ptr)
    ensures Consistent(hash, capacity, pool', slots, buckets', slot, oldest', v', NULL)
    ensures |pool'.recs| == |pool.recs| && v'.entries == [e] + v.entries
  {
    var h := hash(e.ptr);
    var recs := pool.recs[slot := e];
    PartitionFront(|recs|, v.ages, v.spare, slot);
    FillSlot(hash, v.chains, v.ages, pool.recs, v.entries, slot, e);
    OnePerPointerFront(e, v.entries);
    LinksElsewhere(pool.poolNext, v.spare, slot, NULL);
    FiledFront(hash, buckets, pool.hashNext, v.chains, v.ages, recs, slot);
    var ageNext, agePrev;
    oldest', ageNext, agePrev := LinkAge(newest, oldest, pool.ageNext, pool.agePrev, slot, v.ages);
    pool' := Pool(recs, pool.hashNext[slot := buckets[h]], agePrev, ageNext, pool.poolNext[slot := NULL]);
    buckets' := buckets[h := slot];
    v' := View([slot] + v.ages, [e] + v.entries, v.spare, v.chains[h := [slot] + v.chains[h]]);
  }

  class Table {
    const capacity: nat
    const hash: nat -> nat
    var pool: Pool
    var slots: int
    var buckets: seq<int>
    var newest: int
    var oldest: int
    ghost var view: View

    /** The lists are intact, except that the operation under way may hold one slot. */
    ghost predicate Inv(held: int)
      reads this
    {
      Consistent(hash, capacity, pool, slots, buckets, newest, oldest, view, held)
    }

    ghost predicate Valid()
      reads this
    {
      Inv(NULL)
    }

    /** The log, newest record first. */
    ghost function Entries(): seq<Record>
      reads this
    {
      view.entries
    }

    /** How many records the log can hold: none if the pool could not be allocated. */
    function Limit(): nat
      reads this
    {
      |pool.recs|
    }

    /** s_free_pool as ucb_mem_tracking_enable allocates it (or fails to), all zero. */
    constructor (capacity: nat, hash: nat -> nat, available: bool)
      requires capacity > 0 && forall p :: hash(p) < capacity
      ensures Valid() && Entries() == [] && Limit() == (if available then capacity else 0)
    {
      this.capacity, this.hash := capacity, hash;
      var n := if available then capacity else 0;
      var links := seq(n, _ => NULL);
      var heads := seq(capacity, _ => NULL);
      var empty := Pool(seq(n, _ => Record(0, 0, Site("", 0), Site("", 0), 0)), links, links, links, links);
      var chain, head := RebuildSlots(empty.poolNext);
      EmptyIsConsistent(hash, capacity, empty.(poolNext := chain), head, heads, Downto(n));
      pool := empty.(poolNext := chain);
      slots, buckets, newest, oldest := head, heads, NULL, NULL;
      view := View([], [], Downto(n), seq(capacity, _ => []));
    }

    /** free_table_clear_locked */
    method Clear()
      requires Valid()
      modifies this
      ensures Valid() && Entries() == [] && Limit() == old(Limit())
    {
      if |pool.recs| == 0 {
        return;
      }
      var chain, head := RebuildSlots(pool.poolNext);
      var heads := seq(capacity, _ => NULL);
      EmptyIsConsistent(hash, capacity, pool.(poolNext := chain), head, heads, Downto(|pool.recs|));
      pool := pool.(poolNext := chain);
      buckets, newest, oldest, slots := heads, NULL, NULL, head;
      view := View([], [], Downto(|pool.recs|), seq(capacity, _ => []));
    }

    /** free_table_find_locked */
    method Find(ptr: nat) returns (node: int)
      requires Valid()
      ensures node == NULL <==> !Holds(Entries(), ptr)
      ensures node != NULL ==> node in view.ages && pool.recs[node].ptr == ptr && pool.recs[node] in Entries()
    {
      if |pool.recs| == 0 {
        return NULL;
      }
      assert Chain(pool.hashNext, buckets[hash(ptr)], view.chains[hash(ptr)]);
      FiledFinds(hash, view.chains, view.ages, pool.recs, view.entries, ptr);
      node := Search(pool.recs, pool.hashNext, buckets[hash(ptr)], ptr, view.chains[hash(ptr)]);
    }

    /** free_table_detach_locked */
    method Detach(node: int, ghost k: nat)
      requires Valid() && k < |view.ages| && view.ages[k] == node
      modifies this
      ensures Inv(node) && Entries() == Without(old(Entries()), pool.recs[node].ptr)
      ensures pool.recs == old(pool.recs)
    {
      ghost var ages, entries := view.ages, view.entries;
      ghost var left := DropNode(ages, k);
      PartitionRemoved(|pool.recs|, ages, view.spare, k, left);
      HoldRemoved(pool.recs, ages, entries, k, left);
      var b, hn;
      ghost var c;
      b, hn, c := UnlinkHash(hash, buckets, pool.hashNext, pool.recs, node, view.chains, ages, k, left);
      var n, o, an, ap := UnlinkAge(newest, oldest, pool.ageNext, pool.agePrev, node, ages, k, left);
      ChainedElsewhere(hash, b, hn, c, left, pool.recs, node, NULL);
      AgeElsewhere(n, o, an, ap, left, node, NULL);
      buckets, newest, oldest := b, n, o;
      pool := pool.(hashNext := hn[node := NULL], agePrev := ap[node := NULL], ageNext := an[node := NULL]);
      view := view.(ages := left, entries := Without(entries, pool.recs[node].ptr), chains := c);
    }

    /** free_slot_return_locked */
    method ReturnSlot(node: int)
      requires Inv(node) && node != NULL
      modifies this
      ensures Valid() && Entries() == old(Entries()) && pool.recs == old(pool.recs)
    {
      PartitionSpared(|pool.recs|, view.ages, view.spare, node);
      LinksFront(pool.poolNext, view.spare, node);
      pool := pool.(poolNext := pool.poolNext[node := slots]);
      slots := node;
      view := view.(spare := [node] + view.spare);
    }

    /** free_table_remove_locked */
    method Remove(ptr: nat)
      requires Valid()
      modifies this
      ensures Valid() && Limit() == old(Limit())
      ensures Entries() == Without(old(Entries()), ptr)
      ensures |Entries()| <= Limit() && !Holds(Entries(), ptr)
    {
      WithoutKeeps(Entries(), ptr);
      var node := Find(ptr);
      if node == NULL {
        WithoutAbsent(Entries(), ptr);
        return;
      }
      ghost var k :| 0 <= k < |view.ages| && view.ages[k] == node;
      Detach(node, k);
      ReturnSlot(node);
    }

    /** Evict the oldest record to make room. */
    method EvictOldest() returns (slot: int)
      requires Valid() && Limit() > 0 && slots == NULL
      modifies this
      ensures Inv(slot) && slot != NULL && pool.recs == old(pool.recs)
      ensures |old(Entries())| == Limit() && Entries() == old(Entries())[..Limit() - 1]
    {
      Exhausted(hash, capacity, pool, slots, buckets, newest, oldest, view);
      slot := oldest;
      Detach(slot, |view.ages| - 1);
    }

    /** The slot for a new record: a spare one, or that of the oldest record. */
    method TakeSlot() returns (slot: int)
      requires Valid() && Limit() > 0
      modifies this
      ensures Inv(slot) && slot != NULL && pool.recs == old(pool.recs)
      ensures var l := old(Entries()); Entries() == if |l| < Limit() then l else l[..|l| - 1]
    {
      slot := slots;
      if slot != NULL {
        PartitionTaken(|pool.recs|, view.ages, view.spare);
        ChainTaken(pool.poolNext, slots, view.spare);
        slots := pool.poolNext[slot];
        view := view.(spare := view.spare[1..]);
      } else {
        slot := EvictOldest();
      }
    }

    /** The end of free_table_insert_locked: fill the slot and link it in. */
    method LinkFront(slot: int, e: Record)
      requires Inv(slot) && slot != NULL && !Holds(Entries(), e.ptr)
      modifies this
      ensures Valid() && Limit() == old(Limit()) && Entries() == [e] + old(Entries())
    {
      var p, b, o;
      ghost var v;
      p, b, o, v := FillFront(hash, capacity, pool, slots, buckets, newest, oldest, view, slot, e);
      pool, buckets, newest, oldest := p, b, slot, o;
      view := v;
    }

    /** free_table_insert_locked */
    method Insert(e: Record)
      requires Valid()
      modifies this
      ensures Valid() && Limit() == old(Limit())
      ensures Entries() == RecencyList.Insert(old(Entries()), e, Limit())
    {
      if |pool.recs| == 0 {
        return;
      }
      Remove(e.ptr);
      InsertEvicts(Entries(), e, Limit());
      var slot := TakeSlot();
      LinkFront(slot, e);
    }
  }
}
