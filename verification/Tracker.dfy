/** The allocation tracker (src/ucb/memdbg.c), single-threaded and with tracking
    on. Every tracked block carries a header in front of the memory handed out;
    headers are named by the pointer the caller gets. The live blocks of each trace
    level form a doubly linked list through their headers. */
module Tracker {
  import opened RecencyList
  import opened FreeLog

  const ALLOC_MAGIC := 0xBEA01234
  const DEALLOC_MAGIC := 0x0DEADBEA
  const SIZE_RANGE := 0x1_0000_0000_0000_0000

  /** ucb_alloc_meta */
  datatype Header = Header(prev: int, next: int, size: nat, site: Site, level: nat, magic: nat)

  /** What the header of a live block says about it. */
  datatype Block = Block(size: nat, site: Site, level: nat)

  type size_t = n: int | 0 <= n < SIZE_RANGE

  /** ucb_tracepoint: the head of its list and the counters. */
  datatype TracePoint = TracePoint(head: int, currentAlloc: size_t, currentSize: size_t)

  // ---------------------------------------------------------------------------
  // Lists through headers
  // ---------------------------------------------------------------------------

  /** The header of the i-th block of a level list. */
  ghost predicate BlockAt(mem: map<int, Header>, s: seq<int>, i: nat, level: nat)
    requires i < |s|
  {
    s[i] >= 0 && s[i] in mem && mem[s[i]].level == level && mem[s[i]].magic == ALLOC_MAGIC &&
    mem[s[i]].next == At(s, i + 1) && mem[s[i]].prev == At(s, i - 1)
  }

  /** The list of one level runs through exactly the blocks of s. */
  ghost predicate LevelList(mem: map<int, Header>, head: int, s: seq<int>, level: nat) {
    head == At(s, 0) && Distinct(s) && forall i: nat :: i < |s| ==> BlockAt(mem, s, i, level)
  }

  ghost predicate Levels(mem: map<int, Header>, traces: seq<TracePoint>, lists: seq<seq<int>>) {
    |traces| == |lists| && forall l :: 0 <= l < |lists| ==> LevelList(mem, traces[l].head, lists[l], l)
  }

  function Info(h: Header): Block {
    Block(h.size, h.site, h.level)
  }

  /** Only links and the level may differ. */
  ghost predicate SameData(h: Header, h': Header) {
    h'.size == h.size && h'.site == h.site && h'.magic == h.magic
  }

  /** The headers with the magic of a live block are those of the live blocks, and say
      what is known about them. */
  ghost predicate Marked(mem: map<int, Header>, live: map<int, Block>) {
    && (forall a :: a in live ==> a in mem && mem[a].magic == ALLOC_MAGIC && Info(mem[a]) == live[a])
    && (forall a :: a in mem && mem[a].magic == ALLOC_MAGIC ==> a in live)
  }

  /** Every live block is in the list of its level. */
  ghost predicate Listed(mem: map<int, Header>, live: map<int, Block>, lists: seq<seq<int>>) {
    && (forall a :: a in live ==> a in mem && mem[a].level < |lists| && a in lists[mem[a].level])
  }

  lemma ListedIsLive(mem: map<int, Header>, traces: seq<TracePoint>, lists: seq<seq<int>>, live: map<int, Block>, l: nat, a: int)
    requires Levels(mem, traces, lists) && Marked(mem, live) && l < |lists| && a in lists[l]
    ensures a in live && a in mem && mem[a].level == l
  {
    var i: nat :| i < |lists[l]| && lists[l][i] == a;
    assert LevelList(mem, traces[l].head, lists[l], l) && BlockAt(mem, lists[l], i, l);
  }

  lemma ListedAreLive(mem: map<int, Header>, traces: seq<TracePoint>, lists: seq<seq<int>>, live: map<int, Block>, l: nat)
    requires Levels(mem, traces, lists) && Marked(mem, live) && l < |lists|
    ensures forall a :: a in lists[l] ==> a in live && a in mem && mem[a].level == l
  {
    forall a | a in lists[l] ensures a in live && a in mem && mem[a].level == l {
      ListedIsLive(mem, traces, lists, live, l, a);
    }
  }

  lemma ListsApart(mem: map<int, Header>, traces: seq<TracePoint>, lists: seq<seq<int>>, live: map<int, Block>, l: nat, m: nat)
    requires Levels(mem, traces, lists) && Marked(mem, live) && l < |lists| && m < |lists| && l != m
    ensures forall j :: 0 <= j < |lists[l]| ==> lists[l][j] !in lists[m]
  {
    forall j | 0 <= j < |lists[l]| ensures lists[l][j] !in lists[m] {
      ListedIsLive(mem, traces, lists, live, l, lists[l][j]);
      if lists[l][j] in lists[m] {
        ListedIsLive(mem, traces, lists, live, m, lists[l][j]);
      }
    }
  }

  /** A change to the list of one level, and to a block outside all lists, leaves the
      other lists intact. */
  lemma LevelsChanged(mem: map<int, Header>, mem': map<int, Header>, traces: seq<TracePoint>, traces': seq<TracePoint>,
                      lists: seq<seq<int>>, live: map<int, Block>, c: nat, t: seq<int>, ptr: int)
    requires Levels(mem, traces, lists) && Marked(mem, live) && c < |lists|
    requires |traces'| == |traces| && forall l :: 0 <= l < |lists| && l != c ==> traces'[l].head == traces[l].head
    requires LevelList(mem', traces'[c].head, t, c)
    requires forall a :: a in mem && a != ptr && a !in lists[c] ==> a in mem' && mem'[a] == mem[a]
    requires forall l :: 0 <= l < |lists| && l != c ==> ptr !in lists[l]
    ensures Levels(mem', traces', lists[c := t])
  {
    forall l: nat | l < |lists| && l != c ensures LevelList(mem', traces'[l].head, lists[l], l) {
      ListedAreLive(mem, traces, lists, live, l);
      ListedAreLive(mem, traces, lists, live, c);
      assert LevelList(mem, traces[l].head, lists[l], l);
      LevelListElsewhere(mem, mem', traces[l].head, lists[l], l);
    }
  }

  lemma LevelListElsewhere(mem: map<int, Header>, mem': map<int, Header>, head: int, s: seq<int>, level: nat)
    requires LevelList(mem, head, s, level)
    requires forall a :: a in s && a in mem ==> a in mem' && mem'[a] == mem[a]
    ensures LevelList(mem', head, s, level)
  {
    forall i: nat | i < |s| ensures BlockAt(mem', s, i, level) {
      assert BlockAt(mem, s, i, level) && s[i] in s;
    }
  }

  /** The steps of register_alloc on the list of a level. */
  method LinkBlock(mem: map<int, Header>, head: int, ptr: nat, level: nat, ghost s: seq<int>) returns (mem': map<int, Header>)
    requires LevelList(mem, head, s, level) && ptr in mem && ptr !in s && mem[ptr].magic == ALLOC_MAGIC
    ensures LevelList(mem', ptr, [ptr] + s, level)
    ensures mem'.Keys == mem.Keys && mem'[ptr].level == level
    ensures forall a :: a in mem && a != ptr && a !in s ==> mem'[a] == mem[a]
    ensures forall a :: a in mem ==> SameData(mem[a], mem'[a])
    ensures forall a :: a in mem && a != ptr ==> mem'[a].level == mem[a].level
  {
    mem' := mem[ptr := mem[ptr].(level := level, next := head, prev := NULL)];
    if head != NULL {
      assert BlockAt(mem, s, 0, level);
      mem' := mem'[head := mem'[head].(prev := ptr)];
    }
    DistinctFront(ptr, s);
    forall i: nat | i < |[ptr] + s| ensures BlockAt(mem', [ptr] + s, i, level) {
      if i > 0 {
        assert BlockAt(mem, s, i - 1, level);
        if i > 1 {
          DistinctAt(s, 0, i - 1);
        }
      }
    }
  }

  /** The memory after the steps of unregister_alloc_locked on the headers. */
  function Bypass(mem: map<int, Header>, ptr: int): map<int, Header>
    requires ptr in mem
    requires mem[ptr].prev != NULL ==> mem[ptr].prev in mem
    requires mem[ptr].next != NULL ==> mem[ptr].next in mem
  {
    var prev, next := mem[ptr].prev, mem[ptr].next;
    var mem1 := mem[ptr := mem[ptr].(magic := DEALLOC_MAGIC)];
    var mem2 := if prev != NULL then mem1[prev := mem1[prev].(next := next)] else mem1;
    if next != NULL then mem2[next := mem2[next].(prev := prev)] else mem2
  }

  lemma NeighboursKnown(mem: map<int, Header>, head: int, s: seq<int>, k: nat, level: nat)
    requires LevelList(mem, head, s, level) && k < |s|
    ensures s[k] in mem && mem[s[k]].prev == At(s, k - 1) && mem[s[k]].next == At(s, k + 1)
    ensures k > 0 ==> s[k - 1] in mem && s[k - 1] != s[k] && s[k - 1] >= 0
    ensures k + 1 < |s| ==> s[k + 1] in mem && s[k + 1] != s[k] && s[k + 1] >= 0
    ensures 0 < k < |s| - 1 ==> s[k - 1] != s[k + 1]
  {
    assert BlockAt(mem, s, k, level);
    if k > 0 {
      assert BlockAt(mem, s, k - 1, level);
      DistinctAt(s, k - 1, k);
    }
    if k + 1 < |s| {
      assert BlockAt(mem, s, k + 1, level);
      DistinctAt(s, k, k + 1);
      if k > 0 {
        DistinctAt(s, k - 1, k + 1);
      }
    }
  }

  lemma BypassAt(mem: map<int, Header>, head: int, s: seq<int>, k: nat, t: seq<int>, i: nat, level: nat)
    requires LevelList(mem, head, s, level) && Dropped(t, s, k) && i < |t|
    requires s[k] in mem
    requires mem[s[k]].prev != NULL ==> mem[s[k]].prev in mem
    requires mem[s[k]].next != NULL ==> mem[s[k]].next in mem
    ensures BlockAt(Bypass(mem, s[k]), t, i, level)
  {
    NeighboursKnown(mem, head, s, k, level);
    var j := if i < k then i else i + 1;
    assert t[i] == s[j] && BlockAt(mem, s, j, level);
    DistinctAt(s, j, k);
    if k > 0 && j != k - 1 {
      DistinctAt(s, j, k - 1);
    }
    if k + 1 < |s| && j != k + 1 {
      DistinctAt(s, j, k + 1);
    }
    assert At(t, i + 1) == (if j + 1 == k then At(s, k + 1) else At(s, j + 1));
    assert At(t, i - 1) == (if j - 1 == k then At(s, k - 1) else At(s, j - 1));
  }

  lemma BypassList(mem: map<int, Header>, head: int, s: seq<int>, k: nat, t: seq<int>, level: nat)
    requires LevelList(mem, head, s, level) && Dropped(t, s, k)
    ensures s[k] in mem && (mem[s[k]].prev != NULL ==> mem[s[k]].prev in mem)
    ensures mem[s[k]].next != NULL ==> mem[s[k]].next in mem
    ensures LevelList(Bypass(mem, s[k]), if mem[s[k]].prev == NULL then mem[s[k]].next else head, t, level)
    ensures (k > 0 ==> mem[s[k]].prev in s) && (k + 1 < |s| ==> mem[s[k]].next in s)
  {
    NeighboursKnown(mem, head, s, k, level);
    assert t == Removed(s, k);
    RemovedMembers(s, k);
    forall i: nat | i < |t| ensures BlockAt(Bypass(mem, s[k]), t, i, level) {
      BypassAt(mem, head, s, k, t, i, level);
    }
  }

  /** Unlinking a block changes links only, and the magic of the block itself. */
  lemma BypassKeeps(mem: map<int, Header>, ptr: int, a: int)
    requires ptr in mem && a in mem
    requires mem[ptr].prev != NULL ==> mem[ptr].prev in mem && mem[ptr].prev != ptr
    requires mem[ptr].next != NULL ==> mem[ptr].next in mem && mem[ptr].next != ptr
    ensures var mem' := Bypass(mem, ptr);
            && mem'.Keys == mem.Keys
            && Info(mem'[a]) == Info(mem[a])
            && mem'[a].magic == (if a == ptr then DEALLOC_MAGIC else mem[a].magic)
            && (a != ptr && a != mem[ptr].prev && a != mem[ptr].next ==> mem'[a] == mem[a])
  {}

  // ---------------------------------------------------------------------------
  // Counters
  // ---------------------------------------------------------------------------

  function SumAlloc(traces: seq<TracePoint>): nat {
    if traces == [] then 0 else SumAlloc(traces[..|traces| - 1]) + traces[|traces| - 1].currentAlloc
  }

  function SumSize(traces: seq<TracePoint>): nat {
    if traces == [] then 0 else SumSize(traces[..|traces| - 1]) + traces[|traces| - 1].currentSize
  }

  /** The bytes of all live blocks. */
  ghost function Bytes(live: map<int, Block>): nat {
    if k :| k in live then live[k].size + Bytes(live - {k}) else 0
  }

  lemma {:induction false} BytesWithout(live: map<int, Block>, k: int)
    requires k in live
    ensures Bytes(live) == live[k].size + Bytes(live - {k})
    decreases |live|
  {
    var j :| j in live && Bytes(live) == live[j].size + Bytes(live - {j});
    if j != k {
      Smaller(live, j);
      Smaller(live, k);
      BytesWithout(live - {j}, k);
      BytesWithout(live - {k}, j);
      assert live - {j} - {k} == live - {k} - {j};
    }
  }

  lemma Smaller(live: map<int, Block>, k: int)
    requires k in live
    ensures |live - {k}| == |live| - 1
  {
    assert (live - {k}).Keys == live.Keys - {k};
  }

  lemma BytesWith(live: map<int, Block>, k: int, b: Block)
    requires k !in live
    ensures Bytes(live[k := b]) == Bytes(live) + b.size && |live[k := b]| == |live| + 1
  {
    var more := live[k := b];
    BytesWithout(more, k);
    Smaller(more, k);
    assert more - {k} == live;
  }

  /** The counters of all levels together are right modulo the range of size_t. A
      single level need not be: a block is taken off the counters of the current
      level, not of its own. */
  ghost predicate Counted(traces: seq<TracePoint>, live: map<int, Block>) {
    Sums(traces, |live|, Bytes(live))
  }

  ghost predicate Sums(traces: seq<TracePoint>, count: nat, bytes: nat) {
    SumAlloc(traces) % SIZE_RANGE == count % SIZE_RANGE && SumSize(traces) % SIZE_RANGE == bytes % SIZE_RANGE
  }

  function Top(traces: seq<TracePoint>): TracePoint
    requires traces != []
  {
    traces[|traces| - 1]
  }

  lemma SumTop(traces: seq<TracePoint>, tp: TracePoint)
    requires traces != []
    ensures var traces' := traces[|traces| - 1 := tp];
            && SumAlloc(traces') == SumAlloc(traces) - Top(traces).currentAlloc + tp.currentAlloc
            && SumSize(traces') == SumSize(traces) - Top(traces).currentSize + tp.currentSize
  {
    assert traces[|traces| - 1 := tp][..|traces| - 1] == traces[..|traces| - 1];
  }

  lemma Shift(a: int, b: int, k: int)
    requires a == b + k * SIZE_RANGE
    ensures a % SIZE_RANGE == b % SIZE_RANGE
  {}

  lemma Reduced(a: int, b: int)
    ensures (a + b % SIZE_RANGE) % SIZE_RANGE == (a + b) % SIZE_RANGE
  {
    Shift(a + b, a + b % SIZE_RANGE, b / SIZE_RANGE);
  }

  lemma SameRest(a: int, b: int, x: int)
    requires a % SIZE_RANGE == b % SIZE_RANGE
    ensures (a + x) % SIZE_RANGE == (b + x) % SIZE_RANGE
  {
    Shift(a + x, b + x, a / SIZE_RANGE - b / SIZE_RANGE);
  }

  lemma WrapAdd(sum: nat, term: nat, total: nat, x: nat)
    requires sum >= term && sum % SIZE_RANGE == total % SIZE_RANGE
    ensures (sum - term + (term + x) % SIZE_RANGE) % SIZE_RANGE == (total + x) % SIZE_RANGE
  {
    Reduced(sum - term, term + x);
    SameRest(sum, total, x);
  }

  lemma WrapSubtract(sum: nat, term: nat, total: nat, x: nat)
    requires sum >= term && total >= x && sum % SIZE_RANGE == total % SIZE_RANGE
    ensures (sum - term + (term - x) % SIZE_RANGE) % SIZE_RANGE == (total - x) % SIZE_RANGE
  {
    Reduced(sum - term, term - x);
    var d: int := x;
    SameRest(sum, total, -d);
  }

  lemma TermOfSum(traces: seq<TracePoint>)
    requires traces != []
    ensures SumAlloc(traces) >= Top(traces).currentAlloc && SumSize(traces) >= Top(traces).currentSize
  {}

  /** The counters of the top level after a block of the given size is added. */
  function Charged(tp: TracePoint, head: int, size: nat): TracePoint {
    TracePoint(head, (tp.currentAlloc + 1) % SIZE_RANGE, (tp.currentSize + size) % SIZE_RANGE)
  }

  /** The counters of the top level after a block of the given size is taken off. */
  function Credited(tp: TracePoint, size: nat): TracePoint {
    TracePoint(tp.head, (tp.currentAlloc - 1) % SIZE_RANGE, (tp.currentSize - size) % SIZE_RANGE)
  }

  lemma {:induction false} SumIgnoresHeads(traces: seq<TracePoint>, l: nat, head: int)
    requires l < |traces|
    ensures SumAlloc(traces[l := traces[l].(head := head)]) == SumAlloc(traces)
    ensures SumSize(traces[l := traces[l].(head := head)]) == SumSize(traces)
  {
    var n := |traces| - 1;
    if l < n {
      SumIgnoresHeads(traces[..n], l, head);
      assert traces[l := traces[l].(head := head)][..n] == traces[..n][l := traces[l].(head := head)];
    } else {
      assert traces[l := traces[l].(head := head)][..n] == traces[..n];
    }
  }

  lemma CountedWith(traces: seq<TracePoint>, live: map<int, Block>, ptr: int, b: Block, head: int)
    requires traces != [] && Counted(traces, live) && ptr !in live
    ensures Counted(traces[|traces| - 1 := Charged(Top(traces), head, b.size)], live[ptr := b])
  {
    BytesWith(live, ptr, b);
    ChargedSums(traces, |live|, Bytes(live), head, b.size);
    CountedBy(traces[|traces| - 1 := Charged(Top(traces), head, b.size)], live[ptr := b], |live| + 1, Bytes(live) + b.size);
  }

  lemma CountedBy(traces: seq<TracePoint>, live: map<int, Block>, count: nat, bytes: nat)
    requires Sums(traces, count, bytes) && count == |live| && bytes == Bytes(live)
    ensures Counted(traces, live)
  {}

  lemma ChargedSums(traces: seq<TracePoint>, count: nat, bytes: nat, head: int, size: nat)
    requires traces != [] && Sums(traces, count, bytes)
    ensures Sums(traces[|traces| - 1 := Charged(Top(traces), head, size)], count + 1, bytes + size)
  {
    TermOfSum(traces);
    SumTop(traces, Charged(Top(traces), head, size));
    WrapAdd(SumAlloc(traces), Top(traces).currentAlloc, count, 1);
    WrapAdd(SumSize(traces), Top(traces).currentSize, bytes, size);
  }

  lemma CountedWithout(traces: seq<TracePoint>, live: map<int, Block>, ptr: int)
    requires traces != [] && Counted(traces, live) && ptr in live
    ensures Counted(traces[|traces| - 1 := Credited(Top(traces), live[ptr].size)], live - {ptr})
  {
    BytesWithout(live, ptr);
    Smaller(live, ptr);
    TermOfSum(traces);
    SumTop(traces, Credited(Top(traces), live[ptr].size));
    WrapSubtract(SumAlloc(traces), Top(traces).currentAlloc, |live|, 1);
    WrapSubtract(SumSize(traces), Top(traces).currentSize, Bytes(live), live[ptr].size);
  }

  // ---------------------------------------------------------------------------
  // The tracker
  // ---------------------------------------------------------------------------

  ghost predicate Tracked(mem: map<int, Header>, traces: seq<TracePoint>, lists: seq<seq<int>>, live: map<int, Block>) {
    && traces != [] && Levels(mem, traces, lists)
    && Marked(mem, live) && Listed(mem, live, lists)
    && Counted(traces, live)
  }

  /** No record of the log is about a live block. */
  ghost predicate Apart(log: seq<Record>, live: map<int, Block>) {
    forall e :: e in log ==> e.ptr !in live
  }

  lemma ApartWithout(log: seq<Record>, live: map<int, Block>, ptr: nat, b: Block)
    requires Apart(log, live)
    ensures Apart(Without(log, ptr), live[ptr := b])
  {}

  lemma ApartInsert(log: seq<Record>, live: map<int, Block>, e: Record, limit: nat)
    requires Apart(log, live)
    ensures Apart(RecencyList.Insert(log, e, limit), live - {e.ptr})
  {
    InsertMembers(log, e, limit);
  }

  /** register_alloc, on a header filled in by init_alloc. */
  method LinkTop(mem: map<int, Header>, traces: seq<TracePoint>, ptr: nat, size: nat, site: Site,
                 ghost lists: seq<seq<int>>, ghost live: map<int, Block>)
    returns (mem': map<int, Header>, traces': seq<TracePoint>, ghost lists': seq<seq<int>>)
    requires Tracked(mem, traces, lists, live) && ptr !in live
    ensures |traces'| == |traces| && Tracked(mem', traces', lists', live[ptr := Block(size, site, |traces| - 1)])
  {
    var level: nat := |traces| - 1;
    ghost var s := lists[level];
    assert LevelList(mem, Top(traces).head, s, level);
    NotListed(mem, traces, lists, live, ptr);
    var filled := mem[ptr := Header(NULL, NULL, size, site, level, ALLOC_MAGIC)];
    LevelListElsewhere(mem, filled, Top(traces).head, s, level);
    mem' := LinkBlock(filled, Top(traces).head, ptr, level, s);
    traces' := traces[level := Charged(Top(traces), ptr, size)];
    lists' := lists[level := [ptr] + s];
    LevelsChanged(mem, mem', traces, traces', lists, live, level, [ptr] + s, ptr);
    CountedWith(traces, live, ptr, Block(size, site, level), ptr);
    ListedAfter(mem, mem', lists, live, ptr, Block(size, site, level));
  }

  lemma NotListed(mem: map<int, Header>, traces: seq<TracePoint>, lists: seq<seq<int>>, live: map<int, Block>, ptr: int)
    requires Levels(mem, traces, lists) && Marked(mem, live) && ptr !in live
    ensures forall l :: 0 <= l < |lists| ==> ptr !in lists[l]
  {
    forall l: nat | l < |lists| ensures ptr !in lists[l] {
      ListedAreLive(mem, traces, lists, live, l);
    }
  }

  lemma ListedAfter(mem: map<int, Header>, mem': map<int, Header>, lists: seq<seq<int>>, live: map<int, Block>, ptr: nat,
                    b: Block)
    requires Marked(mem, live) && Listed(mem, live, lists) && b.level < |lists|
    requires mem'.Keys == mem.Keys + {ptr}
    requires mem'[ptr].magic == ALLOC_MAGIC && Info(mem'[ptr]) == b
    requires forall a :: a in mem && a != ptr ==>
               SameData(mem[a], mem'[a]) && mem'[a].level == mem[a].level
    ensures Marked(mem', live[ptr := b])
    ensures Listed(mem', live[ptr := b], lists[b.level := [ptr] + lists[b.level]])
  {}

  /** Setting the head of one list and crediting the current level. */
  function Released(traces: seq<TracePoint>, level: nat, prev: int, next: int, size: nat): seq<TracePoint>
    requires traces != [] && level < |traces|
  {
    var credited := traces[|traces| - 1 := Credited(Top(traces), size)];
    if prev == NULL then credited[level := credited[level].(head := next)] else credited
  }

  lemma ReleasedCounted(traces: seq<TracePoint>, live: map<int, Block>, ptr: int, level: nat, prev: int, next: int)
    requires traces != [] && level < |traces| && ptr in live && Counted(traces, live)
    ensures Counted(Released(traces, level, prev, next, live[ptr].size), live - {ptr})
  {
    CountedWithout(traces, live, ptr);
    SumIgnoresHeads(traces[|traces| - 1 := Credited(Top(traces), live[ptr].size)], level, next);
  }

  lemma ReleasedHeads(traces: seq<TracePoint>, level: nat, prev: int, next: int, size: nat)
    requires traces != [] && level < |traces|
    ensures var traces' := Released(traces, level, prev, next, size);
            && |traces'| == |traces|
            && (forall l :: 0 <= l < |traces| && l != level ==> traces'[l].head == traces[l].head)
            && traces'[level].head == (if prev == NULL then next else traces[level].head)
  {}

  lemma ListedWithout(mem: map<int, Header>, mem': map<int, Header>, lists: seq<seq<int>>, live: map<int, Block>, ptr: int,
                      level: nat, k: nat, t: seq<int>)
    requires Marked(mem, live) && Listed(mem, live, lists) && ptr in live
    requires level == mem[ptr].level && Dropped(t, lists[level], k) && lists[level][k] == ptr && Distinct(lists[level])
    requires mem'.Keys == mem.Keys && mem'[ptr].magic == DEALLOC_MAGIC
    requires forall a :: a in mem && a != ptr ==>
               SameData(mem[a], mem'[a]) && mem'[a].level == mem[a].level
    ensures Marked(mem', live - {ptr}) && Listed(mem', live - {ptr}, lists[level := t])
  {
    assert t == Removed(lists[level], k);
    RemovedMembers(lists[level], k);
  }

  /** unregister_alloc_locked */
  method UnlinkLive(mem: map<int, Header>, traces: seq<TracePoint>, ptr: int,
                    ghost lists: seq<seq<int>>, ghost live: map<int, Block>)
    returns (mem': map<int, Header>, traces': seq<TracePoint>, ghost lists': seq<seq<int>>)
    requires Tracked(mem, traces, lists, live) && ptr in live
    ensures |traces'| == |traces| && Tracked(mem', traces', lists', live - {ptr})
  {
    var entry := mem[ptr];
    ghost var level, s := entry.level, lists[entry.level];
    ghost var k: nat :| k < |s| && s[k] == ptr;
    ghost var t := DropNode(s, k);
    assert LevelList(mem, traces[level].head, s, level);
    BypassList(mem, traces[level].head, s, k, t, level);
    NeighboursKnown(mem, traces[level].head, s, k, level);
    mem' := Bypass(mem, ptr);
    traces' := Released(traces, entry.level, entry.prev, entry.next, entry.size);
    lists' := lists[level := t];
    forall a | a in mem {
      BypassKeeps(mem, ptr, a);
    }
    ReleasedHeads(traces, level, entry.prev, entry.next, entry.size);
    ReleasedCounted(traces, live, ptr, level, entry.prev, entry.next);
    forall l: nat | l < |lists| && l != level ensures ptr !in lists[l] {
      ListedAreLive(mem, traces, lists, live, l);
    }
    LevelsChanged(mem, mem', traces, traces', lists, live, level, t, ptr);
    ListedWithout(mem, mem', lists, live, ptr, level, k, t);
  }

  // ---------------------------------------------------------------------------
  // Leaving a level
  // ---------------------------------------------------------------------------

  /** The list u after the first i blocks of s went to its front, one by one. */
  function Onto(s: seq<int>, i: nat, u: seq<int>): (r: seq<int>)
    requires i <= |s|
    ensures forall a :: a in r <==> a in u || a in s[..i]
  {
    if i == 0 then u else
      assert s[..i] == s[..i - 1] + [s[i - 1]];
      [s[i - 1]] + Onto(s, i - 1, u)
  }

  lemma NotYetMoved(s: seq<int>, i: nat, u: seq<int>, j: nat)
    requires Distinct(s) && i <= j < |s| && s[j] !in u
    ensures s[j] !in Onto(s, i, u)
  {
    DistinctMeans(s);
  }

  /** What moving a block says about the others. */
  ghost predicate SameBut(mem: map<int, Header>, mem': map<int, Header>, s: seq<int>, i: nat, u: seq<int>, up: nat)
    requires i <= |s|
  {
    && mem'.Keys == mem.Keys
    && (forall a :: a in mem ==> SameData(mem[a], mem'[a]))
    && (forall a :: a in mem ==> mem'[a].level == if a in s[..i] then up else mem[a].level)
    && (forall a :: a in mem && a !in Onto(s, i, u) ==> mem'[a] == mem[a])
  }

  lemma SameButOne(mem0: map<int, Header>, mem: map<int, Header>, mem': map<int, Header>, s: seq<int>, i: nat, u: seq<int>,
                   up: nat)
    requires i < |s| && s[i] in mem && SameBut(mem0, mem, s, i, u, up)
    requires mem'.Keys == mem.Keys && mem'[s[i]].level == up
    requires forall a :: a in mem && a != s[i] && a !in Onto(s, i, u) ==> mem'[a] == mem[a]
    requires forall a :: a in mem ==> SameData(mem[a], mem'[a])
    requires forall a :: a in mem && a != s[i] ==> mem'[a].level == mem[a].level
    ensures SameBut(mem0, mem', s, i + 1, u, up)
  {
    assert s[..i + 1] == s[..i] + [s[i]];
  }

  /** One turn of the loop of ucb_mem_tracking_pop. */
  method MoveOne(mem0: map<int, Header>, mem: map<int, Header>, entry: int, head: int, up: nat,
                 ghost s: seq<int>, ghost u: seq<int>, ghost i: nat)
    returns (mem': map<int, Header>, next: int)
    requires LevelList(mem0, At(s, 0), s, up + 1) && i < |s| && entry == s[i]
    requires forall j :: 0 <= j < |s| ==> s[j] !in u
    requires LevelList(mem, head, Onto(s, i, u), up) && SameBut(mem0, mem, s, i, u, up)
    ensures next == At(s, i + 1)
    ensures LevelList(mem', entry, Onto(s, i + 1, u), up) && SameBut(mem0, mem', s, i + 1, u, up)
  {
    assert BlockAt(mem0, s, i, up + 1);
    NotYetMoved(s, i, u, i);
    next := mem[entry].next;
    mem' := LinkBlock(mem, head, entry, up, Onto(s, i, u));
    SameButOne(mem0, mem, mem', s, i, u, up);
  }

  /** The loop of ucb_mem_tracking_pop: every block of the level goes to the front
      of the list of the level above. */
  method MoveUp(mem: map<int, Header>, entry0: int, head: int, up: nat, ghost s: seq<int>, ghost u: seq<int>)
    returns (mem': map<int, Header>, head': int)
    requires LevelList(mem, entry0, s, up + 1) && LevelList(mem, head, u, up)
    requires forall j :: 0 <= j < |s| ==> s[j] !in u
    ensures LevelList(mem', head', Onto(s, |s|, u), up) && SameBut(mem, mem', s, |s|, u, up)
  {
    var entry := entry0;
    mem', head' := mem, head;
    ghost var i: nat := 0;
    while entry != NULL
      invariant i <= |s| && entry == At(s, i)
      invariant LevelList(mem', head', Onto(s, i, u), up) && SameBut(mem, mem', s, i, u, up)
      decreases |s| - i
    {
      var next: int;
      mem', next := MoveOne(mem, mem', entry, head', up, s, u, i);
      head', entry := entry, next;
      i := i + 1;
    }
    assert i < |s| ==> BlockAt(mem, s, i, up + 1);
  }

  /** The counters of a level that absorbs the level below it. */
  function Absorbed(up: TracePoint, tp: TracePoint, head: int): TracePoint {
    TracePoint(head, (up.currentAlloc + tp.currentAlloc) % SIZE_RANGE, (up.currentSize + tp.currentSize) % SIZE_RANGE)
  }

  lemma AbsorbedCounted(traces: seq<TracePoint>, live: map<int, Block>, head: int)
    requires |traces| > 1 && Counted(traces, live)
    ensures var n := |traces| - 2; Counted(traces[..n] + [Absorbed(traces[n], traces[n + 1], head)], live)
  {
    var n := |traces| - 2;
    var p, q := SumAlloc(traces[..n]), SumSize(traces[..n]);
    var merged := traces[..n] + [Absorbed(traces[n], traces[n + 1], head)];
    assert merged[..n] == traces[..n];
    var all := traces[..n + 1];
    assert all[..n] == traces[..n] && all[n] == traces[n];
    assert SumAlloc(all) == p + traces[n].currentAlloc && SumSize(all) == q + traces[n].currentSize;
    WrapLast(p, traces[n].currentAlloc, traces[n + 1].currentAlloc);
    WrapLast(q, traces[n].currentSize, traces[n + 1].currentSize);
  }

  lemma WrapLast(sum: nat, a: nat, b: nat)
    ensures (sum + (a + b) % SIZE_RANGE) % SIZE_RANGE == (sum + a + b) % SIZE_RANGE
  {
    Reduced(sum, a + b);
  }

  lemma LevelsMerged(mem: map<int, Header>, mem': map<int, Header>, traces: seq<TracePoint>, lists: seq<seq<int>>,
                     live: map<int, Block>, tp: TracePoint)
    requires |traces| > 1 && Levels(mem, traces, lists) && Marked(mem, live)
    requires var n := |traces| - 2; var s, u := lists[n + 1], lists[n];
             LevelList(mem', tp.head, Onto(s, |s|, u), n) && SameBut(mem, mem', s, |s|, u, n)
    ensures var n := |traces| - 2; var s, u := lists[n + 1], lists[n];
            Levels(mem', traces[..n] + [tp], lists[..n] + [Onto(s, |s|, u)])
  {
    var n: nat := |traces| - 2;
    var s, u := lists[n + 1], lists[n];
    assert s[..|s|] == s;
    ListedAreLive(mem, traces, lists, live, n);
    ListedAreLive(mem, traces, lists, live, n + 1);
    forall l: nat | l < n ensures LevelList(mem', traces[l].head, lists[l], l) {
      ListedAreLive(mem, traces, lists, live, l);
      assert LevelList(mem, traces[l].head, lists[l], l);
      LevelListElsewhere(mem, mem', traces[l].head, lists[l], l);
    }
  }

  lemma ListedMerged(mem: map<int, Header>, mem': map<int, Header>, traces: seq<TracePoint>, lists: seq<seq<int>>,
                     live: map<int, Block>)
    requires |lists| > 1 && Levels(mem, traces, lists) && Marked(mem, live) && Listed(mem, live, lists)
    requires var n := |lists| - 2; var s, u := lists[n + 1], lists[n]; SameBut(mem, mem', s, |s|, u, n)
    ensures var n := |lists| - 2; var s, u := lists[n + 1], lists[n];
            Marked(mem', Lowered(live, n)) && Listed(mem', Lowered(live, n), lists[..n] + [Onto(s, |s|, u)])
  {
    var n: nat := |lists| - 2;
    var s, u := lists[n + 1], lists[n];
    assert s[..|s|] == s;
    ListedAreLive(mem, traces, lists, live, n + 1);
    forall a | a in live ensures Info(mem'[a]) == Lowered(live, n)[a] {
      assert mem[a].level == n + 1 <==> a in s;
    }
    PlacesMerged(mem, mem', lists, live, s, u, n);
  }

  lemma PlacesMerged(mem: map<int, Header>, mem': map<int, Header>, lists: seq<seq<int>>, live: map<int, Block>,
                     s: seq<int>, u: seq<int>, n: nat)
    requires n + 2 == |lists| && s == lists[n + 1] && u == lists[n] && Listed(mem, live, lists)
    requires SameBut(mem, mem', s, |s|, u, n)
    ensures Listed(mem', Lowered(live, n), lists[..n] + [Onto(s, |s|, u)])
  {
    assert s[..|s|] == s;
    forall a | a in live ensures var l := mem'[a].level; l <= n && a in (lists[..n] + [Onto(s, |s|, u)])[l] {
      assert a in lists[mem[a].level];
    }
  }

  /** The blocks above level top now belong to it. */
  function Lowered(live: map<int, Block>, top: nat): map<int, Block> {
    map a | a in live :: live[a].(level := if live[a].level > top then top else live[a].level)
  }

  lemma {:induction false} LoweredCounts(live: map<int, Block>, top: nat)
    ensures |Lowered(live, top)| == |live| && Bytes(Lowered(live, top)) == Bytes(live)
    decreases |live|
  {
    var low := Lowered(live, top);
    assert low.Keys == live.Keys;
    if k :| k in live {
      Smaller(live, k);
      LoweredCounts(live - {k}, top);
      assert Lowered(live - {k}, top) == low - {k};
      BytesWithout(live, k);
      BytesWithout(low, k);
    }
  }

  /** ucb_mem_tracking_pop, above the first level. */
  method MergeTop(mem: map<int, Header>, traces: seq<TracePoint>, ghost lists: seq<seq<int>>, ghost live: map<int, Block>)
    returns (mem': map<int, Header>, traces': seq<TracePoint>, ghost lists': seq<seq<int>>)
    requires |traces| > 1 && Tracked(mem, traces, lists, live)
    ensures |traces'| == |traces| - 1 && Tracked(mem', traces', lists', Lowered(live, |traces| - 2))
  {
    var up: nat := |traces| - 2;
    ghost var s, u := lists[up + 1], lists[up];
    assert LevelList(mem, traces[up + 1].head, s, up + 1) && LevelList(mem, traces[up].head, u, up);
    ListsApart(mem, traces, lists, live, up + 1, up);
    var head;
    mem', head := MoveUp(mem, traces[up + 1].head, traces[up].head, up, s, u);
    var tp := Absorbed(traces[up], traces[up + 1], head);
    traces' := traces[..up] + [tp];
    lists' := lists[..up] + [Onto(s, |s|, u)];
    LevelsMerged(mem, mem', traces, lists, live, tp);
    ListedMerged(mem, mem', traces, lists, live);
    AbsorbedCounted(traces, live, head);
    LoweredCounts(live, up);
  }

  // ---------------------------------------------------------------------------
  // Operations
  // ---------------------------------------------------------------------------

  datatype Outcome = Ignored | DoubleFree(earlier: Record) | Invalid | Freed

  /** The search of ucb_mem_is_alloc in the list of one level. */
  method SearchLevel(mem: map<int, Header>, head: int, ptr: int, ghost s: seq<int>, ghost level: nat) returns (found: bool)
    requires LevelList(mem, head, s, level)
    ensures found <==> ptr in s
  {
    var entry := head;
    ghost var i: nat := 0;
    while entry != NULL
      invariant i <= |s| && entry == At(s, i) && ptr !in s[..i]
      decreases |s| - i
    {
      assert i < |s| && s[i] == entry && BlockAt(mem, s, i, level);
      if entry == ptr {
        return true;
      }
      assert s[..i + 1] == s[..i] + [s[i]];
      entry := mem[entry].next;
      i := i + 1;
    }
    assert i < |s| ==> BlockAt(mem, s, i, level);
    assert s[..|s|] == s;
    found := false;
  }

  /** The lists of all levels, and every live block. */
  datatype LiveView = LiveView(lists: seq<seq<int>>, live: map<int, Block>)

  /** ucb_malloc and ucb_calloc (src/ucb/memory.c) */
  method PlainAlloc(size: nat, block: nat) returns (ptr: int)
    ensures ptr == if size > 0 then block else NULL
  {
    ptr := NULL;
    if size > 0 {
      ptr := block;
    }
  }

  class AllocTracker {
    const maxLevels: nat
    const log: Table
    var mem: map<int, Header>
    var traces: seq<TracePoint>
    ghost var view: LiveView

    /** The level lists and the counters, without the log. */
    ghost predicate Listing()
      reads this
    {
      |traces| <= maxLevels && Tracked(mem, traces, view.lists, view.live)
    }

    ghost predicate Valid()
      reads this, log
    {
      && log.Valid() && Listing()
      && Apart(log.Entries(), view.live)
    }

    /** Every live block with its size, the place of its allocation and its level. */
    ghost function Live(): map<int, Block>
      reads this
    {
      view.live
    }

    /** ucb_mem_tracking_enable */
    constructor (maxLevels: nat, capacity: nat, hash: nat -> nat, available: bool)
      requires maxLevels > 0 && capacity > 0 && forall p :: hash(p) < capacity
      ensures Valid() && fresh(log) && Live() == map[] && log.Entries() == []
      ensures |traces| == 1 && log.Limit() == (if available then capacity else 0)
    {
      this.maxLevels := maxLevels;
      log := new Table(capacity, hash, available);
      mem, traces, view := map[], [TracePoint(NULL, 0, 0)], LiveView([[]], map[]);
    }

    /** register_alloc on the lists and the counters. */
    method LinkNew(ptr: nat, size: nat, site: Site)
      requires Listing() && ptr !in Live()
      modifies this
      ensures Listing() && |traces| == |old(traces)| && Live() == old(Live())[ptr := Block(size, site, |traces| - 1)]
    {
      ghost var lists;
      var m, t;
      m, t, lists := LinkTop(mem, traces, ptr, size, site, view.lists, view.live);
      mem, traces, view := m, t, LiveView(lists, view.live[ptr := Block(size, site, |t| - 1)]);
    }

    /** unregister_alloc_locked on the lists and the counters. */
    method UnlinkOld(ptr: nat)
      requires Listing() && ptr in Live()
      modifies this
      ensures Listing() && |traces| == |old(traces)| && Live() == old(Live()) - {ptr}
    {
      ghost var lists;
      var m, t;
      m, t, lists := UnlinkLive(mem, traces, ptr, view.lists, view.live);
      mem, traces, view := m, t, LiveView(lists, view.live - {ptr});
    }

    /** register_alloc, for a block that init_alloc has filled in */
    method Register(ptr: nat, size: nat, site: Site)
      requires Valid() && ptr !in Live()
      modifies this, log
      ensures Valid() && |traces| == |old(traces)| && log.Limit() == old(log.Limit())
      ensures Live() == old(Live())[ptr := Block(size, site, |traces| - 1)]
      ensures log.Entries() == Without(old(log.Entries()), ptr)
    {
      ApartWithout(log.Entries(), Live(), ptr, Block(size, site, |traces| - 1));
      log.Remove(ptr);
      LinkNew(ptr, size, site);
    }

    /** ucb_malloc_debug. The allocator has block; it is not asked for size 0, for
        which the result is NULL. */
    method Malloc(size: nat, site: Site, block: nat) returns (ptr: int)
      requires Valid() && block !in Live()
      modifies this, log
      ensures ptr == if size > 0 then block else NULL
      ensures Valid() && |traces| == |old(traces)| && log.Limit() == old(log.Limit())
      ensures Live() == if size > 0 then old(Live())[block := Block(size, site, |traces| - 1)] else old(Live())
      ensures log.Entries() == if size > 0 then Without(old(log.Entries()), block) else old(log.Entries())
    {
      if size > 0 {
        Register(block, size, site);
        return block;
      }
      ptr := PlainAlloc(size, block);
    }

    /** ucb_calloc_debug: the product is of type size_t and may wrap around. */
    method Calloc(num: nat, size: nat, site: Site, block: nat) returns (ptr: int)
      requires Valid() && block !in Live()
      modifies this, log
      ensures ptr == if num > 0 && size > 0 then block else NULL
      ensures Valid() && |traces| == |old(traces)| && log.Limit() == old(log.Limit())
      ensures Live() == if num > 0 && size > 0
                        then old(Live())[block := Block(num * size % SIZE_RANGE, site, |traces| - 1)]
                        else old(Live())
      ensures log.Entries() == if num > 0 && size > 0 then Without(old(log.Entries()), block) else old(log.Entries())
    {
      if num > 0 && size > 0 {
        Register(block, num * size % SIZE_RANGE, site);
        return block;
      }
      ptr := PlainAlloc(num * size, block);
    }

    /** ucb_mem_is_alloc */
    method IsAlloc(ptr: int) returns (found: bool, size: nat)
      requires Valid()
      ensures found <==> ptr in Live()
      ensures found ==> size == Live()[ptr].size
    {
      found, size := false, 0;
      if ptr == NULL {
        NoNull(mem, traces, view.lists, Live());
        return;
      }
      var level := 0;
      while level < |traces| && !found
        invariant 0 <= level <= |traces|
        invariant found ==> ptr in Live() && size == Live()[ptr].size
        invariant !found ==> forall l :: 0 <= l < level ==> ptr !in view.lists[l]
      {
        assert LevelList(mem, traces[level].head, view.lists[level], level);
        found := SearchLevel(mem, traces[level].head, ptr, view.lists[level], level);
        if found {
          ListedIsLive(mem, traces, view.lists, Live(), level, ptr);
          size := mem[ptr].size;
        }
        level := level + 1;
      }
    }

    /** The end of ucb_free_debug: unregister a live block and log it. */
    method Release(ptr: nat, site: Site)
      requires Valid() && ptr in Live()
      modifies this, log
      ensures Valid() && |traces| == |old(traces)| && log.Limit() == old(log.Limit())
      ensures Live() == old(Live()) - {ptr}
      ensures log.Entries() == RecencyList.Insert(old(log.Entries()),
                Record(ptr, old(Live())[ptr].size, old(Live())[ptr].site, site, |old(traces)| - 1), log.Limit())
    {
      var entry := mem[ptr];
      var e := Record(ptr, entry.size, entry.site, site, |traces| - 1);
      ApartInsert(log.Entries(), Live(), e, log.Limit());
      UnlinkOld(ptr);
      log.Insert(e);
    }

    /** ucb_free_debug. Memory in front of a pointer that was never tracked is taken
        not to hold the magic number. */
    method Free(ptr: int, site: Site) returns (r: Outcome)
      requires Valid() && ptr >= NULL
      modifies this, log
      ensures Valid() && |traces| == |old(traces)| && log.Limit() == old(log.Limit())
      ensures r.Freed? <==> ptr in old(Live())
      ensures r.DoubleFree? <==> ptr >= 0 && Holds(old(log.Entries()), ptr)
      ensures r.DoubleFree? ==> r.earlier in old(log.Entries()) && r.earlier.ptr == ptr
      ensures !r.Freed? ==> Live() == old(Live()) && log.Entries() == old(log.Entries())
      ensures r.Freed? ==> ptr >= 0 && Live() == old(Live()) - {ptr}
      ensures r.Freed? ==> log.Entries() == RecencyList.Insert(old(log.Entries()),
                Record(ptr, old(Live())[ptr].size, old(Live())[ptr].site, site, |old(traces)| - 1), log.Limit())
      ensures r.Ignored? <==> ptr == NULL
    {
      NoNull(mem, traces, view.lists, Live());
      if ptr == NULL {
        return Ignored;
      }
      var node := log.Find(ptr);
      if node != NULL {
        return DoubleFree(log.pool.recs[node]);
      }
      if ptr !in mem || mem[ptr].magic != ALLOC_MAGIC {
        return Invalid;
      }
      Release(ptr, site);
      r := Freed;
    }

    /** ucb_mem_tracking_push */
    method Push()
      requires Valid()
      modifies this
      ensures Valid() && Live() == old(Live())
      ensures |traces| == if |old(traces)| < maxLevels then |old(traces)| + 1 else |old(traces)|
    {
      if |traces| < maxLevels {
        LevelAdded(mem, traces, view.lists, Live());
        traces, view := traces + [TracePoint(NULL, 0, 0)], LiveView(view.lists + [[]], view.live);
      }
    }

    /** ucb_mem_tracking_pop */
    method Pop()
      requires Valid()
      modifies this
      ensures Valid() && log.Entries() == old(log.Entries())
      ensures Live() == if |old(traces)| == 1 then old(Live()) else Lowered(old(Live()), |old(traces)| - 2)
      ensures |traces| == if |old(traces)| == 1 then 1 else |old(traces)| - 1
    {
      if |traces| == 1 {
        return;
      }
      ghost var lists;
      var m, t;
      m, t, lists := MergeTop(mem, traces, view.lists, view.live);
      mem, traces, view := m, t, LiveView(lists, Lowered(view.live, |traces| - 2));
    }
  }

  /** Freeing what malloc returned never fails: a block is released and logged with
      its size and both sites, and the NULL that stands for size 0 is ignored. Either
      way the live blocks are as they were. */
  method MallocThenFree(t: AllocTracker, size: nat, site: Site, block: nat, freeSite: Site) returns (r: Outcome)
    requires t.Valid() && block !in t.Live()
    modifies t, t.log
    ensures t.Valid() && t.Live() == old(t.Live())
    ensures r == if size > 0 then Freed else Ignored
    ensures t.log.Entries() ==
            if size == 0 then old(t.log.Entries())
            else RecencyList.Insert(old(t.log.Entries()), Record(block, size, site, freeSite, |old(t.traces)| - 1),
                                    old(t.log.Limit()))
  {
    WithoutAbsent(Without(t.log.Entries(), block), block);
    PutAndTake(t.Live(), block, Block(size, site, |t.traces| - 1));
    var ptr := t.Malloc(size, site, block);
    r := t.Free(ptr, freeSite);
  }

  lemma PutAndTake(live: map<int, Block>, k: int, b: Block)
    requires k !in live
    ensures live[k := b] - {k} == live
  {}

  // ---------------------------------------------------------------------------
  // Runs
  // ---------------------------------------------------------------------------

  datatype Op = MallocOp(size: nat, site: Site, block: nat) | FreeOp(ptr: int, site: Site) | PushOp | PopOp

  /** The live blocks and the number of levels. */
  datatype Tally = Tally(live: map<int, Block>, levels: nat)

  /** The allocator never hands out the address of a live block. */
  predicate Allowed(a: Tally, op: Op) {
    (op.MallocOp? ==> op.block !in a.live) && (op.FreeOp? ==> op.ptr >= NULL)
  }

  function Step(maxLevels: nat, a: Tally, op: Op): Tally
    requires a.levels > 0
  {
    match op
    case MallocOp(size, site, block) =>
      if size > 0 then a.(live := a.live[block := Block(size, site, a.levels - 1)]) else a
    case FreeOp(ptr, _) => a.(live := a.live - {ptr})
    case PushOp => if a.levels < maxLevels then a.(levels := a.levels + 1) else a
    case PopOp => if a.levels == 1 then a else Tally(Lowered(a.live, a.levels - 2), a.levels - 1)
  }

  predicate AllAllowed(maxLevels: nat, a: Tally, ops: seq<Op>)
    requires a.levels > 0
    decreases |ops|
  {
    ops == [] || (Allowed(a, ops[0]) && AllAllowed(maxLevels, Step(maxLevels, a, ops[0]), ops[1..]))
  }

  function Run(maxLevels: nat, a: Tally, ops: seq<Op>): Tally
    requires a.levels > 0
    decreases |ops|
  {
    if ops == [] then a else Run(maxLevels, Step(maxLevels, a, ops[0]), ops[1..])
  }

  /** Whatever happens to other blocks and to the levels, a block that is not freed
      stays live, with the size and the call site of its allocation. */
  lemma {:induction false} StaysAllocated(maxLevels: nat, a: Tally, ops: seq<Op>, ptr: int)
    requires a.levels > 0 && AllAllowed(maxLevels, a, ops) && ptr in a.live
    requires forall i :: 0 <= i < |ops| && ops[i].FreeOp? ==> ops[i].ptr != ptr
    ensures var b := Run(maxLevels, a, ops);
            ptr in b.live && b.live[ptr].size == a.live[ptr].size && b.live[ptr].site == a.live[ptr].site
    decreases |ops|
  {
    if ops != [] {
      var next := Step(maxLevels, a, ops[0]);
      assert ops[0].FreeOp? ==> ops[0].ptr != ptr;
      assert forall i :: 0 <= i < |ops[1..]| ==> ops[1..][i] == ops[i + 1];
      StaysAllocated(maxLevels, next, ops[1..], ptr);
    }
  }

  method Perform(t: AllocTracker, op: Op)
    requires t.Valid() && Allowed(Tally(t.Live(), |t.traces|), op)
    modifies t, t.log
    ensures t.Valid() && t.log.Limit() == old(t.log.Limit())
    ensures Tally(t.Live(), |t.traces|) == Step(t.maxLevels, Tally(old(t.Live()), |old(t.traces)|), op)
  {
    match op {
      case MallocOp(size, site, block) =>
        var _ := t.Malloc(size, site, block);
      case FreeOp(ptr, site) =>
        Absent(t.Live(), ptr);
        var _ := t.Free(ptr, site);
      case PushOp =>
        t.Push();
      case PopOp =>
        t.Pop();
    }
  }

  lemma Absent(live: map<int, Block>, k: int)
    ensures k !in live ==> live - {k} == live
  {}

  /** Any run of the four operations. */
  method PerformAll(t: AllocTracker, ops: seq<Op>)
    requires t.Valid() && AllAllowed(t.maxLevels, Tally(t.Live(), |t.traces|), ops)
    modifies t, t.log
    ensures t.Valid() && t.log.Limit() == old(t.log.Limit())
    ensures Tally(t.Live(), |t.traces|) == Run(t.maxLevels, Tally(old(t.Live()), |old(t.traces)|), ops)
  {
    ghost var a := Tally(t.Live(), |t.traces|);
    assert ops[0..] == ops;
    for i := 0 to |ops|
      invariant t.Valid() && t.log.Limit() == old(t.log.Limit())
      invariant AllAllowed(t.maxLevels, Tally(t.Live(), |t.traces|), ops[i..])
      invariant Run(t.maxLevels, Tally(t.Live(), |t.traces|), ops[i..]) == Run(t.maxLevels, a, ops)
    {
      assert ops[i..][0] == ops[i] && ops[i..][1..] == ops[i + 1..];
      Perform(t, ops[i]);
    }
    assert ops[|ops|..] == [];
  }

  /** A block that was allocated at some place and not freed in any run of operations
      since is released by free and logged, newest, with its size and that place. */
  method MallocRunFree(t: AllocTracker, size: nat, site: Site, block: nat, ops: seq<Op>, freeSite: Site) returns (r: Outcome)
    requires t.Valid() && size > 0 && block !in t.Live()
    requires AllAllowed(t.maxLevels, Tally(t.Live()[block := Block(size, site, |t.traces| - 1)], |t.traces|), ops)
    requires forall i :: 0 <= i < |ops| && ops[i].FreeOp? ==> ops[i].ptr != block
    modifies t, t.log
    ensures t.Valid() && r == Freed && block !in t.Live()
    ensures t.log.Limit() > 0 ==>
              && t.log.Entries() != []
              && t.log.Entries()[0] == Record(block, size, site, freeSite, |t.traces| - 1)
  {
    ghost var a := Tally(t.Live()[block := Block(size, site, |t.traces| - 1)], |t.traces|);
    StaysAllocated(t.maxLevels, a, ops, block);
    var ptr := t.Malloc(size, site, block);
    PerformAll(t, ops);
    r := FreeLive(t, ptr, freeSite);
  }

  /** Freeing a live block. */
  method FreeLive(t: AllocTracker, ptr: int, freeSite: Site) returns (r: Outcome)
    requires t.Valid() && ptr in t.Live()
    modifies t, t.log
    ensures t.Valid() && r == Freed && t.Live() == old(t.Live()) - {ptr} && ptr >= 0
    ensures var b := old(t.Live())[ptr];
            t.log.Limit() > 0 ==>
              && t.log.Entries() != []
              && t.log.Entries()[0] == Record(ptr, b.size, b.site, freeSite, |t.traces| - 1)
  {
    NoNull(t.mem, t.traces, t.view.lists, t.Live());
    r := t.Free(ptr, freeSite);
  }

  lemma NoNull(mem: map<int, Header>, traces: seq<TracePoint>, lists: seq<seq<int>>, live: map<int, Block>)
    requires Tracked(mem, traces, lists, live)
    ensures forall a :: a in live ==> a >= 0
  {
    forall a | a in live ensures a >= 0 {
      var s := lists[mem[a].level];
      var i: nat :| i < |s| && s[i] == a;
      assert LevelList(mem, traces[mem[a].level].head, s, mem[a].level) && BlockAt(mem, s, i, mem[a].level);
    }
  }

  lemma LevelAdded(mem: map<int, Header>, traces: seq<TracePoint>, lists: seq<seq<int>>, live: map<int, Block>)
    requires Tracked(mem, traces, lists, live)
    ensures Tracked(mem, traces + [TracePoint(NULL, 0, 0)], lists + [[]], live)
  {
    assert (traces + [TracePoint(NULL, 0, 0)])[..|traces|] == traces;
    forall l: nat | l < |lists| ensures LevelList(mem, traces[l].head, lists[l], l) {
    }
  }

  lemma OneTraceIsExact(tp: TracePoint, live: map<int, Block>)
    requires Counted([tp], live)
    ensures tp.currentAlloc == |live| % SIZE_RANGE && tp.currentSize == Bytes(live) % SIZE_RANGE
  {
    assert [tp][..0] == [];
    assert SumAlloc([tp]) == tp.currentAlloc && SumSize([tp]) == tp.currentSize;
  }

  /** With a single level its counters are the live totals modulo the range of size_t. */
  lemma SingleLevelIsExact(t: AllocTracker)
    requires t.Valid() && |t.traces| == 1
    ensures t.traces[0].currentAlloc == |t.Live()| % SIZE_RANGE
    ensures t.traces[0].currentSize == Bytes(t.Live()) % SIZE_RANGE
  {
    assert t.traces == [t.traces[0]];
    OneTraceIsExact(t.traces[0], t.Live());
  }
}
