/** What the log of freed pointers promises: a list of records, newest first, at
    most one for each pointer, that forgets the oldest when it is full. */
module RecencyList {

  datatype Site = Site(file: string, line: int)
  datatype Record = Record(ptr: nat, size: nat, allocSite: Site, freeSite: Site, level: int)

  /** The list without the record of ptr. */
  function Without(l: seq<Record>, ptr: nat): (r: seq<Record>)
    ensures |r| <= |l|
    ensures forall e :: e in r <==> e in l && e.ptr != ptr
  {
    if l == [] then []
    else if l[0].ptr == ptr then Without(l[1..], ptr)
    else [l[0]] + Without(l[1..], ptr)
  }

  function Truncate(l: seq<Record>, limit: nat): (r: seq<Record>)
    ensures r <= l && |r| <= limit && (|l| <= limit ==> r == l)
  {
    if |l| <= limit then l else l[..limit]
  }

  function Insert(l: seq<Record>, e: Record, limit: nat): seq<Record> {
    Truncate([e] + Without(l, e.ptr), limit)
  }

  predicate Holds(l: seq<Record>, ptr: nat) {
    exists i :: 0 <= i < |l| && l[i].ptr == ptr
  }

  predicate OnePerPointer(l: seq<Record>) {
    l == [] || (!Holds(l[1..], l[0].ptr) && OnePerPointer(l[1..]))
  }

  lemma {:induction false} OnePerPointerMeans(l: seq<Record>)
    ensures OnePerPointer(l) <==> forall i, j :: 0 <= i < j < |l| ==> l[i].ptr != l[j].ptr
  {
    if l != [] {
      var t := l[1..];
      OnePerPointerMeans(t);
      if OnePerPointer(l) {
        forall i, j | 0 <= i < j < |l| ensures l[i].ptr != l[j].ptr {
          assert t[j - 1] == l[j];
          if i > 0 {
            assert t[i - 1] == l[i];
          }
        }
      } else {
        assert forall i :: 0 <= i < |t| ==> t[i] == l[i + 1];
      }
    }
  }

  lemma {:induction false} WithoutAbsent(l: seq<Record>, ptr: nat)
    requires !Holds(l, ptr)
    ensures Without(l, ptr) == l
  {
    if l != [] {
      var t := l[1..];
      forall i | 0 <= i < |t| ensures t[i].ptr != ptr {
        assert t[i] == l[i + 1];
      }
      WithoutAbsent(t, ptr);
      assert l[0].ptr != ptr;
    }
  }

  lemma Decapitate(l: seq<Record>, k: nat)
    requires 0 < k < |l|
    ensures l[..k] + l[k + 1..] == [l[0]] + (l[1..][..k - 1] + l[1..][k..])
  {}

  /** Deleting a pointer deletes one record. */
  lemma {:induction false} WithoutAt(l: seq<Record>, k: nat)
    requires k < |l| && OnePerPointer(l)
    ensures Without(l, l[k].ptr) == l[..k] + l[k + 1..]
  {
    if k == 0 {
      WithoutAbsent(l[1..], l[k].ptr);
      assert l[..k] + l[k + 1..] == l[1..];
    } else {
      WithoutAt(l[1..], k - 1);
      Decapitate(l, k);
    }
  }

  lemma {:induction false} WithoutKeeps(l: seq<Record>, ptr: nat)
    requires OnePerPointer(l)
    ensures OnePerPointer(Without(l, ptr)) && !Holds(Without(l, ptr), ptr)
  {
    if l != [] {
      WithoutKeeps(l[1..], ptr);
      var rest := Without(l[1..], ptr);
      forall i | 0 <= i < |rest| ensures rest[i].ptr != l[0].ptr {
        assert rest[i] in l[1..];
      }
      var w := [l[0]] + rest;
      assert w[1..] == rest;
      assert forall i :: 0 < i < |w| ==> w[i] == rest[i - 1];
    }
  }

  /** Making room by dropping the oldest record is what truncation does. */
  lemma InsertEvicts(l: seq<Record>, e: Record, limit: nat)
    requires |l| <= limit && limit > 0
    ensures Truncate([e] + l, limit) == [e] + (if |l| < limit then l else l[..|l| - 1])
  {}

  lemma WithoutLast(l: seq<Record>)
    requires l != [] && OnePerPointer(l)
    ensures Without(l, l[|l| - 1].ptr) == l[..|l| - 1]
  {
    WithoutAt(l, |l| - 1);
  }

  lemma OnePerPointerFront(e: Record, l: seq<Record>)
    requires OnePerPointer(l) && !Holds(l, e.ptr)
    ensures OnePerPointer([e] + l)
  {
    assert ([e] + l)[1..] == l;
  }

  // ---------------------------------------------------------------------------
  // Whole runs
  // ---------------------------------------------------------------------------

  datatype Operation = InsertOp(e: Record) | RemoveOp(ptr: nat) | ClearOp

  function Step(l: seq<Record>, op: Operation, limit: nat): seq<Record> {
    match op
    case InsertOp(e) => Insert(l, e, limit)
    case RemoveOp(ptr) => Without(l, ptr)
    case ClearOp => []
  }

  /** The log after a run of operations on an empty log of the given capacity. */
  function Run(ops: seq<Operation>, limit: nat): seq<Record> {
    if ops == [] then [] else Step(Run(ops[..|ops| - 1], limit), ops[|ops| - 1], limit)
  }

  /** The same run on a log that never forgets. */
  function History(ops: seq<Operation>): seq<Record> {
    if ops == [] then []
    else
      var l := History(ops[..|ops| - 1]);
      match ops[|ops| - 1]
      case InsertOp(e) => [e] + Without(l, e.ptr)
      case RemoveOp(ptr) => Without(l, ptr)
      case ClearOp => []
  }

  datatype Maybe = None | Some(rec: Record)

  /** The last free of ptr, unless the address was handed out again or the log was
      cleared since: read off the run without keeping any list. */
  function LastFree(ops: seq<Operation>, ptr: nat): Maybe {
    if ops == [] then None
    else
      match ops[|ops| - 1]
      case InsertOp(e) => if e.ptr == ptr then Some(e) else LastFree(ops[..|ops| - 1], ptr)
      case RemoveOp(p) => if p == ptr then None else LastFree(ops[..|ops| - 1], ptr)
      case ClearOp => None
  }

  lemma {:induction false} HistoryIsLastFree(ops: seq<Operation>, e: Record)
    ensures e in History(ops) <==> LastFree(ops, e.ptr) == Some(e)
  {
    if ops != [] {
      HistoryIsLastFree(ops[..|ops| - 1], e);
    }
  }

  lemma {:induction false} RunOnePerPointer(ops: seq<Operation>, limit: nat)
    ensures OnePerPointer(Run(ops, limit)) && |Run(ops, limit)| <= limit
  {
    if ops != [] {
      var l := Run(ops[..|ops| - 1], limit);
      RunOnePerPointer(ops[..|ops| - 1], limit);
      match ops[|ops| - 1]
      case InsertOp(e) =>
        WithoutKeeps(l, e.ptr);
        OnePerPointerFront(e, Without(l, e.ptr));
        TruncateKeeps([e] + Without(l, e.ptr), limit);
      case RemoveOp(ptr) => WithoutKeeps(l, ptr);
      case ClearOp =>
    }
  }

  lemma TruncateKeeps(l: seq<Record>, limit: nat)
    requires OnePerPointer(l)
    ensures OnePerPointer(Truncate(l, limit))
  {
    OnePerPointerMeans(l);
    OnePerPointerMeans(Truncate(l, limit));
  }

  lemma {:induction false} WithoutPrefix(l: seq<Record>, m: seq<Record>, ptr: nat)
    requires l <= m
    ensures Without(l, ptr) <= Without(m, ptr)
  {
    if l != [] {
      WithoutPrefix(l[1..], m[1..], ptr);
    }
  }

  /** The bounded log is always the newest part of the full history. */
  lemma {:induction false} RunIsPrefix(ops: seq<Operation>, limit: nat)
    ensures Run(ops, limit) <= History(ops)
  {
    if ops != [] {
      var l, m := Run(ops[..|ops| - 1], limit), History(ops[..|ops| - 1]);
      RunIsPrefix(ops[..|ops| - 1], limit);
      match ops[|ops| - 1]
      case InsertOp(e) => WithoutPrefix(l, m, e.ptr);
      case RemoveOp(ptr) => WithoutPrefix(l, m, ptr);
      case ClearOp =>
    }
  }

  /** Nothing in the log is stale: a record that is found is the last free of its
      pointer. */
  lemma FoundIsLastFree(ops: seq<Operation>, limit: nat, e: Record)
    requires e in Run(ops, limit)
    ensures LastFree(ops, e.ptr) == Some(e)
  {
    RunIsPrefix(ops, limit);
    HistoryIsLastFree(ops, e);
  }

  /** At most this many pointers were waiting in the history at any time of the run. */
  predicate Fits(ops: seq<Operation>, limit: nat) {
    |History(ops)| <= limit && (ops == [] || Fits(ops[..|ops| - 1], limit))
  }

  /** As long as the history fits, the log finds a record exactly if one is due. */
  lemma {:induction false} FittingRunIsHistory(ops: seq<Operation>, limit: nat)
    requires Fits(ops, limit)
    ensures Run(ops, limit) == History(ops)
  {
    if ops != [] {
      FittingRunIsHistory(ops[..|ops| - 1], limit);
    }
  }

  lemma InsertMembers(l: seq<Record>, e: Record, limit: nat)
    ensures forall x :: x in Insert(l, e, limit) ==> x == e || (x in l && x.ptr != e.ptr)
    ensures limit > 0 ==> e in Insert(l, e, limit)
  {
    var m := [e] + Without(l, e.ptr);
    assert m[0] == e;
    assert forall x :: x in m ==> x == e || x in Without(l, e.ptr);
    if limit > 0 {
      assert Insert(l, e, limit)[0] == e;
    }
  }
}
