/** The growable byte buffer of src/ucb/buffer.c on the heap backend, and the
    doubling growth policy of include/ucb/buffer.h. The allocator has blocks up to
    some size below SIZE_MAX and refuses larger ones. */
module Buffer {
  import opened Utf8

  const SIZE_MAX: nat := 0xFFFF_FFFF_FFFF_FFFF

  // ---------------------------------------------------------------------------
  // Capacities
  // ---------------------------------------------------------------------------

  function Twice(cap: nat): (r: nat)
    requires cap <= SIZE_MAX
    ensures cap <= r <= SIZE_MAX && (r == cap ==> cap == SIZE_MAX)
  {
    if cap == 0 then 1 else if cap <= SIZE_MAX / 2 then cap * 2 else SIZE_MAX
  }

  /** Doubling until total fits, or no further doubling does. */
  function Doubled(cap: nat, total: nat): (r: nat)
    requires cap <= SIZE_MAX
    ensures cap <= r <= SIZE_MAX && (total <= r || r == SIZE_MAX)
    decreases SIZE_MAX - cap
  {
    if total <= cap || cap == SIZE_MAX then cap else Doubled(Twice(cap), total)
  }

  /** The capacity asked for when the buffer is to grow by inc bytes. */
  function Grown(alloc: nat, inc: nat, doubling: bool): nat
    requires alloc <= SIZE_MAX
  {
    if doubling then Doubled(Twice(alloc), alloc + inc) else alloc + inc
  }

  /** The capacity with which total bytes fit. */
  function Capacity(alloc: nat, total: nat, doubling: bool): (r: nat)
    requires alloc <= SIZE_MAX
    ensures alloc <= r && (total <= r || r == SIZE_MAX)
  {
    if total <= alloc then alloc else Grown(alloc, total - alloc, doubling)
  }

  lemma {:induction false} DoubledAgain(cap: nat, t: nat, u: nat)
    requires cap <= SIZE_MAX && t <= u
    ensures Doubled(Doubled(cap, t), u) == Doubled(cap, u)
    decreases SIZE_MAX - cap
  {
    if !(t <= cap || cap == SIZE_MAX) {
      DoubledAgain(Twice(cap), t, u);
    }
  }

  lemma DoubledGrows(cap: nat, t: nat, u: nat)
    requires cap <= SIZE_MAX && t <= u
    ensures Doubled(cap, t) <= Doubled(cap, u)
  {
    DoubledAgain(cap, t, u);
  }

  /** More bytes never take a smaller capacity. */
  lemma CapacityGrows(alloc: nat, t: nat, u: nat, doubling: bool)
    requires alloc <= SIZE_MAX && t <= u
    ensures Capacity(alloc, t, doubling) <= Capacity(alloc, u, doubling)
  {
    DoubledGrows(Twice(alloc), t, u);
  }

  /** Growing in two steps ends with the capacity of growing at once. */
  lemma CapacityInSteps(alloc: nat, t: nat, u: nat, doubling: bool)
    requires alloc <= SIZE_MAX && t <= u && Capacity(alloc, t, doubling) <= SIZE_MAX
    ensures Capacity(Capacity(alloc, t, doubling), u, doubling) == Capacity(alloc, u, doubling)
  {
    if doubling && t > alloc {
      DoubledAgain(Twice(alloc), t, u);
    }
  }

  /** ucb_buffer_grow_double. The new capacity holds the request (unless no
      size_t can), at least doubles, and wastes less than a doubling of the request. */
  method GrowDouble(alloc: nat, needed: nat) returns (cap: nat)
    requires alloc <= SIZE_MAX
    ensures cap == Grown(alloc, needed, true)
    ensures alloc <= cap <= SIZE_MAX
    ensures alloc + needed <= SIZE_MAX ==> alloc + needed <= cap
    ensures alloc + needed > SIZE_MAX ==> cap == SIZE_MAX
    ensures cap == SIZE_MAX || cap >= 2 * alloc
    ensures cap == 1 || cap <= 2 * (alloc + needed)
  {
    cap := alloc;
    if cap == 0 {
      cap := 1;
    } else if cap <= SIZE_MAX / 2 {
      cap := cap * 2;
    } else {
      cap := SIZE_MAX;
    }
    while needed > cap - alloc
      invariant 0 < cap && alloc <= cap <= SIZE_MAX
      invariant Doubled(cap, alloc + needed) == Grown(alloc, needed, true)
      invariant cap == SIZE_MAX || cap >= 2 * alloc
      invariant cap == 1 || cap <= 2 * (alloc + needed)
      decreases SIZE_MAX - cap
    {
      if cap > SIZE_MAX / 2 {
        return SIZE_MAX;
      }
      cap := cap * 2;
    }
  }

  class ByteBuffer {
    var data: array<byte>
    var size: nat
    const doubling: bool
    const largest: nat       // the largest block that the allocator has
    ghost const initial: nat
    ghost var peak: nat      // the largest size so far
    ghost var moved: nat     // the bytes of all blocks that were reallocated so far

    ghost predicate Valid()
      reads this
    {
      size <= data.Length <= largest < SIZE_MAX && size <= peak
    }

    /** What a doubling buffer keeps as long as nobody sets its capacity by hand: it
        is at most twice as large as it ever had to be, and all its reallocations
        together moved no more than its capacity. */
    ghost predicate Amortized()
      reads this
    {
      (data.Length <= initial || data.Length <= 2 * peak) && moved <= data.Length
    }

    /** With that many more bytes the capacity is one that the allocator has. */
    ghost predicate CanHold(more: nat)
      reads this
      requires Valid()
    {
      Capacity(data.Length, size + more, doubling) <= largest
    }

    ghost function Contents(): seq<byte>
      reads this, data
      requires Valid()
    {
      data[..size]
    }

    constructor (capacity: nat, doubling: bool, largest: nat)
      requires 0 < capacity <= largest < SIZE_MAX
      ensures Valid() && Amortized() && fresh(data) && data.Length == capacity
      ensures Contents() == [] && this.doubling == doubling && this.largest == largest
    {
      data := new byte[capacity](_ => 0);
      size, peak, moved, initial := 0, 0, 0, capacity;
      this.doubling, this.largest := doubling, largest;
    }

    /** ucb_buffer_resize: a smaller capacity truncates the contents. */
    method Resize(capacity: nat) returns (ok: bool)
      requires Valid()
      modifies this
      ensures Valid() && ok == (capacity <= largest) && peak == old(peak)
      ensures !ok ==> data == old(data) && size == old(size) && moved == old(moved)
      ensures ok ==> data.Length == capacity && (data == old(data) || fresh(data))
      ensures ok ==> moved == old(moved) + if capacity == old(data.Length) then 0 else old(data.Length)
      ensures Contents() == if !ok || old(size) <= capacity then old(Contents()) else old(Contents())[..capacity]
    {
      ok := data.Length == capacity || capacity <= largest;
      if ok && data.Length != capacity {
        var tmp := new byte[capacity](_ => 0);
        var keep := if size <= capacity then size else capacity;
        forall i | 0 <= i < keep {
          tmp[i] := data[i];
        }
        moved := moved + data.Length;
        data := tmp;
        size := keep;
      }
    }

    /** ucb_buffer_grow: by exactly inc bytes, or by the doubling policy. The first
        alternative refuses a capacity that no size_t holds. */
    method Grow(inc: nat) returns (ok: bool)
      requires Valid()
      modifies this
      ensures Valid() && Contents() == old(Contents()) && size == old(size) && peak == old(peak)
      ensures ok == (Grown(old(data.Length), inc, doubling) <= largest)
      ensures !ok ==> data == old(data) && moved == old(moved)
      ensures ok ==> data.Length == Grown(old(data.Length), inc, doubling) && (data == old(data) || fresh(data))
      ensures ok ==> data.Length >= old(data.Length) + inc
      ensures ok && doubling ==> data.Length == 1 || data.Length <= 2 * (old(data.Length) + inc)
      ensures ok && doubling && old(Amortized()) ==> moved <= data.Length
    {
      if doubling {
        var capacity := GrowDouble(data.Length, inc);
        ok := Resize(capacity);
      } else if inc > SIZE_MAX - data.Length {
        ok := false;
      } else {
        ok := Resize(data.Length + inc);
      }
    }

    /** ucb_buffer_ensure: success means that there is room. */
    method Ensure(needed: nat) returns (ok: bool)
      requires Valid()
      modifies this
      ensures Valid() && Contents() == old(Contents()) && size == old(size)
      ensures ok == old(CanHold(needed))
      ensures !ok ==> data == old(data)
      ensures ok ==> needed <= data.Length - size && (data == old(data) || fresh(data))
      ensures ok ==> data.Length == Capacity(old(data.Length), size + needed, doubling)
    {
      var spare := data.Length - size;
      if needed <= spare {
        return true;
      }
      ok := Grow(needed - spare);
    }

    /** ucb_buffer_push */
    method Push(bytes: seq<byte>) returns (ok: bool)
      requires Valid()
      modifies this, data
      ensures Valid() && ok == old(CanHold(|bytes|))
      ensures Contents() == if ok then old(Contents()) + bytes else old(Contents())
      ensures data == old(data) || fresh(data)
      ensures !ok ==> data == old(data)
      ensures ok ==> data.Length == Capacity(old(data.Length), old(size) + |bytes|, doubling)
      ensures doubling && old(Amortized()) ==> Amortized()
    {
      if |bytes| > 0 {
        var spare := data.Length - size;
        if |bytes| > spare {
          ok := Grow(|bytes| - spare);
          if !ok {
            return;
          }
        }
        Append(bytes);
      }
      ok := true;
    }

    /** The end of ucb_buffer_push: there is room. */
    method Append(bytes: seq<byte>)
      requires Valid() && |bytes| <= data.Length - size
      modifies this`size, this`peak, data
      ensures Valid() && Contents() == old(Contents()) + bytes
      ensures size == old(size) + |bytes| && size <= peak && peak >= old(peak)
    {
      forall i | 0 <= i < |bytes| {
        data[size + i] := bytes[i];
      }
      size := size + |bytes|;
      peak := if peak < size then size else peak;
    }

    /** ucb_buffer_pop: the last bytes, or a refusal. */
    method Pop(count: nat) returns (ok: bool, bytes: seq<byte>)
      requires Valid()
      modifies this`size
      ensures Valid() && ok == (count <= |old(Contents())|)
      ensures ok ==> |bytes| == count && Contents() + bytes == old(Contents())
      ensures !ok ==> Contents() == old(Contents())
      ensures old(Amortized()) ==> Amortized()
    {
      if count > size {
        return false, [];
      }
      ok, bytes := true, data[size - count..size];
      size := size - count;
    }

    /** ucb_buffer_truncate */
    method Truncate(newSize: nat) returns (ok: bool)
      requires Valid()
      modifies this`size
      ensures Valid() && ok == (newSize <= |old(Contents())|)
      ensures Contents() == if ok then old(Contents())[..newSize] else old(Contents())
      ensures old(Amortized()) ==> Amortized()
    {
      ok := newSize <= size;
      if ok {
        size := newSize;
      }
    }

    /** ucb_buffer_clear */
    method Clear()
      requires Valid()
      modifies this`size
      ensures Valid() && Contents() == []
      ensures old(Amortized()) ==> Amortized()
    {
      size := 0;
    }
  }
}
