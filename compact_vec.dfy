/** A growable vector whose backing array is either borrowed from an enclosing
    compact region ("compact" storage, never released by the vector) or owned
    heap memory ("free" storage, released by the vector exactly once).
    Growth always moves the elements to fresh free storage. */
module CompactVecs {
  import opened CompactVecSpec

  /** The capacity `double_buf` grows to. */
  function GrownCapacity(cap: nat): nat
  {
    if cap == 0 then 1 else 2 * cap
  }

  class CompactVec<T(0)> {
    /** The backing array; `isCompact` is the tag of the dual-mode pointer. */
    var buf: array<T>
    var len: nat
    var cap: nat
    var isCompact: bool

    /** The live elements. */
    ghost var Contents: seq<T>
    /** Calls this vector made to the allocator's allocate and deallocate. */
    ghost var allocations: nat
    ghost var deallocations: nat

    ghost predicate Valid()
      reads this, buf
    {
      len <= cap && cap == buf.Length && Contents == buf[..len]
    }

    /** Storage, mode and allocator calls are as they were. */
    twostate predicate SameStorage()
      reads this
    {
      buf == old(buf) && cap == old(cap) && isCompact == old(isCompact) &&
      allocations == old(allocations) && deallocations == old(deallocations)
    }

    /** The effect of one `double_buf`: fresh free storage of the grown capacity,
        one allocation, and one deallocation exactly when the old storage was
        free. */
    twostate predicate Grew()
      reads this
    {
      fresh(buf) && cap == GrownCapacity(old(cap)) && !isCompact &&
      allocations == old(allocations) + 1 &&
      deallocations == old(deallocations) + (if old(isCompact) then 0 else 1)
    }

    /** `new`: empty, free mode, no storage reserved. */
    constructor New()
      ensures Valid() && fresh(buf) && Contents == [] && cap == 0 && !isCompact
      ensures allocations == 0 && deallocations == 0
    {
      buf := new T[0];
      len, cap, isCompact := 0, 0, false;
      Contents := [];
      allocations, deallocations := 0, 0;
    }

    /** `with_capacity`: empty, free mode, `capacity` slots allocated. */
    constructor WithCapacity(capacity: nat)
      ensures Valid() && fresh(buf) && Contents == [] && cap == capacity && !isCompact
      ensures allocations == 1 && deallocations == 0
    {
      buf := new T[capacity];
      len, cap, isCompact := 0, capacity, false;
      Contents := [];
      allocations, deallocations := 1, 0;
    }

    /** `From<Vec<T>>`: adopts the Vec's buffer, of which the first `length`
        slots are live, as free storage without copying. */
    constructor FromVec(storage: array<T>, length: nat)
      requires length <= storage.Length
      ensures Valid() && buf == storage && cap == storage.Length && !isCompact
      ensures Contents == storage[..length]
      ensures allocations == 0 && deallocations == 0
    {
      buf := storage;
      len, cap, isCompact := length, storage.Length, false;
      Contents := storage[..length];
      allocations, deallocations := 0, 0;
    }

    function Len(): (n: nat)
      reads this, buf
      requires Valid()
      ensures n == |Contents|
    {
      len
    }

    function IsEmpty(): (r: bool)
      reads this, buf
      requires Valid()
      ensures r <==> Contents == []
    {
      len == 0
    }

    /** Moves the elements into fresh free storage of the grown capacity,
        releasing the old storage only if it was free. */
    method DoubleBuf()
      requires Valid()
      modifies this
      ensures Valid() && Grew()
      ensures len == old(len) && Contents == old(Contents)
    {
      var newCap := GrownCapacity(cap);
      var newBuf := new T[newCap];
      allocations := allocations + 1;
      // element decompact() is value-preserving: a plain copy
      for i := 0 to len
        modifies newBuf
        invariant forall k :: 0 <= k < i ==> newBuf[k] == buf[k]
      {
        newBuf[i] := buf[i];
      }
      if !isCompact {
        deallocations := deallocations + 1;
      }
      buf, isCompact := newBuf, false;
      cap := newCap;
      assert buf[..len] == old(buf[..len]);
    }

    /** Appends `value`, growing first only when the vector is full. */
    method Push(value: T)
      requires Valid()
      modifies this, buf
      ensures Valid()
      ensures Contents == old(Contents) + [value]
      ensures if old(len) == old(cap) then Grew() else SameStorage()
      ensures old(len) == old(cap) ==> unchanged(old(buf))
    {
      if len == cap {
        DoubleBuf();
      }
      buf[len] := value;
      len := len + 1;
      Contents := Contents + [value];
      assert buf[..len] == old(Contents) + [value];
    }

    /** Removes and returns the last element; nothing on an empty vector. */
    method Pop() returns (r: Option<T>)
      requires Valid()
      modifies this
      ensures Valid() && SameStorage()
      ensures old(len) == 0 ==> r == None && Contents == old(Contents)
      ensures old(len) > 0 ==>
                r == Some(old(Contents)[old(len) - 1]) && Contents == old(Contents)[..old(len) - 1]
    {
      if len == 0 {
        r := None;
      } else {
        len := len - 1;
        r := Some(buf[len]);
        Contents := Contents[..len];
      }
    }

    /** Inserts `value` at `index`, shifting the elements from `index` on up by
        one, top first. Rust's `insert` does not check `index`; callers must
        keep it within the live elements. */
    method Insert(index: nat, value: T)
      requires Valid() && index <= len
      modifies this, buf
      ensures Valid()
      ensures Contents == old(Contents)[..index] + [value] + old(Contents)[index..]
      ensures if old(len) == old(cap) then Grew() else SameStorage()
      ensures old(len) == old(cap) ==> unchanged(old(buf))
    {
      if len == cap {
        DoubleBuf();
      }
      ghost var o := Contents;
      var b, n := buf, len;
      for i := n - index downto 0
        modifies b
        invariant forall k :: 0 <= k < index + i ==> b[k] == o[k]
        invariant forall k :: index + i < k <= n ==> b[k] == o[k - 1]
      {
        b[index + i + 1] := b[index + i];
      }
      b[index] := value;
      len := n + 1;
      Contents := o[..index] + [value] + o[index..];
      assert forall k :: 0 <= k < len ==> Contents[k] == b[k];
    }

    /** Removes and returns the element at `index`, shifting the later elements
        down by one. An out-of-range index is a fatal assertion failure. */
    method Remove(index: nat) returns (r: T)
      requires Valid() && index < len
      modifies this, buf
      ensures Valid() && SameStorage()
      ensures r == old(Contents)[index]
      ensures Contents == old(Contents)[..index] + old(Contents)[index + 1..]
    {
      ghost var o := Contents;
      var b, n := buf, len;
      r := b[index];
      for i := 0 to n - index - 1
        modifies b
        invariant forall k :: 0 <= k < index ==> b[k] == o[k]
        invariant forall k :: index <= k < index + i ==> b[k] == o[k + 1]
        invariant forall k :: index + i <= k < n ==> b[k] == o[k]
      {
        b[index + i] := b[index + i + 1];
      }
      len := n - 1;
      Contents := o[..index] + o[index + 1..];
      assert forall k :: 0 <= k < len ==> Contents[k] == b[k];
    }

    /** Keeps exactly the elements `keep` accepts, in order, then truncates
        away the rejected ones. */
    method Retain(keep: T -> bool)
      requires Valid()
      modifies this, buf
      ensures Valid() && SameStorage()
      ensures Contents == Filter(keep, old(Contents))
    {
      var n := len;
      var del := RetainSlice(buf, n, keep);
      Contents := buf[..n];
      if del > 0 {
        Truncate(n - del);
        assert buf[..n][..n - del] == buf[..n - del];
      }
    }

    /** The loop of `retain` over the slice of live elements: each accepted
        element is swapped down over the rejected ones seen so far, so the
        accepted elements end up first, in order, and `del` counts the
        rejected ones left above them. */
    static method RetainSlice(v: array<T>, n: nat, keep: T -> bool) returns (del: nat)
      requires n <= v.Length
      modifies v
      ensures del <= n
      ensures v[..n - del] == Filter(keep, old(v[..n]))
      ensures forall k :: n - del <= k < n ==> !keep(v[k])
    {
      ghost var o := v[..n];
      del := 0;
      for i := 0 to n
        invariant del <= i
        invariant v[..i - del] == Filter(keep, o[..i])
        invariant forall k :: i - del <= k < i ==> !keep(v[k])
        invariant forall k :: i <= k < n ==> v[k] == o[k]
      {
        FilterStep(keep, o, i);
        var w := i - del;
        ghost var kept := v[..w];
        if !keep(v[i]) {
          del := del + 1;
        } else {
          // v.swap(i - del, i)
          var rejected := v[w];
          v[w] := v[i];
          v[i] := rejected;
          assert v[..w + 1] == kept + [o[i]];
        }
      }
      assert o[..n] == o;
    }

    /** Drops the elements from `desired` on, last first; no effect when
        `desired` is not below the length. */
    method Truncate(desired: nat)
      requires Valid()
      modifies this
      ensures Valid() && SameStorage()
      ensures Contents == if desired < old(len) then old(Contents)[..desired] else old(Contents)
    {
      while desired < len
        invariant Valid() && SameStorage()
        invariant len <= old(len) && Contents == old(Contents)[..len]
        invariant desired < old(len) ==> desired <= len
        invariant desired >= old(len) ==> len == old(len)
        decreases len
      {
        len := len - 1;
        Contents := Contents[..len];
      }
      assert old(Contents)[..old(len)] == old(Contents);
    }

    method Clear()
      requires Valid()
      modifies this
      ensures Valid() && SameStorage()
      ensures Contents == []
    {
      Truncate(0);
    }

    /** `Extend`: pushes every item in order. */
    method Extend(items: seq<T>)
      requires Valid()
      modifies this, buf
      ensures Valid() && Contents == old(Contents) + items
      ensures buf == old(buf) || fresh(buf)
      ensures cap >= old(cap) && (!old(isCompact) ==> !isCompact)
      ensures old(buf)[..old(len)] == old(Contents)
    {
      for j := 0 to |items|
        invariant Valid() && Contents == old(Contents) + items[..j]
        invariant buf == old(buf) || fresh(buf)
        invariant old(buf)[..old(len)] == old(Contents)
        invariant cap >= old(cap) && (!old(isCompact) ==> !isCompact)
      {
        assert items[..j + 1] == items[..j] + [items[j]];
        Push(items[j]);
      }
      assert items[..|items|] == items;
    }

    /** `FromIterator`: reserves the iterator's lower size bound, then pushes
        every item. */
    static method FromIter(items: seq<T>, lowerBound: nat) returns (v: CompactVec<T>)
      ensures fresh(v) && fresh(v.buf) && v.Valid() && v.Contents == items && !v.isCompact
    {
      v := new CompactVec.WithCapacity(lowerBound);
      v.Extend(items);
    }

    /** `Drop`: destroys the live elements, then releases the storage only if
        it is free. */
    method Drop() returns (ghost dropped: seq<T>)
      requires Valid()
      modifies this
      ensures dropped == old(Contents)
      ensures Valid() && buf == old(buf) && cap == old(cap) && isCompact == old(isCompact)
      ensures Contents == old(Contents) && allocations == old(allocations)
      ensures deallocations == old(deallocations) + (if isCompact then 0 else 1)
    {
      dropped := buf[..len];
      if !isCompact {
        deallocations := deallocations + 1;
      }
    }

    /** `is_still_compact` for general elements: the storage is compact and so
        is every live element. */
    function IsStillCompact(elemStillCompact: T -> bool): (r: bool)
      reads this, buf
      requires Valid()
      ensures r <==> isCompact && forall i :: 0 <= i < |Contents| ==> elemStillCompact(Contents[i])
    {
      isCompact && All(buf[..len], elemStillCompact)
    }

    /** `is_still_compact` for `Copy` elements looks only at the storage mode,
        which agrees with the general case since such elements have nothing
        to decompact. */
    function IsStillCompactCopy(): (r: bool)
      reads this, buf
      requires Valid()
      ensures r == IsStillCompact(_ => true)
    {
      isCompact
    }

    /** `dynamic_size_bytes` for general elements: exactly where the last
        element's dynamic part ends in the layout `compact_from` writes, and
        never less than the backing array. */
    function DynamicSizeBytes(elemSize: nat, dyn: T -> nat): (r: nat)
      reads this, buf
      requires Valid()
      ensures r >= cap * elemSize
      ensures len == 0 ==> r == cap * elemSize
      ensures len > 0 ==>
                r == Offsets(cap * elemSize, Sizes(Contents, dyn))[len - 1] + dyn(Contents[len - 1])
    {
      OffsetsContiguous(cap * elemSize, Sizes(buf[..len], dyn));
      DynamicSize(cap, elemSize, Sizes(buf[..len], dyn))
    }

    /** `dynamic_size_bytes` for `Copy` elements: the general size with every
        element's dynamic part empty. */
    function DynamicSizeBytesCopy(elemSize: nat): (r: nat)
      reads this, buf
      requires Valid()
      ensures r == DynamicSizeBytes(elemSize, _ => 0)
    {
      NoDynamicPartsSize(cap, elemSize, Sizes(buf[..len], _ => 0));
      cap * elemSize
    }

    /** `compact_from` for general elements: becomes a compact copy of `source`
        whose backing array is `region`, placing element `i`'s dynamic part at
        `offsets[i]`; `end` is where the last dynamic part ends and equals the
        size `source` reports. */
    method CompactFrom(source: CompactVec<T>, region: array<T>, elemSize: nat, dyn: T -> nat)
      returns (offsets: seq<nat>, end: nat)
      requires source.Valid() && source != this
      requires region.Length == source.cap && region != source.buf
      modifies this, region
      ensures Valid() && buf == region && isCompact
      ensures cap == source.cap && Contents == source.Contents
      ensures allocations == old(allocations) && deallocations == old(deallocations)
      ensures offsets == Offsets(cap * elemSize, Sizes(Contents, dyn))
      ensures end == source.DynamicSizeBytes(elemSize, dyn)
    {
      cap, len := source.cap, source.len;
      buf, isCompact := region, true;
      offsets, end := PlaceElements(source.buf, region, source.len, cap * elemSize, dyn);
      Contents := source.Contents;
    }

    /** The loop of `compact_from`: copies the first `n` elements of `src` into
        `region`, placing element `i`'s dynamic part at a running offset that
        starts at `base` and grows by each copied element's dynamic size. */
    static method PlaceElements(src: array<T>, region: array<T>, n: nat, base: nat, dyn: T -> nat)
      returns (offsets: seq<nat>, end: nat)
      requires n <= src.Length && n <= region.Length && src != region
      modifies region
      ensures region[..n] == src[..n]
      ensures offsets == Offsets(base, Sizes(src[..n], dyn))
      ensures end == base + Sum(Sizes(src[..n], dyn))
    {
      ghost var sizes := Sizes(src[..n], dyn);
      var offset := base;
      offsets := [];
      for i := 0 to n
        invariant forall k :: 0 <= k < i ==> region[k] == src[k]
        invariant |offsets| == i
        invariant forall k :: 0 <= k < i ==> offsets[k] == base + Sum(sizes[..k])
        invariant offset == base + Sum(sizes[..i])
      {
        // the element's own compact_from is value-preserving: a plain copy
        region[i] := src[i];
        offsets := offsets + [offset];
        assert sizes[..i + 1][..i] == sizes[..i];
        offset := offset + dyn(region[i]);
      }
      end := offset;
      assert sizes[..n] == sizes;
    }

    /** `compact_from` for `Copy` elements: a compact copy of `source` whose
        backing array is `region`, made by copying the live elements. */
    method CompactFromCopy(source: CompactVec<T>, region: array<T>)
      requires source.Valid() && source != this
      requires region.Length == source.cap && region != source.buf
      modifies this, region
      ensures Valid() && buf == region && isCompact
      ensures cap == source.cap && Contents == source.Contents
      ensures allocations == old(allocations) && deallocations == old(deallocations)
    {
      cap, len := source.cap, source.len;
      buf, isCompact := region, true;
      var src, n := source.buf, len;
      forall i | 0 <= i < n {
        region[i] := src[i];
      }
      Contents := source.Contents;
    }

    /** `Clone` for general elements: the elements collected into a Vec of
        exactly that many slots, adopted as free storage. */
    method Clone() returns (c: CompactVec<T>)
      requires Valid()
      ensures fresh(c) && fresh(c.buf) && c.Valid() && !c.isCompact
      ensures c.Contents == Contents && c.cap == len
    {
      var storage := new T[len];
      forall i | 0 <= i < len {
        storage[i] := buf[i];
      }
      c := new CompactVec.FromVec(storage, len);
    }

    /** `Clone` for `Copy` elements: fresh storage of the same capacity holding
        a copy of the live elements. */
    method CloneCopy() returns (c: CompactVec<T>)
      requires Valid()
      ensures fresh(c) && fresh(c.buf) && c.Valid() && !c.isCompact
      ensures c.Contents == Contents && c.cap == cap && c.allocations == 1
    {
      c := new CompactVec.WithCapacity(cap);
      var dst, n := c.buf, len;
      forall i | 0 <= i < n {
        dst[i] := buf[i];
      }
      c.len := n;
      c.Contents := buf[..n];
      assert dst[..n] == buf[..n];
    }

    /** `decompact` of the vector itself: compact storage is cloned into free
        storage; free storage is taken over as it is, without copying. */
    method Decompact() returns (d: CompactVec<T>)
      requires Valid()
      ensures fresh(d) && d.Valid() && d.Contents == Contents && !d.isCompact
      ensures isCompact ==> fresh(d.buf)
      ensures !isCompact ==> d.buf == buf && d.cap == cap
    {
      if isCompact {
        d := Clone();
      } else {
        d := new CompactVec.FromVec(buf, len);
      }
    }
  }

  /** The owning iterator `into_iter` produces: it takes over the vector's
      storage, length and capacity, and walks the elements by index. */
  class IntoIter<T(0)> {
    var buf: array<T>
    var len: nat
    var cap: nat
    var index: nat
    var isCompact: bool

    /** The vector's elements when it was consumed. */
    ghost var Elements: seq<T>
    /** Deallocate calls, continuing the consumed vector's count. */
    ghost var deallocations: nat

    ghost predicate Valid()
      reads this, buf
    {
      index <= len <= cap && cap == buf.Length && Elements == buf[..len]
    }

    /** The elements not yet yielded. */
    ghost function Remaining(): seq<T>
      reads this
      requires index <= |Elements|
    {
      Elements[index..]
    }

    /** `into_iter`: the vector's storage is moved into the iterator, not
        copied, and the vector is forgotten. */
    constructor (v: CompactVec<T>)
      requires v.Valid()
      ensures Valid() && buf == v.buf && cap == v.cap && isCompact == v.isCompact
      ensures index == 0 && Elements == v.Contents && Remaining() == v.Contents
      ensures deallocations == v.deallocations
    {
      buf, len, cap := v.buf, v.len, v.cap;
      index, isCompact := 0, v.isCompact;
      Elements := v.Contents;
      deallocations := v.deallocations;
    }

    /** Yields the element at the cursor and advances; nothing once all
        elements have been yielded. */
    method Next() returns (r: Option<T>)
      requires Valid()
      modifies this`index
      ensures Valid()
      ensures old(index) < len ==> r == Some(Elements[old(index)]) && index == old(index) + 1
      ensures old(index) == len ==> r == None && index == old(index)
      ensures Remaining() == if r.Some? then old(Remaining())[1..] else old(Remaining())
    {
      if index < len {
        r := Some(buf[index]);
        index := index + 1;
      } else {
        r := None;
      }
    }

    /** `Drop`: destroys the elements not yet yielded (the slice `DropSlice`
        gives) and releases the storage only if it is free. */
    method Drop() returns (ghost dropped: seq<T>)
      requires Valid()
      modifies this`deallocations
      ensures dropped == Remaining()
      ensures deallocations == old(deallocations) + (if isCompact then 0 else 1)
    {
      var (start, count) := DropSlice(index, len);
      dropped := buf[start..start + count];
      if !isCompact {
        deallocations := deallocations + 1;
      }
    }

    /** `Drop` as `IntoIter::drop` is written: it builds the slice
        `DropSliceAsWritten` gives, but hands `drop_in_place` a mutable
        reference to that shared slice reference, so only the reference is
        dropped and no remaining element is destroyed. The storage is
        released as in `Drop`. */
    method DropAsWritten() returns (ghost dropped: seq<T>)
      requires Valid()
      modifies this`deallocations
      ensures dropped == []
      ensures index < len ==> dropped != Remaining()
      ensures deallocations == old(deallocations) + (if isCompact then 0 else 1)
    {
      var (start, count) := DropSliceAsWritten(index, len);
      dropped := [];
      if !isCompact {
        deallocations := deallocations + 1;
      }
    }
  }

  /** Start and length of the slice `IntoIter::drop` builds, as
      `IntoIter::drop` writes it: `len` slots from the cursor. */
  function DropSliceAsWritten(index: nat, len: nat): (r: (nat, nat))
    ensures r.0 == index && r.0 + r.1 == index + len
  {
    (index, len)
  }

  /** Once the cursor has moved, the slice as written runs `index` slots past
      the live elements. */
  lemma DropSliceAsWrittenOverruns(index: nat, len: nat)
    requires 0 < index <= len
    ensures DropSliceAsWritten(index, len).0 + DropSliceAsWritten(index, len).1 == len + index
    ensures DropSliceAsWritten(index, len).0 + DropSliceAsWritten(index, len).1 > len
  {
  }

  /** Start and length of the slice `IntoIter::drop` should destroy: from the
      cursor to the end of the live elements. */
  function DropSlice(index: nat, len: nat): (r: (nat, nat))
    requires index <= len
    ensures r.0 == index && r.0 + r.1 == len
  {
    (index, len - index)
  }

  // ---------------------------------------------------------------------------
  // Clients: what callers can conclude from the contracts alone.

  /** A push followed by a pop yields the pushed value and restores the elements. */
  method PushThenPop<T(0)>(v: CompactVec<T>, x: T) returns (r: Option<T>)
    requires v.Valid()
    modifies v, v.buf
    ensures v.Valid() && r == Some(x) && v.Contents == old(v.Contents)
  {
    v.Push(x);
    r := v.Pop();
    assert (old(v.Contents) + [x])[..|old(v.Contents)|] == old(v.Contents);
  }

  /** An insert followed by a remove at the same index yields the inserted value
      and restores the elements. */
  method InsertThenRemove<T(0)>(v: CompactVec<T>, i: nat, x: T) returns (r: T)
    requires v.Valid() && i <= v.len
    modifies v, v.buf
    ensures v.Valid() && r == x && v.Contents == old(v.Contents)
  {
    v.Insert(i, x);
    r := v.Remove(i);
    ghost var o := old(v.Contents);
    assert (o[..i] + [x] + o[i..])[..i] + (o[..i] + [x] + o[i..])[i + 1..] == o;
  }

  /** Adopting a Vec's buffer and walking it with the owning iterator yields
      its elements once each, in order. */
  method RoundTrip<T(0)>(storage: array<T>, length: nat) returns (out: seq<T>)
    requires length <= storage.Length
    ensures out == storage[..length]
  {
    var v := new CompactVec.FromVec(storage, length);
    var it := new IntoIter(v);
    out := [];
    while true
      invariant it.Valid() && it.Elements == storage[..length]
      invariant out + it.Remaining() == storage[..length]
      decreases it.len - it.index
    {
      var item := it.Next();
      if item.None? {
        break;
      }
      out := out + [item.value];
    }
  }

  /** Materialising a vector of `Copy` elements into a fresh region yields a
      vector that reports itself still compact and holds the same elements. */
  method Materialize<T(0)>(source: CompactVec<T>) returns (copy: CompactVec<T>)
    requires source.Valid()
    ensures fresh(copy) && copy.Valid() && copy.IsStillCompactCopy()
    ensures copy.Contents == source.Contents && copy.cap == source.cap
  {
    var region := new T[source.cap];
    copy := new CompactVec.New();
    copy.CompactFromCopy(source, region);
  }

  /** From an empty vector: push 10, 20, 30, insert 15 at 1, remove at 2. */
  method InsertRemoveScenario() returns (removed: int, contents: seq<int>)
    ensures removed == 20 && contents == [10, 15, 30]
  {
    var v := new CompactVec<int>.New();
    v.Push(10);
    v.Push(20);
    v.Push(30);
    v.Insert(1, 15);
    assert v.Contents == [10, 15, 20, 30];
    removed := v.Remove(2);
    contents := v.buf[..v.len];
  }

  /** Three pushes into capacity 2 grow once, to 4; dropping the vector then
      matches every allocation with one deallocation. */
  method GrowthScenario() returns (capacity: nat, contents: seq<int>, ghost allocs: nat, ghost frees: nat)
    ensures capacity == 4 && contents == [1, 2, 3]
    ensures allocs == frees == 2
  {
    var v := new CompactVec<int>.WithCapacity(2);
    v.Push(1);
    v.Push(2);
    v.Push(3);
    capacity, contents := v.cap, v.buf[..v.len];
    var _ := v.Drop();
    allocs, frees := v.allocations, v.deallocations;
  }

  /** Retaining the even values of [1, 2, 3, 4, 5] leaves [2, 4]. */
  method RetainScenario() returns (contents: seq<int>)
    ensures contents == [2, 4]
  {
    var s := [1, 2, 3, 4, 5];
    var even := (x: int) => x % 2 == 0;
    var v := CompactVec.FromIter(s, 5);
    v.Retain(even);
    contents := v.buf[..v.len];
    FilterStep(even, s, 0);
    FilterStep(even, s, 1);
    FilterStep(even, s, 2);
    FilterStep(even, s, 3);
    FilterStep(even, s, 4);
    assert s[..0] == [] && s[..5] == s;
  }
}
