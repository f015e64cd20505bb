/**
 * `DiskVector<T>` of include/disk_vector.hpp: a vector whose elements live
 * in a memory-mapped file behind a three-word header (size, element size,
 * magic). The mapping is modelled as its byte count together with the live
 * elements; the file-system calls `open` makes are an input that says how
 * each of them answers.
 */
module DiskVectors {
  import opened Wrappers

  /** `header_size()`: `sizeof(Header)`, three `size_t` words. */
  const HeaderSize: nat := 24

  /** `kMagic`, the bytes "DISKVECT". */
  const Magic: nat := 0x544345564b534944

  /** `OpenMode` of include/config.hpp. */
  datatype OpenMode = Load | Create | LoadOrCreate

  /** `OpenCode` of include/config.hpp. */
  datatype OpenCode = OpenFailed | CreateSuccess | LoadSuccess

  /** `Header`: the element count, `sizeof(T)` when written, and the magic. */
  datatype Header = Header(size: nat, elementSize: nat, magic: nat)

  /**
   * What `open` meets on disk: whether the path exists and is a regular
   * file, its size (None when the query fails), whether creating the
   * directories and the file succeeds, whether the resize and the mapping
   * succeed, and the header and elements the mapped file then shows.
   */
  datatype FileState<T> = FileState(present: bool, regular: bool, size: Option<nat>, creatable: bool,
                                    resizable: bool, mappable: bool, header: Header, stored: seq<T>)

  /** `validate_header` of a header, for elements of `elementSize` bytes. */
  predicate HeaderValid(h: Header, elementSize: nat)
  {
    h.magic == Magic && h.elementSize == elementSize
  }

  /** The file is there and large enough to hold a header. */
  predicate Loadable<T>(f: FileState<T>)
  {
    f.present && f.size.Some? && f.size.value >= HeaderSize
  }

  /** The create path succeeds: directories and file made, resized to a chunk, mapped. */
  predicate Creatable<T>(f: FileState<T>)
  {
    f.creatable && f.resizable && f.mappable
  }

  /** The code `open` returns, step by step as its two `switch` statements decide it. */
  function OpenOutcome<T>(mode: OpenMode, f: FileState<T>, elementSize: nat): OpenCode
  {
    match mode
    case Load =>
      if !f.regular || !Loadable(f) || !f.mappable then OpenFailed
      else if HeaderValid(f.header, elementSize) then LoadSuccess
      else OpenFailed
    case LoadOrCreate =>
      if !(Loadable(f) || Creatable(f)) || !f.mappable then OpenFailed
      else if HeaderValid(f.header, elementSize) then LoadSuccess
      else CreateSuccess
    case Create =>
      if !Creatable(f) then OpenFailed else CreateSuccess
  }

  /** `kLoad` only ever loads, and fails on a missing, short or foreign file. */
  lemma OpenLoadOutcomes<T>(f: FileState<T>, elementSize: nat)
    ensures var code := OpenOutcome(Load, f, elementSize);
            && code != CreateSuccess
            && (code == LoadSuccess <==> f.regular && Loadable(f) && f.mappable && HeaderValid(f.header, elementSize))
  {
  }

  /** `kCreate` never loads: it either fails or writes a fresh header. */
  lemma OpenCreateOutcomes<T>(f: FileState<T>, elementSize: nat)
    ensures var code := OpenOutcome(Create, f, elementSize);
            && code != LoadSuccess
            && (code == CreateSuccess <==> Creatable(f))
  {
  }

  /**
   * `kLoadOrCreate` loads a valid file, reinitialises any other, and fails
   * only when the file-system calls do.
   */
  lemma OpenLoadOrCreateOutcomes<T>(f: FileState<T>, elementSize: nat)
    ensures var code := OpenOutcome(LoadOrCreate, f, elementSize);
            && (code == OpenFailed <==> !(Loadable(f) || Creatable(f)) || !f.mappable)
            && (code == LoadSuccess ==> HeaderValid(f.header, elementSize))
            && (Loadable(f) && f.mappable && !HeaderValid(f.header, elementSize) ==> code == CreateSuccess)
  {
  }

  /** `at(index)`: the element, or None where it throws `out_of_range`. */
  function ElementAt<T>(items: seq<T>, index: nat): (r: Option<T>)
    ensures r.None? <==> index >= |items|
  {
    if index < |items| then Some(items[index]) else None
  }

  /** Appending keeps every element `at` answered before and answers the new positions with the appended ones. */
  lemma ElementAtAppend<T>(items: seq<T>, xs: seq<T>, index: nat)
    ensures ElementAt(items + xs, index)
            == if index < |items| then ElementAt(items, index)
               else if index < |items| + |xs| then Some(xs[index - |items|])
               else None
  {
  }

  /** The bytes `reserve(capacity)` maps: header and elements rounded up to whole chunks. */
  function ReservedBytes(capacity: nat, elementSize: nat, chunkBytes: nat): nat
    requires chunkBytes > 0
  {
    (HeaderSize + capacity * elementSize + chunkBytes - 1) / chunkBytes * chunkBytes
  }

  /** `capacity()` for a mapping of `bytes` bytes. */
  function CapacityOf(bytes: nat, elementSize: nat): nat
    requires elementSize > 0 && bytes >= HeaderSize
  {
    (bytes - HeaderSize) / elementSize
  }

  /** Rounding up to whole chunks never loses a byte. */
  lemma RoundUp(x: nat, chunk: nat)
    requires chunk > 0
    ensures (x + chunk - 1) / chunk * chunk >= x
  {
    var q, r := (x + chunk - 1) / chunk, (x + chunk - 1) % chunk;
    assert x + chunk - 1 == q * chunk + r;
  }

  /** A quotient is at least `c` when the dividend holds `c` divisors. */
  lemma QuotientBound(a: nat, c: nat, e: nat)
    requires e > 0 && a >= c * e
    ensures a / e >= c
  {
    var q, r := a / e, a % e;
    assert a == q * e + r;
    if q < c {
      MulMonotone(q + 1, c, e);
      assert false;
    }
  }

  lemma MulMonotone(x: nat, y: nat, e: nat)
    requires x <= y
    ensures x * e <= y * e
  {
  }

  /** After `reserve(capacity)` grows the mapping, the capacity is at least what was asked. */
  lemma ReservedCapacity(capacity: nat, elementSize: nat, chunkBytes: nat)
    requires elementSize > 0 && chunkBytes > 0
    ensures ReservedBytes(capacity, elementSize, chunkBytes) >= HeaderSize
    ensures CapacityOf(ReservedBytes(capacity, elementSize, chunkBytes), elementSize) >= capacity
  {
    var need := HeaderSize + capacity * elementSize;
    RoundUp(need, chunkBytes);
    QuotientBound(ReservedBytes(capacity, elementSize, chunkBytes) - HeaderSize, capacity, elementSize);
  }

  class DiskVector<T> {
    /** The elements `[0, header().size)`. */
    var items: seq<T>
    /** `mmap_.size()`. */
    var mapBytes: nat
    /** `mmap_.is_open()`. */
    var isOpen: bool
    /** The header's `element_size` and `magic` words. */
    var storedElementSize: nat
    var magic: nat
    /** `chunk_bytes_`. */
    const chunkBytes: nat
    /** `sizeof(T)`. */
    const elementSize: nat
    /** What `std::construct_at(it)` leaves in a slot. */
    const blank: T

    ghost predicate Valid()
      reads this
    {
      isOpen && elementSize > 0 && chunkBytes >= HeaderSize && mapBytes >= HeaderSize
    }

    /** `DiskVector(chunk_bytes)`: nothing mapped yet. */
    constructor (chunkBytes: nat, elementSize: nat, blank: T)
      requires elementSize > 0
      ensures !isOpen && this.chunkBytes == chunkBytes && this.elementSize == elementSize && this.blank == blank
    {
      this.chunkBytes := chunkBytes;
      this.elementSize := elementSize;
      this.blank := blank;
      items, mapBytes, isOpen, storedElementSize, magic := [], 0, false, 0, 0;
    }

    /** `size()`. */
    function Size(): nat
      reads this
    {
      |items|
    }

    /** `capacity()`. */
    function Capacity(): nat
      reads this
      requires Valid()
    {
      CapacityOf(mapBytes, elementSize)
    }

    /** `at(index)`. */
    function At(index: nat): (r: Option<T>)
      reads this
      ensures r == ElementAt(items, index)
    {
      if index >= Size() then None else Some(items[index])
    }

    /** `validate_header`. */
    predicate ValidateHeader()
      reads this
    {
      magic == Magic && storedElementSize == elementSize
    }

    /**
     * `open(path, mode)`: the decision table of the two `switch`
     * statements; a failure leaves nothing mapped, a load shows the file's
     * elements, and a creation writes an empty header.
     */
    method Open(mode: OpenMode, f: FileState<T>) returns (code: OpenCode)
      requires elementSize > 0 && chunkBytes >= HeaderSize
      modifies this
      ensures code == OpenOutcome(mode, f, elementSize)
      ensures code == OpenFailed <==> !isOpen
      ensures code == LoadSuccess ==> Valid() && ValidateHeader() && items == f.stored
      ensures code != OpenFailed ==> mapBytes == if mode != Create && Loadable(f) then f.size.value else chunkBytes
      ensures code == CreateSuccess ==> Valid() && ValidateHeader() && items == []
    {
      isOpen := false;
      var loading := false;
      match mode {
        case Load =>
          if !f.present || !f.regular || f.size.None? || f.size.value < HeaderSize {
            return OpenFailed;
          }
          loading := true;
        case LoadOrCreate =>
          loading := f.present && f.size.Some? && f.size.value >= HeaderSize;
          if !loading && (!f.creatable || !f.resizable) {
            return OpenFailed;
          }
        case Create =>
          if !f.creatable || !f.resizable {
            return OpenFailed;
          }
      }
      if !f.mappable {
        return OpenFailed;
      }
      isOpen := true;
      mapBytes := if loading then f.size.value else chunkBytes;
      items, storedElementSize, magic := f.stored, f.header.elementSize, f.header.magic;
      if mode != Create && ValidateHeader() {
        return LoadSuccess;
      }
      if mode == Load {
        isOpen := false;
        return OpenFailed;
      }
      items, storedElementSize, magic := [], elementSize, Magic;
      code := CreateSuccess;
    }

    /** `reserve(capacity)`: nothing when it fits, else a remap to whole chunks. */
    method Reserve(capacity: nat)
      requires Valid()
      modifies this
      ensures Valid() && Capacity() >= capacity
      ensures items == old(items) && isOpen == old(isOpen)
      ensures storedElementSize == old(storedElementSize) && magic == old(magic)
      ensures capacity <= old(Capacity()) ==> mapBytes == old(mapBytes)
      ensures capacity > old(Capacity()) ==> mapBytes == ReservedBytes(capacity, elementSize, chunkBytes)
    {
      if capacity <= Capacity() {
        return;
      }
      var chunkCount := (HeaderSize + capacity * elementSize + chunkBytes - 1) / chunkBytes;
      mapBytes := chunkCount * chunkBytes;
      ReservedCapacity(capacity, elementSize, chunkBytes);
    }

    /**
     * `resize(size)`: new slots default-constructed after a `reserve`,
     * surplus ones destroyed; the size becomes exactly `size`.
     */
    method Resize(size: nat)
      requires Valid()
      modifies this
      ensures Valid() && |items| == size && ValidateHeader() == old(ValidateHeader())
      ensures forall i :: 0 <= i < size && i < |old(items)| ==> items[i] == old(items)[i]
      ensures forall i :: |old(items)| <= i < size ==> items[i] == blank
      ensures isOpen == old(isOpen) && storedElementSize == old(storedElementSize) && magic == old(magic)
      ensures size > |old(items)| && size > old(Capacity()) ==> mapBytes == ReservedBytes(size, elementSize, chunkBytes)
      ensures !(size > |old(items)| && size > old(Capacity())) ==> mapBytes == old(mapBytes)
    {
      if size > |items| {
        Reserve(size);
        var grown := items;
        while |grown| < size
          invariant |old(items)| <= |grown| <= size
          invariant grown[..|old(items)|] == old(items)
          invariant forall i :: |old(items)| <= i < |grown| ==> grown[i] == blank
        {
          grown := grown + [blank];
        }
        items := grown;
      } else {
        items := items[..size];
      }
    }

    /** `clear`: `resize(0)`. */
    method Clear()
      requires Valid()
      modifies this
      ensures Valid() && items == [] && ValidateHeader() == old(ValidateHeader())
      ensures isOpen == old(isOpen) && storedElementSize == old(storedElementSize) && magic == old(magic)
      ensures mapBytes == old(mapBytes)
    {
      Resize(0);
    }

    /**
     * `push_back`, `emplace_back` and the single-value `append`: reserve
     * one more slot, construct the value in it, bump the size.
     */
    method PushBack(value: T)
      requires Valid()
      modifies this
      ensures Valid() && items == old(items) + [value] && Capacity() >= |items|
      ensures ValidateHeader() == old(ValidateHeader())
      ensures isOpen == old(isOpen) && storedElementSize == old(storedElementSize) && magic == old(magic)
      ensures |items| > old(Capacity()) ==> mapBytes == ReservedBytes(|items|, elementSize, chunkBytes)
      ensures |items| <= old(Capacity()) ==> mapBytes == old(mapBytes)
    {
      Reserve(|items| + 1);
      items := items + [value];
    }

    /** The range `append(first, last)`: reserve, copy the range in order, then add its length to the size. */
    method Append(xs: seq<T>)
      requires Valid()
      modifies this
      ensures Valid() && items == old(items) + xs && Capacity() >= |items|
      ensures ValidateHeader() == old(ValidateHeader())
      ensures isOpen == old(isOpen) && storedElementSize == old(storedElementSize) && magic == old(magic)
      ensures |items| > old(Capacity()) ==> mapBytes == ReservedBytes(|items|, elementSize, chunkBytes)
      ensures |items| <= old(Capacity()) ==> mapBytes == old(mapBytes)
    {
      Reserve(|items| + |xs|);
      var staged := items;
      var k := 0;
      while k < |xs|
        invariant 0 <= k <= |xs|
        invariant staged == old(items) + xs[..k]
      {
        staged := staged + [xs[k]];
        assert xs[..k + 1] == xs[..k] + [xs[k]];
        k := k + 1;
      }
      assert xs[..k] == xs;
      items := staged;
    }
  }
}
