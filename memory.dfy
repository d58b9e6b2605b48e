/** The user address space as the kernel sees it through ostd's `VmSpace`:
    a page table from page-aligned virtual addresses to frames with
    permission flags, a mutable cursor that maps one frame after another,
    and a fallible reader that copies user bytes into a kernel buffer. */
module Memory {
  import opened Machine

  /** ostd's exclusive upper bound on user virtual addresses
      (128 TiB minus the top page). */
  const MAX_USERSPACE_VADDR: nat := 0x8000_0000_0000 - PAGE_SIZE

  datatype PageFlags = PageFlags(read: bool, write: bool, exec: bool)

  /** `PageFlags::RWX`. */
  const RWX: PageFlags := PageFlags(true, true, true)

  /** One page-table entry: the contents of the mapped frame and its flags. */
  datatype Mapping = Mapping(frame: seq<byte>, flags: PageFlags)

  /** Page table, keyed by the page-aligned virtual address of each page. */
  type PageTable = map<nat, Mapping>

  /** Every entry sits at a page boundary and holds exactly one page. */
  predicate WellFormed(pt: PageTable)
  {
    forall va | va in pt :: va % PAGE_SIZE == 0 && |pt[va].frame| == PAGE_SIZE
  }

  /** The address of the page that contains `va`. */
  function PageBase(va: nat): (base: nat)
    ensures base % PAGE_SIZE == 0
    ensures base <= va < base + PAGE_SIZE
  {
    va / PAGE_SIZE * PAGE_SIZE
  }

  /** The byte a user-space read of `va` would see: present only when the
      page holding `va` is mapped and readable. */
  function ReadByte(pt: PageTable, va: nat): (r: Option<byte>)
    ensures r.Some? ==> PageBase(va) in pt && pt[PageBase(va)].flags.read
  {
    var base := PageBase(va);
    if base in pt && pt[base].flags.read && va - base < |pt[base].frame|
    then Some(pt[base].frame[va - base])
    else None
  }

  /** Every byte of `[addr, addr + len)` is mapped and readable. */
  predicate RangeReadable(pt: PageTable, addr: nat, len: nat)
  {
    forall va | addr <= va < addr + len :: ReadByte(pt, va).Some?
  }

  /** The `len` bytes of user memory starting at `addr`. */
  function UserBytes(pt: PageTable, addr: nat, len: nat): (r: seq<byte>)
    requires RangeReadable(pt, addr, len)
    ensures |r| == len
    ensures forall i | 0 <= i < len :: ReadByte(pt, addr + i) == Some(r[i])
  {
    seq(len, i requires 0 <= i < len => ReadByte(pt, addr + i).value)
  }

  /** `VmSpace::reader`'s range check: the range, computed with a saturating
      add, must end at or below the user-space bound. */
  predicate ReaderRangeOk(addr: nat, len: nat)
  {
    addr + len <= MAX_USERSPACE_VADDR
  }

  /** `VmSpace::cursor_mut`'s range check: both ends page-aligned and the
      range inside user space. */
  predicate CursorRangeOk(start: nat, end: nat)
  {
    start % PAGE_SIZE == 0 && end % PAGE_SIZE == 0 && start <= end <= MAX_USERSPACE_VADDR
  }

  /** A user address space; `table` is its page table together with the
      contents of the mapped frames. */
  class VmSpace {
    var table: PageTable

    /** `VmSpace::new()`: an empty address space. */
    constructor ()
      ensures table == map[]
    {
      table := map[];
    }

    /** `cursor_mut(&(start..end))`: fails unless the range passes the cursor's
        range check. */
    method CursorMut(start: nat, end: nat) returns (c: Option<Cursor>)
      ensures c.Some? <==> CursorRangeOk(start, end)
      ensures c.Some? ==> fresh(c.value) && c.value.space == this
      ensures c.Some? ==> c.value.va == start && c.value.end == end
    {
      if CursorRangeOk(start, end) {
        var cursor := new Cursor(this, start, end);
        c := Some(cursor);
      } else {
        c := None;
      }
    }

    /** `reader(addr, len)`: fails unless the range passes the reader's range
        check; reading itself may still fault page by page. */
    method Reader(addr: nat, len: nat) returns (r: Option<VmReader>)
      ensures r.Some? <==> ReaderRangeOk(addr, len)
      ensures r.Some? ==> fresh(r.value) && r.value.space == this
      ensures r.Some? ==> r.value.cursor == addr && r.value.end == addr + len
    {
      if ReaderRangeOk(addr, len) {
        var reader := new VmReader(this, addr, addr + len);
        r := Some(reader);
      } else {
        r := None;
      }
    }
  }

  /** A mutable page-table cursor over `[va, end)`; each `Map` fills the
      page under the cursor and moves on by one page. */
  class Cursor {
    const space: VmSpace
    var va: nat
    const end: nat

    constructor (space: VmSpace, start: nat, end: nat)
      ensures this.space == space && va == start && this.end == end
    {
      this.space := space;
      va := start;
      this.end := end;
    }

    /** `cursor.map(frame, prop)`: the page under the cursor now maps `frame`
        with `flags` (replacing any earlier entry there); the cursor advances
        one page. Mapping past the cursor's range is a panic in ostd and so
        is excluded here. */
    method Map(frame: seq<byte>, flags: PageFlags)
      requires |frame| == PAGE_SIZE
      requires va + PAGE_SIZE <= end
      modifies this, space
      ensures space.table == old(space.table)[old(va) := Mapping(frame, flags)]
      ensures va == old(va) + PAGE_SIZE
    {
      space.table := space.table[va := Mapping(frame, flags)];
      va := va + PAGE_SIZE;
    }
  }

  /** A fallible reader over the user range `[cursor, end)`. */
  class VmReader {
    const space: VmSpace
    var cursor: nat
    const end: nat

    constructor (space: VmSpace, start: nat, end: nat)
      ensures this.space == space && cursor == start && this.end == end
    {
      this.space := space;
      cursor := start;
      this.end := end;
    }

    /** `read_fallible(&mut VmWriter::from(buf))`: copies as many bytes as both
        sides allow, stopping with a failure at the first byte that is not
        mapped and readable. Nothing outside `buf` is written. */
    method ReadFallible(buf: array<byte>) returns (ok: bool)
      requires cursor <= end
      modifies this, buf
      ensures var n := if end - old(cursor) < buf.Length then end - old(cursor) else buf.Length;
        && (ok <==> RangeReadable(space.table, old(cursor), n))
        && (ok ==> buf[..n] == UserBytes(space.table, old(cursor), n))
        && (ok ==> cursor == old(cursor) + n)
        && buf[n..] == old(buf[n..])
    {
      var n := if end - cursor < buf.Length then end - cursor else buf.Length;
      var start := cursor;
      var i := 0;
      while i < n
        invariant 0 <= i <= n
        invariant cursor == start + i
        invariant RangeReadable(space.table, start, i)
        invariant forall k | 0 <= k < i :: ReadByte(space.table, start + k) == Some(buf[k])
        invariant buf[n..] == old(buf[n..])
      {
        var b := ReadByte(space.table, cursor);
        if b.None? {
          assert !RangeReadable(space.table, start, n);
          return false;
        }
        buf[i] := b.value;
        cursor := cursor + 1;
        i := i + 1;
      }
      assert buf[..n] == UserBytes(space.table, start, n);
      return true;
    }
  }
}
