/** The loader (`create_vm_space`): rounds the image length up to whole pages,
    allocates that many frames, copies the image to offset 0 of the segment,
    and maps the frames one after another at `MAP_ADDR` with RWX permission. */
module Loader {
  import opened Machine
  import opened Layout
  import opened Memory

  /** Why building the address space can fail; both are `unwrap()` panics at boot. */
  datatype BootFault =
    | AllocationFailure   // `alloc_segment(..).unwrap()`
    | MappingViolation    // `cursor_mut(..).unwrap()`

  /** Stand-in for `FrameAllocOptions::new().alloc_segment(nframes)`: the
      allocator has `freeFrames` frames left and hands out zero-filled frames
      (ostd's default allocation option). */
  function AllocSegment(nframes: nat, freeFrames: nat): (r: Option<seq<byte>>)
    ensures r.Some? <==> nframes <= freeFrames
    ensures r.Some? ==> |r.value| == nframes * PAGE_SIZE
    ensures r.Some? ==> forall i | 0 <= i < |r.value| :: r.value[i] == 0
  {
    if nframes <= freeFrames then Some(seq(nframes * PAGE_SIZE, _ => 0)) else None
  }

  /** `segment.write_bytes(offset, data)`: fails when `data` does not fit;
      otherwise `data` lands at `offset` and every other byte is kept. */
  function WriteBytes(seg: seq<byte>, offset: nat, data: seq<byte>): (r: Option<seq<byte>>)
    ensures r.Some? <==> offset + |data| <= |seg|
    ensures r.Some? ==> |r.value| == |seg|
    ensures r.Some? ==> r.value[offset..offset + |data|] == data
    ensures r.Some? ==> r.value[..offset] == seg[..offset]
    ensures r.Some? ==> r.value[offset + |data|..] == seg[offset + |data|..]
  {
    if offset + |data| <= |seg| then Some(seg[..offset] + data + seg[offset + |data|..]) else None
  }

  /** The segment contents once the image is written: the image, then zero
      padding up to the page boundary. */
  function Image(program: seq<byte>): seq<byte>
  {
    program + seq(AlignUp(|program|) - |program|, _ => 0)
  }

  /** The `i`-th frame of a segment. */
  function Frame(seg: seq<byte>, i: nat): (f: seq<byte>)
    requires (i + 1) * PAGE_SIZE <= |seg|
    ensures |f| == PAGE_SIZE
  {
    seg[i * PAGE_SIZE..(i + 1) * PAGE_SIZE]
  }

  /** The page table after the first `n` frames of `seg` have been mapped
      from `MAP_ADDR` upwards. */
  function LoadedPrefix(seg: seq<byte>, n: nat): PageTable
    requires n * PAGE_SIZE <= |seg|
  {
    map va | MAP_ADDR <= va < MAP_ADDR + n * PAGE_SIZE && va % PAGE_SIZE == 0
      :: Mapping(Frame(seg, (va - MAP_ADDR) / PAGE_SIZE), RWX)
  }

  /** The page table `create_vm_space` builds for `program`. */
  function LoadedTable(program: seq<byte>): PageTable
  {
    LoadedPrefix(Image(program), PageCount(|program|))
  }

  /** Two page-aligned addresses less than a page apart are equal. */
  lemma AlignedUnique(a: nat, b: nat, va: nat)
    requires a % PAGE_SIZE == 0 && b % PAGE_SIZE == 0
    requires a <= va < a + PAGE_SIZE && b <= va < b + PAGE_SIZE
    ensures a == b
  {
    var qa, qb := a / PAGE_SIZE, b / PAGE_SIZE;
    assert a == qa * PAGE_SIZE && b == qb * PAGE_SIZE;
    assert qa <= qb && qb <= qa;
  }

  /** The page holding the `k`-th byte of the segment is the `k / PAGE_SIZE`-th
      page from `MAP_ADDR`. */
  lemma PageBaseInSegment(k: nat)
    ensures PageBase(MAP_ADDR + k) == MAP_ADDR + k / PAGE_SIZE * PAGE_SIZE
    ensures MAP_ADDR + k - PageBase(MAP_ADDR + k) == k % PAGE_SIZE
  {
    var b := MAP_ADDR + k / PAGE_SIZE * PAGE_SIZE;
    assert b % PAGE_SIZE == 0;
    AlignedUnique(PageBase(MAP_ADDR + k), b, MAP_ADDR + k);
  }

  /** Mapping frame `i` at the cursor extends the prefix table by one page. */
  lemma LoadedPrefixStep(seg: seq<byte>, i: nat)
    requires (i + 1) * PAGE_SIZE <= |seg|
    ensures LoadedPrefix(seg, i)[MAP_ADDR + i * PAGE_SIZE := Mapping(Frame(seg, i), RWX)]
         == LoadedPrefix(seg, i + 1)
  {
    var before := LoadedPrefix(seg, i);
    var after := LoadedPrefix(seg, i + 1);
    var va0 := MAP_ADDR + i * PAGE_SIZE;
    assert (va0 - MAP_ADDR) / PAGE_SIZE == i;
    assert va0 in after;
    forall va | va in after && va != va0
      ensures va in before && before[va] == after[va]
    {
      assert va < va0;
    }
    assert before[va0 := Mapping(Frame(seg, i), RWX)] == after;
  }

  /** The prefix table has exactly one entry per frame mapped so far. */
  lemma {:induction false} LoadedPrefixSize(seg: seq<byte>, n: nat)
    requires n * PAGE_SIZE <= |seg|
    ensures |LoadedPrefix(seg, n).Keys| == n
  {
    if n == 0 {
      assert LoadedPrefix(seg, 0).Keys == {};
    } else {
      var prev := LoadedPrefix(seg, n - 1);
      var va0 := MAP_ADDR + (n - 1) * PAGE_SIZE;
      LoadedPrefixSize(seg, n - 1);
      LoadedPrefixStep(seg, n - 1);
      assert va0 !in prev;
      assert prev[va0 := Mapping(Frame(seg, n - 1), RWX)].Keys == prev.Keys + {va0};
    }
  }

  /** `create_vm_space(program)`; `freeFrames` is what the frame allocator
      can still hand out. */
  method CreateVmSpace(program: seq<byte>, freeFrames: nat) returns (r: Result<VmSpace, BootFault>)
    ensures r == Err(AllocationFailure) <==> PageCount(|program|) > freeFrames
    ensures r == Err(MappingViolation) <==>
      PageCount(|program|) <= freeFrames && !CursorRangeOk(MAP_ADDR, MAP_ADDR + AlignUp(|program|))
    ensures r.Ok? ==> fresh(r.value) && r.value.table == LoadedTable(program)
  {
    var nbytes := AlignUp(|program|);
    var segment := AllocSegment(nbytes / PAGE_SIZE, freeFrames);
    if segment.None? {
      return Err(AllocationFailure);
    }
    var written := WriteBytes(segment.value, 0, program);
    SegmentHoldsImage(program, freeFrames);
    var userPages := written.value;

    var space := new VmSpace();
    var cursor := space.CursorMut(MAP_ADDR, MAP_ADDR + nbytes);
    if cursor.None? {
      return Err(MappingViolation);
    }
    var c := cursor.value;
    var i := 0;
    while i < nbytes / PAGE_SIZE
      invariant 0 <= i <= nbytes / PAGE_SIZE
      invariant c.space == space && c.end == MAP_ADDR + nbytes
      invariant c.va == MAP_ADDR + i * PAGE_SIZE
      invariant space.table == LoadedPrefix(userPages, i)
    {
      c.Map(Frame(userPages, i), RWX);
      LoadedPrefixStep(userPages, i);
      i := i + 1;
    }
    return Ok(space);
  }

  /** The loaded table maps exactly `⌈|program| / PAGE_SIZE⌉` pages: no frame
      is lost and none is mapped over another. */
  lemma LoadedPageCount(program: seq<byte>)
    ensures |LoadedTable(program).Keys| == PageCount(|program|)
  {
    LoadedPrefixSize(Image(program), PageCount(|program|));
  }

  /** The mapped virtual range is exactly the page-aligned addresses of
      `[MAP_ADDR, MAP_ADDR + AlignUp(|program|))`, and every entry is a
      whole page with RWX permission. */
  lemma LoadedDomain(program: seq<byte>, va: nat)
    ensures va in LoadedTable(program) <==>
      MAP_ADDR <= va < MAP_ADDR + AlignUp(|program|) && va % PAGE_SIZE == 0
    ensures va in LoadedTable(program) ==> LoadedTable(program)[va].flags == RWX
    ensures WellFormed(LoadedTable(program))
  {
  }

  /** Page `i` of the segment is mapped at `MAP_ADDR + i * PAGE_SIZE`. */
  lemma LoadedPage(program: seq<byte>, i: nat)
    requires i < PageCount(|program|)
    ensures MAP_ADDR + i * PAGE_SIZE in LoadedTable(program)
    ensures LoadedTable(program)[MAP_ADDR + i * PAGE_SIZE]
         == Mapping(Image(program)[i * PAGE_SIZE..(i + 1) * PAGE_SIZE], RWX)
  {
    assert (MAP_ADDR + i * PAGE_SIZE - MAP_ADDR) / PAGE_SIZE == i;
  }

  /** The byte at `MAP_ADDR + k` of the loaded space is `program[k]`, for
      every `k` below the image length. */
  lemma LoadedBytes(program: seq<byte>, k: nat)
    requires k < |program|
    ensures ReadByte(LoadedTable(program), MAP_ADDR + k) == Some(program[k])
  {
    SegmentByte(program, k);
  }

  /** Reading the first `n` bytes at `MAP_ADDR` succeeds and returns the
      first `n` bytes of the image. */
  lemma LoadedPrefixBytes(program: seq<byte>, n: nat)
    requires n <= |program|
    ensures RangeReadable(LoadedTable(program), MAP_ADDR, n)
    ensures UserBytes(LoadedTable(program), MAP_ADDR, n) == program[..n]
  {
    forall va | MAP_ADDR <= va < MAP_ADDR + n
      ensures ReadByte(LoadedTable(program), va) == Some(program[va - MAP_ADDR])
    {
      LoadedBytes(program, va - MAP_ADDR);
    }
  }

  /** Between the image end and the page boundary the loaded space reads as
      zero; this rests on the allocator handing out zeroed frames. */
  lemma LoadedPadding(program: seq<byte>, k: nat)
    requires |program| <= k < AlignUp(|program|)
    ensures ReadByte(LoadedTable(program), MAP_ADDR + k) == Some(0)
  {
    SegmentByte(program, k);
  }

  /** Shared step of LoadedBytes and LoadedPadding: the byte at
      `MAP_ADDR + k` is byte `k` of the written segment. */
  lemma SegmentByte(program: seq<byte>, k: nat)
    requires k < AlignUp(|program|)
    ensures ReadByte(LoadedTable(program), MAP_ADDR + k) == Some(Image(program)[k])
  {
    var img := Image(program);
    var q, off := k / PAGE_SIZE, k % PAGE_SIZE;
    assert k == q * PAGE_SIZE + off;
    assert q < PageCount(|program|);
    PageBaseInSegment(k);
    LoadedPage(program, q);
    var frame := img[q * PAGE_SIZE..(q + 1) * PAGE_SIZE];
    assert frame[off] == img[k];
  }

  /** No address outside the mapped range can be read. */
  lemma LoadedOutside(program: seq<byte>, va: nat)
    requires va < MAP_ADDR || MAP_ADDR + AlignUp(|program|) <= va
    ensures ReadByte(LoadedTable(program), va) == None
  {
    var base := PageBase(va);
    LoadedDomain(program, base);
    if MAP_ADDR + AlignUp(|program|) <= va {
      var end := MAP_ADDR + AlignUp(|program|);
      assert end == end / PAGE_SIZE * PAGE_SIZE;
      assert base == base / PAGE_SIZE * PAGE_SIZE;
      assert end / PAGE_SIZE <= base / PAGE_SIZE;
    }
  }

  /** The image written to offset 0 of a freshly allocated segment is exactly
      `Image(program)`: the image followed by zero padding. */
  lemma SegmentHoldsImage(program: seq<byte>, freeFrames: nat)
    requires PageCount(|program|) <= freeFrames
    ensures var seg := AllocSegment(PageCount(|program|), freeFrames);
      seg.Some? && WriteBytes(seg.value, 0, program) == Some(Image(program))
  {
    var seg := AllocSegment(PageCount(|program|), freeFrames).value;
    assert seg[|program|..] == seq(AlignUp(|program|) - |program|, _ => 0);
    assert seg[..0] + program + seg[|program|..] == Image(program);
  }
}
