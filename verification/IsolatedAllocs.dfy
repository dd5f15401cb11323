/** The page allocator itself, updated in place. Mapping memory is an oracle: the caller supplies the
    address that the next mapping would get. */
module IsolatedAllocs {
  import opened Wrappers
  import opened PowersOfTwo
  import opened AllocationPages

  datatype Region = Region(start: nat, size: nat)

  predicate RegionsApart(a: Region, b: Region) {
    Apart(a.start, a.size, b.start, b.size)
  }

  /** A live huge block in its mapped region. */
  ghost predicate InRegion(pageSize: nat, r: Region, b: Block)
    requires pageSize > 0
  {
    && Sound(b.layout) && IsHuge(pageSize, b.layout) && b.ptr % b.layout.align == 0
    && r.size == HugeSize(pageSize, b.layout)
    && r.start <= b.ptr && b.ptr + b.layout.size <= r.start + r.size
  }

  predicate Within(start: nat, size: nat, b: Block) {
    start <= b.ptr && b.ptr + b.layout.size <= start + size
  }

  ghost function LiveBlocks(small: seq<set<Block>>, huge: seq<Block>): set<Block> {
    (set i, b | 0 <= i < |small| && b in small[i] :: b) + (set b | b in huge)
  }

  class IsolatedAlloc {
    const pageSize: nat
    var pagePtrs: seq<nat>
    var pageInfos: seq<set<nat>>
    var hugePtrs: seq<Region>

    /** The live blocks of every page, and the live block of every huge region. */
    ghost var small: seq<set<Block>>
    ghost var huge: seq<Block>

    /** Whether this allocator holds the bytes of a block. */
    ghost predicate Holds(b: Block)
      reads this
    {
      || (exists i :: 0 <= i < |pagePtrs| && Within(pagePtrs[i], pageSize, b))
      || (exists i :: 0 <= i < |hugePtrs| && Within(hugePtrs[i].start, hugePtrs[i].size, b))
    }

    ghost predicate PagesOk()
      reads this
    {
      && IsPowerOfTwo(pageSize) && pageSize % CHUNK == 0 && pageSize > 0
      && |pageInfos| == |pagePtrs| == |small|
      && (forall i :: 0 <= i < |pagePtrs| ==> pagePtrs[i] % pageSize == 0)
      && (forall i :: 0 <= i < |pagePtrs| ==> PageOk(pageSize, pagePtrs[i], pageInfos[i], small[i]))
    }

    ghost predicate HugeOk()
      reads this
    {
      && pageSize > 0 && |hugePtrs| == |huge|
      && (forall i :: 0 <= i < |hugePtrs| ==> InRegion(pageSize, hugePtrs[i], huge[i]))
    }

    ghost predicate OwnedOk()
      reads this
    {
      && (forall i, j :: 0 <= i < j < |pagePtrs| ==> Apart(pagePtrs[i], pageSize, pagePtrs[j], pageSize))
      && (forall i, j :: 0 <= i < j < |hugePtrs| ==> RegionsApart(hugePtrs[i], hugePtrs[j]))
      && (forall i, j :: 0 <= i < |pagePtrs| && 0 <= j < |hugePtrs| ==>
            Apart(pagePtrs[i], pageSize, hugePtrs[j].start, hugePtrs[j].size))
    }

    ghost predicate Consistent()
      reads this
    {
      PagesOk() && HugeOk() && OwnedOk()
    }

    /** Between operations, no page is held without a live block on it. */
    ghost predicate Valid()
      reads this
    {
      Consistent() && forall i :: 0 <= i < |small| ==> small[i] != {}
    }

    /** All live allocations. */
    ghost function Live(): set<Block>
      reads this
    {
      LiveBlocks(small, huge)
    }

    constructor (pageSize: nat)
      requires IsPowerOfTwo(pageSize) && pageSize >= CHUNK
      ensures Valid() && this.pageSize == pageSize && Live() == {}
    {
      this.pageSize := pageSize;
      pagePtrs, pageInfos, hugePtrs := [], [], [];
      small, huge := [], [];
      assert CHUNK == Exp2(2);
      PowersDivide(CHUNK, pageSize);
    }

    /** What a successful mapping promises: a page-aligned region apart from all that is held. */
    ghost predicate Mappable(start: nat, size: nat)
      reads this
    {
      && pageSize > 0 && start % pageSize == 0
      && (forall i :: 0 <= i < |pagePtrs| ==> Apart(pagePtrs[i], pageSize, start, size))
      && (forall i :: 0 <= i < |hugePtrs| ==> RegionsApart(hugePtrs[i], Region(start, size)))
    }

    // What the invariant says about live blocks.

    /** Live blocks do not overlap, are aligned, and lie in memory that is held. */
    lemma LiveIsSafe(b: Block, c: Block)
      requires Consistent() && b in Live() && c in Live()
      ensures Sound(b.layout) && b.ptr % b.layout.align == 0 && Holds(b)
      ensures b != c ==> BlocksApart(b, c)
    {
    }

    /** What the caller of `Allocate` gets: aligned memory of at least the size asked for. */
    lemma AllocatedIsUsable(ptr: nat, wanted: Layout, c: Block)
      requires Consistent() && wanted.size > 0 && IsPowerOfTwo(wanted.align)
      requires Block(ptr, NormalizedLayout(wanted)) in Live() && c in Live()
      ensures wanted.align > 0 && ptr % wanted.align == 0
      ensures c != Block(ptr, NormalizedLayout(wanted)) ==> Apart(ptr, wanted.size, c.ptr, c.layout.size)
    {
      NormalizedIsLeast(wanted, NormalizedLayout(wanted));
      LiveIsSafe(Block(ptr, NormalizedLayout(wanted)), c);
      ModTransitive(ptr, NormalizedLayout(wanted).align, wanted.align);
    }

    /** A block is live in one place only. */
    lemma OnePlace(b: Block)
      requires Consistent()
      ensures forall i, j :: 0 <= i < |small| && 0 <= j < |small| && b in small[i] && b in small[j] ==> i == j
      ensures forall i, j :: 0 <= i < |huge| && 0 <= j < |huge| && b == huge[i] == huge[j] ==> i == j
      ensures forall i :: 0 <= i < |small| && b in small[i] ==> b !in huge
    {
    }

    /** Some live block lies in this memory. */
    ghost predicate InUse(start: nat, size: nat)
      reads this
    {
      exists b :: b in Live() && Within(start, size, b)
    }

    /** Memory is held exactly for live blocks, so nothing is held once everything is freed. */
    lemma NothingLeaks()
      requires Valid()
      ensures forall i :: 0 <= i < |pagePtrs| ==> InUse(pagePtrs[i], pageSize)
      ensures forall i :: 0 <= i < |hugePtrs| ==> InUse(hugePtrs[i].start, hugePtrs[i].size)
      ensures Live() == {} <==> pagePtrs == [] && hugePtrs == []
    {
      forall i | 0 <= i < |pagePtrs| ensures InUse(pagePtrs[i], pageSize) {
        assert small[i] != {};
        var b :| b in small[i];
        assert b in Live() && Within(pagePtrs[i], pageSize, b);
      }
      forall i | 0 <= i < |hugePtrs| ensures InUse(hugePtrs[i].start, hugePtrs[i].size) {
        assert huge[i] in Live() && Within(hugePtrs[i].start, hugePtrs[i].size, huge[i]);
      }
      if pagePtrs != [] {
        assert InUse(pagePtrs[0], pageSize);
      }
      if hugePtrs != [] {
        assert InUse(hugePtrs[0].start, hugePtrs[0].size);
      }
    }

    /** The first aligned offset with free bits from there on. */
    method FindRoom(info: set<nat>, layout: Layout) returns (found: Option<nat>)
      requires Sound(layout) && pageSize % CHUNK == 0
      ensures found.None? ==> forall o: nat :: !Room(pageSize, info, layout, o)
      ensures found.Some? ==> Room(pageSize, info, layout, found.value)
      ensures found.Some? ==> forall o: nat :: o < found.value ==> !Room(pageSize, info, layout, o)
    {
      var offset := 0;
      var bits := layout.size / CHUNK;
      while offset < pageSize
        invariant offset % layout.align == 0
        invariant forall o: nat :: o < offset ==> !Room(pageSize, info, layout, o)
        decreases pageSize - offset
      {
        var first := offset / CHUNK;
        if pageSize / CHUNK < first + bits {
          TooLate(pageSize, info, layout, offset);
          return None;
        }
        if forall k :: first <= k < first + bits && Interval(k, first, bits) ==> k !in info {
          assert forall k: nat :: Interval(k, first, bits) ==> first <= k < first + bits;
          return Some(offset);
        }
        NextOffset(pageSize, info, layout, offset);
        offset := offset + layout.align;
      }
      return None;
    }

    /** Takes the first room on page `i`, if it has any. */
    method AllocSmall(i: nat, layout: Layout) returns (ptr: Option<nat>)
      requires PagesOk() && i < |pagePtrs| && Sound(layout) && !IsHuge(pageSize, layout)
      modifies this`pageInfos, this`small
      ensures PagesOk()
      ensures ptr.None? ==> pageInfos == old(pageInfos) && small == old(small)
      ensures ptr.None? <==> forall o: nat :: !Room(pageSize, old(pageInfos)[i], layout, o)
      ensures ptr.Some? ==> Placed(old(pageInfos), old(small), pageInfos, small, i, Block(ptr.value, layout))
      ensures ptr.Some? ==> pagePtrs[i] <= ptr.value && ptr.value % layout.align == 0 &&
                            ptr.value + layout.size <= pagePtrs[i] + pageSize
      ensures ptr.Some? ==> FirstRoom(pageSize, pagePtrs[i], old(pageInfos)[i], layout, ptr.value)
    {
      var info := pageInfos[i];
      var found := FindRoom(info, layout);
      if found.None? {
        return None;
      }
      var page, first, bits := pagePtrs[i], found.value / CHUNK, layout.size / CHUNK;
      ghost var b := Block(page + found.value, layout);
      PlaceOnPage(pageSize, page, info, layout, found.value);
      assert FirstBit(page, b) == first && BitCount(b) == bits;
      PageGains(pageSize, page, info, small[i], b);
      pageInfos := pageInfos[i := info + Bits(first, bits)];
      small := small[i := small[i] + {b}];
      return Some(page + found.value);
    }

    /** Adds an empty page at the mapped address. */
    method AddPage(mapped: nat)
      requires Consistent() && Mappable(mapped, pageSize)
      modifies this`pagePtrs, this`pageInfos, this`small
      ensures Consistent() && Live() == old(Live())
      ensures pagePtrs == old(pagePtrs) + [mapped] && pageInfos == old(pageInfos) + [{}] && small == old(small) + [{}]
    {
      pageInfos := pageInfos + [{}];
      pagePtrs := pagePtrs + [mapped];
      small := small + [{}];
      assert PageOk(pageSize, mapped, {}, {});
      LiveSame(old(small), huge);
    }

    /** Maps a region of its own for a huge block, and aligns the block in it. */
    method AllocHuge(layout: Layout, mapped: nat) returns (ptr: nat)
      requires Valid() && Sound(layout) && IsHuge(pageSize, layout) && Mappable(mapped, HugeSize(pageSize, layout))
      modifies this`hugePtrs, this`huge
      ensures Valid()
      ensures hugePtrs == old(hugePtrs) + [Region(mapped, HugeSize(pageSize, layout))]
      ensures ptr % layout.align == 0 && mapped <= ptr < mapped + layout.align
      ensures huge == old(huge) + [Block(ptr, layout)]
    {
      var size := HugeSize(pageSize, layout);
      ptr := NextMultiple(mapped, layout.align);
      SlackSuffices(pageSize, layout, mapped);
      SizeInPages(pageSize, layout);
      hugePtrs := hugePtrs + [Region(mapped, size)];
      huge := huge + [Block(ptr, layout)];
    }

    /** Allocates memory; `mapped` is where the system would map more, if asked. Small blocks go to the
        first page with room; a page is added only when no page has any. */
    method Allocate(wanted: Layout, mapped: nat) returns (ptr: nat)
      requires Valid() && wanted.size > 0 && IsPowerOfTwo(wanted.align)
      requires var l := NormalizedLayout(wanted);
        Mappable(mapped, if IsHuge(pageSize, l) then HugeSize(pageSize, l) else pageSize)
      modifies this
      ensures Valid()
      ensures var b := Block(ptr, NormalizedLayout(wanted)); b !in old(Live()) && Live() == old(Live()) + {b}
      ensures var l := NormalizedLayout(wanted);
        l.align > pageSize / 2 || l.size >= pageSize / 2 ==>
          && pagePtrs == old(pagePtrs) && mapped <= ptr < mapped + l.align
          && hugePtrs == old(hugePtrs) + [Region(mapped, NextMultiple(l.size, pageSize) + Slack(pageSize, l.align))]
      ensures var l := NormalizedLayout(wanted);
        l.align <= pageSize / 2 && l.size < pageSize / 2 ==>
          && hugePtrs == old(hugePtrs)
          && pagePtrs == old(pagePtrs) + (if AnyRoom(pageSize, old(pageInfos), l) then [] else [mapped])
          && exists i: nat :: FirstFit(pageSize, old(pagePtrs) + [mapped], old(pageInfos) + [{}], l, ptr, i)
    {
      var layout := NormalizedLayout(wanted);
      NormalizedIsLeast(wanted, layout);
      if IsHuge(pageSize, layout) {
        HugeBytes(pageSize, layout);
        ptr := AllocHuge(layout, mapped);
        HugeIsNew(Block(ptr, layout));
        LiveGainsHuge(small, old(huge), Block(ptr, layout));
      } else {
        ptr := AllocatePages(layout, mapped);
      }
    }

    /** The small case: the pages in turn, then a new one. */
    method AllocatePages(layout: Layout, mapped: nat) returns (ptr: nat)
      requires Valid() && Sound(layout) && !IsHuge(pageSize, layout) && Mappable(mapped, pageSize)
      modifies this`pagePtrs, this`pageInfos, this`small
      ensures Valid()
      ensures Block(ptr, layout) !in old(Live()) && Live() == old(Live()) + {Block(ptr, layout)}
      ensures pagePtrs == old(pagePtrs) + if AnyRoom(pageSize, old(pageInfos), layout) then [] else [mapped]
      ensures exists i: nat :: FirstFit(pageSize, old(pagePtrs) + [mapped], old(pageInfos) + [{}], layout, ptr, i)
    {
      ghost var was := pageInfos;
      var i := 0;
      while i < |pagePtrs|
        invariant 0 <= i <= |pagePtrs| && Valid()
        invariant pageInfos == was && small == old(small) && pagePtrs == old(pagePtrs)
        invariant NoRoom(pageSize, was, layout, i)
      {
        var place := TakeRoom(i, layout);
        if place.Some? {
          FitsOld(pageSize, pagePtrs, was, layout, place.value, i, mapped);
          return place.value;
        }
        i := i + 1;
      }
      FitsNew(pageSize, pagePtrs, was, layout, mapped);
      ptr := AllocOnNewPage(layout, mapped);
    }

    /** The first place of a page of its own. */
    method AllocOnNewPage(layout: Layout, mapped: nat) returns (ptr: nat)
      requires Valid() && Sound(layout) && !IsHuge(pageSize, layout) && Mappable(mapped, pageSize)
      modifies this`pagePtrs, this`pageInfos, this`small
      ensures Valid()
      ensures Block(ptr, layout) !in old(Live()) && Live() == old(Live()) + {Block(ptr, layout)}
      ensures pagePtrs == old(pagePtrs) + [mapped] && FirstRoom(pageSize, mapped, {}, layout, ptr)
    {
      FreshPageHasRoom(pageSize, layout);
      AddPage(mapped);
      var i := |pagePtrs| - 1;
      assert Room(pageSize, pageInfos[i], layout, 0);
      var place := TakeRoom(i, layout);
      return place.value;
    }

    /** `AllocSmall`, in terms of all live blocks. */
    method TakeRoom(i: nat, layout: Layout) returns (ptr: Option<nat>)
      requires Consistent() && i < |pagePtrs| && Sound(layout) && !IsHuge(pageSize, layout)
      requires forall j :: 0 <= j < |small| && j != i ==> small[j] != {}
      modifies this`pageInfos, this`small
      ensures ptr.None? ==> pageInfos == old(pageInfos) && small == old(small)
      ensures ptr.None? <==> forall o: nat :: !Room(pageSize, old(pageInfos)[i], layout, o)
      ensures ptr.Some? ==> Valid() && FirstRoom(pageSize, pagePtrs[i], old(pageInfos)[i], layout, ptr.value)
      ensures ptr.Some? ==>
        var b := Block(ptr.value, layout);
        b !in old(Live()) && Live() == old(Live()) + {b}
    {
      ptr := AllocSmall(i, layout);
      if ptr.Some? {
        SmallIsNew(i, Block(ptr.value, layout));
        LiveGains(old(small), huge, i, Block(ptr.value, layout));
      }
    }

    /** The index of a page that is known to be held. */
    method FindPage(pageAddr: nat, ghost home: nat) returns (idx: nat)
      requires OwnedOk() && pageSize > 0 && home < |pagePtrs| && pagePtrs[home] == pageAddr
      ensures idx == home
    {
      idx := 0;
      while pagePtrs[idx] != pageAddr
        invariant idx <= home
        decreases home - idx
      {
        idx := idx + 1;
      }
    }

    /** Clears the bits of a small block; returns the index of its page. */
    method DeallocSmall(ptr: nat, layout: Layout) returns (idx: nat)
      requires Consistent() && Block(ptr, layout) in Live() && Sound(layout) && !IsHuge(pageSize, layout)
      modifies this`pageInfos, this`small
      ensures Consistent() && idx < |pagePtrs| && Block(ptr, layout) in old(small)[idx]
      ensures small == old(small)[idx := old(small)[idx] - {Block(ptr, layout)}]
    {
      ghost var b := Block(ptr, layout);
      ghost var home := HomeOf(b);
      InPage(pageSize, pagePtrs[home], ptr);
      var offset := ptr % pageSize;
      idx := FindPage(ptr - offset, home);
      var first, bits := offset / CHUNK, layout.size / CHUNK;
      assert first == FirstBit(pagePtrs[idx], b) && bits == BitCount(b);
      var info := ClearBits(pageInfos[idx], first, bits);
      PageLoses(pageSize, pagePtrs[idx], pageInfos[idx], small[idx], b);
      pageInfos := pageInfos[idx := info];
      small := small[idx := small[idx] - {b}];
    }

    /** Where a live small block is. */
    lemma HomeOf(b: Block) returns (i: nat)
      requires Consistent() && b in Live() && !IsHuge(pageSize, b.layout)
      ensures i < |small| && b in small[i] && OnPage(pageSize, pagePtrs[i], b)
    {
      assert forall j :: 0 <= j < |huge| ==> InRegion(pageSize, hugePtrs[j], huge[j]);
      assert b !in huge;
      i :| 0 <= i < |small| && b in small[i];
    }

    /** Where a live huge block is. */
    lemma RegionOf(b: Block) returns (i: nat)
      requires Consistent() && b in Live() && IsHuge(pageSize, b.layout)
      ensures i < |huge| && b == huge[i] && InRegion(pageSize, hugePtrs[i], b)
    {
      assert forall j :: 0 <= j < |small| && b in small[j] ==> OnPage(pageSize, pagePtrs[j], b);
      assert b in huge;
      i :| 0 <= i < |huge| && b == huge[i];
    }

    /** Gives back the region of a huge block. */
    method DeallocHuge(ptr: nat, layout: Layout)
      requires Valid() && Block(ptr, layout) in Live() && Sound(layout) && IsHuge(pageSize, layout)
      modifies this`hugePtrs, this`huge
      ensures Valid() && Live() == old(Live()) - {Block(ptr, layout)}
      ensures |hugePtrs| == old(|hugePtrs|) - 1 && forall r :: r in hugePtrs ==> r in old(hugePtrs)
    {
      var size := HugeSize(pageSize, layout);
      ghost var home := RegionOf(Block(ptr, layout));
      var idx := 0;
      while !(hugePtrs[idx].start <= ptr < hugePtrs[idx].start + hugePtrs[idx].size)
        invariant idx <= home
        decreases home - idx
      {
        idx := idx + 1;
      }
      assert idx == home;
      var removed := hugePtrs[idx];
      assert removed.size == size;
      OnePlace(Block(ptr, layout));
      LiveLosesHuge(small, huge, idx);
      hugePtrs := hugePtrs[..idx] + hugePtrs[idx + 1..];
      huge := huge[..idx] + huge[idx + 1..];
    }

    /** Gives back a page on which nothing is live. */
    method RemovePage(idx: nat)
      requires Consistent() && idx < |pagePtrs| && pageInfos[idx] == {}
      requires forall j :: 0 <= j < |small| && j != idx ==> small[j] != {}
      modifies this`pagePtrs, this`pageInfos, this`small
      ensures Valid() && Live() == old(Live())
      ensures pagePtrs == old(pagePtrs)[..idx] + old(pagePtrs)[idx + 1..]
    {
      NoBitsNoBlocks(pageSize, pagePtrs[idx], pageInfos[idx], small[idx]);
      LiveDrops(small, huge, idx);
      pageInfos := pageInfos[..idx] + pageInfos[idx + 1..];
      pagePtrs := pagePtrs[..idx] + pagePtrs[idx + 1..];
      small := small[..idx] + small[idx + 1..];
    }

    /** Frees a live block, named by its address and the layout it was asked for with. No assertion of
        the original fails, and memory without live blocks is given back. */
    method Dealloc(ptr: nat, wanted: Layout)
      requires Valid() && wanted.size > 0 && IsPowerOfTwo(wanted.align)
      requires Block(ptr, NormalizedLayout(wanted)) in Live()
      modifies this
      ensures Valid() && Live() == old(Live()) - {Block(ptr, NormalizedLayout(wanted))}
    {
      var layout := NormalizedLayout(wanted);
      NormalizedIsLeast(wanted, NormalizedLayout(wanted));
      if IsHuge(pageSize, layout) {
        DeallocHuge(ptr, layout);
      } else {
        OnePlace(Block(ptr, layout));
        var idx := DeallocSmall(ptr, layout);
        LiveLoses(old(small), huge, idx, Block(ptr, layout));
        NoBitsNoBlocks(pageSize, pagePtrs[idx], pageInfos[idx], small[idx]);
        if pageInfos[idx] == {} {
          RemovePage(idx);
        }
      }
    }

    /** A block on page `i` is on no other page, and in no huge region. */
    lemma SmallIsNew(i: nat, b: Block)
      requires Consistent() && i < |small| && b in small[i]
      ensures forall j :: 0 <= j < |small| && j != i ==> b !in small[j]
      ensures b !in huge
    {
      OnePlace(b);
    }

    lemma HugeIsNew(b: Block)
      requires Consistent() && huge != [] && b == huge[|huge| - 1]
      ensures b !in huge[..|huge| - 1] && forall j :: 0 <= j < |small| ==> b !in small[j]
    {
      OnePlace(b);
    }
  }

  /** The lowest address of a page with room. */
  ghost predicate FirstRoom(pageSize: nat, page: nat, info: set<nat>, l: Layout, ptr: nat)
    requires l.align > 0
  {
    && page <= ptr && Room(pageSize, info, l, ptr - page)
    && forall o: nat :: o < ptr - page ==> !Room(pageSize, info, l, o)
  }

  /** The pages before `i` have no room. */
  ghost predicate NoRoom(pageSize: nat, infos: seq<set<nat>>, l: Layout, i: nat)
    requires l.align > 0 && i <= |infos|
  {
    forall j, o: nat :: 0 <= j < i ==> !Room(pageSize, infos[j], l, o)
  }

  /** The lowest address of the first page with room, which is page `i`. */
  ghost predicate FirstFit(pageSize: nat, pages: seq<nat>, infos: seq<set<nat>>, l: Layout, ptr: nat, i: nat)
    requires l.align > 0
  {
    && i < |pages| && i < |infos| && FirstRoom(pageSize, pages[i], infos[i], l, ptr)
    && NoRoom(pageSize, infos, l, i)
  }

  ghost predicate AnyRoom(pageSize: nat, infos: seq<set<nat>>, l: Layout)
    requires l.align > 0
  {
    exists i, o: nat :: 0 <= i < |infos| && Room(pageSize, infos[i], l, o)
  }

  lemma FitsOld(pageSize: nat, pages: seq<nat>, infos: seq<set<nat>>, l: Layout, ptr: nat, i: nat, mapped: nat)
    requires l.align > 0 && i < |pages| && |pages| == |infos| && NoRoom(pageSize, infos, l, i)
    requires FirstRoom(pageSize, pages[i], infos[i], l, ptr)
    ensures AnyRoom(pageSize, infos, l)
    ensures FirstFit(pageSize, pages + [mapped], infos + [{}], l, ptr, i)
  {
  }

  /** When no page has room, the first place of a new page is the first fit. */
  lemma FitsNew(pageSize: nat, pages: seq<nat>, infos: seq<set<nat>>, l: Layout, mapped: nat)
    requires Sound(l) && pageSize > 0 && !IsHuge(pageSize, l) && |pages| == |infos| && NoRoom(pageSize, infos, l, |infos|)
    ensures !AnyRoom(pageSize, infos, l) && Room(pageSize, {}, l, 0)
    ensures forall ptr: nat :: FirstRoom(pageSize, mapped, {}, l, ptr) ==>
      FirstFit(pageSize, pages + [mapped], infos + [{}], l, ptr, |pages|)
  {
    FreshPageHasRoom(pageSize, l);
  }

  lemma LiveGains(small: seq<set<Block>>, huge: seq<Block>, i: nat, b: Block)
    requires i < |small| && b !in huge && forall j :: 0 <= j < |small| ==> b !in small[j]
    ensures b !in LiveBlocks(small, huge)
    ensures LiveBlocks(small[i := small[i] + {b}], huge) == LiveBlocks(small, huge) + {b}
  {
    var small' := small[i := small[i] + {b}];
    forall c ensures c in LiveBlocks(small', huge) <==> c in LiveBlocks(small, huge) + {b} {
      if j :| 0 <= j < |small| && c in small[j] {
        assert c in small'[j];
      }
      assert b in small'[i];
    }
  }

  method ClearBits(info: set<nat>, first: nat, bits: nat) returns (r: set<nat>)
    ensures r == info - Bits(first, bits)
  {
    r := info;
    var k := first;
    while k < first + bits
      invariant first <= k <= first + bits
      invariant r == info - Bits(first, k - first)
    {
      r := r - {k};
      k := k + 1;
    }
  }

  /** A block's address tells its page. */
  lemma InPage(pageSize: nat, page: nat, ptr: nat)
    requires pageSize > 0 && page % pageSize == 0 && page <= ptr < page + pageSize
    ensures ptr % pageSize == ptr - page
  {
    var q := page / pageSize;
    assert page == pageSize * q;
    Unique(ptr, pageSize, q, ptr - page);
  }

  lemma LiveLosesHuge(small: seq<set<Block>>, huge: seq<Block>, i: nat)
    requires i < |huge| && (forall j :: 0 <= j < |huge| && j != i ==> huge[j] != huge[i])
    requires forall j :: 0 <= j < |small| ==> huge[i] !in small[j]
    ensures LiveBlocks(small, huge[..i] + huge[i + 1..]) == LiveBlocks(small, huge) - {huge[i]}
  {
    var huge' := huge[..i] + huge[i + 1..];
    forall c ensures c in huge' <==> c in huge && c != huge[i] {
      if j :| 0 <= j < |huge| && c == huge[j] && j != i {
        assert c == huge'[if j < i then j else j - 1];
      }
    }
  }

  lemma LiveDrops(small: seq<set<Block>>, huge: seq<Block>, i: nat)
    requires i < |small| && small[i] == {}
    ensures LiveBlocks(small[..i] + small[i + 1..], huge) == LiveBlocks(small, huge)
  {
    var small' := small[..i] + small[i + 1..];
    forall c ensures c in LiveBlocks(small', huge) <==> c in LiveBlocks(small, huge) {
      if j :| 0 <= j < |small| && c in small[j] {
        assert c in small'[if j < i then j else j - 1];
      }
      if j :| 0 <= j < |small'| && c in small'[j] {
        assert c in small[if j < i then j else j + 1];
      }
    }
  }

  lemma LiveLoses(small: seq<set<Block>>, huge: seq<Block>, i: nat, b: Block)
    requires i < |small| && b !in huge && forall j :: 0 <= j < |small| && j != i ==> b !in small[j]
    ensures LiveBlocks(small[i := small[i] - {b}], huge) == LiveBlocks(small, huge) - {b}
  {
    var small' := small[i := small[i] - {b}];
    forall c ensures c in LiveBlocks(small', huge) <==> c in LiveBlocks(small, huge) - {b} {
      if j :| 0 <= j < |small| && c in small[j] && c != b {
        assert c in small'[j];
      }
      if j :| 0 <= j < |small'| && c in small'[j] {
        assert c in small[j];
      }
    }
  }

  lemma LiveSame(small: seq<set<Block>>, huge: seq<Block>)
    ensures LiveBlocks(small + [{}], huge) == LiveBlocks(small, huge)
  {
    forall c ensures c in LiveBlocks(small + [{}], huge) <==> c in LiveBlocks(small, huge) {
      if j :| 0 <= j < |small| && c in small[j] {
        assert c in (small + [{}])[j];
      }
    }
  }

  lemma LiveGainsHuge(small: seq<set<Block>>, huge: seq<Block>, b: Block)
    requires b !in huge && forall j :: 0 <= j < |small| ==> b !in small[j]
    ensures b !in LiveBlocks(small, huge)
    ensures LiveBlocks(small, huge + [b]) == LiveBlocks(small, huge) + {b}
  {
  }

  /** Past the last offset where the layout fits, it fits nowhere. */
  lemma TooLate(pageSize: nat, info: set<nat>, l: Layout, offset: nat)
    requires l.align > 0 && pageSize / CHUNK < offset / CHUNK + l.size / CHUNK
    requires forall o: nat :: o < offset ==> !Room(pageSize, info, l, o)
    ensures forall o: nat :: !Room(pageSize, info, l, o)
  {
    forall o: nat ensures !Room(pageSize, info, l, o) {
      if o >= offset {
        assert o / CHUNK >= offset / CHUNK;
      }
    }
  }

  /** One block more, on page `i`; nothing else changes. */
  ghost predicate Placed(
    infos: seq<set<nat>>, small: seq<set<Block>>, infos': seq<set<nat>>, small': seq<set<Block>>, i: nat, b: Block)
  {
    && i < |small| && i < |infos| && b !in small[i] && small' == small[i := small[i] + {b}]
    && |infos'| == |infos| && infos[i] <= infos'[i]
    && (forall j :: 0 <= j < |infos| && j != i ==> infos'[j] == infos[j])
    && (forall c :: c in small[i] ==> BlocksApart(b, c))
  }

  lemma NextOffset(pageSize: nat, info: set<nat>, l: Layout, offset: nat)
    requires l.align > 0 && offset % l.align == 0
    requires forall o: nat :: o < offset ==> !Room(pageSize, info, l, o)
    requires !Room(pageSize, info, l, offset)
    ensures (offset + l.align) % l.align == 0
    ensures forall o: nat :: o < offset + l.align ==> !Room(pageSize, info, l, o)
  {
    Unique(l.align, l.align, 1, 0);
    ModSum(offset, l.align, l.align);
    forall o: nat | o < offset + l.align ensures !Room(pageSize, info, l, o) {
      if o > offset && o % l.align == 0 {
        Steps(offset, o, l.align);
      }
    }
  }
}
