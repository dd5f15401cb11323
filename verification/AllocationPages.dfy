/** Layouts, blocks and the bits of one page, as the isolated allocator uses them. */
module AllocationPages {
  import opened PowersOfTwo

  /** How many bytes one bit of a page stands for. */
  const CHUNK: nat := 4

  datatype Layout = Layout(size: nat, align: nat)

  predicate Interval(k: nat, lo: nat, n: nat) {
    lo <= k < lo + n
  }

  /** Whole chunks of four bytes, as few as will do, aligned to at least one. */
  function NormalizedLayout(l: Layout): (r: Layout)
    ensures r.size % 4 == 0 && l.size <= r.size < l.size + 4
    ensures r.align == if l.align < 4 then 4 else l.align
  {
    Layout(NextMultiple(l.size, CHUNK), if l.align < CHUNK then CHUNK else l.align)
  }

  predicate IsHuge(pageSize: nat, l: Layout) {
    l.align > pageSize / 2 || l.size >= pageSize / 2
  }

  /** The bytes to map for a huge layout: its pages, and slack to find an aligned address in. */
  function HugeSize(pageSize: nat, l: Layout): nat
    requires pageSize > 0
  {
    var size := NextMultiple(l.size, pageSize);
    var align := if l.align > pageSize then l.align else pageSize;
    var pages := size / pageSize;
    var extra := if align / pageSize > 0 then align / pageSize - 1 else 0;
    (pages + extra) * pageSize
  }

  /** A live allocation: its address and its normalized layout. */
  datatype Block = Block(ptr: nat, layout: Layout)

  predicate Apart(a: nat, n: nat, b: nat, m: nat) {
    a + n <= b || b + m <= a
  }

  predicate BlocksApart(b: Block, c: Block) {
    Apart(b.ptr, b.layout.size, c.ptr, c.layout.size)
  }

  /** What a normalized, nonempty layout looks like. */
  ghost predicate Sound(l: Layout) {
    l.size > 0 && l.size % CHUNK == 0 && l.align % CHUNK == 0 && l.align > 0 && IsPowerOfTwo(l.align)
  }

  /** The layouts that can stand for `l`: whole chunks of four bytes, enough of them, and aligned to a
      power of two that both four and the wanted alignment divide. */
  ghost predicate StandsFor(l: Layout, s: Layout) {
    && s.size % 4 == 0 && s.size >= l.size
    && IsPowerOfTwo(s.align) && s.align % 4 == 0 && l.align > 0 && s.align % l.align == 0
  }

  /** Normalizing gives the least layout that can stand for the wanted one. */
  lemma NormalizedIsLeast(l: Layout, s: Layout)
    requires l.size > 0 && IsPowerOfTwo(l.align)
    ensures Sound(NormalizedLayout(l)) && StandsFor(l, NormalizedLayout(l))
    ensures StandsFor(l, s) ==> NormalizedLayout(l).size <= s.size && s.align % NormalizedLayout(l).align == 0
  {
    assert CHUNK == Exp2(2);
    assert IsPowerOfTwo(4);
    if l.align < 4 {
      PowersDivide(l.align, 4);
    } else {
      PowersDivide(4, l.align);
      PowersDivide(l.align, l.align);
    }
    if StandsFor(l, s) && s.size < NormalizedLayout(l).size {
      Steps(s.size, NormalizedLayout(l).size, 4);
    }
  }

  // Arithmetic of multiples.

  /** Distinct multiples lie at least one step apart. */
  lemma Steps(a: int, b: int, m: nat)
    requires m > 0 && a % m == 0 && b % m == 0 && a < b
    ensures a + m <= b
  {
    var p, q := a / m, b / m;
    assert a == m * p && b == m * q;
    assert m * (q - p) == m * q - m * p;
    AtLeastOnce(q - p, m);
  }

  lemma Quarter(x: nat, y: nat)
    requires x % CHUNK == 0 && y % CHUNK == 0
    ensures (x + y) / CHUNK == x / CHUNK + y / CHUNK && x == CHUNK * (x / CHUNK)
  {
  }

  // Slack.

  lemma SizeInPages(pageSize: nat, l: Layout)
    requires pageSize > 0
    ensures HugeSize(pageSize, l) % pageSize == 0 && HugeSize(pageSize, l) >= l.size
    ensures l.size > 0 ==> HugeSize(pageSize, l) > 0
    ensures l.align <= pageSize ==> HugeSize(pageSize, l) == NextMultiple(l.size, pageSize)
    ensures l.align > pageSize && l.align % pageSize == 0 ==>
      HugeSize(pageSize, l) == NextMultiple(l.size, pageSize) + l.align - pageSize
  {
    var size := NextMultiple(l.size, pageSize);
    var align := if l.align > pageSize then l.align else pageSize;
    var pages, n := size / pageSize, align / pageSize;
    Unique(pageSize, pageSize, 1, 0);
    assert size == pageSize * pages;
    AlignPages(pageSize, align, n);
    var extra := if n > 0 then n - 1 else 0;
    assert HugeSize(pageSize, l) == (pages + extra) * pageSize;
    Distribute(pages, extra, pageSize);
    MultipleOf(pages + extra, pageSize);
    if align % pageSize == 0 {
      assert align == pageSize * n;
      Distribute(n, -1, pageSize);
      assert extra * pageSize == align - pageSize;
    }
  }

  /** What a mapping needs beyond the pages of its block to find an aligned address. */
  function Slack(pageSize: nat, align: nat): nat {
    if align > pageSize then align - pageSize else 0
  }

  lemma HugeBytes(pageSize: nat, l: Layout)
    requires pageSize > 0 && IsPowerOfTwo(pageSize) && IsPowerOfTwo(l.align)
    ensures HugeSize(pageSize, l) == NextMultiple(l.size, pageSize) + Slack(pageSize, l.align)
  {
    SizeInPages(pageSize, l);
    if l.align > pageSize {
      PowersDivide(pageSize, l.align);
    }
  }

  lemma AlignPages(pageSize: nat, align: nat, n: nat)
    requires pageSize > 0 && align >= pageSize && n == align / pageSize
    ensures n >= 1
  {
    assert align == pageSize * n + align % pageSize;
  }

  lemma Distribute(a: int, b: int, m: int)
    ensures (a + b) * m == a * m + b * m == m * (a + b)
    ensures a * m == m * a && b >= 0 && m >= 0 ==> b * m >= 0
  {
  }

  /** The slack always leaves room for the block after rounding its address up. */
  lemma SlackSuffices(pageSize: nat, l: Layout, mapped: nat)
    requires pageSize > 0 && IsPowerOfTwo(pageSize) && Sound(l) && mapped % pageSize == 0
    ensures var ptr := NextMultiple(mapped, l.align);
      ptr % l.align == 0 && mapped <= ptr && ptr + l.size <= mapped + HugeSize(pageSize, l)
  {
    SizeInPages(pageSize, l);
    var ptr := NextMultiple(mapped, l.align);
    if l.align <= pageSize {
      PowersDivide(l.align, pageSize);
      ModTransitive(mapped, pageSize, l.align);
    } else {
      PowersDivide(pageSize, l.align);
      ModTransitive(ptr, l.align, pageSize);
      ModSum(mapped, l.align, pageSize);
      Steps(ptr, mapped + l.align, pageSize);
    }
  }

  /** And no mapping of fewer pages would always leave room. */
  lemma SlackIsLeast(pageSize: nat, l: Layout, bytes: nat) returns (mapped: nat)
    requires pageSize > 0 && IsPowerOfTwo(pageSize) && Sound(l)
    requires bytes % pageSize == 0 && bytes < HugeSize(pageSize, l)
    ensures mapped % pageSize == 0 && mapped + bytes < NextMultiple(mapped, l.align) + l.size
  {
    SizeInPages(pageSize, l);
    Steps(bytes, HugeSize(pageSize, l), pageSize);
    Unique(0, pageSize, 0, 0);
    Unique(0, l.align, 0, 0);
    mapped := 0;
    if l.align > pageSize {
      PowersDivide(pageSize, l.align);
      Unique(pageSize, pageSize, 1, 0);
      Unique(pageSize, l.align, 0, pageSize);
      mapped := pageSize;
    }
  }

  // Bits of one page.

  /** The first bit of a block on the page at `page`. */
  function FirstBit(page: nat, b: Block): nat
    requires page <= b.ptr
  {
    (b.ptr - page) / CHUNK
  }

  function BitCount(b: Block): nat {
    b.layout.size / CHUNK
  }

  function Bits(lo: nat, n: nat): (r: set<nat>)
    ensures forall k :: k in r <==> Interval(k, lo, n)
  {
    set k | lo <= k < lo + n && Interval(k, lo, n)
  }

  ghost predicate OnPage(pageSize: nat, page: nat, b: Block) {
    && Sound(b.layout) && !IsHuge(pageSize, b.layout)
    && page <= b.ptr && b.ptr + b.layout.size <= page + pageSize
    && (b.ptr - page) % CHUNK == 0 && b.ptr % b.layout.align == 0
  }

  /** The set bits are exactly those of the page's live blocks, which do not overlap. */
  ghost predicate PageOk(pageSize: nat, page: nat, info: set<nat>, blocks: set<Block>) {
    && (forall b :: b in blocks ==> OnPage(pageSize, page, b))
    && (forall b, c :: b in blocks && c in blocks && b != c ==> BlocksApart(b, c))
    && (forall b, k :: b in blocks && Interval(k, FirstBit(page, b), BitCount(b)) ==> k in info)
    && (forall k :: k in info ==> exists b :: b in blocks && Interval(k, FirstBit(page, b), BitCount(b)))
  }

  /** A place for the layout: an aligned offset with nothing but free bits in the page. */
  ghost predicate Room(pageSize: nat, info: set<nat>, l: Layout, offset: nat)
    requires l.align > 0
  {
    && offset < pageSize && offset % l.align == 0
    && offset / CHUNK + l.size / CHUNK <= pageSize / CHUNK
    && forall k :: Interval(k, offset / CHUNK, l.size / CHUNK) ==> k !in info
  }

  /** A fresh page has room for every layout that is not huge. */
  lemma FreshPageHasRoom(pageSize: nat, l: Layout)
    requires Sound(l) && pageSize > 0 && !IsHuge(pageSize, l)
    ensures Room(pageSize, {}, l, 0)
  {
    assert l.size / CHUNK <= pageSize / CHUNK;
  }

  /** Aligning within a page aligns the address. */
  lemma PlaceOnPage(pageSize: nat, page: nat, info: set<nat>, l: Layout, offset: nat)
    requires Sound(l) && !IsHuge(pageSize, l) && IsPowerOfTwo(pageSize) && pageSize % CHUNK == 0
    requires pageSize > 0 && page % pageSize == 0 && Room(pageSize, info, l, offset)
    ensures OnPage(pageSize, page, Block(page + offset, l))
  {
    PowersDivide(l.align, pageSize);
    ModTransitive(page, pageSize, l.align);
    ModSum(page, offset, l.align);
    ModTransitive(offset, l.align, CHUNK);
    Quarter(offset, l.size);
    assert pageSize == CHUNK * (pageSize / CHUNK);
  }

  /** Disjoint nonempty runs of bits lie one after the other. */
  lemma RunsApart(a: nat, n: nat, b: nat, m: nat)
    requires n > 0 && m > 0 && forall k :: !(Interval(k, a, n) && Interval(k, b, m))
    ensures a + n <= b || b + m <= a
  {
    var k := if a < b then b else a;
    assert Interval(k, a, n) <==> k < a + n;
    assert Interval(k, b, m) <==> k < b + m;
  }

  /** Bytes of whole chunks overlap exactly when their bits do. */
  lemma BitsAndBytes(pageSize: nat, page: nat, b: Block, c: Block)
    requires OnPage(pageSize, page, b) && OnPage(pageSize, page, c)
    ensures BitCount(b) > 0
    ensures BlocksApart(b, c) <==> forall k :: !(Interval(k, FirstBit(page, b), BitCount(b)) && Interval(k, FirstBit(page, c), BitCount(c)))
  {
    var x, n, y, m := FirstBit(page, b), BitCount(b), FirstBit(page, c), BitCount(c);
    assert b.ptr == page + CHUNK * x && b.layout.size == CHUNK * n;
    assert c.ptr == page + CHUNK * y && c.layout.size == CHUNK * m;
    if forall k :: !(Interval(k, x, n) && Interval(k, y, m)) {
      RunsApart(x, n, y, m);
    }
  }

  /** Room, in terms of the page's live blocks: exactly the aligned bytes that overlap none of them. */
  lemma RoomIsFree(pageSize: nat, page: nat, info: set<nat>, blocks: set<Block>, l: Layout, offset: nat)
    requires PageOk(pageSize, page, info, blocks) && Sound(l) && pageSize % 4 == 0
    ensures Room(pageSize, info, l, offset) <==>
      && offset % l.align == 0 && offset + l.size <= pageSize
      && forall b :: b in blocks ==> Apart(page + offset, l.size, b.ptr, b.layout.size)
  {
    if offset % l.align == 0 {
      ModTransitive(offset, l.align, CHUNK);
      Quarter(offset, l.size);
      assert pageSize == CHUNK * (pageSize / CHUNK);
      var o, n := offset / CHUNK, l.size / CHUNK;
      forall b | b in blocks
        ensures Apart(page + offset, l.size, b.ptr, b.layout.size) <==>
          forall k :: !(Interval(k, o, n) && Interval(k, FirstBit(page, b), BitCount(b)))
      {
        BitsApart(pageSize, page, l, offset, b);
      }
    }
  }

  lemma BitsApart(pageSize: nat, page: nat, l: Layout, offset: nat, b: Block)
    requires Sound(l) && offset % CHUNK == 0 && OnPage(pageSize, page, b)
    ensures Apart(page + offset, l.size, b.ptr, b.layout.size) <==>
      forall k :: !(Interval(k, offset / CHUNK, l.size / CHUNK) && Interval(k, FirstBit(page, b), BitCount(b)))
  {
    var x, n, y, m := offset / CHUNK, l.size / CHUNK, FirstBit(page, b), BitCount(b);
    assert offset == CHUNK * x && l.size == CHUNK * n;
    assert b.ptr == page + CHUNK * y && b.layout.size == CHUNK * m;
    if forall k :: !(Interval(k, x, n) && Interval(k, y, m)) {
      RunsApart(x, n, y, m);
    }
  }

  lemma PageGains(pageSize: nat, page: nat, info: set<nat>, blocks: set<Block>, b: Block)
    requires PageOk(pageSize, page, info, blocks) && OnPage(pageSize, page, b)
    requires forall k :: Interval(k, FirstBit(page, b), BitCount(b)) ==> k !in info
    ensures b !in blocks && PageOk(pageSize, page, info + Bits(FirstBit(page, b), BitCount(b)), blocks + {b})
    ensures forall c :: c in blocks ==> BlocksApart(b, c)
  {
    BitsAndBytes(pageSize, page, b, b);
    assert Interval(FirstBit(page, b), FirstBit(page, b), BitCount(b));
    forall c | c in blocks ensures BlocksApart(b, c) {
      BitsAndBytes(pageSize, page, b, c);
    }
    var info', blocks' := info + Bits(FirstBit(page, b), BitCount(b)), blocks + {b};
    forall k | k in info' ensures exists c :: c in blocks' && Interval(k, FirstBit(page, c), BitCount(c)) {
      if k in info {
        var c :| c in blocks && Interval(k, FirstBit(page, c), BitCount(c));
        assert c in blocks';
      } else {
        assert b in blocks' && Interval(k, FirstBit(page, b), BitCount(b));
      }
    }
  }

  lemma PageLoses(pageSize: nat, page: nat, info: set<nat>, blocks: set<Block>, b: Block)
    requires PageOk(pageSize, page, info, blocks) && b in blocks
    ensures PageOk(pageSize, page, info - Bits(FirstBit(page, b), BitCount(b)), blocks - {b})
  {
    var info', blocks' := info - Bits(FirstBit(page, b), BitCount(b)), blocks - {b};
    forall c, k | c in blocks' && Interval(k, FirstBit(page, c), BitCount(c)) ensures k in info' {
      assert c in blocks && BlocksApart(b, c);
      BitsAndBytes(pageSize, page, b, c);
    }
    forall k | k in info' ensures exists c :: c in blocks' && Interval(k, FirstBit(page, c), BitCount(c)) {
      var c :| c in blocks && Interval(k, FirstBit(page, c), BitCount(c));
      assert c != b;
    }
  }

  /** A page without set bits has no live block. */
  lemma NoBitsNoBlocks(pageSize: nat, page: nat, info: set<nat>, blocks: set<Block>)
    requires PageOk(pageSize, page, info, blocks)
    ensures info == {} <==> blocks == {}
  {
    if blocks != {} {
      var b :| b in blocks;
      BitsAndBytes(pageSize, page, b, b);
      assert Interval(FirstBit(page, b), FirstBit(page, b), BitCount(b));
      assert FirstBit(page, b) in info;
    }
    if info != {} {
      var k :| k in info;
      var b :| b in blocks && Interval(k, FirstBit(page, b), BitCount(b));
    }
  }
}
