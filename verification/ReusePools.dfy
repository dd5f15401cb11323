/** The pool of reusable addresses: one bounded, sorted list for every alignment. Random decisions are
    parameters. */
module ReusePools {
  import opened Wrappers
  import opened VectorClocks
  import opened PowersOfTwo

  const MAX_POOL_SIZE: nat := 64

  datatype Entry = Entry(addr: nat, size: nat, thread: nat, clock: VClock)

  type Pool = seq<seq<Entry>>

  // One subpool.

  predicate Before(e: Entry, size: nat, thread: nat) {
    e.size < size || (e.size == size && e.thread < thread)
  }

  /** By size, and within a size by thread. */
  predicate Sorted(s: seq<Entry>) {
    forall i, j :: 0 <= i < j < |s| ==>
      s[i].size < s[j].size || (s[i].size == s[j].size && s[i].thread <= s[j].thread)
  }

  ghost predicate SubpoolOk(s: seq<Entry>, k: nat) {
    && Sorted(s) && |s| <= 64
    && forall e :: e in s ==> e.addr % Exp2(k) == 0
  }

  /** The first entry that is not before the key, or the end. */
  function InsertionPoint(s: seq<Entry>, size: nat, thread: nat): (p: nat)
    ensures p <= |s|
    ensures forall i :: 0 <= i < p ==> Before(s[i], size, thread)
    ensures p < |s| ==> !Before(s[p], size, thread)
  {
    if s == [] || !Before(s[0], size, thread) then 0 else 1 + InsertionPoint(s[1..], size, thread)
  }

  /** Everything from the insertion point on is not before the key. */
  lemma {:induction false} Partitioned(s: seq<Entry>, size: nat, thread: nat)
    requires Sorted(s)
    ensures forall i :: InsertionPoint(s, size, thread) <= i < |s| ==> !Before(s[i], size, thread)
  {
    var p := InsertionPoint(s, size, thread);
    forall i | p < i < |s| ensures !Before(s[i], size, thread) {
      assert !Before(s[i], s[p].size, s[p].thread);
    }
  }

  /** A full pool gives up the entry in the new one's place, or its last. */
  function Inserted(s: seq<Entry>, e: Entry): seq<Entry> {
    var p := InsertionPoint(s, e.size, e.thread);
    if |s| >= MAX_POOL_SIZE then s[(if p < |s| then p else |s| - 1) := e]
    else s[..p] + [e] + s[p..]
  }

  predicate Eligible(e: Entry, size: nat, thread: nat, crossThread: bool) {
    e.size == size && (crossThread || e.thread == thread)
  }

  /** Where the entries of the wanted size, or of the wanted size and thread, begin. */
  function Begin(s: seq<Entry>, size: nat, thread: nat, crossThread: bool): nat {
    InsertionPoint(s, size, if crossThread then 0 else thread)
  }

  /** Where they end. */
  function End(s: seq<Entry>, from: nat, size: nat, thread: nat, crossThread: bool): (end: nat)
    requires from <= |s|
    ensures from <= end <= |s|
    ensures forall i :: from <= i < end ==> Eligible(s[i], size, thread, crossThread)
    ensures end < |s| ==> !Eligible(s[end], size, thread, crossThread)
    decreases |s| - from
  {
    if from < |s| && Eligible(s[from], size, thread, crossThread) then End(s, from + 1, size, thread, crossThread)
    else from
  }

  /** The range is exactly the set of eligible entries. */
  lemma {:induction false} RangeIsEligible(s: seq<Entry>, size: nat, thread: nat, crossThread: bool, i: nat)
    requires Sorted(s) && i < |s|
    ensures var begin := Begin(s, size, thread, crossThread);
      begin <= i < End(s, begin, size, thread, crossThread) <==> Eligible(s[i], size, thread, crossThread)
  {
    var begin := Begin(s, size, thread, crossThread);
    var end := End(s, begin, size, thread, crossThread);
    Partitioned(s, size, if crossThread then 0 else thread);
    if i >= end {
      assert !Before(s[end], size, if crossThread then 0 else thread);
      assert i > end ==> !Before(s[i], s[end].size, s[end].thread);
    }
  }

  lemma SortedInsert(s: seq<Entry>, p: nat, e: Entry)
    requires Sorted(s) && p <= |s|
    requires forall i :: 0 <= i < |s| ==> (Before(s[i], e.size, e.thread) <==> i < p)
    ensures Sorted(s[..p] + [e] + s[p..])
  {
  }

  lemma SortedReplace(s: seq<Entry>, p: nat, e: Entry)
    requires Sorted(s) && p < |s|
    requires forall i :: 0 <= i < |s| && i != p ==> (Before(s[i], e.size, e.thread) <==> i < p)
    ensures Sorted(s[p := e])
  {
  }

  lemma {:induction false} InsertedSorted(s: seq<Entry>, e: Entry)
    requires Sorted(s)
    ensures Sorted(Inserted(s, e))
  {
    Partitioned(s, e.size, e.thread);
    var p := InsertionPoint(s, e.size, e.thread);
    if |s| >= MAX_POOL_SIZE {
      SortedReplace(s, if p < |s| then p else |s| - 1, e);
    } else {
      SortedInsert(s, p, e);
    }
  }

  lemma {:induction false} InsertedOk(s: seq<Entry>, e: Entry, k: nat)
    requires SubpoolOk(s, k) && e.addr % Exp2(k) == 0
    ensures SubpoolOk(Inserted(s, e), k) && e in Inserted(s, e)
    ensures |Inserted(s, e)| == if |s| >= MAX_POOL_SIZE then |s| else |s| + 1
  {
    InsertedSorted(s, e);
    InsertedMembers(s, e);
  }

  lemma {:induction false} InsertedMembers(s: seq<Entry>, e: Entry)
    ensures e in Inserted(s, e) && forall x :: x in Inserted(s, e) ==> x == e || x in s
    ensures |Inserted(s, e)| == if |s| >= MAX_POOL_SIZE then |s| else |s| + 1
  {
    var p, r := InsertionPoint(s, e.size, e.thread), Inserted(s, e);
    assert r[if |s| < MAX_POOL_SIZE || p < |s| then p else |s| - 1] == e;
  }

  lemma RemovedOk(s: seq<Entry>, i: nat, k: nat)
    requires SubpoolOk(s, k) && i < |s|
    ensures SubpoolOk(s[..i] + s[i + 1..], k)
  {
  }

  /** A donation goes before the first entry that is larger, or as large and not by an earlier thread;
      a full subpool gives that entry up for it, or its last one if there is none. */
  predicate InsertedAt(s: seq<Entry>, e: Entry, now: seq<Entry>, p: nat) {
    && p <= |s|
    && (forall i :: 0 <= i < p ==> s[i].size < e.size || (s[i].size == e.size && s[i].thread < e.thread))
    && if |s| < 64 then
         && now == s[..p] + [e] + s[p..]
         && (p < |s| ==> s[p].size > e.size || (s[p].size == e.size && s[p].thread >= e.thread))
       else
         && p < |s| && now == s[p := e]
         && (p < |s| - 1 ==> s[p].size > e.size || (s[p].size == e.size && s[p].thread >= e.thread))
  }

  lemma {:induction false} InsertedInPlace(s: seq<Entry>, e: Entry) returns (p: nat)
    ensures |s| <= 64 ==> InsertedAt(s, e, Inserted(s, e), p)
  {
    p := InsertionPoint(s, e.size, e.thread);
    if |s| >= MAX_POOL_SIZE && p == |s| {
      p := |s| - 1;
    }
  }

  // The whole pool.

  /** The index of an alignment's subpool. */
  function TrailingZeros(align: nat): nat {
    if align > 0 && align % 2 == 0 then 1 + TrailingZeros(align / 2) else 0
  }

  lemma {:induction false} TrailingZerosOfPower(k: nat)
    ensures TrailingZeros(Exp2(k)) == k
  {
    if k > 0 {
      TrailingZerosOfPower(k - 1);
    }
  }

  lemma {:induction false} IndexOf(align: nat)
    requires IsPowerOfTwo(align)
    ensures Exp2(TrailingZeros(align)) == align
    ensures forall k: nat :: Exp2(k) == align ==> k == TrailingZeros(align)
  {
    forall k: nat | align == Exp2(k) ensures TrailingZeros(align) == k {
      TrailingZerosOfPower(k);
    }
  }

  /** The subpool of the alignment with this exponent. */
  function ListOf(pool: Pool, k: nat): seq<Entry> {
    if k < |pool| then pool[k] else []
  }

  function Resized(pool: Pool, k: nat): (r: Pool)
    ensures |r| > k && forall i: nat :: ListOf(r, i) == ListOf(pool, i)
  {
    if |pool| <= k then pool + seq(k + 1 - |pool|, _ => []) else pool
  }

  function AddTo(pool: Pool, k: nat, e: Entry): Pool {
    var p := Resized(pool, k);
    p[k := Inserted(p[k], e)]
  }

  datatype Taken = Taken(pool: Pool, entry: Option<Entry>)

  /** A random index of a nonempty range: every choice names one, and every one can be chosen. */
  function Pick(begin: nat, end: nat, choice: nat): nat {
    if begin + choice < end then begin + choice else begin
  }

  /** Takes one of the eligible entries. */
  function TakeFrom(pool: Pool, k: nat, size: nat, thread: nat, crossThread: bool, choice: nat): Taken {
    var p := Resized(pool, k);
    var begin := Begin(p[k], size, thread, crossThread);
    var end := End(p[k], begin, size, thread, crossThread);
    if begin == end then Taken(p, None)
    else
      var i := Pick(begin, end, choice);
      Taken(p[k := p[k][..i] + p[k][i + 1..]], Some(p[k][i]))
  }

  ghost predicate PoolOk(pool: Pool) {
    forall k :: 0 <= k < |pool| ==> SubpoolOk(pool[k], k)
  }

  /** What the taker gets: the address, and the donor's clock unless the donor was the taker. */
  function HandedOut(entry: Option<Entry>, thread: nat): Option<(nat, Option<VClock>)> {
    if entry.None? then None
    else Some((entry.value.addr, if entry.value.thread == thread then None else Some(entry.value.clock)))
  }

  lemma TakeResized(pool: Pool, k: nat, size: nat, thread: nat, crossThread: bool, choice: nat)
    ensures TakeFrom(Resized(pool, k), k, size, thread, crossThread, choice) ==
      TakeFrom(pool, k, size, thread, crossThread, choice)
  {
    assert Resized(Resized(pool, k), k) == Resized(pool, k);
  }

  /** What a take does to its subpool. */
  lemma {:induction false} TakeEffect(
      pool: Pool, k: nat, size: nat, thread: nat, crossThread: bool, choice: nat, r: Taken) returns (i: nat)
    requires r == TakeFrom(pool, k, size, thread, crossThread, choice)
    ensures r.entry.None? ==> ListOf(r.pool, k) == ListOf(pool, k)
    ensures r.entry.Some? ==>
      i < |ListOf(pool, k)| && r.entry.value == ListOf(pool, k)[i] && ListOf(r.pool, k) == ListOf(pool, k)[..i] + ListOf(pool, k)[i + 1..]
  {
    var s := ListOf(pool, k);
    assert Resized(pool, k)[k] == s;
    var begin := Begin(s, size, thread, crossThread);
    i := Pick(begin, End(s, begin, size, thread, crossThread), choice);
  }

  // What a taker may get.

  /** The donation `e` answers the request: it has the size, another thread's only if that is allowed,
      and its clock comes along exactly when it is another thread's. */
  predicate Answers(e: Entry, size: nat, thread: nat, crossThread: bool, got: (nat, Option<VClock>)) {
    && e.size == size && (crossThread || e.thread == thread) && got.0 == e.addr
    && (e.thread != thread ==> got.1 == Some(e.clock))
    && (e.thread == thread ==> got.1 == None)
  }

  ghost predicate AnsweredAt(
      was: seq<Entry>, now: seq<Entry>, size: nat, thread: nat, crossThread: bool, got: (nat, Option<VClock>), i: nat)
  {
    i < |was| && Answers(was[i], size, thread, crossThread, got) && now == was[..i] + was[i + 1..]
  }

  /** One entry that answers is taken out of a subpool; nothing is taken only if none does. */
  ghost predicate Takes(
      was: seq<Entry>, now: seq<Entry>, size: nat, thread: nat, crossThread: bool, taken: Option<(nat, Option<VClock>)>)
  {
    match taken
    case None => now == was && forall e :: e in was ==> !(e.size == size && (crossThread || e.thread == thread))
    case Some(got) => exists i: nat :: AnsweredAt(was, now, size, thread, crossThread, got, i)
  }

  lemma {:induction false} SomeEligible(s: seq<Entry>, size: nat, thread: nat, crossThread: bool)
    requires Sorted(s)
    ensures var begin := Begin(s, size, thread, crossThread);
      begin == End(s, begin, size, thread, crossThread) <==> forall e :: e in s ==> !Eligible(e, size, thread, crossThread)
  {
    var begin := Begin(s, size, thread, crossThread);
    if begin == End(s, begin, size, thread, crossThread) {
      forall i | 0 <= i < |s| ensures !Eligible(s[i], size, thread, crossThread) {
        RangeIsEligible(s, size, thread, crossThread, i);
      }
    } else {
      assert s[begin] in s && Eligible(s[begin], size, thread, crossThread);
    }
  }

  /** A take keeps the pool sorted, bounded and aligned, and touches no other subpool. */
  lemma {:induction false} TakeIsSound(pool: Pool, k: nat, size: nat, thread: nat, crossThread: bool, choice: nat)
    requires PoolOk(pool)
    ensures var r := TakeFrom(pool, k, size, thread, crossThread, choice);
      && PoolOk(r.pool)
      && (r.entry.Some? ==> r.entry.value.addr % Exp2(k) == 0)
      && forall j: nat :: j != k ==> ListOf(r.pool, j) == ListOf(pool, j)
  {
    var p := Resized(pool, k);
    PoolResized(pool, k);
    var begin := Begin(p[k], size, thread, crossThread);
    var end := End(p[k], begin, size, thread, crossThread);
    if begin < end {
      RemovedOk(p[k], Pick(begin, end, choice), k);
    }
  }

  lemma PoolResized(pool: Pool, k: nat)
    requires PoolOk(pool)
    ensures PoolOk(Resized(pool, k)) && SubpoolOk(ListOf(pool, k), k)
  {
    var p := Resized(pool, k);
    forall i: nat | i < |p| ensures SubpoolOk(p[i], i) {
      assert p[i] == ListOf(pool, i);
    }
  }

  /** What comes out was in the subpool and answers the request, and what can come out does for some choice. */
  lemma {:induction false} TakeAnswers(pool: Pool, k: nat, size: nat, thread: nat, crossThread: bool, choice: nat)
    requires PoolOk(pool)
    ensures var r := TakeFrom(pool, k, size, thread, crossThread, choice);
      Takes(ListOf(pool, k), ListOf(r.pool, k), size, thread, crossThread, HandedOut(r.entry, thread))
  {
    PoolResized(pool, k);
    var s := ListOf(pool, k);
    assert Resized(pool, k)[k] == s;
    SomeEligible(s, size, thread, crossThread);
    var begin := Begin(s, size, thread, crossThread);
    var end := End(s, begin, size, thread, crossThread);
    var r := TakeFrom(pool, k, size, thread, crossThread, choice);
    if begin < end {
      var i := Pick(begin, end, choice);
      assert AnsweredAt(s, ListOf(r.pool, k), size, thread, crossThread, HandedOut(r.entry, thread).value, i);
    } else {
      assert forall e :: e in s ==> !Eligible(e, size, thread, crossThread);
    }
  }

  /** Every entry that answers can be the one. */
  lemma {:induction false} AnyCanBeTaken(pool: Pool, k: nat, size: nat, thread: nat, crossThread: bool, i: nat) returns (choice: nat)
    requires PoolOk(pool) && i < |ListOf(pool, k)|
    requires ListOf(pool, k)[i].size == size && (crossThread || ListOf(pool, k)[i].thread == thread)
    ensures TakeFrom(pool, k, size, thread, crossThread, choice).entry == Some(ListOf(pool, k)[i])
  {
    PoolResized(pool, k);
    var s := ListOf(pool, k);
    assert Resized(pool, k)[k] == s;
    RangeIsEligible(s, size, thread, crossThread, i);
    choice := i - Begin(s, size, thread, crossThread);
  }

  /** A donation keeps the pool sorted, bounded and aligned, and touches no other subpool. */
  lemma {:induction false} DonationIsSound(pool: Pool, k: nat, e: Entry)
    requires PoolOk(pool) && e.addr % Exp2(k) == 0
    ensures PoolOk(AddTo(pool, k, e))
    ensures ListOf(AddTo(pool, k, e), k) == Inserted(ListOf(pool, k), e)
    ensures forall j: nat :: j != k ==> ListOf(AddTo(pool, k, e), j) == ListOf(pool, j)
    ensures exists p: nat :: InsertedAt(ListOf(pool, k), e, ListOf(AddTo(pool, k, e), k), p)
  {
    PoolResized(pool, k);
    assert Resized(pool, k)[k] == ListOf(pool, k);
    InsertedOk(ListOf(pool, k), e, k);
    var p := InsertedInPlace(ListOf(pool, k), e);
  }

  /** A take from a subpool that exists already. */
  lemma {:induction false} TakeExisting(
      pool: Pool, k: nat, size: nat, thread: nat, crossThread: bool, choice: nat, begin: nat, end: nat)
    requires k < |pool| && begin == Begin(pool[k], size, thread, crossThread)
    requires end == End(pool[k], begin, size, thread, crossThread)
    ensures TakeFrom(pool, k, size, thread, crossThread, choice) ==
      if begin == end then Taken(pool, None)
      else
        var i := Pick(begin, end, choice);
        Taken(pool[k := pool[k][..i] + pool[k][i + 1..]], Some(pool[k][i]))
  {
  }

  class ReusePool {
    var pool: Pool

    constructor ()
      ensures pool == []
    {
      pool := [];
    }

    method Subpool(align: nat) returns (k: nat)
      modifies this
      ensures IsPowerOfTwo(align) ==> Exp2(k) == align
      ensures k == TrailingZeros(align) && pool == Resized(old(pool), k)
    {
      k := TrailingZeros(align);
      if |pool| <= k {
        pool := pool + seq(k + 1 - |pool|, _ => []);
      }
      if IsPowerOfTwo(align) {
        IndexOf(align);
      }
    }

    /** Donates an address, if `remember` says so and it is not on a stack. */
    method AddAddr(remember: bool, stack: bool, e: Entry, align: nat)
      requires IsPowerOfTwo(align) && align > 0 && e.addr % align == 0 && PoolOk(pool)
      modifies this
      ensures PoolOk(pool)
      ensures stack || !remember ==> pool == old(pool)
      ensures !stack && remember ==> pool == AddTo(old(pool), TrailingZeros(align), e)
      ensures forall k: nat :: Exp2(k) != align ==> ListOf(pool, k) == ListOf(old(pool), k)
      ensures forall k: nat :: Exp2(k) == align && !stack && remember ==>
        exists p: nat :: InsertedAt(ListOf(old(pool), k), e, ListOf(pool, k), p)
    {
      if stack || !remember {
        return;
      }
      IndexOf(align);
      DonationIsSound(pool, TrailingZeros(align), e);
      var k := Subpool(align);
      var s := pool[k];
      var pos := InsertionPoint(s, e.size, e.thread);
      if |s| >= MAX_POOL_SIZE {
        var clamped := if pos < |s| - 1 then pos else |s| - 1;
        pool := pool[k := s[clamped := e]];
        return;
      }
      pool := pool[k := s[..pos] + [e] + s[pos..]];
    }

    /** Removes one entry of a subpool. */
    method RemoveEntry(k: nat, i: nat)
      requires PoolOk(pool) && k < |pool| && i < |pool[k]|
      modifies this
      ensures PoolOk(pool) && pool == old(pool)[k := old(pool)[k][..i] + old(pool)[k][i + 1..]]
    {
      RemovedOk(pool[k], i, k);
      pool := pool[k := pool[k][..i] + pool[k][i + 1..]];
    }

    /** Takes an eligible address out of an existing subpool. */
    method TakeFromSubpool(k: nat, crossThread: bool, choice: nat, size: nat, thread: nat)
      returns (taken: Option<(nat, Option<VClock>)>)
      requires PoolOk(pool) && k < |pool|
      modifies this
      ensures PoolOk(pool)
      ensures var r := TakeFrom(old(pool), k, size, thread, crossThread, choice);
        pool == r.pool && taken == HandedOut(r.entry, thread)
    {
      var s := pool[k];
      var begin := InsertionPoint(s, size, if crossThread then 0 else thread);
      var end := FindEnd(s, begin, size, thread, crossThread);
      TakeExisting(pool, k, size, thread, crossThread, choice, begin, end);
      if end == begin {
        return None;
      }
      var i := Pick(begin, end, choice);
      var chosen := s[i];
      RemoveEntry(k, i);
      return Some((chosen.addr, if chosen.thread == thread then None else Some(chosen.clock)));
    }

    /** Takes an address of this size and alignment, if an attempt is made and there is one; with it
        comes the donor's clock, unless the donor was the same thread. */
    method TakeAddr(attempt: bool, stack: bool, crossThread: bool, choice: nat, size: nat, align: nat, thread: nat)
      returns (taken: Option<(nat, Option<VClock>)>)
      requires IsPowerOfTwo(align) && align > 0 && PoolOk(pool)
      modifies this
      ensures PoolOk(pool)
      ensures stack || !attempt ==> taken == None && pool == old(pool)
      ensures forall k: nat :: Exp2(k) != align ==> ListOf(pool, k) == ListOf(old(pool), k)
      ensures forall k: nat :: Exp2(k) == align && !stack && attempt ==>
        Takes(ListOf(old(pool), k), ListOf(pool, k), size, thread, crossThread, taken)
      ensures var r := TakeFrom(old(pool), TrailingZeros(align), size, thread, crossThread, choice);
        !stack && attempt ==> pool == r.pool && taken == HandedOut(r.entry, thread)
    {
      if stack || !attempt {
        return None;
      }
      IndexOf(align);
      var k := Subpool(align);
      PoolResized(old(pool), k);
      TakeResized(old(pool), k, size, thread, crossThread, choice);
      taken := TakeFromSubpool(k, crossThread, choice, size, thread);
      TakeIsSound(old(pool), k, size, thread, crossThread, choice);
      TakeAnswers(old(pool), k, size, thread, crossThread, choice);
    }
  }

  method FindEnd(s: seq<Entry>, begin: nat, size: nat, thread: nat, crossThread: bool) returns (end: nat)
    requires begin <= |s|
    ensures end == End(s, begin, size, thread, crossThread)
  {
    end := begin;
    while end < |s|
      invariant begin <= end <= |s|
      invariant End(s, begin, size, thread, crossThread) == End(s, end, size, thread, crossThread)
    {
      if s[end].size != size {
        break;
      }
      if !crossThread && s[end].thread != thread {
        break;
      }
      end := end + 1;
    }
  }

  // Runs: no donation comes out more often than it went in, or as something else.

  datatype PoolOp =
    | Donate(align: nat, entry: Entry)
    | Take(align: nat, size: nat, thread: nat, crossThread: bool, choice: nat)

  function Taking(pool: Pool, op: PoolOp): Taken
    requires op.Take?
  {
    TakeFrom(pool, TrailingZeros(op.align), op.size, op.thread, op.crossThread, op.choice)
  }

  function After(pool: Pool, op: PoolOp): Pool {
    if op.Donate? then AddTo(pool, TrailingZeros(op.align), op.entry) else Taking(pool, op).pool
  }

  function RunPool(ops: seq<PoolOp>): Pool {
    if ops == [] then [] else After(RunPool(ops[..|ops| - 1]), ops[|ops| - 1])
  }

  /** What one operation donates, or hands out, at an alignment. */
  function DonatedBy(op: PoolOp, align: nat): multiset<Entry> {
    if op.Donate? && op.align == align then multiset{op.entry} else multiset{}
  }

  function HandedBy(pool: Pool, op: PoolOp, align: nat): multiset<Entry> {
    if op.Take? && op.align == align && Taking(pool, op).entry.Some? then multiset{Taking(pool, op).entry.value}
    else multiset{}
  }

  function Donated(ops: seq<PoolOp>, align: nat): multiset<Entry> {
    if ops == [] then multiset{} else Donated(ops[..|ops| - 1], align) + DonatedBy(ops[|ops| - 1], align)
  }

  function Handed(ops: seq<PoolOp>, align: nat): multiset<Entry> {
    if ops == [] then multiset{}
    else Handed(ops[..|ops| - 1], align) + HandedBy(RunPool(ops[..|ops| - 1]), ops[|ops| - 1], align)
  }

  ghost predicate WellAligned(op: PoolOp) {
    IsPowerOfTwo(op.align) && (op.Donate? ==> op.align > 0 && op.entry.addr % op.align == 0)
  }

  /** An insertion stores the new entry; a full subpool drops one other for it. */
  lemma {:induction false} InsertedEntries(s: seq<Entry>, e: Entry)
    ensures multiset(Inserted(s, e)) <= multiset(s) + multiset{e}
    ensures |s| < 64 ==> multiset(Inserted(s, e)) == multiset(s) + multiset{e}
  {
    var p := InsertionPoint(s, e.size, e.thread);
    assert s == s[..p] + s[p..];
  }

  lemma RemovedEntries(s: seq<Entry>, i: nat)
    requires i < |s|
    ensures multiset(s[..i] + s[i + 1..]) + multiset{s[i]} == multiset(s)
  {
    assert s == s[..i] + [s[i]] + s[i + 1..];
  }

  lemma {:induction false} DonateConserves(pool: Pool, op: PoolOp)
    requires PoolOk(pool) && WellAligned(op) && op.Donate?
    ensures var k := TrailingZeros(op.align);
      PoolOk(After(pool, op)) && multiset(ListOf(After(pool, op), k)) <= multiset(ListOf(pool, k)) + multiset{op.entry}
  {
    IndexOf(op.align);
    DonationIsSound(pool, TrailingZeros(op.align), op.entry);
    InsertedEntries(ListOf(pool, TrailingZeros(op.align)), op.entry);
  }

  lemma {:induction false} TakenEntries(pool: Pool, k: nat, size: nat, thread: nat, crossThread: bool, choice: nat)
    ensures var r := TakeFrom(pool, k, size, thread, crossThread, choice);
      if r.entry.None? then ListOf(r.pool, k) == ListOf(pool, k)
      else multiset(ListOf(r.pool, k)) + multiset{r.entry.value} == multiset(ListOf(pool, k))
  {
    var r := TakeFrom(pool, k, size, thread, crossThread, choice);
    var i := TakeEffect(pool, k, size, thread, crossThread, choice, r);
    if r.entry.Some? {
      RemovedEntries(ListOf(pool, k), i);
    }
  }

  lemma {:induction false} TakeConserves(pool: Pool, op: PoolOp)
    requires PoolOk(pool) && op.Take?
    ensures var k := TrailingZeros(op.align);
      PoolOk(After(pool, op)) && multiset(ListOf(After(pool, op), k)) + HandedBy(pool, op, op.align) == multiset(ListOf(pool, k))
  {
    TakeIsSound(pool, TrailingZeros(op.align), op.size, op.thread, op.crossThread, op.choice);
    TakenEntries(pool, TrailingZeros(op.align), op.size, op.thread, op.crossThread, op.choice);
  }

  lemma {:induction false} OtherSubpools(pool: Pool, op: PoolOp, j: nat)
    requires PoolOk(pool) && WellAligned(op) && j != TrailingZeros(op.align)
    ensures ListOf(After(pool, op), j) == ListOf(pool, j)
  {
    IndexOf(op.align);
    if op.Donate? {
      DonationIsSound(pool, TrailingZeros(op.align), op.entry);
    } else {
      TakeIsSound(pool, TrailingZeros(op.align), op.size, op.thread, op.crossThread, op.choice);
    }
  }

  /** One operation, at one alignment: what is stored or handed out afterwards was stored or is donated. */
  lemma {:induction false} OpConserves(pool: Pool, op: PoolOp, align: nat)
    requires PoolOk(pool) && WellAligned(op) && IsPowerOfTwo(align)
    ensures PoolOk(After(pool, op))
    ensures var k := TrailingZeros(align);
      multiset(ListOf(After(pool, op), k)) + HandedBy(pool, op, align) <= multiset(ListOf(pool, k)) + DonatedBy(op, align)
  {
    if op.Donate? {
      DonateConserves(pool, op);
    } else {
      TakeConserves(pool, op);
    }
    if op.align != align {
      IndexOf(align);
      IndexOf(op.align);
      OtherSubpools(pool, op, TrailingZeros(align));
    }
  }

  lemma Balance(now: multiset<Entry>, out: multiset<Entry>, was: multiset<Entry>, put: multiset<Entry>,
                outs: multiset<Entry>, puts: multiset<Entry>)
    requires now + out <= was + put && was + outs <= puts
    ensures now + (outs + out) <= puts + put
  {
    forall e ensures (now + (outs + out))[e] <= (puts + put)[e] {
      assert (now + out)[e] <= (was + put)[e] && (was + outs)[e] <= puts[e];
    }
  }

  /** After any run, every subpool is sorted and bounded, and no donation at any alignment is stored or
      has been handed out more often than it was made. */
  lemma {:induction false} NothingTwice(ops: seq<PoolOp>, align: nat)
    requires IsPowerOfTwo(align) && forall op :: op in ops ==> WellAligned(op)
    ensures PoolOk(RunPool(ops))
    ensures multiset(ListOf(RunPool(ops), TrailingZeros(align))) + Handed(ops, align) <= Donated(ops, align)
  {
    if ops != [] {
      var n := |ops| - 1;
      var pre, op, k := ops[..n], ops[n], TrailingZeros(align);
      NothingTwice(pre, align);
      OpConserves(RunPool(pre), op, align);
      Balance(multiset(ListOf(After(RunPool(pre), op), k)), HandedBy(RunPool(pre), op, align),
        multiset(ListOf(RunPool(pre), k)), DonatedBy(op, align), Handed(pre, align), Donated(pre, align));
    }
  }

  lemma {:induction false} DonatedWhen(ops: seq<PoolOp>, align: nat, e: Entry) returns (j: nat)
    requires e in Donated(ops, align)
    ensures j < |ops| && ops[j] == Donate(align, e)
  {
    j := |ops| - 1;
    if !(ops[j].Donate? && ops[j].align == align && ops[j].entry == e) {
      j := DonatedWhen(ops[..j], align, e);
    }
  }

  /** After any run, who takes an address gets one that was donated with this size and alignment, and if
      another thread donated it, exactly the clock it was donated with. */
  lemma {:induction false} TakerGetsDonation(ops: seq<PoolOp>, op: PoolOp) returns (j: nat)
    requires op.Take? && WellAligned(op) && forall o :: o in ops ==> WellAligned(o)
    ensures var got := HandedOut(Taking(RunPool(ops), op).entry, op.thread);
      got.Some? ==>
        && j < |ops| && ops[j].Donate? && ops[j].align == op.align
        && Answers(ops[j].entry, op.size, op.thread, op.crossThread, got.value)
  {
    j := 0;
    NothingTwice(ops, op.align);
    var k := TrailingZeros(op.align);
    var s := ListOf(RunPool(ops), k);
    TakeAnswers(RunPool(ops), k, op.size, op.thread, op.crossThread, op.choice);
    var r := Taking(RunPool(ops), op);
    if r.entry.Some? {
      var got := HandedOut(r.entry, op.thread).value;
      var i: nat :| AnsweredAt(s, ListOf(r.pool, k), op.size, op.thread, op.crossThread, got, i);
      assert s[i] in multiset(s);
      j := DonatedWhen(ops, op.align, s[i]);
    }
  }
}
