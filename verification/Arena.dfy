/**
 The bump allocator (src/Arena.c): mask alignment in `size_t` arithmetic, mark and rewind, and
 the safety of every block that is still live.
 */
module Arenas {
  import opened Bytes
  import opened Config
  import opened Numbers

  // ---------------------------------------------------------------- masks

  /** Bitwise and, bit by bit. */
  function BitAnd(x: nat, y: nat): nat {
    if x == 0 || y == 0 then 0
    else 2 * BitAnd(x / 2, y / 2) + if x % 2 == 1 && y % 2 == 1 then 1 else 0
  }

  predicate PowerOfTwo(a: nat) {
    a == 1 || (a > 1 && a % 2 == 0 && PowerOfTwo(a / 2))
  }

  /** The test the allocator asserts on its argument: `align & (align - 1)` is zero. */
  lemma {:induction false} PowerOfTwoTest(a: nat)
    requires a > 0
    ensures BitAnd(a, a - 1) == 0 <==> PowerOfTwo(a)
  {
    if a > 1 {
      if a % 2 == 0 {
        assert (a - 1) / 2 == a / 2 - 1 && (a - 1) % 2 == 1;
        PowerOfTwoTest(a / 2);
        assert BitAnd(a, a - 1) == 2 * BitAnd(a / 2, a / 2 - 1);
      } else {
        assert (a - 1) / 2 == a / 2;
        AndSelf(a / 2);
        assert BitAnd(a, a - 1) == 2 * BitAnd(a / 2, a / 2);
      }
    }
  }

  lemma {:induction false} AndSelf(a: nat)
    ensures BitAnd(a, a) == a
  {
    if a > 0 { AndSelf(a / 2); }
  }

  /** Masking with all ones below a power of two changes nothing below it. */
  lemma {:induction false} AndOnes(x: nat, m: nat)
    requires PowerOfTwo(m) && x < m
    ensures BitAnd(x, m - 1) == x
  {
    if m > 1 {
      assert (m - 1) / 2 == m / 2 - 1 && (m - 1) % 2 == 1;
      AndOnes(x / 2, m / 2);
    }
  }

  /** `x & ~(a - 1)` in a word of `m` values clears the remainder modulo `a`. */
  lemma {:induction false} MaskClears(x: nat, a: nat, m: nat)
    requires PowerOfTwo(a) && PowerOfTwo(m) && a <= m && x < m
    ensures BitAnd(x, m - a) == x - x % a
    decreases a
  {
    if a == 1 {
      AndOnes(x, m);
    } else {
      assert m > 1;
      MaskClears(x / 2, a / 2, m / 2);
      assert (m - a) / 2 == m / 2 - a / 2 && (m - a) % 2 == 0;
      HalfRemainder(x, a / 2);
    }
  }

  lemma HalfRemainder(x: nat, h: nat)
    requires h > 0
    ensures x % (2 * h) == 2 * ((x / 2) % h) + x % 2
  {
    var q, r := (x / 2) / h, (x / 2) % h;
    assert x == 2 * (q * h + r) + x % 2;
    assert x == q * (2 * h) + (2 * r + x % 2);
    RemainderUnique(x, 2 * h, q, 2 * r + x % 2);
  }

  lemma RemainderUnique(x: nat, d: nat, q: nat, r: nat)
    requires d > 0 && r < d && x == q * d + r
    ensures x % d == r
  {
    var q', r' := x / d, x % d;
    assert x == q' * d + r';
    if q' < q { MulMonotone(q' + 1, q, d); } else if q < q' { MulMonotone(q + 1, q', d); }
  }

  lemma Times4(a: nat)
    requires PowerOfTwo(a)
    ensures PowerOfTwo(4 * a)
  {
    assert (2 * a) / 2 == a && (4 * a) / 2 == 2 * a;
    assert PowerOfTwo(2 * a);
  }

  lemma Times256(a: nat)
    requires PowerOfTwo(a)
    ensures PowerOfTwo(256 * a)
  {
    Times4(a);
    Times4(4 * a);
    Times4(16 * a);
    Times4(64 * a);
  }

  lemma WordIsPowerOfTwo()
    ensures PowerOfTwo(SIZE_MOD)
  {
    Times256(1);
    Times256(0x100);
    Times256(0x1_0000);
    Times256(0x100_0000);
    Times256(0x1_0000_0000);
    Times256(0x100_0000_0000);
    Times256(0x1_0000_0000_0000);
    Times256(0x100_0000_0000_0000);
  }

  // ---------------------------------------------------------------- alignment

  /** `(used + (align - 1)) & ~(align - 1)` in size_t arithmetic. */
  function AlignUp(used: nat, align: nat): nat
    requires 0 < align <= SIZE_MOD
  {
    BitAnd(Wrap(used + (align - 1)), SIZE_MOD - align)
  }

  /** Without wrap-around the mask computes the least multiple of `align` from `used` on. */
  lemma AlignUpRounds(used: nat, align: nat)
    requires PowerOfTwo(align) && align <= SIZE_MOD && used + align - 1 < SIZE_MOD
    ensures var r := AlignUp(used, align); r % align == 0 && used <= r < used + align
  {
    hide BitAnd, AlignUp;
    WordIsPowerOfTwo();
    AlignUpIs(used, align, SIZE_MOD);
    MaskRounds(used, align, SIZE_MOD);
  }

  lemma AlignUpIs(used: nat, align: nat, m: nat)
    requires 0 < align <= SIZE_MOD == m && used + align - 1 < SIZE_MOD
    ensures AlignUp(used, align) == BitAnd(used + (align - 1), m - align)
  {
  }

  lemma MaskRounds(used: nat, align: nat, m: nat)
    requires PowerOfTwo(align) && PowerOfTwo(m) && align <= m && used + align - 1 < m
    ensures var r := BitAnd(used + (align - 1), m - align); r % align == 0 && used <= r < used + align
  {
    MaskClears(used + (align - 1), align, m);
    RoundDown(used + (align - 1), align);
  }

  lemma RoundDown(y: nat, d: nat)
    requires d > 0
    ensures var r := y - y % d; r % d == 0 && 0 <= r <= y < r + d
  {
    assert y == (y / d) * d + y % d;
    assert (y / d) * d >= 0;
    RemainderUnique(y - y % d, d, y / d, 0);
  }

  /** The rounded cursor is at or past the old one if and only if the addition does not wrap. */
  lemma AlignUpSafeExactly(used: nat, align: nat)
    requires PowerOfTwo(align) && align < SIZE_MOD && used < SIZE_MOD
    ensures AlignUp(used, align) >= used <==> used + align - 1 < SIZE_MOD
    ensures AlignUp(used, align) % align == 0
  {
    if used + align - 1 < SIZE_MOD {
      AlignUpRounds(used, align);
    } else {
      AlignUpWraps(used, align);
    }
  }

  /** When the addition wraps, the rounded cursor is the start of the region. */
  lemma AlignUpWraps(used: nat, align: nat)
    requires PowerOfTwo(align) && align < SIZE_MOD && used < SIZE_MOD <= used + align - 1
    ensures AlignUp(used, align) == 0
  {
    WordIsPowerOfTwo();
    WrapsInWord(used, align, SIZE_MOD);
  }

  lemma WrapsInWord(used: nat, align: nat, m: nat)
    requires m == SIZE_MOD && PowerOfTwo(m) && PowerOfTwo(align) && align < m && used < m <= used + align - 1
    ensures AlignUp(used, align) == 0
  {
    hide BitAnd, AlignUp;
    WrappedIs(used, align, m);
    MaskDrops(used + (align - 1) - m, align, m);
  }

  lemma WrappedIs(used: nat, align: nat, m: nat)
    requires 0 < align <= SIZE_MOD == m && SIZE_MOD <= used + align - 1 < 2 * SIZE_MOD
    ensures AlignUp(used, align) == BitAnd(used + (align - 1) - m, m - align)
  {
    WrapOnce(used + (align - 1));
  }

  lemma WrapOnce(x: nat)
    requires SIZE_MOD <= x < 2 * SIZE_MOD
    ensures Wrap(x) == x - SIZE_MOD
  {
    RemainderUnique(x, SIZE_MOD, 1, x - SIZE_MOD);
  }

  /** Below one alignment step, masking leaves nothing. */
  lemma MaskDrops(y: nat, align: nat, m: nat)
    requires PowerOfTwo(align) && PowerOfTwo(m) && align <= m && y < align
    ensures BitAnd(y, m - align) == 0
  {
    MaskClears(y, align, m);
    RemainderUnique(y, align, 0, y);
  }

  // ---------------------------------------------------------------- the allocator as functions

  datatype Block = Block(off: nat, len: nat, align: nat)

  /** Capacity, cursor and the blocks handed out and not rewound, oldest first. */
  datatype State = State(cap: nat, used: nat, live: seq<Block>)

  function AllocIn(s: State, n: nat, align: nat): (r: (Option<nat>, State))
    requires 0 < align <= SIZE_MOD
  {
    var aligned := AlignUp(s.used, align);
    if aligned > s.cap || n > s.cap - aligned then (None, s)
    else (Some(aligned), State(s.cap, aligned + n, s.live + [Block(aligned, n, align)]))
  }

  /** The blocks that end at or before `mark`. */
  function KeptBelow(live: seq<Block>, mark: nat): seq<Block> {
    if live == [] || live[|live| - 1].off + live[|live| - 1].len <= mark then live
    else KeptBelow(live[..|live| - 1], mark)
  }

  function ResetIn(s: State, mark: nat): State {
    State(s.cap, mark, KeptBelow(s.live, mark))
  }

  datatype Op = Alloc(n: nat, align: nat) | ResetTo(mark: nat)

  /** No block reaches past the start of the region. */
  predicate AllEmpty(live: seq<Block>) {
    forall i :: 0 <= i < |live| ==> live[i].off + live[i].len == 0
  }

  /** The alignment addition does not wrap, or the request fails, or there is nothing to overlap. */
  predicate StaysClear(s: State, n: nat, align: nat) {
    s.used + align <= SIZE_MOD || n > s.cap || AllEmpty(s.live)
  }

  /** What the source asserts of an operation, and that an allocation stays clear. */
  predicate Allowed(s: State, op: Op) {
    match op
    case Alloc(n, align) => PowerOfTwo(align) && align < SIZE_MOD && StaysClear(s, n, align)
    case ResetTo(mark) => mark <= s.used
  }

  function Apply(s: State, op: Op): State
    requires Allowed(s, op)
  {
    match op
    case Alloc(n, align) => AllocIn(s, n, align).1
    case ResetTo(mark) => ResetIn(s, mark)
  }

  predicate AllAllowed(s: State, ops: seq<Op>)
    decreases |ops|
  {
    ops == [] || (Allowed(s, ops[0]) && AllAllowed(Apply(s, ops[0]), ops[1..]))
  }

  function ApplyAll(s: State, ops: seq<Op>): State
    requires AllAllowed(s, ops)
    decreases |ops|
  {
    if ops == [] then s else ApplyAll(Apply(s, ops[0]), ops[1..])
  }

  // ---------------------------------------------------------------- safety

  predicate Before(a: Block, b: Block) { a.off + a.len <= b.off }

  predicate Ordered(live: seq<Block>) {
    forall i, j :: 0 <= i < j < |live| ==> Before(live[i], live[j])
  }

  predicate WithinAt(live: seq<Block>, used: nat, i: nat)
    requires i < |live|
  {
    live[i].off + live[i].len <= used && live[i].align > 0 && live[i].off % live[i].align == 0
  }

  predicate AllWithin(live: seq<Block>, used: nat) {
    forall i: nat :: i < |live| ==> WithinAt(live, used, i)
  }

  /** Live blocks follow one another, aligned, below the cursor, below the capacity. */
  predicate Safe(s: State) {
    s.used <= s.cap < SIZE_MOD && Ordered(s.live) && AllWithin(s.live, s.used)
  }

  lemma AllocSafe(s: State, n: nat, align: nat)
    requires Safe(s) && PowerOfTwo(align) && align < SIZE_MOD && s.used + align <= SIZE_MOD
    ensures Safe(AllocIn(s, n, align).1)
  {
    AlignUpRounds(s.used, align);
    var (r, t) := AllocIn(s, n, align);
    if r.Some? {
      forall i: nat | i < |t.live| ensures WithinAt(t.live, t.used, i) {
        if i < |s.live| { assert WithinAt(s.live, s.used, i); }
      }
      forall i, j | 0 <= i < j < |t.live| ensures Before(t.live[i], t.live[j]) {
        assert WithinAt(s.live, s.used, i);
        if j < |s.live| { assert Before(s.live[i], s.live[j]); }
      }
    }
  }

  /** After a wrap the block is put at the start of the region. */
  lemma WrappedSafe(s: State, n: nat, align: nat)
    requires Safe(s) && PowerOfTwo(align) && align < SIZE_MOD < s.used + align && n <= s.cap
    ensures AllocIn(s, n, align) == (Some(0), State(s.cap, n, s.live + [Block(0, n, align)]))
    ensures Safe(AllocIn(s, n, align).1) <==> AllEmpty(s.live)
  {
    AlignUpWraps(s.used, align);
    var t := AllocIn(s, n, align).1;
    var k := |s.live|;
    if AllEmpty(s.live) {
      forall i: nat | i < |t.live| ensures WithinAt(t.live, t.used, i) {
        if i < k { assert WithinAt(s.live, s.used, i); }
      }
      forall i, j | 0 <= i < j < |t.live| ensures Before(t.live[i], t.live[j]) {
        if j < k { assert Before(s.live[i], s.live[j]); }
      }
    }
    if Safe(t) {
      forall i | 0 <= i < k ensures s.live[i].off + s.live[i].len == 0 {
        assert Before(t.live[i], t.live[k]);
      }
    }
  }

  /**
   An allocation keeps the arena safe if and only if the alignment addition does not wrap, or
   the request fails, or no live block reaches past the start of the region.
   */
  lemma AllocSafeExactly(s: State, n: nat, align: nat)
    requires Safe(s) && PowerOfTwo(align) && align < SIZE_MOD
    ensures Safe(AllocIn(s, n, align).1) <==> StaysClear(s, n, align)
  {
    if s.used + align <= SIZE_MOD {
      AllocSafe(s, n, align);
    } else {
      AlignUpWraps(s.used, align);
      if n <= s.cap { WrappedSafe(s, n, align); }
    }
  }

  /** Half of the address space. */
  const HALF: nat := SIZE_MOD / 2

  /** An arena with one block of more than half the address space. */
  const HUGE: State := State(SIZE_MOD - 1, HALF + 1, [Block(0, HALF + 1, 1)])

  /** Such an allocation: it succeeds, and its block lies inside the one that is live. */
  lemma WrapOverlaps(n: nat)
    requires 0 < n <= HALF
    ensures Safe(HUGE) && PowerOfTwo(HALF)
    ensures var (r, t) := AllocIn(HUGE, n, HALF);
      r == Some(0) && t.live == [Block(0, HALF + 1, 1), Block(0, n, HALF)] && !Safe(t)
  {
    WordIsPowerOfTwo();
    assert WithinAt(HUGE.live, HUGE.used, 0);
    WrappedSafe(HUGE, n, HALF);
    assert HUGE.live[0].len > 0;
  }

  lemma {:induction false} KeptIsPrefix(live: seq<Block>, mark: nat)
    requires Ordered(live)
    ensures KeptBelow(live, mark) <= live
    ensures forall i :: 0 <= i < |KeptBelow(live, mark)| ==> live[i].off + live[i].len <= mark
    decreases |live|
  {
    if live != [] {
      var last := |live| - 1;
      if live[last].off + live[last].len <= mark {
        forall i | 0 <= i < |live| ensures live[i].off + live[i].len <= mark {
          if i < last { assert Before(live[i], live[last]); }
        }
      } else {
        assert Ordered(live[..last]) by {
          forall i, j | 0 <= i < j < last ensures Before(live[..last][i], live[..last][j]) {
            assert Before(live[i], live[j]);
          }
        }
        KeptIsPrefix(live[..last], mark);
      }
    }
  }

  lemma ResetSafe(s: State, mark: nat)
    requires Safe(s) && mark <= s.used
    ensures Safe(ResetIn(s, mark))
  {
    KeptIsPrefix(s.live, mark);
    var kept := KeptBelow(s.live, mark);
    forall i: nat | i < |kept| ensures WithinAt(kept, mark, i) {
      assert WithinAt(s.live, s.used, i);
    }
    forall i, j | 0 <= i < j < |kept| ensures Before(kept[i], kept[j]) {
      assert Before(s.live[i], s.live[j]);
    }
  }

  /**
   Over every run of allocations and rewinds, live blocks are pairwise disjoint, inside the
   capacity and at aligned offsets.
   */
  lemma {:induction false} RunSafe(s: State, ops: seq<Op>)
    requires Safe(s) && AllAllowed(s, ops)
    ensures Safe(ApplyAll(s, ops))
    ensures var live := ApplyAll(s, ops).live;
      forall i, j :: 0 <= i < j < |live| ==> Before(live[i], live[j])
    decreases |ops|
  {
    if ops != [] {
      match ops[0] {
        case Alloc(n, align) => AllocSafeExactly(s, n, align);
        case ResetTo(mark) => ResetSafe(s, mark);
      }
      RunSafe(Apply(s, ops[0]), ops[1..]);
    }
  }

  // ---------------------------------------------------------------- marks

  /** The blocks `kept` are live below `mark`, and everything else lies above it. */
  predicate HeldBelow(s: State, mark: nat, kept: seq<Block>) {
    && s.used >= mark && kept <= s.live
    && forall i :: |kept| <= i < |s.live| ==> s.live[i].off >= mark
  }

  /** A mark that protects blocks: they end at or before it, and some reach past the start. */
  predicate Protects(mark: nat, kept: seq<Block>) {
    && (forall i :: 0 <= i < |kept| ==> kept[i].off + kept[i].len <= mark)
    && (mark > 0 ==> !AllEmpty(kept))
  }

  predicate RewindsFrom(ops: seq<Op>, mark: nat) {
    forall i :: 0 <= i < |ops| && ops[i].ResetTo? ==> ops[i].mark >= mark
  }

  lemma LastKept(live: seq<Block>, kept: seq<Block>, mark: nat)
    requires live != [] && kept <= live && forall i :: 0 <= i < |kept| ==> kept[i].off + kept[i].len <= mark
    ensures live[|live| - 1].off + live[|live| - 1].len > mark ==> |kept| < |live|
  {
    if |kept| == |live| { assert live[|live| - 1] == kept[|kept| - 1]; }
  }

  lemma {:induction false} KeptHolds(live: seq<Block>, kept: seq<Block>, mark: nat)
    requires kept <= live && forall i :: 0 <= i < |kept| ==> kept[i].off + kept[i].len <= mark
    ensures kept <= KeptBelow(live, mark)
    decreases |live|
  {
    if live != [] && live[|live| - 1].off + live[|live| - 1].len > mark {
      LastKept(live, kept, mark);
      KeptHolds(live[..|live| - 1], kept, mark);
    }
  }

  lemma StepHolds(s: State, op: Op, mark: nat, kept: seq<Block>)
    requires Safe(s) && HeldBelow(s, mark, kept) && Protects(mark, kept) && Allowed(s, op)
    requires op.ResetTo? ==> op.mark >= mark
    ensures Safe(Apply(s, op)) && HeldBelow(Apply(s, op), mark, kept)
  {
    match op
    case Alloc(n, align) =>
      AllocSafeExactly(s, n, align);
      if s.used + align <= SIZE_MOD {
        AlignUpRounds(s.used, align);
      } else {
        AlignUpWraps(s.used, align);
        if mark > 0 {
          var i :| 0 <= i < |kept| && kept[i].off + kept[i].len != 0;
          assert s.live[i] == kept[i];
        }
      }
    case ResetTo(point) =>
      ResetSafe(s, point);
      KeptIsPrefix(s.live, point);
      KeptHolds(s.live, kept, point);
  }

  lemma {:induction false} RunHolds(s: State, ops: seq<Op>, mark: nat, kept: seq<Block>)
    requires Safe(s) && HeldBelow(s, mark, kept) && Protects(mark, kept)
    requires AllAllowed(s, ops) && RewindsFrom(ops, mark)
    ensures Safe(ApplyAll(s, ops)) && HeldBelow(ApplyAll(s, ops), mark, kept)
    decreases |ops|
  {
    if ops != [] {
      StepHolds(s, ops[0], mark, kept);
      assert RewindsFrom(ops[1..], mark) by {
        assert forall i :: 0 <= i < |ops[1..]| ==> ops[1..][i] == ops[i + 1];
      }
      RunHolds(Apply(s, ops[0]), ops[1..], mark, kept);
    }
  }

  /**
   A mark undoes what follows it: after any allocations, and rewinds to it or above, going
   back to the mark restores the cursor and exactly the blocks that were live, but for empty
   ones handed out at the mark itself.
   */
  lemma MarkUndoes(s: State, ops: seq<Op>)
    requires Safe(s) && AllAllowed(s, ops) && RewindsFrom(ops, s.used) && (s.used > 0 ==> !AllEmpty(s.live))
    ensures var r := ResetIn(ApplyAll(s, ops), s.used);
      && r.cap == s.cap && r.used == s.used && s.live <= r.live
      && forall i :: |s.live| <= i < |r.live| ==> r.live[i].off == s.used && r.live[i].len == 0
  {
    forall i | 0 <= i < |s.live| ensures s.live[i].off + s.live[i].len <= s.used {
      assert WithinAt(s.live, s.used, i);
    }
    RunHolds(s, ops, s.used, s.live);
    CapStays(s, ops);
    var t := ApplyAll(s, ops);
    KeptIsPrefix(t.live, s.used);
    KeptHolds(t.live, s.live, s.used);
  }

  lemma {:induction false} CapStays(s: State, ops: seq<Op>)
    requires AllAllowed(s, ops)
    ensures ApplyAll(s, ops).cap == s.cap
    decreases |ops|
  {
    if ops != [] { CapStays(Apply(s, ops[0]), ops[1..]); }
  }

  // ---------------------------------------------------------------- a connection's arena

  const REQ_MARK: nat := MAX_REQUEST_LEN + RESPONSE_BUFFER_SIZE + MAX_DECHUNK_SIZE

  /** The request, response and dechunk buffers carved by connection_init. */
  const BUFFERS: seq<Block> := [
    Block(0, MAX_REQUEST_LEN, 1),
    Block(MAX_REQUEST_LEN, RESPONSE_BUFFER_SIZE, 1),
    Block(MAX_REQUEST_LEN + RESPONSE_BUFFER_SIZE, MAX_DECHUNK_SIZE, 1)]

  lemma AlignByOne(used: nat)
    requires used < SIZE_MOD
    ensures AlignUp(used, 1) == used
  {
    AlignUpRounds(used, 1);
  }

  /** The three allocations of connection_init succeed and leave the cursor at the checkpoint. */
  lemma InitCarves()
    ensures var s1 := AllocIn(State(CONN_ARENA_SIZE, 0, []), MAX_REQUEST_LEN, 1);
      var s2 := AllocIn(s1.1, RESPONSE_BUFFER_SIZE, 1);
      var s3 := AllocIn(s2.1, MAX_DECHUNK_SIZE, 1);
      && s1.0.Some? && s2.0.Some? && s3.0.Some?
      && s3.1 == State(CONN_ARENA_SIZE, REQ_MARK, BUFFERS) && Safe(s3.1)
  {
    AlignByOne(0);
    AlignByOne(MAX_REQUEST_LEN);
    AlignByOne(MAX_REQUEST_LEN + RESPONSE_BUFFER_SIZE);
    var s1 := AllocIn(State(CONN_ARENA_SIZE, 0, []), MAX_REQUEST_LEN, 1).1;
    var s2 := AllocIn(s1, RESPONSE_BUFFER_SIZE, 1).1;
    var s3 := AllocIn(s2, MAX_DECHUNK_SIZE, 1).1;
    AllocSafe(State(CONN_ARENA_SIZE, 0, []), MAX_REQUEST_LEN, 1);
    AllocSafe(s1, RESPONSE_BUFFER_SIZE, 1);
    AllocSafe(s2, MAX_DECHUNK_SIZE, 1);
    assert s3.live == BUFFERS;
  }

  /** The buffers are live and everything else lies above the checkpoint. */
  predicate BuffersHeld(s: State) {
    HeldBelow(s, REQ_MARK, BUFFERS)
  }

  /**
   Whatever the requests of a connection allocate, as long as the arena is only rewound to
   the checkpoint or above, the three buffers stay live and no scratch block overlaps them.
   */
  lemma ScratchApart(s: State, ops: seq<Op>)
    requires Safe(s) && BuffersHeld(s) && AllAllowed(s, ops) && RewindsFrom(ops, REQ_MARK)
    ensures Safe(ApplyAll(s, ops)) && BuffersHeld(ApplyAll(s, ops))
  {
    assert BUFFERS[0].len > 0;
    RunHolds(s, ops, REQ_MARK, BUFFERS);
  }

  // ---------------------------------------------------------------- the allocator

  class Arena {
    const base: nat
    const cap: nat
    var used: nat
    ghost var live: seq<Block>

    ghost function Abs(): State
      reads this
    {
      State(cap, used, live)
    }

    /** arena_init. */
    constructor (mem: nat, cap: nat)
      requires cap > 0
      ensures base == mem && Abs() == State(cap, 0, [])
    {
      base, this.cap, used, live := mem, cap, 0, [];
    }

    /** arena_mark: a point to which going back at once changes nothing. */
    method Mark() returns (m: nat)
      requires Safe(Abs())
      ensures m == used <= cap && ResetIn(Abs(), m) == Abs()
    {
      if live != [] { assert WithinAt(live, used, |live| - 1); }
      return used;
    }

    /** arena_reset_to. */
    method ResetTo(mark: nat)
      requires Safe(Abs()) && mark <= used
      modifies this
      ensures Abs() == ResetIn(old(Abs()), mark) && Safe(Abs())
    {
      ResetSafe(Abs(), mark);
      used := mark;
      live := KeptBelow(live, mark);
    }

    /** arena_reset. */
    method Reset()
      modifies this
      ensures Abs() == State(cap, 0, [])
    {
      used, live := 0, [];
    }

    /**
     arena_alloc: an aligned block above all live ones, or nothing and no change, exactly
     unless the addition wraps onto a live block. The address is aligned if the base is.
     */
    method Allocate(n: nat, align: nat) returns (p: Option<nat>)
      requires Safe(Abs()) && PowerOfTwo(align) && align < SIZE_MOD
      modifies this
      ensures Safe(Abs()) <==> StaysClear(old(Abs()), n, align)
      ensures var (off, s) := AllocIn(old(Abs()), n, align);
        Abs() == s && p == if off.Some? then Some(base + off.value) else None
      ensures p.None? ==> Abs() == old(Abs())
      ensures p.Some? ==> (p.value % align == 0 <==> base % align == 0)
      ensures p.Some? && old(used) + align <= SIZE_MOD ==> old(used) <= p.value - base < old(used) + align
    {
      AllocSafeExactly(Abs(), n, align);
      AlignUpSafeExactly(used, align);
      if used + align <= SIZE_MOD { AlignUpRounds(used, align); }
      var aligned := AlignUp(used, align);
      if aligned > cap || n > cap - aligned { return None; }
      SumAligned(base, aligned, align);
      used := aligned + n;
      live := live + [Block(aligned, n, align)];
      return Some(base + aligned);
    }
  }

  /** connection_init: the request, response and dechunk buffers, then the checkpoint. */
  method CarveBuffers(mem: nat) returns (arena: Arena, mark: nat)
    ensures fresh(arena) && arena.base == mem
    ensures arena.Abs() == State(CONN_ARENA_SIZE, REQ_MARK, BUFFERS) && mark == REQ_MARK
    ensures Safe(arena.Abs()) && BuffersHeld(arena.Abs())
  {
    InitCarves();
    arena := new Arena(mem, CONN_ARENA_SIZE);
    var request := arena.Allocate(MAX_REQUEST_LEN, 1);
    var response := arena.Allocate(RESPONSE_BUFFER_SIZE, 1);
    var dechunked := arena.Allocate(MAX_DECHUNK_SIZE, 1);
    mark := arena.Mark();
  }

  lemma SumAligned(a: nat, b: nat, d: nat)
    requires d > 0 && b % d == 0
    ensures (a + b) % d == 0 <==> a % d == 0
  {
    assert a == (a / d) * d + a % d && b == (b / d) * d;
    assert a + b == (a / d + b / d) * d + a % d;
    RemainderUnique(a + b, d, a / d + b / d, a % d);
  }
}
