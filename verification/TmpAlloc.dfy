/** The states of the mark and release allocator of tal-notreent.c, and every nested run. */
module TmpModel {
  import opened Arith

  /** __TMP_ALIGN */
  type Alignment = n: nat | n >= 1 witness 8
  const ALIGN: Alignment

  /** The space that a chunk needs for its header, rounded up to the alignment. */
  type HeaderSize = n: nat | n % ALIGN == 0 witness 0
  const HSIZ: HeaderSize

  /** A chunk by its addresses: memory from addr to end, in use below allocPoint. */
  datatype Chunk = Chunk(addr: nat, end: nat, allocPoint: nat)

  /** The chunk stack, bottom first, with current_total_allocation and max_total_allocation. */
  datatype Stack = Stack(chunks: seq<Chunk>, total: nat, max: nat)

  function Top(st: Stack): Chunk
    requires st.chunks != []
  {
    st.chunks[|st.chunks| - 1]
  }

  /** (x + __TMP_ALIGN - 1) & -__TMP_ALIGN, the alignment being a power of two. */
  function RoundUp(x: nat): (r: nat)
    ensures x <= r < x + ALIGN && r % ALIGN == 0
  {
    var y := x + ALIGN - 1;
    RoundDown(y, ALIGN);
    y - y % ALIGN
  }

  lemma RoundDown(y: nat, a: int)
    requires a >= 1
    ensures 0 <= y % a < a && (y - y % a) % a == 0
  {
    assert y - y % a == (y / a) * a;
    var q := y / a;
    assert (q * a) % a == 0 by { MultipleMod(q, a); }
  }

  lemma MultipleMod(q: int, a: int)
    requires a >= 1
    ensures (q * a) % a == 0
  {
    DivModUnique(q * a, a, q, 0);
  }

  lemma SumMod(x: int, y: int, a: int)
    requires a >= 1 && x % a == 0 && y % a == 0
    ensures (x + y) % a == 0
  {
    var p, q := x / a, y / a;
    assert x + y == (p + q) * a;
    MultipleMod(p + q, a);
  }

  // The stack --------------------------------------------------------------------------

  /** The bytes of a chunk that blocks can use. */
  function Payload(c: Chunk): nat {
    if c.end >= c.addr + HSIZ then c.end - c.addr - HSIZ else 0
  }

  function Payloads(chunks: seq<Chunk>): nat {
    if |chunks| <= 1 then 0 else Payloads(chunks[..|chunks| - 1]) + Payload(chunks[|chunks| - 1])
  }

  ghost predicate Apart(c: Chunk, d: Chunk) {
    c.end <= d.addr || d.end <= c.addr
  }

  /** The bottom chunk is the static xxx, which has no room; the others have their payload
      behind the header, and all have their memory to themselves. */
  ghost predicate StackOk(chunks: seq<Chunk>) {
    && chunks != [] && chunks[0].addr <= chunks[0].end == chunks[0].allocPoint
    && (forall i :: 0 <= i < |chunks| ==> chunks[i].allocPoint % ALIGN == 0 && chunks[i].allocPoint <= chunks[i].end)
    && (forall i :: 1 <= i < |chunks| ==> chunks[i].addr + HSIZ <= chunks[i].allocPoint)
    && (forall i, j :: 0 <= i < j < |chunks| ==> Apart(chunks[i], chunks[j]))
  }

  ghost predicate TotalsOk(st: Stack) {
    StackOk(st.chunks) && st.total == Payloads(st.chunks) && st.total <= st.max
  }

  lemma {:induction false} PayloadsIgnoreAllocPoint(chunks: seq<Chunk>, i: nat, p: nat)
    requires i < |chunks|
    ensures Payloads(chunks[i := chunks[i].(allocPoint := p)]) == Payloads(chunks)
  {
    var n := |chunks| - 1;
    var t := chunks[i := chunks[i].(allocPoint := p)];
    if n > 0 {
      if i < n {
        assert t[..n] == chunks[..n][i := chunks[..n][i].(allocPoint := p)];
        PayloadsIgnoreAllocPoint(chunks[..n], i, p);
      } else {
        assert t[..n] == chunks[..n];
      }
    }
  }

  // Allocation -------------------------------------------------------------------------

  /** The total after a new chunk for a request of this size. */
  function NewTotal(st: Stack, size: nat): nat {
    var now := st.total + size;
    if now > st.max then RoundUp(now * 3 / 2) else st.max
  }

  function ChunkSize(st: Stack, size: nat): int { NewTotal(st, size) - st.total + HSIZ }

  predicate NeedsChunk(st: Stack, size: nat)
    requires st.chunks != []
  {
    size > Top(st).end - Top(st).allocPoint
  }

  /** What the allocation function promises of the memory it hands out at place. */
  ghost predicate Free(chunks: seq<Chunk>, place: nat, size: int) {
    && place % ALIGN == 0
    && forall i :: 0 <= i < |chunks| ==> place + size <= chunks[i].addr || chunks[i].end <= place
  }

  /** The stack with a chunk for the request, if the current one is too small. */
  function Grown(st: Stack, size: nat, place: nat): Stack
    requires st.chunks != []
  {
    if NeedsChunk(st, size) then
      NewTotalNatural(st, size);
      var total := NewTotal(st, size);
      Stack(st.chunks + [Chunk(place, place + ChunkSize(st, size), place + HSIZ)], total, total)
    else st
  }

  lemma NewTotalNatural(st: Stack, size: nat)
    ensures NewTotal(st, size) >= st.total + size
    ensures ChunkSize(st, size) >= size + HSIZ
  {
  }

  /** The stack and the block after size bytes were cut off at the allocation point. */
  function Take(g: Stack, size: nat): (r: (Stack, nat))
    requires g.chunks != []
    ensures r.0.chunks != []
  {
    var n := |g.chunks| - 1;
    (g.(chunks := g.chunks[n := g.chunks[n].(allocPoint := g.chunks[n].allocPoint + size)]), g.chunks[n].allocPoint)
  }

  /** __gmp_tmp_alloc */
  function Alloc(st: Stack, size: nat, place: nat): (r: (Stack, nat))
    requires st.chunks != []
    ensures r.0.chunks != []
  {
    Take(Grown(st, size, place), size)
  }

  /** The chunk that is then current has room for the request. */
  lemma GrownFits(st: Stack, size: nat, place: nat)
    requires TotalsOk(st) && (NeedsChunk(st, size) ==> Free(st.chunks, place, ChunkSize(st, size)))
    ensures TotalsOk(Grown(st, size, place)) && !NeedsChunk(Grown(st, size, place), size)
  {
    var g := Grown(st, size, place);
    if NeedsChunk(st, size) {
      NewTotalNatural(st, size);
      SumMod(place, HSIZ, ALIGN);
      assert g.chunks[..|g.chunks| - 1] == st.chunks;
    }
  }

  /** A new chunk takes the total up to the maximum. A request that fits under the maximum so far leaves it alone;
      another one moves it to three halves of what is then needed, rounded up to the alignment. */
  lemma GrowthOfTotals(st: Stack, size: nat, place: nat)
    requires st.chunks != [] && NeedsChunk(st, size)
    ensures var (g, now) := (Grown(st, size, place), st.total + size);
            && g.total == g.max && |g.chunks| == |st.chunks| + 1
            && Top(g).end - Top(g).allocPoint == g.total - st.total
            && (now <= st.max ==> g.max == st.max)
            && (now > st.max ==> g.max % ALIGN == 0 && 3 * now - 1 <= 2 * g.max < 3 * now + 2 * ALIGN)
  {
  }

  lemma AllocKeepsTotals(st: Stack, size: nat, place: nat)
    requires TotalsOk(st) && size % ALIGN == 0
    requires NeedsChunk(st, size) ==> Free(st.chunks, place, ChunkSize(st, size))
    ensures TotalsOk(Alloc(st, size, place).0)
  {
    GrownFits(st, size, place);
    var g := Grown(st, size, place);
    hide StackOk, Payloads, Grown, Take, NeedsChunk;
    TakeKeepsTotals(g, size);
  }

  lemma TakeKeepsTotals(g: Stack, size: nat)
    requires TotalsOk(g) && size % ALIGN == 0 && !NeedsChunk(g, size)
    ensures TotalsOk(Take(g, size).0)
  {
    var n := |g.chunks| - 1;
    hide StackOk, Payloads;
    TopRoom(g, size);
    AdvanceTop(g.chunks, size);
    PayloadsIgnoreAllocPoint(g.chunks, n, g.chunks[n].allocPoint + size);
  }

  lemma TopRoom(g: Stack, size: nat)
    requires StackOk(g.chunks) && !NeedsChunk(g, size)
    ensures g.chunks != [] && size <= Top(g).end - Top(g).allocPoint
  {
  }

  lemma AdvanceTop(chunks: seq<Chunk>, size: nat)
    requires StackOk(chunks) && size % ALIGN == 0
    requires var c := chunks[|chunks| - 1]; size <= c.end - c.allocPoint
    ensures var n := |chunks| - 1;
            StackOk(chunks[n := chunks[n].(allocPoint := chunks[n].allocPoint + size)])
  {
    var n := |chunks| - 1;
    SumMod(chunks[n].allocPoint, size, ALIGN);
    var t := chunks[n := chunks[n].(allocPoint := chunks[n].allocPoint + size)];
    forall i, j | 0 <= i < j < |t|
      ensures Apart(t[i], t[j])
    {
      assert Apart(chunks[i], chunks[j]);
    }
  }

  // Release ----------------------------------------------------------------------------

  /** __gmp_tmp_free to a mark in chunk number c: later chunks go, and this one is in use up
      to the mark again. */
  function Release(st: Stack, c: nat, allocPoint: nat): Stack
    requires c < |st.chunks|
  {
    Stack(st.chunks[..c] + [st.chunks[c].(allocPoint := allocPoint)], Payloads(st.chunks[..c + 1]), st.max)
  }

  // Nested runs ------------------------------------------------------------------------

  /** A live block in chunk number chunk. */
  datatype Block = Block(chunk: nat, start: nat, size: nat)

  /** A mark: chunk and allocation point, as the source keeps them. saved and blocks record what
      was on the stack and how many blocks were live when it was made. */
  datatype Mark = Mark(chunk: nat, allocPoint: nat, saved: seq<Chunk>, blocks: nat)

  datatype World = World(st: Stack, blocks: seq<Block>, marks: seq<Mark>)

  datatype Op = AllocOp(size: nat, place: nat) | MarkOp | FreeOp(mark: nat)

  ghost predicate Allowed(w: World, op: Op) {
    w.st.chunks != [] &&
    match op
    case AllocOp(size, place) =>
      size % ALIGN == 0 && (NeedsChunk(w.st, size) ==> Free(w.st.chunks, place, ChunkSize(w.st, size)))
    case MarkOp => true
    case FreeOp(k) => k < |w.marks| && w.marks[k].chunk < |w.st.chunks|
  }

  /** One call; a release drops its own mark and the later ones. */
  ghost function Step(w: World, op: Op): World
    requires Allowed(w, op)
  {
    match op
    case AllocOp(size, place) =>
      var r := Alloc(w.st, size, place);
      World(r.0, w.blocks + [Block(|r.0.chunks| - 1, r.1, size)], w.marks)
    case MarkOp =>
      w.(marks := w.marks + [Mark(|w.st.chunks| - 1, Top(w.st).allocPoint, w.st.chunks, |w.blocks|)])
    case FreeOp(k) =>
      var m := w.marks[k];
      var blocks := if m.blocks <= |w.blocks| then w.blocks[..m.blocks] else w.blocks;
      World(Release(w.st, m.chunk, m.allocPoint), blocks, w.marks[..k])
  }

  ghost predicate Disjoint(a: Block, b: Block) {
    a.start + a.size <= b.start || b.start + b.size <= a.start
  }

  /** The block lies in the used payload of its chunk; an empty one may lie in the static one. */
  ghost predicate Inside(b: Block, chunks: seq<Chunk>) {
    && b.chunk < |chunks| && b.start % ALIGN == 0
    && (if b.chunk == 0 then b.start == chunks[0].end && b.size == 0 else chunks[b.chunk].addr + HSIZ <= b.start)
    && b.start + b.size <= chunks[b.chunk].allocPoint
  }

  ghost predicate Good(chunks: seq<Chunk>, blocks: seq<Block>) {
    && StackOk(chunks)
    && (forall i :: 0 <= i < |blocks| ==> Inside(blocks[i], chunks))
    && (forall i, j :: 0 <= i < j < |blocks| ==> Disjoint(blocks[i], blocks[j]))
  }

  /** t came from s by allocation: more chunks, and more used of the last one of s. */
  ghost predicate Extends(s: seq<Chunk>, t: seq<Chunk>) {
    && 1 <= |s| <= |t| && (forall i :: 0 <= i < |s| - 1 ==> t[i] == s[i])
    && t[|s| - 1] == s[|s| - 1].(allocPoint := t[|s| - 1].allocPoint)
    && s[|s| - 1].allocPoint <= t[|s| - 1].allocPoint
  }

  lemma ExtendsTrans(s: seq<Chunk>, t: seq<Chunk>, u: seq<Chunk>)
    requires Extends(s, t) && Extends(t, u)
    ensures Extends(s, u)
  {
  }

  ghost predicate MarkOk(m: Mark, chunks: seq<Chunk>, blocks: seq<Block>) {
    && Extends(m.saved, chunks) && m.chunk == |m.saved| - 1 && m.allocPoint == m.saved[m.chunk].allocPoint
    && m.blocks <= |blocks| && Good(m.saved, blocks[..m.blocks])
  }

  ghost predicate Inv(w: World) {
    && TotalsOk(w.st) && Good(w.st.chunks, w.blocks)
    && (forall k :: 0 <= k < |w.marks| ==> MarkOk(w.marks[k], w.st.chunks, w.blocks))
    && (forall j, k :: 0 <= j < k < |w.marks| ==>
          Extends(w.marks[j].saved, w.marks[k].saved) && w.marks[j].blocks <= w.marks[k].blocks)
  }

  ghost predicate Initial(w: World) {
    && |w.st.chunks| == 1 && StackOk(w.st.chunks) && w.st.total == 0 && w.st.max == 0
    && w.blocks == [] && w.marks == []
  }

  lemma InitialInv(w: World)
    requires Initial(w)
    ensures Inv(w)
  {
  }

  // One allocation -----------------------------------------------------------------------

  lemma GrownExtends(st: Stack, size: nat, place: nat)
    requires st.chunks != []
    ensures Extends(st.chunks, Alloc(st, size, place).0.chunks)
  {
  }

  /** Growing a chunk stack leaves every block inside its chunk. */
  lemma InsideExtends(b: Block, s: seq<Chunk>, t: seq<Chunk>)
    requires Inside(b, s) && Extends(s, t)
    ensures Inside(b, t)
  {
  }

  /** The new block starts where its chunk was still unused. */
  lemma NewBlock(st: Stack, size: nat, place: nat)
    requires TotalsOk(st) && size % ALIGN == 0
    requires NeedsChunk(st, size) ==> Free(st.chunks, place, ChunkSize(st, size))
    ensures var r := Alloc(st, size, place);
            var b := Block(|r.0.chunks| - 1, r.1, size);
            Inside(b, r.0.chunks) && (b.chunk < |st.chunks| ==> st.chunks[b.chunk].allocPoint == b.start)
  {
    GrownFits(st, size, place);
    AllocKeepsTotals(st, size, place);
  }

  /** A block that was live is apart from one at the allocation point of the last chunk. */
  lemma OldBlockApart(b: Block, n: Block, s: seq<Chunk>, t: seq<Chunk>)
    requires StackOk(t) && Extends(s, t) && Inside(b, s) && Inside(n, t) && n.chunk == |t| - 1
    requires n.chunk < |s| ==> s[n.chunk].allocPoint == n.start
    ensures Disjoint(b, n)
  {
    InsideExtends(b, s, t);
    if b.chunk < n.chunk {
      assert Apart(t[b.chunk], t[n.chunk]);
    }
  }

  lemma AllocKeepsGood(st: Stack, blocks: seq<Block>, size: nat, place: nat)
    requires TotalsOk(st) && Good(st.chunks, blocks) && size % ALIGN == 0
    requires NeedsChunk(st, size) ==> Free(st.chunks, place, ChunkSize(st, size))
    ensures var r := Alloc(st, size, place);
            TotalsOk(r.0) && Good(r.0.chunks, blocks + [Block(|r.0.chunks| - 1, r.1, size)])
  {
    var r := Alloc(st, size, place);
    var b := Block(|r.0.chunks| - 1, r.1, size);
    hide Alloc;
    AllocKeepsTotals(st, size, place);
    GrownExtends(st, size, place);
    NewBlock(st, size, place);
    forall i | 0 <= i < |blocks|
      ensures Inside(blocks[i], r.0.chunks) && Disjoint(blocks[i], b)
    {
      InsideExtends(blocks[i], st.chunks, r.0.chunks);
      OldBlockApart(blocks[i], b, st.chunks, r.0.chunks);
    }
  }

  lemma MarkSurvives(m: Mark, s: seq<Chunk>, t: seq<Chunk>, blocks: seq<Block>, more: seq<Block>)
    requires MarkOk(m, s, blocks) && Extends(s, t)
    ensures MarkOk(m, t, blocks + more)
  {
    ExtendsTrans(m.saved, s, t);
    assert (blocks + more)[..m.blocks] == blocks[..m.blocks];
  }

  lemma AllocKeepsInv(w: World, size: nat, place: nat)
    requires Inv(w) && Allowed(w, AllocOp(size, place))
    ensures Inv(Step(w, AllocOp(size, place)))
  {
    hide Good, Extends, MarkOk, Alloc, TotalsOk, NeedsChunk;
    var v := Step(w, AllocOp(size, place));
    AllocKeepsGood(w.st, w.blocks, size, place);
    GrownExtends(w.st, size, place);
    forall k | 0 <= k < |w.marks|
      ensures MarkOk(v.marks[k], v.st.chunks, v.blocks)
    {
      MarkSurvives(w.marks[k], w.st.chunks, v.st.chunks, w.blocks, v.blocks[|w.blocks|..]);
      assert v.blocks == w.blocks + v.blocks[|w.blocks|..];
    }
  }

  lemma ExtendsRefl(s: seq<Chunk>)
    requires s != []
    ensures Extends(s, s)
  {
  }

  lemma MarkKeepsInv(w: World)
    requires Inv(w)
    ensures Allowed(w, MarkOp) && Inv(Step(w, MarkOp))
  {
    hide Good, Extends;
    assert w.st.chunks != [] by { assert StackOk(w.st.chunks); }
    var v := Step(w, MarkOp);
    ExtendsRefl(w.st.chunks);
    assert w.blocks[..|w.blocks|] == w.blocks;
    assert MarkOk(v.marks[|w.marks|], v.st.chunks, v.blocks);
  }

  // One release ------------------------------------------------------------------------

  /** Release undoes everything since the mark: the chunk stack is the one that was marked. */
  lemma ReleaseRestores(st: Stack, saved: seq<Chunk>)
    requires Extends(saved, st.chunks)
    ensures var c := |saved| - 1;
            Release(st, c, saved[c].allocPoint) == Stack(saved, Payloads(saved), st.max)
  {
    hide Payloads;
    var c := |saved| - 1;
    TruncatedIs(saved, st.chunks);
    PayloadsIgnoreAllocPoint(st.chunks[..c + 1], c, saved[c].allocPoint);
  }

  lemma {:induction false} PayloadsMono(chunks: seq<Chunk>, n: nat)
    requires 1 <= n <= |chunks|
    ensures Payloads(chunks[..n]) <= Payloads(chunks)
    decreases |chunks|
  {
    var k := |chunks| - 1;
    if n <= k {
      PayloadsMono(chunks[..k], n);
      assert chunks[..k][..n] == chunks[..n];
    } else {
      assert chunks[..n] == chunks;
    }
  }

  /** The totals after a release. */
  lemma ReleaseTotals(st: Stack, saved: seq<Chunk>)
    requires TotalsOk(st) && Extends(saved, st.chunks) && StackOk(saved)
    ensures TotalsOk(Stack(saved, Payloads(saved), st.max))
  {
    hide Payloads, StackOk;
    var c := |saved| - 1;
    TruncatedIs(saved, st.chunks);
    PayloadsIgnoreAllocPoint(st.chunks[..c + 1], c, saved[c].allocPoint);
    PayloadsMono(st.chunks, c + 1);
  }

  lemma TruncatedIs(s: seq<Chunk>, t: seq<Chunk>)
    requires Extends(s, t)
    ensures var c := |s| - 1;
            var u := t[..c + 1];
            && s == u[c := u[c].(allocPoint := s[c].allocPoint)]
            && s == t[..c] + [t[c].(allocPoint := s[c].allocPoint)]
  {
  }

  lemma FreeKeepsInv(w: World, k: nat)
    requires Inv(w) && k < |w.marks|
    ensures Allowed(w, FreeOp(k)) && Inv(Step(w, FreeOp(k)))
    ensures var v := Step(w, FreeOp(k));
            && v.st.chunks == w.marks[k].saved && v.st.total == Payloads(w.marks[k].saved)
            && v.blocks == w.blocks[..w.marks[k].blocks]
  {
    hide Good, Extends, Release, StackOk, Payloads;
    var m := w.marks[k];
    assert MarkOk(m, w.st.chunks, w.blocks);
    ExtendsSize(m.saved, w.st.chunks);
    ReleaseRestores(w.st, m.saved);
    var v := Step(w, FreeOp(k));
    GoodStack(m.saved, v.blocks);
    ReleaseTotals(w.st, m.saved);
    forall j | 0 <= j < k
      ensures MarkOk(v.marks[j], v.st.chunks, v.blocks)
    {
      EarlierMark(w, j, k);
    }
  }

  lemma EarlierMark(w: World, j: nat, k: nat)
    requires Inv(w) && j < k < |w.marks|
    ensures w.marks[k].blocks <= |w.blocks|
    ensures MarkOk(w.marks[j], w.marks[k].saved, w.blocks[..w.marks[k].blocks])
  {
    hide Good, Extends, TotalsOk;
    assert MarkOk(w.marks[j], w.st.chunks, w.blocks);
    assert MarkOk(w.marks[k], w.st.chunks, w.blocks);
    assert w.blocks[..w.marks[k].blocks][..w.marks[j].blocks] == w.blocks[..w.marks[j].blocks];
  }

  lemma ExtendsSize(s: seq<Chunk>, t: seq<Chunk>)
    requires Extends(s, t)
    ensures 1 <= |s| <= |t|
  {
  }

  lemma GoodStack(chunks: seq<Chunk>, blocks: seq<Block>)
    requires Good(chunks, blocks)
    ensures StackOk(chunks)
  {
  }

  // Runs -------------------------------------------------------------------------------

  ghost predicate Runs(w: World, ops: seq<Op>)
    decreases |ops|
  {
    ops == [] || (Allowed(w, ops[0]) && Runs(Step(w, ops[0]), ops[1..]))
  }

  ghost function After(w: World, ops: seq<Op>): World
    requires Runs(w, ops)
    decreases |ops|
  {
    if ops == [] then w else After(Step(w, ops[0]), ops[1..])
  }

  lemma StepKeepsInv(w: World, op: Op)
    requires Inv(w) && Allowed(w, op)
    ensures Inv(Step(w, op))
  {
    match op
    case AllocOp(size, place) => AllocKeepsInv(w, size, place);
    case MarkOp => MarkKeepsInv(w);
    case FreeOp(k) => FreeKeepsInv(w, k);
  }

  /** In every state of every nested run the live blocks are disjoint, aligned and inside their
      chunks, and the total is what the chunks hold and at most the maximum. */
  lemma {:induction false} RunKeepsInv(w: World, ops: seq<Op>)
    requires Inv(w) && Runs(w, ops)
    ensures Inv(After(w, ops))
    decreases |ops|
  {
    if ops != [] {
      StepKeepsInv(w, ops[0]);
      RunKeepsInv(Step(w, ops[0]), ops[1..]);
    }
  }

  /** Allocations, marks and releases of later marks, on top of n marks. */
  ghost predicate Above(w: World, ops: seq<Op>, n: nat)
    requires Runs(w, ops)
    decreases |ops|
  {
    ops == [] || ((ops[0].FreeOp? ==> ops[0].mark >= n) && Above(Step(w, ops[0]), ops[1..], n))
  }

  lemma {:induction false} MarksStay(w: World, ops: seq<Op>, n: nat)
    requires Runs(w, ops) && Above(w, ops, n) && n <= |w.marks|
    ensures n <= |After(w, ops).marks| && After(w, ops).marks[..n] == w.marks[..n]
    decreases |ops|
  {
    if ops != [] {
      var v := Step(w, ops[0]);
      assert v.marks[..n] == w.marks[..n];
      MarksStay(v, ops[1..], n);
    }
  }

  /** The blocks that were live at a mark stay live, and first in order. */
  lemma {:induction false} BlocksStay(w: World, ops: seq<Op>, n: nat)
    requires Inv(w) && Runs(w, ops) && Above(w, ops, n + 1) && n < |w.marks|
    ensures w.marks[n].blocks <= |w.blocks| && w.marks[n].blocks <= |After(w, ops).blocks|
    ensures After(w, ops).blocks[..w.marks[n].blocks] == w.blocks[..w.marks[n].blocks]
    decreases |ops|
  {
    hide Inv, Allowed;
    MarkCount(w, n);
    if ops != [] {
      var v := Step(w, ops[0]);
      StepKeepsInv(w, ops[0]);
      BlocksAfterStep(w, ops[0], n);
      BlocksStay(v, ops[1..], n);
    }
  }

  lemma MarkCount(w: World, n: nat)
    requires Inv(w) && n < |w.marks|
    ensures w.marks[n].blocks <= |w.blocks|
    ensures forall k :: n < k < |w.marks| ==> w.marks[n].blocks <= w.marks[k].blocks <= |w.blocks|
  {
    hide Good, Extends, TotalsOk;
    forall k | n <= k < |w.marks|
      ensures w.marks[k].blocks <= |w.blocks|
    {
      assert MarkOk(w.marks[k], w.st.chunks, w.blocks);
    }
  }

  lemma BlocksAfterStep(w: World, op: Op, n: nat)
    requires Inv(w) && Allowed(w, op) && n < |w.marks| && (op.FreeOp? ==> op.mark > n)
    ensures var v := Step(w, op);
            && n < |v.marks| && v.marks[n] == w.marks[n]
            && w.marks[n].blocks <= |w.blocks| && w.marks[n].blocks <= |v.blocks|
            && v.blocks[..w.marks[n].blocks] == w.blocks[..w.marks[n].blocks]
  {
    hide Inv;
    MarkCount(w, n);
  }

  /** Marking, any nested run, and releasing the mark: the chunks, the allocation points, the
      total and the live blocks are those from before. */
  lemma MarkReleaseRestores(w: World, ops: seq<Op>)
    requires Inv(w) && Allowed(w, MarkOp)
    requires Runs(Step(w, MarkOp), ops) && Above(Step(w, MarkOp), ops, |w.marks| + 1)
    ensures var v := After(Step(w, MarkOp), ops);
            && Allowed(v, FreeOp(|w.marks|))
            && Step(v, FreeOp(|w.marks|)) == World(w.st.(max := v.st.max), w.blocks, w.marks)
  {
    hide Inv, Runs, Above, Allowed;
    MarkKeepsInv(w);
    var m := Step(w, MarkOp);
    RunKeepsInv(m, ops);
    var n := |w.marks|;
    MarksStay(m, ops, n + 1);
    BlocksStay(m, ops, n);
    var v := After(m, ops);
    assert v.marks[..n + 1][n] == m.marks[n] && v.marks[..n + 1][..n] == v.marks[..n];
    FreeKeepsInv(v, n);
    TotalIs(w);
    assert w.blocks[..|w.blocks|] == w.blocks && m.marks[..n] == w.marks;
    FreeFields(v, n);
  }

  lemma TotalIs(w: World)
    requires Inv(w)
    ensures w.st.total == Payloads(w.st.chunks)
  {
  }

  lemma FreeFields(w: World, k: nat)
    requires Allowed(w, FreeOp(k))
    ensures Step(w, FreeOp(k)).marks == w.marks[..k] && Step(w, FreeOp(k)).st.max == w.st.max
  {
  }
}

/** The allocator on its linked chunk headers. */
module TmpAllocator {
  import opened TmpModel

  /** struct tmp_stack, at address addr */
  class TmpStack {
    const addr: nat
    var end: nat
    var allocPoint: nat
    var prev: TmpStack?

    constructor (addr: nat, end: nat, allocPoint: nat, prev: TmpStack?)
      ensures this.addr == addr && this.end == end && this.allocPoint == allocPoint && this.prev == prev
    {
      this.addr, this.end, this.allocPoint, this.prev := addr, end, allocPoint, prev;
    }

    function Shown(): Chunk
      reads this
    {
      Chunk(addr, end, allocPoint)
    }
  }

  /** struct tmp_marker */
  datatype TmpMarker = TmpMarker(whichChunk: TmpStack, allocPoint: nat)

  class Allocator {
    var current: TmpStack
    var currentTotalAllocation: nat
    var maxTotalAllocation: nat
    ghost var headers: seq<TmpStack>   // from xxx up to current
    ghost var chunks: seq<Chunk>       // what they show

    ghost predicate Linked()
      reads this, headers
    {
      && headers != [] && current == headers[|headers| - 1] && |chunks| == |headers|
      && (forall i :: 0 <= i < |headers| ==> headers[i].Shown() == chunks[i])
      && (forall i :: 0 < i < |headers| ==> headers[i].prev == headers[i - 1])
      && (forall i, j :: 0 <= i < j < |headers| ==> headers[i] != headers[j])
    }

    ghost function View(): Stack
      reads this
    {
      Stack(chunks, currentTotalAllocation, maxTotalAllocation)
    }

    ghost predicate Valid()
      reads this, headers
    {
      Linked() && TotalsOk(View())
    }

    /** The static header xxx, at an aligned address. */
    constructor (xxx: nat)
      requires xxx % ALIGN == 0
      ensures Valid() && fresh(current) && View() == Stack([Chunk(xxx, xxx, xxx)], 0, 0)
    {
      var x := new TmpStack(xxx, xxx, xxx, null);
      current := x;
      currentTotalAllocation := 0;
      maxTotalAllocation := 0;
      headers := [x];
      chunks := [Chunk(xxx, xxx, xxx)];
    }

    /** The branch that gets a chunk; place is where the allocation function puts it. */
    method Grow(size: nat, place: nat)
      requires Valid() && NeedsChunk(View(), size) && Free(chunks, place, ChunkSize(View(), size))
      modifies this
      ensures Linked() && fresh(current) && View() == Grown(old(View()), size, place)
    {
      hide StackOk, Payloads, Free;
      NewTotalNatural(View(), size);
      var chunkSize: int;
      var now := currentTotalAllocation + size;
      if now > maxTotalAllocation {
        now := RoundUp(now * 3 / 2);
        chunkSize := now - currentTotalAllocation + HSIZ;
        currentTotalAllocation := now;
        maxTotalAllocation := currentTotalAllocation;
      } else {
        chunkSize := maxTotalAllocation - currentTotalAllocation + HSIZ;
        currentTotalAllocation := maxTotalAllocation;
      }
      var header := new TmpStack(place, place + chunkSize, place + HSIZ, current);
      headers := headers + [header];
      chunks := chunks + [Chunk(place, place + chunkSize, place + HSIZ)];
      current := header;
    }

    /** The end of __gmp_tmp_alloc: the block is cut off. */
    method TakeTop(size: nat) returns (that: nat)
      requires Linked()
      modifies this, current
      ensures Linked() && View() == Take(old(View()), size).0 && that == Take(old(View()), size).1
    {
      that := current.allocPoint;
      current.allocPoint := that + size;
      ghost var n := |chunks| - 1;
      chunks := chunks[n := chunks[n].(allocPoint := that + size)];
    }

    /** The beginning of __gmp_tmp_alloc: the current chunk has room afterwards. */
    method MakeRoom(size: nat, place: nat)
      requires Valid() && (NeedsChunk(View(), size) ==> Free(chunks, place, ChunkSize(View(), size)))
      modifies this
      ensures Linked() && (current == old(current) || fresh(current))
      ensures View() == Grown(old(View()), size, place)
    {
      hide TotalsOk, Free, ChunkSize;
      if size > current.end - current.allocPoint {
        Grow(size, place);
      }
    }

    /** __gmp_tmp_alloc */
    method Alloc(size: nat, place: nat) returns (that: nat)
      requires Valid() && size % ALIGN == 0
      requires NeedsChunk(View(), size) ==> Free(chunks, place, ChunkSize(View(), size))
      modifies this, current
      ensures Valid() && View() == TmpModel.Alloc(old(View()), size, place).0
      ensures that == TmpModel.Alloc(old(View()), size, place).1
      ensures that % ALIGN == 0
    {
      AllocKeepsTotals(View(), size, place);
      GrownFits(View(), size, place);
      hide StackOk, Payloads, Free, TotalsOk, Take, ChunkSize, Grown, NeedsChunk;
      MakeRoom(size, place);
      AlignedTop(View(), size);
      that := TakeTop(size);
    }

    /** __gmp_tmp_mark */
    method Mark() returns (mark: TmpMarker)
      requires Valid()
      ensures mark == TmpMarker(headers[|headers| - 1], Top(View()).allocPoint)
    {
      mark := TmpMarker(current, current.allocPoint);
    }

    /** __gmp_tmp_free: c is the place of the marked chunk on the stack. */
    method FreeTo(mark: TmpMarker, ghost c: nat)
      requires Valid() && c < |headers| && headers[c] == mark.whichChunk
      modifies this, mark.whichChunk
      ensures Linked() && headers == old(headers[..c + 1])
      ensures View() == Release(old(View()), c, mark.allocPoint)
    {
      PopTo(mark, c);
      current.allocPoint := mark.allocPoint;
      chunks := chunks[c := chunks[c].(allocPoint := mark.allocPoint)];
    }

    /** The loop: chunks after the marked one are given back. */
    method PopTo(mark: TmpMarker, ghost c: nat)
      requires Valid() && c < |headers| && headers[c] == mark.whichChunk
      modifies this
      ensures Linked() && headers == old(headers[..c + 1])
      ensures View() == Stack(old(chunks[..c + 1]), Payloads(old(chunks[..c + 1])), old(maxTotalAllocation))
    {
      hide TotalsOk, Linked, Popped, Payload;
      ghost var cs, hs := chunks, headers;
      ghost var n: int := |hs| - 1;
      AtMark(c);
      PoppedNone(hs, View());
      while mark.whichChunk != current
        invariant c <= n && Linked() && Popped(hs, cs, n, headers, chunks, currentTotalAllocation)
        invariant maxTotalAllocation == old(maxTotalAllocation)
        invariant mark.whichChunk == current <==> n == c
        decreases n
      {
        PoppedOne(hs, cs, n, headers, chunks, currentTotalAllocation);
        Pop();
        n := n - 1;
        PoppedAt(hs, cs, n, headers, chunks, currentTotalAllocation, c);
        AtMark(c);
      }
      PoppedDone(hs, cs, n, headers, chunks, currentTotalAllocation);
    }

    /** The current chunk is number c of the stack exactly when c is the last one. */
    lemma AtMark(c: nat)
      requires Linked() && c < |headers|
      ensures headers[c] == current <==> |headers| == c + 1
      ensures |chunks| == |headers|
    {
    }

    /** The last chunk goes back to the system. */
    method Pop()
      requires Linked() && |chunks| == |headers| >= 2
      requires var top := chunks[|chunks| - 1]; Payload(top) <= currentTotalAllocation && top.addr + HSIZ <= top.end
      modifies this
      ensures Linked() && headers == old(headers[..|headers| - 1]) && chunks == old(chunks[..|chunks| - 1])
      ensures currentTotalAllocation == old(currentTotalAllocation - Payload(chunks[|chunks| - 1]))
      ensures maxTotalAllocation == old(maxTotalAllocation)
    {
      ghost var n := |headers| - 1;
      var tmp := current;
      assert tmp.Shown() == chunks[n] && tmp.prev == headers[n - 1];
      current := tmp.prev;
      currentTotalAllocation := currentTotalAllocation - (tmp.end - tmp.addr - HSIZ);
      headers := headers[..n];
      chunks := chunks[..n];
    }
  }

  lemma AlignedTop(st: Stack, size: nat)
    requires TotalsOk(st)
    ensures Take(st, size).1 % ALIGN == 0
  {
  }

  /** Of the headers hs, which show cs, those after number n are gone. */
  ghost predicate Popped(hs: seq<TmpStack>, cs: seq<Chunk>, n: int, headers: seq<TmpStack>, chunks: seq<Chunk>,
                         total: int)
  {
    && 0 <= n < |hs| == |cs| && headers == hs[..n + 1] && chunks == cs[..n + 1]
    && total == Payloads(chunks)
    && forall i :: 1 <= i < |cs| ==> cs[i].addr + HSIZ <= cs[i].end
  }

  lemma PoppedNone(hs: seq<TmpStack>, st: Stack)
    requires TotalsOk(st) && |hs| == |st.chunks|
    ensures Popped(hs, st.chunks, |hs| - 1, hs, st.chunks, st.total)
  {
    hide Payloads;
    var cs := st.chunks;
    PrefixOk(cs);
    assert hs[..|hs|] == hs && cs[..|cs|] == cs;
  }

  lemma PoppedOne(hs: seq<TmpStack>, cs: seq<Chunk>, n: int, headers: seq<TmpStack>, chunks: seq<Chunk>, total: int)
    requires Popped(hs, cs, n, headers, chunks, total) && n >= 1
    ensures |headers| == |chunks| == n + 1
    ensures Payload(chunks[n]) <= total && chunks[n].addr + HSIZ <= chunks[n].end
    ensures Popped(hs, cs, n - 1, headers[..n], chunks[..n], total - Payload(chunks[n]))
  {
    PopPayload(cs, n);
    assert hs[..n + 1][..n] == hs[..n];
  }

  lemma PoppedAt(hs: seq<TmpStack>, cs: seq<Chunk>, n: int, headers: seq<TmpStack>, chunks: seq<Chunk>, total: int,
                 c: nat)
    requires Popped(hs, cs, n, headers, chunks, total) && c <= n
    ensures c < |headers| == n + 1 && headers[c] == hs[c]
  {
  }

  lemma PoppedDone(hs: seq<TmpStack>, cs: seq<Chunk>, n: int, headers: seq<TmpStack>, chunks: seq<Chunk>, total: int)
    requires Popped(hs, cs, n, headers, chunks, total)
    ensures 0 <= n < |hs| == |cs| && headers == hs[..n + 1] && chunks == cs[..n + 1] && total == Payloads(cs[..n + 1])
  {
  }

  lemma PrefixOk(cs: seq<Chunk>)
    requires StackOk(cs)
    ensures forall n :: 1 <= n < |cs| ==> cs[n].addr + HSIZ <= cs[n].end
  {
  }

  lemma PopPayload(cs: seq<Chunk>, n: nat)
    requires 1 <= n < |cs| && cs[n].addr + HSIZ <= cs[n].end
    ensures Payloads(cs[..n + 1]) == Payloads(cs[..n]) + Payload(cs[n])
    ensures cs[..n + 1][..n] == cs[..n] && cs[..n + 1][n] == cs[n]
  {
    assert cs[..n + 1][..n] == cs[..n];
  }
}
