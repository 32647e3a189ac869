/** The simulator's memory semantics on values: address wrapping, the cell
    a write leaves, the random choice of an operation, a COPY run, a SPAWN
    countdown and the highlight pass, each as a function of the memory
    before it. The Simulator class is proved to do exactly these. */
module Machine {
  import opened Opcodes
  import opened Options
  import opened Settings
  import CSharp

  // ---------------------------------------------------------------------
  // Addresses

  /** `x % n` into the ring of `n` cells. The source applies C#'s `%` to
      `index + delta + n`; the model uses the Euclidean remainder, which is
      the same whenever that sum is non-negative (see WrapAgreesWithCSharp)
      and stays inside the ring when it is not. */
  function Wrap(x: int, n: int): (r: int)
    requires n > 0
    ensures 0 <= r < n
    ensures 0 <= x < n ==> r == x
    ensures n <= x < 2 * n ==> r == x - n
    ensures -n <= x < 0 ==> r == x + n
  {
    x % n
  }

  lemma WrapAgreesWithCSharp(x: int, n: int)
    requires n > 0 && x >= 0
    ensures Wrap(x, n) == CSharp.Rem(x, n)
  {
  }

  function Direction(reversed: bool): int {
    if reversed then -1 else 1
  }

  /** The next cell a thread visits, one step around the ring. */
  function Advance(ip: int, reversed: bool, n: int): (r: int)
    requires n > 0 && 0 <= ip < n
    ensures 0 <= r < n
    ensures !reversed ==> r == if ip == n - 1 then 0 else ip + 1
    ensures reversed ==> r == if ip == 0 then n - 1 else ip - 1
  {
    Wrap(ip + Direction(reversed) + n, n)
  }

  // ---------------------------------------------------------------------
  // Writing a cell

  /** The cell `SetOperator` leaves behind. */
  function Written(op: Byte, spawnLifeSpan: int): (c: Cell)
    ensures c.Ok() && c.op == op && c.modified == 1
    ensures c.lifespan == if op == SPAWN then spawnLifeSpan else 0
  {
    Cell(op, 1, if op == SPAWN then spawnLifeSpan else 0)
  }

  function SetOp(m: seq<Cell>, i: int, op: Byte, spawnLifeSpan: int): (r: seq<Cell>)
    requires 0 <= i < |m|
    ensures |r| == |m| && r[i] == Written(op, spawnLifeSpan)
    ensures forall k :: 0 <= k < |m| && k != i ==> r[k] == m[k]
  {
    m[i := Written(op, spawnLifeSpan)]
  }

  /** Every cell keeps a countdown only if it is a SPAWN cell. */
  predicate CellsOk(m: seq<Cell>) {
    forall k :: 0 <= k < |m| ==> m[k].Ok()
  }

  // ---------------------------------------------------------------------
  // Random operations

  /** The draws behind one `SetRandomOperator`: the slice drawn from
      `[0, TotalSlice)` and the PUSH literal drawn from `[0, 23)`. */
  datatype OpDraw = OpDraw(slice: int, literal: int)

  predicate OpDrawFits(cfg: Config, d: OpDraw) {
    (cfg.TotalSlice() > 0 ==> 0 <= d.slice < cfg.TotalSlice()) && 0 <= d.literal < 23
  }

  /** The operation `SetRandomOperator` writes, or None when the four weights
      are all zero and it writes nothing. */
  function RandomOp(cfg: Config, d: OpDraw): (r: Option<Byte>)
    requires cfg.Valid() && OpDrawFits(cfg, d)
    ensures r.None? <==> cfg.TotalSlice() == 0
    ensures r.Some? ==> (r.value == COPY <==> d.slice < cfg.copySlice)
    ensures r.Some? ==> (r.value == HALT <==>
      cfg.copySlice <= d.slice < cfg.copySlice + cfg.haltSlice)
    ensures r.Some? ==> (IsPush(r.value) <==>
      cfg.copySlice + cfg.haltSlice <= d.slice < cfg.copySlice + cfg.haltSlice + cfg.pushSlice)
    ensures r.Some? ==> (r.value == SPAWN <==>
      cfg.copySlice + cfg.haltSlice + cfg.pushSlice <= d.slice)
    ensures r.Some? && IsPush(r.value) ==> Literal(r.value) == 11 - d.literal
    ensures r.Some? && IsPush(r.value) ==> -11 <= Literal(r.value) <= 11
  {
    if cfg.TotalSlice() == 0 then None
    else
      var slice := d.slice;
      if slice < cfg.copySlice then Some(COPY)
      else
        var slice := slice - cfg.copySlice;
        if slice < cfg.haltSlice then Some(HALT)
        else if slice - cfg.haltSlice < cfg.pushSlice then Some((PUSH as int + 11 - d.literal) as Byte)
        else Some(SPAWN)
  }

  /** The draws behind one noise write: the cell and the operation. */
  datatype NoiseDraw = NoiseDraw(cell: int, op: OpDraw)

  predicate NoiseFits(cfg: Config, n: int, d: NoiseDraw) {
    0 <= d.cell < n && OpDrawFits(cfg, d.op)
  }

  /** `SetRandomOperator` on a memory value. */
  function RandomWrite(cfg: Config, m: seq<Cell>, i: int, d: OpDraw): (r: seq<Cell>)
    requires cfg.Valid() && 0 <= i < |m| && OpDrawFits(cfg, d)
    ensures |r| == |m|
    ensures forall k :: 0 <= k < |m| && k != i ==> r[k] == m[k]
    ensures CellsOk(m) ==> CellsOk(r)
    ensures cfg.TotalSlice() == 0 ==> r == m
  {
    match RandomOp(cfg, d)
    case None => m
    case Some(op) => SetOp(m, i, op, cfg.spawnLifeSpan)
  }

  /** The noise writes of one cycle, applied in order. */
  function Noise(cfg: Config, m: seq<Cell>, ds: seq<NoiseDraw>): (r: seq<Cell>)
    requires cfg.Valid() && forall d :: d in ds ==> NoiseFits(cfg, |m|, d)
    ensures |r| == |m|
    ensures CellsOk(m) ==> CellsOk(r)
    ensures forall k :: 0 <= k < |m| && (forall d :: d in ds ==> d.cell != k) ==> r[k] == m[k]
    decreases |ds|
  {
    if ds == [] then m
    else
      var last := ds[|ds| - 1];
      assert last in ds;
      assert NoiseFits(cfg, |m|, last);
      assert forall d :: d in ds[..|ds| - 1] ==> d in ds;
      var before := Noise(cfg, m, ds[..|ds| - 1]);
      assert 0 <= last.cell < |before|;
      RandomWrite(cfg, before, last.cell, last.op)
  }

  // ---------------------------------------------------------------------
  // COPY

  /** The cell written by the `i`-th step of a COPY run. */
  function CopyCell(base: int, dir: int, i: int, n: int): (r: int)
    requires n > 0
    ensures 0 <= r < n
  {
    Wrap(base + (i * dir + n), n)
  }

  /** The index the source's copy loop uses at step `i`:
      `(baseIP + offset) % n` with `offset = i * dir + n`, where `baseIP`
      is itself `(ip + arg + n) % n`, both with C#'s remainder. */
  function CopyIndexAsWritten(ip: int, arg: int, dir: int, i: int, n: int): int
    requires n > 0
  {
    CSharp.Rem(CSharp.Rem(ip + arg + n, n) + (i * dir + n), n)
  }

  /** A reversed copy from a thread that has stepped to cell 1 of a 2 x 2
      memory, with the popped offset -11 (the literal of PUSH - 11): at
      step 3 the source indexes cell `(-2 + -3 + 4) % 4`, which C#
      evaluates to -1, so the array access throws. `CopyCell` gives the
      cell the ring wrap intends. */
  lemma CopyIndexEscapes()
    ensures CSharp.Rem(1 + -11 + 4, 4) == -2
    ensures CopyIndexAsWritten(1, -11, -1, 3, 4) == -1
    ensures CopyCell(Wrap(1 + -11 + 4, 4), -1, 3, 4) == 3
  {
  }

  /** A forward copy never leaves the ring, whatever the offset. */
  lemma ForwardCopyIndexInRing(ip: int, arg: int, i: int, n: int)
    requires n > 0 && i >= 0
    ensures 0 <= CopyIndexAsWritten(ip, arg, 1, i, n) < n
  {
  }

  /** Wherever the source's index is a cell, it is the cell `CopyCell`
      names: the model differs from the source only where the source
      throws. */
  lemma CopyIndexAgrees(ip: int, arg: int, dir: int, i: int, n: int)
    requires n > 0 && CopyIndexAsWritten(ip, arg, dir, i, n) >= 0
    ensures CopyIndexAsWritten(ip, arg, dir, i, n) == CopyCell(Wrap(ip + arg + n, n), dir, i, n)
  {
    var a := ip + arg + n;
    var c := i * dir + n;
    var b := CSharp.Rem(a, n);
    var x := b + c;
    var rx := CSharp.Rem(x, n);
    assert 0 <= rx < n;
    ModUnique(x, CSharp.Div(x, n), rx, n);
    var k := a / n - CSharp.Div(a, n);
    assert x == (a % n + c) + k * n by {
      assert a == CSharp.Div(a, n) * n + b;
      assert a == (a / n) * n + a % n;
      assert k * n == (a / n) * n - CSharp.Div(a, n) * n;
    }
    ModShift(a % n + c, k, n);
  }

  /** Adding a multiple of `n` does not change the remainder. */
  lemma ModShift(x: int, k: int, n: int)
    requires n > 0
    ensures (x + k * n) % n == x % n
  {
    var q := x / n;
    var r := x % n;
    assert x + k * n == (q + k) * n + r by {
      assert x == q * n + r;
      assert (q + k) * n == q * n + k * n;
    }
    ModUnique(x + k * n, q + k, r, n);
  }

  /** Euclidean division is unique: a remainder in `[0, n)` is `y % n`. */
  lemma ModUnique(y: int, q: int, r: int, n: int)
    requires n > 0 && 0 <= r < n && y == q * n + r
    ensures y % n == r
  {
    var d := q - y / n;
    assert d * n == y % n - r by {
      assert y == (y / n) * n + y % n;
      assert d * n == q * n - (y / n) * n;
    }
  }

  /** The cells a COPY run of `count` steps writes, in order. */
  function CopyTargets(dst: int, dir: int, count: int, n: int): (r: seq<int>)
    requires n > 0
    ensures |r| == if count <= 0 then 0 else count
    ensures forall i :: 0 <= i < |r| ==> r[i] == CopyCell(dst, dir, i, n)
  {
    seq(if count <= 0 then 0 else count, i requires 0 <= i => CopyCell(dst, dir, i, n))
  }

  /** The memory after the first `count` steps of a COPY run: step `i`
      writes, through `SetOperator`, the operation then at source cell `i`
      into destination cell `i`. Steps read the memory as the earlier steps
      left it, so overlapping regions smear. */
  function CopyRun(m: seq<Cell>, src: int, dst: int, dir: int, count: int, spawnLifeSpan: int): (r: seq<Cell>)
    requires |m| > 0
    ensures |r| == |m|
    decreases count
  {
    if count <= 0 then m
    else
      var prev := CopyRun(m, src, dst, dir, count - 1, spawnLifeSpan);
      var n := |m|;
      SetOp(prev, CopyCell(dst, dir, count - 1, n), prev[CopyCell(src, dir, count - 1, n)].op, spawnLifeSpan)
  }

  /** Step `k` of a COPY run, seen from the run of `next` = `k` + 1 steps:
      it writes the operation under source cell `k` into destination cell `k`. */
  lemma CopyRunNext(m: seq<Cell>, src: int, dst: int, dir: int, k: int, next: int, L: int)
    requires |m| > 0 && k >= 0 && next == k + 1
    ensures var prev := CopyRun(m, src, dst, dir, k, L);
      CopyRun(m, src, dst, dir, next, L)
        == SetOp(prev, CopyCell(dst, dir, k, |m|), prev[CopyCell(src, dir, k, |m|)].op, L)
  {
  }

  /** A COPY run changes only the destination cells. */
  lemma {:induction false} CopyRunFrame(m: seq<Cell>, src: int, dst: int, dir: int, count: int, L: int, k: int)
    requires |m| > 0 && 0 <= k < |m|
    requires k !in CopyTargets(dst, dir, count, |m|)
    ensures CopyRun(m, src, dst, dir, count, L)[k] == m[k]
    decreases count
  {
    if count > 0 {
      assert CopyTargets(dst, dir, count - 1, |m|) == CopyTargets(dst, dir, count, |m|)[..count - 1];
      CopyRunFrame(m, src, dst, dir, count - 1, L, k);
      assert k != CopyTargets(dst, dir, count, |m|)[count - 1];
    }
  }

  /** Every destination cell ends up freshly written: highlighted with
      `modified == 1` and with the countdown of its operation, even where
      the copied operation equals the one it replaced. */
  lemma {:induction false} CopyRunMarks(m: seq<Cell>, src: int, dst: int, dir: int, count: int, L: int, i: int)
    requires |m| > 0 && 0 <= i < count
    ensures var c := CopyRun(m, src, dst, dir, count, L)[CopyCell(dst, dir, i, |m|)];
            c == Written(c.op, L)
    decreases count
  {
    var n := |m|;
    var last := count - 1;
    CopyRunNext(m, src, dst, dir, last, count, L);
    if i != last && CopyCell(dst, dir, i, n) != CopyCell(dst, dir, last, n) {
      CopyRunMarks(m, src, dst, dir, last, L, i);
    }
  }

  /** A COPY run keeps every countdown on a SPAWN cell. */
  lemma {:induction false} CopyRunKeepsCellsOk(m: seq<Cell>, src: int, dst: int, dir: int, count: int, L: int)
    requires |m| > 0 && CellsOk(m)
    ensures CellsOk(CopyRun(m, src, dst, dir, count, L))
    decreases count
  {
    if count > 0 {
      CopyRunKeepsCellsOk(m, src, dst, dir, count - 1, L);
    }
  }

  /** When no source cell is also a destination cell and no destination
      repeats, a COPY run copies the source region: destination `i` ends
      with the operation source `i` had before. */
  lemma {:induction false} CopyRunCopies(m: seq<Cell>, src: int, dst: int, dir: int, count: int, L: int, i: int)
    requires |m| > 0 && 0 <= i < count
    requires forall a, b :: 0 <= a < b < count ==> CopyCell(dst, dir, a, |m|) != CopyCell(dst, dir, b, |m|)
    requires forall a, b :: 0 <= a < count && 0 <= b < count ==> CopyCell(src, dir, a, |m|) != CopyCell(dst, dir, b, |m|)
    ensures CopyRun(m, src, dst, dir, count, L)[CopyCell(dst, dir, i, |m|)].op == m[CopyCell(src, dir, i, |m|)].op
    decreases count
  {
    var n := |m|;
    if i == count - 1 {
      var s := CopyCell(src, dir, i, n);
      CopyRunNext(m, src, dst, dir, i, count, L);
      assert s !in CopyTargets(dst, dir, i, n);
      CopyRunFrame(m, src, dst, dir, i, L, s);
    } else {
      var last := count - 1;
      CopyRunNext(m, src, dst, dir, last, count, L);
      CopyRunCopies(m, src, dst, dir, last, L, i);
      assert CopyCell(dst, dir, i, n) != CopyCell(dst, dir, last, n);
    }
  }

  // ---------------------------------------------------------------------
  // SPAWN

  /** The countdown SPAWN runs on the cell at `i`: a positive countdown
      drops by one, and a cell whose countdown reaches zero is rewritten to
      HALT through `SetOperator`. */
  function SpawnTick(m: seq<Cell>, i: int, spawnLifeSpan: int): (r: seq<Cell>)
    requires 0 <= i < |m|
    ensures |r| == |m|
    ensures forall k :: 0 <= k < |m| && k != i ==> r[k] == m[k]
  {
    if m[i].lifespan > 0 then
      var c := m[i].(lifespan := m[i].lifespan - 1);
      if c.lifespan <= 0 then SetOp(m[i := c], i, HALT, spawnLifeSpan) else m[i := c]
    else m
  }

  /** A tick leaves a cell without a countdown alone; otherwise the cell stays
      a SPAWN cell one tick shorter, or turns into a fresh HALT on the last
      tick. Either way every countdown stays on a SPAWN cell. */
  lemma SpawnTickCases(m: seq<Cell>, i: int, L: int)
    requires 0 <= i < |m| && CellsOk(m)
    ensures var r := SpawnTick(m, i, L);
      && CellsOk(r)
      && (m[i].op != SPAWN || m[i].lifespan <= 0 ==> r == m)
      && (m[i].lifespan > 1 ==> r[i] == Cell(SPAWN, m[i].modified, m[i].lifespan - 1))
      && (m[i].lifespan == 1 ==> r[i] == Cell(HALT, 1, 0))
  {
  }

  // ---------------------------------------------------------------------
  // Highlight

  /** The highlight pass: every cell under a thread gets `modified == 2`. */
  function Highlighted(m: seq<Cell>, ips: set<int>): (r: seq<Cell>)
    ensures |r| == |m|
    ensures forall k :: 0 <= k < |m| ==> r[k].op == m[k].op && r[k].lifespan == m[k].lifespan
    ensures forall k :: 0 <= k < |m| ==> r[k].modified == if k in ips then 2 else m[k].modified
  {
    seq(|m|, k requires 0 <= k < |m| => if k in ips then m[k].(modified := 2) else m[k])
  }

  /** Highlighting one more cell is a single-cell update. */
  lemma HighlightedAdd(m: seq<Cell>, ips: set<int>, x: int)
    requires 0 <= x < |m|
    ensures var h := Highlighted(m, ips);
      Highlighted(m, ips + {x}) == h[x := h[x].(modified := 2)]
  {
  }

  // ---------------------------------------------------------------------
  // Cycle timing

  /** How many whole cycles of `ms` milliseconds the drain loop runs when
      the accumulator holds `p`. */
  function CyclesDue(p: int, ms: int): (c: nat)
    requires ms > 0
    ensures c == 0 <==> p < ms
    decreases if p < 0 then 0 else p
  {
    if p < ms then 0 else 1 + CyclesDue(p - ms, ms)
  }

  /** What the drain loop leaves in an accumulator holding `p`. */
  function Leftover(p: int, ms: int): (r: int)
    requires ms > 0
    ensures r < ms && r <= p
    ensures p >= 0 ==> r >= 0
    decreases if p < 0 then 0 else p
  {
    if p < ms then p else Leftover(p - ms, ms)
  }

  /** The accumulator keeps exactly what is left after the due cycles are
      taken out. */
  lemma {:induction false} LeftoverIsRemainder(p: int, ms: int)
    requires ms > 0
    ensures Leftover(p, ms) == p - CyclesDue(p, ms) * ms
    decreases if p < 0 then 0 else p
  {
    if p >= ms {
      LeftoverIsRemainder(p - ms, ms);
      var c := CyclesDue(p - ms, ms);
      assert (c + 1) * ms == c * ms + ms;
    }
  }

  /** The drain loop runs floor(p / ms) cycles: that many whole cycles fit
      in `p`, one more does not, and what is left lies in `[0, ms)`. */
  lemma {:induction false} CyclesDueIsFloor(p: int, ms: int)
    requires ms > 0 && p >= 0
    ensures CyclesDue(p, ms) * ms <= p < CyclesDue(p, ms) * ms + ms
    decreases p
  {
    if p >= ms {
      CyclesDueIsFloor(p - ms, ms);
      var c := CyclesDue(p - ms, ms);
      assert (c + 1) * ms == c * ms + ms;
    }
  }
}
