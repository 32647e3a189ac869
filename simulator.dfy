/** The simulator: a ring of cells, the threads that walk it, and the queue
    of visual effects their actions leave behind. */
module Sim {
  import opened Opcodes
  import opened Options
  import opened Settings
  import opened Effects
  import opened Threads
  import opened Machine
  import opened Seqs

  /** The draws behind one new thread: its cell, and the coin that makes it
      reversed when reversing is enabled. */
  datatype BirthDraw = BirthDraw(cell: int, coin: int)

  /** Everything one cycle draws: the noise writes, the new threads, and the
      pick `victim(kills, count)` of the random trim. */
  datatype CycleDraws = CycleDraws(
    noise: seq<NoiseDraw>,
    births: seq<BirthDraw>,
    victim: (nat, nat) -> nat)

  /** The effect queue after the first `count` steps of a COPY run: with
      copy effects `on`, each step queues a zoom at the cell it writes. */
  function CopyZooms(q: seq<Effect>, on: bool, dst: int, dir: int, count: int, n: int): (r: seq<Effect>)
    requires n > 0
    ensures NoDuplicates(q) ==> NoDuplicates(r)
    ensures !on ==> r == q
    ensures forall x :: x in q ==> x in r
    ensures forall x :: x in r ==> x in q || exists i :: 0 <= i < count && x == ZoomEffect(CopyCell(dst, dir, i, n))
    ensures on ==> forall i :: 0 <= i < count ==> Holds(r, ZoomEffect(CopyCell(dst, dir, i, n)))
    decreases count
  {
    if !on || count <= 0 then q
    else
      var before := CopyZooms(q, on, dst, dir, count - 1, n);
      var r := Enqueue(before, ZoomEffect(CopyCell(dst, dir, count - 1, n)));
      forall i | 0 <= i < count - 1
        ensures Holds(r, ZoomEffect(CopyCell(dst, dir, i, n)))
      {
        HoldsKept(before, r, ZoomEffect(CopyCell(dst, dir, i, n)));
      }
      r
  }

  /** Step `k` of a COPY run, seen from the queue after `next` = `k` + 1
      steps: it queues the zoom of destination cell `k` when effects are on. */
  lemma CopyZoomsNext(q: seq<Effect>, on: bool, dst: int, dir: int, k: int, next: int, n: int)
    requires n > 0 && k >= 0 && next == k + 1
    ensures CopyZooms(q, on, dst, dir, next, n)
      == if on then Enqueue(CopyZooms(q, on, dst, dir, k, n), ZoomEffect(CopyCell(dst, dir, k, n))) else q
  {
  }

  /** How many times `for (i = 0; i < x; i++)` runs. */
  function Count(x: int): nat {
    if x < 0 then 0 else x
  }

  /** What the trim reads of a thread: its age, its direction and its cell. */
  datatype Mark = Mark(age: int, reversed: bool, ip: int)

  /** The marks of the threads, in list order. */
  function Marks(ts: seq<Thread>): (r: seq<Mark>)
    reads set t | t in ts
    ensures |r| == |ts|
    ensures forall i :: 0 <= i < |ts| ==> r[i] == Mark(ts[i].age, ts[i].isReversed, ts[i].ip)
  {
    if ts == [] then [] else [Mark(ts[0].age, ts[0].isReversed, ts[0].ip)] + Marks(ts[1..])
  }

  /** `ms` holds the marks of `ts`, in list order. */
  ghost predicate Marked(ms: seq<Mark>, ts: seq<Thread>)
    reads set t | t in ts
  {
    |ms| == |ts| && forall i :: 0 <= i < |ts| ==> ms[i] == Mark(ts[i].age, ts[i].isReversed, ts[i].ip)
  }

  /** Taking a thread out of a list takes its mark out of the marks. */
  lemma MarkedRemove(ms: seq<Mark>, ts: seq<Thread>, k: nat)
    requires Marked(ms, ts) && k < |ts|
    ensures Marked(ms[..k] + ms[k + 1..], ts[..k] + ts[k + 1..])
  {
    var a, b := ms[..k] + ms[k + 1..], ts[..k] + ts[k + 1..];
    forall i | 0 <= i < |b|
      ensures a[i] == Mark(b[i].age, b[i].isReversed, b[i].ip)
    {
      if i >= k {
        assert a[i] == ms[i + 1] && b[i] == ts[i + 1];
      }
    }
  }

  /** The ages of the marks, in list order. */
  function Ages(ms: seq<Mark>): (r: seq<int>)
    ensures |r| == |ms|
    ensures forall i :: 0 <= i < |ms| ==> r[i] == ms[i].age
  {
    if ms == [] then [] else [ms[0].age] + Ages(ms[1..])
  }

  /** `First(x => x.Age == Max(y => y.Age))`: the first of the oldest. */
  function Oldest(ms: seq<Mark>): (k: nat)
    requires |ms| > 0
    ensures k < |ms|
    ensures forall j :: 0 <= j < |ms| ==> ms[j].age <= ms[k].age
    ensures forall j :: 0 <= j < k ==> ms[j].age < ms[k].age
  {
    var ages := Ages(ms);
    assert forall x :: x in ages ==> exists j :: 0 <= j < |ms| && x == ms[j].age;
    var k := FirstIndex(ages, Max(ages));
    assert forall j :: 0 <= j < |ms| ==> ages[j] in ages;
    k
  }

  /** The cells under the threads. */
  ghost function IPs(ts: seq<Thread>): (r: set<int>)
    reads set t | t in ts
    ensures forall t :: t in ts ==> t.ip in r
    decreases |ts|
  {
    if ts == [] then {}
    else
      var init := ts[..|ts| - 1];
      assert forall t :: t in ts ==> t in init || t == ts[|ts| - 1];
      IPs(init) + {ts[|ts| - 1].ip}
  }

  /** The cells under one more thread of a list. */
  lemma IPsNext(ts: seq<Thread>, i: nat, next: nat)
    requires i < |ts| && next == i + 1
    ensures IPs(ts[..next]) == IPs(ts[..i]) + {ts[i].ip}
  {
    assert ts[..next][..i] == ts[..i];
  }

  /** Threads `i` and `j` of the list have different stack arrays. */
  predicate StacksApart(ts: seq<Thread>, i: int, j: int)
    requires 0 <= i < |ts| && 0 <= j < |ts|
  {
    ts[i].stack != ts[j].stack
  }

  /** No two threads of the list share a stack array. */
  predicate OwnStacks(ts: seq<Thread>) {
    forall i, j {:trigger StacksApart(ts, i, j)} :: 0 <= i < |ts| && 0 <= j < |ts| && i != j ==> StacksApart(ts, i, j)
  }

  /** A thread with a stack of its own keeps the stacks apart in front. */
  lemma PrependOwnStacks(t: Thread, ts: seq<Thread>)
    requires OwnStacks(ts) && forall u :: u in ts ==> u.stack != t.stack
    ensures OwnStacks([t] + ts)
  {
    var r := [t] + ts;
    forall i, j | 0 <= i < |r| && 0 <= j < |r| && i != j
      ensures StacksApart(r, i, j)
    {
      if i > 0 && j > 0 {
        assert StacksApart(ts, i - 1, j - 1);
      } else if i == 0 {
        assert r[j] in ts;
      } else {
        assert r[i] in ts;
      }
    }
  }

  /** Taking a thread out keeps the others' stacks apart. */
  lemma WithoutOwnStacks(ts: seq<Thread>, x: Thread)
    requires Distinct(ts) && OwnStacks(ts)
    ensures OwnStacks(Without(ts, x))
  {
    if x in ts {
      var k :| 0 <= k < |ts| && ts[k] == x;
      DistinctAt(ts, k);
      WithoutAt(ts, k);
      var r := ts[..k] + ts[k + 1..];
      forall i, j | 0 <= i < |r| && 0 <= j < |r| && i != j
        ensures StacksApart(r, i, j)
      {
        var i' := if i < k then i else i + 1;
        var j' := if j < k then j else j + 1;
        assert r[i] == ts[i'] && r[j] == ts[j'];
        assert StacksApart(ts, i', j');
      }
    }
  }

  /** The death effects of a thread at `ip`, when they are `on`: a fall in
      its direction, then a pulse. */
  function Mourn(on: bool, q: seq<Effect>, reversed: bool, ip: int): (r: seq<Effect>)
    ensures !on ==> r == q
    ensures on ==> Holds(r, FallEffect(reversed, ip)) && Holds(r, PulseEffect(ip))
    ensures forall x :: x in q ==> x in r
    ensures forall x :: x in r ==> x in q || x == FallEffect(reversed, ip) || x == PulseEffect(ip)
    ensures NoDuplicates(q) ==> NoDuplicates(r)
  {
    if on then
      var fell := Enqueue(q, FallEffect(reversed, ip));
      HoldsKept(fell, Enqueue(fell, PulseEffect(ip)), FallEffect(reversed, ip));
      Enqueue(fell, PulseEffect(ip))
    else q
  }

  /** What the operations of a cycle read and write besides the threads:
      the memory ring, the effect queue and the dirty flag. */
  datatype World = World(mem: seq<Cell>, queue: seq<Effect>, dirty: bool)

  /** A thread as one step of it sees it: its cell, direction, age and stack
      contents (bottom first). */
  datatype View = View(ip: int, reversed: bool, age: int, stack: seq<int>)

  /** What one operation leaves: the world, whether the thread lives on, and
      its stack contents. */
  datatype Outcome = Outcome(world: World, alive: bool, stack: seq<int>)

  /** The operations that kill the thread executing them: HALT always, COPY
      with fewer than three values on a stack of `height`, SPAWN with none,
      and a PUSH onto a full stack. */
  predicate Kills(op: Byte, height: int, maxStackSize: int) {
    || op == HALT
    || (op == COPY && height < 3)
    || (op == SPAWN && height < 1)
    || (IsPush(op) && height == maxStackSize)
  }

  /** A dying thread's world: only its death effects are added. */
  function Die(cfg: Config, w: World, reversed: bool, ip: int): (r: World)
    ensures r.mem == w.mem && r.dirty == w.dirty
    ensures r.queue == Mourn(cfg.useThreadDeathEffect, w.queue, reversed, ip)
  {
    w.(queue := Mourn(cfg.useThreadDeathEffect, w.queue, reversed, ip))
  }

  /** Executing `op` for a thread that has stepped onto cell `ip` with stack
      `s`. COPY pops a source offset, a destination offset and a length (a
      short stack empties and dies) and copies the run; SPAWN pops an
      offset it never uses and runs the countdown of cell `ip`, queuing a
      zoom when it expires; any other operation pushes its literal. */
  function Exec(cfg: Config, w: World, op: Byte, ip: int, reversed: bool, s: seq<int>): (o: Outcome)
    requires 0 <= ip < |w.mem|
    ensures |o.world.mem| == |w.mem|
    ensures o.alive <==> !Kills(op, |s|, cfg.maxStackSize)
    ensures !o.alive ==> o.world == Die(cfg, w, reversed, ip)
  {
    var n := |w.mem|;
    var h := |s|;
    if op == COPY then
      if h < 3 then Outcome(Die(cfg, w, reversed, ip), false, [])
      else
        var dir := Direction(reversed);
        var src := Wrap(ip + s[h - 1] + n, n);
        var dst := Wrap(ip + s[h - 2] + n, n);
        var len := s[h - 3];
        Outcome(World(CopyRun(w.mem, src, dst, dir, len, cfg.spawnLifeSpan),
                      CopyZooms(w.queue, cfg.useCopyEffect, dst, dir, len, n),
                      w.dirty || len > 0),
                true, s[..h - 3])
    else if op == HALT then Outcome(Die(cfg, w, reversed, ip), false, s)
    else if op == SPAWN then
      if h == 0 then Outcome(Die(cfg, w, reversed, ip), false, s)
      else
        var expired := w.mem[ip].lifespan == 1;
        Outcome(World(SpawnTick(w.mem, ip, cfg.spawnLifeSpan),
                      if expired && cfg.useSpawnExpireEffect then Enqueue(w.queue, ZoomEffect(ip)) else w.queue,
                      w.dirty || expired),
                true, s[..h - 1])
    else if h == cfg.maxStackSize then Outcome(Die(cfg, w, reversed, ip), false, s)
    else Outcome(w, true, s + [Literal(op)])
  }

  /** A step keeps the memory's countdowns in range, the effect queue free
      of duplicates and of ill-formed effects, and the stack within its
      bound. */
  lemma ExecKeeps(cfg: Config, w: World, op: Byte, ip: int, reversed: bool, s: seq<int>)
    requires 0 <= ip < |w.mem|
    ensures var o := Exec(cfg, w, op, ip, reversed, s);
      && (CellsOk(w.mem) ==> CellsOk(o.world.mem))
      && (NoDuplicates(w.queue) ==> NoDuplicates(o.world.queue))
      && ((forall e :: e in w.queue ==> WellFormed(e)) ==> forall e :: e in o.world.queue ==> WellFormed(e))
      && (|s| <= cfg.maxStackSize ==> |o.stack| <= cfg.maxStackSize)
  {
    var n := |w.mem|;
    var h := |s|;
    if Kills(op, h, cfg.maxStackSize) {
    } else if op == COPY {
      var src, dst := Wrap(ip + s[h - 1] + n, n), Wrap(ip + s[h - 2] + n, n);
      ExecCopy(cfg, w, ip, reversed, s, src, dst, s[h - 3]);
      if CellsOk(w.mem) {
        CopyRunKeepsCellsOk(w.mem, src, dst, Direction(reversed), s[h - 3], cfg.spawnLifeSpan);
      }
    } else if op == SPAWN {
      if CellsOk(w.mem) {
        SpawnTickCases(w.mem, ip, cfg.spawnLifeSpan);
      }
    }
  }

  /** What each operation does. A thread that dies leaves the memory and
      the dirty flag as they were and queues its death effects at its new
      cell; a COPY that dies has emptied its stack. A PUSH that survives
      changes nothing but its stack, which gains the literal. A SPAWN that
      survives pops one value and ticks the countdown of its own cell and of
      no other: the last tick turns the cell into a fresh HALT, marks the
      display dirty and, when the effect is on, queues a zoom there; any
      other tick keeps the queue and the dirty flag. A COPY that survives
      has popped its three arguments. */
  lemma ExecOps(cfg: Config, w: World, op: Byte, ip: int, reversed: bool, s: seq<int>)
    requires 0 <= ip < |w.mem|
    ensures var o := Exec(cfg, w, op, ip, reversed, s);
      && (op == HALT ==> !o.alive)
      && (!o.alive ==>
            && o.world.mem == w.mem && o.world.dirty == w.dirty
            && o.world.queue == Mourn(cfg.useThreadDeathEffect, w.queue, reversed, ip)
            && o.stack == if op == COPY then [] else s)
      && (o.alive && IsPush(op) ==> o.world == w && o.stack == s + [Literal(op)])
      && (o.alive && op == SPAWN ==>
            && o.stack == s[..|s| - 1]
            && (forall i :: 0 <= i < |w.mem| && i != ip ==> o.world.mem[i] == w.mem[i])
            && (w.mem[ip].lifespan == 1 ==> o.world.mem[ip] == Cell(HALT, 1, 0))
            && (w.mem[ip].lifespan > 1 ==> o.world.mem[ip] == w.mem[ip].(lifespan := w.mem[ip].lifespan - 1))
            && (w.mem[ip].lifespan <= 0 ==> o.world.mem == w.mem)
            && o.world.dirty == (w.dirty || w.mem[ip].lifespan == 1)
            && (w.mem[ip].lifespan == 1 && cfg.useSpawnExpireEffect ==> Holds(o.world.queue, ZoomEffect(ip)))
            && (w.mem[ip].lifespan != 1 || !cfg.useSpawnExpireEffect ==> o.world.queue == w.queue))
      && (o.alive && op == COPY ==> |s| >= 3 && o.stack == s[..|s| - 3])
  {
  }

  /** The COPY case of Exec, for a stack of at least three values whose
      top three name the source `src`, the destination `dst` and `len`. */
  lemma ExecCopy(cfg: Config, w: World, ip: int, reversed: bool, s: seq<int>, src: int, dst: int, len: int)
    requires 0 <= ip < |w.mem| && |s| >= 3
    requires src == Wrap(ip + s[|s| - 1] + |w.mem|, |w.mem|)
    requires dst == Wrap(ip + s[|s| - 2] + |w.mem|, |w.mem|)
    requires len == s[|s| - 3]
    ensures Exec(cfg, w, COPY, ip, reversed, s)
      == Outcome(World(CopyRun(w.mem, src, dst, Direction(reversed), len, cfg.spawnLifeSpan),
                       CopyZooms(w.queue, cfg.useCopyEffect, dst, Direction(reversed), len, |w.mem|),
                       w.dirty || len > 0),
                 true, s[..|s| - 3])
  {
  }

  /** A thread's view after a step that left `s` on its stack: one cell on
      in its direction around a ring of `n` cells, and one cycle older. */
  function Moved(v: View, s: seq<int>, n: int): (r: View)
    requires 0 <= v.ip < n
    ensures 0 <= r.ip < n && r.ip == Advance(v.ip, v.reversed, n)
    ensures r.reversed == v.reversed && r.age == v.age + 1 && r.stack == s
  {
    View(Advance(v.ip, v.reversed, n), v.reversed, v.age + 1, s)
  }

  /** One pass of the thread loop for a thread seen as `v`: the operation
      under it is read before it moves, then executed on the cell it has
      moved to. */
  function Step(cfg: Config, w: World, v: View): (o: Outcome)
    requires 0 <= v.ip < |w.mem|
    ensures |o.world.mem| == |w.mem|
    ensures o.alive <==> !Kills(w.mem[v.ip].op, |v.stack|, cfg.maxStackSize)
    ensures !o.alive ==> o.world == Die(cfg, w, v.reversed, Advance(v.ip, v.reversed, |w.mem|))
  {
    Exec(cfg, w, w.mem[v.ip].op, Advance(v.ip, v.reversed, |w.mem|), v.reversed, v.stack)
  }

  /** Every view is on one of `n` cells. */
  predicate InRing(vs: seq<View>, n: int) {
    forall j :: 0 <= j < |vs| ==> 0 <= vs[j].ip < n
  }

  /** The world after the first `k` threads, seen as `vs` when the loop
      started, have each taken their step, in list order, from `w`. */
  function Run(cfg: Config, w: World, vs: seq<View>, k: nat): (r: World)
    requires k <= |vs| && InRing(vs, |w.mem|)
    ensures |r.mem| == |w.mem|
  {
    if k == 0 then w else Step(cfg, Run(cfg, w, vs, k - 1), vs[k - 1]).world
  }

  /** The threads among the first `k` of `ts` that their step left alive,
      in list order. */
  function Survivors<T>(ts: seq<T>, cfg: Config, w: World, vs: seq<View>, k: nat): (r: seq<T>)
    requires k <= |vs| == |ts| && InRing(vs, |w.mem|)
  {
    if k == 0 then []
    else Survivors(ts, cfg, w, vs, k - 1) + if Step(cfg, Run(cfg, w, vs, k - 1), vs[k - 1]).alive then [ts[k - 1]] else []
  }

  /** Thread `j`'s view after its step. */
  function After(cfg: Config, w: World, vs: seq<View>, j: nat): (r: View)
    requires j < |vs| && InRing(vs, |w.mem|)
    ensures r.age == vs[j].age + 1 && r.reversed == vs[j].reversed
    ensures r.ip == Advance(vs[j].ip, vs[j].reversed, |w.mem|)
  {
    Moved(vs[j], Step(cfg, Run(cfg, w, vs, j), vs[j]).stack, |w.mem|)
  }

  /** Every thread's view after its step. */
  function Afters(cfg: Config, w: World, vs: seq<View>): (r: seq<View>)
    requires InRing(vs, |w.mem|)
    ensures |r| == |vs| && forall j :: 0 <= j < |vs| ==> r[j] == After(cfg, w, vs, j)
  {
    seq(|vs|, j requires 0 <= j < |vs| => After(cfg, w, vs, j))
  }

  /** The loop one thread further on. */
  lemma RunNext<T>(ts: seq<T>, cfg: Config, w: World, vs: seq<View>, k: nat)
    requires k + 1 <= |vs| == |ts| && InRing(vs, |w.mem|)
    ensures Run(cfg, w, vs, k + 1) == Step(cfg, Run(cfg, w, vs, k), vs[k]).world
    ensures Survivors(ts, cfg, w, vs, k + 1)
      == Survivors(ts, cfg, w, vs, k) + if Step(cfg, Run(cfg, w, vs, k), vs[k]).alive then [ts[k]] else []
  {
  }

  /** The survivors keep the order of the list, and so come from it. */
  lemma {:induction false} SurvivorsOrdered<T>(ts: seq<T>, cfg: Config, w: World, vs: seq<View>, k: nat)
    requires k <= |vs| == |ts| && InRing(vs, |w.mem|)
    ensures SubSeq(Survivors(ts, cfg, w, vs, k), ts[..k])
    ensures forall x :: x in Survivors(ts, cfg, w, vs, k) ==> x in ts[..k]
  {
    if k == 0 {
      assert ts[..0] == [];
      SubSeqRefl(ts[..0]);
    } else {
      var j := k - 1;
      assert ts[..j + 1] == ts[..j] + [ts[j]];
      SurvivorsOrdered(ts, cfg, w, vs, j);
      RunNext(ts, cfg, w, vs, j);
      SubSeqKeep(Survivors(ts, cfg, w, vs, j), ts[..j], ts[j], Step(cfg, Run(cfg, w, vs, j), vs[j]).alive);
    }
  }

  /** A thread is among the survivors of the first `k` steps exactly when
      the operation under it, in the world the steps before it left, did
      not kill it. */
  lemma {:induction false} SurvivorsExactly<T>(ts: seq<T>, cfg: Config, w: World, vs: seq<View>, k: nat)
    requires k <= |vs| == |ts| && InRing(vs, |w.mem|) && Distinct(ts)
    ensures forall j :: 0 <= j < k ==>
      (ts[j] in Survivors(ts, cfg, w, vs, k) <==>
         !Kills(Run(cfg, w, vs, j).mem[vs[j].ip].op, |vs[j].stack|, cfg.maxStackSize))
  {
    if k > 0 {
      var j := k - 1;
      SurvivorsExactly(ts, cfg, w, vs, j);
      SurvivorsOrdered(ts, cfg, w, vs, j);
      RunNext(ts, cfg, w, vs, j);
      DistinctAt(ts, j);
      assert ts[j] !in Survivors(ts, cfg, w, vs, j);
    }
  }

  /** A thread as its next step sees it. */
  ghost function ViewOf(t: Thread): View
    reads t, t.stack
    requires t.Valid()
  {
    View(t.ip, t.isReversed, t.age, t.Contents())
  }

  /** A thread none of whose state changed keeps its view. */
  twostate lemma ViewKept(t: Thread)
    requires old(t.Valid()) && unchanged(t, t.stack)
    ensures t.Valid() && ViewOf(t) == old(ViewOf(t))
  {
  }

  /** The views of a list of threads, in list order. */
  ghost function ViewsOf(ts: seq<Thread>): (r: seq<View>)
    reads set t | t in ts, set t | t in ts :: t.stack
    requires forall t :: t in ts ==> t.Valid()
    ensures |r| == |ts|
    ensures forall j :: 0 <= j < |ts| ==> r[j] == ViewOf(ts[j])
  {
    if ts == [] then [] else [ViewOf(ts[0])] + ViewsOf(ts[1..])
  }

  /** Where the trim on values stands: the threads left with their marks,
      the effect queue, and how many kills it has made. */
  datatype Culling = Culling(ts: seq<Thread>, ms: seq<Mark>, q: seq<Effect>, kills: nat)

  /** The victims `victim(kills, count)` draws are always in range. */
  ghost predicate Picks(victim: (nat, nat) -> nat) {
    forall kills: nat, count: nat :: 0 < count ==> victim(kills, count) < count
  }

  /** The thread the next kill of the trim takes: the one `victim` picks
      (with reduction) or the first of the oldest (without). */
  function Victim(cfg: Config, c: Culling, victim: (nat, nat) -> nat): (k: nat)
    requires |c.ts| == |c.ms| > 0 && Picks(victim)
    ensures k < |c.ts|
    ensures !cfg.threadReductionEnabled ==> forall j :: 0 <= j < |c.ms| ==> c.ms[j].age <= c.ms[k].age
  {
    if cfg.threadReductionEnabled then victim(c.kills, |c.ts|) else Oldest(c.ms)
  }

  /** One kill of the trim on values: the victim leaves the threads and
      the marks, its death effects are queued. */
  function Cull(cfg: Config, c: Culling, victim: (nat, nat) -> nat): (r: Culling)
    requires |c.ts| == |c.ms| > 0 && Picks(victim)
    ensures |r.ts| == |r.ms| == |c.ts| - 1 && r.kills == c.kills + 1
    ensures var k := Victim(cfg, c, victim);
      && r.ts == c.ts[..k] + c.ts[k + 1..]
      && r.q == Mourn(cfg.useThreadDeathEffect, c.q, c.ms[k].reversed, c.ms[k].ip)
  {
    var k := Victim(cfg, c, victim);
    Culling(c.ts[..k] + c.ts[k + 1..], c.ms[..k] + c.ms[k + 1..],
      Mourn(cfg.useThreadDeathEffect, c.q, c.ms[k].reversed, c.ms[k].ip), c.kills + 1)
  }

  /** The trim on values: kills while more than `MaxThreadCount` threads
      remain; what is left. */
  ghost function Trimmed(cfg: Config, c: Culling, victim: (nat, nat) -> nat): (r: Culling)
    requires |c.ts| == |c.ms| && cfg.maxThreadCount >= 0 && Picks(victim)
    ensures |r.ts| == if |c.ts| <= cfg.maxThreadCount then |c.ts| else cfg.maxThreadCount
    decreases |c.ts|
  {
    if |c.ts| <= cfg.maxThreadCount then c else Trimmed(cfg, Cull(cfg, c, victim), victim)
  }

  /** `c` is what is left of the threads `T0`, marked `M0`: a thread left
      carries the mark it had in `T0`. */
  ghost predicate Within(c: Culling, T0: seq<Thread>, M0: seq<Mark>) {
    && |c.ts| == |c.ms| && |T0| == |M0|
    && forall i, j :: 0 <= i < |T0| && 0 <= j < |c.ts| && T0[i] == c.ts[j] ==> M0[i] == c.ms[j]
  }

  /** The age `cut` splits what is left of `T0` from what is gone: no
      thread left is older, no thread gone is younger. */
  ghost predicate Split(c: Culling, T0: seq<Thread>, M0: seq<Mark>, cut: int)
    requires |T0| == |M0|
  {
    && (forall j :: 0 <= j < |c.ms| ==> c.ms[j].age <= cut)
    && (forall i :: 0 <= i < |T0| && T0[i] !in c.ts ==> cut <= M0[i].age)
  }

  /** A kill keeps every thread left with the mark it had in `T0`. */
  lemma CullWithin(cfg: Config, c: Culling, victim: (nat, nat) -> nat, T0: seq<Thread>, M0: seq<Mark>)
    requires Picks(victim) && |c.ts| > 0 && Within(c, T0, M0)
    ensures Within(Cull(cfg, c, victim), T0, M0)
  {
    var k := Victim(cfg, c, victim);
    var r := Cull(cfg, c, victim);
    assert r.ms == c.ms[..k] + c.ms[k + 1..];
    forall i, j | 0 <= i < |T0| && 0 <= j < |r.ts| && T0[i] == r.ts[j]
      ensures M0[i] == r.ms[j]
    {
      if j < k {
        assert r.ts[j] == c.ts[j] && r.ms[j] == c.ms[j];
      } else {
        assert r.ts[j] == c.ts[j + 1] && r.ms[j] == c.ms[j + 1];
      }
    }
  }

  /** A kill without reduction takes a thread of the oldest age left, which
      becomes the split. */
  lemma CullOldestFirst(cfg: Config, c: Culling, victim: (nat, nat) -> nat, T0: seq<Thread>, M0: seq<Mark>, cut: int)
    requires !cfg.threadReductionEnabled && Picks(victim) && |c.ts| > 0
    requires Within(c, T0, M0) && Split(c, T0, M0, cut)
    ensures Split(Cull(cfg, c, victim), T0, M0, c.ms[Victim(cfg, c, victim)].age)
  {
    var k := Victim(cfg, c, victim);
    var r := Cull(cfg, c, victim);
    assert r.ms == c.ms[..k] + c.ms[k + 1..];
    assert forall x :: x in c.ts && x !in r.ts ==> x == c.ts[k];
  }

  /** One kill of the trim on values. */
  lemma TrimmedNext(cfg: Config, c: Culling, victim: (nat, nat) -> nat)
    requires |c.ts| == |c.ms| && 0 <= cfg.maxThreadCount < |c.ts| && Picks(victim)
    ensures Trimmed(cfg, c, victim) == Trimmed(cfg, Cull(cfg, c, victim), victim)
  {
  }

  /** The trim without reduction is oldest first: every thread it keeps is
      no older than every thread of `T0` it kills. */
  lemma {:induction false} TrimmedOldestFirst(cfg: Config, c: Culling, victim: (nat, nat) -> nat, T0: seq<Thread>, M0: seq<Mark>, cut: int)
    requires !cfg.threadReductionEnabled && cfg.maxThreadCount >= 0 && Picks(victim)
    requires Within(c, T0, M0) && Split(c, T0, M0, cut)
    ensures var r := Trimmed(cfg, c, victim);
      && Within(r, T0, M0)
      && forall i, j :: 0 <= i < |T0| && T0[i] !in r.ts && 0 <= j < |r.ms| ==> r.ms[j].age <= M0[i].age
    decreases |c.ts|
  {
    if |c.ts| > cfg.maxThreadCount {
      CullWithin(cfg, c, victim, T0, M0);
      CullOldestFirst(cfg, c, victim, T0, M0, cut);
      TrimmedOldestFirst(cfg, Cull(cfg, c, victim), victim, T0, M0, c.ms[Victim(cfg, c, victim)].age);
    }
  }

  /** The trim without reduction, on threads marked with their ages: no
      thread it keeps is older than a thread it kills. */
  lemma TrimOldestFirst(cfg: Config, T0: seq<Thread>, M0: seq<Mark>, q: seq<Effect>, victim: (nat, nat) -> nat, r: Culling)
    requires !cfg.threadReductionEnabled && cfg.maxThreadCount >= 0 && Picks(victim)
    requires Marked(M0, T0) && r == Trimmed(cfg, Culling(T0, M0, q, 0), victim) && Marked(r.ms, r.ts)
    ensures forall u, v :: u in r.ts && v in T0 && v !in r.ts ==> u.age <= v.age
  {
    var c0 := Culling(T0, M0, q, 0);
    // Before any kill, the oldest age splits nothing from nothing.
    var top := if |M0| > 0 then M0[Oldest(M0)].age else 0;
    TrimmedOldestFirst(cfg, c0, victim, T0, M0, top);
    forall u, v | u in r.ts && v in T0 && v !in r.ts
      ensures u.age <= v.age
    {
      var j :| 0 <= j < |r.ts| && r.ts[j] == u;
      var i :| 0 <= i < |T0| && T0[i] == v;
    }
  }

  class Simulator {
    const cfg: Config
    const rows: int
    const columns: int
    const memory: array<Cell>
    /** The live threads, newest first. */
    var threads: seq<Thread>
    /** The effect queue, newest first. */
    var effects: seq<Effect>
    /** Milliseconds accumulated towards the next cycle. */
    var progress: int
    /** Set by every cell write; cleared by the renderer. */
    var isDirty: bool
    ghost var Repr: set<object>

    ghost predicate ThreadOk(t: Thread)
      reads t
    {
      && 0 <= t.ip < memory.Length
      && t.stack.Length == cfg.maxStackSize
      && 0 <= t.stackTop <= t.stack.Length
    }

    ghost predicate Valid()
      reads this, Repr
    {
      && this in Repr && memory in Repr
      && cfg.Valid()
      && memory.Length > 0
      && MemoryOk()
      && (forall t :: t in threads ==> t in Repr)
      && ThreadsOk()
      && EffectsOk()
    }

    /** Only a SPAWN cell carries a countdown. */
    ghost predicate MemoryOk()
      reads memory
    {
      CellsOk(memory[..])
    }

    /** Every thread is distinct, owns its stack, and points into memory with a stack
        of the configured size. */
    ghost predicate ThreadsOk()
      reads this`threads, this`Repr, set t | t in threads
    {
      && (forall t :: t in threads ==> t.stack in Repr && ThreadOk(t))
      && Distinct(threads)
      && OwnStacks(threads)
    }

    /** The memory, effect queue and dirty flag, as values. */
    ghost function State(): World
      reads this, memory
    {
      World(memory[..], effects, isDirty)
    }

    /** The threads as their next step sees them, each on a cell of the ring. */
    ghost function Views(): (vs: seq<View>)
      reads this, Repr
      requires Valid()
      ensures |vs| == |threads| && InRing(vs, memory.Length)
      ensures forall j :: 0 <= j < |threads| ==> vs[j] == ViewOf(threads[j])
    {
      var vs := ViewsOf(threads);
      assert forall j :: 0 <= j < |threads| ==> threads[j] in threads;
      vs
    }

    /** The queue holds no two equal effects, each of a known kind. */
    ghost predicate EffectsOk()
      reads this`effects
    {
      && NoDuplicates(effects)
      && (forall e :: e in effects ==> WellFormed(e))
    }

    /** Between calls to `Behave` less than one cycle is pending. */
    ghost predicate Timed()
      reads this
    {
      0 <= progress < cfg.msPerCycle
    }

    /** The coin of a new thread decides its direction only when reversing
        is enabled. */
    function AllowReverse(coin: int): (r: bool)
      ensures r <==> cfg.reverseEnabled && coin == 1
    {
      if cfg.reverseEnabled then coin == 1 else false
    }

    /** The draws of one cycle fit the configuration and the ring: enough
        of each, every cell in range, and the random trim picks a listed
        thread. */
    ghost predicate DrawsFit(d: CycleDraws) {
      && |d.noise| >= cfg.randomNoisePerCycle
      && (forall x :: x in d.noise ==> NoiseFits(cfg, memory.Length, x))
      && |d.births| >= cfg.newThreadsPerCycle
      && (forall b :: b in d.births ==> 0 <= b.cell < memory.Length)
      && Picks(d.victim)
    }

    constructor (cfg: Config, rows: int, columns: int, init: seq<OpDraw>)
      requires cfg.Valid() && rows > 0 && columns > 0
      requires cfg.randomizeMemoryOnInitialize ==>
        |init| >= rows * columns && forall d :: d in init ==> OpDrawFits(cfg, d)
      ensures Valid() && Timed() && fresh(Repr)
      ensures this.cfg == cfg && this.rows == rows && this.columns == columns
      ensures memory.Length == rows * columns
      ensures threads == [] && effects == [] && progress == 0 && isDirty
      ensures !cfg.randomizeMemoryOnInitialize ==>
        forall k :: 0 <= k < memory.Length ==> memory[k] == Written(HALT, cfg.spawnLifeSpan)
      ensures cfg.randomizeMemoryOnInitialize && cfg.TotalSlice() == 0 ==>
        forall k :: 0 <= k < memory.Length ==> memory[k] == Blank
      ensures cfg.randomizeMemoryOnInitialize && cfg.TotalSlice() > 0 ==>
        forall k :: 0 <= k < memory.Length ==>
          memory[k] == Written(RandomOp(cfg, init[k]).value, cfg.spawnLifeSpan)
    {
      this.cfg := cfg;
      this.rows := rows;
      this.columns := columns;
      memory := new Cell[rows * columns](_ => Blank);
      threads := [];
      effects := [];
      progress := 0;
      new;
      Repr := {this, memory};
      if cfg.randomizeMemoryOnInitialize {
        RandomizeMemory(init);
      } else {
        ClearMemory();
      }
      isDirty := true;
    }

    method RandomizeMemory(init: seq<OpDraw>)
      requires Valid()
      requires |init| >= memory.Length && forall d :: d in init ==> OpDrawFits(cfg, d)
      modifies memory, this`isDirty
      ensures Valid()
      ensures forall k :: 0 <= k < memory.Length ==>
        memory[k] == RandomWrite(cfg, old(memory[..]), k, init[k])[k]
      ensures isDirty == (old(isDirty) || cfg.TotalSlice() > 0)
    {
      var cellIndex := 0;
      while cellIndex < memory.Length
        invariant Valid()
        invariant 0 <= cellIndex <= memory.Length
        invariant forall k :: 0 <= k < cellIndex ==>
          memory[k] == RandomWrite(cfg, old(memory[..]), k, init[k])[k]
        invariant forall k :: cellIndex <= k < memory.Length ==> memory[k] == old(memory[k])
        invariant isDirty == (old(isDirty) || (cellIndex > 0 && cfg.TotalSlice() > 0))
      {
        assert init[cellIndex] in init;
        SetRandomOperator(cellIndex, init[cellIndex]);
        cellIndex := cellIndex + 1;
      }
    }

    method ClearMemory()
      requires Valid()
      modifies memory, this`isDirty
      ensures Valid()
      ensures forall k :: 0 <= k < memory.Length ==> memory[k] == Written(HALT, cfg.spawnLifeSpan)
      ensures isDirty
    {
      var index := 0;
      while index < memory.Length
        invariant Valid()
        invariant 0 <= index <= memory.Length
        invariant isDirty || index == 0
        invariant forall k :: 0 <= k < index ==> memory[k] == Written(HALT, cfg.spawnLifeSpan)
      {
        SetOperator(index, HALT);
        index := index + 1;
      }
    }

    /** Write `op` into cell `index`, marked as modified; a SPAWN cell gets
        a full countdown and any other cell none. */
    method SetOperator(index: int, op: Byte)
      requires Valid() && 0 <= index < memory.Length
      modifies memory, this`isDirty
      ensures Valid() && isDirty
      ensures memory[..] == SetOp(old(memory[..]), index, op, cfg.spawnLifeSpan)
    {
      memory[index] := memory[index].(op := op);
      memory[index] := memory[index].(modified := 1);
      if op == SPAWN {
        memory[index] := memory[index].(lifespan := cfg.spawnLifeSpan);
      } else {
        memory[index] := memory[index].(lifespan := 0);
      }
      isDirty := true;
    }

    /** Write the operation the draw `d` picks into cell `cellIndex`; write
        nothing when every weight is zero. */
    method SetRandomOperator(cellIndex: int, d: OpDraw)
      requires Valid() && 0 <= cellIndex < memory.Length && OpDrawFits(cfg, d)
      modifies memory, this`isDirty
      ensures Valid()
      ensures memory[..] == RandomWrite(cfg, old(memory[..]), cellIndex, d)
      ensures isDirty == (old(isDirty) || cfg.TotalSlice() > 0)
    {
      if cfg.TotalSlice() == 0 {
        return;
      }
      var slice := d.slice;
      if slice < cfg.copySlice {
        SetOperator(cellIndex, COPY);
      } else {
        slice := slice - cfg.copySlice;
        if slice < cfg.haltSlice {
          SetOperator(cellIndex, HALT);
        } else if slice - cfg.haltSlice < cfg.pushSlice {
          SetOperator(cellIndex, (PUSH as int + 11 - d.literal) as Byte);
        } else {
          SetOperator(cellIndex, SPAWN);
        }
      }
    }

    /** Push `value` onto the thread's stack; fails, changing nothing, when
        the stack is full. */
    method Push(t: Thread, value: int) returns (ok: bool)
      requires Valid() && t in threads
      modifies t`stackTop, t.stack
      ensures Valid()
      ensures ok <==> old(t.stackTop) != cfg.maxStackSize
      ensures ok ==> t.stackTop == old(t.stackTop) + 1 && t.Contents() == old(t.Contents()) + [value]
      ensures !ok ==> t.stackTop == old(t.stackTop) && t.stack[..] == old(t.stack[..])
      ensures t.Valid() && (!ok ==> t.Contents() == old(t.Contents()))
    {
      if t.stackTop == cfg.maxStackSize {
        return false;
      } else {
        t.stack[t.stackTop] := value;
        t.stackTop := t.stackTop + 1;
        return true;
      }
    }

    /** Pop the top of the thread's stack; None when the stack is empty. */
    method Pop(t: Thread) returns (r: Option<int>)
      requires Valid() && t in threads
      modifies t`stackTop
      ensures Valid()
      ensures r.None? <==> old(t.stackTop) == 0
      ensures r.None? ==> t.stackTop == 0
      ensures r.Some? ==>
        && t.stackTop == old(t.stackTop) - 1
        && r.value == t.stack[t.stackTop]
        && t.Contents() + [r.value] == old(t.Contents())
    {
      if t.stackTop == 0 {
        return None;
      } else {
        t.stackTop := t.stackTop - 1;
        return Some(t.stack[t.stackTop]);
      }
    }

    /** The stack is last in, first out: a value pushed and popped straight
        away comes back, and the stack is as it was. */
    method PushThenPop(t: Thread, value: int) returns (ok: bool, r: Option<int>)
      requires Valid() && t in threads
      modifies t`stackTop, t.stack
      ensures Valid()
      ensures ok <==> old(t.stackTop) != cfg.maxStackSize
      ensures ok ==> r == Some(value) && t.stackTop == old(t.stackTop) && t.Contents() == old(t.Contents())
    {
      ok := Push(t, value);
      r := None;
      if ok {
        r := Pop(t);
      }
    }

    /** Start a thread at `ip` at the front of the thread list. */
    method Spawn(ip: int, coin: int)
      requires Valid() && 0 <= ip < memory.Length
      modifies this`threads, this`Repr
      ensures Valid() && fresh(Repr - old(Repr))
      ensures |threads| == |old(threads)| + 1 && threads[1..] == old(threads)
      ensures fresh(threads[0])
      ensures threads[0].ip == ip && threads[0].age == 0 && threads[0].stackTop == 0
      ensures threads[0].isReversed == AllowReverse(coin)
    {
      var t := new Thread(ip, AllowReverse(coin), cfg.maxStackSize);
      PrependKeepsDistinct(t, threads);
      PrependOwnStacks(t, threads);
      threads := [t] + threads;
      Repr := Repr + {t, t.stack};
    }

    /** Queue `e` at the front, unless an equal effect is already queued. */
    method AddEffect(e: Effect)
      requires Valid() && WellFormed(e)
      modifies this`effects
      ensures Valid()
      ensures effects == Enqueue(old(effects), e)
    {
      if exists i :: 0 <= i < |effects| && effects[i].Equals(Some(e)) {
        return;
      }
      effects := [e] + effects;
      assert effects == Enqueue(old(effects), e);
    }

    /** Remove `t` from the thread list, leaving its death effects. */
    method KillThread(t: Thread)
      requires Valid() && t in threads
      modifies this`threads, this`effects
      ensures Valid()
      ensures t !in threads
      ensures threads == Without(old(threads), t)
      ensures effects == Mourn(cfg.useThreadDeathEffect, old(effects), t.isReversed, t.ip)
    {
      if cfg.useThreadDeathEffect {
        if t.isReversed {
          AddEffect(FallReverseEffect(t.ip));
        } else {
          AddEffect(FallForwardEffect(t.ip));
        }
        AddEffect(PulseEffect(t.ip));
      }
      WithoutKeepsDistinct(threads, t);
      WithoutOwnStacks(threads, t);
      threads := Without(threads, t);
    }

    /** COPY: pop a source offset, a destination offset and a length, and
        copy that many operations from the source run to the destination
        run, both walked in the thread's direction from the cells the
        offsets name relative to the thread's (already advanced) position.
        A short stack kills the thread. */
    method ExecuteCopy(t: Thread) returns (ok: bool)
      requires Valid() && t in threads
      modifies this`threads, this`effects, this`isDirty, memory, t`stackTop
      ensures Valid() && t.Valid()
      ensures var o := Exec(cfg, old(State()), COPY, t.ip, t.isReversed, old(t.Contents()));
        State() == o.world && ok == o.alive && t.Contents() == o.stack
      ensures threads == if ok then old(threads) else Without(old(threads), t)
    {
      ghost var c := t.Contents();
      ghost var w := State();
      var popped, s, d, length := PopCopyArgs(t);
      if !popped {
        KillThread(t);
        return false;
      }
      var n := memory.Length;
      // C#'s `%` here; see Wrap for where the two remainders part ways.
      var sourceIP := Wrap(t.ip + s + n, n);
      var destinationIP := Wrap(t.ip + d + n, n);
      var direction := Direction(t.isReversed);
      CopyOperators(sourceIP, destinationIP, direction, length);
      ok := true;
      ExecCopy(cfg, w, t.ip, t.isReversed, c, sourceIP, destinationIP, length);
    }

    /** The three pops of COPY: source offset, destination offset, length.
        They short-circuit: the first pop that finds the stack empty ends
        them, and `popped` is false. */
    method PopCopyArgs(t: Thread) returns (popped: bool, s: int, d: int, len: int)
      requires Valid() && t in threads
      modifies t`stackTop
      ensures Valid() && t.Valid()
      ensures popped <==> old(t.stackTop) >= 3
      ensures !popped ==> t.Contents() == []
      ensures memory[..] == old(memory[..])
      ensures popped ==>
        var c := old(t.Contents());
        var h := |c|;
        && s == c[h - 1] && d == c[h - 2] && len == c[h - 3]
        && t.Contents() == c[..h - 3]
    {
      ghost var c := t.Contents();
      var r := Pop(t);
      if r.None? {
        return false, 0, 0, 0;
      }
      s := r.value;
      ghost var c1 := t.Contents();
      r := Pop(t);
      if r.None? {
        return false, 0, 0, 0;
      }
      d := r.value;
      ghost var c2 := t.Contents();
      r := Pop(t);
      if r.None? {
        return false, 0, 0, 0;
      }
      len := r.value;
      popped := true;
      assert c == t.Contents() + [len, d, s] by {
        assert c == c1 + [s] && c1 == c2 + [d] && c2 == t.Contents() + [len];
      }
    }

    /** The copy loop of COPY: `copyLength` steps, walking both runs in
        `direction`. */
    method CopyOperators(sourceIP: int, destinationIP: int, direction: int, copyLength: int)
      requires Valid()
      modifies memory, this`effects, this`isDirty
      ensures Valid()
      ensures memory[..] == CopyRun(old(memory[..]), sourceIP, destinationIP, direction, copyLength, cfg.spawnLifeSpan)
      ensures effects == CopyZooms(old(effects), cfg.useCopyEffect, destinationIP, direction, copyLength, memory.Length)
      ensures isDirty == (old(isDirty) || copyLength > 0)
    {
      ghost var m0 := memory[..];
      ghost var q0 := effects;
      var copyIndex := 0;
      while copyIndex < copyLength
        invariant Valid()
        invariant 0 <= copyIndex <= if copyLength > 0 then copyLength else 0
        invariant memory[..] == CopyRun(m0, sourceIP, destinationIP, direction, copyIndex, cfg.spawnLifeSpan)
        invariant effects == CopyZooms(q0, cfg.useCopyEffect, destinationIP, direction, copyIndex, memory.Length)
        invariant isDirty == (old(isDirty) || copyIndex > 0)
      {
        copyIndex := CopyStep(sourceIP, destinationIP, direction, copyIndex, m0, q0);
      }
    }

    /** Step `copyIndex` of a COPY run from memory `m0` and queue `q0`: the
        operation at source cell `copyIndex` is written into destination
        cell `copyIndex` through SetOperator, and a zoom is queued there
        when enabled. */
    method CopyStep(sourceIP: int, destinationIP: int, direction: int, copyIndex: int,
                    ghost m0: seq<Cell>, ghost q0: seq<Effect>) returns (next: int)
      requires Valid() && copyIndex >= 0 && |m0| == memory.Length
      requires memory[..] == CopyRun(m0, sourceIP, destinationIP, direction, copyIndex, cfg.spawnLifeSpan)
      requires effects == CopyZooms(q0, cfg.useCopyEffect, destinationIP, direction, copyIndex, memory.Length)
      modifies memory, this`effects, this`isDirty
      ensures Valid() && isDirty && next == copyIndex + 1
      ensures memory[..] == CopyRun(m0, sourceIP, destinationIP, direction, next, cfg.spawnLifeSpan)
      ensures effects == CopyZooms(q0, cfg.useCopyEffect, destinationIP, direction, next, memory.Length)
    {
      var n := memory.Length;
      // `(destinationIP + offset) % n` and `(sourceIP + offset) % n`, with
      // `offset` = copyIndex * direction + n.
      var destinationCell := CopyCell(destinationIP, direction, copyIndex, n);
      var sourceCell := CopyCell(sourceIP, direction, copyIndex, n);
      var destinationOp := memory[destinationCell].op;
      var sourceOp := memory[sourceCell].op;

      SetOperator(destinationCell, sourceOp);

      if cfg.useCopyEffect {
        AddEffect(ZoomEffect(destinationCell));
      }

      // SetOperator has already marked the cell, so this adds nothing.
      if destinationOp != sourceOp {
        ghost var written := memory[..];
        assert memory[destinationCell].(modified := 1) == written[destinationCell];
        memory[destinationCell] := memory[destinationCell].(modified := 1);
        assert memory[..] == written;
        isDirty := true;
      }
      next := copyIndex + 1;
      CopyRunNext(m0, sourceIP, destinationIP, direction, copyIndex, next, cfg.spawnLifeSpan);
      CopyZoomsNext(q0, cfg.useCopyEffect, destinationIP, direction, copyIndex, next, n);
    }

    /** SPAWN: pop an offset (the start of the thread it would create, which
        is computed and never used) and run the countdown of the cell the
        thread has just stepped onto; a countdown that runs out turns the
        cell into a HALT. No thread is created. An empty stack kills the
        thread. */
    method ExecuteSpawn(t: Thread) returns (ok: bool)
      requires Valid() && t in threads
      modifies this`threads, this`effects, this`isDirty, memory, t`stackTop
      ensures Valid() && t.Valid()
      ensures var o := Exec(cfg, old(State()), SPAWN, t.ip, t.isReversed, old(t.Contents()));
        State() == o.world && ok == o.alive && t.Contents() == o.stack
      ensures threads == if ok then old(threads) else Without(old(threads), t)
    {
      ghost var c := t.Contents();
      ghost var w := State();
      var offset := Pop(t);
      if offset.None? {
        KillThread(t);
        return false;
      }
      var target := (t.ip + offset.value + memory.Length) % memory.Length;
      if memory[t.ip].lifespan > 0 {
        memory[t.ip] := memory[t.ip].(lifespan := memory[t.ip].lifespan - 1);
        if memory[t.ip].lifespan <= 0 {
          SetOperator(t.ip, HALT);
          if cfg.useSpawnExpireEffect {
            AddEffect(ZoomEffect(t.ip));
          }
        }
      }
      ok := true;
      ghost var expired := w.mem[t.ip].lifespan == 1;
      assert memory[..] == SpawnTick(w.mem, t.ip, cfg.spawnLifeSpan);
      assert effects == if expired && cfg.useSpawnExpireEffect then Enqueue(w.queue, ZoomEffect(t.ip)) else w.queue;
      assert t.Contents() == c[..|c| - 1];
    }

    /** One pass of the thread loop of a cycle: age the thread, read the
        operation under it, step it one cell in its direction around the
        ring, then execute the operation: a Step from the thread's view. */
    method StepThread(index: int, ghost w: World, ghost v: View) returns (alive: bool)
      requires Valid() && 0 <= index < |threads|
      requires State() == w && threads[index].Valid() && ViewOf(threads[index]) == v && 0 <= v.ip < |w.mem|
      modifies this`threads, this`effects, this`isDirty, memory, threads[index], threads[index].stack
      ensures Valid()
      ensures var t := old(threads[index]);
        var o := Step(cfg, w, v);
        && State() == o.world && alive == o.alive
        && t.Valid() && ViewOf(t) == Moved(v, o.stack, memory.Length)
        && threads == (if alive then old(threads) else Without(old(threads), t))
      ensures alive <==> !Kills(w.mem[v.ip].op, |v.stack|, cfg.maxStackSize)
      ensures !alive ==> State() == Die(cfg, w, v.reversed, Advance(v.ip, v.reversed, |w.mem|))
    {
      var t := threads[index];
      t.age := t.age + 1;

      var curIP := t.ip;
      var op := memory[curIP].op;

      t.ip := t.ip + if t.isReversed then -1 else 1;
      t.ip := (t.ip + memory.Length) % memory.Length;

      assert t.ip == Advance(v.ip, v.reversed, memory.Length);
      alive := Execute(t, op);
    }

    /** Execute `op` for a thread that has already stepped past it: Exec on
        the thread's cell, direction and stack. */
    method Execute(t: Thread, op: Byte) returns (alive: bool)
      requires Valid() && t in threads
      modifies this`threads, this`effects, this`isDirty, memory, t`stackTop, t.stack
      ensures Valid() && t.Valid()
      ensures var o := Exec(cfg, old(State()), op, t.ip, t.isReversed, old(t.Contents()));
        && State() == o.world && alive == o.alive && t.Contents() == o.stack
      ensures threads == (if alive then old(threads) else Without(old(threads), t))
      ensures alive <==> !Kills(op, |old(t.Contents())|, cfg.maxStackSize)
      ensures !alive ==>
        && memory[..] == old(memory[..]) && isDirty == old(isDirty)
        && effects == Mourn(cfg.useThreadDeathEffect, old(effects), t.isReversed, t.ip)
      ensures alive && IsPush(op) ==>
        && memory[..] == old(memory[..]) && effects == old(effects) && isDirty == old(isDirty)
        && t.Contents() == old(t.Contents()) + [Literal(op)]
    {
      ExecOps(cfg, State(), op, t.ip, t.isReversed, t.Contents());
      if op == COPY {
        alive := ExecuteCopy(t);
      } else if op == HALT {
        KillThread(t);
        alive := false;
      } else if op == SPAWN {
        alive := ExecuteSpawn(t);
      } else {
        var arg := op as int - PUSH as int;
        alive := Push(t, arg);
        if !alive {
          KillThread(t);
        }
      }
    }

    /** One turn of the thread loop: `T[k]`, the thread at `index` after
        the survivors `done` of the turns before, takes its step from the
        world `w`, seen as `v`. Only it changes, to its view `A[k]` after
        the step; if it dies the next one takes its index. */
    method DispatchStep(index: nat, ghost T: seq<Thread>, ghost k: nat, ghost done: seq<Thread>,
                        ghost w: World, ghost v: View, ghost vs: seq<View>, ghost A: seq<View>)
      returns (index': nat, ghost done': seq<Thread>)
      requires Valid() && Distinct(T) && OwnStacks(T)
      requires k < |T| == |vs| == |A| && threads == done + T[k..] && index == |done|
      requires forall x :: x in done ==> x in T[..k]
      requires forall j :: 0 <= j < k ==> T[j].Valid() && ViewOf(T[j]) == A[j]
      requires forall j :: k <= j < |T| ==> T[j].Valid() && ViewOf(T[j]) == vs[j]
      requires State() == w && v == vs[k] && 0 <= v.ip < |w.mem|
      requires A[k] == Moved(v, Step(cfg, w, v).stack, memory.Length)
      modifies this`threads, this`effects, this`isDirty, memory, T[k], T[k].stack
      ensures Valid()
      ensures var o := Step(cfg, w, v);
        && State() == o.world && done' == (if o.alive then done + [T[k]] else done)
        && (o.alive <==> !Kills(w.mem[v.ip].op, |v.stack|, cfg.maxStackSize))
        && (!o.alive ==> o.world == Die(cfg, w, v.reversed, Advance(v.ip, v.reversed, |w.mem|)))
      ensures threads == done' + T[k + 1..] && index' == |done'|
      ensures forall j :: 0 <= j < k + 1 ==> T[j].Valid() && ViewOf(T[j]) == A[j]
      ensures forall j :: k + 1 <= j < |T| ==> T[j].Valid() && ViewOf(T[j]) == vs[j]
    {
      ghost var before := threads;
      WalkAt(done, T, k);
      var alive := StepThread(index, w, v);
      DistinctAt(T, k);
      forall j | 0 <= j < |T| && j != k
        ensures T[j].Valid() && ViewOf(T[j]) == old(ViewOf(T[j]))
      {
        assert StacksApart(T, j, k);
        ViewKept(T[j]);
      }
      if alive {
        index' := index + 1;
        done' := done + [T[k]];
      } else {
        forall j | 0 <= j < index
          ensures before[j] != before[index]
        {
          assert before[j] in done;
        }
        WithoutAt(before, index);
        index' := index;
        done' := done;
      }
    }

    /** The thread loop after `k` of the threads `T` present at its start
        have taken their step: the world is the fold of those steps, the
        list holds their survivors followed by the threads still to go,
        and every thread's view is its view after its step (`A`) or its
        view from before the loop (`vs`). */
    ghost predicate Dispatched(T: seq<Thread>, w0: World, vs: seq<View>, A: seq<View>, k: nat, index: nat)
      reads this, Repr, set t | t in T, set t | t in T :: t.stack
    {
      && Valid() && Distinct(T) && OwnStacks(T)
      && k <= |T| == |vs| && |w0.mem| == memory.Length && InRing(vs, memory.Length)
      && |A| == |T|
      && threads == Survivors(T, cfg, w0, vs, k) + T[k..] && index == |Survivors(T, cfg, w0, vs, k)|
      && State() == Run(cfg, w0, vs, k)
      && (forall j :: 0 <= j < k ==> T[j].Valid() && ViewOf(T[j]) == A[j])
      && (forall j :: k <= j < |T| ==> T[j].Valid() && ViewOf(T[j]) == vs[j])
    }

    /** The loop state once thread `k` has stepped from the world the first
        `k` steps left, its survival decided by that step. */
    lemma Redispatched(T: seq<Thread>, w0: World, vs: seq<View>, A: seq<View>, k: nat,
                       index': nat, done': seq<Thread>)
      requires Valid() && Distinct(T) && OwnStacks(T)
      requires k < |T| == |vs| == |A| && |w0.mem| == memory.Length && InRing(vs, memory.Length)
      requires var o := Step(cfg, Run(cfg, w0, vs, k), vs[k]);
        && State() == o.world
        && done' == Survivors(T, cfg, w0, vs, k) + (if o.alive then [T[k]] else [])
      requires threads == done' + T[k + 1..] && index' == |done'|
      requires forall j :: 0 <= j < k + 1 ==> T[j].Valid() && ViewOf(T[j]) == A[j]
      requires forall j :: k + 1 <= j < |T| ==> T[j].Valid() && ViewOf(T[j]) == vs[j]
      ensures Dispatched(T, w0, vs, A, k + 1, index')
    {
      RunNext(T, cfg, w0, vs, k);
    }

    /** One pass of the thread loop: the steps of the first `k` threads
        become the steps of the first `k + 1`. */
    method DispatchAt(index: nat, ghost T: seq<Thread>, ghost w0: World, ghost vs: seq<View>,
                      ghost A: seq<View>, ghost k: nat)
      returns (index': nat)
      requires Dispatched(T, w0, vs, A, k, index) && k < |T| && A[k] == After(cfg, w0, vs, k)
      modifies this`threads, this`effects, this`isDirty, memory, T[k], T[k].stack
      ensures Dispatched(T, w0, vs, A, k + 1, index')
    {
      ghost var done := Survivors(T, cfg, w0, vs, k);
      SurvivorsOrdered(T, cfg, w0, vs, k);
      ghost var done';
      index', done' := DispatchStep(index, T, k, done, Run(cfg, w0, vs, k), vs[k], vs, A);
      Redispatched(T, w0, vs, A, k, index', done');
    }

    /** The thread loop starts with no thread stepped. */
    lemma DispatchBegins(T: seq<Thread>, w0: World, vs: seq<View>)
      requires Valid() && threads == T && State() == w0 && Views() == vs
      ensures Dispatched(T, w0, vs, Afters(cfg, w0, vs), 0, 0)
    {
      assert threads == Survivors(T, cfg, w0, vs, 0) + T[0..];
    }

    /** The thread loop ends when every thread has stepped: the world is
        the fold of all the steps, the survivors keep their order, and each
        thread is one cycle older and one cell further on than it was seen
        in `vs`. */
    lemma DispatchEnds(T: seq<Thread>, w0: World, vs: seq<View>, A: seq<View>, k: nat, index: nat)
      requires Dispatched(T, w0, vs, A, k, index) && index >= |threads| && A == Afters(cfg, w0, vs)
      ensures Valid()
      ensures State() == Run(cfg, w0, vs, |vs|)
      ensures threads == Survivors(T, cfg, w0, vs, |vs|)
      ensures forall j :: 0 <= j < |T| ==> T[j].Valid() && ViewOf(T[j]) == After(cfg, w0, vs, j)
      ensures SubSeq(threads, T) && forall t :: t in threads ==> t in T
      ensures forall j :: 0 <= j < |T| ==>
        T[j].age == vs[j].age + 1 && T[j].ip == Advance(vs[j].ip, vs[j].reversed, memory.Length)
    {
      assert T[k..] == [] && k == |vs|;
      SurvivorsOrdered(T, cfg, w0, vs, |vs|);
      assert T[..|vs|] == T;
    }

    /** The thread loop of a cycle: every thread present at its start
        takes exactly one step, in list order, each from the world the
        steps before it left; the threads whose step killed them are taken
        out, the loop index stepping back so that the next thread is not
        skipped. */
    method Dispatch(ghost T: seq<Thread>, ghost w0: World, ghost vs: seq<View>)
      requires Valid() && threads == T && State() == w0 && Views() == vs
      modifies this`threads, this`effects, this`isDirty, Repr - {this}
      ensures Valid()
      ensures State() == Run(cfg, w0, vs, |vs|)
      ensures threads == Survivors(T, cfg, w0, vs, |vs|)
      ensures forall j :: 0 <= j < |T| ==> T[j].Valid() && ViewOf(T[j]) == After(cfg, w0, vs, j)
      ensures SubSeq(threads, T)
      ensures forall j :: 0 <= j < |T| ==>
        (T[j] in threads <==> !Kills(Run(cfg, w0, vs, j).mem[vs[j].ip].op, |vs[j].stack|, cfg.maxStackSize))
      ensures forall t :: t in threads ==>
        t in T && t.age == old(t.age) + 1 && t.ip == Advance(old(t.ip), t.isReversed, memory.Length)
    {
      DispatchBegins(T, w0, vs);
      ghost var A := Afters(cfg, w0, vs);
      ghost var k: nat := 0;
      var index: nat := 0;
      while index < |threads|
        invariant Dispatched(T, w0, vs, A, k, index)
        decreases |T| - k
      {
        assert A[k] == After(cfg, w0, vs, k);
        index := DispatchAt(index, T, w0, vs, A, k);
        k := k + 1;
      }
      DispatchEnds(T, w0, vs, A, k, index);
      SurvivorsExactly(T, cfg, w0, vs, |vs|);
      forall t | t in threads
        ensures t in T && t.age == old(t.age) + 1 && t.ip == Advance(old(t.ip), t.isReversed, memory.Length)
      {
        var j :| 0 <= j < |T| && T[j] == t;
        assert vs[j] == old(ViewOf(T[j]));
      }
    }

    /** The random noise of a cycle: `RandomNoisePerCycle` random writes. */
    method AddNoise(noise: seq<NoiseDraw>)
      requires Valid()
      requires |noise| >= cfg.randomNoisePerCycle
      requires forall d :: d in noise ==> NoiseFits(cfg, memory.Length, d)
      modifies memory, this`isDirty
      ensures Valid()
      ensures memory[..] == Noise(cfg, old(memory[..]), noise[..Count(cfg.randomNoisePerCycle)])
      ensures isDirty == (old(isDirty) || (cfg.randomNoisePerCycle > 0 && cfg.TotalSlice() > 0))
    {
      var index := 0;
      while index < cfg.randomNoisePerCycle
        invariant Valid()
        invariant 0 <= index <= Count(cfg.randomNoisePerCycle)
        invariant memory[..] == Noise(cfg, old(memory[..]), noise[..index])
        invariant isDirty == (old(isDirty) || (index > 0 && cfg.TotalSlice() > 0))
      {
        assert noise[index] in noise;
        assert noise[..index + 1][..index] == noise[..index];
        SetRandomOperator(noise[index].cell, noise[index].op);
        index := index + 1;
      }
    }

    /** The new threads of a cycle: `NewThreadsPerCycle` spawns, each at the
        front of the list, so the last one started comes first. */
    method StartThreads(births: seq<BirthDraw>)
      requires Valid()
      requires |births| >= cfg.newThreadsPerCycle
      requires forall b :: b in births ==> 0 <= b.cell < memory.Length
      modifies this`threads, this`Repr
      ensures Valid() && fresh(Repr - old(Repr))
      ensures var c := Count(cfg.newThreadsPerCycle);
        && |threads| == |old(threads)| + c && threads[c..] == old(threads)
        && forall j :: 0 <= j < c ==>
             && fresh(threads[j])
             && threads[j].ip == births[c - 1 - j].cell
             && threads[j].age == 0 && threads[j].stackTop == 0
             && threads[j].isReversed == AllowReverse(births[c - 1 - j].coin)
      ensures forall t :: t in threads ==> t in old(threads) || (fresh(t) && t.age == 0)
    {
      var index := 0;
      while index < cfg.newThreadsPerCycle
        invariant Valid() && fresh(Repr - old(Repr))
        invariant 0 <= index <= Count(cfg.newThreadsPerCycle)
        invariant |threads| == |old(threads)| + index && threads[index..] == old(threads)
        invariant forall j :: 0 <= j < index ==>
          && fresh(threads[j])
          && threads[j].ip == births[index - 1 - j].cell
          && threads[j].age == 0 && threads[j].stackTop == 0
          && threads[j].isReversed == AllowReverse(births[index - 1 - j].coin)
      {
        assert births[index] in births;
        Spawn(births[index].cell, births[index].coin);
        index := index + 1;
      }
      forall t | t in threads
        ensures t in old(threads) || (fresh(t) && t.age == 0)
      {
        var j :| 0 <= j < |threads| && threads[j] == t;
        if j >= index {
          assert threads[index..][j - index] == t;
        }
      }
    }

    /** One kill of the trim: the thread at `k`, marked `ms[k]`, leaves with
        its death effects; the others keep their order and their marks. */
    method KillAt(k: nat, ghost ms: seq<Mark>)
      requires Valid() && k < |threads| && Marked(ms, threads)
      modifies this`threads, this`effects
      ensures Valid()
      ensures threads == old(threads[..k] + threads[k + 1..]) && SubSeq(threads, old(threads))
      ensures effects == Mourn(cfg.useThreadDeathEffect, old(effects), ms[k].reversed, ms[k].ip)
      ensures Marked(ms[..k] + ms[k + 1..], threads)
    {
      ghost var before := threads;
      DistinctAt(before, k);
      WithoutAt(before, k);
      MarkedRemove(ms, before, k);
      KillThread(threads[k]);
      SubSeqRemove(before, k);
    }

    /** The thread the trim kills next: `victim(kills, count)` with
        reduction, the first of the oldest without. */
    method PickVictim(victim: (nat, nat) -> nat, kills: nat, ghost c: Culling) returns (k: nat)
      requires Valid() && |threads| > 0 && Picks(victim)
      requires c.ts == threads && c.kills == kills && Marked(c.ms, threads)
      ensures k == Victim(cfg, c, victim)
    {
      if cfg.threadReductionEnabled {
        k := victim(kills, |threads|);
      } else {
        assert Marks(threads) == c.ms;
        k := Oldest(Marks(threads));
      }
    }

    /** One pass of the trim loop: the kill the trim on values makes next. */
    method TrimStep(victim: (nat, nat) -> nat, kills: nat, ghost c: Culling) returns (ghost c': Culling)
      requires Valid() && |threads| > 0 && Picks(victim)
      requires c.ts == threads && c.q == effects && c.kills == kills && Marked(c.ms, threads)
      modifies this`threads, this`effects
      ensures Valid() && SubSeq(threads, old(threads))
      ensures c' == Cull(cfg, c, victim) && c'.ts == threads && c'.q == effects && Marked(c'.ms, threads)
    {
      var k := PickVictim(victim, kills, c);
      c' := Cull(cfg, c, victim);
      KillAt(k, c.ms);
    }

    /** The trim loop after `kills` kills: `c` is where the trim on values
        that started from `c0` stands, and the threads, their marks and the
        queue are those of `c`. */
    ghost predicate Trimming(c0: Culling, c: Culling, victim: (nat, nat) -> nat, kills: nat)
      reads this, Repr, set t | t in c0.ts
    {
      && Valid() && Picks(victim) && Marked(c0.ms, c0.ts)
      && c.ts == threads && c.q == effects && c.kills == kills && Marked(c.ms, threads) && SubSeq(threads, c0.ts)
    }

    /** One pass of the trim loop, on the loop's own terms. */
    method TrimPass(victim: (nat, nat) -> nat, kills: nat, ghost c0: Culling, ghost c: Culling) returns (ghost c': Culling)
      requires Trimming(c0, c, victim, kills) && |threads| > cfg.maxThreadCount
      modifies this`threads, this`effects
      ensures Trimming(c0, c', victim, kills + 1) && c' == Cull(cfg, c, victim)
    {
      ghost var before := threads;
      c' := TrimStep(victim, kills, c);
      SubSeqTrans(threads, before, c0.ts);
      Retrimmed(c0, c, c', victim, kills);
    }

    /** The facts one kill leaves make up the trim loop's invariant again. */
    lemma Retrimmed(c0: Culling, c: Culling, c': Culling, victim: (nat, nat) -> nat, kills: nat)
      requires Valid() && Picks(victim) && Marked(c0.ms, c0.ts)
      requires |c.ts| == |c.ms| && |c.ts| > cfg.maxThreadCount && |c0.ts| == |c0.ms|
      requires c' == Cull(cfg, c, victim) && c'.ts == threads && c'.q == effects && Marked(c'.ms, threads)
      requires c.kills == kills && SubSeq(threads, c0.ts)
      ensures Trimming(c0, c', victim, kills + 1)
    {
    }

    /** The trim of a cycle: while there are more than `MaxThreadCount`
        threads, kill one, chosen at random or as the first of the oldest;
        the trim on values of the threads, their marks and the queue.
        Killing oldest first never keeps a thread older than one it kills. */
    method Trim(victim: (nat, nat) -> nat)
      requires Valid() && Picks(victim)
      modifies this`threads, this`effects
      ensures Valid()
      ensures |threads| == if |old(threads)| <= cfg.maxThreadCount then |old(threads)| else cfg.maxThreadCount
      ensures var r := Trimmed(cfg, Culling(old(threads), old(Marks(threads)), old(effects), 0), victim);
        threads == r.ts && effects == r.q
      ensures SubSeq(threads, old(threads))
      ensures forall t :: t in threads ==> t in old(threads) && t.age == old(t.age) && t.ip == old(t.ip)
      ensures !cfg.threadReductionEnabled ==>
        forall u, v :: u in threads && v in old(threads) && v !in threads ==> u.age <= v.age
    {
      SubSeqRefl(threads);
      ghost var c0 := Culling(threads, Marks(threads), effects, 0);
      ghost var c := c0;
      var kills := 0;
      while |threads| > cfg.maxThreadCount
        invariant Trimming(c0, c, victim, kills)
        invariant Trimmed(cfg, c, victim) == Trimmed(cfg, c0, victim)
        decreases |threads|
      {
        TrimmedNext(cfg, c, victim);
        c := TrimPass(victim, kills, c0, c);
        kills := kills + 1;
      }
      SubSeqMembers(threads, old(threads));
      if !cfg.threadReductionEnabled {
        TrimOldestFirst(cfg, c0.ts, c0.ms, c0.q, victim, c);
      }
    }

    /** One step of the highlight pass: the cell under thread `i` gets
        `modified == 2`. */
    method HighlightStep(i: nat, ghost m0: seq<Cell>) returns (next: nat)
      requires Valid() && i < |threads|
      requires memory[..] == Highlighted(m0, IPs(threads[..i]))
      modifies memory
      ensures Valid() && next == i + 1
      ensures memory[..] == Highlighted(m0, IPs(threads[..next]))
    {
      var x := threads[i].ip;
      assert threads[i] in threads;
      next := i + 1;
      IPsNext(threads, i, next);
      HighlightedAdd(m0, IPs(threads[..i]), x);
      memory[x] := memory[x].(modified := 2);
    }

    /** The highlight pass of a cycle: the cell under every thread gets
        `modified == 2`. */
    method Highlight()
      requires Valid()
      modifies memory
      ensures Valid()
      ensures memory[..] == Highlighted(old(memory[..]), IPs(threads))
      ensures forall t :: t in threads ==> t.age == old(t.age) && t.ip == old(t.ip)
    {
      var i := 0;
      while i < |threads|
        invariant Valid() && 0 <= i <= |threads|
        invariant memory[..] == Highlighted(old(memory[..]), IPs(threads[..i]))
      {
        i := HighlightStep(i, old(memory[..]));
      }
      assert threads[..i] == threads;
    }

    /** The first half of a cycle before the thread loop: the noise writes
        in draw order, then the new threads, the last one started first in
        the list. Every thread is an old one or a fresh one of age 0. */
    method Populate(d: CycleDraws)
      requires Valid() && DrawsFit(d)
      modifies memory, this`isDirty, this`threads, this`Repr
      ensures Valid() && fresh(Repr - old(Repr))
      ensures memory[..] == Noise(cfg, old(memory[..]), d.noise[..Count(cfg.randomNoisePerCycle)])
      ensures isDirty == (old(isDirty) || (cfg.randomNoisePerCycle > 0 && cfg.TotalSlice() > 0))
      ensures var c := Count(cfg.newThreadsPerCycle);
        && |threads| == |old(threads)| + c && threads[c..] == old(threads)
        && forall j :: 0 <= j < c ==>
             && fresh(threads[j])
             && threads[j].ip == d.births[c - 1 - j].cell
             && threads[j].age == 0 && threads[j].stackTop == 0
             && threads[j].isReversed == AllowReverse(d.births[c - 1 - j].coin)
      ensures forall t :: t in threads ==> t in old(threads) || (fresh(t) && t.age == 0)
    {
      AddNoise(d.noise);
      StartThreads(d.births);
    }

    /** The end of a cycle: the trim, then the highlight. What is left is
        the trim on values of the threads and the queue; at most
        `MaxThreadCount` threads remain, all from the list before, and the
        cells under them, and only those, are highlighted. */
    method Settle(victim: (nat, nat) -> nat)
      requires Valid()
      requires Picks(victim)
      modifies this`threads, this`effects, memory
      ensures Valid()
      ensures var r := Trimmed(cfg, Culling(old(threads), old(Marks(threads)), old(effects), 0), victim);
        threads == r.ts && effects == r.q
      ensures memory[..] == Highlighted(old(memory[..]), IPs(threads))
      ensures |threads| <= cfg.maxThreadCount
      ensures forall t :: t in threads ==>
        t in old(threads) && t.age == old(t.age) && t.ip == old(t.ip)
      ensures forall t :: t in threads ==> memory[t.ip].modified == 2
    {
      Trim(victim);
      Highlight();
    }

    /** The state the trim and the highlight leave after the thread loop
        left the world `w` and the threads `survivors`, whose ages,
        directions and cells are `ms`: the threads and the queue are the
        trim of those, the memory is `w`'s highlighted under the remaining
        threads, and the dirty flag is `w`'s. */
    ghost predicate Settled(w: World, survivors: seq<Thread>, ms: seq<Mark>, victim: (nat, nat) -> nat)
      reads this, memory, set t | t in survivors, set t | t in threads
      requires cfg.maxThreadCount >= 0 && Picks(victim)
    {
      && Marked(ms, survivors)
      && (var r := Trimmed(cfg, Culling(survivors, ms, w.queue, 0), victim);
          threads == r.ts && effects == r.q)
      && memory[..] == Highlighted(w.mem, IPs(threads))
      && isDirty == w.dirty
    }

    /** `Settle` from the world and the threads the thread loop left. */
    method SettleFrom(victim: (nat, nat) -> nat, ghost w: World, ghost survivors: seq<Thread>, ghost ms: seq<Mark>)
      requires Valid() && Picks(victim)
      requires State() == w && threads == survivors && ms == Marks(survivors)
      modifies this`threads, this`effects, memory
      ensures Valid() && Settled(w, survivors, ms, victim)
      ensures |threads| <= cfg.maxThreadCount
      ensures forall t :: t in threads ==> memory[t.ip].modified == 2
      ensures forall t :: t in threads ==>
        t in old(threads) && t.age == old(t.age) && t.ip == old(t.ip)
    {
      Settle(victim);
    }

    /** One cycle: noise, new threads, every thread one step, the trim to
        `MaxThreadCount`, and the highlight of the cells under the
        survivors. A survivor is either a thread of the old list, aged by
        one and moved one cell, or a thread started this cycle, aged once. */
    method DoCycle(d: CycleDraws)
      requires Valid() && DrawsFit(d)
      modifies this`threads, this`effects, this`isDirty, this`Repr, Repr - {this}
      ensures Valid() && fresh(Repr - old(Repr))
      ensures |threads| <= cfg.maxThreadCount
      ensures forall t :: t in threads ==> memory[t.ip].modified == 2
      ensures forall t :: t in threads ==>
        || (t in old(threads) && t.age == old(t.age) + 1
            && t.ip == Advance(old(t.ip), t.isReversed, memory.Length))
        || (fresh(t) && t.age == 1)
    {
      Populate(d);
      ghost var w, survivors, ms := StepAndSettle(d.victim);
    }

    /** The second half of a cycle: every thread one step, then the trim
        and the highlight. A survivor is a thread of the list before, aged
        by one and moved one cell. */
    method StepAndSettle(victim: (nat, nat) -> nat) returns (ghost w: World, ghost survivors: seq<Thread>, ghost ms: seq<Mark>)
      requires Valid() && Picks(victim)
      modifies this`threads, this`effects, this`isDirty, Repr - {this}
      ensures Valid()
      ensures w == Run(cfg, old(State()), old(Views()), |old(threads)|)
      ensures survivors == Survivors(old(threads), cfg, old(State()), old(Views()), |old(threads)|)
      ensures Settled(w, survivors, ms, victim)
      ensures |threads| <= cfg.maxThreadCount
      ensures forall t :: t in threads ==> memory[t.ip].modified == 2
      ensures forall t :: t in threads ==>
        t in old(threads) && t.age == old(t.age) + 1 && t.ip == Advance(old(t.ip), t.isReversed, memory.Length)
    {
      ghost var started := threads;
      ghost var w0, vs := State(), Views();
      Dispatch(threads, w0, vs);
      w, survivors, ms := State(), threads, Marks(threads);
      SubSeqMembers(threads, started);
      SettleFrom(victim, w, survivors, ms);
    }

    /** One pass of the effect loop: age the effect at `index`, and drop
        it, stepping `index` back, when it has expired. */
    method AgeStepAt(delta: int, index: nat, ghost E: seq<Effect>, ghost k: nat)
      returns (index': nat, ghost k': nat)
      requires NoDuplicates(E) && index < |effects| && k <= |E|
      requires effects[..index] == Aged(E[..k], delta) && effects[index..] == E[k..]
      modifies this`effects
      ensures k' == k + 1 && k' <= |E| && index' <= |effects|
      ensures effects[..index'] == Aged(E[..k'], delta) && effects[index'..] == E[k'..]
    {
      assert k < |E| by {
        assert effects[index..] != [];
      }
      AgeStep(effects, E, delta, index, k);
      var effect := Age(effects[index], delta);
      effects := effects[index := effect];
      var i: int := index;
      if effect.Expired() {
        effects := Remove(effects, effect);
        i := i - 1;
      }
      index' := i + 1;
      k' := k + 1;
    }

    /** The effect pass of `Behave`: every queued effect's progress grows by
        `delta`, and one past its lifespan is removed with `List.Remove`
        while the loop index steps back. */
    method AgeEffects(delta: int)
      requires Valid()
      modifies this`effects
      ensures Valid()
      ensures effects == Aged(old(effects), delta)
    {
      ghost var E := effects;
      ghost var k := 0;
      var index := 0;
      while index < |effects|
        invariant 0 <= index <= |effects| && 0 <= k <= |E|
        invariant effects[..index] == Aged(E[..k], delta)
        invariant effects[index..] == E[k..]
        decreases |E| - k
      {
        index, k := AgeStepAt(delta, index, E, k);
      }
      assert effects[..index] == effects;
      assert E[..k] == E;
      AgedNoDuplicates(E, delta);
      AgedWellFormed(E, delta);
    }

    /** `Behave(delta)`: add `delta` milliseconds, run one cycle for each
        whole `MsPerCycle` now pending, then age the effect queue by
        `delta`. `cycles` counts the cycles run and `queued` is the effect
        queue they leave behind. */
    method Behave(delta: int, draws: seq<CycleDraws>) returns (ghost cycles: nat, ghost queued: seq<Effect>)
      requires Valid()
      requires |draws| >= CyclesDue(progress + delta, cfg.msPerCycle)
      requires forall i :: 0 <= i < |draws| ==> DrawsFit(draws[i])
      modifies Repr
      ensures Valid() && fresh(Repr - old(Repr))
      ensures cycles == CyclesDue(old(progress) + delta, cfg.msPerCycle)
      ensures progress == Leftover(old(progress) + delta, cfg.msPerCycle)
      ensures old(progress) + delta >= 0 ==> Timed()
      ensures effects == Aged(queued, delta)
      ensures cycles == 0 ==>
        && queued == old(effects) && threads == old(threads) && memory[..] == old(memory[..])
        && isDirty == old(isDirty)
      ensures cycles > 0 ==> |threads| <= cfg.maxThreadCount && forall t :: t in threads ==> memory[t.ip].modified == 2
    {
      ghost var due := CyclesDue(progress + delta, cfg.msPerCycle);
      progress := progress + delta;
      ghost var total := progress;
      var cycle := 0;
      while progress >= cfg.msPerCycle
        invariant Valid() && fresh(Repr - old(Repr))
        invariant 0 <= cycle && cycle + CyclesDue(progress, cfg.msPerCycle) == due
        invariant Leftover(progress, cfg.msPerCycle) == Leftover(total, cfg.msPerCycle)
        invariant cycle == 0 ==>
          && effects == old(effects) && threads == old(threads) && memory[..] == old(memory[..])
          && isDirty == old(isDirty)
        invariant cycle > 0 ==> |threads| <= cfg.maxThreadCount && forall t :: t in threads ==> memory[t.ip].modified == 2
        decreases progress
      {
        progress := progress - cfg.msPerCycle;
        DoCycle(draws[cycle]);
        cycle := cycle + 1;
      }
      LeftoverIsRemainder(total, cfg.msPerCycle);
      cycles := cycle;
      queued := effects;
      AgeEffects(delta);
    }
  }
}
