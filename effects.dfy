/** Visual effects: short-lived records the simulator queues when a thread
    dies, a cell is copied or a SPAWN cell expires. Each kind has a fixed
    lifespan and render order; only the progress of an effect changes. */
module Effects {
  import opened Options
  import CSharp

  datatype Kind = Pulse | FallForward | FallReverse | Zoom

  datatype Effect = Effect(kind: Kind, ip: int, progress: int, lifeSpan: int, renderOrder: int) {

    /** `Equals(EffectBase)`: same concrete kind, same cell, same progress;
        the lifespan and render order are not compared, and null is unequal. */
    predicate Equals(other: Option<Effect>)
      ensures Equals(other) <==>
        other.Some? && other.value.(lifeSpan := lifeSpan, renderOrder := renderOrder) == this
    {
      other.Some? && other.value.kind == kind && other.value.ip == ip
      && other.value.progress == progress
    }

    /** `Equals(object)`: defers to `Equals(EffectBase)` through `as`, so an
        object that is not an effect reads as null. */
    predicate EqualsObject(other: Option<Effect>)
      ensures EqualsObject(other) <==> Equals(other)
    {
      Equals(other)
    }

    /** `Approximates`: the other effect is of the same kind at the same cell
        and is still in the first half of its own life (C# integer division). */
    predicate Approximates(other: Option<Effect>)
      ensures Approximates(other) ==> other.Some? && other.value.ip == ip && other.value.kind == kind
      ensures other.Some? && other.value.lifeSpan >= 0 ==>
        (Approximates(other) <==>
          other.value.ip == ip && other.value.kind == kind && 2 * other.value.progress + 2 <= other.value.lifeSpan)
    {
      other.Some? && other.value.ip == ip && other.value.kind == kind
      && other.value.progress < CSharp.Div(other.value.lifeSpan, 2)
    }

    function GetHashCode(): (h: int)
      ensures h == ip
    {
      ip
    }

    /** The progress has run past the lifespan: the effect is due for removal. */
    predicate Expired() {
      progress > lifeSpan
    }
  }

  /** The base constructor: a new effect starts with no progress. */
  function NewEffect(kind: Kind, lifespan: int, ip: int, renderOrder: int): (e: Effect)
    ensures e.progress == 0
    ensures !e.Expired() <==> lifespan >= 0
    ensures e.kind == kind && e.ip == ip
    ensures e.lifeSpan == lifespan && e.renderOrder == renderOrder
  {
    Effect(kind, ip, 0, lifespan, renderOrder)
  }

  /** The fixed lifespan of each kind. */
  function LifeSpanOf(k: Kind): int {
    match k
    case Zoom => 500
    case _ => 1000
  }

  /** The fixed render order of each kind: pulses first, zooms last. */
  function RenderOrderOf(k: Kind): int {
    match k
    case Pulse => 1
    case FallForward => 2
    case FallReverse => 2
    case Zoom => 3
  }

  /** The effect carries its kind's constants, as every effect the
      simulator creates does. */
  predicate WellFormed(e: Effect) {
    e.lifeSpan == LifeSpanOf(e.kind) && e.renderOrder == RenderOrderOf(e.kind)
  }

  function ZoomEffect(index: int): (e: Effect)
    ensures WellFormed(e) && e.kind == Zoom && e.ip == index && e.progress == 0
    ensures e.lifeSpan == 500 && e.renderOrder == 3
  {
    NewEffect(Zoom, 500, index, 3)
  }

  function FallForwardEffect(ip: int): (e: Effect)
    ensures WellFormed(e) && e.kind == FallForward && e.ip == ip && e.progress == 0
    ensures e.lifeSpan == 1000 && e.renderOrder == 2
  {
    NewEffect(FallForward, 1000, ip, 2)
  }

  function FallReverseEffect(ip: int): (e: Effect)
    ensures WellFormed(e) && e.kind == FallReverse && e.ip == ip && e.progress == 0
    ensures e.lifeSpan == 1000 && e.renderOrder == 2
  {
    NewEffect(FallReverse, 1000, ip, 2)
  }

  /** The fall a dying thread leaves: reverse for a reversed thread. */
  function FallEffect(reversed: bool, ip: int): (e: Effect)
    ensures WellFormed(e) && e.ip == ip && e.progress == 0
    ensures e.kind == if reversed then FallReverse else FallForward
  {
    if reversed then FallReverseEffect(ip) else FallForwardEffect(ip)
  }

  function PulseEffect(ip: int): (e: Effect)
    ensures WellFormed(e) && e.kind == Pulse && e.ip == ip && e.progress == 0
    ensures e.lifeSpan == 1000 && e.renderOrder == 1
  {
    NewEffect(Pulse, 1000, ip, 1)
  }

  // ---------------------------------------------------------------------
  // Properties of Equals, GetHashCode and Approximates

  lemma EqualsIsEquivalence(a: Effect, b: Effect, c: Effect)
    ensures a.Equals(Some(a))
    ensures a.Equals(Some(b)) <==> b.Equals(Some(a))
    ensures a.Equals(Some(b)) && b.Equals(Some(c)) ==> a.Equals(Some(c))
    ensures !a.Equals(None) && !a.EqualsObject(None)
  {
  }

  lemma EqualEffectsHashAlike(a: Effect, b: Effect)
    requires a.Equals(Some(b))
    ensures a.GetHashCode() == b.GetHashCode()
  {
  }

  /** Among effects the simulator creates, Equals is plain equality: the
      fields it ignores are fixed by the kind. */
  lemma EqualsIsIdentityWhenWellFormed(a: Effect, b: Effect)
    requires WellFormed(a) && WellFormed(b)
    ensures a.Equals(Some(b)) <==> a == b
  {
  }

  /** Approximates looks only at the other effect's progress, so it is not
      symmetric: a young zoom is approximated by an old one, not the reverse. */
  lemma ApproximatesIsNotSymmetric()
    ensures var young := ZoomEffect(7);
            var elder := young.(progress := 400);
            elder.Approximates(Some(young)) && !young.Approximates(Some(elder))
  {
  }

  lemma ApproximatesIgnoresOwnProgress(a: Effect, d: int, other: Option<Effect>)
    ensures a.Approximates(other) == a.(progress := d).Approximates(other)
    ensures !a.Approximates(None)
  {
  }

  // ---------------------------------------------------------------------
  // The queue

  /** The entries at `i` and `j` of the queue are not Equal. */
  predicate Unequal(q: seq<Effect>, i: int, j: int)
    requires 0 <= i < |q| && 0 <= j < |q|
  {
    !q[i].Equals(Some(q[j]))
  }

  /** No two queued effects are Equal. The pairs are named through
      `Unequal`, so a proof looks at the pairs it mentions. */
  predicate NoDuplicates(q: seq<Effect>) {
    forall i, j {:trigger Unequal(q, i, j)} :: 0 <= i < |q| && 0 <= j < |q| && i != j ==> Unequal(q, i, j)
  }

  /** `Any(x => x.Equals(e))` */
  predicate Holds(q: seq<Effect>, e: Effect) {
    exists i :: 0 <= i < |q| && q[i].Equals(Some(e))
  }

  /** `AddEffect` on a queue value: front insertion unless an Equal effect
      is already queued. */
  function Enqueue(q: seq<Effect>, e: Effect): (r: seq<Effect>)
    ensures Holds(r, e)
    ensures |r| == if Holds(q, e) then |q| else |q| + 1
    ensures forall x :: x in q ==> x in r
    ensures forall x :: x in r ==> x in q || x == e
    ensures NoDuplicates(q) ==> NoDuplicates(r)
    ensures !Holds(q, e) ==> r == [e] + q
  {
    if Holds(q, e) then q
    else
      var r := [e] + q;
      assert r[0].Equals(Some(e));
      assert NoDuplicates(q) ==> NoDuplicates(r) by {
        if NoDuplicates(q) {
          forall i, j | 0 <= i < |r| && 0 <= j < |r| && i != j
            ensures Unequal(r, i, j)
          {
            if i == 0 {
              assert !r[j].Equals(Some(e));
            } else if j == 0 {
              assert !r[i].Equals(Some(e));
            } else {
              assert r[i] == q[i - 1] && r[j] == q[j - 1];
              assert Unequal(q, i - 1, j - 1);
            }
          }
        }
      }
      r
  }

  /** Enqueuing an effect Equal to a queued one leaves the queue as it was. */
  lemma EnqueueIdempotent(q: seq<Effect>, e: Effect)
    ensures Enqueue(Enqueue(q, e), e) == Enqueue(q, e)
  {
  }

  /** Anything queued stays queued when the queue only grows. */
  lemma HoldsKept(q: seq<Effect>, r: seq<Effect>, e: Effect)
    requires Holds(q, e)
    requires forall x :: x in q ==> x in r
    ensures Holds(r, e)
  {
    var i :| 0 <= i < |q| && q[i].Equals(Some(e));
    assert q[i] in r;
    var j :| 0 <= j < |r| && r[j] == q[i];
  }

  /** `List.Remove(e)`: drops the first queued effect that is Equal to `e`. */
  function Remove(q: seq<Effect>, e: Effect): (r: seq<Effect>)
    ensures |r| == if Holds(q, e) then |q| - 1 else |q|
  {
    if q == [] then []
    else if q[0].Equals(Some(e)) then q[1..]
    else
      assert Holds(q, e) <==> Holds(q[1..], e) by {
        if Holds(q, e) {
          var i :| 0 <= i < |q| && q[i].Equals(Some(e));
          assert q[1..][i - 1] == q[i];
        }
        if Holds(q[1..], e) {
          var i :| 0 <= i < |q[1..]| && q[1..][i].Equals(Some(e));
          assert q[i + 1] == q[1..][i];
        }
      }
      [q[0]] + Remove(q[1..], e)
  }

  /** When no earlier entry is Equal to `e`, removing `e` removes the entry
      at its own position `k`. */
  lemma {:induction false} RemoveAt(q: seq<Effect>, e: Effect, k: nat)
    requires k < |q| && q[k].Equals(Some(e))
    requires forall j :: 0 <= j < k ==> !q[j].Equals(Some(e))
    ensures Remove(q, e) == q[..k] + q[k + 1..]
  {
    if k > 0 {
      RemoveAt(q[1..], e, k - 1);
      assert q[1..][..k - 1] + q[1..][k..] == q[1..k] + q[k + 1..];
      assert [q[0]] + q[1..k] == q[..k];
    }
  }

  // ---------------------------------------------------------------------
  // Aging

  function Age(e: Effect, delta: int): Effect {
    e.(progress := e.progress + delta)
  }

  /** The queue after one Behave: every effect's progress grows by `delta`,
      and those that have run past their lifespan are dropped, the others
      keeping their order. */
  function Aged(q: seq<Effect>, delta: int): (r: seq<Effect>)
    ensures |r| <= |q|
  {
    if q == [] then []
    else
      var a := Age(q[0], delta);
      (if a.Expired() then [] else [a]) + Aged(q[1..], delta)
  }

  /** An effect is in the aged queue exactly when it is the aged form of a
      queued effect that has not expired. */
  lemma {:induction false} AgedMembers(q: seq<Effect>, delta: int, x: Effect)
    ensures x in Aged(q, delta) <==>
            exists i :: 0 <= i < |q| && x == Age(q[i], delta) && !x.Expired()
  {
    if q != [] {
      AgedMembers(q[1..], delta, x);
      if exists i :: 0 <= i < |q| && x == Age(q[i], delta) && !x.Expired() {
        var i :| 0 <= i < |q| && x == Age(q[i], delta) && !x.Expired();
        if i > 0 {
          assert q[1..][i - 1] == q[i];
        }
      }
      if exists i :: 0 <= i < |q[1..]| && x == Age(q[1..][i], delta) && !x.Expired() {
        var i :| 0 <= i < |q[1..]| && x == Age(q[1..][i], delta) && !x.Expired();
        assert q[i + 1] == q[1..][i];
      }
    }
  }

  /** Nothing expired survives aging. */
  lemma AgedUnexpired(q: seq<Effect>, delta: int)
    ensures forall x :: x in Aged(q, delta) ==> !x.Expired()
  {
    forall x | x in Aged(q, delta)
      ensures !x.Expired()
    {
      AgedMembers(q, delta, x);
    }
  }

  /** Aging moves every progress by the same amount, so it keeps the queue
      free of Equal pairs. */
  lemma {:induction false} AgedNoDuplicates(q: seq<Effect>, delta: int)
    requires NoDuplicates(q)
    ensures NoDuplicates(Aged(q, delta))
  {
    if q != [] {
      var tail := q[1..];
      assert NoDuplicates(tail) by {
        forall i, j | 0 <= i < |tail| && 0 <= j < |tail| && i != j
          ensures Unequal(tail, i, j)
        {
          assert tail[i] == q[i + 1] && tail[j] == q[j + 1];
          assert Unequal(q, i + 1, j + 1);
        }
      }
      AgedNoDuplicates(tail, delta);
      var a := Age(q[0], delta);
      if !a.Expired() {
        var r := Aged(q, delta);
        var rest := Aged(tail, delta);
        assert r == [a] + rest;
        forall x | x in rest
          ensures !a.Equals(Some(x)) && !x.Equals(Some(a))
        {
          AgedMembers(tail, delta, x);
          var i :| 0 <= i < |tail| && x == Age(tail[i], delta) && !x.Expired();
          assert tail[i] == q[i + 1];
          assert Unequal(q, 0, i + 1) && Unequal(q, i + 1, 0);
        }
        forall i, j | 0 <= i < |r| && 0 <= j < |r| && i != j
          ensures Unequal(r, i, j)
        {
          if i == 0 {
            assert r[j] == rest[j - 1];
          } else if j == 0 {
            assert r[i] == rest[i - 1];
          } else {
            assert r[i] == rest[i - 1] && r[j] == rest[j - 1];
            assert Unequal(rest, i - 1, j - 1);
          }
        }
      } else {
        assert Aged(q, delta) == Aged(tail, delta);
      }
    }
  }

  /** In a queue without Equal pairs, no aged entry before position `k` is
      Equal to the aged entry at `k`: `List.Remove` of the latter finds it
      at its own position. */
  lemma AgedPrefixDiffers(q: seq<Effect>, delta: int, k: nat)
    requires NoDuplicates(q) && k < |q|
    ensures forall x :: x in Aged(q[..k], delta) ==> !x.Equals(Some(Age(q[k], delta)))
  {
    forall x | x in Aged(q[..k], delta)
      ensures !x.Equals(Some(Age(q[k], delta)))
    {
      AgedMembers(q[..k], delta, x);
      var i :| 0 <= i < k && x == Age(q[..k][i], delta) && !x.Expired();
      assert q[..k][i] == q[i];
      assert Unequal(q, i, k);
    }
  }

  /** One pass of the effect loop of `Behave` over a queue `q` whose first
      `index` entries are `E[..k]` aged and whose rest is `E[k..]`: the
      entry at `index` is aged in place and, once expired, removed with
      `List.Remove`; afterwards the same split holds one entry of `E` on. */
  lemma AgeStep(q: seq<Effect>, E: seq<Effect>, delta: int, index: nat, k: nat)
    requires NoDuplicates(E) && k < |E| && index <= |q|
    requires q[..index] == Aged(E[..k], delta) && q[index..] == E[k..]
    ensures var e := Age(q[index], delta);
      var r := if e.Expired() then Remove(q[index := e], e) else q[index := e];
      var next := if e.Expired() then index else index + 1;
      && next <= |r| && r[..next] == Aged(E[..k + 1], delta) && r[next..] == E[k + 1..]
  {
    assert q[index] == q[index..][0] == E[k..][0] == E[k];
    assert E[..k + 1] == E[..k] + [E[k]];
    AgedAppend(E[..k], [E[k]], delta);
    var e := Age(q[index], delta);
    var u := q[index := e];
    assert u[..index] == q[..index];
    assert u[index + 1..] == q[index + 1..] == E[k + 1..] by {
      assert q[index + 1..] == q[index..][1..];
    }
    if e.Expired() {
      AgedPrefixDiffers(E, delta, k);
      forall j | 0 <= j < index
        ensures !u[j].Equals(Some(e))
      {
        assert u[j] == q[..index][j];
      }
      RemoveAt(u, e, index);
      var r := u[..index] + u[index + 1..];
      assert r[..index] == u[..index] && r[index..] == u[index + 1..];
    } else {
      assert u[..index + 1] == u[..index] + [e];
    }
  }

  /** Two calls aging by `d1` and then by a non-negative `d2` leave the same
      queue as one call aging by `d1 + d2`. */
  lemma {:induction false} AgedCompose(q: seq<Effect>, d1: int, d2: int)
    requires d2 >= 0
    ensures Aged(Aged(q, d1), d2) == Aged(q, d1 + d2)
  {
    if q != [] {
      AgedCompose(q[1..], d1, d2);
      var a := Age(q[0], d1);
      if !a.Expired() {
        var s := [a] + Aged(q[1..], d1);
        assert Aged(q, d1) == s;
        assert s[0] == a && s[1..] == Aged(q[1..], d1);
        var b := Age(a, d2);
        assert b == Age(q[0], d1 + d2);
        calc {
          Aged(Aged(q, d1), d2);
          Aged(s, d2);
          (if b.Expired() then [] else [b]) + Aged(Aged(q[1..], d1), d2);
          (if b.Expired() then [] else [b]) + Aged(q[1..], d1 + d2);
          Aged(q, d1 + d2);
        }
      } else {
        assert Age(q[0], d1 + d2).Expired();
        assert Aged(q, d1) == Aged(q[1..], d1);
        assert Aged(q, d1 + d2) == Aged(q[1..], d1 + d2);
      }
    }
  }

  /** Aging works entry by entry, so it distributes over concatenation. */
  lemma {:induction false} AgedAppend(a: seq<Effect>, b: seq<Effect>, delta: int)
    ensures Aged(a + b, delta) == Aged(a, delta) + Aged(b, delta)
  {
    if a != [] {
      AgedAppend(a[1..], b, delta);
      assert (a + b)[0] == a[0] && (a + b)[1..] == a[1..] + b;
    } else {
      assert a + b == b;
    }
  }

  /** Aging keeps each effect's kind and constants. */
  lemma AgedWellFormed(q: seq<Effect>, delta: int)
    requires forall e :: e in q ==> WellFormed(e)
    ensures forall x :: x in Aged(q, delta) ==> WellFormed(x)
  {
    forall x | x in Aged(q, delta)
      ensures WellFormed(x)
    {
      AgedMembers(q, delta, x);
      var i :| 0 <= i < |q| && x == Age(q[i], delta) && !x.Expired();
      assert q[i] in q;
    }
  }
}
