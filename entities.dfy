/** The entity store: the record of one battling entity, the creation of the
    fifty-entity store, per-type counts and the random scatter at preparation. */
module Entities {
  import opened Rules
  import opened Arena

  /** One entity. Its image source and loaded image are fixed by its kind
      and are always copied together with it, so they are not stored. */
  datatype Entity = Entity(kind: Kind, x: real, y: real, vx: real, vy: real)

  /** Entities created per base type. */
  const PerKind: nat := 10

  /** `entities.length`, which is also the number of images to load. */
  const StoreSize: nat := 50

  /** An entity at the origin, at rest. */
  function Blank(k: Kind): Entity {
    Entity(k, 0.0, 0.0, 0.0, 0.0)
  }

  /** `createEntities`: for each base type in turn, push ten blank entities
      of that type. Entity i therefore has the (i / 10)-th base type. */
  method CreateEntities() returns (es: seq<Entity>)
    ensures |es| == StoreSize
    ensures forall i :: 0 <= i < |es| ==> es[i] == Blank(AllKinds[i / PerKind])
  {
    es := [];
    var t := 0;
    while t < |AllKinds|
      invariant 0 <= t <= |AllKinds|
      invariant |es| == PerKind * t
      invariant forall i :: 0 <= i < |es| ==> es[i] == Blank(AllKinds[i / PerKind])
    {
      var n := 0;
      while n < PerKind
        invariant 0 <= n <= PerKind
        invariant |es| == PerKind * t + n
        invariant forall i :: 0 <= i < |es| ==> es[i] == Blank(AllKinds[i / PerKind])
      {
        assert (PerKind * t + n) / PerKind == t;
        es := es + [Blank(AllKinds[t])];
        n := n + 1;
      }
      t := t + 1;
    }
  }

  /** The number of entities of kind k. */
  function Count(s: seq<Entity>, k: Kind): nat {
    if s == [] then 0 else (if s[0].kind == k then 1 else 0) + Count(s[1..], k)
  }

  /** The per-kind counts of any store add up to its size. */
  lemma {:induction false} CountsSum(s: seq<Entity>)
    ensures Count(s, Rock) + Count(s, Paper) + Count(s, Scissors)
          + Count(s, Lizard) + Count(s, Spock) == |s|
  {
    if s != [] {
      CountsSum(s[1..]);
    }
  }

  lemma {:induction false} CountAppend(s: seq<Entity>, t: seq<Entity>, k: Kind)
    ensures Count(s + t, k) == Count(s, k) + Count(t, k)
  {
    if s == [] {
      assert s + t == t;
    } else {
      assert (s + t)[1..] == s[1..] + t;
      CountAppend(s[1..], t, k);
    }
  }

  lemma {:induction false} CountUniform(s: seq<Entity>, j: Kind, k: Kind)
    requires forall i :: 0 <= i < |s| ==> s[i].kind == j
    ensures Count(s, k) == if j == k then |s| else 0
  {
    if s != [] {
      CountUniform(s[1..], j, k);
    }
  }

  /** A freshly created store holds ten entities of every kind. */
  lemma InitialCounts(es: seq<Entity>, k: Kind)
    requires |es| == StoreSize
    requires forall i :: 0 <= i < |es| ==> es[i] == Blank(AllKinds[i / PerKind])
    ensures Count(es, k) == PerKind
  {
    var b0, b1, b2, b3, b4 := es[..10], es[10..20], es[20..30], es[30..40], es[40..];
    assert es == b0 + b1 + b2 + b3 + b4;
    CountUniform(b0, Rock, k);
    CountUniform(b1, Paper, k);
    CountUniform(b2, Scissors, k);
    CountUniform(b3, Lizard, k);
    CountUniform(b4, Spock, k);
    CountAppend(b0, b1, k);
    CountAppend(b0 + b1, b2, k);
    CountAppend(b0 + b1 + b2, b3, k);
    CountAppend(b0 + b1 + b2 + b3, b4, k);
  }

  /** The set of kinds present (`new Set(entities.map(e => e.name))`). */
  function KindSet(s: seq<Entity>): set<Kind> {
    set i | 0 <= i < |s| :: s[i].kind
  }

  /** Every entity has the same kind. */
  predicate AllSame(s: seq<Entity>) {
    forall i, j :: 0 <= i < |s| && 0 <= j < |s| ==> s[i].kind == s[j].kind
  }

  /** For a non-empty store, exactly one kind is present iff all entities
      share their kind; the only kind is then the kind of every entity. */
  lemma SingleKind(s: seq<Entity>)
    requires s != []
    ensures |KindSet(s)| == 1 <==> AllSame(s)
    ensures AllSame(s) ==> KindSet(s) == {s[0].kind}
  {
    var ks := KindSet(s);
    assert s[0].kind in ks;
    if AllSame(s) {
      assert ks == {s[0].kind};
    }
    if |ks| == 1 {
      var rest := ks - {s[0].kind};
      assert |rest| == 0;
      forall i, j | 0 <= i < |s| && 0 <= j < |s| ensures s[i].kind == s[j].kind {
        assert s[i].kind in ks && s[i].kind !in rest;
        assert s[j].kind in ks && s[j].kind !in rest;
      }
    }
  }

  /** The random values one entity's scatter consumes: three `Math.random()`
      draws (position fractions and speed fraction) and the cosine and sine
      of the random angle. */
  datatype Draw = Draw(fx: real, fy: real, fs: real, cos: real, sin: real)

  predicate ValidDraw(d: Draw) {
    0.0 <= d.fx < 1.0 && 0.0 <= d.fy < 1.0 && 0.0 <= d.fs < 1.0
    && d.cos * d.cos + d.sin * d.sin == 1.0
  }

  /** One entity of `randomizeEntities`: a position uniformly inside the
      arena and a velocity of speed between 1.5 and 3 in a random direction. */
  function Scatter(e: Entity, d: Draw, w: real, h: real): (r: Entity)
    requires ValidDraw(d)
    ensures r.kind == e.kind
    ensures Size <= w ==> 0.0 <= r.x <= w - Size
    ensures Size <= h ==> 0.0 <= r.y <= h - Size
    ensures 2.25 <= r.vx * r.vx + r.vy * r.vy < 9.0
  {
    var speed := 1.5 + d.fs * 1.5;
    SpeedSquared(d.cos, d.sin, speed);
    FractionWithin(d.fx, w);
    FractionWithin(d.fy, h);
    e.(x := d.fx * (w - Size), y := d.fy * (h - Size), vx := d.cos * speed, vy := d.sin * speed)
  }

  lemma SpeedSquared(c: real, s: real, speed: real)
    requires c * c + s * s == 1.0 && 1.5 <= speed < 3.0
    ensures 2.25 <= (c * speed) * (c * speed) + (s * speed) * (s * speed) < 9.0
  {
    calc {
      (c * speed) * (c * speed) + (s * speed) * (s * speed);
      (c * c + s * s) * (speed * speed);
      speed * speed;
    }
    NonNegativeProduct(speed - 1.5, speed + 1.5);
    assert speed * speed - 2.25 == (speed - 1.5) * (speed + 1.5);
    assert speed * speed < 3.0 * speed < 9.0 by {
      PositiveProduct(3.0 - speed, speed);
    }
  }

  lemma NonNegativeProduct(a: real, b: real)
    requires 0.0 <= a && 0.0 <= b
    ensures 0.0 <= a * b
  {
  }

  lemma PositiveProduct(a: real, b: real)
    requires 0.0 < a && 0.0 < b
    ensures 0.0 < a * b
  {
  }

  /** A fraction in [0, 1) of the free extent `w - Size` lies within it. */
  lemma FractionWithin(f: real, w: real)
    requires 0.0 <= f < 1.0
    ensures Size <= w ==> 0.0 <= f * (w - Size) <= w - Size
  {
    if Size <= w {
      NonNegativeProduct(f, w - Size);
      NonNegativeProduct(1.0 - f, w - Size);
      assert (w - Size) - f * (w - Size) == (1.0 - f) * (w - Size);
    }
  }

  /** The footprint of every entity lies inside a `w` by `h` arena. */
  predicate Inside(s: seq<Entity>, w: real, h: real) {
    forall i :: 0 <= i < |s| ==> 0.0 <= s[i].x <= w - Size && 0.0 <= s[i].y <= h - Size
  }

  /** The store after `randomizeEntities`: unchanged while the arena has no
      width or no height, otherwise every entity scattered with its own draw. */
  function Scattered(s: seq<Entity>, draws: seq<Draw>, w: real, h: real): seq<Entity>
    requires |draws| == |s| && forall k :: 0 <= k < |draws| ==> ValidDraw(draws[k])
  {
    if w == 0.0 || h == 0.0 then s
    else seq(|s|, i requires 0 <= i < |s| => Scatter(s[i], draws[i], w, h))
  }

  /** After a scatter in an arena at least one entity wide and high, every
      footprint is inside it, every kind is kept and every speed lies in
      [1.5, 3). */
  lemma ScatteredInside(s: seq<Entity>, draws: seq<Draw>, w: real, h: real)
    requires |draws| == |s| && forall k :: 0 <= k < |draws| ==> ValidDraw(draws[k])
    requires Size <= w && Size <= h
    ensures var r := Scattered(s, draws, w, h);
            |r| == |s| && Inside(r, w, h)
            && (forall i :: 0 <= i < |s| ==> r[i].kind == s[i].kind)
            && (forall i :: 0 <= i < |s| ==> 2.25 <= r[i].vx * r[i].vx + r[i].vy * r[i].vy < 9.0)
  {
  }

  /** `randomizeEntities`, in place. */
  method Randomize(a: array<Entity>, draws: seq<Draw>, w: real, h: real)
    requires |draws| == a.Length
    requires forall k :: 0 <= k < |draws| ==> ValidDraw(draws[k])
    modifies a
    ensures a[..] == Scattered(old(a[..]), draws, w, h)
  {
    if w == 0.0 || h == 0.0 {
      return;
    }
    for k := 0 to a.Length
      invariant forall m :: 0 <= m < k ==> a[m] == Scatter(old(a[m]), draws[m], w, h)
      invariant forall m :: k <= m < a.Length ==> a[m] == old(a[m])
    {
      a[k] := Scatter(a[k], draws[k], w, h);
    }
  }
}
