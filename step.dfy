/** The per-frame simulation step of `animate`: move and bounce every entity,
    then visit every pair in ascending index order and convert the loser of
    each colliding pair. Each phase is an in-place loop over the store,
    specified by a function on the store's contents. */
module Step {
  import opened Wrappers
  import opened Rules
  import opened Arena
  import opened Entities

  /** One entity of the move loop: both axes advance and bounce independently. */
  function Move(e: Entity, w: real, h: real): (r: Entity)
    ensures r.kind == e.kind
    ensures Size <= w ==> 0.0 <= r.x <= w - Size
    ensures Size <= h ==> 0.0 <= r.y <= h - Size
    ensures Abs(r.vx) == Abs(e.vx) && Abs(r.vy) == Abs(e.vy)
    ensures r.vx * r.vx + r.vy * r.vy == e.vx * e.vx + e.vy * e.vy
  {
    var mx := Bounce(e.x, e.vx, w);
    var my := Bounce(e.y, e.vy, h);
    Entity(e.kind, mx.pos, my.pos, mx.vel, my.vel)
  }

  /** The whole store after the move loop. */
  function Moved(s: seq<Entity>, w: real, h: real): seq<Entity> {
    seq(|s|, i requires 0 <= i < |s| => Move(s[i], w, h))
  }

  /** Same length, and every entity keeps its position and velocity: only
      kinds may differ. */
  predicate SameMotion(s: seq<Entity>, t: seq<Entity>) {
    |s| == |t| &&
    forall i :: 0 <= i < |s| ==>
      s[i].x == t[i].x && s[i].y == t[i].y && s[i].vx == t[i].vx && s[i].vy == t[i].vy
  }

  /** After the move loop every footprint is inside an arena at least one
      entity wide and high, whatever the positions before; kinds and speeds
      per axis are kept. */
  lemma MovedInside(s: seq<Entity>, w: real, h: real)
    requires Size <= w && Size <= h
    ensures |Moved(s, w, h)| == |s|
    ensures Inside(Moved(s, w, h), w, h)
  {
  }

  /** The move loop (`entities.forEach`), in place. */
  method MoveAll(a: array<Entity>, w: real, h: real)
    modifies a
    ensures a[..] == Moved(old(a[..]), w, h)
  {
    for k := 0 to a.Length
      invariant forall m :: 0 <= m < k ==> a[m] == Move(old(a[m]), w, h)
      invariant forall m :: k <= m < a.Length ==> a[m] == old(a[m])
    {
      var e := a[k];
      var mx := Bounce(e.x, e.vx, w);
      var my := Bounce(e.y, e.vy, h);
      a[k] := Entity(e.kind, mx.pos, my.pos, mx.vel, my.vel);
    }
  }

  /** Two entities whose centres are within collision reach. */
  predicate Colliding(a: Entity, b: Entity) {
    Close(a.x, a.y, b.x, b.y)
  }

  /** The visit of pair (i, j): when the two collide and one defeats the
      other, the loser takes the winner's kind; nothing else changes. */
  function ResolvePair(s: seq<Entity>, i: nat, j: nat): (r: seq<Entity>)
    requires i < j < |s|
    ensures SameMotion(s, r)
    ensures forall k :: 0 <= k < |s| && k != i && k != j ==> r[k] == s[k]
    ensures !Colliding(s[i], s[j]) || s[i].kind == s[j].kind ==> r == s
    ensures Colliding(s[i], s[j]) && Defeats(s[i].kind, s[j].kind) ==>
              r[i] == s[i] && r[j].kind == s[i].kind
    ensures Colliding(s[i], s[j]) && Defeats(s[j].kind, s[i].kind) ==>
              r[j] == s[j] && r[i].kind == s[j].kind
  {
    var a, b := s[i], s[j];
    if Colliding(a, b) then
      var winner := WinnerName(a.kind, b.kind);
      if winner == Some(a.kind) then s[j := b.(kind := a.kind)]
      else if winner == Some(b.kind) then s[i := a.(kind := b.kind)]
      else s
    else s
  }

  /** The collision loops from pair (i, j) on: the rest of row i, then every
      later row, each pair seeing the conversions of the pairs before it. */
  function CollideFrom(s: seq<Entity>, i: nat, j: nat): (r: seq<Entity>)
    requires i < j
    ensures SameMotion(s, r)
    decreases |s| - i, |s| - j
  {
    if i >= |s| then s
    else if j >= |s| then CollideFrom(s, i + 1, i + 2)
    else CollideFrom(ResolvePair(s, i, j), i, j + 1)
  }

  /** The whole collision pass: pairs (0, 1), (0, 2), ..., (n - 2, n - 1). */
  function Collided(s: seq<Entity>): seq<Entity> {
    CollideFrom(s, 0, 1)
  }

  /** The collision loops (`for i`, `for j > i`), in place. */
  method CollideAll(a: array<Entity>)
    modifies a
    ensures a[..] == Collided(old(a[..]))
  {
    var n := a.Length;
    var i := 0;
    while i < n
      invariant 0 <= i <= n
      invariant CollideFrom(a[..], i, i + 1) == Collided(old(a[..]))
    {
      var j := i + 1;
      while j < n
        invariant i < j <= n
        invariant CollideFrom(a[..], i, j) == Collided(old(a[..]))
      {
        ghost var before := a[..];
        var ea, eb := a[i], a[j];
        if Colliding(ea, eb) {
          var winner := WinnerName(ea.kind, eb.kind);
          if winner == Some(ea.kind) {
            a[j] := eb.(kind := ea.kind);
          } else if winner == Some(eb.kind) {
            a[i] := ea.(kind := eb.kind);
          }
        }
        assert a[..] == ResolvePair(before, i, j);
        j := j + 1;
      }
      i := i + 1;
    }
  }

  /** A visit never introduces a kind: the loser takes a kind already present. */
  lemma ResolveKeepsKinds(s: seq<Entity>, i: nat, j: nat)
    requires i < j < |s|
    ensures KindSet(ResolvePair(s, i, j)) <= KindSet(s)
  {
    var t := ResolvePair(s, i, j);
    forall k | k in KindSet(t) ensures k in KindSet(s) {
      var m :| 0 <= m < |t| && t[m].kind == k;
      if t[m] != s[m] {
        assert t[m].kind == s[i].kind || t[m].kind == s[j].kind;
      }
    }
  }

  /** The collision pass only ever removes kinds: a kind absent before the
      pass is absent after it. */
  lemma {:induction false} CollideKeepsKinds(s: seq<Entity>, i: nat, j: nat)
    requires i < j
    ensures KindSet(CollideFrom(s, i, j)) <= KindSet(s)
    decreases |s| - i, |s| - j
  {
    if i >= |s| {
    } else if j >= |s| {
      CollideKeepsKinds(s, i + 1, i + 2);
    } else {
      ResolveKeepsKinds(s, i, j);
      CollideKeepsKinds(ResolvePair(s, i, j), i, j + 1);
    }
  }

  /** A store of one kind goes through the collision pass unchanged. */
  lemma {:induction false} CollideSameKind(s: seq<Entity>, i: nat, j: nat)
    requires i < j
    requires AllSame(s)
    ensures CollideFrom(s, i, j) == s
    decreases |s| - i, |s| - j
  {
    if i >= |s| {
    } else if j >= |s| {
      CollideSameKind(s, i + 1, i + 2);
    } else {
      assert ResolvePair(s, i, j) == s;
      CollideSameKind(s, i, j + 1);
    }
  }

  /** An entity within reach of no other entity keeps its kind through the
      whole pass (reach depends on positions alone, which the pass keeps). */
  lemma {:induction false} IsolatedKeepsKind(s: seq<Entity>, i: nat, j: nat, k: nat)
    requires i < j && k < |s|
    requires forall m :: 0 <= m < |s| && m != k ==> !Colliding(s[k], s[m])
    ensures CollideFrom(s, i, j)[k] == s[k]
    decreases |s| - i, |s| - j
  {
    if i >= |s| {
    } else if j >= |s| {
      IsolatedKeepsKind(s, i + 1, i + 2, k);
    } else {
      var t := ResolvePair(s, i, j);
      assert t[k] == s[k] by {
        if k == i {
          assert !Colliding(s[i], s[j]);
        } else if k == j {
          assert !Colliding(s[j], s[i]);
          CloseSymmetric(s[i].x, s[i].y, s[j].x, s[j].y);
        }
      }
      forall m | 0 <= m < |t| && m != k ensures !Colliding(t[k], t[m]) {
        assert !Colliding(s[k], s[m]);
      }
      IsolatedKeepsKind(t, i, j + 1, k);
    }
  }

  /** The collision pass conserves the population: fifty entities before,
      fifty after, and the per-kind counts still add up to the store size. */
  lemma CollidePopulation(s: seq<Entity>)
    ensures |Collided(s)| == |s|
    ensures Count(Collided(s), Rock) + Count(Collided(s), Paper) + Count(Collided(s), Scissors)
          + Count(Collided(s), Lizard) + Count(Collided(s), Spock) == |s|
  {
    CountsSum(Collided(s));
  }

  /** One whole frame's store update (move loop, then collision pass): the
      store keeps its size, every footprint ends inside an arena at least
      one entity wide and high, and every velocity keeps its magnitude per
      axis (collisions never touch motion, bounces only reverse it). */
  lemma FrameKeepsMotionBounds(s: seq<Entity>, w: real, h: real)
    ensures var r := Collided(Moved(s, w, h));
            && |r| == |s|
            && (Size <= w && Size <= h ==> Inside(r, w, h))
            && (forall i :: 0 <= i < |s| ==> Abs(r[i].vx) == Abs(s[i].vx) && Abs(r[i].vy) == Abs(s[i].vy))
  {
    var m := Moved(s, w, h);
    assert SameMotion(m, Collided(m));
    if Size <= w && Size <= h {
      MovedInside(s, w, h);
    }
  }

  /** A frame over a store of one kind k moves it and leaves every entity
      of kind k: the collision pass has nothing to convert. */
  lemma FrameKeepsSoleKind(s: seq<Entity>, w: real, h: real, k: Kind)
    requires forall i :: 0 <= i < |s| ==> s[i].kind == k
    ensures var r := Collided(Moved(s, w, h));
            r == Moved(s, w, h) && forall i :: 0 <= i < |r| ==> r[i].kind == k
  {
    var m := Moved(s, w, h);
    assert AllSame(m) by {
      forall i | 0 <= i < |m| ensures m[i].kind == k {
        assert m[i] == Move(s[i], w, h);
      }
    }
    CollideSameKind(m, 0, 1);
  }

  /** Rock and scissors whose centres are 30 apart collide: the scissors
      becomes a rock; positions and velocities stay. */
  lemma RockConvertsScissors()
    ensures var s := [Entity(Rock, 0.0, 0.0, 1.0, 1.0), Entity(Scissors, 30.0, 0.0, -1.0, 2.0)];
            Collided(s) == [s[0], s[1].(kind := Rock)]
  {
    var s := [Entity(Rock, 0.0, 0.0, 1.0, 1.0), Entity(Scissors, 30.0, 0.0, -1.0, 2.0)];
    var t := ResolvePair(s, 0, 1);
    assert Colliding(s[0], s[1]);
    assert t == [s[0], s[1].(kind := Rock)];
    calc {
      Collided(s);
      CollideFrom(t, 0, 2);
      CollideFrom(t, 1, 2);
      CollideFrom(t, 2, 3);
    }
  }

  /** Two rocks on top of each other stay rocks. */
  lemma SameKindIsInert()
    ensures var s := [Entity(Rock, 5.0, 5.0, 1.0, 0.0), Entity(Rock, 5.0, 5.0, 0.0, 1.0)];
            Collided(s) == s
  {
    var s := [Entity(Rock, 5.0, 5.0, 1.0, 0.0), Entity(Rock, 5.0, 5.0, 0.0, 1.0)];
    assert AllSame(s);
    CollideSameKind(s, 0, 1);
  }

  /** Later pairs see earlier conversions. Rock, scissors and paper on one
      spot: (0, 1) turns the scissors into rock, (0, 2) turns the first rock
      into paper, and (1, 2) then meets the converted rock, not the original
      scissors, so the paper wins again and all three end as paper. */
  lemma ConversionsVisibleToLaterPairs()
    ensures var s := [Entity(Rock, 0.0, 0.0, 0.0, 0.0), Entity(Scissors, 0.0, 0.0, 0.0, 0.0),
                      Entity(Paper, 0.0, 0.0, 0.0, 0.0)];
            Collided(s) == [s[2], s[2], s[2]]
  {
    var e := Entity(Paper, 0.0, 0.0, 0.0, 0.0);
    var s0 := [e.(kind := Rock), e.(kind := Scissors), e];
    var s1 := [e.(kind := Rock), e.(kind := Rock), e];
    var s2 := [e, e.(kind := Rock), e];
    var s3 := [e, e, e];
    assert Colliding(e, e);
    assert ResolvePair(s0, 0, 1) == s1;
    assert ResolvePair(s1, 0, 2) == s2;
    assert ResolvePair(s2, 1, 2) == s3;
    calc {
      Collided(s0);
      CollideFrom(s1, 0, 2);
      CollideFrom(s2, 0, 3);
      CollideFrom(s2, 1, 2);
      CollideFrom(s3, 1, 3);
      CollideFrom(s3, 2, 3);
      CollideFrom(s3, 3, 4);
    }
  }

  /** An entity half a pixel short of the right wall moving right at 2 per
      frame lands against the wall and turns back; its vertical motion,
      clear of both walls, is untouched. */
  lemma BounceOffRightWall(w: real, h: real)
    requires Size <= w && Size + 20.0 <= h
    ensures var e := Entity(Lizard, w - Size - 0.5, 10.0, 2.0, 1.0);
            Move(e, w, h) == e.(x := w - Size, y := 11.0, vx := -2.0)
  {
  }
}
