/** The Barnes-Hut octree of `add` and the per-step rebuild in `evolve`.

    A leaf is a body that sits in the cell it was last placed into; an
    internal node is a copy of the leaf it replaced, carrying the aggregate
    mass `m`, the aggregate mass-weighted position `mpos`, the side of its
    cell (as `level`, the side being 2^-level) and eight child slots. */
module Octree {
  import opened Options
  import opened Vectors
  import opened Bodies

  datatype Tree =
    | Leaf(loc: Located)
    | Internal(m: real, mpos: Vec3, level: nat, child: seq<Option<Tree>>)

  function Level(t: Tree): nat
  {
    match t
    case Leaf(c) => c.level
    case Internal(_, _, level, _) => level
  }

  function Mass(t: Tree): real
  {
    match t
    case Leaf(c) => c.body.m
    case Internal(m, _, _, _) => m
  }

  function MPos(t: Tree): Vec3
  {
    match t
    case Leaf(c) => c.body.mpos
    case Internal(_, mpos, _, _) => mpos
  }

  /** The eight empty slots of a freshly subdivided node. */
  const NoChildren: seq<Option<Tree>> := [None, None, None, None, None, None, None, None]

  /** Every internal node has exactly eight slots. */
  predicate Shaped(t: Tree)
    decreases t
  {
    match t
    case Leaf(_) => true
    case Internal(_, _, _, cs) =>
      |cs| == 8 && forall i :: 0 <= i < 8 && cs[i].Some? ==> Shaped(cs[i].value)
  }

  /** Every node, leaf or internal, has positive mass, so every node has a
      position. */
  predicate Weighted(t: Tree)
    decreases t
  {
    match t
    case Leaf(c) => Massive(c.body)
    case Internal(m, _, _, cs) =>
      m > 0.0 && forall i :: 0 <= i < |cs| && cs[i].Some? ==> Weighted(cs[i].value)
  }

  /** The bodies held in the leaves, slot by slot. */
  function OptLeaves(node: Option<Tree>): seq<Body>
    decreases node
  {
    match node
    case None => []
    case Some(Leaf(c)) => [c.body]
    case Some(Internal(_, _, _, cs)) => SlotLeaves(cs)
  }

  function SlotLeaves(cs: seq<Option<Tree>>): seq<Body>
    decreases cs
  {
    if |cs| == 0 then [] else OptLeaves(cs[0]) + SlotLeaves(cs[1..])
  }

  function Leaves(t: Tree): seq<Body>
  {
    OptLeaves(Some(t))
  }

  /** The octant a body goes into next. */
  function OctantOf(c: Located): nat
  {
    PlaceIntoOctant(c).0
  }

  /** The occupied-leaf branch of `add`: the leaf `a` is copied into an
      internal node of the same cell, `a` is pushed into its own octant,
      and `b` is added into its octant.  When both land in the same octant
      that addition meets the leaf `a` again one level down, so the branch
      repeats there while the cell is still above the size floor, and the
      slot is left empty otherwise. */
  function Collide(a: Located, b: Located): (r: Tree)
    requires Size(a.level) > SmallestOctant
    ensures r.Internal? && Shaped(r) && r.level == a.level
    ensures r.m == a.body.m + b.body.m && r.mpos == Plus(a.body.mpos, b.body.mpos)
    ensures Massive(a.body) && Massive(b.body) ==> Weighted(r)
    ensures forall i :: 0 <= i < 8 && i != OctantOf(a) && i != OctantOf(b) ==> r.child[i].None?
    ensures OctantOf(a) != OctantOf(b) ==>
              && r.child[OctantOf(a)] == Some(Leaf(PlaceIntoOctant(a).1))
              && r.child[OctantOf(b)] == Some(Leaf(PlaceIntoOctant(b).1))
    decreases 14 - a.level
  {
    SizeAboveFloor(a.level);
    SizeAboveFloor(a.level + 1);
    var oa, a' := OctantOf(a), PlaceIntoOctant(a).1;
    var ob, b' := OctantOf(b), PlaceIntoOctant(b).1;
    var slot :=
      if oa != ob then Some(Leaf(b'))
      else if Size(a'.level) > SmallestOctant then Some(Collide(a', b'))
      else None;
    var cs := NoChildren[oa := Some(Leaf(a'))][ob := slot];
    assert |cs| == 8 && cs[ob] == slot && (oa != ob ==> cs[oa] == Some(Leaf(a')));
    assert forall i :: 0 <= i < 8 && i != oa && i != ob ==> cs[i].None?;
    Internal(a.body.m + b.body.m, Plus(a.body.mpos, b.body.mpos), a.level, cs)
  }

  /** `add(body, node)`.  An empty slot takes the body; a node whose cell is
      at or below the size floor is lost together with the body; otherwise
      the node (a leaf first copied into an internal node) absorbs the
      body's mass and mass-weighted position and the body goes on into the
      slot of its octant, no other slot being touched. */
  function Add(b: Located, node: Option<Tree>): (r: Option<Tree>)
    requires node.Some? ==> Shaped(node.value)
    ensures node.None? ==> r == Some(Leaf(b))
    ensures node.Some? && Size(Level(node.value)) <= SmallestOctant ==> r.None?
    ensures node.Some? && Size(Level(node.value)) > SmallestOctant ==>
              && r.Some? && r.value.Internal?
              && Level(r.value) == Level(node.value)
              && Mass(r.value) == Mass(node.value) + b.body.m
              && MPos(r.value) == Plus(MPos(node.value), b.body.mpos)
    ensures r.Some? ==> Shaped(r.value)
    ensures node.Some? && node.value.Internal? && r.Some? ==>
              forall i :: 0 <= i < 8 && i != OctantOf(b) ==> r.value.child[i] == node.value.child[i]
    ensures r.Some? && Massive(b.body) && (node.Some? ==> Weighted(node.value)) ==> Weighted(r.value)
    decreases node
  {
    match node
    case None => Some(Leaf(b))
    case Some(t) =>
      if Size(Level(t)) <= SmallestOctant then None
      else
        match t
        case Leaf(a) => Some(Collide(a, b))
        case Internal(m, mpos, level, cs) =>
          var (o, b') := PlaceIntoOctant(b);
          Some(Internal(m + b.body.m, Plus(mpos, b.body.mpos), level, cs[o := Add(b', cs[o])]))
  }

  /** The copy `add` makes of an occupied leaf before descending: an
      internal node of the same cell and mass whose only occupied slot holds
      the leaf, pushed one level down into its own octant. */
  function Split(a: Located): (r: Tree)
    ensures r.Internal? && Shaped(r)
    ensures Level(r) == a.level && Mass(r) == a.body.m && MPos(r) == a.body.mpos
    ensures Leaves(r) == [a.body]
  {
    var (oa, a') := PlaceIntoOctant(a);
    var cs := NoChildren[oa := Some(Leaf(a'))];
    assert forall n :: 0 <= n < |cs| && n != oa ==> cs[n].None?;
    OneSlotLeaves(cs, oa);
    Internal(a.body.m, a.body.mpos, a.level, cs)
  }

  /** Adding into an occupied leaf is adding into its internal copy: the
      unrolled `Collide` is the source's copy-then-descend. */
  lemma {:induction false} AddIntoLeafIsAddIntoCopy(a: Located, b: Located)
    requires Size(a.level) > SmallestOctant
    ensures Add(b, Some(Leaf(a))) == Add(b, Some(Split(a)))
  {
    var (oa, a') := PlaceIntoOctant(a);
    var (ob, b') := PlaceIntoOctant(b);
    var cs := NoChildren[oa := Some(Leaf(a'))];
    assert Split(a).child == cs;
    if oa != ob {
      assert cs[ob] == None;
    } else {
      assert cs[ob] == Some(Leaf(a'));
    }
  }

  // ----- Which bodies survive an insertion -----

  /** The leaves `a` and `b` are told apart by some octant before their
      common cell reaches the size floor. */
  predicate Separates(a: Located, b: Located)
    requires Size(a.level) > SmallestOctant
    decreases 14 - a.level
  {
    SizeAboveFloor(a.level);
    var (oa, a') := PlaceIntoOctant(a);
    var (ob, b') := PlaceIntoOctant(b);
    oa != ob || (Size(a'.level) > SmallestOctant && Separates(a', b'))
  }

  /** Inserting `b` into `node` never meets a non-empty cell at or below
      the size floor on its way down. */
  predicate Fits(b: Located, node: Option<Tree>)
    requires node.Some? ==> Shaped(node.value)
    decreases node
  {
    match node
    case None => true
    case Some(t) =>
      && Size(Level(t)) > SmallestOctant
      && match t
         case Leaf(a) => Separates(a, b)
         case Internal(_, _, _, cs) =>
           var (o, b') := PlaceIntoOctant(b);
           Fits(b', cs[o])
  }

  lemma {:induction false} EmptySlotsHaveNoLeaves(cs: seq<Option<Tree>>)
    requires forall i :: 0 <= i < |cs| ==> cs[i].None?
    ensures SlotLeaves(cs) == []
    decreases cs
  {
    if |cs| > 0 {
      EmptySlotsHaveNoLeaves(cs[1..]);
    }
  }

  lemma {:induction false} SlotLeavesAppend(xs: seq<Option<Tree>>, ys: seq<Option<Tree>>)
    ensures SlotLeaves(xs + ys) == SlotLeaves(xs) + SlotLeaves(ys)
    decreases |xs|
  {
    if |xs| > 0 {
      assert (xs + ys)[0] == xs[0];
      assert (xs + ys)[1..] == xs[1..] + ys;
      SlotLeavesAppend(xs[1..], ys);
    } else {
      assert xs + ys == ys;
    }
  }

  /** Replacing one slot replaces that slot's leaves and nothing else
      (stated body by body, as multiplicities). */
  lemma {:induction false} SlotLeavesUpdate(cs: seq<Option<Tree>>, i: nat, v: Option<Tree>)
    requires i < |cs|
    ensures forall x :: multiset(SlotLeaves(cs[i := v]))[x] + multiset(OptLeaves(cs[i]))[x]
                     == multiset(SlotLeaves(cs))[x] + multiset(OptLeaves(v))[x]
    ensures |SlotLeaves(cs[i := v])| + |OptLeaves(cs[i])| == |SlotLeaves(cs)| + |OptLeaves(v)|
  {
    var front, back := cs[..i], cs[i + 1..];
    var old1, new1 := [cs[i]] + back, [v] + back;
    assert cs == front + old1;
    assert cs[i := v] == front + new1;
    assert old1[0] == cs[i] && old1[1..] == back;
    assert new1[0] == v && new1[1..] == back;
    SlotLeavesAppend(front, old1);
    SlotLeavesAppend(front, new1);
    var f, b := SlotLeaves(front), SlotLeaves(back);
    assert SlotLeaves(cs) == f + (OptLeaves(cs[i]) + b);
    assert SlotLeaves(cs[i := v]) == f + (OptLeaves(v) + b);
  }

  /** The leaves of a slot sequence are those before slot `i`, those of
      slot `i` and those after it. */
  lemma {:induction false} SlotLeavesSplit(cs: seq<Option<Tree>>, i: nat)
    requires i < |cs|
    ensures SlotLeaves(cs) == SlotLeaves(cs[..i]) + (OptLeaves(cs[i]) + SlotLeaves(cs[i + 1..]))
  {
    var front, back := cs[..i], cs[i + 1..];
    var rest := [cs[i]] + back;
    assert cs == front + rest;
    assert rest[0] == cs[i] && rest[1..] == back;
    SlotLeavesAppend(front, rest);
  }

  /** Slots that are all empty but one hold that one's leaves. */
  lemma {:induction false} OneSlotLeaves(cs: seq<Option<Tree>>, k: nat)
    requires k < |cs|
    requires forall n :: 0 <= n < |cs| && n != k ==> cs[n].None?
    ensures SlotLeaves(cs) == OptLeaves(cs[k])
  {
    SlotLeavesSplit(cs, k);
    EmptySlotsHaveNoLeaves(cs[..k]);
    EmptySlotsHaveNoLeaves(cs[k + 1..]);
  }

  /** Slots that are all empty but two hold those two's leaves, in order. */
  lemma {:induction false} TwoFilledSlotsLeaves(cs: seq<Option<Tree>>, lo: nat, hi: nat)
    requires lo < hi < |cs|
    requires forall n :: 0 <= n < |cs| && n != lo && n != hi ==> cs[n].None?
    ensures SlotLeaves(cs) == OptLeaves(cs[lo]) + OptLeaves(cs[hi])
  {
    SlotLeavesSplit(cs, hi);
    OneSlotLeaves(cs[..hi], lo);
    EmptySlotsHaveNoLeaves(cs[hi + 1..]);
  }

  /** The leaves of empty slots after filling slot `i` with `x` and then
      slot `j` with `y`. */
  lemma {:induction false} TwoSlotsLeaves(cs: seq<Option<Tree>>, i: nat, x: Option<Tree>, j: nat, y: Option<Tree>)
    requires forall k :: 0 <= k < |cs| ==> cs[k].None?
    requires i < |cs| && j < |cs|
    ensures multiset(SlotLeaves(cs[i := x][j := y]))
         == if i == j then multiset(OptLeaves(y)) else multiset(OptLeaves(x)) + multiset(OptLeaves(y))
  {
    var c2 := cs[i := x][j := y];
    assert forall n :: 0 <= n < |c2| && n != i && n != j ==> c2[n].None?;
    if i == j {
      OneSlotLeaves(c2, j);
    } else if i < j {
      TwoFilledSlotsLeaves(c2, i, j);
    } else {
      TwoFilledSlotsLeaves(c2, j, i);
    }
  }

  /** One level of `Collide`, leaf by leaf, for each way the two octants
      can compare: the leaves are those of the two filled slots. */
  lemma {:induction false} CollideSlotLeaves(a: Located, b: Located, y: Option<Tree>)
    requires Size(a.level) > SmallestOctant
    requires Collide(a, b).child == NoChildren[OctantOf(a) := Some(Leaf(PlaceIntoOctant(a).1))][OctantOf(b) := y]
    ensures multiset(Leaves(Collide(a, b)))
         == if OctantOf(a) == OctantOf(b) then multiset(OptLeaves(y))
            else multiset{a.body} + multiset(OptLeaves(y))
  {
    assert forall k :: 0 <= k < |NoChildren| ==> NoChildren[k].None?;
    TwoSlotsLeaves(NoChildren, OctantOf(a), Some(Leaf(PlaceIntoOctant(a).1)), OctantOf(b), y);
  }

  /** Different octants keep both bodies. */
  lemma {:induction false} CollideApartLeaves(a: Located, b: Located)
    requires Size(a.level) > SmallestOctant && OctantOf(a) != OctantOf(b)
    ensures multiset(Leaves(Collide(a, b))) == multiset{a.body, b.body}
  {
    var y := Some(Leaf(PlaceIntoOctant(b).1));
    assert Collide(a, b).child == NoChildren[OctantOf(a) := Some(Leaf(PlaceIntoOctant(a).1))][OctantOf(b) := y];
    CollideSlotLeaves(a, b, y);
  }

  /** The same octant keeps what the collision one level down keeps. */
  lemma {:induction false} CollideTogetherLeaves(a: Located, b: Located)
    requires Size(a.level) > SmallestOctant && OctantOf(a) == OctantOf(b)
    requires Size(a.level + 1) > SmallestOctant
    ensures Size(PlaceIntoOctant(a).1.level) > SmallestOctant
    ensures multiset(Leaves(Collide(a, b)))
         == multiset(Leaves(Collide(PlaceIntoOctant(a).1, PlaceIntoOctant(b).1)))
  {
    var y := Some(Collide(PlaceIntoOctant(a).1, PlaceIntoOctant(b).1));
    assert Collide(a, b).child == NoChildren[OctantOf(a) := Some(Leaf(PlaceIntoOctant(a).1))][OctantOf(b) := y];
    CollideSlotLeaves(a, b, y);
  }

  /** At the size floor the shared octant is left empty. */
  lemma {:induction false} CollideFloorLeaves(a: Located, b: Located)
    requires Size(a.level) > SmallestOctant && OctantOf(a) == OctantOf(b)
    requires Size(a.level + 1) <= SmallestOctant
    ensures Leaves(Collide(a, b)) == []
  {
    var y: Option<Tree> := None;
    assert Collide(a, b).child == NoChildren[OctantOf(a) := Some(Leaf(PlaceIntoOctant(a).1))][OctantOf(b) := y];
    CollideSlotLeaves(a, b, y);
  }

  /** Two colliding leaves both survive exactly when an octant separates
      them before the size floor; otherwise both are lost. */
  lemma {:induction false} CollideLeaves(a: Located, b: Located)
    requires Size(a.level) > SmallestOctant
    ensures multiset(Leaves(Collide(a, b)))
         == if Separates(a, b) then multiset{a.body, b.body} else multiset{}
    decreases 14 - a.level
  {
    SizeAboveFloor(a.level);
    SizeAboveFloor(a.level + 1);
    var (oa, a') := PlaceIntoOctant(a);
    var (ob, b') := PlaceIntoOctant(b);
    if oa != ob {
      CollideApartLeaves(a, b);
    } else if Size(a.level + 1) > SmallestOctant {
      CollideTogetherLeaves(a, b);
      CollideLeaves(a', b');
    } else {
      CollideFloorLeaves(a, b);
    }
  }

  /** `add` never invents a body, and it keeps every body it was given
      (the new one included) exactly when the insertion fits; when it does
      not, no leaf is gained and the new body is among those lost. */
  lemma {:induction false} AddLeaves(b: Located, node: Option<Tree>)
    requires node.Some? ==> Shaped(node.value)
    ensures multiset(OptLeaves(Add(b, node))) <= multiset(OptLeaves(node)) + multiset{b.body}
    ensures Fits(b, node) <==>
              multiset(OptLeaves(Add(b, node))) == multiset(OptLeaves(node)) + multiset{b.body}
    ensures !Fits(b, node) ==> |OptLeaves(Add(b, node))| <= |OptLeaves(node)|
    ensures !Fits(b, node) ==>
              multiset(OptLeaves(Add(b, node)))[b.body] <= multiset(OptLeaves(node))[b.body]
    decreases node, 1
  {
    match node
    case None =>
    case Some(t) =>
      if Size(Level(t)) > SmallestOctant {
        match t
        case Leaf(a) =>
          AddIntoLeafLeaves(a, b);
        case Internal(_, _, _, _) =>
          AddIntoInternalLeaves(b, t);
      }
  }

  lemma {:induction false} AddIntoInternalLeaves(b: Located, t: Tree)
    requires t.Internal? && Shaped(t) && Size(t.level) > SmallestOctant
    ensures multiset(OptLeaves(Add(b, Some(t)))) <= multiset(Leaves(t)) + multiset{b.body}
    ensures Fits(b, Some(t)) ==>
              multiset(OptLeaves(Add(b, Some(t)))) == multiset(Leaves(t)) + multiset{b.body}
    ensures !Fits(b, Some(t)) ==> |OptLeaves(Add(b, Some(t)))| <= |Leaves(t)|
    ensures !Fits(b, Some(t)) ==>
              multiset(OptLeaves(Add(b, Some(t))))[b.body] <= multiset(Leaves(t))[b.body]
    decreases Some(t), 0
  {
    var cs := t.child;
    var o, b' := OctantOf(b), PlaceIntoOctant(b).1;
    var sub := Add(b', cs[o]);
    AddLeaves(b', cs[o]);
    SlotLeavesUpdate(cs, o, sub);
    assert OptLeaves(Add(b, Some(t))) == SlotLeaves(cs[o := sub]);
    assert Leaves(t) == SlotLeaves(cs);
    assert Fits(b, Some(t)) == Fits(b', cs[o]);
    ReplaceInMultiset(multiset(SlotLeaves(cs[o := sub])), multiset(SlotLeaves(cs)),
                      multiset(OptLeaves(cs[o])), multiset(OptLeaves(sub)), multiset{b.body});
  }

  /** Multiset bookkeeping for replacing one part of a whole: if the new
      part is within the old part plus `extra`, so is the new whole. */
  lemma {:induction false} ReplaceInMultiset<T>(after: multiset<T>, before: multiset<T>,
                             oldPart: multiset<T>, newPart: multiset<T>, extra: multiset<T>)
    requires forall x :: after[x] + oldPart[x] == before[x] + newPart[x]
    requires newPart <= oldPart + extra
    ensures after <= before + extra
    ensures newPart == oldPart + extra ==> after == before + extra
  {
    forall x ensures after[x] <= (before + extra)[x] {
      assert newPart[x] <= (oldPart + extra)[x];
    }
    if newPart == oldPart + extra {
      forall x ensures after[x] == (before + extra)[x] {
        assert newPart[x] == (oldPart + extra)[x];
      }
    }
  }

  lemma {:induction false} AddIntoLeafLeaves(a: Located, b: Located)
    requires Size(a.level) > SmallestOctant
    ensures Fits(b, Some(Leaf(a))) == Separates(a, b)
    ensures multiset(OptLeaves(Add(b, Some(Leaf(a)))))
         == if Separates(a, b) then multiset{a.body} + multiset{b.body} else multiset{}
  {
    CollideLeaves(a, b);
    assert Add(b, Some(Leaf(a))) == Some(Collide(a, b));
    assert OptLeaves(Some(Collide(a, b))) == Leaves(Collide(a, b));
  }

  // ----- The per-step rebuild -----

  /** Every body of the list has positive mass (`Massive`, spelled out on
      the mass field). */
  predicate AllMassive(bodies: seq<Body>)
  {
    forall i :: 0 <= i < |bodies| ==> bodies[i].m > 0.0
  }

  function TotalMass(bodies: seq<Body>): real
    decreases |bodies|
  {
    if |bodies| == 0 then 0.0
    else TotalMass(bodies[..|bodies| - 1]) + bodies[|bodies| - 1].m
  }

  function TotalMPos(bodies: seq<Body>): Vec3
    decreases |bodies|
  {
    if |bodies| == 0 then Zero
    else Plus(TotalMPos(bodies[..|bodies| - 1]), bodies[|bodies| - 1].mpos)
  }

  /** The tree `evolve` builds at the start of a step: starting from no
      root, every body in turn is reset to the unit cell and added at the
      root.  The root cell has side 1.0, so the root is never lost and its
      aggregates are the totals over all bodies. */
  function Build(bodies: seq<Body>): (root: Option<Tree>)
    requires AllMassive(bodies)
    ensures root.Some? <==> |bodies| > 0
    ensures root.Some? ==>
              && Shaped(root.value) && Weighted(root.value) && Level(root.value) == 0
              && Mass(root.value) == TotalMass(bodies)
              && MPos(root.value) == TotalMPos(bodies)
    decreases |bodies|
  {
    if |bodies| == 0 then None
    else Add(Reset(bodies[|bodies| - 1]), Build(bodies[..|bodies| - 1]))
  }

  /** Every insertion of the rebuild fits. */
  predicate AllFit(bodies: seq<Body>)
    requires AllMassive(bodies)
    decreases |bodies|
  {
    |bodies| == 0 ||
    (AllFit(bodies[..|bodies| - 1]) &&
     Fits(Reset(bodies[|bodies| - 1]), Build(bodies[..|bodies| - 1])))
  }

  /** Flattening the rebuilt tree gives back a sub-multiset of the bodies,
      and exactly the bodies when every insertion fits. */
  lemma {:induction false} BuildLeaves(bodies: seq<Body>)
    requires AllMassive(bodies)
    ensures multiset(OptLeaves(Build(bodies))) <= multiset(bodies)
    ensures AllFit(bodies) <==> multiset(OptLeaves(Build(bodies))) == multiset(bodies)
    ensures !AllFit(bodies) ==> |OptLeaves(Build(bodies))| < |bodies|
    decreases |bodies|
  {
    if |bodies| > 0 {
      var n := |bodies| - 1;
      var prefix := bodies[..n];
      assert bodies == prefix + [bodies[n]];
      BuildLeaves(prefix);
      AddLeaves(Reset(bodies[n]), Build(prefix));
      assert multiset(bodies) == multiset(prefix) + multiset{bodies[n]};
    }
  }

  /** The rebuild loop of `evolve`, one `reset_location` and `add` per body. */
  method Rebuild(bodies: seq<Body>) returns (root: Option<Tree>)
    requires AllMassive(bodies)
    ensures root == Build(bodies)
    ensures OptMass(root) == TotalMass(bodies) && OptMPos(root) == TotalMPos(bodies)
  {
    root := None;
    for i := 0 to |bodies|
      invariant root == Build(bodies[..i])
    {
      assert bodies[..i + 1][..i] == bodies[..i];
      root := Add(Reset(bodies[i]), root);
    }
    assert bodies[..|bodies|] == bodies;
  }

  // ----- Aggregates -----

  function OptMass(node: Option<Tree>): real
  {
    if node.Some? then Mass(node.value) else 0.0
  }

  function OptMPos(node: Option<Tree>): Vec3
  {
    if node.Some? then MPos(node.value) else Zero
  }

  /** The total mass held in a list of slots. */
  function SlotsMass(cs: seq<Option<Tree>>): real
    decreases |cs|
  {
    if |cs| == 0 then 0.0 else OptMass(cs[0]) + SlotsMass(cs[1..])
  }

  /** The total mass-weighted position held in a list of slots. */
  function SlotsMPos(cs: seq<Option<Tree>>): Vec3
    decreases |cs|
  {
    if |cs| == 0 then Zero else Plus(OptMPos(cs[0]), SlotsMPos(cs[1..]))
  }

  /** Every internal node carries exactly the mass and the mass-weighted
      position of its occupied slots, so that its `position()` is the
      centre of mass of the bodies below it. */
  predicate Balanced(t: Tree)
    decreases t
  {
    match t
    case Leaf(_) => true
    case Internal(m, mpos, _, cs) =>
      && m == SlotsMass(cs) && mpos == SlotsMPos(cs)
      && forall i :: 0 <= i < |cs| && cs[i].Some? ==> Balanced(cs[i].value)
  }

  lemma {:induction false} EmptySlotsSums(cs: seq<Option<Tree>>)
    requires forall i :: 0 <= i < |cs| ==> cs[i].None?
    ensures SlotsMass(cs) == 0.0 && SlotsMPos(cs) == Zero
    decreases |cs|
  {
    if |cs| > 0 {
      EmptySlotsSums(cs[1..]);
    }
  }

  lemma {:induction false} SlotsSumsAppend(xs: seq<Option<Tree>>, ys: seq<Option<Tree>>)
    ensures SlotsMass(xs + ys) == SlotsMass(xs) + SlotsMass(ys)
    ensures SlotsMPos(xs + ys) == Plus(SlotsMPos(xs), SlotsMPos(ys))
    decreases |xs|
  {
    if |xs| > 0 {
      assert (xs + ys)[0] == xs[0];
      assert (xs + ys)[1..] == xs[1..] + ys;
      SlotsSumsAppend(xs[1..], ys);
      PlusAssociative(OptMPos(xs[0]), SlotsMPos(xs[1..]), SlotsMPos(ys));
    } else {
      assert xs + ys == ys;
    }
  }

  /** Replacing slot `i` trades its aggregates for those of the new
      occupant. */
  lemma {:induction false} SlotsSumsUpdate(cs: seq<Option<Tree>>, i: nat, v: Option<Tree>)
    requires i < |cs|
    ensures SlotsMass(cs[i := v]) + OptMass(cs[i]) == SlotsMass(cs) + OptMass(v)
    ensures Plus(SlotsMPos(cs[i := v]), OptMPos(cs[i])) == Plus(SlotsMPos(cs), OptMPos(v))
  {
    var front, back := cs[..i], cs[i + 1..];
    var old1, new1 := [cs[i]] + back, [v] + back;
    assert cs == front + old1;
    assert cs[i := v] == front + new1;
    assert old1[0] == cs[i] && old1[1..] == back;
    assert new1[0] == v && new1[1..] == back;
    SlotsSumsAppend(front, old1);
    SlotsSumsAppend(front, new1);
    PlusExchange(SlotsMPos(front), OptMPos(cs[i]), OptMPos(v), SlotsMPos(back));
  }

  /** The aggregates of empty slots after two of them are filled. */
  lemma {:induction false} TwoSlotsSums(cs: seq<Option<Tree>>, i: nat, x: Option<Tree>, j: nat, y: Option<Tree>)
    requires forall k :: 0 <= k < |cs| ==> cs[k].None?
    requires i < |cs| && j < |cs|
    ensures i != j ==> SlotsMass(cs[i := x][j := y]) == OptMass(x) + OptMass(y)
    ensures i != j ==> SlotsMPos(cs[i := x][j := y]) == Plus(OptMPos(x), OptMPos(y))
    ensures i == j ==> SlotsMass(cs[i := x][j := y]) == OptMass(y)
    ensures i == j ==> SlotsMPos(cs[i := x][j := y]) == OptMPos(y)
  {
    var c1 := cs[i := x];
    var c2 := c1[j := y];
    EmptySlotsSums(cs);
    SlotsSumsUpdate(cs, i, x);
    SlotsSumsUpdate(c1, j, y);
    assert OptMass(cs[i]) == 0.0 && OptMPos(cs[i]) == Zero;
    var m1, p1 := SlotsMass(c1), SlotsMPos(c1);
    assert m1 == OptMass(x);
    assert p1 == OptMPos(x);
    if i == j {
      assert c1[j] == x;
    } else {
      assert c1[j] == None;
    }
  }

  /** A node whose only filled slots are `i` and `j`, in that order of
      filling, is balanced when its aggregates are those of the two slots. */
  lemma {:induction false} TwoSlotsBalanced(m: real, mpos: Vec3, level: nat, i: nat, x: Tree, j: nat, y: Tree)
    requires i < 8 && j < 8 && Balanced(x) && Balanced(y)
    requires i != j ==> m == Mass(x) + Mass(y) && mpos == Plus(MPos(x), MPos(y))
    requires i == j ==> m == Mass(y) && mpos == MPos(y)
    ensures Balanced(Internal(m, mpos, level, NoChildren[i := Some(x)][j := Some(y)]))
  {
    var cs := NoChildren[i := Some(x)][j := Some(y)];
    assert forall k :: 0 <= k < |NoChildren| ==> NoChildren[k].None?;
    TwoSlotsSums(NoChildren, i, Some(x), j, Some(y));
    assert forall k :: 0 <= k < 8 && k != i && k != j ==> cs[k].None?;
  }

  /** Two leaves that some octant separates collide into a balanced node. */
  lemma {:induction false} CollideBalanced(a: Located, b: Located)
    requires Size(a.level) > SmallestOctant && Separates(a, b)
    ensures Balanced(Collide(a, b))
    decreases 14 - a.level
  {
    SizeAboveFloor(a.level);
    var (oa, a') := PlaceIntoOctant(a);
    var (ob, b') := PlaceIntoOctant(b);
    var m, mpos := a.body.m + b.body.m, Plus(a.body.mpos, b.body.mpos);
    if oa != ob {
      var y := Leaf(b');
      assert Collide(a, b) == Internal(m, mpos, a.level, NoChildren[oa := Some(Leaf(a'))][ob := Some(y)]);
      TwoSlotsBalanced(m, mpos, a.level, oa, Leaf(a'), ob, y);
    } else {
      var y := Collide(a', b');
      assert Collide(a, b) == Internal(m, mpos, a.level, NoChildren[oa := Some(Leaf(a'))][ob := Some(y)]);
      CollideBalanced(a', b');
      TwoSlotsBalanced(m, mpos, a.level, oa, Leaf(a'), ob, y);
    }
  }

  /** An insertion that fits keeps every internal node balanced: the body's
      mass and mass-weighted position are added to every node on its path
      and end up in exactly one slot below each of them. */
  lemma {:induction false} AddBalanced(b: Located, node: Option<Tree>)
    requires node.Some? ==> Shaped(node.value) && Balanced(node.value)
    requires Fits(b, node)
    ensures Add(b, node).Some? && Balanced(Add(b, node).value)
    decreases node
  {
    match node
    case None =>
    case Some(t) =>
      match t
      case Leaf(a) => CollideBalanced(a, b);
      case Internal(m, mpos, level, cs) =>
        var (o, b') := PlaceIntoOctant(b);
        var v := Add(b', cs[o]);
        AddBalanced(b', cs[o]);
        assert OptMass(v) == OptMass(cs[o]) + b.body.m;
        assert OptMPos(v) == Plus(OptMPos(cs[o]), b.body.mpos);
        var cs' := cs[o := v];
        SlotsSumsUpdate(cs, o, v);
        assert Add(b, node) == Some(Internal(m + b.body.m, Plus(mpos, b.body.mpos), level, cs'));
        forall i | 0 <= i < |cs'| && cs'[i].Some? ensures Balanced(cs'[i].value) {
          if i != o {
            assert cs'[i] == cs[i];
          }
        }
  }

  /** When every insertion of the rebuild fits, every node of the rebuilt
      tree is balanced. */
  lemma {:induction false} BuildBalanced(bodies: seq<Body>)
    requires AllMassive(bodies) && AllFit(bodies) && |bodies| > 0
    ensures Balanced(Build(bodies).value)
    decreases |bodies|
  {
    var n := |bodies| - 1;
    var prefix := bodies[..n];
    assert AllMassive(prefix);
    if n > 0 {
      BuildBalanced(prefix);
    }
    AddBalanced(Reset(bodies[n]), Build(prefix));
  }
}
