/** The force side of the simulation: `gravitational_force` between two
    nodes and the Barnes-Hut walk `force_on` over the octree.

    The Euclidean norm and the gravitational constant are carried by a
    `Physics` value: the norm is a square root the model does not compute,
    and of it the model uses only the laws in `NormLaws`. */
module BarnesHut {
  import opened Options
  import opened Vectors
  import opened Bodies
  import opened Octree

  /** Separations below this distance exert no force. */
  const CutoffDist: real := 0.0001

  datatype Physics = Physics(g: real, norm: Vec3 -> real)

  /** What the model relies on of the Euclidean norm: it ignores the sign
      of its argument, and it is zero at the origin. */
  ghost predicate NormLaws(norm: Vec3 -> real)
  {
    && (forall v :: norm(Neg(v)) == norm(v))
    && norm(Zero) == 0.0
  }

  /** `gravitational_force(node1, node2)`: the force a point mass `m1` at
      `p1` exerts on a point mass `m2` at `p2`, zero below the cutoff
      distance. */
  function Gravity(ph: Physics, m1: real, p1: Vec3, m2: real, p2: Vec3): (f: Vec3)
    ensures ph.norm(Minus(p1, p2)) < CutoffDist ==> f == Zero
  {
    var d := ph.norm(Minus(p1, p2));
    if d < CutoffDist then Zero else Scale(Coefficient(ph.g, m1, m2, d), Minus(p1, p2))
  }

  /** G m1 m2 / d^3, the factor applied to the separation vector. */
  function Coefficient(g: real, m1: real, m2: real, d: real): real
    requires d >= CutoffDist
  {
    g * m1 * m2 / (d * d * d)
  }

  /** Beyond the cutoff the force lies along `p1 - p2` with a positive
      factor: it pulls the second mass towards the first. */
  lemma {:induction false} GravityAttracts(ph: Physics, m1: real, p1: Vec3, m2: real, p2: Vec3)
    requires ph.g > 0.0 && m1 > 0.0 && m2 > 0.0
    requires ph.norm(Minus(p1, p2)) >= CutoffDist
    ensures exists k: real :: k > 0.0 && Gravity(ph, m1, p1, m2, p2) == Scale(k, Minus(p1, p2))
  {
    var d := ph.norm(Minus(p1, p2));
    var g := ph.g;
    assert g * m1 > 0.0;
    assert g * m1 * m2 > 0.0;
    assert d * d > 0.0;
    assert d * d * d > 0.0;
    assert Coefficient(g, m1, m2, d) > 0.0;
    assert Gravity(ph, m1, p1, m2, p2) == Scale(Coefficient(g, m1, m2, d), Minus(p1, p2));
  }

  /** Newton's third law: swapping the two masses negates the force. */
  lemma {:induction false} GravityReaction(ph: Physics, m1: real, p1: Vec3, m2: real, p2: Vec3)
    requires NormLaws(ph.norm)
    ensures Gravity(ph, m1, p1, m2, p2) == Neg(Gravity(ph, m2, p2, m1, p1))
  {
    var v := Minus(p1, p2);
    assert Minus(p2, p1) == Neg(v);
    var d := ph.norm(v);
    assert ph.norm(Neg(v)) == d;
    if d >= CutoffDist {
      var k := Coefficient(ph.g, m1, m2, d);
      assert Coefficient(ph.g, m2, m1, d) == k by {
        assert ph.g * m1 * m2 == ph.g * m2 * m1;
      }
      assert Scale(k, Neg(v)) == Neg(Scale(k, v));
    }
  }

  /** A mass exerts no force on anything at its own position, in particular
      on itself. */
  lemma {:induction false} GravitySelf(ph: Physics, m1: real, m2: real, p: Vec3)
    requires NormLaws(ph.norm)
    ensures Gravity(ph, m1, p, m2, p) == Zero
  {
    assert Minus(p, p) == Zero;
  }

  /** `Node.position()` on a tree node, `m_pos / m`, as `Bodies.Position`
      is on a body: the body's position for a leaf, the centre of mass
      (`CentreOfMass`) for an internal node. */
  function Pos(t: Tree): Vec3
    requires Mass(t) > 0.0
  {
    Div(MPos(t), Mass(t))
  }

  /** Mass times position of the node in a slot, nothing for an empty
      slot: for a node of positive mass, its mass-weighted position. */
  function Moment(node: Option<Tree>): (v: Vec3)
    requires node.Some? ==> Weighted(node.value)
    ensures v == OptMPos(node)
  {
    if node.None? then Zero
    else
      var t := node.value;
      assert Mass(t) > 0.0;
      ScaleDiv(MPos(t), Mass(t));
      Scale(Mass(t), Pos(t))
  }

  /** The sum over the occupied slots of mass times position. */
  function SlotsMoment(cs: seq<Option<Tree>>): Vec3
    requires forall i :: 0 <= i < |cs| && cs[i].Some? ==> Weighted(cs[i].value)
    decreases |cs|
  {
    if |cs| == 0 then Zero
    else
      var rs := cs[1..];
      assert forall i :: 0 <= i < |rs| && rs[i].Some? ==> Weighted(rs[i].value) by {
        forall i | 0 <= i < |rs| && rs[i].Some? ensures Weighted(rs[i].value) {
          assert rs[i] == cs[i + 1];
        }
      }
      Plus(Moment(cs[0]), SlotsMoment(rs))
  }

  lemma {:induction false} SlotsMomentIsMPos(cs: seq<Option<Tree>>)
    requires forall i :: 0 <= i < |cs| && cs[i].Some? ==> Weighted(cs[i].value)
    ensures SlotsMoment(cs) == SlotsMPos(cs)
    decreases |cs|
  {
    if |cs| > 0 {
      var rs := cs[1..];
      assert forall i :: 0 <= i < |rs| && rs[i].Some? ==> Weighted(rs[i].value) by {
        forall i | 0 <= i < |rs| && rs[i].Some? ensures Weighted(rs[i].value) {
          assert rs[i] == cs[i + 1];
        }
      }
      SlotsMomentIsMPos(rs);
    }
  }

  /** The position of a balanced internal node is the centre of mass of
      its occupied slots: the mass-weighted mean of their positions. */
  lemma {:induction false} CentreOfMass(t: Tree)
    requires t.Internal? && Weighted(t) && Balanced(t)
    ensures SlotsMass(t.child) > 0.0
    ensures Pos(t) == Div(SlotsMoment(t.child), SlotsMass(t.child))
  {
    SlotsMomentIsMPos(t.child);
  }

  /** The force node `t` exerts on `body`, treating the node as one point
      mass at its position. */
  function Pull(ph: Physics, t: Tree, body: Body): Vec3
    requires Weighted(t) && Massive(body)
  {
    Gravity(ph, Mass(t), Pos(t), body.m, Position(body))
  }

  /** An internal node whose eight slots are all empty. */
  predicate Hollow(cs: seq<Option<Tree>>)
  {
    |cs| == 8 && forall i :: 0 <= i < 8 ==> cs[i].None?
  }

  /** `force_on(body, node, theta)`. */
  function ForceOn(ph: Physics, body: Body, t: Tree, theta: real): (f: Vec3)
    requires Massive(body) && Weighted(t)
    ensures f == SumPulls(ph, Visited(ph, body, Some(t), theta), body)
    ensures theta == 0.0 ==> f == SumPulls(ph, Terminals(Some(t)), body)
  {
    WalkSumsVisited(ph, body, Some(t), theta);
    ExactVisitsTerminals(ph, body, Some(t));
    SlotForce(ph, body, Some(t), theta)
  }

  /** The force from one slot: nothing from an empty slot; from a leaf or a
      hollow internal node, its pull; from an internal node small enough
      as seen from the body (side < distance * theta), its pull as a whole;
      otherwise the sum over its slots. */
  function SlotForce(ph: Physics, body: Body, node: Option<Tree>, theta: real): Vec3
    requires Massive(body) && (node.Some? ==> Weighted(node.value))
    decreases node
  {
    match node
    case None => Zero
    case Some(t) =>
      match t
      case Leaf(_) => Pull(ph, t, body)
      case Internal(_, _, level, cs) =>
        if Hollow(cs) then Pull(ph, t, body)
        else if Size(level) < ph.norm(Minus(Pos(t), Position(body))) * theta then Pull(ph, t, body)
        else SlotsForce(ph, body, cs, theta)
  }

  function SlotsForce(ph: Physics, body: Body, cs: seq<Option<Tree>>, theta: real): Vec3
    requires Massive(body) && forall i :: 0 <= i < |cs| && cs[i].Some? ==> Weighted(cs[i].value)
    decreases cs
  {
    if |cs| == 0 then Zero
    else Plus(SlotForce(ph, body, cs[0], theta), SlotsForce(ph, body, cs[1..], theta))
  }

  // ----- Exact mode -----

  /** The nodes at which a walk that never approximates stops: the leaves
      and the hollow internal nodes. */
  function Terminals(node: Option<Tree>): (ts: seq<Tree>)
    ensures node.Some? && Weighted(node.value) ==> forall i :: 0 <= i < |ts| ==> Weighted(ts[i])
    decreases node
  {
    match node
    case None => []
    case Some(t) =>
      match t
      case Leaf(_) => [t]
      case Internal(_, _, _, cs) => if Hollow(cs) then [t] else SlotsTerminals(cs)
  }

  function SlotsTerminals(cs: seq<Option<Tree>>): (ts: seq<Tree>)
    ensures (forall i :: 0 <= i < |cs| && cs[i].Some? ==> Weighted(cs[i].value)) ==>
              forall i :: 0 <= i < |ts| ==> Weighted(ts[i])
    decreases cs
  {
    if |cs| == 0 then [] else Terminals(cs[0]) + SlotsTerminals(cs[1..])
  }

  /** The sum of the pulls of the nodes `ts` on `body`. */
  function SumPulls(ph: Physics, ts: seq<Tree>, body: Body): Vec3
    requires Massive(body) && forall i :: 0 <= i < |ts| ==> Weighted(ts[i])
    decreases |ts|
  {
    if |ts| == 0 then Zero else Plus(Pull(ph, ts[0], body), SumPulls(ph, ts[1..], body))
  }

  lemma {:induction false} SumPullsAppend(ph: Physics, xs: seq<Tree>, ys: seq<Tree>, body: Body)
    requires Massive(body)
    requires forall i :: 0 <= i < |xs| ==> Weighted(xs[i])
    requires forall i :: 0 <= i < |ys| ==> Weighted(ys[i])
    ensures SumPulls(ph, xs + ys, body) == Plus(SumPulls(ph, xs, body), SumPulls(ph, ys, body))
    decreases |xs|
  {
    if |xs| > 0 {
      assert (xs + ys)[0] == xs[0];
      assert (xs + ys)[1..] == xs[1..] + ys;
      SumPullsAppend(ph, xs[1..], ys, body);
      var a := Pull(ph, xs[0], body);
      var b := SumPulls(ph, xs[1..], body);
      var c := SumPulls(ph, ys, body);
      assert SumPulls(ph, xs + ys, body) == Plus(a, Plus(b, c));
      assert SumPulls(ph, xs, body) == Plus(a, b);
      PlusAssociative(a, b, c);
    } else {
      assert xs + ys == ys;
    }
  }

  // ----- The nodes a walk pulls from -----

  /** The nodes whose pull `force_on` adds up: a leaf, a hollow node or an
      internal node far enough away ends the descent there; any other
      internal node hands the walk on to its occupied slots. */
  function Visited(ph: Physics, body: Body, node: Option<Tree>, theta: real): (ts: seq<Tree>)
    requires Massive(body) && (node.Some? ==> Weighted(node.value))
    ensures forall i :: 0 <= i < |ts| ==> Weighted(ts[i])
    decreases node
  {
    match node
    case None => []
    case Some(t) =>
      match t
      case Leaf(_) => [t]
      case Internal(_, _, level, cs) =>
        if Hollow(cs) || Size(level) < ph.norm(Minus(Pos(t), Position(body))) * theta then [t]
        else SlotsVisited(ph, body, cs, theta)
  }

  function SlotsVisited(ph: Physics, body: Body, cs: seq<Option<Tree>>, theta: real): (ts: seq<Tree>)
    requires Massive(body) && forall i :: 0 <= i < |cs| && cs[i].Some? ==> Weighted(cs[i].value)
    ensures forall i :: 0 <= i < |ts| ==> Weighted(ts[i])
    decreases cs
  {
    if |cs| == 0 then []
    else
      var rs := cs[1..];
      assert forall i :: 0 <= i < |rs| && rs[i].Some? ==> Weighted(rs[i].value) by {
        forall i | 0 <= i < |rs| && rs[i].Some? ensures Weighted(rs[i].value) {
          assert rs[i] == cs[i + 1];
        }
      }
      Visited(ph, body, cs[0], theta) + SlotsVisited(ph, body, rs, theta)
  }

  /** The walk is the sum of the pulls of the nodes it visits, each
      treated as one point mass. */
  lemma {:induction false} WalkSumsVisited(ph: Physics, body: Body, node: Option<Tree>, theta: real)
    requires Massive(body) && (node.Some? ==> Weighted(node.value))
    ensures SlotForce(ph, body, node, theta) == SumPulls(ph, Visited(ph, body, node, theta), body)
    decreases node
  {
    match node
    case None =>
    case Some(t) =>
      if t.Leaf? || Hollow(t.child) || Size(t.level) < ph.norm(Minus(Pos(t), Position(body))) * theta {
        assert Visited(ph, body, node, theta) == [t];
        assert SlotForce(ph, body, node, theta) == Pull(ph, t, body);
        SinglePull(ph, t, body);
      } else {
        assert Visited(ph, body, node, theta) == SlotsVisited(ph, body, t.child, theta);
        assert SlotForce(ph, body, node, theta) == SlotsForce(ph, body, t.child, theta);
        SlotsWalkSumsVisited(ph, body, t.child, theta);
      }
  }

  lemma {:induction false} SlotsWalkSumsVisited(ph: Physics, body: Body, cs: seq<Option<Tree>>, theta: real)
    requires Massive(body) && forall i :: 0 <= i < |cs| && cs[i].Some? ==> Weighted(cs[i].value)
    ensures SlotsForce(ph, body, cs, theta) == SumPulls(ph, SlotsVisited(ph, body, cs, theta), body)
    decreases cs
  {
    if |cs| > 0 {
      var rs := cs[1..];
      assert forall i :: 0 <= i < |rs| && rs[i].Some? ==> Weighted(rs[i].value) by {
        forall i | 0 <= i < |rs| && rs[i].Some? ensures Weighted(rs[i].value) {
          assert rs[i] == cs[i + 1];
        }
      }
      WalkSumsVisited(ph, body, cs[0], theta);
      SlotsWalkSumsVisited(ph, body, rs, theta);
      var head, rest := Visited(ph, body, cs[0], theta), SlotsVisited(ph, body, rs, theta);
      assert SlotsVisited(ph, body, cs, theta) == head + rest;
      assert SlotsForce(ph, body, cs, theta)
          == Plus(SlotForce(ph, body, cs[0], theta), SlotsForce(ph, body, rs, theta));
      SumPullsAppend(ph, head, rest, body);
    }
  }

  /** With theta = 0 no internal node with an occupied slot is ever far
      enough away: the walk visits exactly the leaves and hollow nodes,
      whatever the body. */
  lemma {:induction false} ExactVisitsTerminals(ph: Physics, body: Body, node: Option<Tree>)
    requires Massive(body) && (node.Some? ==> Weighted(node.value))
    ensures Visited(ph, body, node, 0.0) == Terminals(node)
    decreases node
  {
    match node
    case None =>
    case Some(t) =>
      match t
      case Leaf(_) =>
      case Internal(_, _, level, cs) =>
        if !Hollow(cs) {
          assert !(Size(level) < ph.norm(Minus(Pos(t), Position(body))) * 0.0);
          SlotsExactVisitsTerminals(ph, body, cs);
        }
  }

  lemma {:induction false} SlotsExactVisitsTerminals(ph: Physics, body: Body, cs: seq<Option<Tree>>)
    requires Massive(body) && forall i :: 0 <= i < |cs| && cs[i].Some? ==> Weighted(cs[i].value)
    ensures SlotsVisited(ph, body, cs, 0.0) == SlotsTerminals(cs)
    decreases cs
  {
    if |cs| > 0 {
      var rs := cs[1..];
      assert forall i :: 0 <= i < |rs| && rs[i].Some? ==> Weighted(rs[i].value) by {
        forall i | 0 <= i < |rs| && rs[i].Some? ensures Weighted(rs[i].value) {
          assert rs[i] == cs[i + 1];
        }
      }
      ExactVisitsTerminals(ph, body, cs[0]);
      SlotsExactVisitsTerminals(ph, body, rs);
    }
  }

  // ----- Every walk accounts for every body once -----

  function MassOf(ts: seq<Tree>): real
    decreases |ts|
  {
    if |ts| == 0 then 0.0 else Mass(ts[0]) + MassOf(ts[1..])
  }

  function MPosOf(ts: seq<Tree>): Vec3
    decreases |ts|
  {
    if |ts| == 0 then Zero else Plus(MPos(ts[0]), MPosOf(ts[1..]))
  }

  lemma {:induction false} AggregatesAppend(xs: seq<Tree>, ys: seq<Tree>)
    ensures MassOf(xs + ys) == MassOf(xs) + MassOf(ys)
    ensures MPosOf(xs + ys) == Plus(MPosOf(xs), MPosOf(ys))
    decreases |xs|
  {
    if |xs| > 0 {
      assert (xs + ys)[0] == xs[0];
      assert (xs + ys)[1..] == xs[1..] + ys;
      AggregatesAppend(xs[1..], ys);
      PlusAssociative(MPos(xs[0]), MPosOf(xs[1..]), MPosOf(ys));
    } else {
      assert xs + ys == ys;
    }
  }

  /** Whatever theta, the nodes a walk through a balanced node visits
      together carry exactly that node's mass and mass-weighted position:
      no body is skipped and none is counted twice. */
  lemma {:induction false} VisitedAggregates(ph: Physics, body: Body, node: Option<Tree>, theta: real)
    requires Massive(body) && (node.Some? ==> Weighted(node.value) && Balanced(node.value))
    ensures MassOf(Visited(ph, body, node, theta)) == OptMass(node)
    ensures MPosOf(Visited(ph, body, node, theta)) == OptMPos(node)
    decreases node
  {
    match node
    case None =>
    case Some(t) =>
      match t
      case Leaf(_) =>
        assert [t][1..] == [];
      case Internal(_, _, level, cs) =>
        if Hollow(cs) || Size(level) < ph.norm(Minus(Pos(t), Position(body))) * theta {
          assert [t][1..] == [];
        } else {
          SlotsVisitedAggregates(ph, body, cs, theta);
        }
  }

  lemma {:induction false} SlotsVisitedAggregates(ph: Physics, body: Body, cs: seq<Option<Tree>>, theta: real)
    requires Massive(body)
    requires forall i :: 0 <= i < |cs| && cs[i].Some? ==> Weighted(cs[i].value) && Balanced(cs[i].value)
    ensures MassOf(SlotsVisited(ph, body, cs, theta)) == SlotsMass(cs)
    ensures MPosOf(SlotsVisited(ph, body, cs, theta)) == SlotsMPos(cs)
    decreases cs
  {
    if |cs| > 0 {
      var rs := cs[1..];
      assert forall i :: 0 <= i < |rs| && rs[i].Some? ==> Weighted(rs[i].value) && Balanced(rs[i].value) by {
        forall i | 0 <= i < |rs| && rs[i].Some? ensures Weighted(rs[i].value) && Balanced(rs[i].value) {
          assert rs[i] == cs[i + 1];
        }
      }
      VisitedAggregates(ph, body, cs[0], theta);
      SlotsVisitedAggregates(ph, body, rs, theta);
      var head, rest := Visited(ph, body, cs[0], theta), SlotsVisited(ph, body, rs, theta);
      assert SlotsVisited(ph, body, cs, theta) == head + rest;
      AggregatesAppend(head, rest);
    }
  }

  // ----- Exact mode on a rebuilt tree -----

  /** No internal node of the tree has all eight slots empty. */
  predicate NoHollow(t: Tree)
    decreases t
  {
    match t
    case Leaf(_) => true
    case Internal(_, _, _, cs) =>
      !Hollow(cs) && forall i :: 0 <= i < |cs| && cs[i].Some? ==> NoHollow(cs[i].value)
  }

  /** A balanced tree of positive masses has no hollow node: a hollow
      node's mass would have to be the zero mass of its empty slots. */
  lemma {:induction false} BalancedNoHollow(t: Tree)
    requires Weighted(t) && Balanced(t)
    ensures NoHollow(t)
    decreases t
  {
    match t
    case Leaf(_) =>
    case Internal(_, _, _, cs) =>
      if Hollow(cs) {
        EmptySlotsSums(cs);
        assert false;
      }
      forall i | 0 <= i < |cs| && cs[i].Some? ensures NoHollow(cs[i].value) {
        BalancedNoHollow(cs[i].value);
      }
  }

  /** Weighted nodes hold massive bodies only. */
  lemma {:induction false} LeavesMassive(node: Option<Tree>)
    requires node.Some? ==> Weighted(node.value)
    ensures AllMassive(OptLeaves(node))
    decreases node
  {
    match node
    case None =>
    case Some(t) =>
      match t
      case Leaf(_) =>
      case Internal(_, _, _, cs) => SlotsLeavesMassive(cs);
  }

  lemma {:induction false} SlotsLeavesMassive(cs: seq<Option<Tree>>)
    requires forall i :: 0 <= i < |cs| && cs[i].Some? ==> Weighted(cs[i].value)
    ensures AllMassive(SlotLeaves(cs))
    decreases cs
  {
    if |cs| > 0 {
      var rs := cs[1..];
      assert forall i :: 0 <= i < |rs| && rs[i].Some? ==> Weighted(rs[i].value) by {
        forall i | 0 <= i < |rs| && rs[i].Some? ensures Weighted(rs[i].value) {
          assert rs[i] == cs[i + 1];
        }
      }
      LeavesMassive(cs[0]);
      SlotsLeavesMassive(rs);
      assert SlotLeaves(cs) == OptLeaves(cs[0]) + SlotLeaves(rs);
    }
  }

  /** The force body `src` exerts on `body`. */
  function BodyPull(ph: Physics, src: Body, body: Body): Vec3
    requires Massive(src) && Massive(body)
  {
    Gravity(ph, src.m, Position(src), body.m, Position(body))
  }

  /** The direct sum over all sources, the O(n^2) reference the tree walk
      approximates. */
  function PairwiseForce(ph: Physics, srcs: seq<Body>, body: Body): Vec3
    requires AllMassive(srcs) && Massive(body)
    decreases |srcs|
  {
    if |srcs| == 0 then Zero else Plus(BodyPull(ph, srcs[0], body), PairwiseForce(ph, srcs[1..], body))
  }

  lemma {:induction false} PairwiseAppend(ph: Physics, xs: seq<Body>, ys: seq<Body>, body: Body)
    requires AllMassive(xs) && AllMassive(ys) && Massive(body)
    ensures AllMassive(xs + ys)
    ensures PairwiseForce(ph, xs + ys, body) == Plus(PairwiseForce(ph, xs, body), PairwiseForce(ph, ys, body))
    decreases |xs|
  {
    if |xs| > 0 {
      assert (xs + ys)[0] == xs[0];
      assert (xs + ys)[1..] == xs[1..] + ys;
      PairwiseAppend(ph, xs[1..], ys, body);
      var a := BodyPull(ph, xs[0], body);
      var b := PairwiseForce(ph, xs[1..], body);
      var c := PairwiseForce(ph, ys, body);
      assert PairwiseForce(ph, xs + ys, body) == Plus(a, Plus(b, c));
      assert PairwiseForce(ph, xs, body) == Plus(a, b);
      PlusAssociative(a, b, c);
    } else {
      assert xs + ys == ys;
    }
  }

  /** Taking source `j` out of the sum takes its pull out of the total. */
  lemma {:induction false} PairwiseRemove(ph: Physics, ys: seq<Body>, j: nat, body: Body)
    requires AllMassive(ys) && Massive(body) && j < |ys|
    ensures AllMassive(ys[..j] + ys[j + 1..])
    ensures PairwiseForce(ph, ys, body)
         == Plus(BodyPull(ph, ys[j], body), PairwiseForce(ph, ys[..j] + ys[j + 1..], body))
  {
    var front, back := ys[..j], ys[j + 1..];
    assert ys == front + ([ys[j]] + back);
    assert ([ys[j]] + back)[1..] == back;
    PairwiseAppend(ph, [ys[j]] + back, [], body);
    PairwiseAppend(ph, front, [ys[j]] + back, body);
    PairwiseAppend(ph, front, back, body);
    var a, p, b := PairwiseForce(ph, front, body), BodyPull(ph, ys[j], body), PairwiseForce(ph, back, body);
    assert PairwiseForce(ph, [ys[j]] + back, body) == Plus(p, b);
    PlusAssociative(a, p, b);
    PlusAssociative(p, a, b);
    PlusCommutative(a, p);
  }

  /** The direct sum does not depend on the order of the sources. */
  lemma {:induction false} PairwisePermutation(ph: Physics, xs: seq<Body>, ys: seq<Body>, body: Body)
    requires AllMassive(xs) && AllMassive(ys) && Massive(body)
    requires multiset(xs) == multiset(ys)
    ensures PairwiseForce(ph, xs, body) == PairwiseForce(ph, ys, body)
    decreases |xs|
  {
    if |xs| == 0 {
      assert |ys| == |multiset(ys)| == 0;
    } else {
      var x := xs[0];
      assert x in multiset(ys);
      var j :| 0 <= j < |ys| && ys[j] == x;
      var ys' := ys[..j] + ys[j + 1..];
      PairwiseRemove(ph, ys, j, body);
      assert ys == ys[..j] + [x] + ys[j + 1..];
      assert multiset(ys') == multiset(ys) - multiset{x};
      assert xs == [x] + xs[1..];
      assert multiset(xs[1..]) == multiset(xs) - multiset{x};
      PairwisePermutation(ph, xs[1..], ys', body);
    }
  }

  /** In a tree without hollow nodes the terminals are exactly the leaves,
      in the same order. */
  lemma {:induction false} TerminalsAreLeaves(ph: Physics, body: Body, node: Option<Tree>)
    requires Massive(body) && (node.Some? ==> Weighted(node.value) && NoHollow(node.value))
    ensures AllMassive(OptLeaves(node))
    ensures SumPulls(ph, Terminals(node), body) == PairwiseForce(ph, OptLeaves(node), body)
    decreases node
  {
    LeavesMassive(node);
    match node
    case None =>
    case Some(t) =>
      match t
      case Leaf(c) =>
        assert Terminals(node) == [t] && OptLeaves(node) == [c.body];
        LeafPull(ph, body, c);
      case Internal(_, _, _, cs) =>
        assert Terminals(node) == SlotsTerminals(cs) && OptLeaves(node) == SlotLeaves(cs);
        SlotsTerminalsAreLeaves(ph, body, cs);
  }

  /** A leaf pulls as its body does. */
  lemma {:induction false} LeafPull(ph: Physics, body: Body, c: Located)
    requires Massive(body) && Massive(c.body)
    ensures SumPulls(ph, [Leaf(c)], body) == PairwiseForce(ph, [c.body], body)
  {
    assert Pull(ph, Leaf(c), body) == BodyPull(ph, c.body, body) by {
      assert Mass(Leaf(c)) == c.body.m;
      assert Pos(Leaf(c)) == Position(c.body);
    }
    SinglePull(ph, Leaf(c), body);
    SinglePairwise(ph, c.body, body);
  }

  lemma {:induction false} SinglePull(ph: Physics, t: Tree, body: Body)
    requires Weighted(t) && Massive(body)
    ensures SumPulls(ph, [t], body) == Pull(ph, t, body)
  {
    assert [t][1..] == [];
  }

  lemma {:induction false} SinglePairwise(ph: Physics, src: Body, body: Body)
    requires Massive(src) && Massive(body)
    ensures PairwiseForce(ph, [src], body) == BodyPull(ph, src, body)
  {
    assert [src][1..] == [];
  }

  lemma {:induction false} SlotsTerminalsAreLeaves(ph: Physics, body: Body, cs: seq<Option<Tree>>)
    requires Massive(body)
    requires forall i :: 0 <= i < |cs| && cs[i].Some? ==> Weighted(cs[i].value) && NoHollow(cs[i].value)
    ensures AllMassive(SlotLeaves(cs))
    ensures SumPulls(ph, SlotsTerminals(cs), body) == PairwiseForce(ph, SlotLeaves(cs), body)
    decreases cs
  {
    SlotsLeavesMassive(cs);
    if |cs| > 0 {
      var rs := cs[1..];
      assert forall i :: 0 <= i < |rs| && rs[i].Some? ==> Weighted(rs[i].value) && NoHollow(rs[i].value) by {
        forall i | 0 <= i < |rs| && rs[i].Some? ensures Weighted(rs[i].value) && NoHollow(rs[i].value) {
          assert rs[i] == cs[i + 1];
        }
      }
      TerminalsAreLeaves(ph, body, cs[0]);
      SlotsTerminalsAreLeaves(ph, body, rs);
      var th, tr := Terminals(cs[0]), SlotsTerminals(rs);
      var lh, lr := OptLeaves(cs[0]), SlotLeaves(rs);
      assert SlotsTerminals(cs) == th + tr;
      assert SlotLeaves(cs) == lh + lr;
      SumPullsAppend(ph, th, tr, body);
      PairwiseAppend(ph, lh, lr, body);
    }
  }

  /** With theta = 0, and when no body is lost below the size floor,
      the tree walk from the rebuilt root gives exactly the direct sum of
      the pulls of all bodies. */
  lemma {:induction false} ExactModeIsPairwise(ph: Physics, bodies: seq<Body>, body: Body)
    requires AllMassive(bodies) && Massive(body) && |bodies| > 0 && AllFit(bodies)
    ensures ForceOn(ph, body, Build(bodies).value, 0.0) == PairwiseForce(ph, bodies, body)
  {
    var root := Build(bodies);
    BuildBalanced(bodies);
    BalancedNoHollow(root.value);
    WalkSumsVisited(ph, body, root, 0.0);
    ExactVisitsTerminals(ph, body, root);
    TerminalsAreLeaves(ph, body, root);
    BuildLeaves(bodies);
    PairwisePermutation(ph, OptLeaves(root), bodies, body);
  }

  /** For any theta, when no body is lost below the size floor, the walk
      from the rebuilt root is a sum of point-mass pulls over nodes that
      together carry the total mass and mass-weighted position of all the
      bodies. */
  lemma {:induction false} WalkCoversAllBodies(ph: Physics, bodies: seq<Body>, body: Body, theta: real)
    requires AllMassive(bodies) && Massive(body) && |bodies| > 0 && AllFit(bodies)
    ensures var root := Build(bodies);
            var visited := Visited(ph, body, root, theta);
            && ForceOn(ph, body, root.value, theta) == SumPulls(ph, visited, body)
            && MassOf(visited) == TotalMass(bodies)
            && MPosOf(visited) == TotalMPos(bodies)
  {
    var root := Build(bodies);
    BuildBalanced(bodies);
    WalkSumsVisited(ph, body, root, theta);
    VisitedAggregates(ph, body, root, theta);
  }
}
