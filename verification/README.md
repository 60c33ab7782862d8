# Barnes-Hut octree of the galaxy simulation, in Dafny

This project models the Barnes-Hut core of the galaxy simulation in
`common.py`. That core has five parts:

- the `Node` bookkeeping that locates a body inside the unit cube one octant
  at a time (`reset_location`, `place_into_octant`, `subdivide`);
- the recursive octree insertion `add`, with its size floor of 1e-4;
- the per-step rebuild that `evolve` runs before every time step;
- the pair force `gravitational_force`, zero below a cutoff distance of 1e-4 (there is no softening length);
- the tree walk `force_on`, with its θ criterion.

The model is spread over four files:

- `vectors.dfy` (modules `Options` and `Vectors`): option values and three-component vectors over exact reals.
- `bodies.dfy` (module `Bodies`): a body as mass, mass-weighted position and momentum. The location state the tree code keeps on a body is a cell depth `level`, so the cell side `size` is 2^-level, plus the relative position inside that cell.
- `octree.dfy` (module `Octree`): the tree, `add`, the rebuild, and the facts about which bodies survive an insertion and how the aggregates add up.
- `barneshut.dfy` (module `BarnesHut`): the pair force and the walk. It proves that, when no body is lost below the size floor (`AllFit`), a walk that never approximates (θ = 0) over a rebuilt tree is exactly the direct sum of all pair forces. It also proves that, under the same condition, for every θ the nodes the walk pulls from carry, together, the total mass and mass-weighted position of all bodies.

Several facts are proved about the tree:

- The side of a cell exceeds the floor of 1e-4 exactly down to depth 13.
- A body added into an occupied cell at depth 14 is dropped, together with what the cell held. The dropped mass is still counted in every ancestor.
- An internal node whose eight slots all end up empty ("hollow") is treated by `force_on` as one point mass.
- The predicates `Separates` and `Fits` say exactly when no body is lost. Under them every internal node is balanced: its aggregates are the sums over its slots.

## Model

| member | source | states |
|---|---|---|
| Bodies.PositionScalesBack | common.py:43-47 | the position scaled by the mass gives back the stored mass-weighted position |
| Bodies.NewBody | common.py:30-47 | the node stores mass and momentum as given and `m * position`; dividing back by the mass returns the position it was built from |
| Bodies.Reset | common.py:49-57 | the body itself is unchanged, the cell side is reset to 1.0 and the relative position equals the physical position |
| Bodies.Subdivide | common.py:69-80 | the returned bit is 0 or 1 and is 1 exactly when the doubled coordinate reaches 1.0; the old coordinate is (bit + new)/2; a coordinate in [0,1) stays in [0,1); coordinates below 0 or at least 1 never move back towards [0,1) |
| Bodies.PlaceIntoOctant | common.py:59-67 | the octant index is below 8; the body is the same and the cell is one level deeper |
| Bodies.PlaceIntoOctantGeometry | common.py:59-80 | one step halves the cell side; the octant index is 4·x-bit + 2·y-bit + z-bit of the upper-half tests; the new relative position together with the octant gives back the old one; the unit cube is preserved |
| Bodies.Descend | common.py:54-67 | after k steps from `reset_location` the cell side is 2^-k of the start, the body is unchanged, and a position in the unit cube stays in it |
| Bodies.SizeAboveFloor | common.py:88-93 | a cell of depth `level` is still above the 1e-4 floor exactly when level ≤ 13 |
| Octree.Collide | common.py:96-113 | inserting into an occupied leaf yields an internal node of the leaf's cell with eight slots, mass and mass-weighted position of both bodies; slots of other octants stay empty; in different octants both bodies sit one level down in their own octants |
| Octree.Add | common.py:82-114 | an empty slot takes the body; a non-empty node at or below the floor becomes `None`; otherwise the result is internal, at the same level, with mass and mass-weighted position increased by the body's, and every slot but the body's octant unchanged; shape and positive masses are kept |
| Octree.Split | common.py:97-102 | the deep copy of an occupied leaf is an internal node of the same cell, mass and mass-weighted position, with eight slots, and its only leaf is the copied body |
| Octree.AddIntoLeafIsAddIntoCopy | common.py:96-113 | adding into an occupied leaf equals adding into its deep copy with eight slots and the leaf pushed into its own octant |
| Octree.CollideLeaves | common.py:96-114 | after two bodies collide, both are leaves if an octant separates them above the floor; otherwise both are lost |
| Octree.AddLeaves | common.py:82-114 | the leaves after `add` are within the leaves before plus the new body; all of them (new body included) are kept exactly when the insertion fits; otherwise no leaf is gained and the new body occurs no more often than before |
| Octree.Build | common.py:383-386 | the rebuilt root exists exactly when there are bodies; it is at depth 0 and its mass and mass-weighted position are the totals over all bodies, lost bodies included |
| Octree.Rebuild | common.py:383-386 | the loop of `reset_location` and `add` over the body list computes `Build`; the root carries the total mass and mass-weighted position of all bodies (none when the list is empty) |
| Octree.BuildLeaves | common.py:383-386 | the leaves of the rebuilt tree are a sub-multiset of the bodies; they equal the bodies exactly when every insertion fits, and are strictly fewer otherwise |
| Octree.CollideBalanced | common.py:96-113 | a collision of two separable leaves yields a node whose aggregates, and those of every node below it, are the sums over their slots |
| Octree.AddBalanced | common.py:104-113 | an insertion that fits keeps every node's aggregates equal to the sums over its slots |
| Octree.BuildBalanced | common.py:383-386 | when every insertion fits, every node of the rebuilt tree is balanced |
| BarnesHut.Gravity | common.py:116-127 | below the cutoff distance the force is the zero vector |
| BarnesHut.GravityAttracts | common.py:128-130 | beyond the cutoff, with positive masses and constant, the force is a positive multiple of p1 - p2, so it pulls the second body towards the first |
| BarnesHut.GravityReaction | common.py:116-130 | swapping the two nodes negates the force |
| BarnesHut.GravitySelf | common.py:122-127 | a node exerts no force on anything at its own position, itself included |
| BarnesHut.CentreOfMass | common.py:43-47 | the position of a balanced internal node is the centre of mass of its occupied slots: the sum of mass times position over the slots, divided by their total mass |
| BarnesHut.ForceOn | common.py:132-150 | the walk's force is the sum of the point-mass pulls of the nodes it stops at; with θ = 0 these are exactly the leaves and hollow nodes |
| BarnesHut.WalkSumsVisited | common.py:132-150 | `force_on` equals the sum of the point-mass pulls of the nodes it stops at: leaves, hollow nodes and nodes far enough away |
| BarnesHut.ExactVisitsTerminals | common.py:141-150 | with θ = 0 no occupied internal node is ever approximated: the walk stops exactly at the leaves and hollow nodes |
| BarnesHut.VisitedAggregates | common.py:141-150 | for any θ, the nodes a walk through a balanced node stops at carry together exactly that node's mass and mass-weighted position |
| BarnesHut.BalancedNoHollow | common.py:141-142 | a balanced tree of positive masses has no hollow node |
| BarnesHut.TerminalsAreLeaves | common.py:141-150 | in a tree without hollow nodes, the pulls of the walk's stopping points sum to the direct sum over the leaves' bodies |
| BarnesHut.PairwisePermutation | common.py:150 | the direct sum of pair forces does not depend on the order of the sources |
| BarnesHut.ExactModeIsPairwise | common.py:132-150 | with θ = 0 on a rebuilt tree where every insertion fits, `force_on` is the direct sum of `gravitational_force` over all bodies |
| BarnesHut.WalkCoversAllBodies | common.py:132-150 | for any θ on such a tree, `force_on` is a sum of point-mass pulls over nodes that together carry the total mass and mass-weighted position of all bodies |

## Left out

- Galaxy samplers (`kepler_galaxy`, `bessel_galaxy`, `spiral_galaxy`, `Random_numbers_distribution`, `func`): random sampling and numerical libraries, outside the octree.
- `verlet` and the time loop of `evolve`: floating-point time stepping. In the source the leaves are the body objects themselves, so the integrator moves leaves in place. Only the rebuild at the start of a step is modelled.
- The rescaling of `G` in `evolve`: the constant is a field of `Physics`, and θ is a parameter of the walk. Lemmas that take G or θ as a parameter hold for every value their requires allow: G > 0 for `GravityAttracts`, and θ = 0 only for the exact mode (`ExactVisitsTerminals`, `ExactModeIsPairwise`). This includes the source's G = 4.4985022e-6 (before rescaling) and, where θ is free, θ = 0.3.
- File I/O, plotting and post-processing (`system_init_write`, `system_init_read`, `save_data`, `read_evolution`, `plot_bodies`, `create_video`, `tangent_velocity_distribution`, `tangent_velocity`, `read_model`), and `Init_system.py`, which is not part of this model.
- Floating-point rounding: coordinates, masses and forces are exact reals, so sums can be reordered freely. The walk's `sum` over children is modelled as a right fold.
- Mutation and aliasing: `reset_location` and `place_into_octant` mutate the node in place, and `add` mutates internal nodes. The model returns new values instead. The momentum and relative position that `deepcopy` leaves on an internal node are never read, so they are not kept.
- Bodies.Position: masses are required to be positive. For a zero mass the source stores `m_pos` as the zero vector and `position()` computes 0/0 = NaN, which then spreads through `reset_location`, `subdivide` and every force involving that leaf.
- BarnesHut.Gravity: the Euclidean norm (a square root) is a parameter of `Physics`. The only facts about it the model uses are `NormLaws`: it is even and zero at the origin. Nonnegativity is not needed by any lemma.
- BarnesHut.GravityReaction: stated under `NormLaws` only, since the norm is not computed.
