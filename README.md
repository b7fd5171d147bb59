# Unity Vegetation Engine: the spatial grid and its handles, in Dafny

The vegetation engine keeps its world in a hierarchical spatial grid.
A `GridElement` is an axis-aligned box. It is split into a width × height × depth
lattice of children, and each child is split again by the next level of a
`Dimensions[]` list. Touching siblings are wired as neighbours. While at least
three levels remain, facing grandchildren of neighbouring children are
stitched together as well, along y and z as intended and along x under a
guard that tests the x coordinate against the height (see Findings). Scene objects register with the element that holds
them. Two queries run over the grid:

- a point lookup, which descends to the leaf that contains a point;
- a range walk, which follows neighbour and child links from an object's
  element and collects the leaves it reaches.

`GridManager` keeps the list of root grids. `Maths` provides the lattice
linearisation `To1D` and the `SubArray` copy that drops the first level of a
dimension list. `Painter.cs` adds the handles that use the grid:

- `SceneObject`, an entity bound to a grid element;
- `PlantDefinition` and its spawning cooldown;
- `VegetationCollection`, which numbers species and tracks the largest radius;
- the painter-type switches of `Painter`.

The model is organised as follows.

- Elements live in a table. `GridElements.CellTable` holds `cells: seq<Cell>`,
  and a `CellId` is an index into it. A child slot is an `Option<CellId>`
  because `RemoveElement` overwrites slots with null.
- The operations that change elements are methods of `CellTable`.
- `GridSpec` holds the value-level definitions those methods are specified against:
  - the neighbour-graph invariant;
  - `Resolve` for the point lookup;
  - `Route`/`Reaches` for the walk.
- `GridBuild` describes what `GenerateUniformGrid` builds: the lattice, the
  sibling links, the stitched pairs and the shape of the generated tree.
- `Geometry` models `Vector3` and `Bounds` over the reals.
- `Lists` models the `List<T>` operations the code relies on: `IndexOf`,
  `Remove` of the first occurrence, and the filtering loops.
- `Painting` models `Painter.cs`: classes with the source's fields, methods
  that update them in place, and specification functions with lemmas about them.

## Model

| member | source | states |
|---|---|---|
| Maths.To1DBijective | VegetationEngine/Assets/Code/Maths.cs:35-40 | On a positive w × h × d lattice, To1D sends every lattice point into [0, w·h·d) and Coords gives the point back. Every flat position in that range is To1D of the point Coords returns. So To1D is a bijection onto the flat list. |
| Maths.To1DInRange | VegetationEngine/Assets/Code/Maths.cs:38-40 | Every lattice point has a flat position in [0, w·h·d). |
| Maths.CoordsOfTo1D | VegetationEngine/Assets/Code/Maths.cs:38-40 | Coords inverts To1D on the lattice. |
| Maths.To1DOfCoords | VegetationEngine/Assets/Code/Maths.cs:38-40 | Every flat position below w·h·d comes from a lattice point, and To1D of that point is the position. |
| Maths.To1DOrigin | VegetationEngine/Assets/Code/Maths.cs:38-40 | Only the origin has flat position 0. |
| Maths.To1DSteps | VegetationEngine/Assets/Code/Maths.cs:38-40 | One step along z, y or x moves the flat position by 1, by depth, or by depth·height. |
| Maths.To1DCarry | VegetationEngine/Assets/Code/Maths.cs:38-40 | Running z past the last layer lands on the start of the next y row. Running y past the last row lands on the next x slab. This makes the x-y-z loop order enumerate positions 0, 1, 2, … |
| Maths.SubArray | VegetationEngine/Assets/Code/Maths.cs:43-47 | Returns a fresh array of exactly `length` elements, equal to data[index .. index+length]. It requires the range to lie inside data, because Array.Copy throws otherwise. Called with (1, Length-1) it yields the tail of the dimension list. |
| Lists.IndexOf | VegetationEngine/Assets/Code/GridManager.cs:163-166 | Returns None exactly when the value is absent (the -1 of List.IndexOf). Otherwise it returns the position of the first occurrence. |
| Lists.RemoveFirst | VegetationEngine/Assets/Code/GridManager.cs:159-161 | List.Remove leaves the list unchanged when the value is absent. Otherwise it takes out exactly one occurrence: the multiset loses one copy of the value. |
| Lists.RemoveFirstAt | VegetationEngine/Assets/Code/GridManager.cs:159-161 | The occurrence List.Remove takes out is the first one, at the position IndexOf reports. |
| Lists.Filter | VegetationEngine/Assets/Code/GridManager.cs:144-152 | The filtering loops keep, in order, only elements that pass the test, and keep every element that passes it. |
| Lists.FilterAppend | VegetationEngine/Assets/Code/GridManager.cs:147-149 | One more iteration of a filtering loop appends the element exactly when it passes. |
| Geometry.ChildLatticeExtent | VegetationEngine/Assets/Code/GridManager.cs:221-230 | The last child's far faces along y and z lie on the parent's faces. Along x the lattice ends at origin.x + 2·halfSize.z, because the child x-size is taken from halfSize.z. |
| GridSpec.NeighbourSymmetry | VegetationEngine/Assets/Code/GridManager.cs:187-190 | In a valid table, b is a's neighbour iff a is b's. |
| GridSpec.ConnectKeepsGraph | VegetationEngine/Assets/Code/GridManager.cs:182-190 | Start from a valid table. Then a.AddNeighbour(b) followed by b.AddNeighbour(a) keeps every neighbour list free of self-links and of duplicates, and keeps the relation symmetric. The pair a–b is added in both directions unless a = b. Nothing else changes. |
| GridSpec.LinkAllMember | VegetationEngine/Assets/Code/GridManager.cs:192-195 | ConnectTo(list) adds, in both directions, exactly the pairs of a with the listed elements other than a. |
| GridSpec.Resolve | VegetationEngine/Assets/Code/GridManager.cs:100-109 | The point lookup below e. A result is always a childless element that contains the point, and then e contains it too. |
| GridSpec.ResolveAmongLastWins | VegetationEngine/Assets/Code/GridManager.cs:104-106 | When several children resolve the point, the result is that of the last one in list order: the foreach overwrites the reference each time. |
| GridSpec.ResolvePath | VegetationEngine/Assets/Code/GridManager.cs:100-109 | A lookup result is reached from e by a descent through child links, and every element on the way contains the point. |
| GridSpec.DistinctBounded | VegetationEngine/Assets/Code/GridManager.cs:111-115 | A visited list without repetitions is no longer than the table. Because each visit appends a new element, the walk terminates. |
| GridSpec.WalkVisits | VegetationEngine/Assets/Code/GridManager.cs:111-131 | A complete walk from a visits exactly the elements a reaches. A route leaves only elements that pass the range test, and goes to a neighbour or a child. |
| GridSpec.WalkCollects | VegetationEngine/Assets/Code/GridManager.cs:111-131 | A complete walk collects exactly the childless elements that pass the range test and that a reaches. |
| GridSpec.NearFiltered | VegetationEngine/Assets/Code/GridManager.cs:133-142 | The range filter keeps exactly the registered Ts whose distance is strictly below range. It keeps none when range ≤ 0. |
| GridElements.CellTable.constructor | VegetationEngine/Assets/Code/GridManager.cs:45-63 | Creates the model's table of elements, empty and valid, which `NewGridElement` (the GridElement constructor) fills. The table has no counterpart in the source. |
| GridElements.CellTable.NewGridElement | VegetationEngine/Assets/Code/GridManager.cs:45-68 | Appends a new element with the given box and parent, and with no children, neighbours or objects. The table stays valid. |
| GridElements.CellTable.AddNeighbour | VegetationEngine/Assets/Code/GridManager.cs:182-185 | The table becomes AddNeighbourTo: b is appended to self's list unless b is self or is already listed. |
| GridElements.CellTable.ConnectTo | VegetationEngine/Assets/Code/GridManager.cs:187-190 | The table stays valid (symmetric, no self-links, no duplicates). Exactly the pairs self–b are added, and only neighbour lists change. |
| GridElements.CellTable.ConnectToAll | VegetationEngine/Assets/Code/GridManager.cs:192-195 | The table stays valid. Exactly LinkAll(self, list) is added. |
| GridElements.CellTable.Register | VegetationEngine/Assets/Code/GridManager.cs:155-157 | Exactly one entry, the object, is appended at the end of self's object list. Nothing else changes. |
| GridElements.CellTable.Unregister | VegetationEngine/Assets/Code/GridManager.cs:159-161 | Self's object list loses the first occurrence of the object, and is unchanged when the object is absent. Nothing else changes. |
| GridElements.CellTable.RemoveElement | VegetationEngine/Assets/Code/GridManager.cs:163-168 | The first child slot holding the element becomes null, and the list keeps its length. The table is unchanged when no slot holds the element. |
| GridElements.CellTable.FindContainingGridElement | VegetationEngine/Assets/Code/GridManager.cs:100-109 | outChild becomes the leaf Resolve finds. It is left untouched when self does not contain the point, or when no descendant resolves it. |
| GridElements.CellTable.GridElementsInRange | VegetationEngine/Assets/Code/GridManager.cs:111-131 | The walk changes nothing when self is already on the path. Otherwise self is appended to the path. path and elements only grow at the end and repeat nothing. elements holds only visited childless elements that pass the range test. What is visited is closed under the walk, and everything visited was reached from self. |
| GridElements.CellTable.GetChildren | VegetationEngine/Assets/Code/GridManager.cs:144-152 | Returns, in registration order, the registered objects that are a T, and only those. |
| GridElements.CellTable.GetChildrenInRange | VegetationEngine/Assets/Code/GridManager.cs:133-142 | Returns, in registration order, exactly the registered Ts strictly closer than range. It returns nothing when range ≤ 0. |
| GridElements.CellTable.SpawnChildren | VegetationEngine/Assets/Code/GridManager.cs:219-230 | The creation loops append W·H·D fresh elements. The one made at (x, y, z) sits at position To1D(x, y, z) of self's cleared child list, with the box of that lattice point and self as its parent. |
| GridElements.CellTable.Stitch | VegetationEngine/Assets/Code/GridManager.cs:271-331 | The table stays valid. Exactly the stitched pairs StitchPairs are added, and only neighbour lists change. The x pass runs under the guard as written, x < height − 1. |
| GridElements.CellTable.GenerateUniformGrid | VegetationEngine/Assets/Code/GridManager.cs:212-332 | An empty dimension list changes nothing. Otherwise self lists exactly W·H·D fresh children in lattice order, and elements other than self are unchanged. The whole subtree is Shaped: each level is split by the next extents, with lattice boxes, parents, touching siblings linked, and facing grandchildren stitched, under the guards as written, while three levels remain and the stitching does not throw. The first level's children are linked with exactly the siblings they touch. The table stays valid. |
| GridBuild.NeighbourIndices | VegetationEngine/Assets/Code/GridManager.cs:238-253 | The "Generate Neighbours" loops list only positions inside the lattice. A position is listed exactly when it touches the child's own position, the child's own position included. Nothing is listed for the child at (0, 0, 0). |
| GridBuild.ChildSlots | VegetationEngine/Assets/Code/GridManager.cs:219-230 | The child list after the creation loops has n slots, and slot k holds the k-th element created. |
| GridBuild.LatticeSize | VegetationEngine/Assets/Code/GridManager.cs:225-227 | The creation loops run To1D(W, 0, 0) = W·H·D times. |
| GridBuild.WiredStep | VegetationEngine/Assets/Code/GridManager.cs:251-260 | One pass of the wiring loop links child t both ways with every sibling it touches, unless t is child 0. |
| GridBuild.WiredComplete | VegetationEngine/Assets/Code/GridManager.cs:234-262 | After the wiring loop, two distinct siblings are neighbours iff their lattice coordinates differ by at most 1 on every axis. This includes child (0, 0, 0), which its neighbours' passes connect. |
| GridBuild.GuardAt | VegetationEngine/Assets/Code/GridManager.cs:284-320 | At lattice point (x, y, z), the y pass runs exactly when y < height − 1 and the z pass exactly when z < depth − 1. The x pass runs exactly when x < height − 1, the guard as written. The next child along an axis is To1D of the point one step on. |
| GridBuild.GuardExact | VegetationEngine/Assets/Code/GridManager.cs:296-320 | HasNext, the intended guard, admits exactly the children whose next child along the axis lies in the lattice. The next child's flat position is then a valid index. |
| GridBuild.XGuardOverruns | VegetationEngine/Assets/Code/GridManager.cs:296 | With the x guard as written, a 2 × 3 × 2 split runs the x pass for child (1, 0, 0). That child is on the last x layer, and its xPos is 12, one past the 12 children. Over 1 × 1 × 1 grandchildren this counts as a crash. |
| GridBuild.XGuardSkips | VegetationEngine/Assets/Code/GridManager.cs:296 | With the x guard as written, a 3 × 1 × 1 split never runs the x pass, although children 0 and 1 face each other along x. |
| GridBuild.XGuardUnitHeight | VegetationEngine/Assets/Code/Painter.cs:383 | With the x guard as written, a split one child high never runs the x pass. The shipped top level 2 × 1 × 2 is such a split, so it gets no x stitch. |
| GridBuild.StitchInRange | VegetationEngine/Assets/Code/GridManager.cs:271-331 | When the stitching does not throw, every index a pass uses is valid: the next child exists and differs from the current one, and both grandchild positions exist. It throws when a pass that runs finds no grandchildren, or when the x pass runs past the last x layer (a split narrower than it is high). |
| GridBuild.GuardWithinHasNext | VegetationEngine/Assets/Code/GridManager.cs:284-320 | When the stitching does not throw and the pass has grandchildren to connect, the guard as written admits only children that HasNext admits. |
| GridBuild.StitchPairIntended | VegetationEngine/Assets/Code/GridManager.cs:281-327 | When the stitching does not throw, every stitched pair comes from a child that has a next child along the pass's axis. So the pairs as written are among the intended ones. |
| GridBuild.XPassEmpty | VegetationEngine/Assets/Code/GridManager.cs:296 | A split one child high adds no pair in its x pass. |
| GridBuild.FaultsAsWritten | VegetationEngine/Assets/Code/GridManager.cs:271-331 | The stitching throws for 2 × 3 × 2 over 1 × 1 × 1 over 1 × 1 × 1 and for 1 × 2 × 1 over 0 × 1 × 1 over 1 × 1 × 1. It does not throw for the shipped 2 × 1 × 2 over 5 × 4 × 5 over 4 × 4 × 4. |
| GridBuild.StitchMember | VegetationEngine/Assets/Code/GridManager.cs:281-327 | The stitched pairs are exactly the face pairs of the children the guards admit (x < height − 1 for x, as written). Each joins the grandchild on the far face of a child with the grandchild at the same in-face coordinates on the near face of the next child along +x, +y or +z. |
| GridBuild.StitchPairsAbove | VegetationEngine/Assets/Code/GridManager.cs:271-331 | Both ends of every stitched pair are grandchildren of the element being split. |
| GridBuild.StitchedByPairs | VegetationEngine/Assets/Code/GridManager.cs:271-331 | Adding the stitched pairs leaves every face pair linked. |
| GridBuild.ShapedFrame | VegetationEngine/Assets/Code/GridManager.cs:258-266 | A generated subtree keeps its shape when the table grows and its elements only gain neighbours. This is what happens to it during later passes of the parent's loops. |
| GridBuild.WireDone | VegetationEngine/Assets/Code/GridManager.cs:234-266 | After the wiring loop, and after the stitching when there is one, the split of e is Shaped and its children's neighbour lists are exact. The stitched pairs in Shaped are those of the guards as written. |
| GridManagers.GatherMember | VegetationEngine/Assets/Code/GridManager.cs:376-377 | The gathering loop lists an object exactly when one of the elements holds it and it passes the element's filter. |
| GridManagers.GatheredFromWalk | VegetationEngine/Assets/Code/GridManager.cs:369-380 | Gathering over the leaves a complete walk collected yields exactly the near Ts held by the in-range leaves the walk reaches. |
| GridManagers.GridManager.constructor | VegetationEngine/Assets/Code/GridManager.cs:358-360 | The grid list starts empty. |
| GridManagers.GridManager.AddGrid | VegetationEngine/Assets/Code/GridManager.cs:403-405 | Appends the root to the list of grids. |
| GridManagers.GridManager.GetContainingGridElement | VegetationEngine/Assets/Code/GridManager.cs:390-397 | Returns null when gridID ≥ number of grids. Otherwise it returns the root's lookup result: a leaf containing the point, or null. |
| GridManagers.GridManager.GatherInRange | VegetationEngine/Assets/Code/GridManager.cs:376-377 | The loop concatenates, element after element, what GetChildrenInRange returns. |
| GridManagers.GridManager.GetObjectsInRange | VegetationEngine/Assets/Code/GridManager.cs:369-380 | An object is returned exactly when it is a T, strictly within range of the centre, and registered with an in-range leaf the walk from the centre's element reaches. |
| GridManagers.GridManager.GetObjectsInElements | VegetationEngine/Assets/Code/GridManager.cs:382-388 | Returns, element after element, the registered Ts of the listed elements. An object is returned exactly when a listed element holds it and it is a T. |
| Painting.SceneObject.constructor | VegetationEngine/Assets/Code/Painter.cs:10-14 | Binds the object to the element, and appends it exactly once to that element's object list. |
| Painting.SceneObject.Remove | VegetationEngine/Assets/Code/Painter.cs:24-27 | Takes the first occurrence of the object out of its element's list, and leaves the rest of the table unchanged. |
| Painting.SceneObject.Update | VegetationEngine/Assets/Code/Painter.cs:34-39 | Keeps the element while it contains the position. Otherwise the element becomes grid 0's lookup result, possibly null. No object list changes, so the old element keeps its entry. |
| Painting.Recover | VegetationEngine/Assets/Code/Painter.cs:96-104 | The level becomes min(level + amount, max). canPlace becomes true when the level equals max, and otherwise stays as it was, so it is never set to false. |
| Painting.Drain | VegetationEngine/Assets/Code/Painter.cs:106-111 | The level falls by exactly the cost, with no lower clamp. canPlace is cleared below the threshold and never set. |
| Painting.ReplayKeepsInvariant | VegetationEngine/Assets/Code/Painter.cs:96-111 | Given a non-negative cost and a threshold at most max, any sequence of recoveries and drains keeps two facts: the level is at most max, and a plant that may not spawn is below max. |
| Painting.DrainThenRecover | VegetationEngine/Assets/Code/Painter.cs:96-111 | A drain followed by a recovery of the same amount restores a level that was not above max. |
| Painting.RecoverKeepsBlocked | VegetationEngine/Assets/Code/Painter.cs:96-104 | A blocked plant that recovers to the threshold or above, but stays below the maximum, is still blocked. With the shipped cooldown 10/1/1, ten `DrainCooldown` calls and a recovery of 1 leave the plant at level 1 and blocked. |
| Painting.RecoverToThreshold | VegetationEngine/Assets/Code/Painter.cs:53-55 | The level is that of RecoverCooldown. The plant may spawn exactly when it already could or its level is at the threshold or above. |
| Painting.ThresholdDecidesPlacing | VegetationEngine/Assets/Code/Painter.cs:53-55 | With the intended recovery and non-negative amounts and costs, both recovery and drain keep the flag equal to "level at or above the threshold". |
| Painting.RecoverRestoresPlacing | VegetationEngine/Assets/Code/Painter.cs:96-111 | A full plant that is drained and then recovers the cost is full again and may spawn. |
| Painting.PlantDefinition.constructor | VegetationEngine/Assets/Code/Painter.cs:62-86 | Stores the parameters. The cooldown starts at max, canPlace starts true, and the species number is 0. |
| Painting.PlantDefinition.RecoverCooldown | VegetationEngine/Assets/Code/Painter.cs:96-104 | The cooldown state becomes Recover of the old state. |
| Painting.PlantDefinition.DrainCooldown | VegetationEngine/Assets/Code/Painter.cs:106-111 | The cooldown state becomes Drain of the old state, with the plant's cost and threshold. |
| Painting.SpeciesEquality | VegetationEngine/Assets/Code/Painter.cs:88-94 | `!=` is the negation of `==`. `==` compares species numbers, so it is reflexive, symmetric and transitive. |
| Painting.NumberedSpecies | VegetationEngine/Assets/Code/Painter.cs:88-90 | In a numbered list of distinct plants, two plants compare equal iff they are at the same position. |
| Painting.MaxStep | VegetationEngine/Assets/Code/Painter.cs:238-241 | One update never lowers the maximum and lifts it at least to the species radius. A larger species radius always wins. |
| Painting.MaxRadius | VegetationEngine/Assets/Code/Painter.cs:234-243 | The recorded maximum is non-negative and at least every plant's species radius. |
| Painting.MaxRadiusMonotone | VegetationEngine/Assets/Code/Painter.cs:245-253 | Adding plants never lowers the recorded maximum. |
| Painting.SizeGroupRadiusShadowed | VegetationEngine/Assets/Code/Painter.cs:238-241 | Because of the `else if`, a size-group radius is ignored when the same plant's species radius already raises the maximum. A plant with radii (10, 50) after a maximum of 3 records 10. |
| Painting.VegetationCollection.constructor | VegetationEngine/Assets/Code/Painter.cs:231-243 | Every plant carries the number of its (last) position in the list. The maximum is MaxRadius of the list. Only the plants' speciesID fields may change. |
| Painting.VegetationCollection.AddPlant | VegetationEngine/Assets/Code/Painter.cs:245-253 | The plant is numbered by the old count and appended, and the numbering invariant is kept. The maximum takes one MaxStep, so it never decreases and stays MaxRadius of the list. |
| Painting.PainterTypesDisjoint | VegetationEngine/Assets/Code/Painter.cs:311-315 | No value occurs twice within or across the shipped painter-type groups. |
| Painting.RemoveEach | VegetationEngine/Assets/Code/Painter.cs:328-330 | The disabling loop takes exactly one copy of each group value out of the list. |
| Painting.OccurrencesCount | VegetationEngine/Assets/Code/Painter.cs:311-333 | With disjoint groups, a value occurs among the enabled values once if its group is enabled, and not at all otherwise. |
| Painting.SetTypeConsistent | VegetationEngine/Assets/Code/Painter.cs:321-333 | setPainterType keeps the list holding exactly the values of the enabled groups. |
| Painting.EnableThenDisable | VegetationEngine/Assets/Code/Painter.cs:321-333 | Enabling a disabled group and then disabling it gives back the very same list. |
| Painting.ToggleTwice | VegetationEngine/Assets/Code/Painter.cs:335-337 | Toggling a group twice restores the flags and the list's values. For a group that was disabled, it restores the exact list. |
| Painting.Painter.constructor | VegetationEngine/Assets/Code/Painter.cs:317-319 | All three flags start false and the list starts empty, which is consistent. |
| Painting.Painter.SetPainterType | VegetationEngine/Assets/Code/Painter.cs:321-333 | Nothing happens when state equals the flag. Otherwise the group's values are appended (when enabling) or removed one by one (when disabling), and the flag is set. The list stays consistent with the flags. |
| Painting.Painter.AddGroup | VegetationEngine/Assets/Code/Painter.cs:325-327 | The enabling loop appends the group's values in order. |
| Painting.Painter.RemoveGroup | VegetationEngine/Assets/Code/Painter.cs:328-330 | The disabling loop removes the first occurrence of each group value in turn. |
| Painting.Painter.TogglePainterType | VegetationEngine/Assets/Code/Painter.cs:335-337 | setPainterType with the negated flag. The list stays consistent with the flags. |

## Left out

- Floating point. `float` is modelled as `real`, so rounding is left out. One effect: Recover's test `level == max` is exact.
- `InRange` (GridManager.cs:75-98) uses a square root, `Vector3.Normalize` and `_rangeMax`/`_rangeMin`. It is a parameter `inRange: Box -> bool` of the walk, with the centre position folded into it.
- `Contains` is the inclusive box test of Unity's `Bounds.Contains`, over the element's own centre and half-size. The `BoxCollider` that carries these bounds is not modelled.
- `Vector3.Distance(a, b) < range` is decided on squared distances. This is equivalent over the reals, where the distance is never negative.
- The type test `child is T` and an object's transform position are parameters (`isT`, `posOf`) of the object queries.
- The Unity objects are not modelled:
  - `GameObject`/`BoxCollider` creation and parenting in the `GridElement` constructors;
  - `GameObject.Destroy` in `SceneObject.Remove`;
  - `PrintChildCount`, and the `Position`, `Size` and `Elements` getters.
- `DisconnectFrom` and `DisconnectFromAll` (GridManager.cs:197-207) are not modelled. On a symmetric edge, A.DisconnectFrom(B) calls B.DisconnectFrom(A) before anything is removed, and that call in turn calls back, so the recursion does not terminate. `DisconnectFromAll` also changes the list it enumerates. No core operation calls them.
- The `GridManager` singleton (`GetInstance`) and `SetScale` are not modelled. `SceneObject.Update` takes the manager as a parameter.
- `GridManagers.GridManager.GetObjectsInRange` takes the centre object as its element and position. It states which objects the result holds, not their order or repetitions; `GatherInRange` states the exact list.
- Crashes of the source become preconditions:
  - A null child slot, which only `RemoveElement` can leave, makes the lookup and the walk throw when they reach it. Both require `Intact`, which rules out a null slot anywhere in the table. `RemoveElement` (GridManager.cs:163-168) has no caller in the source, and nothing else stores null in a child slot, so every call site meets `Intact`. `GridElements.CellTable.GenerateUniformGrid` never reads an old slot, because it clears the child list first (GridManager.cs:219). It requires `Intact` only to pass the invariant on to the lookup and the walk.
  - An index past the end of a list: `GenerateUniformGrid` requires `!Faults(dims)`, and `SetPainterType` requires an index in 0..2.
  - A null element reference:
    - The `SceneObject` constructor takes a bound element, a `CellId`. The painter (Painter.cs:388) passes the result of `GetContainingGridElement`, which is null for a point outside the grid, and `Register` then throws at Painter.cs:13.
    - `SceneObject.Remove` and `Update` require a bound element. `Update` can set `_gridPosition` to null (Painter.cs:38), and the next `Remove` (Painter.cs:25) or `Update` (Painter.cs:35) then throws.
    - `GridManagers.GridManager.GetObjectsInRange` takes its start element as a `CellId`. The source reads it from `centreObject.GridElement` (GridManager.cs:374, called from Painter.cs:434 and :516), which can be that same null, and then throws.
  - `SubArray` requires its range to lie inside the array.
  - `gridID` is a `nat`. A negative `gridID` passes the source's `Count > gridID` test and then throws.
- `PlantDefinition.RecoverCooldown` and `DrainCooldown` are modelled, but nothing in the source calls them or reads `CanPlace`: spawning does not consult the cooldown.
- Elements dropped by a second `GenerateUniformGrid` on the same element are no longer referenced by it, but they keep their rows in the table. The model never frees a row.
- `GridElements.CellTable.GenerateUniformGrid` states exact neighbour lists only for the first level of children. For the deeper levels, `Shaped` states that every sibling link and every stitched pair is present. It does not state that nothing else is linked.
- `GridElements.CellTable.ConnectTo` and the other wiring members state neighbour lists by membership, not by the order of entries.
- Integers are unbounded. C# `int` is 32 bits, so in the source `To1D`, the product W·H·D and the loop counters wrap around for extents whose product passes 2^31 − 1. The model does not capture that wrap-around.
- `Painting.VegetationCollection.constructor` stores the plants as a sequence value. In the source the collection keeps the caller's `List` object itself, so a later `AddPlant` also grows the caller's list. That aliasing is not modelled.
- `Painting.SceneObject.Update` does not move the object's registration. The source does not either: the old element keeps the entry.
- `PlantDefinition` fields that only feed gameplay are carried as constants and nothing is stated about them: rarity, placement timer, size group and `_object`.
- `Painter` is modelled only through its painter-type switches. `Start`, `Update`, `PlaceVegetation`, `RemoveVegetation`, `SetVisible`/`SetInvisible`, the noise maps and randomness are gameplay driven by Unity input, rendering and random numbers. The `Plant` class and the cluster structs are not modelled either.
- `Maths.mix` is a float interpolation used only for interface colours.

## Findings

| source | as written | input that shows it | evidently intended | confidence | as-written member | corrected member |
|---|---|---|---|---|---|---|
| VegetationEngine/Assets/Code/GridManager.cs:296 | The x stitching pass is guarded by `x < _childHeight - 1`. The y and z passes compare with their own extents. | Take dimensions (2,3,2), (1,1,1), (1,1,1). At child (1, 0, 0) the guard holds (1 < 2), but xPos = To1D(2, 0, 0) = 12 indexes past the 12 children, so the list indexer throws. With a 3 × 1 × 1 level the x pass never runs, and neither does it for the shipped 2 × 1 × 2 top level. | `x < _childWidth - 1`, the last x layer having no next child | not executed | GridBuild.XGuardOverruns | GridBuild.GuardExact |
| VegetationEngine/Assets/Code/Painter.cs:96-104 | RecoverCooldown sets `_canPlace` back to true only when the cooldown is back at its maximum. The comment at Painter.cs:53-55 says a drained plant waits until the threshold is reached. | With the shipped cooldown (maximum 10, threshold 1, cost 1), ten `DrainCooldown` calls, which the comment at Painter.cs:53 says each spawn should make, drain a plant to 0 and block it. A recovery of 1 brings it to the threshold, and it still may not spawn. The defect is latent: nothing in the source calls `DrainCooldown` or `RecoverCooldown`, or reads `CanPlace`. | `_canPlace` becomes true once the cooldown is at the threshold or above | not executed | Painting.RecoverKeepsBlocked | Painting.RecoverToThreshold |
