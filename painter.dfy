/**
 * The handles and small state machines of Painter.cs that sit on the grid:
 * SceneObject (an entity bound to a grid element), PlantDefinition (the
 * spawning cooldown), VegetationCollection (species numbering and the
 * largest spawning radius) and the painter-type switches of Painter.
 * Unity's float is modelled as `real`.
 */
module Painting {
  import opened Wrappers
  import opened Lists
  import opened Geometry
  import opened GridSpec
  import opened GridElements
  import opened GridManagers

  // ---------------------------------------------------------------------
  // SceneObject
  // ---------------------------------------------------------------------

  /** An entity placed in the world. `id` stands for the object's identity
      in the element lists, `position` for its transform's position. */
  class SceneObject {
    const id: ObjId
    var gridPosition: Option<CellId>
    var position: Vec3

    /** Binds the object to `element` and registers it there exactly once. */
    constructor (t: CellTable, id: ObjId, position: Vec3, element: CellId)
      requires t.Valid() && element < |t.cells|
      modifies t
      ensures this.id == id && this.position == position && gridPosition == Some(element)
      ensures t.Valid()
      ensures t.cells == old(t.cells)[element := old(t.cells[element]).(objects := old(t.cells[element].objects) + [id])]
    {
      this.id := id;
      this.position := position;
      gridPosition := Some(element);
      new;
      t.Register(element, id);
    }

    /** Remove: unregisters the object from the element it is bound to. */
    method Remove(t: CellTable)
      requires t.Valid() && gridPosition.Some? && gridPosition.value < |t.cells|
      modifies t
      ensures t.Valid()
      ensures t.cells == old(t.cells)[gridPosition.value :=
        old(t.cells[gridPosition.value]).(objects := RemoveFirst(old(t.cells[gridPosition.value].objects), id))]
    {
      t.Unregister(gridPosition.value, id);
    }

    /** Update: keeps the element while it still contains the position, and
        otherwise looks up the leaf of grid 0 that does (null when none
        does). The element lists are left as they are: the object stays
        registered with the element it was created on. */
    method Update(t: CellTable, manager: GridManager)
      requires gridPosition.Some? && gridPosition.value < |t.cells|
      requires WellFormed(t.cells) && Intact(t.cells)
      requires forall k :: 0 <= k < |manager.grids| ==> manager.grids[k] < |t.cells|
      modifies this
      ensures position == old(position)
      ensures Contains(t.cells[old(gridPosition).value].box, position) ==> gridPosition == old(gridPosition)
      ensures !Contains(t.cells[old(gridPosition).value].box, position) ==>
        gridPosition == (if |manager.grids| == 0 then None else Resolve(t.cells, manager.grids[0], position))
    {
      if Contains(t.cells[gridPosition.value].box, position) {
        return;
      }
      gridPosition := manager.GetContainingGridElement(t, 0, position);
    }
  }

  // ---------------------------------------------------------------------
  // PlantDefinition
  // ---------------------------------------------------------------------

  /** The mutable part of a plant definition: its cooldown level and
      whether it may spawn. */
  datatype Cooldown = Cooldown(level: real, canPlace: bool)

  /** RecoverCooldown: the level rises by `amount` up to `max`, and the plant
      may spawn again once the level is full. */
  function Recover(c: Cooldown, amount: real, max: real): (r: Cooldown)
    ensures r.level <= max && r.level <= c.level + amount
    ensures r.level == max || r.level == c.level + amount
    ensures r.level == max ==> r.canPlace
    ensures r.level != max ==> r.canPlace == c.canPlace
  {
    var level := if c.level + amount > max then max else c.level + amount;
    Cooldown(level, if level == max then true else c.canPlace)
  }

  /** DrainCooldown: the level falls by exactly `cost`, with no lower bound,
      and the plant stops spawning once the level is below `threshold`. */
  function Drain(c: Cooldown, cost: real, threshold: real): (r: Cooldown)
    ensures r.level + cost == c.level
    ensures r.canPlace <==> c.canPlace && threshold <= r.level
  {
    var level := c.level - cost;
    Cooldown(level, if level < threshold then false else c.canPlace)
  }

  /** One spawning event of a plant's life. */
  datatype CooldownEvent = Recovered(amount: real) | Drained

  /** The cooldown after a sequence of events. */
  function Replay(c: Cooldown, events: seq<CooldownEvent>, max: real, threshold: real, cost: real): Cooldown
    decreases |events|
  {
    if events == [] then c
    else
      var next := match events[0]
        case Recovered(amount) => Recover(c, amount, max)
        case Drained => Drain(c, cost, threshold);
      Replay(next, events[1..], max, threshold, cost)
  }

  /** The state machine's invariant: the level never exceeds the maximum,
      and a plant that may not spawn is still below it. */
  predicate CooldownInvariant(c: Cooldown, max: real) {
    c.level <= max && (!c.canPlace ==> c.level < max)
  }

  /** With a non-negative cost and a threshold at most the maximum, every
      sequence of recoveries and drains from the constructor's state (full
      level, may spawn) keeps the invariant. */
  lemma {:induction false} ReplayKeepsInvariant(c: Cooldown, events: seq<CooldownEvent>, max: real, threshold: real, cost: real)
    requires CooldownInvariant(c, max) && 0.0 <= cost && threshold <= max
    ensures CooldownInvariant(Replay(c, events, max, threshold, cost), max)
    decreases |events|
  {
    if events != [] {
      var next := match events[0]
        case Recovered(amount) => Recover(c, amount, max)
        case Drained => Drain(c, cost, threshold);
      assert CooldownInvariant(next, max);
      ReplayKeepsInvariant(next, events[1..], max, threshold, cost);
    }
  }

  /** A drain followed by a recovery of the same amount restores the level
      of a plant that was not above its maximum. */
  lemma {:induction false} DrainThenRecover(c: Cooldown, cost: real, threshold: real, max: real)
    requires c.level <= max
    ensures Recover(Drain(c, cost, threshold), cost, max).level == c.level
  {
  }

  /** A plant at full level can spawn after a drain and a full recovery,
      whatever the drain did to its flag. */
  lemma {:induction false} RecoverRestoresPlacing(c: Cooldown, cost: real, threshold: real, max: real)
    requires c.level == max
    ensures Recover(Drain(c, cost, threshold), cost, max) == Cooldown(max, true)
  {
  }

  /** As written, a blocked plant whose level climbs back to the threshold
      but stays below the maximum is still blocked. With the shipped
      cooldown (maximum 10, threshold 1, cost 1), ten DrainCooldown calls,
      one per spawn as the comment on the cooldown fields intends, drain a
      plant to 0 and block it, and a recovery of 1 brings it to the
      threshold without letting it spawn. */
  lemma {:induction false} RecoverKeepsBlocked(c: Cooldown, amount: real, threshold: real, max: real)
    requires !c.canPlace && threshold <= c.level + amount < max
    ensures var r := Recover(c, amount, max); threshold <= r.level && !r.canPlace
    ensures var d := Drained;
      Replay(Cooldown(10.0, true), [d, d, d, d, d, d, d, d, d, d, Recovered(1.0)], 10.0, 1.0, 1.0) == Cooldown(1.0, false)
  {
    var d := Drained;
    var events := [d, d, d, d, d, d, d, d, d, d, Recovered(1.0)];
    var k := 0;
    var c' := Cooldown(10.0, true);
    while k < 10
      invariant 0 <= k <= 10
      invariant c' == Cooldown(10.0 - k as real, 10.0 - k as real >= 1.0)
      invariant Replay(Cooldown(10.0, true), events, 10.0, 1.0, 1.0) == Replay(c', events[k..], 10.0, 1.0, 1.0)
    {
      assert events[k..][1..] == events[k + 1..];
      c' := Drain(c', 1.0, 1.0);
      k := k + 1;
    }
    assert events[10..] == [Recovered(1.0)];
  }

  /** RecoverCooldown as the comment on the cooldown fields describes it: a
      blocked plant may spawn again once its level is back at the threshold. */
  function RecoverToThreshold(c: Cooldown, amount: real, threshold: real, max: real): (r: Cooldown)
    ensures r.level == Recover(c, amount, max).level
    ensures r.canPlace <==> c.canPlace || threshold <= r.level
  {
    var level := Recover(c, amount, max).level;
    Cooldown(level, c.canPlace || threshold <= level)
  }

  /** With the intended recovery, the flag is exactly "the level is at or
      above the threshold" at every step, for non-negative amounts and
      costs: draining and recovering both keep that. */
  lemma {:induction false} ThresholdDecidesPlacing(c: Cooldown, amount: real, cost: real, threshold: real, max: real)
    requires c.level <= max && threshold <= max && 0.0 <= amount && 0.0 <= cost
    requires c.canPlace <==> threshold <= c.level
    ensures var r := RecoverToThreshold(c, amount, threshold, max); r.canPlace <==> threshold <= r.level
    ensures var r := Drain(c, cost, threshold); r.canPlace <==> threshold <= r.level
  {
  }

  class PlantDefinition {
    const speciesName: string
    const speciesRadius: real
    const sizeGroupRadius: real
    const sizeGroup: int
    const rarityRange: int
    const rarityThreshold: int
    const placementTimer: real
    const speciesCooldownMax: real
    const speciesCooldownThreshold: real
    const speciesCooldownCost: real
    var speciesID: int
    var speciesCooldown: real
    var canPlace: bool

    /** The cooldown starts full and the plant may spawn; the species number
        keeps its default of 0 until a collection assigns one. */
    constructor (species: string, speciesRadius: real, sizeGroupRadius: real, sizeGroup: int,
                 rarityRange: int, rarityThreshold: int, placementTimer: real,
                 speciesCooldownMax: real, speciesCooldownThreshold: real, speciesCooldownCost: real)
      ensures speciesName == species && this.speciesRadius == speciesRadius
      ensures this.sizeGroupRadius == sizeGroupRadius && this.sizeGroup == sizeGroup
      ensures this.rarityRange == rarityRange && this.rarityThreshold == rarityThreshold
      ensures this.placementTimer == placementTimer && this.speciesCooldownMax == speciesCooldownMax
      ensures this.speciesCooldownThreshold == speciesCooldownThreshold
      ensures this.speciesCooldownCost == speciesCooldownCost
      ensures speciesID == 0 && State() == Cooldown(speciesCooldownMax, true)
      ensures CooldownInvariant(State(), speciesCooldownMax)
    {
      speciesName := species;
      this.speciesRadius := speciesRadius;
      this.sizeGroupRadius := sizeGroupRadius;
      this.sizeGroup := sizeGroup;
      this.rarityRange := rarityRange;
      this.rarityThreshold := rarityThreshold;
      this.placementTimer := placementTimer;
      speciesCooldown := speciesCooldownMax;
      this.speciesCooldownMax := speciesCooldownMax;
      this.speciesCooldownThreshold := speciesCooldownThreshold;
      this.speciesCooldownCost := speciesCooldownCost;
      canPlace := true;
      speciesID := 0;
    }

    function State(): Cooldown
      reads this
    {
      Cooldown(speciesCooldown, canPlace)
    }

    method RecoverCooldown(amount: real)
      modifies this`speciesCooldown, this`canPlace
      ensures State() == Recover(old(State()), amount, speciesCooldownMax)
    {
      speciesCooldown := speciesCooldown + amount;
      if speciesCooldown > speciesCooldownMax {
        speciesCooldown := speciesCooldownMax;
      }
      if speciesCooldown == speciesCooldownMax {
        canPlace := true;
      }
    }

    method DrainCooldown()
      modifies this`speciesCooldown, this`canPlace
      ensures State() == Drain(old(State()), speciesCooldownCost, speciesCooldownThreshold)
    {
      speciesCooldown := speciesCooldown - speciesCooldownCost;
      if speciesCooldown < speciesCooldownThreshold {
        canPlace := false;
      }
    }
  }

  /** operator ==: two plant definitions are equal when their species
      numbers are. */
  predicate SameSpecies(a: PlantDefinition, b: PlantDefinition)
    reads a, b
  {
    a.speciesID == b.speciesID
  }

  /** operator !=: compares the species numbers with `!=`. */
  predicate OtherSpecies(a: PlantDefinition, b: PlantDefinition)
    reads a, b
  {
    a.speciesID != b.speciesID
  }

  /** `!=` is the negation of `==`, and `==` is an equivalence. */
  lemma {:induction false} SpeciesEquality(a: PlantDefinition, b: PlantDefinition, c: PlantDefinition)
    ensures OtherSpecies(a, b) <==> !SameSpecies(a, b)
    ensures SameSpecies(a, a)
    ensures SameSpecies(a, b) <==> SameSpecies(b, a)
    ensures SameSpecies(a, b) && SameSpecies(b, c) ==> SameSpecies(a, c)
  {
  }

  // ---------------------------------------------------------------------
  // VegetationCollection
  // ---------------------------------------------------------------------

  /** One step of the maximum-radius update: a larger species radius is
      taken; only when it is not larger is the size-group radius looked at. */
  function MaxStep(m: real, speciesRadius: real, sizeGroupRadius: real): (r: real)
    ensures m <= r && speciesRadius <= r
    ensures r == m || r == speciesRadius || r == sizeGroupRadius
    ensures speciesRadius > m ==> r == speciesRadius
  {
    if speciesRadius > m then speciesRadius
    else if sizeGroupRadius > m then sizeGroupRadius
    else m
  }

  /** The largest radius a collection of plants records, starting from 0. */
  function MaxRadius(plants: seq<PlantDefinition>): (r: real)
    ensures 0.0 <= r
    ensures forall i :: 0 <= i < |plants| ==> plants[i].speciesRadius <= r
  {
    if plants == [] then 0.0
    else
      var last := plants[|plants| - 1];
      MaxStep(MaxRadius(plants[..|plants| - 1]), last.speciesRadius, last.sizeGroupRadius)
  }

  /** Adding plants never lowers the recorded maximum. */
  lemma {:induction false} MaxRadiusMonotone(plants: seq<PlantDefinition>, k: nat)
    requires k <= |plants|
    ensures MaxRadius(plants[..k]) <= MaxRadius(plants)
    decreases |plants| - k
  {
    if k < |plants| {
      MaxRadiusMonotone(plants, k + 1);
      assert plants[..k + 1][..k] == plants[..k];
    } else {
      assert plants[..k] == plants;
    }
  }

  /** Because of the `else if`, a size-group radius is ignored when the
      same plant's species radius already raises the maximum: a plant of
      radii (10, 50) after a maximum of 3 records 10, not 50. */
  lemma {:induction false} SizeGroupRadiusShadowed()
    ensures MaxStep(3.0, 10.0, 50.0) == 10.0
    ensures exists m, s, g :: MaxStep(m, s, g) < g
  {
    assert MaxStep(3.0, 10.0, 50.0) < 50.0;
  }

  /** Each plant carries the number of its last position in the list (a
      plant listed twice keeps the later number). */
  ghost predicate Numbered(plants: seq<PlantDefinition>)
    reads plants
  {
    forall i :: 0 <= i < |plants| && (forall j :: i < j < |plants| ==> plants[j] != plants[i]) ==>
      plants[i].speciesID == i
  }

  /** Distinct plants of a numbered list compare equal exactly at the same
      position. */
  lemma {:induction false} NumberedSpecies(plants: seq<PlantDefinition>, i: int, j: int)
    requires Numbered(plants) && Distinct(plants)
    requires 0 <= i < |plants| && 0 <= j < |plants|
    ensures SameSpecies(plants[i], plants[j]) <==> i == j
  {
    assert forall k :: i < k < |plants| ==> plants[k] != plants[i];
    assert forall k :: j < k < |plants| ==> plants[k] != plants[j];
  }

  class VegetationCollection {
    var plants: seq<PlantDefinition>
    var maxRadius: real

    /** Numbers the plants by position and records the largest radius. */
    constructor (plants: seq<PlantDefinition>)
      modifies plants`speciesID
      ensures this.plants == plants
      ensures Numbered(plants) && maxRadius == MaxRadius(plants)
    {
      this.plants := plants;
      maxRadius := 0.0;
      new;
      for plantID := 0 to |plants|
        invariant this.plants == plants
        invariant maxRadius == MaxRadius(plants[..plantID])
        invariant forall i :: 0 <= i < plantID && (forall j :: i < j < plantID ==> plants[j] != plants[i]) ==>
          plants[i].speciesID == i
      {
        var plant := plants[plantID];
        plant.speciesID := plantID;
        assert plants[..plantID + 1][..plantID] == plants[..plantID];
        if plant.speciesRadius > maxRadius {
          maxRadius := plant.speciesRadius;
        } else if plant.sizeGroupRadius > maxRadius {
          maxRadius := plant.sizeGroupRadius;
        }
      }
      assert plants[..|plants|] == plants;
    }

    /** AddPlant: the plant is numbered by the current count and appended,
        and the maximum radius is updated as in the constructor. */
    method AddPlant(plant: PlantDefinition)
      modifies this, plant`speciesID
      ensures plants == old(plants) + [plant] && plant.speciesID == old(|plants|)
      ensures maxRadius == MaxStep(old(maxRadius), plant.speciesRadius, plant.sizeGroupRadius)
      ensures old(maxRadius) <= maxRadius
      ensures old(Numbered(plants)) ==> Numbered(plants)
      ensures old(maxRadius) == MaxRadius(old(plants)) ==> maxRadius == MaxRadius(plants)
    {
      ghost var before := plants;
      plant.speciesID := |plants|;
      plants := plants + [plant];
      if old(Numbered(plants)) {
        forall i | 0 <= i < |plants| && (forall j :: i < j < |plants| ==> plants[j] != plants[i])
          ensures plants[i].speciesID == i
        {
          if i < |before| {
            assert plants[i] == before[i] && plants[|before|] == plant;
            assert forall j :: i < j < |before| ==> before[j] == plants[j];
            assert old(before[i].speciesID) == i;
          }
        }
      }
      assert plants[..|plants| - 1] == old(plants);
      if plant.speciesRadius > maxRadius {
        maxRadius := plant.speciesRadius;
      } else if plant.sizeGroupRadius > maxRadius {
        maxRadius := plant.sizeGroupRadius;
      }
    }
  }

  // ---------------------------------------------------------------------
  // Painter: painter-type switches
  // ---------------------------------------------------------------------

  /** The painter-type groups of the shipped painter. */
  const PainterTypes: seq<seq<int>> := [[0, 1, 2, 3], [4, 5, 6], [8, 9, 10]]

  /** No value occurs twice, within a group or across groups. */
  predicate Disjoint(types: seq<seq<int>>) {
    forall g, h, i, j ::
      (0 <= g < |types| && 0 <= h < |types| && 0 <= i < |types[g]| && 0 <= j < |types[h]| &&
       types[g][i] == types[h][j]) ==> g == h && i == j
  }

  lemma {:induction false} PainterTypesDisjoint()
    ensures Disjoint(PainterTypes)
  {
    var t := PainterTypes;
    assert t[0] == [0, 1, 2, 3] && t[1] == [4, 5, 6] && t[2] == [8, 9, 10];
    assert forall g, i :: 0 <= g < 3 && 0 <= i < |t[g]| ==> t[g][i] == (if g == 0 then i else if g == 1 then 4 + i else 8 + i);
  }

  /** Removes the first occurrence of each value of `group`, in order. */
  function RemoveEach(list: seq<int>, group: seq<int>): (r: seq<int>)
    ensures multiset(r) == multiset(list) - multiset(group)
  {
    if group == [] then list
    else
      var init := group[..|group| - 1];
      assert group == init + [group[|group| - 1]];
      RemoveFirst(RemoveEach(list, init), group[|group| - 1])
  }

  /** setPainterType on the flags and the list: nothing when the flag
      already has the requested state, else the group's values are appended
      when enabling or removed one by one when disabling. */
  function SetType(types: seq<seq<int>>, flags: seq<bool>, list: seq<int>, index: int, state: bool): seq<int>
    requires |flags| == |types| && 0 <= index < |types|
  {
    if state == flags[index] then list
    else if state then list + types[index]
    else RemoveEach(list, types[index])
  }

  /** How often v occurs among the values of the enabled groups. */
  function Occurrences(types: seq<seq<int>>, flags: seq<bool>, v: int): nat
    requires |flags| == |types|
  {
    if types == [] then 0
    else
      var n := |types| - 1;
      Occurrences(types[..n], flags[..n], v) + (if flags[n] then multiset(types[n])[v] else 0)
  }

  /** The list holds exactly the values of the enabled groups. */
  ghost predicate Consistent(types: seq<seq<int>>, flags: seq<bool>, list: seq<int>) {
    |flags| == |types| && forall v :: multiset(list)[v] == Occurrences(types, flags, v)
  }

  /** Switching group k from its state to `state` adds or takes away exactly
      that group's values. */
  lemma {:induction false} OccurrencesUpdate(types: seq<seq<int>>, flags: seq<bool>, k: int, state: bool, v: int)
    requires |flags| == |types| && 0 <= k < |types|
    ensures Occurrences(types, flags[k := state], v) + (if flags[k] then multiset(types[k])[v] else 0)
         == Occurrences(types, flags, v) + (if state then multiset(types[k])[v] else 0)
  {
    var n := |types| - 1;
    var nf := flags[k := state];
    if k < n {
      assert nf[..n] == flags[..n][k := state] && nf[n] == flags[n];
      OccurrencesUpdate(types[..n], flags[..n], k, state, v);
      assert types[..n][k] == types[k] && flags[..n][k] == flags[k];
    } else {
      assert nf[..n] == flags[..n] && nf[n] == state;
    }
  }

  /** A value occurs in no group or in exactly one, and once there. */
  lemma {:induction false} DisjointPrefix(types: seq<seq<int>>, n: nat)
    requires Disjoint(types) && n <= |types|
    ensures Disjoint(types[..n])
  {
    assert forall g :: 0 <= g < n ==> types[..n][g] == types[g];
  }

  /** Under disjointness, a value counts once among the enabled values when
      its group is enabled and not at all otherwise. */
  lemma {:induction false} OccurrencesCount(types: seq<seq<int>>, flags: seq<bool>, v: int)
    requires |flags| == |types| && Disjoint(types)
    ensures Occurrences(types, flags, v) == if exists g :: 0 <= g < |types| && flags[g] && v in types[g] then 1 else 0
  {
    if types != [] {
      var n := |types| - 1;
      DisjointPrefix(types, n);
      OccurrencesCount(types[..n], flags[..n], v);
      var last := types[n];
      assert multiset(last)[v] == if v in last then 1 else 0 by {
        DistinctCount(last, v);
      }
      if v in last {
        var j :| 0 <= j < |last| && last[j] == v;
        forall g | 0 <= g < n ensures v !in types[..n][g] {
          assert types[..n][g] == types[g];
        }
      }
      if exists g :: 0 <= g < |types| && flags[g] && v in types[g] {
        var g :| 0 <= g < |types| && flags[g] && v in types[g];
        if g < n {
          assert flags[..n][g] && v in types[..n][g];
        }
      }
      if exists g :: 0 <= g < n && flags[..n][g] && v in types[..n][g] {
        var g :| 0 <= g < n && flags[..n][g] && v in types[..n][g];
        assert flags[g] && v in types[g];
      }
    }
  }

  /** A sequence without repetitions holds each of its values once. */
  lemma {:induction false} DistinctCount(s: seq<int>, v: int)
    requires Distinct(s)
    ensures multiset(s)[v] == if v in s then 1 else 0
  {
    if s != [] {
      assert s == [s[0]] + s[1..];
      assert Distinct(s[1..]);
      DistinctCount(s[1..], v);
    }
  }

  /** setPainterType keeps the list consistent with the flags. */
  lemma {:induction false} SetTypeConsistent(types: seq<seq<int>>, flags: seq<bool>, list: seq<int>, index: int, state: bool)
    requires Consistent(types, flags, list) && 0 <= index < |types|
    ensures Consistent(types, flags[index := state], SetType(types, flags, list, index, state))
  {
    var nf := flags[index := state];
    var r := SetType(types, flags, list, index, state);
    if state != flags[index] {
      forall v ensures multiset(r)[v] == Occurrences(types, nf, v) {
        OccurrencesUpdate(types, flags, index, state, v);
      }
    } else {
      assert nf == flags;
    }
  }

  /** Removing values that were appended after a prefix not holding them
      gives back the prefix and the suffix. */
  lemma {:induction false} RemoveEachAppended(s: seq<int>, group: seq<int>, t: seq<int>)
    requires forall v :: v in group ==> v !in s
    ensures RemoveEach(s + group + t, group) == s + t
  {
    if group != [] {
      var init := group[..|group| - 1];
      var last := group[|group| - 1];
      assert group == init + [last];
      assert s + group + t == s + init + ([last] + t);
      RemoveEachAppended(s, init, [last] + t);
      RemoveFirstAfter(s, last, t);
    }
  }

  /** Removing a value absent from the prefix removes it from what follows. */
  lemma {:induction false} RemoveFirstAfter(s: seq<int>, v: int, t: seq<int>)
    requires v !in s
    ensures RemoveFirst(s + ([v] + t), v) == s + t
  {
    var u := s + ([v] + t);
    assert u[|s|] == v;
    RemoveFirstAt(u, v);
    assert IndexOf(u, v) == Some(|s|) by {
      assert forall k :: 0 <= k < |s| ==> u[k] == s[k];
    }
    assert u[..|s|] == s && u[|s| + 1..] == t;
  }

  /** With every group disabled, nothing is enabled. */
  lemma {:induction false} NoneEnabled(types: seq<seq<int>>, flags: seq<bool>, v: int)
    requires |flags| == |types| && forall g :: 0 <= g < |flags| ==> !flags[g]
    ensures Occurrences(types, flags, v) == 0
  {
    if types != [] {
      NoneEnabled(types[..|types| - 1], flags[..|types| - 1], v);
    }
  }

  /** Two lists consistent with the same flags hold the same values. */
  lemma {:induction false} ConsistentSameValues(types: seq<seq<int>>, flags: seq<bool>, a: seq<int>, b: seq<int>)
    requires Consistent(types, flags, a) && Consistent(types, flags, b)
    ensures multiset(a) == multiset(b)
  {
    forall v ensures multiset(a)[v] == multiset(b)[v] {
    }
  }

  /** Enabling a disabled group and disabling it again gives back the list. */
  lemma {:induction false} EnableThenDisable(types: seq<seq<int>>, flags: seq<bool>, list: seq<int>, index: int)
    requires Consistent(types, flags, list) && Disjoint(types) && 0 <= index < |types| && !flags[index]
    ensures RemoveEach(list + types[index], types[index]) == list
  {
    forall v | v in types[index] ensures v !in list {
      OccurrencesCount(types, flags, v);
    }
    RemoveEachAppended(list, types[index], []);
    assert list + types[index] + [] == list + types[index];
    assert list + [] == list;
  }

  /** Toggling a disabled group twice gives back the very same list; toggling
      an enabled group twice gives back the same values, the group's moved
      to the end. */
  lemma {:induction false} ToggleTwice(types: seq<seq<int>>, flags: seq<bool>, list: seq<int>, index: int)
    requires Consistent(types, flags, list) && Disjoint(types) && 0 <= index < |types|
    ensures var once := SetType(types, flags, list, index, !flags[index]);
      var twice := SetType(types, flags[index := !flags[index]], once, index, flags[index]);
      && multiset(twice) == multiset(list)
      && (!flags[index] ==> twice == list)
  {
    var flipped := flags[index := !flags[index]];
    var once := SetType(types, flags, list, index, !flags[index]);
    var twice := SetType(types, flipped, once, index, flags[index]);
    SetTypeConsistent(types, flags, list, index, !flags[index]);
    SetTypeConsistent(types, flipped, once, index, flags[index]);
    assert flipped[index := flags[index]] == flags;
    ConsistentSameValues(types, flags, twice, list);
    if !flags[index] {
      EnableThenDisable(types, flags, list, index);
    }
  }

  class Painter {
    const painterTypes: seq<seq<int>> := PainterTypes
    const painterTypesCurrent: array<bool>
    var painterTypesCurrentArray: seq<int>

    /** All groups start disabled and the list empty. */
    constructor ()
      ensures fresh(painterTypesCurrent) && painterTypesCurrent[..] == [false, false, false]
      ensures painterTypesCurrentArray == [] && Valid()
    {
      painterTypesCurrent := new bool[3](_ => false);
      painterTypesCurrentArray := [];
      new;
      assert painterTypesCurrent[..] == [false, false, false];
      forall v ensures Occurrences(painterTypes, painterTypesCurrent[..], v) == 0 {
        NoneEnabled(painterTypes, painterTypesCurrent[..], v);
      }
    }

    /** The list holds exactly the values of the enabled groups. */
    ghost predicate Valid()
      reads this, painterTypesCurrent
    {
      Consistent(painterTypes, painterTypesCurrent[..], painterTypesCurrentArray)
    }

    method SetPainterType(index: int, state: bool)
      requires 0 <= index < 3 && painterTypesCurrent.Length == 3
      modifies this, painterTypesCurrent
      ensures painterTypesCurrent[..] == old(painterTypesCurrent[..])[index := state]
      ensures painterTypesCurrentArray ==
        SetType(painterTypes, old(painterTypesCurrent[..]), old(painterTypesCurrentArray), index, state)
      ensures old(Valid()) ==> Valid()
    {
      ghost var flags := painterTypesCurrent[..];
      ghost var list := painterTypesCurrentArray;
      if state == painterTypesCurrent[index] {
        assert flags[index := state] == flags;
        return;
      }
      if state {
        AddGroup(painterTypes[index]);
      } else {
        RemoveGroup(painterTypes[index]);
      }
      painterTypesCurrent[index] := state;
      assert painterTypesCurrent[..] == flags[index := state];
      if Consistent(painterTypes, flags, list) {
        SetTypeConsistent(painterTypes, flags, list, index, state);
      }
    }

    /** The enabling loop of setPainterType: appends the group's values. */
    method AddGroup(group: seq<int>)
      modifies this
      ensures painterTypesCurrentArray == old(painterTypesCurrentArray) + group
    {
      ghost var list := painterTypesCurrentArray;
      for i := 0 to |group|
        invariant painterTypesCurrentArray == list + group[..i]
      {
        assert group[..i + 1] == group[..i] + [group[i]];
        painterTypesCurrentArray := painterTypesCurrentArray + [group[i]];
      }
      assert group[..|group|] == group;
    }

    /** The disabling loop of setPainterType: removes the first occurrence of
        each of the group's values. */
    method RemoveGroup(group: seq<int>)
      modifies this
      ensures painterTypesCurrentArray == RemoveEach(old(painterTypesCurrentArray), group)
    {
      ghost var list := painterTypesCurrentArray;
      for i := 0 to |group|
        invariant painterTypesCurrentArray == RemoveEach(list, group[..i])
      {
        assert group[..i + 1][..i] == group[..i];
        painterTypesCurrentArray := RemoveFirst(painterTypesCurrentArray, group[i]);
      }
      assert group[..|group|] == group;
    }

    method TogglePainterType(index: int)
      requires 0 <= index < 3 && painterTypesCurrent.Length == 3
      modifies this, painterTypesCurrent
      ensures painterTypesCurrent[..] == old(painterTypesCurrent[..])[index := !old(painterTypesCurrent[index])]
      ensures painterTypesCurrentArray ==
        SetType(painterTypes, old(painterTypesCurrent[..]), old(painterTypesCurrentArray), index, !old(painterTypesCurrent[index]))
      ensures old(Valid()) ==> Valid()
    {
      SetPainterType(index, !painterTypesCurrent[index]);
    }
  }
}
