/**
 * The plugin's agent registry as the objects the handlers update in place: the
 * `agents` and `agentInventories` maps, and each inventory's slot array and active
 * slot. Every handler is proved to leave exactly the registry and world that its
 * function in `AgentSpec` describes; the properties are proved there.
 */
module Plugin {
  import opened Basics
  import opened Text
  import opened Geometry
  import opened PluginHelpers
  import opened AgentSpec

  /** Storing twice under one key keeps the second value. */
  lemma ReplaceTwice<V>(m: map<string, V>, key: string, first: V, second: V)
    ensures m[key := first][key := second] == m[key := second]
  {
  }

  /** `AgentInventory`: 27 slots, none active at first. */
  class AgentInventory {
    const slots: array<Option<Item>>
    var activeSlot: int

    constructor ()
      ensures fresh(slots) && slots.Length == SlotCount
      ensures View() == EmptyInventory()
    {
      slots := new Option<Item>[SlotCount](_ => None);
      activeSlot := -1;
      new;
      assert slots[..] == EmptyInventory().slots;
    }

    /** The inventory's contents as a value. */
    function View(): InventoryView
      reads this, slots
    {
      InventoryView(slots[..], activeSlot)
    }
  }

  /** The two registry maps of the plugin. */
  class AgentRegistry {
    var agents: map<string, AgentEntry>
    var agentInventories: map<string, AgentInventory>
    /** The contents of each inventory, kept in step with the objects. */
    ghost var inventoryViews: map<string, InventoryView>
    ghost var Repr: set<object>

    /** Every inventory is a separate object with its own 27-slot array, whose contents
        `inventoryViews` records. */
    ghost predicate Valid()
      reads this, Repr
    {
      && this in Repr
      && agentInventories.Keys == inventoryViews.Keys
      && (forall k :: k in agentInventories ==>
            && agentInventories[k] in Repr
            && agentInventories[k].slots in Repr
            && agentInventories[k].slots.Length == SlotCount
            && agentInventories[k].View() == inventoryViews[k])
      && (forall k, k' :: k in agentInventories && k' in agentInventories && k != k' ==>
            && agentInventories[k] != agentInventories[k']
            && agentInventories[k].slots != agentInventories[k'].slots)
      && WellFormed(Model())
    }

    /** The registry as a value. */
    ghost function Model(): Registry
      reads this
    {
      Registry(agents, inventoryViews)
    }

    /** An empty registry, as the plugin starts. */
    constructor ()
      ensures Valid() && fresh(Repr)
      ensures Model() == Registry(map[], map[])
    {
      agents := map[];
      agentInventories := map[];
      inventoryViews := map[];
      Repr := {this};
    }

    /** `getAgentEntity`: whether the stand `id` is live; when it is gone, every agent
        entry naming it is removed. */
    method GetAgentEntity(world: World, id: EntityId) returns (live: bool)
      requires Valid()
      modifies this
      ensures Valid() && Repr == old(Repr) && agentInventories == old(agentInventories)
      ensures inventoryViews == old(inventoryViews)
      ensures live <==> id in world.stands
      ensures agents == if live then old(agents) else Evict(old(agents), id)
    {
      live := id in world.stands;
      if !live {
        agents := Evict(agents, id);
      }
    }

    /** `agentInventories.computeIfAbsent(key, k -> new AgentInventory())`. */
    method InventoryFor(key: string) returns (inv: AgentInventory)
      requires Valid()
      modifies this
      ensures Valid() && fresh(Repr - old(Repr))
      ensures key in agentInventories && agentInventories[key] == inv
      ensures agents == old(agents) && inv.View() == inventoryViews[key] == InventoryOrNew(old(inventoryViews), key)
      ensures Model() == old(Model()).(inventories := old(Model()).inventories[key := InventoryOrNew(old(Model()).inventories, key)])
    {
      if key in agentInventories {
        inv := agentInventories[key];
        assert inventoryViews[key := inventoryViews[key]] == inventoryViews;
      } else {
        inv := new AgentInventory();
        agentInventories := agentInventories[key := inv];
        inventoryViews := inventoryViews[key := inv.View()];
        Repr := Repr + {inv, inv.slots};
      }
    }

    /** `agentInventories.get(key).slots[index] = item`: one slot of one inventory. */
    method StoreInSlot(key: string, index: int, item: Option<Item>)
      requires Valid() && key in agentInventories && 0 <= index < SlotCount
      modifies this, agentInventories[key].slots
      ensures Valid() && Repr == old(Repr) && agents == old(agents) && agentInventories == old(agentInventories)
      ensures agentInventories[key].View() == inventoryViews[key]
      ensures inventoryViews == old(inventoryViews)[key := old(inventoryViews)[key].(slots := old(inventoryViews)[key].slots[index := item])]
    {
      var inventory := agentInventories[key];
      inventory.slots[index] := item;
      inventoryViews := inventoryViews[key := inventory.View()];
    }

    /** `agentInventories.get(key).activeSlot = index`. */
    method SetActiveSlot(key: string, index: int)
      requires Valid() && key in agentInventories
      modifies this, agentInventories[key]
      ensures Valid() && Repr == old(Repr) && agents == old(agents) && agentInventories == old(agentInventories)
      ensures inventoryViews == old(inventoryViews)[key := old(inventoryViews)[key].(activeSlot := index)]
    {
      var inventory := agentInventories[key];
      inventory.activeSlot := index;
      inventoryViews := inventoryViews[key := inventory.View()];
    }

    /** `handleAgentTeleportToPlayer`; `spawn` is the id the server gives a new stand,
        or nothing when spawning fails. */
    method HandleAgentTeleportToPlayer(srv: Server, world: World, agentId: Option<string>, ownerName: Option<string>,
                                       spawn: Option<EntityId>) returns (outcome: Outcome, world': World)
      requires Valid()
      modifies this
      ensures Valid() && fresh(Repr - old(Repr))
      ensures Effect(outcome, Model(), world') == TeleportEffect(srv, old(Model()), world, agentId, ownerName, spawn)
    {
      var player := ResolvePlayer(srv, ownerName);
      if player.None? {
        return Failed(Some("player not found")), world;
      }
      var ownerKey := player.value.name;
      outcome, world' := TeleportAgent(world, AgentMapKey(Some(ownerKey), agentId), ownerKey,
                                       NormalizeLocation(player.value.loc), spawn);
    }

    /** The teleport once the player is resolved to `owner` and its block centre. */
    method TeleportAgent(world: World, key: string, owner: string, target: Location, spawn: Option<EntityId>)
      returns (outcome: Outcome, world': World)
      requires Valid()
      modifies this
      ensures Valid() && fresh(Repr - old(Repr))
      ensures Effect(outcome, Model(), world') == AgentSpec.TeleportAgent(old(Model()), world, key, owner, target, spawn)
    {
      var live := false;
      var id: EntityId := 0;
      if key in agents {
        id := agents[key].entityId;
        live := GetAgentEntity(world, id);
      }
      if !live {
        outcome, world' := SpawnAgent(world, key, owner, target, spawn);
      } else {
        outcome, world' := RelocateAgent(world, key, id, target);
      }
    }

    /** Teleport of an agent without a live stand: the inventory is created when
        missing, then a new stand is spawned at the target and recorded under `key`. */
    method SpawnAgent(world: World, key: string, owner: string, target: Location, spawn: Option<EntityId>)
      returns (outcome: Outcome, world': World)
      requires Valid()
      modifies this
      ensures Valid() && fresh(Repr - old(Repr))
      ensures inventoryViews == old(inventoryViews)[key := InventoryOrNew(old(inventoryViews), key)]
      ensures spawn.None? ==> outcome == Failed(Some("spawn failed")) && world' == world && agents == old(agents)
      ensures spawn.Some? ==>
                && outcome == Done
                && agents == old(agents)[key := AgentEntry(spawn.value, owner)]
                && world' == Equip(world.(stands := world.stands[spawn.value := Stand(NormalizeLocation(target), None)]),
                                   spawn.value, InventoryOrNew(old(inventoryViews), key))
    {
      var inventory := InventoryFor(key);
      if spawn.None? {
        return Failed(Some("spawn failed")), world;
      }
      var id := spawn.value;
      world' := world.(stands := world.stands[id := Stand(NormalizeLocation(target), None)]);
      agents := agents[key := AgentEntry(id, owner)];
      world' := Equip(world', id, inventory.View());
      outcome := Done;
    }

    /** Teleport of an agent whose stand is live: the inventory is created when
        missing and the stand moves to the target. */
    method RelocateAgent(world: World, key: string, id: EntityId, target: Location)
      returns (outcome: Outcome, world': World)
      requires Valid() && id in world.stands
      modifies this
      ensures Valid() && fresh(Repr - old(Repr))
      ensures inventoryViews == old(inventoryViews)[key := InventoryOrNew(old(inventoryViews), key)]
      ensures outcome == Done && agents == old(agents)
      ensures world' == Equip(MoveStand(world, id, target), id, InventoryOrNew(old(inventoryViews), key))
    {
      var inventory := InventoryFor(key);
      world' := Equip(MoveStand(world, id, target), id, inventory.View());
      outcome := Done;
    }

    /** `handleAgentMove`: the key and the direction word, then the checks. */
    method HandleAgentMove(srv: Server, world: World, agentId: Option<string>, ownerName: Option<string>,
                           direction: Option<string>, blocks: real) returns (outcome: Outcome, world': World)
      requires Valid()
      modifies this
      ensures Valid() && Repr == old(Repr)
      ensures Effect(outcome, Model(), world')
           == MoveEffect(srv, old(Model()), world, AgentMapKey(ownerName, agentId), ownerName, NormalizeDirection(direction), blocks)
    {
      outcome, world' := MoveAgent(srv, world, AgentMapKey(ownerName, agentId), ownerName, NormalizeDirection(direction), blocks);
    }

    method MoveAgent(srv: Server, world: World, key: string, ownerName: Option<string>,
                     dir: Option<Direction>, blocks: real) returns (outcome: Outcome, world': World)
      requires Valid()
      modifies this
      ensures Valid() && Repr == old(Repr)
      ensures Effect(outcome, Model(), world') == MoveEffect(srv, old(Model()), world, key, ownerName, dir, blocks)
    {
      if key !in agents {
        return Failed(Some("agent not found")), world;
      }
      var entry := agents[key];
      if !OwnedBy(entry, ownerName) {
        return Failed(Some("agent owned by another player")), world;
      }
      var live := GetAgentEntity(world, entry.entityId);
      if !live {
        agents := agents - {key};
        return Failed(Some("agent not found")), world;
      }
      if dir.None? {
        return Failed(Some("invalid direction")), world;
      }
      var distance := ClampDistance(blocks);
      if distance < MinMove {
        return Failed(Some("blocks must be greater than 0")), world;
      }
      var origin := world.stands[entry.entityId].loc;
      var offset := Scale(srv.unitVector(origin, dir.value), distance);
      var target := NormalizeAgentTarget(Add(origin, offset), origin);
      return Done, MoveStand(world, entry.entityId, target);
    }

    /** `handleAgentRotate`. */
    method HandleAgentRotate(world: World, agentId: Option<string>, ownerName: Option<string>, direction: Option<string>)
      returns (outcome: Outcome, world': World)
      requires Valid()
      modifies this
      ensures Valid() && Repr == old(Repr)
      ensures Effect(outcome, Model(), world')
           == RotateEffect(old(Model()), world, AgentMapKey(ownerName, agentId), ownerName, NormalizeTurnDirection(direction))
    {
      outcome, world' := RotateAgent(world, AgentMapKey(ownerName, agentId), ownerName, NormalizeTurnDirection(direction));
    }

    method RotateAgent(world: World, key: string, ownerName: Option<string>, turn: Option<Direction>)
      returns (outcome: Outcome, world': World)
      requires Valid()
      modifies this
      ensures Valid() && Repr == old(Repr)
      ensures Effect(outcome, Model(), world') == RotateEffect(old(Model()), world, key, ownerName, turn)
    {
      if key !in agents {
        return Failed(Some("agent not found")), world;
      }
      var entry := agents[key];
      if !OwnedBy(entry, ownerName) {
        return Failed(Some("agent owned by another player")), world;
      }
      var live := GetAgentEntity(world, entry.entityId);
      if !live {
        agents := agents - {key};
        return Failed(Some("agent not found")), world;
      }
      if turn.None? {
        return Failed(Some("invalid direction")), world;
      }
      var delta := if turn.value == Left then -90.0 else 90.0;
      var loc := world.stands[entry.entityId].loc;
      return Done, MoveStand(world, entry.entityId, loc.(yaw := NormalizeYaw(loc.yaw + delta)));
    }

    /** `handleAgentDespawn`. */
    method HandleAgentDespawn(world: World, agentId: Option<string>, ownerName: Option<string>)
      returns (outcome: Outcome, world': World)
      requires Valid()
      modifies this
      ensures Valid() && Repr == old(Repr)
      ensures Effect(outcome, Model(), world') == DespawnEffect(old(Model()), world, AgentMapKey(ownerName, agentId), ownerName)
    {
      outcome, world' := DespawnAgent(world, AgentMapKey(ownerName, agentId), ownerName);
    }

    method DespawnAgent(world: World, key: string, ownerName: Option<string>)
      returns (outcome: Outcome, world': World)
      requires Valid()
      modifies this
      ensures Valid() && Repr == old(Repr)
      ensures Effect(outcome, Model(), world') == DespawnEffect(old(Model()), world, key, ownerName)
    {
      if key !in agents {
        return Failed(Some("agent not found")), world;
      }
      var existing := agents[key];
      if !OwnedBy(existing, ownerName) {
        return Failed(Some("agent owned by another player")), world;
      }
      var live := GetAgentEntity(world, existing.entityId);
      world' := world;
      if live {
        world' := world.(stands := world.stands - {existing.entityId});
      } else {
        assert world.stands - {existing.entityId} == world.stands;
      }
      Forget(key);
      outcome := Done;
    }

    /** `agents.remove(key)` and `agentInventories.remove(key)`. */
    method Forget(key: string)
      requires Valid()
      modifies this
      ensures Valid() && Repr == old(Repr)
      ensures agents == old(agents) - {key} && inventoryViews == old(inventoryViews) - {key}
    {
      agents := agents - {key};
      agentInventories := agentInventories - {key};
      inventoryViews := inventoryViews - {key};
    }

    /** The stale-agent branch of the slot handlers: `getAgentEntity` evicts every
        entry of the vanished stand, then the agent's entry and inventory are removed. */
    method DropStaleAgent(key: string)
      requires Valid() && key in agents
      modifies this
      ensures Valid() && Repr == old(Repr)
      ensures Model() == DropStale(old(Model()), key)
    {
      agents := Evict(agents, agents[key].entityId);
      Forget(key);
    }

    /** `handleAgentSlotAssignBlock`. */
    method HandleAgentSlotAssignBlock(srv: Server, world: World, agentId: Option<string>, ownerName: Option<string>,
                                      blockId: Option<string>, amount: int, slot: int) returns (outcome: Outcome, world': World)
      requires Valid()
      modifies Repr
      ensures Valid() && fresh(Repr - old(Repr))
      ensures Effect(outcome, Model(), world')
           == AssignEffect(srv, old(Model()), world, AgentMapKey(ownerName, agentId), blockId, amount, slot)
    {
      outcome, world' := AssignBlock(srv, world, AgentMapKey(ownerName, agentId), blockId, amount, slot);
    }

    method AssignBlock(srv: Server, world: World, key: string, blockId: Option<string>, amount: int, slot: int)
      returns (outcome: Outcome, world': World)
      requires Valid()
      modifies Repr
      ensures Valid() && fresh(Repr - old(Repr))
      ensures Effect(outcome, Model(), world') == AssignEffect(srv, old(Model()), world, key, blockId, amount, slot)
    {
      if slot < 1 || slot > SlotCount {
        return Failed(Some("slot must be 1-27")), world;
      }
      if amount < 1 || amount > MaxStack {
        return Failed(Some("amount must be 1-64")), world;
      }
      if key !in agents {
        return Failed(Some("agent not found")), world;
      }
      var entry := agents[key];
      if entry.entityId !in world.stands {
        DropStaleAgent(key);
        return Failed(Some("agent not found")), world;
      }
      if blockId.None? || IsBlank(blockId.value) {
        return Failed(Some("block required")), world;
      }
      var material := srv.matchMaterial(blockId.value);
      if material.None? || !srv.isItem(material.value) {
        return Failed(Some("invalid block")), world;
      }
      outcome, world' := AssignLive(world, key, entry.entityId, slot, Item(material.value, amount));
    }

    /** The success path of `handleAgentSlotAssignBlock`: the live agent's inventory is
        created when missing, then the stack is stored. */
    method AssignLive(world: World, key: string, id: EntityId, slot: int, item: Item)
      returns (outcome: Outcome, world': World)
      requires Valid() && key in agents && agents[key].entityId == id && id in world.stands
      requires 1 <= slot <= SlotCount
      modifies Repr
      ensures Valid() && fresh(Repr - old(Repr))
      ensures outcome == Done && agents == old(agents)
      ensures var inv := InventoryOrNew(old(inventoryViews), key);
              inventoryViews == old(inventoryViews)[key := inv.(slots := inv.slots[slot - 1 := Some(item)])]
      ensures var inv := InventoryOrNew(old(inventoryViews), key);
              world' == if inv.activeSlot == slot - 1 then Equip(world, id, inv.(slots := inv.slots[slot - 1 := Some(item)])) else world
    {
      ghost var views := inventoryViews;
      var _ := InventoryFor(key);
      ghost var inv := inventoryViews[key];
      assert inventoryViews == views[key := inv];
      outcome, world' := StoreBlock(world, key, id, slot, item);
      ReplaceTwice(views, key, inv, inv.(slots := inv.slots[slot - 1 := Some(item)]));
    }

    /** The stack goes into the slot of an existing inventory and, when that slot is the
        active one, into the stand's hand. */
    method StoreBlock(world: World, key: string, id: EntityId, slot: int, item: Item)
      returns (outcome: Outcome, world': World)
      requires Valid() && key in agents && agents[key].entityId == id && id in world.stands
      requires key in agentInventories
      requires 1 <= slot <= SlotCount
      modifies this, agentInventories[key].slots
      ensures Valid() && Repr == old(Repr)
      ensures var inv := old(inventoryViews)[key];
              var updated := inv.(slots := inv.slots[slot - 1 := Some(item)]);
              && outcome == Done && agents == old(agents)
              && inventoryViews == old(inventoryViews)[key := updated]
              && world' == if inv.activeSlot == slot - 1 then Equip(world, id, updated) else world
    {
      var inventory := agentInventories[key];
      var active := inventory.activeSlot;
      StoreInSlot(key, slot - 1, Some(item));
      world' := world;
      if active == slot - 1 {
        world' := Equip(world, id, inventory.View());
      }
      outcome := Done;
    }

    /** `handleAgentSlotActivate`. */
    method HandleAgentSlotActivate(world: World, agentId: Option<string>, ownerName: Option<string>, slot: int)
      returns (outcome: Outcome, world': World)
      requires Valid()
      modifies Repr
      ensures Valid() && fresh(Repr - old(Repr))
      ensures Effect(outcome, Model(), world') == ActivateEffect(old(Model()), world, AgentMapKey(ownerName, agentId), slot)
    {
      outcome, world' := ActivateSlot(world, AgentMapKey(ownerName, agentId), slot);
    }

    method ActivateSlot(world: World, key: string, slot: int) returns (outcome: Outcome, world': World)
      requires Valid()
      modifies Repr
      ensures Valid() && fresh(Repr - old(Repr))
      ensures Effect(outcome, Model(), world') == ActivateEffect(old(Model()), world, key, slot)
    {
      if slot < 1 || slot > SlotCount {
        return Failed(Some("slot must be 1-27")), world;
      }
      if key !in agents {
        return Failed(Some("agent not found")), world;
      }
      var entry := agents[key];
      if entry.entityId !in world.stands {
        DropStaleAgent(key);
        return Failed(Some("agent not found")), world;
      }
      outcome, world' := ActivateLive(world, key, entry.entityId, slot);
    }

    /** The success path of `handleAgentSlotActivate`: the live agent's inventory is
        created when missing, the slot becomes active and the stand holds its item. */
    method ActivateLive(world: World, key: string, id: EntityId, slot: int) returns (outcome: Outcome, world': World)
      requires Valid() && id in world.stands
      modifies Repr
      ensures Valid() && fresh(Repr - old(Repr))
      ensures outcome == Done && agents == old(agents)
      ensures var updated := InventoryOrNew(old(inventoryViews), key).(activeSlot := slot - 1);
              && inventoryViews == old(inventoryViews)[key := updated]
              && world' == Equip(world, id, updated)
    {
      ghost var views := inventoryViews;
      var inventory := InventoryFor(key);
      ghost var inv := inventoryViews[key];
      SetActiveSlot(key, slot - 1);
      ReplaceTwice(views, key, inv, inv.(activeSlot := slot - 1));
      outcome, world' := Done, Equip(world, id, inventory.View());
    }

    /** `handleAgentPlace`. */
    method HandleAgentPlace(srv: Server, world: World, agentId: Option<string>, ownerName: Option<string>,
                            direction: Option<string>) returns (outcome: Outcome, world': World)
      requires Valid()
      modifies Repr
      ensures Valid() && Repr == old(Repr)
      ensures Effect(outcome, Model(), world')
           == PlaceEffect(srv, old(Model()), world, AgentMapKey(ownerName, agentId), PlaceDirection(direction))
    {
      outcome, world' := PlaceBlock(srv, world, AgentMapKey(ownerName, agentId), PlaceDirection(direction));
    }

    method PlaceBlock(srv: Server, world: World, key: string, dir: Option<Direction>)
      returns (outcome: Outcome, world': World)
      requires Valid()
      modifies Repr
      ensures Valid() && Repr == old(Repr)
      ensures Effect(outcome, Model(), world') == PlaceEffect(srv, old(Model()), world, key, dir)
    {
      if key !in agents {
        return Failed(Some("agent not found")), world;
      }
      var entry := agents[key];
      if entry.entityId !in world.stands {
        DropStaleAgent(key);
        return Failed(Some("agent not found")), world;
      }
      if key !in agentInventories {
        return Failed(Some("no active slot")), world;
      }
      var inventory := agentInventories[key];
      if inventory.activeSlot < 0 || inventory.activeSlot >= inventory.slots.Length {
        return Failed(Some("no active slot")), world;
      }
      var held := inventory.slots[inventory.activeSlot];
      if held.None? || !srv.isBlock(held.value.material) {
        return Failed(Some("active slot has no block")), world;
      }
      if dir.None? {
        return Failed(Some("invalid direction")), world;
      }
      var cell := PlaceTarget(srv, world.stands[entry.entityId].loc, dir.value);
      if cell in world.blocks {
        return Failed(Some("target not empty")), world;
      }
      StoreInSlot(key, inventory.activeSlot, TakeOne(held.value));
      world' := world.(blocks := world.blocks[cell := held.value.material]);
      return Done, Equip(world', entry.entityId, inventory.View());
    }
  }
}
