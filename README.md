# twbridge core, modelled in Dafny

twbridge is a Paper/Bukkit plugin that lets a TurboWarp (Scratch) project drive a
Minecraft server. It has three parts, and this project models the logic of each.

**The WebSocket bridge** (`BridgeServer`) works on the following state:

- a message counter per connection;
- a session per paired connection;
- a table binding lower-cased player names to connections;
- one pairing code with its expiry.

It enforces:

- the origin allow-list;
- the message size limit and the per-second rate limit;
- single-use pairing codes;
- exclusive player binding;
- session gating of commands;
- correlation of every answer with its request id.

**The plugin** (`TwBridgePlugin`) keeps two maps: each player's agents (armour stands) and their 27-slot inventories, both keyed by `agentMapKey`. Its handlers teleport, move, rotate and despawn agents, fill and activate slots, and place blocks. It also has pure helpers: the agent key, the direction words, the client host, the default WebSocket URL and material display names.

**The HTTP side** (`TwHttpServer`) serves the extension script. It:

- substitutes the default WebSocket URL and the block list into the script template;
- takes the `lang` tag from the query string and sanitizes it;
- escapes values for JavaScript string literals;
- decides each response's status from the method and `If-None-Match`.

Layout:

- `basics.dfy`: `Option`.
- `text.dfy`: the `java.lang.String` operations the code uses.
- `geometry.dfy`: block-grid snapping, yaw and distance clamping, over `real`.
- `plugin_helpers.dfy`: the plugin's pure helpers.
- `agent_spec.dfy`: the world and registry as values, one function per handler, and the lemmas about them.
- `agent_registry.dfy`: classes `AgentInventory` (a slot array and an active slot) and `AgentRegistry` (the two maps). Each handler method is proved to produce exactly its `agent_spec.dfy` function.
- `bridge_spec.dfy`: the bridge's state and one function per callback, with the protocol lemmas.
- `bridge_server.dfy`: class `BridgeServer`. Each callback is proved equal to its spec function and to keep sessions and bindings in step.
- `http_spec.dfy`: the script-serving functions and their lemmas.
- `http_server.dfy`: class `TwHttpServer`, with the query and block-list loops proved against `http_spec.dfy`.

Collaborators the code calls but does not define are parameters:

- the game server (`AgentSpec.Server`: player lookup, materials, direction vectors, console commands);
- the clock, the random pairing number, fresh UUIDs, UUID parsing and the online-player lookup (`BridgeSpec.Env`);
- URL decoding, and the entity tag of a variant.

The world is a value: the live armour stands by entity id, and the occupied blocks by cell. Each handler takes it in and returns it.

## Model

| member | source | states |
|---|---|---|
| PluginHelpers.AgentMapKeyIgnoresOwnerCase | src/main/java/net/nando256/twbridge/TwBridgePlugin.java:729-733 | owner names equal up to case and surrounding blanks give the same agent key |
| PluginHelpers.AgentMapKeyKeepsIdCase | src/main/java/net/nando256/twbridge/TwBridgePlugin.java:729-733 | agent ids whose trimmed forms differ give different keys (ids are case-sensitive) |
| PluginHelpers.AgentMapKeyInjective | src/main/java/net/nando256/twbridge/TwBridgePlugin.java:729-733 | when neither owner part contains '.', equal keys mean equal owner parts and equal agent parts |
| PluginHelpers.AgentMapKeyCollision | src/main/java/net/nando256/twbridge/TwBridgePlugin.java:729-733 | without that condition the key is ambiguous: owner "a.b" with agent "c" and owner "a" with agent "b.c" share a key |
| PluginHelpers.TrimLowerIdempotent | src/main/java/net/nando256/twbridge/TwBridgePlugin.java:730 | trimming and lower-casing an owner name a second time changes nothing |
| PluginHelpers.DirectionNamed | src/main/java/net/nando256/twbridge/TwBridgePlugin.java:675-680 | a word names a direction exactly when it is that direction's spelling; otherwise no direction has that name |
| PluginHelpers.NormalizeDirection | src/main/java/net/nando256/twbridge/TwBridgePlugin.java:694-700 | result present iff the trimmed, lower-cased word is forward, back, right or left; it is then that direction |
| PluginHelpers.NormalizeTurnDirection | src/main/java/net/nando256/twbridge/TwBridgePlugin.java:702-708 | result present iff the trimmed, lower-cased word is left or right; it is then that direction |
| PluginHelpers.PlaceDirection | src/main/java/net/nando256/twbridge/TwBridgePlugin.java:684-692 | the words `resolvePlaceOffset` accepts: up, down and the four horizontal directions, after trimming and lower-casing |
| PluginHelpers.DirectionRoundTrip | src/main/java/net/nando256/twbridge/TwBridgePlugin.java:684-708 | each direction's own word is accepted back by every normaliser whose set contains it, and by no other |
| PluginHelpers.DirectionIgnoresCase | src/main/java/net/nando256/twbridge/TwBridgePlugin.java:684-708 | all three normalisers give the same answer for a word and for its trimmed lower-case form |
| PluginHelpers.FirstNonBlank | src/main/java/net/nando256/twbridge/TwBridgePlugin.java:735-740 | the loop returns the first present, non-blank candidate unchanged, or null exactly when there is none |
| PluginHelpers.ChooseClientHost | src/main/java/net/nando256/twbridge/TwBridgePlugin.java:742-758 | the first candidate that is non-blank and not a wildcard, trimmed; "127.0.0.1" when none qualifies; never a wildcard address |
| PluginHelpers.UsableHostIsConcrete | src/main/java/net/nando256/twbridge/TwBridgePlugin.java:744-747 | the trimmed host a usable candidate yields is not a wildcard for `isAnyAddress` either |
| PluginHelpers.EffectiveHost | src/main/java/net/nando256/twbridge/TwBridgePlugin.java:761 | a present, non-blank host is used as given |
| PluginHelpers.BracketHost | src/main/java/net/nando256/twbridge/TwBridgePlugin.java:762-764 | the host is wrapped in brackets iff it contains ':' and is not already bracketed; a result containing ':' is bracketed |
| PluginHelpers.BuildWsDefaultUrl | src/main/java/net/nando256/twbridge/TwBridgePlugin.java:760-766 | the URL starts with "ws://" |
| PluginHelpers.WsUrlParts | src/main/java/net/nando256/twbridge/TwBridgePlugin.java:760-766 | after "ws://", the URL splits at its last ':' into the bracketed effective host and the port's decimal digits, which read back as the port; a negative port is written as '-' and the digits of its magnitude |
| PluginHelpers.Capitalize | src/main/java/net/nando256/twbridge/TwBridgePlugin.java:788-789 | the first character upper-cased and the rest kept |
| PluginHelpers.HumanizeMaterialName | src/main/java/net/nando256/twbridge/TwBridgePlugin.java:781-792 | the builder loop yields "" for a null or blank key, otherwise the capitalised non-blank `_` parts joined by single spaces |
| PluginHelpers.HumanizedKeyRoundTrip | src/main/java/net/nando256/twbridge/TwBridgePlugin.java:781-792 | a material key (lower-case words joined by `_`) becomes its capitalised words joined by spaces, and the display name reads back as the key |
| PluginHelpers.KeyWordsSplit | src/main/java/net/nando256/twbridge/TwBridgePlugin.java:783 | splitting a material key at `_` gives its words back |
| Geometry.NormalizeLocation | src/main/java/net/nando256/twbridge/TwBridgePlugin.java:551-557 | the result is centred in the same block (x, z at floor + 0.5; y at floor) with yaw and pitch 0 |
| Geometry.NormalizeAgentTarget | src/main/java/net/nando256/twbridge/TwBridgePlugin.java:644-655 | the same block centre as `normalizeLocation`, facing as the reference faces |
| Geometry.SnapIdempotent | src/main/java/net/nando256/twbridge/TwBridgePlugin.java:551-557 | snapping is idempotent, and the on-grid locations are exactly its fixed points |
| Geometry.NormalizeYaw | src/main/java/net/nando256/twbridge/TwBridgePlugin.java:710-715 | the result lies in [-180, 180) and differs from the input by whole turns |
| Geometry.NormalizeYawUnique | src/main/java/net/nando256/twbridge/TwBridgePlugin.java:710-715 | it is the only such angle, so an angle already in range is returned unchanged |
| Geometry.ClampDistance | src/main/java/net/nando256/twbridge/TwBridgePlugin.java:227 | the distance lies in [0, 64]; it is 64 exactly when abs(blocks) >= 64, and abs(blocks) otherwise |
| AgentSpec.EmptyInventory | src/main/java/net/nando256/twbridge/TwBridgePlugin.java:796-799 | a new inventory has 27 empty slots and active slot -1 |
| AgentSpec.InventoryOrNew | src/main/java/net/nando256/twbridge/TwBridgePlugin.java:179 | `computeIfAbsent`: the stored inventory, else a new empty one |
| AgentSpec.ResolvePlayer | src/main/java/net/nando256/twbridge/TwBridgePlugin.java:485-490 | a null or blank name resolves to nobody |
| AgentSpec.Evict | src/main/java/net/nando256/twbridge/TwBridgePlugin.java:547 | exactly the entries whose stand is not the vanished one remain, unchanged |
| AgentSpec.HandItem | src/main/java/net/nando256/twbridge/TwBridgePlugin.java:717-727 | the hand holds the active slot's stack when the active slot is in range, and nothing otherwise |
| AgentSpec.Equip | src/main/java/net/nando256/twbridge/TwBridgePlugin.java:717-727 | only that stand's hand changes; every other stand and every block is untouched |
| AgentSpec.CommandOutcome | src/main/java/net/nando256/twbridge/TwBridgePlugin.java:141-161 | a null or blank command fails with "command required"; success only when the console ran the command and reported success |
| AgentSpec.TeleportPlacesAgent | src/main/java/net/nando256/twbridge/TwBridgePlugin.java:163-197 | after success the player's agent is live at the centre of the player's block, holds its active slot's stack, has an inventory, and no block changed |
| AgentSpec.TeleportRecordsOwner | src/main/java/net/nando256/twbridge/TwBridgePlugin.java:177-193 | a live agent keeps its entry; otherwise success iff a stand was spawned, which is recorded with the resolved player's name, after every entry of the vanished stand is evicted |
| AgentSpec.TeleportFailures | src/main/java/net/nando256/twbridge/TwBridgePlugin.java:168-188 | "player not found" iff the player does not resolve, and it changes nothing; the only failures are that and "spawn failed"; no failure changes the world; after "spawn failed" the stale entry is evicted and the owner's inventory exists, as before the spawn was attempted |
| AgentSpec.MoveCheckOrder | src/main/java/net/nando256/twbridge/TwBridgePlugin.java:206-231 | each error happens exactly when the earlier checks pass and its own fails (not found, other owner, stale stand with eviction, invalid direction, distance < 0.01); no failure moves anything |
| AgentSpec.MoveSnapsToBlock | src/main/java/net/nando256/twbridge/TwBridgePlugin.java:232-245 | after success the stand is centred in the block the offset lands in, faces as before, keeps its hand, and no other stand moved |
| AgentSpec.MoveDistanceClamped | src/main/java/net/nando256/twbridge/TwBridgePlugin.java:227 | the sign of `blocks` does not matter, and any distance of 64 or more acts as 64 |
| AgentSpec.RotateChecks | src/main/java/net/nando256/twbridge/TwBridgePlugin.java:256-276 | the checks of move, including "agent not found" with every entry of a stale stand evicted; success iff the owner's live agent is given left or right; failures move nothing |
| AgentSpec.RotateQuarterTurn | src/main/java/net/nando256/twbridge/TwBridgePlugin.java:277-280 | the new yaw lies in [-180, 180) and equals the old yaw -90 (left) or +90 (right) up to whole turns; position and pitch are unchanged |
| AgentSpec.DespawnRemovesAgent | src/main/java/net/nando256/twbridge/TwBridgePlugin.java:290-305 | success iff the owner's agent is recorded; the agent then has no entry, no inventory and no stand; other entries stay unless they named the vanished stand; a failure changes nothing |
| AgentSpec.FindLiveAgent | src/main/java/net/nando256/twbridge/TwBridgePlugin.java:326-331 | a stand is found iff the agent is recorded and its stand is live; it is the recorded stand |
| AgentSpec.DropStale | src/main/java/net/nando256/twbridge/TwBridgePlugin.java:331-336 | every entry of the vanished stand and the agent's inventory are dropped, and the other inventories kept |
| AgentSpec.AssignChecks | src/main/java/net/nando256/twbridge/TwBridgePlugin.java:317-346 | slot and amount are rejected before any lookup, with nothing changed; a live agent with no block id gets "block required"; success needs a live agent and a material that is an item |
| AgentSpec.AssignWritesOneSlot | src/main/java/net/nando256/twbridge/TwBridgePlugin.java:347-348 | success writes the stack into slot `slot - 1` only; the other slots, the active slot, the agents and other inventories are unchanged |
| AgentSpec.AssignRefreshesActiveHand | src/main/java/net/nando256/twbridge/TwBridgePlugin.java:349-351 | the world changes only when the written slot is the active one, and the hand then holds the new stack |
| AgentSpec.ActivateShowsSlot | src/main/java/net/nando256/twbridge/TwBridgePlugin.java:362-381 | success iff the slot is in 1..27 and the agent is live; the active slot becomes `slot - 1`, the slots are unchanged, and the hand holds that slot's stack or nothing |
| AgentSpec.PlaceTarget | src/main/java/net/nando256/twbridge/TwBridgePlugin.java:684-688 | up and down target the cell one above and one below the stand |
| AgentSpec.TakeOne | src/main/java/net/nando256/twbridge/TwBridgePlugin.java:431-432 | a stack of more than one loses exactly one; a stack of one or less becomes empty |
| AgentSpec.PlaceFailures | src/main/java/net/nando256/twbridge/TwBridgePlugin.java:405-419 | in order: "no active slot" exactly when the agent is live and there is no inventory or the active slot is outside 0..26; "active slot has no block" when that slot holds nothing placeable; "invalid direction" for a rejected direction; "target not empty" when the target cell holds a block; success iff every check passes; no failure changes the world |
| AgentSpec.PlaceTakesOne | src/main/java/net/nando256/twbridge/TwBridgePlugin.java:420-433 | success fills the previously empty target cell with the held material and takes exactly one from the active stack; the active slot, the other slots and the agents are unchanged; the hand shows the rest |
| AgentSpec.StaleAgentEvicted | src/main/java/net/nando256/twbridge/TwBridgePlugin.java:331-336 | for a recorded agent whose stand is gone, activate, assign and place all fail with "agent not found", dropping the stand's entries and the inventory |
| AgentSpec.HandlersKeepSlots | src/main/java/net/nando256/twbridge/TwBridgePlugin.java:796-799 | move, rotate and despawn keep every inventory at 27 slots |
| Plugin.AgentInventory.constructor | src/main/java/net/nando256/twbridge/TwBridgePlugin.java:796-799 | a fresh 27-slot array, all empty, with no active slot |
| Plugin.AgentRegistry.constructor | src/main/java/net/nando256/twbridge/TwBridgePlugin.java:43-44 | both maps start empty |
| Plugin.AgentRegistry.GetAgentEntity | src/main/java/net/nando256/twbridge/TwBridgePlugin.java:541-549 | live iff the stand exists; when it is gone every entry naming it is removed in place |
| Plugin.AgentRegistry.InventoryFor | src/main/java/net/nando256/twbridge/TwBridgePlugin.java:179 | `computeIfAbsent` on the inventory map: the existing object, or a fresh one stored under the key |
| Plugin.AgentRegistry.HandleAgentTeleportToPlayer | src/main/java/net/nando256/twbridge/TwBridgePlugin.java:163-197 | the new maps, inventories and world are exactly those of `AgentSpec.TeleportEffect` |
| Plugin.AgentRegistry.HandleAgentMove | src/main/java/net/nando256/twbridge/TwBridgePlugin.java:199-248 | the outcome, maps and world are exactly those of `AgentSpec.MoveEffect` for the key and the normalised direction |
| Plugin.AgentRegistry.HandleAgentRotate | src/main/java/net/nando256/twbridge/TwBridgePlugin.java:250-283 | the outcome, maps and world are exactly those of `AgentSpec.RotateEffect` |
| Plugin.AgentRegistry.HandleAgentDespawn | src/main/java/net/nando256/twbridge/TwBridgePlugin.java:285-307 | the outcome, maps and world are exactly those of `AgentSpec.DespawnEffect` |
| Plugin.AgentRegistry.HandleAgentSlotAssignBlock | src/main/java/net/nando256/twbridge/TwBridgePlugin.java:309-354 | the slot arrays are updated in place; outcome, maps, inventory contents and world are exactly those of `AgentSpec.AssignEffect` |
| Plugin.AgentRegistry.HandleAgentSlotActivate | src/main/java/net/nando256/twbridge/TwBridgePlugin.java:356-384 | the `activeSlot` field is updated in place; outcome, maps and world are exactly those of `AgentSpec.ActivateEffect` |
| Plugin.AgentRegistry.HandleAgentPlace | src/main/java/net/nando256/twbridge/TwBridgePlugin.java:386-436 | the active slot is updated in place; outcome, maps and world are exactly those of `AgentSpec.PlaceEffect` |
| Plugin.AgentRegistry.DropStaleAgent | src/main/java/net/nando256/twbridge/TwBridgePlugin.java:331-336 | the registry afterwards is `AgentSpec.DropStale` of the one before |
| BridgeSpec.Completion | src/main/java/net/nando256/twbridge/ws/BridgeServer.java:152-154 | a forwarded call's answer carries its request id; `ok` iff the plugin succeeded; otherwise `err` with the plugin's message, or the command's default message when that is null |
| BridgeSpec.Tick | src/main/java/net/nando256/twbridge/ws/BridgeServer.java:48-52 | every counter becomes 0, the same connections keep one, and nothing else changes |
| BridgeSpec.RotatePairCodeFacts | src/main/java/net/nando256/twbridge/ws/BridgeServer.java:57-63 | with pairing off nothing changes and null is returned; otherwise a six-digit code whose value is the random number, expiring at now + window * 1000, and nothing else changes |
| BridgeSpec.OriginPolicy | src/main/java/net/nando256/twbridge/ws/BridgeServer.java:72-79 | a missing or blank origin, an empty list or "*" admits; otherwise listing decides; admission starts the counter at 0 and greets; refusal is a 1008 close with no state change |
| BridgeSpec.MessageLimits | src/main/java/net/nando256/twbridge/ws/BridgeServer.java:84-86 | an oversized message closes with 1009 and is not counted; any other is counted and closes with 1011 exactly when the count passes the limit |
| BridgeSpec.HandleKeepsCounters | src/main/java/net/nando256/twbridge/ws/BridgeServer.java:88-259 | handling a request leaves every counter alone and never uses the limits' close reasons |
| BridgeSpec.WindowBound | src/main/java/net/nando256/twbridge/ws/BridgeServer.java:85-86 | from a count `c`, any sequence of messages gets at most `maxMsgPerSec - c` past the limits |
| BridgeSpec.TickWindow | src/main/java/net/nando256/twbridge/ws/BridgeServer.java:48-52 | between two ticks at most `maxMsgPerSec` messages per connection are handled |
| BridgeSpec.InvInitial | src/main/java/net/nando256/twbridge/ws/BridgeServer.java:35-55 | the new engine's sessions and bindings are in one-to-one correspondence |
| BridgeSpec.OpenTickRotateKeepInv | src/main/java/net/nando256/twbridge/ws/BridgeServer.java:48-80 | opening, the tick and rotating the code keep that correspondence |
| BridgeSpec.PairStartKeepsInv | src/main/java/net/nando256/twbridge/ws/BridgeServer.java:93-140 | `pair.start` keeps it |
| BridgeSpec.MessageKeepsInv | src/main/java/net/nando256/twbridge/ws/BridgeServer.java:82-260 | every message keeps it |
| BridgeSpec.CloseKeepsInv | src/main/java/net/nando256/twbridge/ws/BridgeServer.java:287-296 | closing keeps it; the closed connection has no counter, session or binding left; every other binding stays |
| BridgeSpec.CloseRemovesOwnBindingOnly | src/main/java/net/nando256/twbridge/ws/BridgeServer.java:290-294 | a binding is removed iff it names this connection under its session's lower-cased player; the other sessions are unchanged |
| BridgeSpec.ExclusiveBinding | src/main/java/net/nando256/twbridge/ws/BridgeServer.java:309-316 | under the invariant, two connections never hold sessions for the same player, whatever the case |
| BridgeSpec.BindPlayerOutcome | src/main/java/net/nando256/twbridge/ws/BridgeServer.java:309-316 | binding fails iff the lower-cased name is bound to another connection; otherwise the name maps to this connection and nothing else changes |
| BridgeSpec.DispatchCorrelates | src/main/java/net/nando256/twbridge/ws/BridgeServer.java:148-256 | the dispatcher either answers one `err` or forwards one call, with the request id, and never closes |
| BridgeSpec.DispatchRouting | src/main/java/net/nando256/twbridge/ws/BridgeServer.java:148-256 | agent commands are forwarded only with an owner, and carry it; any unrouted command gets "unknown cmd: <cmd>"; `command.run` needs only a non-empty command |
| BridgeSpec.MessageCorrelates | src/main/java/net/nando256/twbridge/ws/BridgeServer.java:88-259 | an undecodable request id closes with 1011; every `ok`/`err` and forwarded call carries the request id read as a UUID, or the fresh one |
| BridgeSpec.HandleCorrelates | src/main/java/net/nando256/twbridge/ws/BridgeServer.java:88-259 | the same correlation for a message already past the limits |
| BridgeSpec.PairStartCorrelates | src/main/java/net/nando256/twbridge/ws/BridgeServer.java:93-140 | every answer to `pair.start` is `ok` or `err` with its id, and nothing is forwarded |
| BridgeSpec.SessionGating | src/main/java/net/nando256/twbridge/ws/BridgeServer.java:142-146 | with pairing required, a non-pairing request without a matching session gets "not paired" and a 1008 close; nothing is forwarded without one; agent calls carry the session's player as owner |
| BridgeSpec.OpenCommandRun | src/main/java/net/nando256/twbridge/ws/BridgeServer.java:148-156 | with pairing off, `command.run` is forwarded without any session |
| BridgeSpec.UnknownCommand | src/main/java/net/nando256/twbridge/ws/BridgeServer.java:256 | a gated request naming no routed command gets "unknown cmd: <cmd>" and the connection stays open |
| BridgeSpec.PairingConsumesCode | src/main/java/net/nando256/twbridge/ws/BridgeServer.java:122-139 | with pairing required, a message creates a session only with the active, unexpired code; the code is then cleared and the new session id returned |
| BridgeSpec.NoCodeNoPairing | src/main/java/net/nando256/twbridge/ws/BridgeServer.java:122-128 | with no active code, no message creates a session or binding until the next rotation |
| BridgeSpec.FailedBindKeepsCode | src/main/java/net/nando256/twbridge/ws/BridgeServer.java:129-134 | a bind refused because the name is taken by another connection closes with 1008, creates no session and keeps the code |
| BridgeSpec.RepeatedPairStart | src/main/java/net/nando256/twbridge/ws/BridgeServer.java:94-97 | `pair.start` on a sessioned connection gets "session already established", stays open, and only its counter moves |
| Bridge.BridgeServer.constructor | src/main/java/net/nando256/twbridge/ws/BridgeServer.java:35-55 | the settings as given; empty maps, with a first code drawn when pairing is required |
| Bridge.BridgeServer.RotatePairCode | src/main/java/net/nando256/twbridge/ws/BridgeServer.java:57-63 | the new fields and the returned code are those of `BridgeSpec.RotatePairCode` |
| Bridge.BridgeServer.OnOpen | src/main/java/net/nando256/twbridge/ws/BridgeServer.java:65-80 | the new maps and the frames or close are those of `BridgeSpec.OnOpen`; the invariant is kept |
| Bridge.BridgeServer.OnMessage | src/main/java/net/nando256/twbridge/ws/BridgeServer.java:82-260 | the in-place updates and the frames, forwarded call or close are those of `BridgeSpec.OnMessage`; the invariant is kept |
| Bridge.BridgeServer.BindPlayer | src/main/java/net/nando256/twbridge/ws/BridgeServer.java:309-316 | `putIfAbsent` on the lower-cased name: bound iff `BridgeSpec.BindPlayer` succeeds, and the table is its result; nothing else changes |
| Bridge.BridgeServer.DispatchCommand | src/main/java/net/nando256/twbridge/ws/BridgeServer.java:148-256 | the step is `BridgeSpec.Dispatch` for the connection's owner |
| Bridge.BridgeServer.OnClose | src/main/java/net/nando256/twbridge/ws/BridgeServer.java:287-296 | the maps afterwards are `BridgeSpec.OnClose` of the ones before; the invariant is kept |
| Bridge.BridgeServer.ResetCounters | src/main/java/net/nando256/twbridge/ws/BridgeServer.java:48-52 | the state afterwards is `BridgeSpec.Tick` of the one before |
| HttpSpec.ServedPath | src/main/java/net/nando256/twbridge/http/TwHttpServer.java:38 | the served path is never blank, and a present, non-blank configured path is used as given |
| HttpSpec.SanitizeLangValid | src/main/java/net/nando256/twbridge/http/TwHttpServer.java:129-136 | the result matches `[a-z0-9]{2,8}(-[a-z0-9]{1,8})*`, has at most 32 characters, and is "en" or the normalised input |
| HttpSpec.SanitizeLangKeeps | src/main/java/net/nando256/twbridge/http/TwHttpServer.java:131-135 | the normalised input is kept iff it is a well-formed tag of at most 32 characters |
| HttpSpec.SanitizeLangIdempotent | src/main/java/net/nando256/twbridge/http/TwHttpServer.java:129-136 | sanitising a sanitised tag returns it unchanged |
| HttpSpec.NormalizedTag | src/main/java/net/nando256/twbridge/http/TwHttpServer.java:131 | a well-formed tag is its own normal form |
| HttpSpec.DefaultLangIsTag | src/main/java/net/nando256/twbridge/http/TwHttpServer.java:129-136 | "en" itself matches the tag pattern |
| HttpSpec.FirstLangPart | src/main/java/net/nando256/twbridge/http/TwHttpServer.java:142-146 | the index of the first non-empty part whose decoded key is "lang" in any case; none iff no part is |
| Http.TwHttpServer.FindLangPart | src/main/java/net/nando256/twbridge/http/TwHttpServer.java:142-146 | the early-return loop finds exactly `HttpSpec.FirstLangPart` |
| Http.TwHttpServer.ExtractLang | src/main/java/net/nando256/twbridge/http/TwHttpServer.java:138-151 | the method computes `HttpSpec.LangOfQuery`: "en" without a query or lang part, else the sanitised decoded text after the first '=' |
| HttpSpec.LangOfQueryValid | src/main/java/net/nando256/twbridge/http/TwHttpServer.java:138-151 | the extracted tag is always well-formed, at most 32 characters, and unchanged by `buildVariant`'s second sanitising |
| HttpSpec.EscapeForJsCharwise | src/main/java/net/nando256/twbridge/http/TwHttpServer.java:161-163 | the two whole-string replacements equal the per-character escape: `\` becomes `\\`, `"` becomes `\"`, and every other character is kept |
| HttpSpec.EscapeForJsRoundTrip | src/main/java/net/nando256/twbridge/http/TwHttpServer.java:161-163 | the escaped text in double quotes is a literal that ends exactly at the closing quote and reads back as the original string |
| HttpSpec.EscapedPlain | src/main/java/net/nando256/twbridge/http/TwHttpServer.java:161-163 | a string without `\` or `"` is its own escape |
| HttpSpec.SanitizedNeedsNoEscape | src/main/java/net/nando256/twbridge/http/TwHttpServer.java:119-121 | a sanitised tag is unchanged by escaping |
| HttpSpec.VariantReplacementLiteral | src/main/java/net/nando256/twbridge/http/TwHttpServer.java:121-123 | the declaration `buildVariant` passes to `replaceFirst` contains no `\` or `$`, so Java inserts it literally |
| HttpSpec.FindDeclLeftmost | src/main/java/net/nando256/twbridge/http/TwHttpServer.java:106-107 | `Matcher.find` of a declaration pattern gives the leftmost match, and none only when no position matches |
| HttpSpec.DeclaredValue | src/main/java/net/nando256/twbridge/http/TwHttpServer.java:120-124 | replacing the first declaration keeps the text before it and after it, and its literal reads back as the new value |
| HttpSpec.WsDefaultStep | src/main/java/net/nando256/twbridge/http/TwHttpServer.java:105-111 | with no non-blank `wsDefault` or no declaration the text is unchanged; otherwise only the first `WS_DEFAULT` declaration changes, and it denotes `wsDefault` |
| HttpSpec.ReplaceAllJoin | src/main/java/net/nando256/twbridge/http/TwHttpServer.java:113 | `String.replace` replaces every occurrence that joins the pieces, and nothing else |
| HttpSpec.FillBlockListEvery | src/main/java/net/nando256/twbridge/http/TwHttpServer.java:112-114 | every block-list placeholder is replaced by the list, and the text between placeholders is kept |
| HttpSpec.VariantDeclaresLang | src/main/java/net/nando256/twbridge/http/TwHttpServer.java:118-124 | the variant's `TWB_DEFAULT_LANG` literal denotes the sanitised tag, and the rest of the template is kept |
| Http.TwHttpServer.BuildBlockListJson | src/main/java/net/nando256/twbridge/http/TwHttpServer.java:167-182 | the builder loop yields `HttpSpec.BlockListJson`: the escaped entries in list order, between brackets, separated by commas |
| HttpSpec.BlockListRoundTrip | src/main/java/net/nando256/twbridge/http/TwHttpServer.java:167-182 | the block list parses back to the blocks it was built from, in order; it is "[]" iff the list is empty |
| HttpSpec.ParseEntryOf | src/main/java/net/nando256/twbridge/http/TwHttpServer.java:174-178 | one `["<name>","<id>"]` entry reads back as its block, with the text after it kept |
| HttpSpec.ServeStatus | src/main/java/net/nando256/twbridge/http/TwHttpServer.java:76-91 | 204 iff OPTIONS; 304 iff GET whose `If-None-Match` equals the etag; otherwise 200; a body iff 200 and not HEAD |
| Http.TwHttpServer.ServeJs | src/main/java/net/nando256/twbridge/http/TwHttpServer.java:68-92 | the status is `ServeStatus` for the variant of the query's tag, and the body is the variant exactly when one is sent |
| Http.TwHttpServer.constructor | src/main/java/net/nando256/twbridge/http/TwHttpServer.java:33-42 | a blank or missing path becomes "/tw/twbridge.js", a negative cache lifetime becomes 0, and the other settings are kept |
| Http.TwHttpServer.Start | src/main/java/net/nando256/twbridge/http/TwHttpServer.java:44-50 | loaded iff the script resource exists; the template then is `LoadTemplate` of it with the block list; otherwise unchanged |
| HttpSpec.QuoteInWsDefault | src/main/java/net/nando256/twbridge/http/TwHttpServer.java:108-109 | as written, `wsDefault` `a"b` writes `const WS_DEFAULT = "a"b";`, whose literal denotes only `a` (see Findings) |
| HttpSpec.JavaReplacementPlain | src/main/java/net/nando256/twbridge/http/TwHttpServer.java:109 | characters other than `\` and `$` pass through `replaceFirst`'s replacement syntax unchanged |
| Text.PadDecimalRoundTrip | src/main/java/net/nando256/twbridge/ws/BridgeServer.java:59 | `%06d` of a number below 10^6 reads back as that number |
| Text.LowerTrim | src/main/java/net/nando256/twbridge/TwBridgePlugin.java:730 | trimming and lower-casing commute |

## Left out

- Sockets, the HTTP server and its lifecycle are not modelled: `HttpServer.create`, `start`/`stop`, `root`, header writing (`setCommon`, `Cache-Control`, CORS headers) and the WebSocket transport. Frames are values returned by each step.
- Plugin lifecycle and configuration are not modelled: `onEnable`, `applyConfigAndStart`, `stopServers`, `onCommand`, `cleanupAgents`. Only the helpers they call are.
- Threads are not modelled. `runSync`, the `CountDownLatch` wait in `resolveOnlinePlayerName`, `java.util.Timer` and `ConcurrentHashMap` atomicity are all treated as sequential. The pair-code check and clear in `onMessage` are separate volatile accesses, so single use of a code holds only in this sequential model.
- `resolveOnlinePlayerName` and player lookup are parameters (`Env.resolvePlayer`, `Server.playerExact`, `Server.playerMatching`). So are `dispatchCommand`, `Material.matchMaterial`, `isItem` and `isBlock`.
- The armour-stand cosmetics are not modelled: the `spawnAgent` setup, `createGolemHead`, `createLeatherArmor`, `animateAgentMove`, and the interaction and damage event handlers. A spawn is an entity id supplied by the caller, or none when spawning fails.
- `resolveDirectionVector` is not modelled: the facing-relative unit vector is a parameter (`Server.unitVector`). Floating-point maths is idealised as exact `real` arithmetic, including `float` rounding in `normalizeYaw`.
- Unreachable failures are not modelled: `handleAgentMove`'s "unable to resolve direction" and "invalid target", and `handleAgentPlace`'s "invalid target". A normalised direction always resolves, and a stand's location always has a world.
- JSON is abstracted: org.json parsing becomes `BridgeSpec.Request`, with each member as its string form, and serialisation becomes `BridgeSpec.Reply`. A message that fails to parse is `None`.
- `UUID.randomUUID`, `UUID.fromString(..).toString()`, `SecureRandom` and `System.currentTimeMillis` are parameters. An answer's id is the request id in its canonical UUID form, not a verbatim copy.
- `calcEtag` is a parameter (`etagOf`): SHA-256 with Base64. The UTF-8 encoding of the variant is not modelled, nor its byte length.
- `URLDecoder.decode` with its fallback (`decodeSafe`) is a parameter (`decode`).
- `variantCache` is not modelled. Each request computes its variant afresh, which gives the same text.
- `URI.getRawQuery` is not modelled: the query is an input, and a request without a URI is treated like one without a query.
- Case mapping covers ASCII letters only. `Locale.ROOT`'s full Unicode case tables are not modelled.
- `computeBlockList` and the `Material` enum are not modelled: the list of blocks is an input to `Start`.
- `HttpSpec.ReadLiteral` understands only the `\\` and `\"` escapes that `escapeForJs` writes, not the other JavaScript escapes.
- `HttpSpec.JavaReplacement` treats every `$` as an error, including the valid group reference `$0`. The replacements here never contain `$` unless the configured value does.
- `HttpSpec.FillBlockListEvery` is stated for a template split into pieces in which no placeholder begins, and so does not cover a piece that ends in a proper prefix of the placeholder which the following placeholder completes: in `__TWB_BLOCK_CHOICES__TWB_BLOCK_CHOICES__` occurrences overlap at 0 and 19, and Java's left-to-right scan replaces only the first.
- `Geometry.NormalizeYaw` follows the code: the range is [-180, 180), because Java's `%` truncates toward zero and the code then corrects once in each direction (TwBridgePlugin.java:710-715).
- The slot commands (`agent.slot.*` and `agent.place`) are not routed by the dispatcher: they get "unknown cmd". Their handlers are modelled anyway.

## Findings

| source | as written | input that shows it | evidently intended | confidence | as-written member | corrected member |
|---|---|---|---|---|---|---|
| src/main/java/net/nando256/twbridge/http/TwHttpServer.java:108-109 | `matcher.replaceFirst` reads its argument as replacement syntax. A `\` makes the next character literal, so the backslashes `escapeForJs` added are consumed. A trailing `\` or a `$` throws. | `wsDefault` = `a"b` with the template `const WS_DEFAULT = "x";` gives `const WS_DEFAULT = "a"b";`. The literal denotes `a`, and `b";` is left as stray script text. | The declaration is replaced literally, as `Matcher.quoteReplacement` would do, and its literal reads back as `wsDefault` | medium, not executed | HttpSpec.QuoteInWsDefault | HttpSpec.WsDefaultStep |

The same call in `buildVariant` (TwHttpServer.java:123) is harmless: a sanitised tag contains neither `\` nor `"` (`HttpSpec.SanitizedNeedsNoEscape`), so the whole declaration it passes holds no `\` or `$` and is inserted literally (`HttpSpec.VariantReplacementLiteral`). The rest of the model (`HttpSpec.WithWsDefault`, `HttpSpec.LoadTemplate`) uses the literal substitution.
