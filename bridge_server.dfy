/**
 * `BridgeServer` as an object: its settings, the three connection maps and the pairing
 * code, updated in place by the WebSocket callbacks. Each callback is proved to do
 * exactly what its function in `BridgeSpec` describes and to keep sessions and player
 * bindings in one-to-one correspondence; the protocol's properties are proved there.
 */
module Bridge {
  import opened Basics
  import opened Text
  import opened BridgeSpec

  class BridgeServer {
    const pairingRequired: bool
    const pairWindowSeconds: int
    const maxMsgPerSec: int
    const maxMsgBytes: int
    const allowedOrigins: set<string>

    var counters: map<Conn, int>
    var sessions: map<Conn, Session>
    var playerBindings: map<string, Conn>
    var activePairCode: Option<string>
    var pairExpireAt: int

    /** The settings as a value. */
    function Settings(): Config {
      Config(pairingRequired, pairWindowSeconds, maxMsgPerSec, maxMsgBytes, allowedOrigins)
    }

    /** The mutable state as a value. */
    ghost function Model(): State
      reads this
    {
      State(counters, sessions, playerBindings, activePairCode, pairExpireAt)
    }

    ghost predicate Valid()
      reads this
    {
      Inv(Model())
    }

    /** The server as built: empty maps and, when pairing is required, a first code
        drawn at `now` from `random`. */
    constructor (allowedOrigins: set<string>, maxMsgPerSec: int, maxMsgBytes: int,
                 pairingRequired: bool, pairWindowSeconds: int, now: int, random: nat)
      requires random < PairCodeRange
      ensures Settings() == Config(pairingRequired, pairWindowSeconds, maxMsgPerSec, maxMsgBytes, allowedOrigins)
      ensures Valid() && Model() == BridgeSpec.RotatePairCode(Settings(), Initial(), now, random).0
    {
      this.allowedOrigins := allowedOrigins;
      this.maxMsgPerSec := maxMsgPerSec;
      this.maxMsgBytes := maxMsgBytes;
      this.pairingRequired := pairingRequired;
      this.pairWindowSeconds := pairWindowSeconds;
      counters := map[];
      sessions := map[];
      playerBindings := map[];
      activePairCode := None;
      pairExpireAt := 0;
      new;
      if pairingRequired {
        var _ := RotatePairCode(now, random);
      }
    }

    /** `rotatePairCode`: with pairing required, a new six-digit code valid for the
        window from `now`. */
    method RotatePairCode(now: int, random: nat) returns (code: Option<string>)
      requires Valid() && random < PairCodeRange
      modifies this
      ensures Valid()
      ensures (Model(), code) == BridgeSpec.RotatePairCode(Settings(), old(Model()), now, random)
    {
      if !pairingRequired {
        return None;
      }
      assert Pow10(PairCodeDigits) == PairCodeRange;
      activePairCode := Some(PadDecimal(random, PairCodeDigits));
      pairExpireAt := now + pairWindowSeconds * 1000;
      code := activePairCode;
    }

    /** `onOpen`. */
    method OnOpen(conn: Conn, addressKnown: bool, origin: Option<string>) returns (step: Step)
      requires Valid()
      modifies this
      ensures Valid()
      ensures Transition(Model(), step) == BridgeSpec.OnOpen(Settings(), old(Model()), conn, addressKnown, origin)
    {
      if !addressKnown {
        return Closing(PolicyViolation, "address unknown");
      }
      if !OriginAllowed(allowedOrigins, origin) {
        return Closing(PolicyViolation, "origin not allowed");
      }
      counters := counters[conn := 0];
      step := Step([Hello(pairingRequired)], None, None);
    }

    /** `onMessage`. */
    method OnMessage(conn: Conn, env: Env, length: nat, req: Option<Request>) returns (step: Step)
      requires Valid()
      modifies this
      ensures Valid()
      ensures Transition(Model(), step) == BridgeSpec.OnMessage(Settings(), old(Model()), conn, env, length, req)
    {
      ghost var before := Model();
      step := Receive(conn, env, length, req);
      MessageKeepsInv(Settings(), before, conn, env, length, req);
    }

    /** The steps of `onMessage`: the size limit, the counter, the rate limit, then the
        request. */
    method Receive(conn: Conn, env: Env, length: nat, req: Option<Request>) returns (step: Step)
      modifies this
      ensures Transition(Model(), step) == BridgeSpec.OnMessage(Settings(), old(Model()), conn, env, length, req)
    {
      if length > maxMsgBytes {
        return Closing(MessageTooBig, "msg too large");
      }
      counters := counters[conn := if conn in counters then counters[conn] + 1 else 1];
      if counters[conn] > maxMsgPerSec {
        return Closing(InternalError, "rate limit");
      }
      if req.None? {
        return Closing(InternalError, "bad message");
      }
      var id := RequestId(env, req.value);
      if id.None? {
        return Closing(InternalError, "bad message");
      }
      var cmd := req.value.cmd.GetOr("");
      if cmd == "pair.start" {
        step := PairStart(conn, env, id.value, ArgsOf(req.value));
        return;
      }
      if pairingRequired && !ActiveSession(Settings(), sessions, conn, req.value) {
        return Refuse(id.value, "not paired", "pairing required");
      }
      step := DispatchCommand(conn, id.value, cmd, ArgsOf(req.value), req.value.blocks);
    }

    /** The `pair.start` branch of `onMessage`. */
    method PairStart(conn: Conn, env: Env, id: string, args: Args) returns (step: Step)
      modifies this
      ensures Transition(Model(), step) == BridgeSpec.PairStart(Settings(), old(Model()), conn, env, id, args)
    {
      if conn in sessions {
        return Answer(id, "session already established");
      }
      if args.player == [] {
        return Refuse(id, "player required", "player required");
      }
      var resolved := env.resolvePlayer(args.player);
      if resolved.None? {
        return Refuse(id, "player not online", "player not online");
      }
      if !pairingRequired {
        var bound := BindPlayer(resolved.value, conn);
        if !bound {
          return Refuse(id, "player already bound", "player already bound");
        }
        sessions := sessions[conn := Session(env.newSessionId, env.now, resolved.value)];
        return Step([Ok(id, Some(env.newSessionId))], None, None);
      }
      if activePairCode != Some(args.code) || env.now > pairExpireAt {
        return Refuse(id, "invalid or expired code", "invalid or expired code");
      }
      var bound := BindPlayer(resolved.value, conn);
      if !bound {
        return Refuse(id, "player already bound", "player already bound");
      }
      sessions := sessions[conn := Session(env.newSessionId, env.now, resolved.value)];
      activePairCode := None;
      pairExpireAt := 0;
      step := Step([Ok(id, Some(env.newSessionId))], None, None);
    }

    /** `bindPlayer`: `putIfAbsent` on the lower-cased name; it fails only when the name
        is bound to another connection. */
    method BindPlayer(player: string, conn: Conn) returns (bound: bool)
      modifies this
      ensures var r := BridgeSpec.BindPlayer(old(playerBindings), player, conn);
              bound == r.Some? && playerBindings == if bound then r.value else old(playerBindings)
      ensures counters == old(counters) && sessions == old(sessions)
      ensures activePairCode == old(activePairCode) && pairExpireAt == old(pairExpireAt)
    {
      var normalized := BindingKey(player);
      var existing := if normalized in playerBindings then Some(playerBindings[normalized]) else None;
      if existing.None? {
        playerBindings := playerBindings[normalized := conn];
      }
      bound := !(existing.Some? && existing.value != conn);
    }

    /** The command branches of `onMessage`, for a request that got past the session
        check. */
    method DispatchCommand(conn: Conn, id: string, cmd: string, args: Args, blocks: Blocks) returns (step: Step)
      ensures step == Dispatch(Owner(sessions, conn), id, cmd, args, blocks)
    {
      var owner := Owner(sessions, conn);
      if cmd == "command.run" {
        if args.command == [] {
          return Answer(id, "command missing");
        }
        return Forwarding(id, RunCommand(args.command));
      }
      if cmd == "agent.teleportToPlayer" {
        if args.agentId == [] {
          return Answer(id, "agentId required");
        }
        if owner.None? {
          return Answer(id, "player not bound");
        }
        return Forwarding(id, TeleportToPlayer(args.agentId, owner.value));
      }
      if cmd == "agent.move" {
        var distance := if blocks.Finite? then blocks.value else 0.0;
        if args.agentId == [] {
          return Answer(id, "agentId required");
        }
        if blocks.NotFinite? {
          return Answer(id, "blocks must be a number");
        }
        if owner.None? {
          return Answer(id, "player not bound");
        }
        return Forwarding(id, Move(args.agentId, owner.value, args.moveDirection, distance));
      }
      if cmd == "agent.rotate" {
        if args.agentId == [] {
          return Answer(id, "agentId required");
        }
        if owner.None? {
          return Answer(id, "player not bound");
        }
        return Forwarding(id, Rotate(args.agentId, owner.value, args.rotateDirection));
      }
      if cmd == "agent.despawn" {
        if args.agentId == [] {
          return Answer(id, "agentId required");
        }
        if owner.None? {
          return Answer(id, "player not bound");
        }
        return Forwarding(id, Despawn(args.agentId, owner.value));
      }
      step := Answer(id, "unknown cmd: " + cmd);
    }

    /** `onClose`: the counter and session go, and the binding while it still names this
        connection. */
    method OnClose(conn: Conn)
      requires Valid()
      modifies this
      ensures Valid()
      ensures Model() == BridgeSpec.OnClose(old(Model()), conn)
    {
      ghost var before := Model();
      counters := counters - {conn};
      var session := if conn in sessions then Some(sessions[conn]) else None;
      sessions := sessions - {conn};
      if session.Some? {
        var normalized := BindingKey(session.value.player);
        if normalized in playerBindings && playerBindings[normalized] == conn {
          playerBindings := playerBindings - {normalized};
        }
      }
      CloseKeepsInv(before, conn);
    }

    /** The timer task: `counters.replaceAll((k, v) -> 0)`. */
    method ResetCounters()
      requires Valid()
      modifies this
      ensures Valid()
      ensures Model() == Tick(old(Model()))
    {
      counters := map c | c in counters :: 0;
    }
  }
}
