/**
 * The block-grid geometry of the agent commands: snapping a location to the centre of
 * its block, turning by whole quarter turns, and clamping a move distance. Java's
 * `double`/`float` arithmetic is idealised as exact `real` arithmetic.
 */
module Geometry {

  datatype Vec3 = Vec3(x: real, y: real, z: real)

  /** A Bukkit `Location` without its world: position and facing (degrees). */
  datatype Location = Location(x: real, y: real, z: real, yaw: real, pitch: real)

  /** Integer block coordinates, as `Location.getBlock()` selects them. */
  datatype Cell = Cell(x: int, y: int, z: int)

  function Add(l: Location, v: Vec3): Location {
    l.(x := l.x + v.x, y := l.y + v.y, z := l.z + v.z)
  }

  function Scale(v: Vec3, k: real): Vec3 {
    Vec3(v.x * k, v.y * k, v.z * k)
  }

  /** The block containing a location: the floor of each coordinate. */
  function CellOf(l: Location): Cell {
    Cell(l.x.Floor, l.y.Floor, l.z.Floor)
  }

  /** Horizontally centred in a block (fractional part one half) and standing on the
      block's floor (integral height). */
  predicate OnGrid(l: Location) {
    && l.x == l.x.Floor as real + 0.5
    && l.y == l.y.Floor as real
    && l.z == l.z.Floor as real + 0.5
  }

  lemma FloorOfCentre(k: int)
    ensures (k as real + 0.5).Floor == k
    ensures (k as real).Floor == k
  {
  }

  /** `normalizeLocation`: the centre of the location's block, facing dropped
      (a fresh Bukkit Location has yaw and pitch 0). */
  function NormalizeLocation(l: Location): (r: Location)
    ensures OnGrid(r) && CellOf(r) == CellOf(l)
    ensures r.yaw == 0.0 && r.pitch == 0.0
  {
    FloorOfCentre(l.x.Floor);
    FloorOfCentre(l.y.Floor);
    FloorOfCentre(l.z.Floor);
    Location(l.x.Floor as real + 0.5, l.y.Floor as real + 0.0, l.z.Floor as real + 0.5, 0.0, 0.0)
  }

  /** `normalizeAgentTarget` with a reference location: the same block centre as
      `normalizeLocation`, but facing the way the reference faces. */
  function NormalizeAgentTarget(raw: Location, reference: Location): (r: Location)
    ensures OnGrid(r) && CellOf(r) == CellOf(raw)
    ensures r.yaw == reference.yaw && r.pitch == reference.pitch
    ensures r.(yaw := 0.0, pitch := 0.0) == NormalizeLocation(raw)
  {
    FloorOfCentre(raw.x.Floor);
    FloorOfCentre(raw.y.Floor);
    FloorOfCentre(raw.z.Floor);
    Location(raw.x.Floor as real + 0.5, raw.y.Floor as real, raw.z.Floor as real + 0.5,
             reference.yaw, reference.pitch)
  }

  /** Snapping is idempotent, and the on-grid locations are exactly its fixed points
      (up to the dropped facing). */
  lemma SnapIdempotent(l: Location)
    ensures NormalizeLocation(NormalizeLocation(l)) == NormalizeLocation(l)
    ensures OnGrid(l) <==> NormalizeLocation(l) == l.(yaw := 0.0, pitch := 0.0)
    ensures NormalizeAgentTarget(NormalizeAgentTarget(l, l), l) == NormalizeAgentTarget(l, l)
  {
  }

  /** Java's `%` on floats truncates toward zero: the remainder has the sign of the
      dividend. */
  function Trunc(a: real): int {
    if a >= 0.0 then a.Floor else -((-a).Floor)
  }

  /** `a` and `b` name the same direction: they differ by a whole number of turns. */
  predicate SameAngle(a: real, b: real) {
    ((a - b) / 360.0).Floor as real == (a - b) / 360.0
  }

  lemma SameAngleByTurns(a: real, b: real, k: int)
    requires a - b == 360.0 * k as real
    ensures SameAngle(a, b)
  {
    assert (a - b) / 360.0 == k as real;
  }

  /** `normalizeYaw`: `yaw % 360`, then one correction into [-180, 180). */
  function NormalizeYaw(yaw: real): (r: real)
    ensures -180.0 <= r < 180.0
    ensures SameAngle(r, yaw)
  {
    var t := Trunc(yaw / 360.0);
    var rem := yaw - 360.0 * t as real;
    var once := if rem < -180.0 then rem + 360.0 else rem;
    var normalized := if once >= 180.0 then once - 360.0 else once;
    SameAngleByTurns(normalized, yaw,
      -t + (if rem < -180.0 then 1 else 0) - (if once >= 180.0 then 1 else 0));
    normalized
  }

  /** The normalised yaw is the only angle in [-180, 180) naming the same direction,
      so normalising an angle already in range returns it unchanged. */
  lemma NormalizeYawUnique(yaw: real, other: real)
    requires -180.0 <= other < 180.0 && SameAngle(other, yaw)
    ensures NormalizeYaw(yaw) == other
  {
    var r := NormalizeYaw(yaw);
    var k := ((other - yaw) / 360.0).Floor;
    var j := ((r - yaw) / 360.0).Floor;
    assert other - yaw == 360.0 * k as real;
    assert r - yaw == 360.0 * j as real;
    assert other - r == 360.0 * (k - j) as real;
  }

  /** `Math.max(0, Math.min(Math.abs(blocks), 64.0))`. */
  function ClampDistance(blocks: real): (d: real)
    ensures 0.0 <= d <= 64.0
    ensures d == 64.0 <==> (blocks >= 64.0 || blocks <= -64.0)
    ensures -64.0 <= blocks <= 64.0 ==> d == (if blocks < 0.0 then -blocks else blocks)
  {
    var magnitude := if blocks < 0.0 then -blocks else blocks;
    var capped := if magnitude < 64.0 then magnitude else 64.0;
    if 0.0 < capped then capped else 0.0
  }
}
