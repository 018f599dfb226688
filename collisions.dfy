/** The rules of engagement applied when one unit moves onto a square another unit occupies. */
module Collisions {
  import opened Board

  /** Which of the two colliding units a rule acts upon. */
  datatype Side = Mover | CollidedOn {
    function Other(): Side {
      if this == Mover then CollidedOn else Mover
    }
  }

  /** What a collision does: nothing, kill the player on one side, or let the player on one
      side eat the pellet on the other. */
  datatype Effect = NoEffect | Kill(victim: Side) | Eat(eater: Side) {

    /** The same effect seen with the roles of mover and collided-on swapped. */
    function Mirrored(): Effect {
      match this
      case NoEffect => NoEffect
      case Kill(v) => Kill(v.Other())
      case Eat(e) => Eat(e.Other())
    }
  }

  /** The collision map: the effect of `mover` entering the square of `collidedOn`. */
  function Rule(mover: Kind, collidedOn: Kind): (e: Effect)
    ensures e.Kill? ==> (if e.victim == Mover then mover else collidedOn) == Player
    ensures e.Eat? ==> (if e.eater == Mover then mover else collidedOn) == Player
  {
    match (mover, collidedOn)
    case (Player, Ghost(_)) => Kill(Mover)
    case (Ghost(_), Player) => Kill(CollidedOn)
    case (Player, Pellet) => Eat(Mover)
    case (Pellet, Player) => Eat(CollidedOn)
    case _ => NoEffect
  }

  /** A player's observable state. */
  datatype Status = Status(score: int, alive: bool)

  /** The state of the unit on `side` after effect `e`. */
  function Affect(e: Effect, side: Side, s: Status): (r: Status)
    ensures e == Kill(side) ==> !r.alive && r.score == s.score
    ensures e == Eat(side) ==> r.score > s.score && r.alive == s.alive
    ensures e != Kill(side) && e != Eat(side) ==> r == s
  {
    if e == Kill(side) then Status(s.score, false)
    else if e == Eat(side) then Status(s.score + PelletValue, s.alive)
    else s
  }

  /** Applies the rule for the pair to the two units; nothing but their score and alive flag
      can change. */
  method Collide(mover: Unit, collidedOn: Unit)
    modifies mover`score, mover`alive, collidedOn`score, collidedOn`alive
    ensures Status(mover.score, mover.alive)
         == Affect(Rule(mover.kind, collidedOn.kind), Mover, old(Status(mover.score, mover.alive)))
    ensures Status(collidedOn.score, collidedOn.alive)
         == Affect(Rule(mover.kind, collidedOn.kind), CollidedOn,
                   old(Status(collidedOn.score, collidedOn.alive)))
  {
    var e := Rule(mover.kind, collidedOn.kind);
    match e
    case Kill(Mover) =>
      mover.alive := false;
    case Kill(CollidedOn) =>
      collidedOn.alive := false;
    case Eat(Mover) =>
      mover.score := mover.score + PelletValue;
    case Eat(CollidedOn) =>
      collidedOn.score := collidedOn.score + PelletValue;
    case NoEffect =>
  }

  /** The map is symmetric: swapping mover and collided-on swaps the roles and nothing else. */
  lemma RuleSymmetric(a: Kind, b: Kind)
    ensures Rule(b, a) == Rule(a, b).Mirrored()
  {
  }

  /** A player meeting a ghost dies whichever of the two moved. */
  lemma GhostKillsPlayerEitherWay(v: GhostVariant, s: Status)
    ensures !Affect(Rule(Player, Ghost(v)), Mover, s).alive
    ensures !Affect(Rule(Ghost(v), Player), CollidedOn, s).alive
  {
  }

  /** A player meeting a pellet gains points whichever of the two moved. */
  lemma PlayerEatsPelletEitherWay(s: Status)
    ensures Affect(Rule(Player, Pellet), Mover, s).score > s.score
    ensures Affect(Rule(Pellet, Player), CollidedOn, s).score > s.score
  {
  }

  /** Two players meeting leave each other as they were. */
  lemma PlayersIgnoreEachOther(s: Status, side: Side)
    ensures Affect(Rule(Player, Player), side, s) == s
  {
  }
}
