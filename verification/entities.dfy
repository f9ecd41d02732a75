/** The live combatant of game/entities.py. Unlike the search's transition, its attack uses the
    combatants' own attack and defense values, and hp is never floored at 0. */
module Entities {

  /** The fixed amount `heal` adds. */
  const HealAmount: int := 10

  /** Damage of an attack: attack minus the target's defense, doubled defense while the target
      defends, and never less than 1. */
  function StrikeDamage(atk: int, defense: int, targetDefending: bool): (damage: int)
    ensures damage >= 1
    ensures var raw := atk - (if targetDefending then 2 * defense else defense);
      (raw >= 1 ==> damage == raw) && (raw < 1 ==> damage == 1)
  {
    var raw := atk - (if targetDefending then defense * 2 else defense);
    if raw > 1 then raw else 1
  }

  /** With a non-negative defense, defending never lets more damage through. */
  lemma DefendingNeverHurts(atk: int, defense: int)
    requires defense >= 0
    ensures StrikeDamage(atk, defense, true) <= StrikeDamage(atk, defense, false)
  {
  }

  /** hp after `heal`: 10 more, capped at the maximum. From at or below the maximum it gains at
      most 10 and never passes the maximum; from above the maximum it drops to the maximum. */
  function HealedHp(hp: int, maxHp: int): (r: int)
    ensures r <= maxHp
    ensures r == hp + HealAmount || r == maxHp
    ensures hp <= maxHp ==> hp <= r <= hp + HealAmount
    ensures hp + HealAmount <= maxHp ==> r == hp + HealAmount
    ensures hp > maxHp ==> r == maxHp
  {
    if maxHp <= hp + HealAmount then maxHp else hp + HealAmount
  }

  /** `Character`: a live combatant, mutated in place by its own actions. */
  class Character {
    const name: string
    var hp: int
    var maxHp: int
    var atk: int
    var defense: int
    var isDefending: bool

    /** `__init__`: the starting hp is also the maximum, and nobody starts defending. */
    constructor Init(name: string, hp: int, atk: int, defense: int)
      ensures this.name == name && this.hp == hp && this.atk == atk && this.defense == defense
      ensures maxHp == hp && !isDefending
      ensures Valid()
      ensures IsAlive() <==> hp > 0
    {
      this.name := name;
      this.hp := hp;
      this.maxHp := hp;
      this.atk := atk;
      this.defense := defense;
      this.isDefending := false;
    }

    /** `is_alive`. */
    predicate IsAlive()
      reads this
    {
      hp > 0
    }

    /** hp does not exceed the maximum; every action below preserves this. */
    predicate Valid()
      reads this
    {
      hp <= maxHp
    }

    /** `attack(target)`: returns the damage and lowers the target's hp by exactly that much,
        possibly below 0; every other field of both combatants is left alone. */
    method Attack(target: Character) returns (damage: int)
      modifies target
      ensures damage == StrikeDamage(old(atk), old(target.defense), old(target.isDefending))
      ensures damage >= 1
      ensures target.hp == old(target.hp) - damage
      ensures target.maxHp == old(target.maxHp) && target.atk == old(target.atk)
      ensures target.defense == old(target.defense) && target.isDefending == old(target.isDefending)
      ensures target != this ==> hp == old(hp) && maxHp == old(maxHp) && atk == old(atk)
      ensures target != this ==> defense == old(defense) && isDefending == old(isDefending)
      ensures old(target.Valid()) ==> target.Valid()
    {
      damage := StrikeDamage(atk, target.defense, target.isDefending);
      target.hp := target.hp - damage;
    }

    /** `defend`: raises the flag and changes nothing else. */
    method Defend()
      modifies this
      ensures isDefending
      ensures hp == old(hp) && maxHp == old(maxHp) && atk == old(atk) && defense == old(defense)
    {
      isDefending := true;
    }

    /** `heal`: moves hp to `HealedHp` and returns nothing (the live caller in the window binds
        the missing result to `healing_done`). */
    method Heal()
      modifies this
      ensures hp == HealedHp(old(hp), maxHp)
      ensures maxHp == old(maxHp) && atk == old(atk) && defense == old(defense)
      ensures isDefending == old(isDefending)
      ensures old(Valid()) ==> Valid() && old(hp) <= hp <= old(hp) + HealAmount
    {
      hp := HealedHp(hp, maxHp);
    }

    /** `reset_turn`: clears the flag and changes nothing else. */
    method ResetTurn()
      modifies this
      ensures !isDefending
      ensures hp == old(hp) && maxHp == old(maxHp) && atk == old(atk) && defense == old(defense)
    {
      isDefending := false;
    }
  }
}
