/** The combat routes of dashboard/app.py over one save record. Stats, dice and the enemy drawn are inputs. */
module Combat {
  import opened Wrappers

  // A row of the enemy tables: the level-independent part of an enemy.
  datatype Template = Template(boss: bool, health: int, strength: int, defense: int, magic: int,
                               special: Option<string>, cooldown: Option<int>)

  datatype Enemy = Enemy(boss: bool, health: int, maxHealth: int, strength: int, defense: int, magicResist: int,
                         special: Option<string>, cooldown: int, counter: int, defeated: bool)

  // The fields of a save record that combat touches; None is a field not set yet.
  datatype Save = Save(inCombat: bool, enemy: Option<Enemy>, maxHealth: Option<int>, health: Option<int>,
                       enemies: Option<int>, bosses: Option<int>)

  const NEW_GAME := Save(false, None, None, None, None, None)

  function Max(a: int, b: int): int {
    if a < b then b else a
  }

  function Or(o: Option<int>, d: int): int {
    match o case None => d case Some(v) => v
  }

  // s.get("current_health", s.get("max_health", 20))
  function Health(s: Save): int {
    Or(s.health, Or(s.maxHealth, 20))
  }

  function Generate(t: Template, level: int): Enemy {
    var m := if t.boss then 2 else 1;
    var health := (t.health + level * 8) * m;
    Enemy(t.boss, health, health, (t.strength + level * 2) * m, (t.defense + level) * m, (t.magic + level) * m,
          t.special, Or(t.cooldown, 3), 0, false)
  }

  datatype Op =
    | Start(template: Template, level: int, stamina: int)
    | Attack(magic: bool, attack: int, quality: int, stamina: int)
    | Flee(escapes: bool)

  function Started(s: Save, t: Template, level: int, stamina: int): Save {
    var maxHealth := Or(s.maxHealth, Max(10, stamina * 2));
    Save(true, Some(Generate(t, level)), Some(maxHealth), Some(Or(s.health, maxHealth)),
         Some(Or(s.enemies, 0)), Some(Or(s.bosses, 0)))
  }

  predicate Accepts(s: Save) {
    s.inCombat && s.enemy.Some? && !s.enemy.value.defeated
  }

  function Damage(e: Enemy, magic: bool, attack: int, quality: int): int {
    var q := if quality < 1 then 1 else if quality > 4 then 4 else quality;
    Max(1, attack + q - 1 - if magic then e.magicResist else e.defense)
  }

  predicate SpecialFires(e: Enemy) {
    e.special.Some? && e.special.value != "" && e.counter + 1 >= e.cooldown
  }

  // The enemy strikes back; its special ability may change the damage.
  function Retaliation(e: Enemy, stamina: int): int {
    if SpecialFires(e) && e.special.value == "fire_breath" then Max(1, e.strength)
    else if SpecialFires(e) && e.special.value == "mind_control" then 0
    else Max(1, e.strength - stamina)
  }

  function Attacked(s: Save, magic: bool, attack: int, quality: int, stamina: int): Save
    requires Accepts(s)
  {
    var e := s.enemy.value;
    var health := Max(0, e.health - Damage(e, magic, attack, quality));
    if health <= 0 then
      s.(inCombat := false, enemy := Some(e.(health := health, defeated := true)),
         enemies := Some(Or(s.enemies, 0) + 1),
         bosses := if e.boss then Some(Or(s.bosses, 0) + 1) else s.bosses)
    else
      var mine := Max(0, Health(s) - Retaliation(e, stamina));
      s.(inCombat := mine > 0, health := Some(mine),
         enemy := Some(e.(health := health, counter := if SpecialFires(e) then 0 else e.counter + 1)))
  }

  function Fled(s: Save, escapes: bool): Save {
    if escapes then s.(inCombat := false, enemy := None)
    else
      var strength := if s.enemy.None? || s.enemy.value.strength == 0 then 5 else s.enemy.value.strength;
      var mine := Max(0, Health(s) - Max(1, strength / 2));
      s.(health := Some(mine), inCombat := s.inCombat && mine > 0)
  }

  function Step(s: Save, op: Op): Save {
    match op
    case Start(t, level, stamina) => Started(s, t, level, stamina)
    case Attack(magic, attack, quality, stamina) =>
      if Accepts(s) then Attacked(s, magic, attack, quality, stamina) else s
    case Flee(escapes) => Fled(s, escapes)
  }

  class Record {
    var save: Save

    constructor (s: Save)
      ensures save == s
    {
      save := s;
    }

    method CombatStart(t: Template, level: int, stamina: int)
      modifies this
      ensures save == Step(old(save), Start(t, level, stamina))
      ensures old(Inv(save)) && Proper(Start(t, level, stamina)) ==> Inv(save)
    {
      if Inv(save) && Proper(Start(t, level, stamina)) {
        InvStep(save, Start(t, level, stamina));
      }
      var maxHealth := Max(10, stamina * 2);
      if save.maxHealth.None? {
        save := save.(maxHealth := Some(maxHealth));
      }
      if save.health.None? {
        save := save.(health := save.maxHealth);
      }
      save := save.(enemy := Some(Generate(t, level)), inCombat := true);
      save := save.(enemies := Some(Or(save.enemies, 0)), bosses := Some(Or(save.bosses, 0)));
    }

    method CombatFlee(escapes: bool)
      modifies this
      ensures save == Step(old(save), Flee(escapes)) && (old(Inv(save)) ==> Inv(save))
    {
      if Inv(save) {
        InvStep(save, Flee(escapes));
      }
      if escapes {
        save := save.(inCombat := false, enemy := None);
      } else {
        var strength := 5;
        if save.enemy.Some? && save.enemy.value.strength != 0 {
          strength := save.enemy.value.strength;
        }
        save := save.(health := Some(Max(0, Health(save) - Max(1, strength / 2))));
        if save.health.value <= 0 {
          save := save.(inCombat := false);
        }
      }
    }

    method CombatAttack(magic: bool, attack: int, quality: int, stamina: int) returns (accepted: bool)
      modifies this
      ensures accepted <==> old(save.inCombat && save.enemy.Some? && !save.enemy.value.defeated)
      ensures save == Step(old(save), Attack(magic, attack, quality, stamina)) && (old(Inv(save)) ==> Inv(save))
    {
      if Inv(save) {
        InvStep(save, Attack(magic, attack, quality, stamina));
      }
      if !save.inCombat || save.enemy.None? {
        return false;
      }
      var enemy := save.enemy.value;
      if enemy.defeated {
        return false;
      }
      var damage := Damage(enemy, magic, attack, quality);
      enemy := enemy.(health := Max(0, enemy.health - damage));
      if enemy.health <= 0 {
        enemy := enemy.(defeated := true);
        save := save.(inCombat := false, enemies := Some(Or(save.enemies, 0) + 1));
        if enemy.boss {
          save := save.(bosses := Some(Or(save.bosses, 0) + 1));
        }
      } else {
        enemy := enemy.(counter := enemy.counter + 1);
        var struck := Max(1, enemy.strength - stamina);
        if enemy.special.Some? && enemy.special.value != "" && enemy.counter >= enemy.cooldown {
          enemy := enemy.(counter := 0);
          if enemy.special.value == "fire_breath" {
            struck := Max(1, enemy.strength);
          } else if enemy.special.value == "mind_control" {
            struck := 0;
          }
        }
        save := save.(health := Some(Max(0, Health(save) - struck)));
        if save.health.value <= 0 {
          save := save.(inCombat := false);
        }
      }
      save := save.(enemy := Some(enemy));
      return true;
    }
  }

  // ---------- The rules, with their numbers ----------

  // A new enemy: twice as strong when it is a boss, and stronger with the level.
  lemma GeneratedExactly(t: Template, level: int)
    ensures var e := Generate(t, level);
      && e.health == e.maxHealth && e.boss == t.boss && e.special == t.special && e.counter == 0 && !e.defeated
      && e.cooldown == (match t.cooldown case None => 3 case Some(n) => n)
      && (!t.boss ==> e.health == t.health + 8 * level && e.strength == t.strength + 2 * level
                      && e.defense == t.defense + level && e.magicResist == t.magic + level)
      && (t.boss ==> e.health == 2 * t.health + 16 * level && e.strength == 2 * t.strength + 4 * level
                     && e.defense == 2 * t.defense + 2 * level && e.magicResist == 2 * t.magic + 2 * level)
  {}

  // What a start sets: health only where there is none yet, at twice the stamina and at least 10.
  lemma StartedExactly(s: Save, t: Template, level: int, stamina: int)
    ensures var u := Step(s, Start(t, level, stamina));
      && u.inCombat && u.enemy == Some(Generate(t, level))
      && (s.maxHealth.Some? ==> u.maxHealth == s.maxHealth)
      && (s.maxHealth.None? ==> u.maxHealth == Some(if stamina < 5 then 10 else 2 * stamina))
      && u.health == (if s.health.Some? then s.health else u.maxHealth)
      && u.enemies == (if s.enemies.Some? then s.enemies else Some(0))
      && u.bosses == (if s.bosses.Some? then s.bosses else Some(0))
  {}

  // The blow: a magic attack meets the resistance to magic and any other the defense. The quality counts from 1 to 4,
  // and a blow takes at least 1 and leaves at least 0.
  lemma BlowExactly(s: Save, magic: bool, attack: int, quality: int, stamina: int)
    requires s.inCombat && s.enemy.Some? && !s.enemy.value.defeated
    ensures var e, f := s.enemy.value, Step(s, Attack(magic, attack, quality, stamina)).enemy.value;
      var bonus := if quality <= 1 then 0 else if quality >= 4 then 3 else quality - 1;
      var raw := attack + bonus - (if magic then e.magicResist else e.defense);
      && (raw >= 1 && raw < e.health ==> f.health == e.health - raw)
      && (raw < 1 && 1 < e.health ==> f.health == e.health - 1)
      && (e.health <= 1 || e.health <= raw ==> f.health == 0)
  {}

  // The special ability is due when the attacks since it last fired reach its cooldown.
  ghost predicate Due(e: Enemy) {
    e.special.Some? && e.special.value != "" && e.counter + 1 >= e.cooldown
  }

  // The player's health: the current one, or the greatest, or 20.
  ghost function Standing(s: Save): int {
    if s.health.Some? then s.health.value else if s.maxHealth.Some? then s.maxHealth.value else 20
  }

  // The answer to a blow that leaves the enemy alive. Stamina helps against its strength, but not against a fire
  // breath, and a mind control takes nothing.
  lemma AnswerExactly(s: Save, magic: bool, attack: int, quality: int, stamina: int)
    requires s.inCombat && s.enemy.Some? && !s.enemy.value.defeated
    requires Step(s, Attack(magic, attack, quality, stamina)).enemy.value.health > 0
    ensures var e, t := s.enemy.value, Step(s, Attack(magic, attack, quality, stamina));
      var f, fire := t.enemy.value, Due(e) && e.special == Some("fire_breath");
      var mind := Due(e) && e.special == Some("mind_control");
      var raw := if fire then e.strength else e.strength - stamina;
      var loss := if mind then 0 else if raw < 1 then 1 else raw;
      && t.health == Some(if Standing(s) < loss then 0 else Standing(s) - loss)
      && (t.inCombat <==> t.health != Some(0))
      && f == e.(health := f.health, counter := if Due(e) then 0 else e.counter + 1)
      && t.enemies == s.enemies && t.bosses == s.bosses && t.maxHealth == s.maxHealth
  {}

  // A blow that takes the last health ends the fight, and is counted, for a boss as such.
  lemma VictoryExactly(s: Save, magic: bool, attack: int, quality: int, stamina: int)
    requires s.inCombat && s.enemy.Some? && !s.enemy.value.defeated
    requires Step(s, Attack(magic, attack, quality, stamina)).enemy.value.health <= 0
    ensures var e, t := s.enemy.value, Step(s, Attack(magic, attack, quality, stamina));
      && t.enemy == Some(e.(health := 0, defeated := true)) && !t.inCombat
      && t.enemies == Some(1 + if s.enemies.Some? then s.enemies.value else 0)
      && t.bosses == (if e.boss then Some(1 + if s.bosses.Some? then s.bosses.value else 0) else s.bosses)
      && t.health == s.health && t.maxHealth == s.maxHealth
  {}

  // Fleeing: away from the enemy, or struck with half its strength, and at least 1.
  lemma FledExactly(s: Save, escapes: bool)
    ensures var t := Step(s, Flee(escapes));
      var strength := if s.enemy.Some? && s.enemy.value.strength != 0 then s.enemy.value.strength else 5;
      var loss := if strength < 4 then 1 else strength / 2;
      && (escapes ==> !t.inCombat && t.enemy == None && t.health == s.health)
      && (!escapes ==> t.enemy == s.enemy && t.health == Some(if Standing(s) < loss then 0 else Standing(s) - loss)
                       && (t.inCombat <==> s.inCombat && t.health != Some(0)))
      && t.enemies == s.enemies && t.bosses == s.bosses && t.maxHealth == s.maxHealth
  {}

  // ---------- Invariant ----------

  ghost predicate EnemyInv(e: Enemy) {
    && 0 <= e.health <= e.maxHealth && (!e.defeated ==> e.health > 0)
    && 0 <= e.counter && e.cooldown >= 1 && (e.special.Some? && e.special.value != "" ==> e.counter < e.cooldown)
  }

  ghost predicate Inv(s: Save) {
    && (s.enemy.Some? ==> EnemyInv(s.enemy.value))
    && (s.inCombat ==> s.enemy.Some? && !s.enemy.value.defeated)
    && Or(s.health, 0) >= 0 && Or(s.maxHealth, 10) >= 10
    && 0 <= Or(s.bosses, 0) <= Or(s.enemies, 0)
  }

  // Every row of the tables, and every level, is of this kind.
  ghost predicate Proper(op: Op) {
    op.Start? ==> op.template.health > 0 && op.level >= 0 && Or(op.template.cooldown, 3) >= 1
  }

  lemma InvStep(s: Save, op: Op)
    requires Inv(s) && Proper(op)
    ensures Inv(Step(s, op))
  {}

  // An attack that is accepted hurts the enemy, and never undoes a victory.
  lemma AttackHurts(s: Save, magic: bool, attack: int, quality: int, stamina: int)
    requires Inv(s) && Accepts(s)
    ensures var t := Step(s, Attack(magic, attack, quality, stamina));
      && t.enemy.value.health < s.enemy.value.health
      && (t.enemy.value.defeated <==> t.enemy.value.health == 0)
      && Or(t.enemies, 0) == Or(s.enemies, 0) + (if t.enemy.value.defeated then 1 else 0)
  {}

  function Run(s: Save, ops: seq<Op>): Save
    decreases |ops|
  {
    if ops == [] then s else Step(Run(s, ops[..|ops| - 1]), ops[|ops| - 1])
  }

  lemma {:induction false} EveryRunKeepsInv(ops: seq<Op>)
    requires forall i | 0 <= i < |ops| :: Proper(ops[i])
    ensures Inv(Run(NEW_GAME, ops))
    decreases |ops|
  {
    if ops != [] {
      EveryRunKeepsInv(ops[..|ops| - 1]);
      InvStep(Run(NEW_GAME, ops[..|ops| - 1]), ops[|ops| - 1]);
    }
  }

  // The attacks accepted in a run.
  function Accepted(s: Save, ops: seq<Op>): (n: nat)
    decreases |ops|
  {
    if ops == [] then 0
    else
      var m := |ops| - 1;
      Accepted(s, ops[..m]) + if ops[m].Attack? && Accepts(Run(s, ops[..m])) then 1 else 0
  }

  // What is left of the fight.
  function Left(s: Save): int {
    if Accepts(s) then s.enemy.value.health else 0
  }

  // Until the next fight starts, no more attacks are accepted than the enemy has health.
  lemma {:induction false} FightIsBounded(s: Save, ops: seq<Op>)
    requires Inv(s) && forall i | 0 <= i < |ops| :: !ops[i].Start?
    ensures Inv(Run(s, ops)) && Accepted(s, ops) + Left(Run(s, ops)) <= Left(s)
    decreases |ops|
  {
    if ops != [] {
      var m := |ops| - 1;
      var t, op := Run(s, ops[..m]), ops[m];
      FightIsBounded(s, ops[..m]);
      InvStep(t, op);
      if op.Attack? && Accepts(t) {
        AttackHurts(t, op.magic, op.attack, op.quality, op.stamina);
      }
    }
  }
}
