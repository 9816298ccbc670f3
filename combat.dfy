/**
 * The integer state behind the combat scene of frontend/src/game/GameEngine.js.
 * Sprites, tweens, sounds, popups and health-bar drawing are left out; what
 * remains is the health, level, points and animation-lock fields those
 * methods update.
 *
 * Every `setTimeout` body is its own step method. The field `pending`
 * records which of them is scheduled (or which popup is waiting for a
 * click), so a step method can only run after the method that schedules it.
 */
module Combat {
  import opened GameConfig

  /** The highest level `Math.min(3, currentLevel + 1)` lets the game reach; defeating its enemy is victory. */
  const LastLevel: int := 3

  /** The callback that is scheduled next, or the popup that is showing. */
  datatype Pending =
    | Ready                            // no timer and no popup: attacks may start
    | PlayerStrikeDue                  // the 300 ms timer of playerAttack
    | EnemyStrikeDue                   // the 300 ms timer of enemyAttack
    | IdleDue                          // the 1200 ms timer that returns to idle
    | EnemyDown(offersNextLevel: bool) // the "ENEMY DEFEATED!" (or "VICTORY!") popup
    | PlayerDown                       // the "GAME OVER" popup
    | LevelLoadDue                     // the 1500 ms timer after "NEXT LEVEL" was clicked

  /** `Math.max(0, health - damage)`. */
  function Hit(health: int, damage: int): (r: int)
    ensures r >= 0
    ensures r == 0 || r == health - damage
    ensures health >= 0 && damage >= 0 ==> r <= health
  {
    if health - damage > 0 then health - damage else 0
  }

  /** Health after k hits of the same damage. */
  function HitsFrom(health: int, damage: int, k: nat): int
    decreases k
  {
    if k == 0 then health else Hit(HitsFrom(health, damage, k - 1), damage)
  }

  /** One more multiple of d is d more, and multiples of a positive d are non-negative. */
  lemma MultipleStep(m: nat, d: int)
    requires d > 1
    ensures (m + 1) * d == m * d + d
    ensures m * d >= 0
  {
  }

  lemma {:induction false} HitsFromExact(damage: int, k: nat, j: nat)
    requires damage > 1 && j <= k
    ensures HitsFrom(k * damage, damage, j) == (k - j) * damage
    decreases j
  {
    if j > 0 {
      HitsFromExact(damage, k, j - 1);
      MultipleStep(k - j, damage);
    }
  }

  /**
   * A health of exactly k times the damage survives k - 1 hits above the
   * defeat threshold (health <= 1) and is at 0 after the k-th.
   */
  lemma DefeatedByExactHits(health: int, damage: int, k: nat)
    requires damage > 1 && health == k * damage
    ensures HitsFrom(health, damage, k) == 0
    ensures forall j: nat :: j < k ==> HitsFrom(health, damage, j) > 1
  {
    HitsFromExact(damage, k, k);
    forall j: nat | j < k
      ensures HitsFrom(health, damage, j) > 1
    {
      HitsFromExact(damage, k, j);
      MultipleStep(k - j - 1, damage);
    }
  }

  /** With the configured tables, every enemy falls to exactly its `hitsToDefeat` correct answers. */
  lemma EnemyFallsAfterConfiguredHits(level: int)
    requires IsConfiguredLevel(level)
    ensures HitsFrom(Enemy(level).health, Enemy(level).playerDamage, Enemy(level).hitsToDefeat) == 0
    ensures forall j: nat :: j < Enemy(level).hitsToDefeat ==>
              HitsFrom(Enemy(level).health, Enemy(level).playerDamage, j) > 1
  {
    EnemyHealthIsHitsTimesDamage(level);
    DefeatedByExactHits(Enemy(level).health, Enemy(level).playerDamage, Enemy(level).hitsToDefeat);
  }

  /** With the configured tables, the player survives all but the last of the hits the comments count. */
  lemma PlayerFallsAfterConfiguredHits(level: int)
    requires IsConfiguredLevel(level)
    ensures level in EnemyHitsToDefeatPlayer
    ensures HitsFrom(PlayerHealth(level), Enemy(level).damage, EnemyHitsToDefeatPlayer[level]) == 0
    ensures forall j: nat :: j < EnemyHitsToDefeatPlayer[level] ==>
              HitsFrom(PlayerHealth(level), Enemy(level).damage, j) > 1
  {
    PlayerHealthIsHitsTimesEnemyDamage(level);
    DefeatedByExactHits(PlayerHealth(level), Enemy(level).damage, EnemyHitsToDefeatPlayer[level]);
  }

  // ---------------------------------------------------------------------------
  // Points as the source initialises them

  /** A JavaScript number as far as `points` goes: `undefined`, `NaN` or an integer. */
  datatype JsPoints = Undefined | NaN | Num(value: int)

  /** `this.points += n` on a JavaScript value. */
  function AddPointsAsWritten(p: JsPoints, n: int): JsPoints {
    match p
    case Num(v) => Num(v + n)
    case _ => NaN
  }

  function AddAllAsWritten(p: JsPoints, gains: seq<int>): JsPoints
    decreases |gains|
  {
    if gains == [] then p else AddAllAsWritten(AddPointsAsWritten(p, gains[0]), gains[1..])
  }

  /**
   * The constructor sets `points` from `playerConfig.basePoints`, which the
   * configuration does not define: the counter starts `undefined` and every
   * later addition leaves it `NaN`, so it never holds a number.
   */
  lemma {:induction false} PointsAsWrittenNeverNumeric(p: JsPoints, gains: seq<int>)
    requires !p.Num?
    ensures !AddAllAsWritten(p, gains).Num?
    ensures gains != [] ==> AddAllAsWritten(p, gains) == NaN
    decreases |gains|
  {
    if gains != [] {
      PointsAsWrittenNeverNumeric(AddPointsAsWritten(p, gains[0]), gains[1..]);
    }
  }

  /** The starting value the points counter is evidently meant to have (like `baseXP`). */
  const BasePoints: int := 0

  /** The game engine's combat state. */
  class GameEngine {
    var playerHealth: int
    var enemyHealth: int
    var playerMaxHealth: int
    var enemyMaxHealth: int
    var currentLevel: int
    /** The level whose `enemyConfig` entry is `this.currentEnemyConfig`. */
    var configLevel: int
    var points: int
    var attackAnimationPlaying: bool
    var enemiesDefeated: int
    var pending: Pending

    ghost predicate Valid()
      reads this
    {
      && 1 <= currentLevel <= LastLevel
      && 1 <= configLevel <= LastLevel
      && enemyMaxHealth == Enemy(configLevel).health
      && 0 <= enemyHealth <= enemyMaxHealth
      && playerMaxHealth == PlayerHealth(currentLevel)
      && 0 <= playerHealth <= playerMaxHealth
      && enemiesDefeated == 0
      && (attackAnimationPlaying <==> !pending.Ready?)
      && (pending.Ready? || pending.PlayerStrikeDue? || pending.EnemyStrikeDue? || pending.IdleDue?
          ==> enemyHealth > 1 && playerHealth > 1)
      && (pending.EnemyDown? ==> (pending.offersNextLevel <==> currentLevel != LastLevel))
      && (pending.LevelLoadDue? ==> playerHealth > 1)
    }

    /** The constructor followed by the scene's `create`, which builds the level-1 enemy. */
    constructor()
      ensures Valid()
      ensures currentLevel == 1 && configLevel == 1
      ensures playerHealth == playerMaxHealth == BaseHealth
      ensures enemyHealth == enemyMaxHealth == Enemy(1).health
      ensures points == BasePoints && enemiesDefeated == 0
      ensures !attackAnimationPlaying && pending == Ready
    {
      playerHealth := BaseHealth;
      playerMaxHealth := BaseHealth;
      currentLevel := 1;
      points := BasePoints;
      attackAnimationPlaying := false;
      enemiesDefeated := 0;
      pending := Ready;
      configLevel := 1;
      enemyMaxHealth := Enemy(1).health;
      enemyHealth := enemyMaxHealth;
    }

    /** `createEnemy()`: the current level's enemy at full health. */
    method CreateEnemy()
      requires Valid() && pending.LevelLoadDue?
      modifies this`configLevel, this`enemyMaxHealth, this`enemyHealth
      ensures Valid()
      ensures configLevel == currentLevel
      ensures enemyMaxHealth == Enemy(currentLevel).health && enemyHealth == enemyMaxHealth
    {
      configLevel := currentLevel;
      enemyMaxHealth := Enemy(configLevel).health;
      enemyHealth := enemyMaxHealth;
    }

    /**
     * `playerAttack()`: refused while an animation plays; otherwise locks
     * the animation and schedules the strike. Its result is read before the
     * strike lands, so it reports whether the enemy was ALREADY down, which
     * never holds in a state where an attack can start.
     */
    method PlayerAttack() returns (enemyDefeated: bool)
      requires Valid()
      modifies this`attackAnimationPlaying, this`pending
      ensures Valid()
      ensures old(attackAnimationPlaying) ==> pending == old(pending)
      ensures !old(attackAnimationPlaying) ==> pending == PlayerStrikeDue
      ensures attackAnimationPlaying
      ensures enemyDefeated == (!old(attackAnimationPlaying) && enemyHealth <= 1)
      ensures !enemyDefeated
    {
      if attackAnimationPlaying {
        return false;
      }
      attackAnimationPlaying := true;
      pending := PlayerStrikeDue;
      enemyDefeated := enemyHealth <= 1;
    }

    /** The 300 ms timer of `playerAttack`: damage, then the defeat popup or the idle timer. */
    method PlayerStrikeLands()
      requires Valid() && pending == PlayerStrikeDue
      modifies this`enemyHealth, this`attackAnimationPlaying, this`pending
      ensures Valid()
      ensures enemyHealth == Hit(old(enemyHealth), Enemy(configLevel).playerDamage)
      ensures attackAnimationPlaying
      ensures pending == if enemyHealth <= 1 then EnemyDown(currentLevel != LastLevel) else IdleDue
    {
      enemyHealth := Hit(enemyHealth, Enemy(configLevel).playerDamage);
      if enemyHealth <= 1 {
        attackAnimationPlaying := true;
        pending := EnemyDown(currentLevel != LastLevel);
      } else {
        pending := IdleDue;
      }
    }

    /** `enemyAttack()`: the mirror image of `PlayerAttack`. */
    method EnemyAttack() returns (playerDefeated: bool)
      requires Valid()
      modifies this`attackAnimationPlaying, this`pending
      ensures Valid()
      ensures old(attackAnimationPlaying) ==> pending == old(pending)
      ensures !old(attackAnimationPlaying) ==> pending == EnemyStrikeDue
      ensures attackAnimationPlaying
      ensures playerDefeated == (!old(attackAnimationPlaying) && playerHealth <= 1)
      ensures !playerDefeated
    {
      if attackAnimationPlaying {
        return false;
      }
      attackAnimationPlaying := true;
      pending := EnemyStrikeDue;
      playerDefeated := playerHealth <= 1;
    }

    /** The 300 ms timer of `enemyAttack`: damage, then the game-over popup or the idle timer. */
    method EnemyStrikeLands()
      requires Valid() && pending == EnemyStrikeDue
      modifies this`playerHealth, this`attackAnimationPlaying, this`pending
      ensures Valid()
      ensures playerHealth == Hit(old(playerHealth), Enemy(configLevel).damage)
      ensures attackAnimationPlaying
      ensures pending == if playerHealth <= 1 then PlayerDown else IdleDue
    {
      playerHealth := Hit(playerHealth, Enemy(configLevel).damage);
      if playerHealth <= 1 {
        attackAnimationPlaying := true;
        pending := PlayerDown;
      } else {
        pending := IdleDue;
      }
    }

    /** The 1200 ms timer after a strike that defeated nobody: attacks are allowed again. */
    method ReturnToIdle()
      requires Valid() && pending == IdleDue
      modifies this`attackAnimationPlaying, this`pending
      ensures Valid()
      ensures !attackAnimationPlaying && pending == Ready
    {
      attackAnimationPlaying := false;
      pending := Ready;
    }

    /** The "NEXT LEVEL" button: one level up (never past the last) and the player's health refilled for it. */
    method NextLevelClicked()
      requires Valid() && pending == EnemyDown(true)
      modifies this`currentLevel, this`playerMaxHealth, this`playerHealth, this`pending
      ensures Valid()
      ensures currentLevel == if old(currentLevel) + 1 < LastLevel then old(currentLevel) + 1 else LastLevel
      ensures playerMaxHealth == PlayerHealth(currentLevel) && playerHealth == playerMaxHealth
      ensures pending == LevelLoadDue
    {
      currentLevel := if currentLevel + 1 < LastLevel then currentLevel + 1 else LastLevel;
      playerMaxHealth := PlayerHealth(currentLevel);
      playerHealth := playerMaxHealth;
      pending := LevelLoadDue;
    }

    /** The 1500 ms timer after "NEXT LEVEL": the new level's enemy, and attacks allowed again. */
    method LevelLoaded()
      requires Valid() && pending == LevelLoadDue
      modifies this`configLevel, this`enemyMaxHealth, this`enemyHealth, this`attackAnimationPlaying, this`pending
      ensures Valid()
      ensures configLevel == currentLevel
      ensures enemyMaxHealth == Enemy(currentLevel).health && enemyHealth == enemyMaxHealth
      ensures !attackAnimationPlaying && pending == Ready
    {
      CreateEnemy();
      attackAnimationPlaying := false;
      pending := Ready;
    }

    /** `addPoints(n)`. */
    method AddPoints(n: int)
      requires Valid()
      modifies this`points
      ensures Valid()
      ensures points == old(points) + n
    {
      points := points + n;
    }

    /** `resetEnemy()`: the enemy back at full health. */
    method ResetEnemy()
      requires Valid()
      modifies this`enemyHealth
      ensures Valid()
      ensures enemyHealth == enemyMaxHealth
    {
      enemyHealth := enemyMaxHealth;
    }

    /** `getCurrentLevel()`. */
    function GetCurrentLevel(): (level: int)
      reads this
      requires Valid()
      ensures level == currentLevel && 1 <= level <= LastLevel
    {
      currentLevel
    }

    /** `getEnemyHealth()`: current and maximum. */
    function GetEnemyHealth(): (h: (int, int))
      reads this
      requires Valid()
      ensures h == (enemyHealth, enemyMaxHealth) && 0 <= h.0 <= h.1
    {
      (enemyHealth, enemyMaxHealth)
    }

    /** `getPlayerHealth()`: current and maximum. */
    function GetPlayerHealth(): (h: (int, int))
      reads this
      requires Valid()
      ensures h == (playerHealth, playerMaxHealth) && 0 <= h.0 <= h.1
    {
      (playerHealth, playerMaxHealth)
    }

    /** `getEnemyName()`. */
    function GetEnemyName(): (name: string)
      reads this
      requires Valid()
      ensures name == Enemy(configLevel).name
    {
      Enemy(configLevel).name
    }

    /** `getEnemiesDefeated()`: nothing in the engine ever counts a defeat, so it stays 0. */
    function GetEnemiesDefeated(): (n: int)
      reads this
      requires Valid()
      ensures n == 0
    {
      enemiesDefeated
    }

    /** `getEnemiesNeeded()`: three for every level the game reaches. */
    function GetEnemiesNeeded(): (n: nat)
      reads this
      requires Valid()
      ensures n == EnemiesNeeded(currentLevel) && n == 3
    {
      EnemiesNeeded(currentLevel)
    }
  }

  /** Two correct answers against the level-1 goblin: the second strike brings it to 0 and shows the popup. */
  method TwoHitsDefeatFirstEnemy() {
    var engine := new GameEngine();
    var reported := engine.PlayerAttack();
    engine.PlayerStrikeLands();
    assert engine.enemyHealth == 50 && engine.pending == IdleDue;
    var refused := engine.PlayerAttack();
    assert !refused && engine.pending == IdleDue;
    engine.ReturnToIdle();
    reported := engine.PlayerAttack();
    engine.PlayerStrikeLands();
    assert engine.enemyHealth == 0 && engine.pending == EnemyDown(true);
    engine.NextLevelClicked();
    engine.LevelLoaded();
    assert engine.currentLevel == 2 && engine.enemyHealth == 100 && engine.pending == Ready;
  }
}
