/**
 * The constant per-level tables of the game (frontend/src/config/gameConfig.js).
 * Sprite image paths, display scale and tint are presentation only and are
 * not part of the records below.
 */
module GameConfig {

  /** Frame range and speed of one sprite-sheet animation. */
  datatype Animation = Animation(frameStart: nat, frameEnd: nat, frameRate: nat)

  /** One entry of `enemyConfig`. */
  datatype EnemyConfig = EnemyConfig(
    name: string,
    health: nat,
    damage: nat,         // damage the enemy deals to the player per attack
    hitsToDefeat: nat,   // correct answers needed to defeat it
    playerDamage: nat,   // damage the player deals to it per correct answer
    idle: Animation,
    attack: Animation,
    hit: Animation)

  const EnemyTable: map<int, EnemyConfig> := map[
    1 := EnemyConfig("Goblin", 100, 20, 2, 50,
                     Animation(0, 3, 5), Animation(0, 3, 8), Animation(0, 2, 8)),
    2 := EnemyConfig("Blue Fly", 100, 25, 2, 50,
                     Animation(0, 2, 8), Animation(0, 2, 10), Animation(0, 2, 8)),
    3 := EnemyConfig("Orange Fly", 100, 35, 2, 50,
                     Animation(0, 2, 8), Animation(0, 2, 10), Animation(0, 2, 8)),
    4 := EnemyConfig("Bomber Goblin", 105, 50, 3, 35,
                     Animation(0, 3, 5), Animation(0, 5, 8), Animation(0, 2, 8))
  ]

  // playerConfig
  const BaseHealth: nat := 100
  const BaseXP: nat := 0
  const HealthByLevel: map<int, nat> := map[1 := 100, 2 := 100, 3 := 105, 4 := 100]
  const XpToLevelUp: nat := 100
  const XpPerCorrectAnswer: nat := 25
  const XpPerEnemyDefeated: map<int, nat> := map[1 := 50, 2 := 75, 3 := 100, 4 := 150]

  // gameProgressionConfig
  const EnemiesToDefeat: map<int, nat> := map[1 := 3, 2 := 3, 3 := 3, 4 := 1]
  const AnswerFeedbackDelay: nat := 4000
  const EnemyDefeatDelay: nat := 2000
  const LevelUpDelay: nat := 3000

  /** The enemies the player's health is sized against, as the comments on `healthByLevel` count them. */
  const EnemyHitsToDefeatPlayer: map<int, nat> := map[1 := 5, 2 := 4, 3 := 3, 4 := 2]

  predicate IsConfiguredLevel(level: int) {
    1 <= level <= 4
  }

  /** `enemyConfig[level]`. */
  function Enemy(level: int): (e: EnemyConfig)
    requires IsConfiguredLevel(level)
    ensures e == EnemyTable[level]
  {
    assert level == 1 || level == 2 || level == 3 || level == 4;
    EnemyTable[level]
  }

  /** `playerConfig.healthByLevel[level]`. */
  function PlayerHealth(level: int): (h: nat)
    requires IsConfiguredLevel(level)
    ensures h == HealthByLevel[level] && h >= 100
  {
    assert level == 1 || level == 2 || level == 3 || level == 4;
    HealthByLevel[level]
  }

  /** `gameProgressionConfig.enemiesToDefeat[level]`. */
  function EnemiesNeeded(level: int): (n: nat)
    requires IsConfiguredLevel(level)
    ensures n == EnemiesToDefeat[level]
  {
    assert level == 1 || level == 2 || level == 3 || level == 4;
    EnemiesToDefeat[level]
  }

  // ---------------------------------------------------------------------------
  // The arithmetic the comments of the configuration file assert

  /** Every per-level table has exactly the levels 1 to 4. */
  lemma TablesCoverLevels()
    ensures EnemyTable.Keys == HealthByLevel.Keys == XpPerEnemyDefeated.Keys
         == EnemiesToDefeat.Keys == EnemyHitsToDefeatPlayer.Keys == {1, 2, 3, 4}
  {
  }

  /** Each enemy's health is exactly its number of hits times the player's damage (100 = 2 x 50, 105 = 3 x 35). */
  lemma EnemyHealthIsHitsTimesDamage(level: int)
    requires IsConfiguredLevel(level)
    ensures Enemy(level).health == Enemy(level).hitsToDefeat * Enemy(level).playerDamage
    ensures Enemy(level).playerDamage > 1
  {
  }

  /** The player's health at each level is an exact multiple of that level's enemy damage (5, 4, 3 and 2 hits). */
  lemma PlayerHealthIsHitsTimesEnemyDamage(level: int)
    requires IsConfiguredLevel(level)
    ensures level in EnemyHitsToDefeatPlayer
    ensures PlayerHealth(level) == EnemyHitsToDefeatPlayer[level] * Enemy(level).damage
    ensures PlayerHealth(level) % Enemy(level).damage == 0
    ensures PlayerHealth(level) / Enemy(level).damage == EnemyHitsToDefeatPlayer[level]
  {
  }

  /** Every animation's frame range is ordered. */
  lemma FramesOrdered(level: int)
    requires IsConfiguredLevel(level)
    ensures Enemy(level).idle.frameStart <= Enemy(level).idle.frameEnd
    ensures Enemy(level).attack.frameStart <= Enemy(level).attack.frameEnd
    ensures Enemy(level).hit.frameStart <= Enemy(level).hit.frameEnd
  {
  }

  /** Later levels have enemies that hit harder (20 < 25 < 35 < 50) and give more experience. */
  lemma LaterLevelsAreHarder(a: int, b: int)
    requires IsConfiguredLevel(a) && IsConfiguredLevel(b) && a < b
    ensures Enemy(a).damage < Enemy(b).damage
    ensures XpPerEnemyDefeated[a] < XpPerEnemyDefeated[b]
  {
    assert a == 1 || a == 2 || a == 3;
    assert b == 2 || b == 3 || b == 4;
  }
}
