# Code Quest Adventure — a Dafny model of its game logic

Code Quest Adventure is a browser game in which the player answers coding
challenges. Each correct answer makes the hero strike the enemy of the
current level, and each wrong answer lets the enemy strike back. The
challenges, stories and feedback come from a small Flask backend. That
backend runs a text generator and cuts its output into JSON.

This project models the parts of the game that hold precise logic, one
Dafny module per source file:

- `ChallengeCache` (`challenge_cache.dfy`) models the challenge prefetch
  cache of `frontend/src/services/api.js`.
  - It is a class with one FIFO queue and a "preload running" flag.
  - `GetChallenge` serves from the queue or from a direct fetch.
  - `preloadChallenges` is split at its `await` points: `StartPreload` is
    the part before the first fetch and `PreloadStep` the part after each
    fetch. Other calls can therefore run between the steps.
  - `PreloadChallenges` runs a whole preload with nothing in between. It is
    proved against the function `Fetched`, which gives the longest run of
    successful fetches.
  - The model follows the code: there is one queue for every level and
    language. It has no per-level queues, no objective store, no request
    cancellation, no flush and no level clamping.
- `Combat` (`combat.dfy`) models the state of `GameEngine` in
  `frontend/src/game/GameEngine.js`.
  - Its fields are the two healths, their maxima, the level, the points,
    the animation lock and the defeat counter.
  - Each `setTimeout` body is a step method. The field `pending` records
    which of them is due, or which popup is showing.
  - The invariant `Valid` shows that the value `playerAttack` and
    `enemyAttack` return is always `false` in the states the game reaches.
    That value is read before the damage lands. So the enemy reset that
    `handleSubmit` schedules on a defeat can never run.
- `GameConfig` (`game_config.dfy`) holds the constant tables of
  `frontend/src/config/gameConfig.js`. Its lemmas prove the arithmetic the
  file's comments claim, for example "35 damage × 3 hits = 105 health".
- `GameScreen` (`game_screen.dfy`) models `frontend/src/components/GameScreen.js`.
  - The answer rules of `handleSubmit`, the blank counting and
    `getMaxLength` are functions on strings.
  - The React state the handlers set is the class `AnswerForm`.
  - A correct answer calls `addXP`, which `GameEngine` does not define.
    `HandleSubmit` therefore reports that the handler stops with a
    `TypeError` right after the player's attack starts.
- `Backend` (`backend.dfy`) models `backend/app.py`.
  - It covers the word limit on the generator's output, the extraction of
    the JSON object between the first `{` and the last `}`, and the
    per-field "cut to N characters and append `...`" limits.
  - The generator run and `json.loads` are oracle parameters.
- `Strings` (`strings.dfy`) holds the string functions shared by the
  models.
  - JavaScript's `trim`, `split`, `join` and `replace` and Python's
    `strip` and `split` are written out.
  - Whitespace is JavaScript's `\s` class or Python's `str.isspace`, as
    each source file uses it.

## Model

| member | source | states |
|---|---|---|
| GameConfig.PlayerHealth | frontend/src/config/gameConfig.js:118-123 | the player's health for each configured level is the table entry, and at least 100 |
| GameConfig.TablesCoverLevels | frontend/src/config/gameConfig.js:23-150 | every per-level table defines exactly the levels 1 to 4 |
| GameConfig.EnemyHealthIsHitsTimesDamage | frontend/src/config/gameConfig.js:25-93 | each enemy's health is its hits-to-defeat times the player's damage (100 = 2 × 50, 105 = 3 × 35) |
| GameConfig.PlayerHealthIsHitsTimesEnemyDamage | frontend/src/config/gameConfig.js:118-123 | each level's player health divided by that level's enemy damage is exactly the 5, 4, 3 or 2 hits the comments give |
| GameConfig.FramesOrdered | frontend/src/config/gameConfig.js:36-102 | every animation's first frame is not after its last |
| GameConfig.LaterLevelsAreHarder | frontend/src/config/gameConfig.js:23-137 | enemy damage (20 < 25 < 35 < 50) and the experience for a defeat strictly increase with the level |
| ChallengeCache.Cache.constructor | frontend/src/services/api.js:6-9 | the cache starts with an empty queue and the flag down |
| ChallengeCache.Cache.GetChallenge | frontend/src/services/api.js:23-39 | a non-empty queue gives its front item whatever the level and language, and keeps the rest in order; an empty queue gives the fetch's outcome, error included, and stays empty |
| ChallengeCache.Cache.StartPreload | frontend/src/services/api.js:41-47 | a preload while one is running changes nothing; otherwise the flag goes up, and with no fetch to make it comes down again at once |
| ChallengeCache.Cache.PreloadStep | frontend/src/services/api.js:49-60 | a successful fetch is pushed to the back; a failure pushes nothing and ends the campaign; the flag stays up exactly while the campaign goes on |
| ChallengeCache.Cache.PreloadChallenges | frontend/src/services/api.js:41-61 | a preload while one runs is a no-op; otherwise the queue gains exactly `Fetched(fetch, count)` at its back and the flag ends down, whether the fetches succeeded or not |
| ChallengeCache.Fetched | frontend/src/services/api.js:49-57 | a campaign pushes at most `count` items |
| ChallengeCache.FetchedInOrder | frontend/src/services/api.js:49-55 | the pushed items are the data of fetches 0, 1, 2, … in that order, each of which succeeded |
| ChallengeCache.FetchedAllSucceed | frontend/src/services/api.js:49-55 | when all `count` fetches succeed, exactly `count` items are pushed |
| ChallengeCache.FetchedStopsAtError | frontend/src/services/api.js:49-57 | after a failed fetch nothing more is pushed: the items are those pushed before it |
| ChallengeCache.Cache.GetCachedChallengeCount | frontend/src/services/api.js:63-65 | the queue length, without a state change |
| ChallengeCache.Cache.IsPreloadingChallenges | frontend/src/services/api.js:67-69 | the flag, without a state change |
| Combat.Hit | frontend/src/game/GameEngine.js:637 | health after a hit is never negative and never rises: it is 0 or the health minus the damage |
| Combat.DefeatedByExactHits | frontend/src/game/GameEngine.js:637-690 | a health of exactly k times the damage stays above the defeat threshold (1) for k − 1 hits and is 0 after k |
| Combat.EnemyFallsAfterConfiguredHits | frontend/src/game/GameEngine.js:618-690 | each configured enemy is defeated by exactly its `hitsToDefeat` correct answers, two for levels 1 to 3 |
| Combat.PlayerFallsAfterConfiguredHits | frontend/src/game/GameEngine.js:904-976 | at each level the player is defeated by exactly the number of enemy hits the configuration comments give |
| Combat.GameEngine.constructor | frontend/src/game/GameEngine.js:27-58 | level 1, full base health, the level-1 enemy at full health, no animation, no defeats, points at 0 (the corrected start; see ## Findings) |
| Combat.GameEngine.CreateEnemy | frontend/src/game/GameEngine.js:401-411 | the enemy configuration follows the current level, with its health at the configured maximum |
| Combat.GameEngine.PlayerAttack | frontend/src/game/GameEngine.js:613-897 | refused and without effect while an animation plays; otherwise locks the animation and schedules the strike; the returned "defeated" is the enemy's health `<= 1` before the strike, which never holds |
| Combat.GameEngine.PlayerStrikeLands | frontend/src/game/GameEngine.js:632-891 | the enemy loses the player's damage, clamped at 0; at health `<= 1` the lock stays on and the defeat popup (with a next-level button below level 3) shows; otherwise the return to idle is scheduled |
| Combat.GameEngine.EnemyAttack | frontend/src/game/GameEngine.js:899-1055 | the same guard and lock as the player's attack, and the returned "defeated" never holds |
| Combat.GameEngine.EnemyStrikeLands | frontend/src/game/GameEngine.js:910-1050 | the player loses the enemy's damage, clamped at 0; at health `<= 1` the lock stays on and the game-over popup shows; otherwise the return to idle is scheduled |
| Combat.GameEngine.ReturnToIdle | frontend/src/game/GameEngine.js:887-891 | the animation lock is released |
| Combat.GameEngine.NextLevelClicked | frontend/src/game/GameEngine.js:781-812 | the level becomes min(3, level + 1) and the player's health is refilled to that level's health |
| Combat.GameEngine.LevelLoaded | frontend/src/game/GameEngine.js:813-861 | the new level's enemy appears at full health and attacks are allowed again |
| Combat.GameEngine.AddPoints | frontend/src/game/GameEngine.js:1057-1068 | points, which start at 0 in the corrected model (see ## Findings), grow by exactly n; no health or level field changes |
| Combat.GameEngine.ResetEnemy | frontend/src/game/GameEngine.js:1093-1099 | the enemy's health is back at its maximum |
| Combat.GameEngine.GetCurrentLevel | frontend/src/game/GameEngine.js:1101-1103 | the level, always between 1 and 3 |
| Combat.GameEngine.GetEnemyName | frontend/src/game/GameEngine.js:1105-1107 | the configured name of the current enemy |
| Combat.GameEngine.GetEnemyHealth | frontend/src/game/GameEngine.js:1109-1114 | current and maximum enemy health, with 0 <= current <= maximum |
| Combat.GameEngine.GetPlayerHealth | frontend/src/game/GameEngine.js:1116-1121 | current and maximum player health, with 0 <= current <= maximum |
| Combat.GameEngine.GetEnemiesDefeated | frontend/src/game/GameEngine.js:1123-1125 | always 0: no code path counts a defeat |
| Combat.GameEngine.GetEnemiesNeeded | frontend/src/game/GameEngine.js:1127-1129 | the configured number for the current level, which is 3 at every level the game reaches |
| Combat.PointsAsWrittenNeverNumeric | frontend/src/game/GameEngine.js:46 | a counter that starts `undefined` never holds a number, and after any addition it is `NaN` |
| Strings.Trim | frontend/src/components/GameScreen.js:395 | the result starts and ends with a non-space character, or is empty |
| Strings.TrimKeepsMiddle | frontend/src/components/GameScreen.js:395 | the trimmed string is a contiguous middle of the input, and every character dropped before or after it is whitespace |
| Strings.Remove | frontend/src/components/GameScreen.js:403 | deleting a class of characters never lengthens the string (which characters stay is stated by RemoveKeepsOthers; that they keep their order and multiplicity follows from RemoveAppend) |
| Strings.Collapse | frontend/src/components/GameScreen.js:395 | collapsing whitespace runs never lengthens the string, and leaves it empty exactly when it was empty (its output is fixed by CollapseAppend, CollapseRun and CollapseWord) |
| Strings.CollapseSpaces | frontend/src/components/GameScreen.js:395 | in the result every whitespace character is `' '` and no two whitespace characters are adjacent |
| Strings.CollapseAppend | frontend/src/components/GameScreen.js:395 | collapsing a concatenation whose seam is not inside a whitespace run is the concatenation of the two collapsed halves |
| Strings.CollapseRun | frontend/src/components/GameScreen.js:395 | a non-empty run made only of whitespace becomes exactly one `' '` |
| Strings.CollapseWord | frontend/src/components/GameScreen.js:395 | a string without whitespace is left unchanged; with CollapseAppend and CollapseRun, every string cut into alternating words and whitespace runs collapses to its words joined by single spaces |
| Strings.Split | frontend/src/components/GameScreen.js:381-382 | a split always gives at least one part (its inverse is stated by JoinSplit, its count by SplitCount, its cut positions by SplitCutsAtFirstMatch, SplitNoEarlierMatch and SplitRestAfterCut) |
| Strings.SplitCutsAtFirstMatch | frontend/src/components/GameScreen.js:381-382 | when there is more than one part, the first part ends where an occurrence of the separator starts |
| Strings.SplitNoEarlierMatch | frontend/src/components/GameScreen.js:381-382 | no occurrence of the separator starts inside the first part, so the first cut is at the leftmost occurrence |
| Strings.SplitRestAfterCut | frontend/src/components/GameScreen.js:381-382 | after the first cut, the remaining parts are exactly the split of the text following that occurrence, so every later cut is also leftmost |
| Strings.SplitPartsAvoidSeparator | frontend/src/components/GameScreen.js:473 | no part of a split contains the separator, also for the five-underscore blank marker |
| Strings.SplitPartsAvoidChar | frontend/src/components/GameScreen.js:381-382 | no part of a split at `','` contains a comma |
| Strings.Join | frontend/src/components/GameScreen.js:362 | a join of one or more parts starts with the first part |
| Strings.RemoveKeepsOthers | frontend/src/components/GameScreen.js:403 | a character is left after deleting a class exactly when the input has it and it is not in the class |
| Strings.ToLower | frontend/src/components/GameScreen.js:407-408 | each character lower-cased, same length |
| Strings.SplitCount | frontend/src/components/GameScreen.js:296 | a split gives one more part than there are separator matches |
| Strings.JoinSplit | frontend/src/components/GameScreen.js:473 | joining the parts of a split with the same separator gives the string back |
| Strings.RemoveTrim | frontend/src/components/GameScreen.js:395-403 | deleting all whitespace after trimming is the same as deleting it without trimming |
| Strings.RemoveCollapse | frontend/src/components/GameScreen.js:395-403 | collapsing whitespace runs first does not change what deleting whitespace leaves |
| Strings.LowerRemove | frontend/src/components/GameScreen.js:403-408 | lower-casing commutes with deleting a class of characters that lower-casing leaves alone |
| GameScreen.IsCorrect | frontend/src/components/GameScreen.js:369-411 | a multiple-choice question is right exactly when the selected option is the answer; any other question accepts its expected answer typed back |
| GameScreen.MakeFeedback | frontend/src/components/GameScreen.js:415-421 | the verdict, "Correct! Great job!" or the correct answer in the message, and the hint exactly when the answer is wrong |
| GameScreen.SingleMatchCanonical | frontend/src/components/GameScreen.js:393-411 | a single answer is accepted exactly when both sides agree once letters are lower-cased and all whitespace and `;` are deleted |
| GameScreen.SingleMatchIgnoresSpacingAndCase | frontend/src/components/GameScreen.js:403-410 | inserting or removing one whitespace character or `;`, or lower-casing the answer, does not change a single-answer verdict |
| GameScreen.BlankKeyTrim | frontend/src/components/GameScreen.js:383-389 | a blank's comparison key does not depend on the spaces around it |
| GameScreen.CommaPartsOfBlanks | frontend/src/components/GameScreen.js:362-382 | comma-free blanks joined with `", "` and split again at the commas come back as the blanks, each trimmed |
| GameScreen.FilledBlanksJudged | frontend/src/components/GameScreen.js:381-392 | two or more comma-free blanks joined by `", "` are accepted exactly when there is one blank per expected comma part and each equals its part without whitespace and ignoring case |
| GameScreen.TwoBlanksAccepted | frontend/src/components/GameScreen.js:381-392 | the blanks " X" and "y " are accepted for the expected answer "x, Y" |
| GameScreen.HintNeverShownAsWritten | frontend/src/components/GameScreen.js:614-616 | the feedback box as written never shows the hint |
| GameScreen.HintShownAfterMistake | frontend/src/components/GameScreen.js:420 | with the corrected test, the hint is shown exactly after a wrong answer to a challenge that has a non-empty hint |
| GameScreen.BlankCount | frontend/src/components/GameScreen.js:296 | the number of `_____` markers is one less than the number of template pieces the split gives |
| GameScreen.TemplateParts | frontend/src/components/GameScreen.js:473 | a template always has at least one text piece |
| GameScreen.OneInputPerBlank | frontend/src/components/GameScreen.js:473-489 | the template shows one input between each pair of pieces, as many as the blank markers counted for the answer slots, and its pieces rejoin to the template |
| GameScreen.GetMaxLength | frontend/src/components/GameScreen.js:505-513 | 20 without a challenge or an expected answer, and 20 for an index at or past the last comma part; otherwise the length of that trimmed comma part plus 2 |
| GameScreen.ExpectedBlanksFit | frontend/src/components/GameScreen.js:505-513 | each expected comma part fits its input with at least two characters to spare, exactly two when there is an expected answer |
| GameScreen.ExpectedBlanksPass | frontend/src/components/GameScreen.js:362-392 | with two or more expected parts, the parts typed into the blanks and joined by `", "` are accepted |
| GameScreen.SetBlank | frontend/src/components/GameScreen.js:356-358 | only slot `index` takes the new value; slots beyond the old end are empty |
| GameScreen.AnswerForm.constructor | frontend/src/components/GameScreen.js:268-276 | no challenge, empty answer, no option, no blanks, no feedback |
| GameScreen.AnswerForm.LoadChallenge | frontend/src/components/GameScreen.js:293-298 | a fill-in-blank challenge with a template gets one empty answer per `_____` marker; other challenges leave the blanks alone |
| GameScreen.AnswerForm.HandleAnswerChange | frontend/src/components/GameScreen.js:352-354 | the typed answer is the new value |
| GameScreen.AnswerForm.HandleOptionSelect | frontend/src/components/GameScreen.js:365-367 | the selected option is the new one |
| GameScreen.AnswerForm.HandleBlankChange | frontend/src/components/GameScreen.js:356-363 | one slot changes, and the answer is all slots joined by `", "` |
| GameScreen.AnswerForm.HandleSubmit | frontend/src/components/GameScreen.js:369-448 | no challenge: nothing happens; otherwise the feedback follows the verdict, a correct answer starts the player's attack and then stops with a TypeError, and a wrong one starts the enemy's attack |
| Backend.Words | backend/app.py:34 | k words need at least 2k − 1 characters: a word is non-empty and consecutive words are separated by whitespace |
| Backend.WordsAreWords | backend/app.py:34 | every word is non-empty and free of whitespace |
| Backend.WordsOfJoin | backend/app.py:37-38 | words joined by single spaces split back into the same words |
| Backend.LimitWords | backend/app.py:33-38 | the content is either returned unchanged or ends with "..." |
| Backend.LimitWordsBound | backend/app.py:33-38 | with a positive budget the output has at most 1.5 × `max_tokens` words; a cut output keeps the first `max_tokens` words, the last with "..." attached; otherwise the text is unchanged |
| Backend.GenerateWithAmazonQ | backend/app.py:10-44 | content exactly when the run completed with return code 0; otherwise the failure message with stderr as details, "Request to Amazon Q timed out" without details, or "Error generating content: " followed by the exception's message |
| Backend.GeneratedContentBound | backend/app.py:31-40 | content is the stripped output, unchanged when within the word budget and never over it |
| Backend.Find | backend/app.py:78 | the first index of the character, or −1 when it is absent |
| Backend.RFind | backend/app.py:79 | the last index of the character, or −1 when it is absent |
| Backend.JsonSpan | backend/app.py:78-81 | an extracted span starts with `{` and ends with `}` |
| Backend.JsonSpanFound | backend/app.py:78-96 | a span is found exactly when some `{` precedes some `}` |
| Backend.JsonSpanIsFirstToLast | backend/app.py:78-81 | a found span runs from a `{` to a `}` with no `{` before it and no `}` after it |
| Backend.Clip | backend/app.py:85-86 | short strings are unchanged; a long one keeps its first N characters followed by "...", N + 3 in all |
| Backend.ClipIdempotent | backend/app.py:85-86 | clipping twice is clipping once, and the result has at most N + 3 characters |
| Backend.ApplyLimit | backend/app.py:200-203 | strings are clipped; a list or object longer than the limit, or a number, boolean or null, raises; a falsy `next_hint` is skipped |
| Backend.ApplyLimitIdempotent | backend/app.py:200-203 | limiting a limited value changes nothing |
| Backend.LimitField | backend/app.py:84-85 | an earlier exception propagates; a step that does not raise keeps the same keys and changes no field but its own |
| Backend.LimitAll | backend/app.py:84-92 | an exception propagates to the end of the chain; a chain that does not raise keeps the same keys |
| Backend.LimitAllPointwise | backend/app.py:84-92 | the chain raises exactly when some limited field cannot be measured or cut; otherwise each field is limited on its own, whatever the order |
| Backend.LimitAllShapes | backend/app.py:138-146 | after the chain the keys are the same, each limited string has at most its limit plus 3 characters, unlimited fields are unchanged, and a second pass changes nothing |
| Backend.Respond | backend/app.py:70-98 | a generator error gives the handler's 500 error; no span gives "Could not parse JSON from Amazon Q response" |
| Backend.RespondCases | backend/app.py:74-98 | a JSON reply is the decoded span with its fields limited, and a decoded object whose limited fields do not raise gives exactly that reply; a decode error gives 500 "Invalid JSON response from Amazon Q"; an unhandled error comes exactly from a field the limits cannot measure or cut |
| Backend.GetStory | backend/app.py:51-98 | level defaults to "1"; 300 tokens; story 800, setting, character and objective 250 characters |
| Backend.GetChallenge | backend/app.py:100-152 | level defaults to "1" and language to "python"; 400 tokens; question 500, answer 800, hint 250, explanation 500 characters |
| Backend.GetFeedback | backend/app.py:154-209 | absent inputs are empty; answer and correct answer are cut to 1000 and the question to 500 characters before prompting; 200 tokens; feedback 500, a truthy next hint 250 characters |

## Left out

- Everything drawn or played: sprites, animations, tweens, popups, sounds and health bars. Only the state behind them is modelled.
- Time: each `setTimeout` body is a step method that may run once it is due. The model does not say when it runs.
- React rendering, the loading progress, the error state and the game-engine start-up in `GameScreen.js`. `calculateInputWidth` and `estimateInputWidth` are floating-point pixel arithmetic and are not modelled.
- The hint toggle of the challenge screen and its `showHint` state.
- Network calls are oracle values. `getStory` and `submitAnswer` in `api.js` are not part of this model.
- A preload's level and language only go into its fetches, which are oracle values here. The default `count` of 6 is `DefaultPreloadCount`, which callers pass themselves. A `count` that is not an integer is not modelled.
- Combat.GameEngine.constructor runs the JavaScript constructor and the scene's `create` together. The enemy health of 100 the constructor sets before `create` is not a state of its own.
- The `30` and `15` passed to `playerAttack` and `enemyAttack` are ignored by the engine, so the model has no such parameters.
- `gameOver` has an empty body. `HandleSubmit` never reaches it, because the "player defeated" value is always false.
- The enemy reset `handleSubmit` schedules after a defeat is not modelled. It cannot run: the reported defeat never holds, and `addXP` throws first.
- Level 4 ("Bomber Goblin") is never reached because the next-level step caps the level at 3. Its table entries are modelled and proved, but the engine's invariant keeps levels in 1..3.
- The game-over popup's button reloads the page, which ends the model. The victory popup after level 3 has no further step.
- GameScreen.AnswerForm.HandleSubmit: `gameEngineRef.current` is taken to be an initialised engine. A submit before the engine exists would throw; the model does not cover that.
- The challenge's fields are taken to be strings. A challenge without an `answer` would make the checks throw; that is not modelled.
- GameScreen.GetMaxLength: JavaScript's `.length` counts UTF-16 code units, while the model counts characters, so a part with characters outside the Basic Multilingual Plane gets a smaller limit in the model than in the browser.
- Strings.ToLower: JavaScript's `toLowerCase` also lower-cases letters outside ASCII. The model lower-cases only A to Z, so answers that differ only in the case of non-ASCII letters are judged as different.
- Empty array slots that `handleBlankChange` leaves when writing past the end are modelled as empty strings. Both `join` and the rendered inputs treat them that way.
- Backend: Flask routing, CORS, the health-check endpoint, the printed warnings and the prompt wording are not modelled. Each prompt is represented by its parameters.
- Backend: the generator's subprocess run (and its 30-second timeout) and `json.loads` are oracles. A decoded field is only its kind: a string, a list or object with a length, or a number, boolean or null. A request body that is not a JSON object, or inputs that are not strings, are not modelled.
- Backend: `len(words) > max_tokens * 1.5` is a floating-point comparison. It is modelled as the integer test `2 × words > 3 × max_tokens`, which agrees with it for every budget the handlers use.

## Findings

| source | as written | input that shows it | evidently intended | confidence | as-written member | corrected member |
|---|---|---|---|---|---|---|
| frontend/src/components/GameScreen.js:614 | the feedback box shows `next_hint` only when `is_correct` holds, but `next_hint` is null for correct answers | any wrong answer to a challenge whose hint is "Use a loop": the feedback carries the hint, yet the box does not show it | show the hint after a wrong answer (`!feedback.is_correct && feedback.next_hint`) | high; not executed | `GameScreen.HintNeverShownAsWritten` | `GameScreen.HintShownAfterMistake` |
| frontend/src/game/GameEngine.js:46 | `points` starts from `playerConfig.basePoints`, which the configuration does not define | a new engine shows "Points: undefined"; after `addPoints(10)` it shows "Points: NaN" | points start at 0, like `baseXP` | high; not executed | `Combat.PointsAsWrittenNeverNumeric` | `Combat.GameEngine.AddPoints` |
