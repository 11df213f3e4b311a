# Boxing game combat core

This project models the combat core of a small browser boxing game, `game.js`. A player and an NPC each have health, power and protection. The player punches or blocks with buttons. A timer makes the NPC punch (probability 0.7) or block. A raised guard drops again one second later. A per-frame check ends the fight when a health reaches zero. A reset button starts a new fight. Every action writes a line to a newest-first fight log. That log keeps at most 20 combat lines, and lines that mention "Fight started", "Game Over" or "New fight started" are never removed.

The model has four modules:

- `Text`: the substring test behind `String.prototype.includes`, and the decimal rendering of damage values.
- `FightLog`: the log panel.
  - `KeepNewest` is the specification of the trimming.
  - `LogPanel.Add` is the trimming loop itself, over the list of combat positions. It is proved to compute `KeepNewest`.
- `Rules`: the game as values.
  - `Stats` holds the nine module-level variables and `Game` adds the log.
  - Each event (click, NPC turn, block expiry, frame, reset) is one case of `Next`.
  - The properties of the game are lemmas over `Next` and `Run`.
- `Boxing`: the page as the program keeps it.
  - The class `Fight` holds the variables, which its methods overwrite in place, plus the log panel.
  - Every method is proved to perform the matching transition of `Rules.Next` and to keep the invariant `Rules.Sound`.

The invariant `Sound` says four things:

- Both healths stay within [0, 100].
- Both powers stay non-negative.
- A finished game has a knocked-out fighter.
- The log holds at most 20 combat entries, and every entry is exempt exactly when it is a system line.

## Model

| member | source | states |
|---|---|---|
| Text.ContainsIffOccurs | game.js:123-127 | The substring test used by the log filter holds exactly when the marker occurs at some position of the text, in both directions. |
| Text.ContainedCharsOccur | game.js:123-127 | A text that contains a marker contains every character of that marker. |
| Text.ContainsAfterPrefix | game.js:117 | A prefix without the marker's first character neither creates nor hides an occurrence of the marker. |
| Text.NatToStringRoundTrip | game.js:145 | Reading back the decimal digits written into a punch line gives the damage value. |
| Text.IntToString | game.js:145 | The rendered damage denotes the value. It starts with '-' exactly when the value is negative. The digits after the sign, or all the characters when there is no sign, read back as the absolute value. |
| FightLog.StampKeepsExemption | game.js:115-127 | Putting the `[mm:ss.mmm] ` timestamp before a message does not change whether the entry is exempt from trimming. |
| FightLog.CombatPositionsCount | game.js:123-127 | The list the trimming loop works on has one position per combat entry. |
| FightLog.LastCombatPosition | game.js:130-131 | The last position in that list is a combat entry, and only exempt entries come after it in the log. Dropping it leaves the positions of the earlier part of the log. |
| FightLog.KeepNewestWithinCap | game.js:129-136 | Nothing is deleted while there are at most the allowed number of combat entries. |
| FightLog.KeepNewestCombat | game.js:122-136 | The combat entries that survive are exactly the newest min(20, count) of them, in order. |
| FightLog.KeepNewestExempted | game.js:122-127 | Every exempt entry survives, in order. |
| FightLog.KeepNewestSubsequence | game.js:129-136 | Trimming only deletes: the survivors keep their relative order. |
| FightLog.KeepNewestElements | game.js:129-136 | Every entry left after trimming was in the log before. |
| FightLog.KeepNewestTwice | game.js:129-136 | Trimming to k after trimming to n ≥ k is trimming to k. |
| FightLog.KeepNewestDropsOldest | game.js:131-133 | Deleting the oldest combat entry does not change the newest n when that entry was not among them. |
| FightLog.DeleteOldestCombat | game.js:130-136 | One round of the loop, deleting the entry at the last combat position, turns the newest n combat entries into the newest n - 1. The position list loses its last element. |
| FightLog.TrimRound | game.js:130-135 | One round of the loop keeps its state. The popped list still holds the combat positions of the shortened log. That log holds the newest entries of the log the loop started from, one fewer than before. |
| FightLog.TrimmedToCap | game.js:130 | When the loop condition fails, the newest entries kept are exactly the newest 20. |
| FightLog.AddEntryProperties | game.js:106-137 | After an entry is added it is first in the log. At most 20 combat entries remain, and they are the newest ones. All exempt entries are kept. Nothing else changes while the cap is not exceeded. |
| FightLog.LogPanel.constructor | game.js:106-107 | The log panel starts empty. |
| FightLog.LogPanel.Clear | game.js:260-261 | Clearing the panel empties it. |
| FightLog.LogPanel.Add | game.js:106-137 | Inserting at the top and then deleting from the oldest end gives exactly the trimmed log. Exempt entries are untouched and order is kept. |
| Rules.Damage | game.js:140-148 | An open guard takes the attacker's full power. A raised guard takes at least 5 and at least power - protection, and exactly one of them. With non-negative protection and power ≥ 5, blocked damage never exceeds full damage. |
| Rules.AfterHit | game.js:143 | Health after a hit is health - damage clamped at zero. It never goes negative and never rises. |
| Rules.Opponent | game.js:139-185 | A punch always lands on the other fighter. |
| Rules.MoveCategory | game.js:145-191 | Move lines are written with a player or NPC style, never as system lines. |
| Rules.Winner | game.js:229 | The NPC is announced exactly when the player's health is at zero or below. |
| Rules.NoMarkerWithoutMarkerChars | game.js:123-127 | A text without 'F', 'G' and 'w' is never exempt from trimming. |
| Rules.MoveMessageChars | game.js:145-195 | No punch, block or stop-blocking line contains 'F', 'G' or 'w'. |
| Rules.MoveMessagesAreCombat | game.js:145-195 | Every line a move writes counts toward the 20-entry cap. |
| Rules.SystemMessagesAreExempt | game.js:57 | "Fight started!", "New fight started!" and every "Game Over!" line are exempt, so they are never trimmed (also lines 237 and 274). |
| Rules.AddEntryKeepsLogSound | game.js:106-137 | Adding a correctly tagged entry keeps the log within the cap and correctly tagged. |
| Rules.PunchRule | game.js:139-155 | A punch lowers the defender's health by the damage rule, down to zero at the least. Nothing else in the numbers changes. |
| Rules.PunchIsSymmetric | game.js:168-185 | The NPC's punch is the player's punch with the roles swapped, and the other way round. |
| Rules.HitKeepsHealthInRange | game.js:143 | A punch keeps both healths in [0, 100]. It never raises the defender's health and leaves the attacker's alone. |
| Rules.PunchKeepsSound | game.js:139-155 | A punch from either side keeps the game invariant. |
| Rules.GuardKeepsSound | game.js:157-166 | Raising or dropping either guard keeps the game invariant. |
| Rules.ConcludeKeepsSound | game.js:228-242 | Announcing the winner keeps the game invariant. |
| Rules.NextKeepsSound | game.js:60-275 | Every event keeps the game invariant. |
| Rules.RunKeepsSound | game.js:60-275 | Every sequence of events from a sound game keeps it sound: healths in range, at most 20 combat entries, entries tagged as the trimming treats them. |
| Rules.StartIsSound | game.js:26-34 | The page starts sound, with full healths and the single "Fight started!" line (line 57). |
| Rules.MovesIgnoredAfterGameOver | game.js:75-85 | Punch and block clicks and NPC turns change nothing once the game is over (NPC turns: line 169). |
| Rules.OnlyResetRestartsOnlyFrameEnds | game.js:60-68 | A finished game stays finished, with frozen healths, until a reset. A running game finishes only at a frame that finds a health at zero. |
| Rules.BlockExpiryDropsGuard | game.js:162-165 | When a side's block timer fires, in any phase, that side's guard is down and no other number changes. The newest log line is that side's stop-blocking line, and every exempt line is kept (also lines 193-196). |
| Rules.NpcTurnBranches | game.js:168-198 | An NPC attack is a punch on the player that leaves the NPC's guard alone. An NPC block raises its guard and leaves both healths alone. |
| Rules.FrameEndsKnockouts | game.js:60-68 | A frame ends a sound game exactly when a health is at zero. A second frame changes none of the numbers. |
| Rules.EveryFrameAnnouncesAgain | game.js:60-68 | Each frame after a knockout adds another winner announcement. These are never trimmed, so the exempt lines grow by one per frame. |
| Rules.WinnerRule | game.js:228-237 | The player is announced only while standing. A double knockout goes to the NPC. |
| Rules.RestartRestores | game.js:244-275 | A reset restores both healths and the running state and lowers both guards. Power and protection are kept. The log ends up as the single "New fight started!" line. |
| Rules.OpeningExchanges | game.js:26-31 | From the starting numbers, an open punch takes the NPC from 100 to 50 and a blocked one to 80. Two open punches and a frame end the fight with the player as winner (lines 139-155, 60-68 and 228-237). |
| Boxing.Fight.constructor | game.js:26-57 | The variables get their initial values and the log gets its first line; the result is the sound start state. |
| Boxing.Fight.PunchClicked | game.js:75-79 | The punch button performs a player punch while fighting and nothing otherwise. It keeps the invariant. |
| Boxing.Fight.BlockClicked | game.js:81-85 | The block button raises the player's guard while fighting and nothing otherwise. It keeps the invariant. |
| Boxing.Fight.PlayerPunch | game.js:139-155 | The in-place updates and log line perform the player's punch transition. |
| Boxing.Fight.PlayerBlock | game.js:157-160 | The player's guard is raised and the block is logged. |
| Boxing.Fight.PlayerBlockExpires | game.js:162-165 | The player's guard drops and that is logged, whatever the game state. |
| Boxing.Fight.NpcAction | game.js:168-198 | One NPC turn does what `Rules.Next` prescribes for the draw, keeping the invariant. |
| Boxing.Fight.NpcPunch | game.js:173-185 | The in-place updates and log line perform the NPC's punch transition. |
| Boxing.Fight.NpcBlock | game.js:188-191 | The NPC's guard is raised and the block is logged. |
| Boxing.Fight.NpcBlockExpires | game.js:193-196 | The NPC's guard drops and that is logged, whatever the game state. |
| Boxing.Fight.Update | game.js:60-68 | The per-frame check performs the frame transition, ending the game and announcing the winner whenever a health is at zero. |
| Boxing.Fight.EndGame | game.js:228-242 | The winner announcement is appended to the log, and nothing else changes. |
| Boxing.Fight.ResetGame | game.js:244-275 | The reset transition leaves the log holding only the new-fight line. |
| Boxing.Knockout | game.js:139-155 | From the opening numbers, two open punches and one frame end the game, and the newest log line announces the player as winner. |

## Left out

- Phaser rendering is not modelled, because it does not affect the combat state. This covers the floating damage numbers (`showDamageText`), the "GAME OVER" overlay text and its removal on reset, and the fighters' positions.
- The DOM side of the page is not modelled for the same reason: `updateUI`'s display clamp, and the disabling and enabling of the punch and block buttons. The buttons' effect is captured by the `gameState` guard in the click handlers, which is modelled.
- `scheduleNextNpcAction` and the two `setTimeout` block timers are not modelled as timers, because real time is outside the model. Their callbacks are events (`NpcTurn`, `PlayerBlockExpired`, `NpcBlockExpired`) that may arrive in any order.
- The 2-5 second random delay is a consequence of the timers being left out. A timer from a previous fight that fires after a reset is just one more such event.
- `Math.random()` is a parameter: the `draw` of `NpcTurn` is a real number compared against exactly 0.7. Double-precision rounding of the literal 0.7 is not modelled.
- The timestamp text is not stored in entries, because it comes from the clock. `FightLog.StampKeepsExemption` shows that the `[mm:ss.mmm] ` prefix cannot change which entries the trimming keeps.
- HTML element identity is replaced by entry values.
- The page's initial markup for the log element is not part of this model. The model assumes `#log-content` starts empty, which `FightLog.LogPanel.constructor` and the single-line start log of `Rules.StartIsSound` rely on.

On two points the model follows `game.js` where one might expect otherwise:

- The game-over transition is not run "exactly once". `update` (game.js:60-68) is not guarded by `gameState`, so every frame after a knockout announces the winner again. `Rules.EveryFrameAnnouncesAgain` states this.
- A reset does not restore power and protection. `resetGame` (game.js:244-275) touches only the healths, the guards and the state, and `Rules.RestartRestores` states that power and protection are kept.
