/**
 * The combat rules of the boxing page as a transition system on values: the
 * combat numbers (Stats), the log, the events that drive them (button clicks,
 * NPC turns, block expiries, animation frames) and what each event does.
 * The class in module Boxing implements these transitions in place.
 */
module Rules {
  import opened Text
  import opened FightLog

  const START_HEALTH := 100
  const START_POWER := 50
  const START_PROTECTION := 30
  /** The least damage a punch on a blocking defender does. */
  const BLOCKED_MIN_DAMAGE := 5
  /** An NPC turn attacks when its random draw is below this value, and blocks otherwise. */
  const NPC_ATTACK_CHANCE: real := 0.7

  datatype Side = Player | Npc

  datatype Phase = Fighting | GameOver

  /** The module-level combat variables of the page. */
  datatype Stats = Stats(
    playerHealth: int, playerPower: int, playerProtection: int,
    npcHealth: int, npcPower: int, npcProtection: int,
    isPlayerBlocking: bool, isNpcBlocking: bool,
    gameState: Phase)

  /** Everything the combat logic reads or writes: the numbers and the log panel (newest first). */
  datatype Game = Game(stats: Stats, log: seq<Entry>)

  /**
   * What can happen to a fight. NpcTurn carries the random draw in [0, 1)
   * the NPC's turn is decided by; the two expiries are the one-second block
   * timers firing.
   */
  datatype Event =
    | PunchClick
    | BlockClick
    | ResetClick
    | NpcTurn(draw: real)
    | PlayerBlockExpired
    | NpcBlockExpired
    | Frame

  function Max(a: int, b: int): int
  {
    if a >= b then a else b
  }

  // ---------------------------------------------------------------------------
  // Damage

  /** Damage of one punch with `power` on a defender with `protection`. */
  function Damage(power: int, protection: int, blocking: bool): (d: int)
    ensures blocking ==> d >= BLOCKED_MIN_DAMAGE && d >= power - protection
    ensures blocking ==> d == BLOCKED_MIN_DAMAGE || d == power - protection
    ensures !blocking ==> d == power
    ensures blocking && protection >= 0 && power >= BLOCKED_MIN_DAMAGE ==> d <= power
  {
    if blocking then Max(BLOCKED_MIN_DAMAGE, power - protection) else power
  }

  /** Health after taking `damage`: lowered by the damage, but never below zero. */
  function AfterHit(health: int, damage: int): (h: int)
    ensures h >= 0 && h >= health - damage
    ensures h == 0 || h == health - damage
    ensures 0 <= health && 0 <= damage ==> h <= health
  {
    Max(0, health - damage)
  }

  function Opponent(side: Side): (o: Side)
    ensures o != side
  {
    match side
    case Player => Npc
    case Npc => Player
  }

  function Health(s: Stats, side: Side): int
  {
    match side
    case Player => s.playerHealth
    case Npc => s.npcHealth
  }

  function Power(s: Stats, side: Side): int
  {
    match side
    case Player => s.playerPower
    case Npc => s.npcPower
  }

  function Protection(s: Stats, side: Side): int
  {
    match side
    case Player => s.playerProtection
    case Npc => s.npcProtection
  }

  function Blocking(s: Stats, side: Side): bool
  {
    match side
    case Player => s.isPlayerBlocking
    case Npc => s.isNpcBlocking
  }

  function WithHealth(s: Stats, side: Side, health: int): Stats
  {
    match side
    case Player => s.(playerHealth := health)
    case Npc => s.(npcHealth := health)
  }

  function WithBlocking(s: Stats, side: Side, blocking: bool): Stats
  {
    match side
    case Player => s.(isPlayerBlocking := blocking)
    case Npc => s.(isNpcBlocking := blocking)
  }

  /** Damage `attacker` does to the other side in state `s`. */
  function PunchDamage(s: Stats, attacker: Side): int
  {
    var defender := Opponent(attacker);
    Damage(Power(s, attacker), Protection(s, defender), Blocking(s, defender))
  }

  /** The numbers after `attacker` punches: one rule for both sides. */
  function Hit(s: Stats, attacker: Side): Stats
  {
    var defender := Opponent(attacker);
    WithHealth(s, defender, AfterHit(Health(s, defender), PunchDamage(s, attacker)))
  }

  /** The same fight with the roles of player and NPC exchanged. */
  function Mirror(s: Stats): Stats
  {
    Stats(s.npcHealth, s.npcPower, s.npcProtection,
          s.playerHealth, s.playerPower, s.playerProtection,
          s.isNpcBlocking, s.isPlayerBlocking, s.gameState)
  }

  // ---------------------------------------------------------------------------
  // Log messages

  function Name(side: Side): string
  {
    match side
    case Player => "Player"
    case Npc => "NPC"
  }

  function MoveCategory(side: Side): (c: Category)
    ensures c != System
  {
    match side
    case Player => PlayerMove
    case Npc => NpcMove
  }

  function PunchMessage(attacker: Side, blocked: bool, damage: int): string
  {
    Name(attacker) + " punches " + Name(Opponent(attacker))
    + (if blocked then " (blocked)" else "") + " - " + IntToString(damage) + " damage"
  }

  function BlockMessage(side: Side): string
  {
    Name(side) + " blocks"
  }

  function StopBlockingMessage(side: Side): string
  {
    Name(side) + " stops blocking"
  }

  function GameOverMessage(winner: Side): string
  {
    "Game Over! " + Name(winner) + " wins!"
  }

  const FIGHT_STARTED_MESSAGE := "Fight started!"
  const NEW_FIGHT_MESSAGE := "New fight started!"

  // ---------------------------------------------------------------------------
  // Transitions

  /** A punch by `attacker`: the hit, then its log line. */
  function Punch(g: Game, attacker: Side): Game
  {
    var blocked := Blocking(g.stats, Opponent(attacker));
    var text := PunchMessage(attacker, blocked, PunchDamage(g.stats, attacker));
    Game(Hit(g.stats, attacker), AddEntry(g.log, Entry(text, MoveCategory(attacker))))
  }

  /** `side` raises its guard. */
  function Block(g: Game, side: Side): Game
  {
    Game(WithBlocking(g.stats, side, true), AddEntry(g.log, Entry(BlockMessage(side), MoveCategory(side))))
  }

  /** The block timer of `side` fires. */
  function StopBlocking(g: Game, side: Side): Game
  {
    Game(WithBlocking(g.stats, side, false),
         AddEntry(g.log, Entry(StopBlockingMessage(side), MoveCategory(side))))
  }

  predicate KnockedOut(s: Stats)
  {
    s.playerHealth <= 0 || s.npcHealth <= 0
  }

  /** The winner announced at the end: the player's defeat is checked first. */
  function Winner(playerHealth: int): (w: Side)
    ensures w == Npc <==> playerHealth <= 0
  {
    if playerHealth <= 0 then Npc else Player
  }

  /** `endGame`: announces the winner in the log. */
  function Conclude(g: Game): Game
  {
    Game(g.stats, AddEntry(g.log, Entry(GameOverMessage(Winner(g.stats.playerHealth)), System)))
  }

  /** `resetGame`: fresh healths, no blocks, an emptied log with one announcement. */
  function Restart(g: Game): Game
  {
    Game(g.stats.(playerHealth := START_HEALTH, npcHealth := START_HEALTH, gameState := Fighting,
                  isPlayerBlocking := false, isNpcBlocking := false),
         AddEntry([], Entry(NEW_FIGHT_MESSAGE, System)))
  }

  /** The page once it has loaded: the initial variables and the first log line. */
  function Start(): Game
  {
    Game(Stats(START_HEALTH, START_POWER, START_PROTECTION,
               START_HEALTH, START_POWER, START_PROTECTION,
               false, false, Fighting),
         AddEntry([], Entry(FIGHT_STARTED_MESSAGE, System)))
  }

  /** The effect of one event. */
  function Next(g: Game, e: Event): Game
  {
    var fighting := g.stats.gameState == Fighting;
    match e
    case PunchClick => if fighting then Punch(g, Player) else g
    case BlockClick => if fighting then Block(g, Player) else g
    case ResetClick => Restart(g)
    case NpcTurn(draw) =>
      if !fighting then g
      else if draw < NPC_ATTACK_CHANCE then Punch(g, Npc)
      else Block(g, Npc)
    case PlayerBlockExpired => StopBlocking(g, Player)
    case NpcBlockExpired => StopBlocking(g, Npc)
    case Frame => if KnockedOut(g.stats) then Conclude(g.(stats := g.stats.(gameState := GameOver))) else g
  }

  /** The effect of a sequence of events, first to last. */
  function Run(g: Game, events: seq<Event>): Game
    decreases |events|
  {
    if events == [] then g else Run(Next(g, events[0]), events[1..])
  }

  // ---------------------------------------------------------------------------
  // The invariant every reachable game keeps

  predicate StatsSound(s: Stats)
  {
    && 0 <= s.playerHealth <= START_HEALTH
    && 0 <= s.npcHealth <= START_HEALTH
    && s.playerPower >= 0
    && s.npcPower >= 0
    && (s.gameState == GameOver ==> KnockedOut(s))
  }

  /** The entry's category says "system" exactly when its text is exempt from trimming. */
  predicate Tagged(e: Entry)
  {
    Exempt(e) <==> e.category == System
  }

  predicate LogSound(log: seq<Entry>)
  {
    |Combat(log)| <= MAX_COMBAT_ENTRIES && forall e :: e in log ==> Tagged(e)
  }

  predicate Sound(g: Game)
  {
    StatsSound(g.stats) && LogSound(g.log)
  }

  // ---------------------------------------------------------------------------
  // Which messages are exempt from trimming

  /** Text without an 'F', a 'G' and a 'w' mentions none of the three markers. */
  lemma NoMarkerWithoutMarkerChars(t: string, c: Category)
    requires 'F' !in t && 'G' !in t && 'w' !in t
    ensures !Exempt(Entry(t, c))
  {
    ContainedCharsOccur(t, FIGHT_STARTED_MARKER, 'F');
    ContainedCharsOccur(t, GAME_OVER_MARKER, 'G');
    ContainedCharsOccur(t, NEW_FIGHT_MARKER, 'w');
  }

  /** None of a move's lines has an 'F', a 'G' or a 'w' in it. */
  lemma MoveMessageChars(side: Side, blocked: bool, damage: int, c: char)
    requires c == 'F' || c == 'G' || c == 'w'
    ensures c !in PunchMessage(side, blocked, damage)
    ensures c !in BlockMessage(side)
    ensures c !in StopBlockingMessage(side)
  {
    var name, other, digits := Name(side), Name(Opponent(side)), IntToString(damage);
    var mark := if blocked then " (blocked)" else "";
    assert c !in digits;
    assert c !in name && c !in other && c !in mark by {
      match side
      case Player =>
      case Npc =>
    }
    assert PunchMessage(side, blocked, damage) == name + " punches " + other + mark + " - " + digits + " damage";
    assert BlockMessage(side) == name + " blocks";
    assert StopBlockingMessage(side) == name + " stops blocking";
  }

  /** Every line a move writes is a combat entry. */
  lemma MoveMessagesAreCombat(side: Side, blocked: bool, damage: int)
    ensures !Exempt(Entry(PunchMessage(side, blocked, damage), MoveCategory(side)))
    ensures !Exempt(Entry(BlockMessage(side), MoveCategory(side)))
    ensures !Exempt(Entry(StopBlockingMessage(side), MoveCategory(side)))
  {
    MoveMessageChars(side, blocked, damage, 'F');
    MoveMessageChars(side, blocked, damage, 'G');
    MoveMessageChars(side, blocked, damage, 'w');
    NoMarkerWithoutMarkerChars(PunchMessage(side, blocked, damage), MoveCategory(side));
    NoMarkerWithoutMarkerChars(BlockMessage(side), MoveCategory(side));
    NoMarkerWithoutMarkerChars(StopBlockingMessage(side), MoveCategory(side));
  }

  /** Every line the game itself writes is exempt from trimming. */
  lemma SystemMessagesAreExempt(winner: Side)
    ensures Exempt(Entry(GameOverMessage(winner), System))
    ensures Exempt(Entry(FIGHT_STARTED_MESSAGE, System))
    ensures Exempt(Entry(NEW_FIGHT_MESSAGE, System))
  {
    assert GameOverMessage(winner) == GAME_OVER_MARKER + ("! " + Name(winner) + " wins!");
    StartsWithContains(GAME_OVER_MARKER, "! " + Name(winner) + " wins!");
    assert FIGHT_STARTED_MESSAGE == FIGHT_STARTED_MARKER + "!";
    StartsWithContains(FIGHT_STARTED_MARKER, "!");
    assert NEW_FIGHT_MESSAGE == NEW_FIGHT_MARKER + "!";
    StartsWithContains(NEW_FIGHT_MARKER, "!");
  }

  /** Adding a correctly tagged entry keeps the log sound. */
  lemma AddEntryKeepsLogSound(log: seq<Entry>, e: Entry)
    requires forall x :: x in log ==> Tagged(x)
    requires Tagged(e)
    ensures LogSound(AddEntry(log, e))
  {
    AddEntryProperties(log, e);
    KeepNewestElements([e] + log, MAX_COMBAT_ENTRIES);
  }

  // ---------------------------------------------------------------------------
  // Properties of the transitions

  /**
   * A punch lowers the defender's health by the damage, down to zero at the
   * least, where the damage is the attacker's power against an open guard and
   * max(5, power - protection) against a raised one. Nothing else changes.
   */
  lemma PunchRule(g: Game, attacker: Side)
    ensures var d := Opponent(attacker); var s, t := g.stats, Punch(g, attacker).stats;
      && Health(t, d) == Max(0, Health(s, d) - (if Blocking(s, d)
                                               then Max(BLOCKED_MIN_DAMAGE, Power(s, attacker) - Protection(s, d))
                                               else Power(s, attacker)))
      && t == WithHealth(s, d, Health(t, d))
  {
  }

  /** Player and NPC punches follow the same rule with the roles exchanged. */
  lemma PunchIsSymmetric(s: Stats)
    ensures Hit(Mirror(s), Player) == Mirror(Hit(s, Npc))
    ensures Hit(Mirror(s), Npc) == Mirror(Hit(s, Player))
  {
  }

  /** A punch never raises a health, never drops one below zero, and leaves the attacker's alone. */
  lemma HitKeepsHealthInRange(s: Stats, attacker: Side)
    requires StatsSound(s)
    ensures StatsSound(Hit(s, attacker))
    ensures Health(Hit(s, attacker), Opponent(attacker)) <= Health(s, Opponent(attacker))
    ensures Health(Hit(s, attacker), attacker) == Health(s, attacker)
  {
  }

  lemma PunchKeepsSound(g: Game, attacker: Side)
    requires Sound(g)
    ensures Sound(Punch(g, attacker))
  {
    var text := PunchMessage(attacker, Blocking(g.stats, Opponent(attacker)), PunchDamage(g.stats, attacker));
    MoveMessagesAreCombat(attacker, Blocking(g.stats, Opponent(attacker)), PunchDamage(g.stats, attacker));
    HitKeepsHealthInRange(g.stats, attacker);
    AddEntryKeepsLogSound(g.log, Entry(text, MoveCategory(attacker)));
  }

  lemma GuardKeepsSound(g: Game, side: Side, raised: bool)
    requires Sound(g)
    ensures Sound(if raised then Block(g, side) else StopBlocking(g, side))
  {
    MoveMessagesAreCombat(side, false, 0);
    if raised {
      AddEntryKeepsLogSound(g.log, Entry(BlockMessage(side), MoveCategory(side)));
    } else {
      AddEntryKeepsLogSound(g.log, Entry(StopBlockingMessage(side), MoveCategory(side)));
    }
  }

  lemma ConcludeKeepsSound(g: Game)
    requires Sound(g)
    ensures Sound(Conclude(g))
  {
    SystemMessagesAreExempt(Winner(g.stats.playerHealth));
    AddEntryKeepsLogSound(g.log, Entry(GameOverMessage(Winner(g.stats.playerHealth)), System));
  }

  /** Every event keeps a sound game sound. */
  lemma NextKeepsSound(g: Game, e: Event)
    requires Sound(g)
    ensures Sound(Next(g, e))
  {
    var fighting := g.stats.gameState == Fighting;
    match e
    case PunchClick =>
      if fighting {
        PunchKeepsSound(g, Player);
      }
    case BlockClick =>
      GuardKeepsSound(g, Player, true);
    case ResetClick =>
      SystemMessagesAreExempt(Player);
      AddEntryKeepsLogSound([], Entry(NEW_FIGHT_MESSAGE, System));
    case NpcTurn(draw) =>
      if fighting && draw < NPC_ATTACK_CHANCE {
        PunchKeepsSound(g, Npc);
      } else {
        GuardKeepsSound(g, Npc, true);
      }
    case PlayerBlockExpired =>
      GuardKeepsSound(g, Player, false);
    case NpcBlockExpired =>
      GuardKeepsSound(g, Npc, false);
    case Frame =>
      if KnockedOut(g.stats) {
        ConcludeKeepsSound(g.(stats := g.stats.(gameState := GameOver)));
      }
  }

  /**
   * From a sound game, in particular from Start(), every sequence of clicks,
   * NPC turns, block expiries, frames and resets keeps both healths within
   * [0, 100], at most 20 combat entries in the log, and every log entry
   * tagged as what the trimming takes it for.
   */
  lemma {:induction false} RunKeepsSound(g: Game, events: seq<Event>)
    requires Sound(g)
    ensures Sound(Run(g, events))
    decreases |events|
  {
    if events != [] {
      NextKeepsSound(g, events[0]);
      RunKeepsSound(Next(g, events[0]), events[1..]);
    }
  }

  /** The page starts in a sound state with full healths and one log line. */
  lemma StartIsSound()
    ensures Sound(Start())
    ensures Start().stats.playerHealth == START_HEALTH == Start().stats.npcHealth
    ensures Start().log == [Entry(FIGHT_STARTED_MESSAGE, System)]
  {
    SystemMessagesAreExempt(Player);
    AddEntryProperties([], Entry(FIGHT_STARTED_MESSAGE, System));
    assert Combat([Entry(FIGHT_STARTED_MESSAGE, System)]) == [];
  }

  /** Punch, block and the NPC's turn do nothing once the game is over. */
  lemma MovesIgnoredAfterGameOver(g: Game, draw: real)
    requires g.stats.gameState == GameOver
    ensures Next(g, PunchClick) == g
    ensures Next(g, BlockClick) == g
    ensures Next(g, NpcTurn(draw)) == g
  {
  }

  /**
   * A finished game stays finished, with both healths frozen, until a reset;
   * and a running game only finishes at a frame that finds a health at zero.
   */
  lemma OnlyResetRestartsOnlyFrameEnds(g: Game, e: Event)
    ensures g.stats.gameState == GameOver && !e.ResetClick? ==>
      && Next(g, e).stats.gameState == GameOver
      && Next(g, e).stats.playerHealth == g.stats.playerHealth
      && Next(g, e).stats.npcHealth == g.stats.npcHealth
    ensures g.stats.gameState == Fighting && Next(g, e).stats.gameState == GameOver ==>
      e == Frame && KnockedOut(g.stats)
  {
  }

  /** `Next` on the events the timers drive, written out for the methods that perform them. */
  lemma TimerEvents(g: Game, draw: real)
    ensures Next(g, NpcTurn(draw)) ==
      if g.stats.gameState != Fighting then g
      else if draw < NPC_ATTACK_CHANCE then Punch(g, Npc)
      else Block(g, Npc)
    ensures Next(g, PlayerBlockExpired) == StopBlocking(g, Player)
    ensures Next(g, NpcBlockExpired) == StopBlocking(g, Npc)
  {
  }

  /**
   * A block timer fires whatever the phase: that side's guard is down, no
   * other number changes, the stop-blocking line is the newest entry, and
   * being a combat entry it never pushes out an exempt one.
   */
  lemma BlockExpiryDropsGuard(g: Game, side: Side)
    ensures var e := if side == Player then PlayerBlockExpired else NpcBlockExpired;
      var r := Next(g, e);
      && r.stats == WithBlocking(g.stats, side, false)
      && !Blocking(r.stats, side)
      && r.log != [] && r.log[0] == Entry(StopBlockingMessage(side), MoveCategory(side))
      && Exempted(r.log) == Exempted(g.log)
  {
    var entry := Entry(StopBlockingMessage(side), MoveCategory(side));
    MoveMessagesAreCombat(side, false, 0);
    AddEntryProperties(g.log, entry);
    ExemptedAppend([entry], g.log);
    assert Exempted([entry]) == [] by {
      assert [entry][1..] == [];
    }
  }

  /**
   * An NPC turn in a running game: a draw below 0.7 is a punch on the player
   * that leaves the NPC's guard as it was; any other draw raises the NPC's
   * guard and leaves both healths alone.
   */
  lemma NpcTurnBranches(g: Game, draw: real)
    requires g.stats.gameState == Fighting
    ensures draw < NPC_ATTACK_CHANCE ==>
      Next(g, NpcTurn(draw)) == Punch(g, Npc)
      && Next(g, NpcTurn(draw)).stats.isNpcBlocking == g.stats.isNpcBlocking
    ensures draw >= NPC_ATTACK_CHANCE ==>
      && Next(g, NpcTurn(draw)).stats.isNpcBlocking
      && Next(g, NpcTurn(draw)).stats.playerHealth == g.stats.playerHealth
      && Next(g, NpcTurn(draw)).stats.npcHealth == g.stats.npcHealth
  {
  }

  /**
   * A frame ends a sound game exactly when a health is at zero; a second
   * frame leaves the numbers as the first left them.
   */
  lemma FrameEndsKnockouts(g: Game)
    requires Sound(g)
    ensures Next(g, Frame).stats.gameState == GameOver <==> KnockedOut(g.stats)
    ensures Next(Next(g, Frame), Frame).stats == Next(g, Frame).stats
  {
  }

  /**
   * The game-over check is not guarded against running again: every frame
   * after a knockout announces the winner once more, and these announcements,
   * being exempt, are never trimmed.
   */
  lemma EveryFrameAnnouncesAgain(g: Game)
    requires KnockedOut(g.stats)
    ensures var once := Next(g, Frame); var twice := Next(once, Frame);
      && once.log[0] == twice.log[0] == Entry(GameOverMessage(Winner(g.stats.playerHealth)), System)
      && |Exempted(twice.log)| == |Exempted(g.log)| + 2
  {
    var e := Entry(GameOverMessage(Winner(g.stats.playerHealth)), System);
    SystemMessagesAreExempt(Winner(g.stats.playerHealth));
    var once := Next(g, Frame);
    AddEntryProperties(g.log, e);
    AddEntryProperties(once.log, e);
    ExemptedAppend([e], g.log);
    ExemptedAppend([e], once.log);
    assert Exempted([e]) == [e] by {
      assert [e][1..] == [];
    }
  }

  /**
   * The announced winner: the NPC exactly when the player's health is at zero,
   * so a double knockout goes to the NPC; the player wins only while standing.
   */
  lemma WinnerRule(s: Stats)
    requires KnockedOut(s)
    ensures Winner(s.playerHealth) == Player ==> s.npcHealth <= 0 < s.playerHealth
    ensures s.playerHealth <= 0 && s.npcHealth <= 0 ==> Winner(s.playerHealth) == Npc
  {
  }

  /**
   * A reset restores both healths and the running state, lowers both guards,
   * keeps power and protection, and leaves the announcement as the only log line.
   */
  lemma RestartRestores(g: Game)
    ensures var r := Next(g, ResetClick).stats;
      && r.playerHealth == START_HEALTH && r.npcHealth == START_HEALTH
      && r.gameState == Fighting && !r.isPlayerBlocking && !r.isNpcBlocking
      && r.playerPower == g.stats.playerPower && r.npcPower == g.stats.npcPower
      && r.playerProtection == g.stats.playerProtection && r.npcProtection == g.stats.npcProtection
    ensures Next(g, ResetClick).log == [Entry(NEW_FIGHT_MESSAGE, System)]
  {
    AddEntryProperties([], Entry(NEW_FIGHT_MESSAGE, System));
    assert Combat([Entry(NEW_FIGHT_MESSAGE, System)]) == [] by {
      SystemMessagesAreExempt(Player);
    }
  }

  /**
   * Worked examples with the starting numbers, whatever the log holds: a
   * punch on an open guard takes the NPC from 100 to 50, one on a raised
   * guard to 80, and two open punches followed by a frame end the fight in
   * the player's favour.
   */
  lemma OpeningExchanges(g: Game)
    requires g.stats == Start().stats
    ensures Next(g, PunchClick).stats.npcHealth == 50
    ensures Next(g.(stats := g.stats.(isNpcBlocking := true)), PunchClick).stats.npcHealth == 80
    ensures var g2 := Next(Next(g, PunchClick), PunchClick); var g3 := Next(g2, Frame);
      && g3.stats.gameState == GameOver && g3.stats.npcHealth == 0
      && g3.log[0] == Entry(GameOverMessage(Player), System)
    ensures var end := Run(g, [PunchClick, PunchClick, Frame]).stats;
      end.gameState == GameOver && end.npcHealth == 0 && Winner(end.playerHealth) == Player
  {
    var s0 := g.stats;
    var g1 := Next(g, PunchClick);
    assert g1.stats == s0.(npcHealth := 50);
    var g2 := Next(g1, PunchClick);
    assert g2.stats == s0.(npcHealth := 0);
    var g3 := Next(g2, Frame);
    assert g3.stats == s0.(npcHealth := 0, gameState := GameOver);
    AddEntryProperties(g2.log, Entry(GameOverMessage(Player), System));
    assert Run(g3, []) == g3;
    assert [PunchClick, PunchClick, Frame][1..] == [PunchClick, Frame];
    assert [PunchClick, Frame][1..] == [Frame];
    assert [Frame][1..] == [];
  }
}
