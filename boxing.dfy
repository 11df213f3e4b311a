/**
 * The page's combat state as it lives in the program: module-level variables
 * that the button handlers, the NPC's turns, the block timers and the
 * per-frame check overwrite in place, and the log panel they write to. Each
 * method is proved to do what the matching transition of module Rules says.
 */
module Boxing {
  import opened FightLog
  import opened Rules

  class Fight {
    var playerHealth: int
    var playerPower: int
    var playerProtection: int
    var npcHealth: int
    var npcPower: int
    var npcProtection: int
    var isPlayerBlocking: bool
    var isNpcBlocking: bool
    var gameState: Phase
    /** The log-content panel. */
    const log: LogPanel

    /** The current value of the combat variables. */
    function Numbers(): Stats
      reads this
    {
      Stats(playerHealth, playerPower, playerProtection,
            npcHealth, npcPower, npcProtection,
            isPlayerBlocking, isNpcBlocking, gameState)
    }

    function State(): Game
      reads this, log
    {
      Game(Numbers(), log.entries)
    }

    ghost predicate Valid()
      reads this, log
    {
      Sound(State())
    }

    /** The variables' initial values, then the page's first log line. */
    constructor ()
      ensures Valid() && fresh(log)
      ensures State() == Start()
    {
      playerHealth := START_HEALTH;
      playerPower := START_POWER;
      playerProtection := START_PROTECTION;
      npcHealth := START_HEALTH;
      npcPower := START_POWER;
      npcProtection := START_PROTECTION;
      isPlayerBlocking := false;
      isNpcBlocking := false;
      gameState := Fighting;
      log := new LogPanel();
      new;
      log.Add(FIGHT_STARTED_MESSAGE, System);
      StartIsSound();
    }

    /** The punch button: punches only while the fight is on. */
    method PunchClicked()
      requires Valid()
      modifies this, log
      ensures Valid() && State() == Next(old(State()), PunchClick)
    {
      NextKeepsSound(State(), PunchClick);
      if gameState == Fighting {
        PlayerPunch();
      }
    }

    /** The block button: blocks only while the fight is on. */
    method BlockClicked()
      requires Valid()
      modifies this, log
      ensures Valid() && State() == Next(old(State()), BlockClick)
    {
      NextKeepsSound(State(), BlockClick);
      if gameState == Fighting {
        PlayerBlock();
      }
    }

    method PlayerPunch()
      requires Valid()
      modifies this, log
      ensures Valid() && State() == Punch(old(State()), Player)
    {
      PunchKeepsSound(State(), Player);
      if isNpcBlocking {
        var damage := Max(BLOCKED_MIN_DAMAGE, playerPower - npcProtection);
        npcHealth := Max(0, npcHealth - damage);
        log.Add(PunchMessage(Player, true, damage), PlayerMove);
      } else {
        var damage := playerPower;
        npcHealth := Max(0, npcHealth - damage);
        log.Add(PunchMessage(Player, false, damage), PlayerMove);
      }
    }

    method PlayerBlock()
      requires Valid()
      modifies this, log
      ensures Valid() && State() == Block(old(State()), Player)
    {
      GuardKeepsSound(State(), Player, true);
      isPlayerBlocking := true;
      log.Add(BlockMessage(Player), PlayerMove);
    }

    /** The player's one-second block timer fires. */
    method PlayerBlockExpires()
      requires Valid()
      modifies this, log
      ensures Valid() && State() == Next(old(State()), PlayerBlockExpired)
    {
      TimerEvents(State(), 0.0);
      GuardKeepsSound(State(), Player, false);
      isPlayerBlocking := false;
      log.Add(StopBlockingMessage(Player), PlayerMove);
    }

    /** One NPC turn, decided by the random `draw`. */
    method NpcAction(draw: real)
      requires Valid()
      modifies this, log
      ensures Valid() && State() == Next(old(State()), NpcTurn(draw))
    {
      ghost var before := State();
      TimerEvents(before, draw);
      NextKeepsSound(before, NpcTurn(draw));
      if gameState != Fighting {
        return;
      }
      if draw < NPC_ATTACK_CHANCE {
        NpcPunch();
      } else {
        NpcBlock();
      }
    }

    /** The attack branch of an NPC turn. */
    method NpcPunch()
      requires Valid()
      modifies this, log
      ensures Valid() && State() == Punch(old(State()), Npc)
    {
      PunchKeepsSound(State(), Npc);
      if isPlayerBlocking {
        var damage := Max(BLOCKED_MIN_DAMAGE, npcPower - playerProtection);
        playerHealth := Max(0, playerHealth - damage);
        log.Add(PunchMessage(Npc, true, damage), NpcMove);
      } else {
        var damage := npcPower;
        playerHealth := Max(0, playerHealth - damage);
        log.Add(PunchMessage(Npc, false, damage), NpcMove);
      }
    }

    /** The block branch of an NPC turn. */
    method NpcBlock()
      requires Valid()
      modifies this, log
      ensures Valid() && State() == Block(old(State()), Npc)
    {
      GuardKeepsSound(State(), Npc, true);
      isNpcBlocking := true;
      log.Add(BlockMessage(Npc), NpcMove);
    }

    /** The NPC's one-second block timer fires. */
    method NpcBlockExpires()
      requires Valid()
      modifies this, log
      ensures Valid() && State() == Next(old(State()), NpcBlockExpired)
    {
      TimerEvents(State(), 0.0);
      GuardKeepsSound(State(), Npc, false);
      isNpcBlocking := false;
      log.Add(StopBlockingMessage(Npc), NpcMove);
    }

    /** The per-frame check: a health at zero ends the game, on every frame it is seen. */
    method Update()
      requires Valid()
      modifies this, log
      ensures Valid() && State() == Next(old(State()), Frame)
    {
      NextKeepsSound(State(), Frame);
      if playerHealth <= 0 || npcHealth <= 0 {
        gameState := GameOver;
        EndGame();
      }
    }

    /** Announces the winner; the player's defeat is checked first. */
    method EndGame()
      requires Valid()
      modifies log
      ensures Valid() && State() == Conclude(old(State()))
    {
      ConcludeKeepsSound(State());
      var winner := if playerHealth <= 0 then Npc else Player;
      log.Add(GameOverMessage(winner), System);
    }

    /** The reset button, at any time. */
    method ResetGame()
      requires Valid()
      modifies this, log
      ensures Valid() && State() == Next(old(State()), ResetClick)
      ensures log.entries == [Entry(NEW_FIGHT_MESSAGE, System)]
    {
      NextKeepsSound(State(), ResetClick);
      RestartRestores(State());
      playerHealth := START_HEALTH;
      npcHealth := START_HEALTH;
      gameState := Fighting;
      isPlayerBlocking := false;
      isNpcBlocking := false;
      log.Clear();
      log.Add(NEW_FIGHT_MESSAGE, System);
    }
  }

  /**
   * A client of the class: from the opening numbers, whatever the log holds,
   * two punches on an open guard and one frame end the fight with the player
   * announced as the winner.
   */
  method Knockout(fight: Fight) returns (announcement: Entry, over: bool)
    requires fight.Valid() && fight.Numbers() == Start().stats
    modifies fight, fight.log
    ensures over
    ensures announcement == Entry(GameOverMessage(Player), System)
  {
    OpeningExchanges(fight.State());
    fight.PunchClicked();
    fight.PunchClicked();
    fight.Update();
    announcement := fight.log.entries[0];
    over := fight.gameState == GameOver;
  }
}
