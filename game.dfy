/**
 * The game engine of game.py: the `Player` record and the `WerewolfGame`
 * state holder, whose methods mutate the player list, the night-action
 * dictionary, the log and the counters. Each method is proved against the
 * value-level rules of module GameRules.
 */
module Game {
  import opened Wrappers
  import opened Roles
  import opened GameRules

  /** The phase values game.py itself assigns; the rest belong to the user interface. */
  datatype Phase = Menu | ShowRoles | Day

  /** `last_night_info`: nobody died, or the names of the dead in order of death. */
  datatype NightReport = NoVictims | Died(names: seq<string>)

  /** The messages game.py logs. */
  datatype Message =
    | GameStarted
    | NightResult(report: NightReport)
    | MorningOf(day: int)
    | Executed(name: string)
    | NoExecution
    | Victory(winner: Winner)

  /** A log line: the day it was written on and its message. */
  datatype LogEntry = LogEntry(day: int, message: Message)

  /** What the medium learns about yesterday's executed player. */
  datatype MediumReport = MediumReport(name: string, species: string)

  /** A seat at the table: its index, the player's name, the dealt role and whether the player lives. */
  datatype Player = Player(idx: nat, name: string, role: Role, isAlive: bool)

  /** The alive flags of a list of players. */
  function AliveOf(ps: seq<Player>): (alive: seq<bool>)
    ensures |alive| == |ps|
    ensures forall i :: 0 <= i < |ps| ==> alive[i] == ps[i].isAlive
  {
    if ps == [] then [] else [ps[0].isAlive] + AliveOf(ps[1..])
  }

  /** The roles of a list of players. */
  function RolesOf(ps: seq<Player>): (roles: seq<Role>)
    ensures |roles| == |ps|
    ensures forall i :: 0 <= i < |ps| ==> roles[i] == ps[i].role
  {
    seq(|ps|, i requires 0 <= i < |ps| => ps[i].role)
  }

  /** `[p for p in ps if p.is_alive]`. */
  function LivingAmong(ps: seq<Player>): (living: seq<Player>)
    ensures |living| == CountAlive(AliveOf(ps))
  {
    if ps == [] then []
    else
      assert AliveOf(ps)[1..] == AliveOf(ps[1..]);
      (if ps[0].isAlive then [ps[0]] else []) + LivingAmong(ps[1..])
  }

  /** `[p for p in ps if isinstance(p.role, r)]`. */
  function OfRole(ps: seq<Player>, r: Role): (matching: seq<Player>)
    ensures |matching| <= |ps|
    ensures forall k :: 0 <= k < |matching| ==> matching[k].role == r
  {
    if ps == [] then []
    else (if ps[0].role == r then [ps[0]] else []) + OfRole(ps[1..], r)
  }

  lemma {:induction false} OfRoleConcat(a: seq<Player>, b: seq<Player>, r: Role)
    ensures OfRole(a + b, r) == OfRole(a, r) + OfRole(b, r)
  {
    if a == [] {
      assert a + b == b;
    } else {
      assert (a + b)[0] == a[0];
      assert (a + b)[1..] == a[1..] + b;
      OfRoleConcat(a[1..], b, r);
    }
  }

  /** `get_alive_players` keeps exactly the living players. */
  lemma {:induction false} LivingAmongMembers(ps: seq<Player>)
    ensures forall k :: 0 <= k < |LivingAmong(ps)| ==> LivingAmong(ps)[k] in ps && LivingAmong(ps)[k].isAlive
    ensures forall i :: 0 <= i < |ps| && ps[i].isAlive ==> ps[i] in LivingAmong(ps)
  {
    if ps != [] {
      LivingAmongMembers(ps[1..]);
      var head := if ps[0].isAlive then [ps[0]] else [];
      assert LivingAmong(ps) == head + LivingAmong(ps[1..]);
      forall i | 0 <= i < |ps| && ps[i].isAlive
        ensures ps[i] in LivingAmong(ps)
      {
        if i > 0 {
          assert ps[i] == ps[1..][i - 1];
        }
      }
    }
  }

  /** The `isinstance` filter keeps exactly the players of that role. */
  lemma {:induction false} OfRoleMembers(ps: seq<Player>, r: Role)
    ensures forall k :: 0 <= k < |OfRole(ps, r)| ==> OfRole(ps, r)[k] in ps
    ensures forall i :: 0 <= i < |ps| && ps[i].role == r ==> ps[i] in OfRole(ps, r)
  {
    if ps != [] {
      OfRoleMembers(ps[1..], r);
      forall i | 0 <= i < |ps| && ps[i].role == r
        ensures ps[i] in OfRole(ps, r)
      {
        if i > 0 {
          assert ps[i] == ps[1..][i - 1];
        }
      }
    }
  }

  /** Counting the living players of a role by filtering twice agrees with the count on the tables. */
  lemma {:induction false} LivingOfRoleCount(ps: seq<Player>, r: Role)
    ensures |OfRole(LivingAmong(ps), r)| == CountAliveRole(AliveOf(ps), RolesOf(ps), r)
  {
    if ps != [] {
      var head := if ps[0].isAlive then [ps[0]] else [];
      OfRoleConcat(head, LivingAmong(ps[1..]), r);
      assert AliveOf(ps)[1..] == AliveOf(ps[1..]);
      assert RolesOf(ps)[1..] == RolesOf(ps[1..]);
      LivingOfRoleCount(ps[1..], r);
    }
  }

  /** The winner rule evaluated on the filtered player lists is the rule on the tables. */
  lemma WinnerOfPlayers(ps: seq<Player>)
    ensures WinnerOf(AliveOf(ps), RolesOf(ps))
      == Outcome(|LivingAmong(ps)|, |OfRole(LivingAmong(ps), Werewolf)|, |OfRole(LivingAmong(ps), Fox)|)
  {
    LivingOfRoleCount(ps, Werewolf);
    LivingOfRoleCount(ps, Fox);
  }

  /** `[players[i].name for i in deaths]`. */
  function NamesOf(ps: seq<Player>, deaths: seq<nat>): (names: seq<string>)
    requires forall k :: 0 <= k < |deaths| ==> deaths[k] < |ps|
  {
    seq(|deaths|, k requires 0 <= k < |deaths| && deaths[k] < |ps| => ps[deaths[k]].name)
  }

  /** The night summary: nobody, or the names of the dead in order of death. */
  function ReportForSeats(ps: seq<Player>, deaths: seq<nat>): NightReport
    requires forall k :: 0 <= k < |deaths| ==> deaths[k] < |ps|
  {
    if deaths == [] then NoVictims
    else Died(NamesOf(ps, deaths))
  }

  /** Two player lists that differ at most in who is alive. */
  ghost predicate OnlyLifeChanged(ps: seq<Player>, qs: seq<Player>)
  {
    |qs| == |ps| && forall i :: 0 <= i < |ps| ==> qs[i] == ps[i].(isAlive := qs[i].isAlive)
  }

  /** Deaths do not rename anybody: the summary is the same before and after them. */
  lemma SameReport(ps: seq<Player>, qs: seq<Player>, deaths: seq<nat>)
    requires OnlyLifeChanged(ps, qs)
    requires forall k :: 0 <= k < |deaths| ==> deaths[k] < |ps|
    ensures ReportForSeats(qs, deaths) == ReportForSeats(ps, deaths)
  {
    assert NamesOf(qs, deaths) == NamesOf(ps, deaths);
  }

  /**
   * The summary of a night says nobody died exactly when the night left
   * every alive flag as it was.
   */
  lemma QuietNight(ps: seq<Player>, acts: NightActions, attack: Option<nat>)
    requires InRange(acts, |ps|) && (attack.Some? ==> attack.value < |ps|)
    ensures var deaths := NightDeaths(AliveOf(ps), RolesOf(ps), acts, attack);
      ReportForSeats(ps, deaths) == NoVictims <==> Kill(AliveOf(ps), deaths) == AliveOf(ps)
  {
    KillChangesAlive(AliveOf(ps), NightDeaths(AliveOf(ps), RolesOf(ps), acts, attack));
  }

  /** `players[k].is_alive = False`, on the list of seats. */
  function WithDead(ps: seq<Player>, k: nat): (qs: seq<Player>)
    requires k < |ps|
    ensures OnlyLifeChanged(ps, qs) && !qs[k].isAlive
    ensures AliveOf(qs) == AliveOf(ps)[k := false]
    ensures RolesOf(qs) == RolesOf(ps)
  {
    ps[k := ps[k].(isAlive := false)]
  }

  /**
   * The draw in `resolve_night`: with a wolf alive and a vote cast,
   * `random.choice` among the confident targets, or among all voted targets
   * when no wolf is confident; otherwise no attack.
   */
  method ChooseAttack(wolvesAlive: bool, votes: map<nat, Vote>) returns (attack: Option<nat>)
    ensures AttackAllowed(wolvesAlive, votes, attack)
  {
    attack := None;
    if wolvesAlive && votes != map[] {
      var confidentVotes := ConfidentTargets(votes);
      if confidentVotes != {} {
        var t :| t in confidentVotes;
        attack := Some(t);
      } else {
        AttackPoolNonEmpty(votes);
        var allVotes := AllTargets(votes);
        var t :| t in allVotes;
        attack := Some(t);
      }
    }
  }

  /**
   * `random.shuffle`: the roles are drawn one at a time, each draw an
   * arbitrary one of those left, so every permutation is a possible result.
   */
  method Shuffle<T>(s: seq<T>) returns (r: seq<T>)
    ensures |r| == |s| && multiset(r) == multiset(s)
  {
    r := [];
    var rest := s;
    while rest != []
      invariant multiset(r) + multiset(rest) == multiset(s)
      invariant |r| + |rest| == |s|
      decreases |rest|
    {
      var k :| 0 <= k < |rest|;
      assert rest == rest[..k] + [rest[k]] + rest[k + 1..];
      r := r + [rest[k]];
      rest := rest[..k] + rest[k + 1..];
    }
  }

  /** The first loop of `setup_game`: the configured roles in order, then Villagers up to the player count. */
  method CollectRoles(roleCounts: RoleCounts, numPlayers: nat) returns (totalRoles: seq<Role>)
    ensures totalRoles == RolePool(roleCounts, numPlayers)
  {
    totalRoles := [];
    var roleMap := RoleMap(roleCounts);
    var currentCount := 0;
    for k := 0 to |roleMap|
      invariant totalRoles == Collected(roleMap[..k])
      invariant currentCount == Counted(roleMap[..k])
    {
      CollectedStep(roleMap, k);
      totalRoles := totalRoles + Repeat(roleMap[k].0, roleMap[k].1);
      currentCount := currentCount + roleMap[k].1;
    }
    assert roleMap[..|roleMap|] == roleMap;
    var numVillager := numPlayers - currentCount;
    totalRoles := totalRoles + Repeat(Villager, numVillager);
  }

  /** The roles of `setup_game` after `random.shuffle`: a permutation of the pool, at least one per player. */
  method DealRoles(roleCounts: RoleCounts, numPlayers: nat) returns (dealt: seq<Role>)
    ensures multiset(dealt) == multiset(RolePool(roleCounts, numPlayers))
    ensures |dealt| >= numPlayers
    ensures NonNegative(roleCounts) && Configured(roleCounts) <= numPlayers ==> |dealt| == numPlayers
  {
    var totalRoles := CollectRoles(roleCounts, numPlayers);
    RolePoolLength(roleCounts, numPlayers);
    dealt := Shuffle(totalRoles);
  }

  /** The second loop of `setup_game`: player i gets name i and dealt role i and starts alive. */
  method SeatPlayers(playerNames: seq<string>, dealt: seq<Role>) returns (seated: seq<Player>)
    requires |playerNames| <= |dealt|
    ensures |seated| == |playerNames|
    ensures forall i :: 0 <= i < |seated| ==> seated[i] == Player(i, playerNames[i], dealt[i], true)
    ensures multiset(RolesOf(seated)) <= multiset(dealt)
    ensures |playerNames| == |dealt| ==> multiset(RolesOf(seated)) == multiset(dealt)
  {
    seated := [];
    for i := 0 to |playerNames|
      invariant |seated| == i
      invariant forall j :: 0 <= j < i ==> seated[j] == Player(j, playerNames[j], dealt[j], true)
    {
      seated := seated + [Player(i, playerNames[i], dealt[i], true)];
    }
    assert RolesOf(seated) == dealt[..|playerNames|];
    PrefixMultiset(dealt, |playerNames|);
    assert dealt[..|dealt|] == dealt;
  }

  /** The roles dealt are a sub-multiset of the shuffled pool. */
  lemma PrefixMultiset<T>(s: seq<T>, n: nat)
    requires n <= |s|
    ensures multiset(s[..n]) <= multiset(s)
  {
    assert s == s[..n] + s[n..];
  }

  class WerewolfGame {
    var phase: Phase
    var numPlayers: int
    var players: seq<Player>
    var dayCount: int
    var currentTurnIdx: int
    var log: seq<LogEntry>
    var lastNightInfo: Option<NightReport>
    var executedYesterdayIdx: Option<nat>
    var gameWinner: Option<Winner>
    var nightActions: NightActions

    /** Player i sits at index i, the executed index is a seat, and the log is within its cap. */
    ghost predicate Valid()
      reads this`players, this`executedYesterdayIdx, this`log
    {
      && (forall i :: 0 <= i < |players| ==> players[i].idx == i)
      && (executedYesterdayIdx.Some? ==> executedYesterdayIdx.value < |players|)
      && |log| <= LogCap
    }

    /** The recorded night actions name seats of the current table. */
    predicate ActionsInRange()
      reads this`players, this`nightActions
    {
      InRange(nightActions, |players|)
    }

    /** The alive flag of every seat. */
    function Alive(): seq<bool>
      reads this`players
    {
      AliveOf(players)
    }

    /** The role dealt to every seat. */
    function RoleTable(): seq<Role>
      reads this`players
    {
      RolesOf(players)
    }

    constructor ()
      ensures Valid()
      ensures phase == Menu && numPlayers == 4 && players == [] && dayCount == 1 && currentTurnIdx == 0
      ensures log == [] && lastNightInfo == None && executedYesterdayIdx == None && gameWinner == None
      ensures nightActions == NoNightActions
    {
      phase := Menu;
      numPlayers := 4;
      players := [];
      dayCount := 1;
      currentTurnIdx := 0;
      log := [];
      lastNightInfo := None;
      executedYesterdayIdx := None;
      gameWinner := None;
      nightActions := NoNightActions;
    }

    /** `add_log`: append the message stamped with the current day, keeping at most `LogCap` entries. */
    method AddLog(message: Message)
      modifies this`log
      ensures log == AppendCapped(old(log), LogEntry(dayCount, message))
    {
      log := log + [LogEntry(dayCount, message)];
      if |log| > LogCap {
        log := log[1..];
      }
    }

    /** `setup_game`: collect the counted roles, fill with Villagers, shuffle, and seat the players. */
    method SetupGame(playerNames: seq<string>, roleCounts: RoleCounts)
      modifies this`players, this`phase, this`dayCount, this`log, this`executedYesterdayIdx
      ensures Valid()
      ensures |players| == |playerNames|
      ensures forall i :: 0 <= i < |players| ==> players[i].name == playerNames[i] && players[i].isAlive
      ensures multiset(RolesOf(players)) <= multiset(RolePool(roleCounts, |playerNames|))
      ensures NonNegative(roleCounts) && Configured(roleCounts) <= |playerNames| ==>
        multiset(RolesOf(players)) == multiset(RolePool(roleCounts, |playerNames|))
      ensures phase == ShowRoles && dayCount == 1 && executedYesterdayIdx == None
      ensures log == [LogEntry(1, GameStarted)]
    {
      var dealt := DealRoles(roleCounts, |playerNames|);
      var seated := SeatPlayers(playerNames, dealt);

      players := seated;
      phase := ShowRoles;
      dayCount := 1;
      log := [];
      executedYesterdayIdx := None;
      AddLog(GameStarted);
    }

    /** `get_player`. */
    function GetPlayer(i: nat): (p: Player)
      reads this`players, this`executedYesterdayIdx, this`log
      requires Valid() && i < |players|
      ensures p.idx == i
    {
      players[i]
    }

    /** `get_alive_players`. */
    function AlivePlayers(): (living: seq<Player>)
      reads this`players
      ensures |living| == CountAlive(Alive())
    {
      LivingAmong(players)
    }

    /** `get_alive_wolves`. */
    function AliveWolves(): (wolves: seq<Player>)
      reads this`players
      ensures forall k :: 0 <= k < |wolves| ==> wolves[k].role == Werewolf
      ensures |wolves| == CountAliveRole(Alive(), RoleTable(), Werewolf)
    {
      LivingOfRoleCount(players, Werewolf);
      OfRole(LivingAmong(players), Werewolf)
    }

    /** `register_wolf_vote`: a wolf's new vote replaces its earlier one; nothing else changes. */
    method RegisterWolfVote(wolfIdx: nat, targetIdx: nat, confidence: bool)
      modifies this`nightActions
      ensures nightActions == old(nightActions).(wolfVotes := old(nightActions.wolfVotes)[wolfIdx := Vote(targetIdx, confidence)])
    {
      nightActions := nightActions.(wolfVotes := nightActions.wolfVotes[wolfIdx := Vote(targetIdx, confidence)]);
    }

    /**
     * `register_seer_action`: the seer learns the target's team; inspecting a
     * Fox marks it for the curse, inspecting anyone else clears the mark.
     */
    method RegisterSeerAction(seerIdx: nat, targetIdx: nat) returns (result: string)
      requires targetIdx < |players|
      modifies this`nightActions
      ensures result == players[targetIdx].name + ": " + TeamForSeer(players[targetIdx].role)
      ensures nightActions == old(nightActions).(
        seerTarget := Some(targetIdx),
        seerKilled := if players[targetIdx].role == Fox then Some(targetIdx) else None)
    {
      var target := players[targetIdx];
      var resultFaction := TeamForSeer(target.role);
      nightActions := nightActions.(seerTarget := Some(targetIdx));
      if target.role == Fox {
        nightActions := nightActions.(seerKilled := Some(targetIdx));
      } else {
        nightActions := nightActions.(seerKilled := None);
      }
      result := target.name + ": " + resultFaction;
    }

    /** `register_guard_action`: only the guard target changes. */
    method RegisterGuardAction(guardIdx: nat, targetIdx: nat)
      modifies this`nightActions
      ensures nightActions == old(nightActions).(guardTarget := Some(targetIdx))
    {
      nightActions := nightActions.(guardTarget := Some(targetIdx));
    }

    /**
     * `get_medium_result_text`: nothing when nobody has been executed,
     * otherwise the executed player's name and true role name.
     */
    function MediumResultText(): (report: Option<MediumReport>)
      reads this`players, this`executedYesterdayIdx
      requires executedYesterdayIdx.Some? ==> executedYesterdayIdx.value < |players|
      ensures report.None? <==> executedYesterdayIdx.None?
      ensures report.Some? ==>
        report.value == MediumReport(players[executedYesterdayIdx.value].name, Name(players[executedYesterdayIdx.value].role))
    {
      if executedYesterdayIdx.Some? then
        var deadP := players[executedYesterdayIdx.value];
        Some(MediumReport(deadP.name, SpeciesForMedium(deadP.role)))
      else
        None
    }

    /** The night summary for a list of deaths. */
    function ReportFor(deaths: seq<nat>): NightReport
      reads this`players
      requires forall k :: 0 <= k < |deaths| ==> deaths[k] < |players|
    {
      ReportForSeats(players, deaths)
    }

    /**
     * `resolve_night`. The attack target `random.choice` draws is returned as
     * the ghost `attack`; the postconditions hold for every possible draw.
     */
    method ResolveNight() returns (ghost attack: Option<nat>)
      requires Valid() && ActionsInRange()
      modifies this`phase, this`dayCount, this`currentTurnIdx, this`log, this`lastNightInfo, this`nightActions, this`players
      ensures Valid() && OnlyLifeChanged(old(players), players)
      ensures AttackAllowed(CountAliveRole(old(Alive()), old(RoleTable()), Werewolf) > 0, old(nightActions.wolfVotes), attack)
      ensures attack.Some? ==> attack.value < |players|
      ensures var deaths := NightDeaths(old(Alive()), old(RoleTable()), old(nightActions), attack);
        var report := ReportForSeats(old(players), deaths);
        && Alive() == Kill(old(Alive()), deaths)
        && lastNightInfo == Some(report)
        && log == AppendCapped(AppendCapped(old(log),
             LogEntry(old(dayCount), NightResult(report))), LogEntry(old(dayCount), MorningOf(old(dayCount))))
      ensures dayCount == old(dayCount) + 1 && phase == Day && currentTurnIdx == 0
      ensures nightActions == NoNightActions
    {
      ghost var seats0, alive0, roles0, acts := players, Alive(), RoleTable(), nightActions;
      var wolves := AliveWolves();

      // 1. The curse kills first.
      var cursed := ApplyCurse();

      // 2. The attack target.
      var attackTargetIdx := ChooseAttack(|wolves| > 0, nightActions.wolfVotes);
      attack := attackTargetIdx;

      // 3. The attack itself.
      var nightDeaths := ApplyAttack(alive0, cursed, attackTargetIdx);

      // 4. The summary.
      var report := ReportFor(nightDeaths);
      SameReport(seats0, players, nightDeaths);
      assert report == ReportForSeats(seats0, nightDeaths);
      CloseNight(report);
    }

    /** The first step of `resolve_night`: the Fox the seer inspected dies of the curse if it still lives. */
    method ApplyCurse() returns (deaths: seq<nat>)
      requires Valid() && ActionsInRange()
      modifies this`players
      ensures Valid() && OnlyLifeChanged(old(players), players) && RoleTable() == old(RoleTable())
      ensures deaths == CurseDeaths(old(Alive()), nightActions)
      ensures Alive() == Kill(old(Alive()), deaths)
    {
      ghost var alive0 := Alive();
      deaths := [];
      var seerKilledIdx := nightActions.seerKilled;
      if seerKilledIdx.Some? && players[seerKilledIdx.value].isAlive {
        var k := seerKilledIdx.value;
        players := WithDead(players, k);
        deaths := deaths + [k];
        assert Kill(alive0, deaths) == alive0[k := false];
      } else {
        assert Kill(alive0, deaths) == alive0;
      }
    }

    /**
     * The third step of `resolve_night`: the attack target dies unless it is
     * already dead, is a Fox the curse did not kill, or is guarded.
     */
    method ApplyAttack(ghost alive0: seq<bool>, cursed: seq<nat>, attack: Option<nat>) returns (nightDeaths: seq<nat>)
      requires Valid() && ActionsInRange() && |alive0| == |players|
      requires cursed == CurseDeaths(alive0, nightActions) && Alive() == Kill(alive0, cursed)
      requires attack.Some? ==> attack.value < |players|
      modifies this`players
      ensures Valid() && OnlyLifeChanged(old(players), players) && RoleTable() == old(RoleTable())
      ensures nightDeaths == NightDeaths(alive0, RoleTable(), nightActions, attack)
      ensures Alive() == Kill(alive0, nightDeaths)
    {
      nightDeaths := cursed;
      var guardTargetIdx := nightActions.guardTarget;
      if attack.Some? && players[attack.value].isAlive {
        var t := attack.value;
        var targetP := players[t];
        if targetP.role == Fox && t !in nightDeaths {
          // A Fox survives the attack.
        } else if attack == guardTargetIdx {
          // The guard protects the target.
        } else {
          players := WithDead(players, t);
          nightDeaths := nightDeaths + [t];
          assert Kill(alive0, nightDeaths) == Kill(alive0, cursed)[t := false];
        }
      }
    }

    /** The end of `resolve_night`: record and log the report, then move to the next day. */
    method CloseNight(report: NightReport)
      requires Valid()
      modifies this`phase, this`dayCount, this`currentTurnIdx, this`log, this`lastNightInfo, this`nightActions
      ensures Valid()
      ensures lastNightInfo == Some(report)
      ensures log == AppendCapped(AppendCapped(old(log),
        LogEntry(old(dayCount), NightResult(report))), LogEntry(old(dayCount), MorningOf(old(dayCount))))
      ensures dayCount == old(dayCount) + 1 && phase == Day && currentTurnIdx == 0
      ensures nightActions == NoNightActions
    {
      lastNightInfo := Some(report);
      AddLog(NightResult(report));
      AddLog(MorningOf(dayCount));

      dayCount := dayCount + 1;
      phase := Day;
      currentTurnIdx := 0;
      nightActions := NoNightActions;
    }

    /** `execute_player`: kill the voted player and remember it for the medium, or log that nobody was executed. */
    method ExecutePlayer(targetIdx: Option<nat>)
      requires Valid()
      requires targetIdx.Some? ==> targetIdx.value < |players|
      modifies this`executedYesterdayIdx, this`log, this`players
      ensures Valid() && OnlyLifeChanged(old(players), players)
      ensures targetIdx.Some? ==>
        && Alive() == Kill(old(Alive()), [targetIdx.value])
        && executedYesterdayIdx == targetIdx
        && log == AppendCapped(old(log), LogEntry(dayCount, Executed(players[targetIdx.value].name)))
      ensures targetIdx.None? ==>
        && Alive() == old(Alive())
        && executedYesterdayIdx == old(executedYesterdayIdx)
        && log == AppendCapped(old(log), LogEntry(dayCount, NoExecution))
    {
      ghost var alive0 := Alive();
      if targetIdx.Some? {
        var t := targetIdx.value;
        players := WithDead(players, t);
        executedYesterdayIdx := targetIdx;
        AddLog(Executed(players[t].name));
        assert Alive() == Kill(alive0, [t]);
      } else {
        AddLog(NoExecution);
      }
    }

    /**
     * `check_winner`: when the game is over, record and log the winner and
     * answer true; otherwise answer false and change nothing.
     */
    method CheckWinner() returns (decided: bool)
      requires Valid()
      modifies this`gameWinner, this`log
      ensures Valid()
      ensures decided <==> old(WinnerOf(Alive(), RoleTable())).Some?
      ensures decided ==>
        && gameWinner == old(WinnerOf(Alive(), RoleTable()))
        && log == AppendCapped(old(log), LogEntry(dayCount, Victory(gameWinner.value)))
      ensures !decided ==> gameWinner == old(gameWinner) && log == old(log)
    {
      var alive := AlivePlayers();
      WinnerOfPlayers(players);
      var aliveWolves := |OfRole(alive, Werewolf)|;
      var aliveFoxes := |OfRole(alive, Fox)|;

      var winner: Option<Winner> := None;
      if aliveWolves == 0 {
        winner := if aliveFoxes > 0 then Some(FoxWins) else Some(VillagersWin);
      } else if |alive| <= 2 * aliveWolves {
        winner := if aliveFoxes > 0 then Some(FoxWins) else Some(WerewolvesWin);
      }

      if winner.Some? {
        gameWinner := winner;
        AddLog(Victory(winner.value));
        return true;
      }
      return false;
    }
  }
}
