/**
 * Value-level rules of the game engine in game.py: the bounded log, the pool
 * of roles dealt at setup, the choice and outcome of the night attack, and the
 * win condition. The class in game.dfy is proved against these functions.
 */
module GameRules {
  import opened Wrappers
  import opened Roles

  // ---------------------------------------------------------------------------
  // The bounded log (add_log)
  // ---------------------------------------------------------------------------

  /** The log never holds more than this many entries. */
  const LogCap: nat := 20

  predicate IsSuffix<T(==)>(a: seq<T>, b: seq<T>)
  {
    |a| <= |b| && a == b[|b| - |a|..]
  }

  /** One `add_log`: append, then drop the oldest entry when over the cap. */
  function AppendCapped<T(==)>(log: seq<T>, e: T): (r: seq<T>)
    ensures |r| == if |log| < LogCap then |log| + 1 else |log|
    ensures IsSuffix(r, log + [e]) && r[|r| - 1] == e
    ensures |log| <= LogCap ==> |r| <= LogCap
  {
    var grown := log + [e];
    if |grown| > LogCap then grown[1..] else grown
  }

  /** Several `add_log` calls in a row. */
  function AppendAll<T(==)>(log: seq<T>, es: seq<T>): seq<T>
    decreases |es|
  {
    if es == [] then log else AppendAll(AppendCapped(log, es[0]), es[1..])
  }

  /** The newest `n` entries of `s` (all of `s` when it is that short). */
  function Newest<T(==)>(s: seq<T>, n: nat): (r: seq<T>)
    ensures IsSuffix(r, s) && |r| == if |s| <= n then |s| else n
  {
    if |s| <= n then s else s[|s| - n..]
  }

  /** Keeping the newest entries twice is keeping them once. */
  lemma NewestOfNewest<T>(a: seq<T>, b: seq<T>, n: nat)
    ensures Newest(Newest(a, n) + b, n) == Newest(a + b, n)
  {
    if |a| > n {
      var x := Newest(a, n) + b;
      assert x == a[|a| - n..] + b;
      assert Newest(x, n) == x[|b|..];
      assert Newest(a + b, n) == (a + b)[|a| + |b| - n..];
      forall j | |b| <= j < |x|
        ensures x[j] == (a + b)[|a| - n + j]
      {
        if j < n {
          assert x[j] == a[|a| - n + j];
        } else {
          assert x[j] == b[j - n];
        }
      }
    } else {
      assert Newest(a, n) == a;
    }
  }

  /** One capped append keeps the newest `LogCap` entries. */
  lemma AppendCappedIsNewest<T>(log: seq<T>, e: T)
    requires |log| <= LogCap
    ensures AppendCapped(log, e) == Newest(log + [e], LogCap)
  {
  }

  /** Peeling the first of several appended entries. */
  lemma AppendHead<T>(log: seq<T>, es: seq<T>)
    requires es != []
    ensures (log + [es[0]]) + es[1..] == log + es
  {
  }

  /**
   * FIFO: starting from a log within the cap, any sequence of `add_log` calls
   * leaves exactly the newest `LogCap` entries of everything logged, in order.
   */
  lemma {:induction false} LogKeepsNewest<T>(log: seq<T>, es: seq<T>)
    requires |log| <= LogCap
    ensures AppendAll(log, es) == Newest(log + es, LogCap)
    decreases |es|
  {
    if es == [] {
      assert log + es == log;
    } else {
      AppendCappedIsNewest(log, es[0]);
      LogKeepsNewest(AppendCapped(log, es[0]), es[1..]);
      NewestOfNewest(log + [es[0]], es[1..], LogCap);
      AppendHead(log, es);
    }
  }

  // ---------------------------------------------------------------------------
  // The pool of roles dealt at setup (setup_game)
  // ---------------------------------------------------------------------------

  /** The `role_counts` dictionary, one field per key that setup_game reads. */
  datatype RoleCounts = RoleCounts(wolf: int, seer: int, guard: int, medium: int, madman: int, fox: int)

  /** `role_map`, in its insertion order. */
  function RoleMap(c: RoleCounts): seq<(Role, int)>
  {
    [(Werewolf, c.wolf), (Seer, c.seer), (Guard, c.guard), (Medium, c.medium), (Madman, c.madman), (Fox, c.fox)]
  }

  /** `[r() for _ in range(count)]`: a negative count gives no instance. */
  function Repeat(r: Role, count: int): (s: seq<Role>)
    ensures |s| == if count < 0 then 0 else count
    ensures forall x :: multiset(s)[x] == if x == r then |s| else 0
    decreases count
  {
    if count <= 0 then [] else Repeat(r, count - 1) + [r]
  }

  /** The instances the loop over `role_map` collects from its first entries. */
  function Collected(m: seq<(Role, int)>): seq<Role>
  {
    if m == [] then [] else Collected(m[..|m| - 1]) + Repeat(m[|m| - 1].0, m[|m| - 1].1)
  }

  /** `current_count` after the loop over the same entries. */
  function Counted(m: seq<(Role, int)>): int
  {
    if m == [] then 0 else Counted(m[..|m| - 1]) + m[|m| - 1].1
  }

  /** How many instances of `r` the counts ask for (Villager is never asked for). */
  function CountOf(c: RoleCounts, r: Role): int
  {
    match r
    case Werewolf => c.wolf
    case Seer => c.seer
    case Guard => c.guard
    case Medium => c.medium
    case Madman => c.madman
    case Fox => c.fox
    case _ => 0
  }

  function Configured(c: RoleCounts): int
  {
    c.wolf + c.seer + c.guard + c.medium + c.madman + c.fox
  }

  predicate NonNegative(c: RoleCounts)
  {
    c.wolf >= 0 && c.seer >= 0 && c.guard >= 0 && c.medium >= 0 && c.madman >= 0 && c.fox >= 0
  }

  function Positive(x: int): nat { if x < 0 then 0 else x }

  /** How many instances of `r` the entries of `m` ask for. */
  function Asked(m: seq<(Role, int)>, r: Role): nat
  {
    if m == [] then 0
    else Asked(m[..|m| - 1], r) + (if m[|m| - 1].0 == r then Positive(m[|m| - 1].1) else 0)
  }

  /** One more pass of the loop over `role_map`. */
  lemma CollectedStep(m: seq<(Role, int)>, k: nat)
    requires k < |m|
    ensures Collected(m[..k + 1]) == Collected(m[..k]) + Repeat(m[k].0, m[k].1)
    ensures Counted(m[..k + 1]) == Counted(m[..k]) + m[k].1
  {
    assert m[..k + 1][..k] == m[..k];
  }

  lemma AskedStep(m: seq<(Role, int)>, k: nat, r: Role)
    requires k < |m|
    ensures Asked(m[..k + 1], r) == Asked(m[..k], r) + (if m[k].0 == r then Positive(m[k].1) else 0)
  {
    assert m[..k + 1][..k] == m[..k];
  }

  /** The loop collects each role as often as its entries ask for it. */
  lemma {:induction false} CollectedCount(m: seq<(Role, int)>, r: Role)
    ensures multiset(Collected(m))[r] == Asked(m, r)
  {
    if m != [] {
      CollectedCount(m[..|m| - 1], r);
    }
  }

  /** The loop collects at least `current_count` instances, exactly that many when no count is negative. */
  lemma {:induction false} CollectedLength(m: seq<(Role, int)>)
    ensures |Collected(m)| >= Counted(m)
    ensures (forall k :: 0 <= k < |m| ==> m[k].1 >= 0) ==> |Collected(m)| == Counted(m)
  {
    if m != [] {
      CollectedLength(m[..|m| - 1]);
    }
  }

  lemma AskedRoleMap(c: RoleCounts, r: Role)
    ensures Asked(RoleMap(c), r) == (if r == Villager then 0 else Positive(CountOf(c, r)))
  {
    var m := RoleMap(c);
    assert m[..0] == [];
    AskedStep(m, 0, r);
    AskedStep(m, 1, r);
    AskedStep(m, 2, r);
    AskedStep(m, 3, r);
    AskedStep(m, 4, r);
    AskedStep(m, 5, r);
    assert m[..6] == m;
  }

  lemma CountedRoleMap(c: RoleCounts)
    ensures Counted(RoleMap(c)) == Configured(c)
  {
    var m := RoleMap(c);
    assert m[..0] == [];
    assert Counted(m[..1]) == c.wolf by { assert m[..1][..0] == m[..0]; }
    assert Counted(m[..2]) == Counted(m[..1]) + c.seer by { assert m[..2][..1] == m[..1]; }
    assert Counted(m[..3]) == Counted(m[..2]) + c.guard by { assert m[..3][..2] == m[..2]; }
    assert Counted(m[..4]) == Counted(m[..3]) + c.medium by { assert m[..4][..3] == m[..3]; }
    assert Counted(m[..5]) == Counted(m[..4]) + c.madman by { assert m[..5][..4] == m[..4]; }
    assert Counted(m) == Counted(m[..5]) + c.fox;
  }

  /**
   * `total_roles` before the shuffle: the counted instances in `role_map`
   * order, then `players - current_count` Villagers.
   */
  function RolePool(c: RoleCounts, players: nat): seq<Role>
  {
    var m := RoleMap(c);
    Collected(m) + Repeat(Villager, players - Counted(m))
  }

  /** How often one role occurs in the pool. */
  lemma RolePoolCount(c: RoleCounts, players: nat, r: Role)
    ensures multiset(RolePool(c, players))[r] ==
      (if r == Villager then Positive(players - Configured(c)) else Positive(CountOf(c, r)))
  {
    AskedRoleMap(c, r);
    CountedRoleMap(c);
    CollectedCount(RoleMap(c), r);
  }

  /**
   * The pool holds each counted role as often as asked (none for a negative
   * count) and Villagers for the rest of the seats; it is never shorter than
   * the table, and it fits the table exactly when the counts are
   * non-negative and do not exceed it.
   */
  lemma RolePoolContents(c: RoleCounts, players: nat)
    ensures forall r :: multiset(RolePool(c, players))[r] == (if r == Villager then Positive(players - Configured(c)) else Positive(CountOf(c, r)))
    ensures |RolePool(c, players)| >= players
    ensures NonNegative(c) && Configured(c) <= players ==> |RolePool(c, players)| == players
  {
    forall r {
      RolePoolCount(c, players, r);
    }
    RolePoolLength(c, players);
  }

  /** The pool is never shorter than the table, and fits it exactly when the counts are non-negative and do not exceed it. */
  lemma RolePoolLength(c: RoleCounts, players: nat)
    ensures |RolePool(c, players)| >= players
    ensures NonNegative(c) && Configured(c) <= players ==> |RolePool(c, players)| == players
  {
    CountedRoleMap(c);
    CollectedLength(RoleMap(c));
  }

  // ---------------------------------------------------------------------------
  // Alive flags and counting
  // ---------------------------------------------------------------------------

  /** The alive flags after the players listed in `deaths` have died. */
  function Kill(alive: seq<bool>, deaths: seq<nat>): (after: seq<bool>)
    ensures |after| == |alive|
    ensures forall i :: 0 <= i < |alive| && after[i] ==> alive[i]
    ensures forall k :: 0 <= k < |deaths| && deaths[k] < |alive| ==> !after[deaths[k]]
  {
    seq(|alive|, i requires 0 <= i < |alive| => alive[i] && i !in deaths)
  }

  function CountAlive(alive: seq<bool>): nat
  {
    if alive == [] then 0 else (if alive[0] then 1 else 0) + CountAlive(alive[1..])
  }

  function CountAliveRole(alive: seq<bool>, roles: seq<Role>, r: Role): nat
    requires |alive| == |roles|
  {
    if alive == [] then 0
    else (if alive[0] && roles[0] == r then 1 else 0) + CountAliveRole(alive[1..], roles[1..], r)
  }

  predicate Distinct(s: seq<nat>)
  {
    forall j, k :: 0 <= j < k < |s| ==> s[j] != s[k]
  }

  lemma {:induction false} CountAliveClear(alive: seq<bool>, d: nat)
    requires d < |alive| && alive[d]
    ensures CountAlive(alive[d := false]) == CountAlive(alive) - 1
  {
    if d == 0 {
      assert alive[d := false][1..] == alive[1..];
    } else {
      assert alive[d := false][1..] == alive[1..][d - 1 := false];
      CountAliveClear(alive[1..], d - 1);
    }
  }

  /** Each death removes exactly one living player from the count. */
  lemma {:induction false} KillCount(alive: seq<bool>, deaths: seq<nat>)
    requires Distinct(deaths)
    requires forall k :: 0 <= k < |deaths| ==> deaths[k] < |alive| && alive[deaths[k]]
    ensures CountAlive(Kill(alive, deaths)) == CountAlive(alive) - |deaths|
    decreases |deaths|
  {
    if deaths == [] {
      assert Kill(alive, deaths) == alive;
    } else {
      var front, d := deaths[..|deaths| - 1], deaths[|deaths| - 1];
      assert deaths == front + [d];
      KillCount(alive, front);
      assert Kill(alive, deaths) == Kill(alive, front)[d := false];
      CountAliveClear(Kill(alive, front), d);
    }
  }

  /** Killing players who were alive changes the flags exactly when somebody dies. */
  lemma KillChangesAlive(alive: seq<bool>, deaths: seq<nat>)
    requires forall k :: 0 <= k < |deaths| ==> deaths[k] < |alive| && alive[deaths[k]]
    ensures Kill(alive, deaths) == alive <==> deaths == []
  {
    if deaths != [] {
      assert Kill(alive, deaths)[deaths[0]] != alive[deaths[0]];
    } else {
      assert Kill(alive, deaths) == alive;
    }
  }

  // ---------------------------------------------------------------------------
  // The night (resolve_night)
  // ---------------------------------------------------------------------------

  /** One werewolf's vote: the target and whether the wolf is confident. */
  datatype Vote = Vote(target: nat, confident: bool)

  /** The `night_actions` dictionary. */
  datatype NightActions = NightActions(
    guardTarget: Option<nat>,
    seerTarget: Option<nat>,
    seerKilled: Option<nat>,
    wolfVotes: map<nat, Vote>)

  /** `_init_night_actions()`. */
  const NoNightActions := NightActions(None, None, None, map[])

  /** The player indices the night actions look up stay inside the table. */
  predicate InRange(acts: NightActions, n: nat)
  {
    && (acts.seerKilled.Some? ==> acts.seerKilled.value < n)
    && (forall w :: w in acts.wolfVotes ==> acts.wolfVotes[w].target < n)
  }

  /** The targets of the confident votes. */
  function ConfidentTargets(votes: map<nat, Vote>): set<nat>
  {
    set w | w in votes && votes[w].confident :: votes[w].target
  }

  /** The targets of all votes. */
  function AllTargets(votes: map<nat, Vote>): set<nat>
  {
    set w | w in votes :: votes[w].target
  }

  /** The targets the attack is drawn from: the confident ones if there are any. */
  function AttackPool(votes: map<nat, Vote>): (pool: set<nat>)
    ensures pool <= AllTargets(votes)
    ensures ConfidentTargets(votes) != {} ==> pool == ConfidentTargets(votes)
    ensures ConfidentTargets(votes) == {} ==> pool == AllTargets(votes)
  {
    if ConfidentTargets(votes) != {} then ConfidentTargets(votes) else AllTargets(votes)
  }

  /** A draw is always possible exactly when some vote was cast. */
  lemma AttackPoolNonEmpty(votes: map<nat, Vote>)
    ensures AttackPool(votes) != {} <==> votes != map[]
  {
    if votes != map[] {
      var w :| w in votes;
      assert votes[w].target in AllTargets(votes);
    }
  }

  /**
   * The attack targets `random.choice` may produce: an attack happens exactly
   * when a wolf is alive and a vote was cast, and its target is one of the
   * pool's.
   */
  predicate AttackAllowed(wolvesAlive: bool, votes: map<nat, Vote>, attack: Option<nat>)
  {
    && (attack.Some? <==> wolvesAlive && votes != map[])
    && (attack.Some? ==> attack.value in AttackPool(votes))
  }

  /** Confidence priority: one confident target is the only possible attack target. */
  lemma ConfidentTargetWins(votes: map<nat, Vote>, a: nat, attack: Option<nat>)
    requires exists w :: w in votes && votes[w].confident
    requires forall w :: w in votes && votes[w].confident ==> votes[w].target == a
    requires AttackAllowed(true, votes, attack)
    ensures attack == Some(a)
  {
    var w :| w in votes && votes[w].confident;
    assert votes[w].target in ConfidentTargets(votes);
  }

  /** The player the curse kills: the cursed Fox, if it is still alive. */
  function CurseDeaths(alive: seq<bool>, acts: NightActions): seq<nat>
    requires InRange(acts, |alive|)
  {
    if acts.seerKilled.Some? && alive[acts.seerKilled.value] then [acts.seerKilled.value] else []
  }

  /**
   * The deaths of one night, in the order they are recorded: the curse first,
   * then the attack on a living target unless it is a Fox the curse did not
   * kill or the guarded player.
   */
  function NightDeaths(alive: seq<bool>, roles: seq<Role>, acts: NightActions, attack: Option<nat>): (deaths: seq<nat>)
    requires |roles| == |alive| && InRange(acts, |alive|)
    requires attack.Some? ==> attack.value < |alive|
    ensures |deaths| <= 2 && Distinct(deaths)
    ensures forall k :: 0 <= k < |deaths| ==> deaths[k] < |alive| && alive[deaths[k]]
    ensures forall k :: 0 <= k < |deaths| ==> Some(deaths[k]) == acts.seerKilled || Some(deaths[k]) == attack
    ensures (acts.seerKilled.Some? && alive[acts.seerKilled.value]) <==> (|deaths| > 0 && Some(deaths[0]) == acts.seerKilled)
    ensures |deaths| == 2 ==> Some(deaths[0]) == acts.seerKilled && Some(deaths[1]) == attack
    ensures attack.Some? && roles[attack.value] == Fox && acts.seerKilled != attack ==> attack.value !in deaths
    ensures attack.Some? && attack == acts.guardTarget ==> deaths == CurseDeaths(alive, acts)
    ensures attack.Some? && alive[attack.value] && roles[attack.value] != Fox && attack != acts.guardTarget ==>
      attack.value in deaths
  {
    var curse := CurseDeaths(alive, acts);
    var afterCurse := Kill(alive, curse);
    var struck :=
      match attack
      case None => []
      case Some(t) =>
        if !afterCurse[t] then []
        else if roles[t] == Fox && t !in curse then []
        else if acts.guardTarget == Some(t) then []
        else [t];
    curse + struck
  }

  /** Each night at most two players die, and the living count drops by exactly the deaths. */
  lemma NightDeathToll(alive: seq<bool>, roles: seq<Role>, acts: NightActions, attack: Option<nat>)
    requires |roles| == |alive| && InRange(acts, |alive|)
    requires attack.Some? ==> attack.value < |alive|
    ensures var deaths := NightDeaths(alive, roles, acts, attack);
      CountAlive(Kill(alive, deaths)) == CountAlive(alive) - |deaths| >= CountAlive(alive) - 2
  {
    KillCount(alive, NightDeaths(alive, roles, acts, attack));
  }

  // ---------------------------------------------------------------------------
  // The win condition (check_winner)
  // ---------------------------------------------------------------------------

  /** The three possible winners. */
  datatype Winner = FoxWins | VillagersWin | WerewolvesWin

  /** The label `game_winner` holds for each winner. */
  function WinnerLabel(w: Winner): (text: string)
    ensures text == Name(Fox) <==> w == FoxWins
    ensures text == VillagerTeam <==> w == VillagersWin
    ensures text == WerewolfTeam <==> w == WerewolvesWin
  {
    match w
    case FoxWins => Name(Fox)
    case VillagersWin => VillagerTeam
    case WerewolvesWin => WerewolfTeam
  }

  /**
   * The winner for the given numbers of living players, wolves and foxes:
   * the game ends when no wolf is left or the wolves are at least half the
   * living; a living Fox then wins whatever ended it.
   */
  function Outcome(aliveTotal: nat, aliveWolves: nat, aliveFoxes: nat): (winner: Option<Winner>)
    ensures winner.Some? <==> aliveWolves == 0 || aliveTotal <= 2 * aliveWolves
    ensures winner == Some(FoxWins) <==> winner.Some? && aliveFoxes > 0
    ensures winner == Some(VillagersWin) <==> aliveWolves == 0 && aliveFoxes == 0
    ensures winner == Some(WerewolvesWin) <==> aliveWolves > 0 && aliveTotal <= 2 * aliveWolves && aliveFoxes == 0
  {
    if aliveWolves == 0 then
      (if aliveFoxes > 0 then Some(FoxWins) else Some(VillagersWin))
    else if aliveTotal <= 2 * aliveWolves then
      (if aliveFoxes > 0 then Some(FoxWins) else Some(WerewolvesWin))
    else None
  }

  /** The winner for a table of alive flags and roles. */
  function WinnerOf(alive: seq<bool>, roles: seq<Role>): Option<Winner>
    requires |alive| == |roles|
  {
    Outcome(CountAlive(alive), CountAliveRole(alive, roles, Werewolf), CountAliveRole(alive, roles, Fox))
  }
}
