# Werewolf game engine in Dafny

This project models the engine of a pass-the-device werewolf (人狼) game: the
`WerewolfGame` state holder and `Player` record of `game.py`, and the role
catalogue under `roles/`. The model covers:

- dealing roles at setup;
- recording the wolves' votes, the seer's inspection (with the Fox curse flag)
  and the guard's protection;
- the medium's report;
- resolving the night: the curse, then the attack draw, then Fox immunity,
  then the guard;
- executing the voted player;
- the win check;
- the log, which keeps only the newest 20 entries.

The files:

- `wrappers.dfy`: module `Wrappers`, the `Option` type.
- `roles.dfy`: module `Roles`. Each role class becomes a constructor of
  `datatype Role`. Each base-class method becomes a function whose default arm
  is the base behaviour and whose other arms are the subclasses' overrides.
- `rules.dfy`: module `GameRules`, the value-level rules the engine follows:
  - the capped log and its FIFO property;
  - the pool of roles built at setup;
  - the alive flags and their counts;
  - the night actions, the attack pool and the night's deaths in order;
  - the win outcome.
- `game.dfy`: module `Game`.
  - `Player` is a value: seat index, name, role and alive flag.
  - `WerewolfGame` is a class. Its methods update the player list, the
    night-action record, the log and the counters. Each method is proved
    against the functions of `GameRules`.

Randomness is modelled as nondeterminism:

- `random.shuffle` becomes `Shuffle`, which draws an arbitrary remaining
  element at each step, so every permutation is a possible result.
- `random.choice` becomes an arbitrary member of the attack pool, in
  `ChooseAttack`.

Every contract holds for every possible choice. The attack target that
`ResolveNight` drew is returned as a ghost out-parameter, so the postconditions
can name it.

## Model

| member | source | states |
|---|---|---|
| Roles.TeamForSeer | roles/base.py:5-7 | the seer sees the werewolf team exactly for a Werewolf and the villager team for every other role (the base default, overridden only in roles/werewolf.py) |
| Roles.SpeciesForMedium | roles/fox.py:7-8 | the medium always sees the role's own name: the Fox's override returns the same text as its name |
| Roles.CanActAtNight | roles/base.py:13-15 | a role acts at night exactly when it is Werewolf, Seer or Guard (the three overrides); every other role keeps the default false |
| Roles.FanaticDivinationResult | roles/fanatic.py:7-9 | Fanatic's own divination method returns a text different from what a seer is shown through the base interface |
| Roles.FanaticMediumResult | roles/fanatic.py:11-13 | Fanatic's own medium method returns a text different from what a medium is shown through the base interface |
| Roles.FanaticNightActionType | roles/fanatic.py:18-25 | Fanatic's night action type is None |
| Roles.WerewolfProfile | roles/werewolf.py:3-11 | Werewolf: name 人狼, which is also what it prints as (roles/base.py:17-18), the wolf team for a seer, the inherited medium result 人狼, acts at night |
| Roles.FoxProfile | roles/fox.py:3-10 | Fox: name 妖狐, which is also what it prints as, medium result 妖狐 (equal to its name), the inherited villager team for a seer, no night action |
| Roles.SeerProfile | roles/seer.py:3-8 | Seer: name 占い師, which is also what it prints as, acts at night, the inherited villager team and medium result 占い師 |
| Roles.GuardProfile | roles/guard.py:3-8 | Guard: name 騎士, which is also what it prints as, acts at night, the inherited villager team and medium result 騎士 |
| Roles.FanaticProfile | roles/fanatic.py:3-25 | Fanatic: name 狂信者, which is also what it prints as. Its own methods return 村人 and its action type is None, but it does not act at night. Through the base interface a seer sees the villager team and a medium sees 狂信者 |
| GameRules.AppendCapped | game.py:34-37 | one add_log: the new entry is last, the result is a suffix of old log plus entry, it grows by one until the cap is reached and a log within the cap stays within it |
| GameRules.AppendCappedIsNewest | game.py:34-37 | from a log within the cap, one add_log leaves exactly the newest 20 entries |
| GameRules.LogKeepsNewest | game.py:34-37 | FIFO: from a log within the cap, any run of add_log calls leaves exactly the newest 20 of all entries, in order |
| GameRules.Repeat | game.py:54 | `[r() for _ in range(count)]` has max(count, 0) elements, all of them the role r |
| GameRules.CollectedCount | game.py:53-55 | the loop over role_map collects each role as many times as its non-negative counts ask for |
| GameRules.CollectedLength | game.py:52-55 | the roles collected by the loop are at least current_count, and exactly that many when no count is negative |
| GameRules.AskedRoleMap | game.py:42-49 | role_map asks for each role exactly its configured count (clamped at zero), and never for Villager |
| GameRules.CountedRoleMap | game.py:52-55 | current_count after the loop is the sum of the six configured counts |
| GameRules.RolePoolCount | game.py:41-59 | the pre-shuffle pool holds each configured role as often as configured and Villagers for the seats left over |
| GameRules.RolePoolContents | game.py:41-59 | the pool's role counts, it is never shorter than the table, and it fits the table exactly when the counts are non-negative and sum to at most the number of players |
| GameRules.RolePoolLength | game.py:52-59 | the pool is never shorter than the table, and has exactly one role per player when no count is negative and the counts sum to at most the number of players |
| GameRules.CountAliveClear | game.py:118 | killing one living player lowers the living count by one |
| GameRules.Kill | game.py:117-118 | the alive table keeps its length, nobody revives, and every seat in the death list is dead afterwards |
| GameRules.KillCount | game.py:113-150 | killing distinct living players lowers the living count by exactly their number |
| GameRules.KillChangesAlive | game.py:153-157 | killing living players changes the alive flags exactly when somebody dies |
| GameRules.AttackPool | game.py:123-131 | the attack is drawn from the confident targets when any exist, otherwise from all voted targets; in both cases only from voted targets |
| GameRules.AttackPoolNonEmpty | game.py:123-131 | the draw always has something to choose from exactly when at least one vote was cast |
| GameRules.ConfidentTargetWins | game.py:125-127 | when every confident vote names the same player, that player is the only possible attack target |
| GameRules.NightDeaths | game.py:111-150 | at most two distinct deaths, all of living players; a living cursed player dies first; every death is the cursed player or the attack target; a Fox the curse did not kill survives the attack; a guarded target is not killed; any other living target dies |
| GameRules.NightDeathToll | game.py:111-150 | the living count drops by exactly the number of deaths, so by at most two |
| GameRules.WinnerLabel | game.py:186-203 | the stored label tells the winners apart: 妖狐 exactly for the Fox, the villager team label exactly for the villagers and the werewolf team label exactly for the wolves |
| GameRules.Outcome | game.py:179-205 | the game is decided exactly when no wolf lives or the living are at most twice the wolves; then the Fox wins whenever one lives, otherwise the villagers win with no wolf left and the wolves win otherwise |
| Game.LivingAmong | game.py:77-78 | the living players are as many as the alive flags that are set |
| Game.OfRole | game.py:181-182 | the isinstance filter keeps only players of the role and never more than the input |
| Game.LivingAmongMembers | game.py:77-78 | get_alive_players keeps exactly the living players |
| Game.OfRoleMembers | game.py:181-182 | the isinstance filter keeps exactly the players of that role |
| Game.LivingOfRoleCount | game.py:80-81 | counting the living players of a role by filtering the player list agrees with the count on the alive and role tables |
| Game.WinnerOfPlayers | game.py:180-182 | the winner computed from the filtered lists is the winner rule on the tables |
| Game.SameReport | game.py:156 | deaths rename nobody: the night summary is the same before and after the kills |
| Game.QuietNight | game.py:153-157 | the summary says nobody died exactly when the night's deaths leave the alive flags unchanged |
| Game.WithDead | game.py:118 | marking one seat dead clears exactly that alive flag and changes no name, role or index |
| Game.ChooseAttack | game.py:122-131 | an attack target is drawn exactly when a wolf lives and a vote was cast, and it is a member of the attack pool |
| Game.Shuffle | game.py:61 | the shuffled roles are a permutation of the pool |
| Game.CollectRoles | game.py:41-59 | total_roles before the shuffle is the role pool: the counted roles in role_map order, then the Villagers |
| Game.DealRoles | game.py:41-61 | the shuffled roles are a permutation of the pool, never fewer than the players, and exactly one per player when the counts fit the table |
| Game.SeatPlayers | game.py:63-65 | player i gets index i, name i and dealt role i and is alive; the roles at the table are a sub-multiset of the dealt roles, and the whole multiset when the pool fits the table |
| Game.WerewolfGame.constructor | game.py:12-24 | the initial state: menu phase, 4 players configured, nobody seated, day 1, empty log, no winner, empty night actions |
| Game.WerewolfGame.AddLog | game.py:34-37 | the log becomes the capped append of the entry stamped with the current day |
| Game.WerewolfGame.SetupGame | game.py:39-71 | one player per name, at index i with name i and alive. The dealt roles are drawn from the pool, and are a permutation of it when the counts fit. Then phase show_roles, day 1, nobody executed, and the log is exactly the game-start entry |
| Game.WerewolfGame.GetPlayer | game.py:74-75 | the player returned sits at the requested index |
| Game.WerewolfGame.AlivePlayers | game.py:77-78 | as many players as the set alive flags |
| Game.WerewolfGame.AliveWolves | game.py:80-81 | only Werewolves, exactly as many as the living Werewolves at the table |
| Game.WerewolfGame.RegisterWolfVote | game.py:84-85 | only the wolf's own vote entry is overwritten; nothing else changes |
| Game.WerewolfGame.RegisterSeerAction | game.py:87-98 | returns the target's name and the team the seer sees, sets the seer target, and sets the curse mark exactly when the target is a Fox (clearing it otherwise) |
| Game.WerewolfGame.RegisterGuardAction | game.py:100-101 | only the guard target changes |
| Game.WerewolfGame.MediumResultText | game.py:103-108 | nothing exactly when nobody was executed, otherwise the executed player's name and true role name |
| Game.WerewolfGame.ResolveNight | game.py:111-167 | the attack obeys the draw rule and the new alive flags are the old ones with the night's deaths (`GameRules.NightDeaths`) cleared, and only alive flags change. The stored summary is the report of those deaths on the old table, and it and the morning are logged with the old day. With `GameRules.Kill`, `GameRules.NightDeathToll` and `Game.QuietNight` this gives: no one revives, at most two die, and the summary says nobody died exactly when nobody did. The day advances by one, the phase becomes day, the turn index becomes 0 and the night actions are cleared |
| Game.WerewolfGame.ApplyCurse | game.py:115-119 | the cursed player dies if still alive, and that is the only change |
| Game.WerewolfGame.ApplyAttack | game.py:133-150 | after the curse, the deaths so far become exactly the night's deaths and the alive flags follow |
| Game.WerewolfGame.CloseNight | game.py:152-167 | the report is stored, the night result and the morning are logged with the old day, the day advances, the phase becomes day, the turn index becomes 0 and the night actions are cleared |
| Game.WerewolfGame.ExecutePlayer | game.py:170-176 | with a target, only that player dies, it is remembered for the medium and the execution is logged; without one, only the no-execution entry is logged |
| Game.WerewolfGame.CheckWinner | game.py:179-205 | answers true exactly when the win rule decides the game, and then records and logs that winner; otherwise changes nothing |

## Left out

- app.py is not part of this model. It is the Streamlit user interface with its own inline copies of the rules, which differ from game.py.
- Probabilities: the model does not say that `random.shuffle` and `random.choice` are uniform.
- Vote multiplicity: the vote lists are modelled as sets of targets, so the model keeps which targets can be drawn but not how often each was voted.
- Aliasing of players: `Player` is a value held in the `players` sequence, and a kill replaces one element. In game.py a player is an object, `get_player` returns a reference to it, and a caller can mutate that object. Writes made through such a reference are not modelled.
- Villager, Medium and Madman come from `roles/__init__.py`, which is not part of this model. They are given the base-class defaults, and their names are taken to be 村人 (Villager), 霊媒師 (Medium) and 狂人 (Madman); the last two match the keys of `role_map` in game.py:42-49. These names reach the medium's report.
- Text formatting: log entries are a day number and a message constructor, not the "Day{n}: ..." text. The night summary is `NoVictims` or the list of the dead's names, not a joined sentence. The medium report is a name and species pair, not formatted text. `game_winner` holds a `Winner` value; `GameRules.WinnerLabel` gives the label game.py stores.
- `last_night_info` starts as the empty string in game.py. The model starts it as `None`.
- Phases: only the values game.py assigns (menu, show_roles, day) are modelled. `num_players` and `current_turn_idx` are only set, because only the user interface reads them.
- Python index behaviour: seat indices are natural numbers, so negative indexing is not modelled. `RegisterSeerAction`, `ExecutePlayer` and `GetPlayer` require the seat to be in range where game.py would raise IndexError. `ResolveNight` requires more than game.py needs: through `ActionsInRange`, the cursed seat and every vote target must be seats. game.py looks up only the one target it draws, and only when a wolf is alive, so it does not fail with an out-of-range vote when no wolf lives, or with an out-of-range unconfident vote beside a confident one; the model does not cover those states.
- Missing keys: `role_counts` is a record with all six counts, so the KeyError for a missing key is not modelled.
- The unused parameters `seer_idx`, `guard_idx` and `wolf_idx` are kept, except as the vote's key. The unused local `alive_humans` is left out.
- Game.WerewolfGame.GetPlayer: states only that the returned player sits at the requested seat, not that it is the same object as the one stored there.
