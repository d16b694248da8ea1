/**
 * The role catalogue of the files under roles/. Each Python subclass of `Role` becomes a
 * constructor of the closed datatype `Role`; each method of the base class
 * becomes a function that matches on the constructor, with the base class's
 * behaviour as the default arm and the subclasses' overrides as the other arms.
 *
 * Villager, Medium and Madman come from a package initialiser that is not part
 * of this model: they are taken to keep every default of the base class.
 */
module Roles {
  import opened Wrappers

  datatype Role = Villager | Werewolf | Seer | Guard | Medium | Madman | Fox | Fanatic

  /** The two faction labels a seer can see. */
  const VillagerTeam: string := "村人陣営"
  const WerewolfTeam: string := "人狼陣営"

  /** `role_name`, the argument each subclass passes to `Role.__init__`. */
  function Name(r: Role): string
  {
    match r
    case Villager => "村人"
    case Werewolf => "人狼"
    case Seer => "占い師"
    case Guard => "騎士"
    case Medium => "霊媒師"
    case Madman => "狂人"
    case Fox => "妖狐"
    case Fanatic => "狂信者"
  }

  /** `Role.__str__`: a role prints as its stored name. */
  function Str(r: Role): string
  {
    Name(r)
  }

  /** The base class's `get_team_for_seer`, before any override. */
  function BaseTeamForSeer(): string { VillagerTeam }

  /** The base class's `get_species_for_medium`: the stored role name. */
  function BaseSpeciesForMedium(r: Role): string { Name(r) }

  /** The base class's `can_act_at_night`. */
  function BaseCanActAtNight(): bool { false }

  /** `get_team_for_seer`: only Werewolf overrides it. */
  function TeamForSeer(r: Role): (team: string)
    ensures team == WerewolfTeam <==> r == Werewolf
    ensures team == VillagerTeam <==> r != Werewolf
  {
    match r
    case Werewolf => WerewolfTeam
    case _ => BaseTeamForSeer()
  }

  /** `get_species_for_medium`: Fox overrides it with a constant. */
  function SpeciesForMedium(r: Role): (species: string)
    ensures species == Name(r)
  {
    match r
    case Fox => "妖狐"
    case _ => BaseSpeciesForMedium(r)
  }

  /** `can_act_at_night`: Werewolf, Seer and Guard override it. */
  function CanActAtNight(r: Role): (acts: bool)
    ensures acts <==> r == Werewolf || r == Seer || r == Guard
  {
    match r
    case Werewolf => true
    case Seer => true
    case Guard => true
    case _ => BaseCanActAtNight()
  }

  /** `Fanatic.get_divination_result`: a method of its own, not the one a seer calls. */
  function FanaticDivinationResult(): (s: string)
    ensures s != TeamForSeer(Fanatic)
  {
    "村人"
  }

  /** `Fanatic.get_medium_result`: a method of its own, not the one a medium calls. */
  function FanaticMediumResult(): (s: string)
    ensures s != SpeciesForMedium(Fanatic)
  {
    "村人"
  }

  /** `Fanatic.night_action_type`: the property is None. */
  function FanaticNightActionType(): (kind: Option<string>)
    ensures kind.None?
  {
    None
  }

  /** What the Werewolf class gives: its name (also what it prints as), the wolf team for a seer, the inherited medium result, a night action. */
  lemma WerewolfProfile()
    ensures Name(Werewolf) == "人狼" && Str(Werewolf) == "人狼"
    ensures TeamForSeer(Werewolf) == WerewolfTeam
    ensures SpeciesForMedium(Werewolf) == "人狼"
    ensures CanActAtNight(Werewolf)
  {
  }

  /** What the Fox class gives: its name (also what it prints as), its own medium result, and the inherited seer team and idle night. */
  lemma FoxProfile()
    ensures Name(Fox) == "妖狐" && Str(Fox) == "妖狐"
    ensures SpeciesForMedium(Fox) == "妖狐" == Name(Fox)
    ensures TeamForSeer(Fox) == VillagerTeam
    ensures !CanActAtNight(Fox)
  {
  }

  /** What the Seer class gives. */
  lemma SeerProfile()
    ensures Name(Seer) == "占い師" && Str(Seer) == "占い師"
    ensures CanActAtNight(Seer)
    ensures TeamForSeer(Seer) == VillagerTeam
    ensures SpeciesForMedium(Seer) == "占い師"
  {
  }

  /** What the Guard class gives. */
  lemma GuardProfile()
    ensures Name(Guard) == "騎士" && Str(Guard) == "騎士"
    ensures CanActAtNight(Guard)
    ensures TeamForSeer(Guard) == VillagerTeam
    ensures SpeciesForMedium(Guard) == "騎士"
  {
  }

  /**
   * What the Fanatic class gives. Its own result methods have names the game
   * never calls, so through the base interface a seer sees the villager team
   * and a medium sees the true name, not the "村人" those methods return.
   */
  lemma FanaticProfile()
    ensures Name(Fanatic) == "狂信者" && Str(Fanatic) == "狂信者"
    ensures FanaticDivinationResult() == "村人" && FanaticMediumResult() == "村人"
    ensures FanaticNightActionType() == None && !CanActAtNight(Fanatic)
    ensures TeamForSeer(Fanatic) == VillagerTeam
    ensures SpeciesForMedium(Fanatic) == "狂信者"
  {
  }
}
