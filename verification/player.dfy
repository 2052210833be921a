/** The `Player` aggregate: a player's identity, rating and latest-battle
    time, the historical display names it owns, and its ranked statistics
    per (character, game version). */
module Players {

  import opened Wrappers

  /** Composite key of a statistics entry: which character, in which game version. */
  datatype StatsKey = StatsKey(characterId: string, gameVersion: int)

  /** Ranked record of one character in one game version. */
  datatype CharacterStats = CharacterStats(wins: int, losses: int, danRank: int, latestBattle: int)

  /** One historical display name of a player. */
  datatype PastPlayerName = PastPlayerName(name: string)

  type StatsMap = map<StatsKey, CharacterStats>

  /** A player. Timestamps and the power rating are Java `Long`s; they are
      unbounded integers here and always initialised. */
  datatype Player = Player(
    playerId: string,
    latestBattle: int,
    name: string,
    polarisId: string,
    tekkenPower: int,
    regionId: int,
    areaId: int,
    language: string,
    playerNames: set<PastPlayerName>,
    characterStats: StatsMap)

  function DanRankOf(s: CharacterStats): int {
    s.danRank
  }

  function LatestBattleOf(s: CharacterStats): int {
    s.latestBattle
  }

  /** Wins plus losses of one entry. */
  function Matches(s: CharacterStats): int {
    s.wins + s.losses
  }

  // ---------------------------------------------------------------------
  // updateTekkenPower

  /** Accepts a power rating reported by a battle unless the battle is older
      than the player's latest battle; nothing but the rating ever changes. */
  function UpdateTekkenPower(p: Player, newPower: int, battleTime: int): (q: Player)
    ensures q == p.(tekkenPower := q.tekkenPower)
    ensures battleTime >= p.latestBattle ==> q.tekkenPower == newPower
    ensures battleTime < p.latestBattle ==> q.tekkenPower == p.tekkenPower
  {
    if battleTime >= p.latestBattle then p.(tekkenPower := newPower) else p
  }

  /** The rating is replaced exactly by the reports the guard admits: a
      report changes the rating only if it is admitted, and an admitted
      report always leaves its own rating in place. */
  lemma UpdateTekkenPowerAccepts(p: Player, newPower: int, battleTime: int)
    ensures (UpdateTekkenPower(p, newPower, battleTime).tekkenPower != p.tekkenPower)
            ==> battleTime >= p.latestBattle
    ensures (UpdateTekkenPower(p, newPower, battleTime).tekkenPower == newPower)
            <==> (battleTime >= p.latestBattle || newPower == p.tekkenPower)
  {
  }

  /** Because the guard only reads `latestBattle`, which no update changes,
      the same report applied twice has the effect of applying it once. */
  lemma UpdateTekkenPowerIdempotent(p: Player, newPower: int, battleTime: int)
    ensures UpdateTekkenPower(UpdateTekkenPower(p, newPower, battleTime), newPower, battleTime)
            == UpdateTekkenPower(p, newPower, battleTime)
  {
  }

  /** The guard compares against the stored latest battle, not against the
      time of the report accepted before: a report older than an accepted
      one still wins as long as it is not older than `latestBattle`. */
  lemma LateReportAcceptedWhileLatestBattleStale(p: Player, p1: int, t1: int, p2: int, t2: int)
    requires p.latestBattle <= t2 < t1
    ensures UpdateTekkenPower(p, p1, t1).tekkenPower == p1
    ensures UpdateTekkenPower(UpdateTekkenPower(p, p1, t1), p2, t2).tekkenPower == p2
  {
  }

  /** A report older than the stored latest battle leaves the player as it was. */
  lemma LateReportIgnored(p: Player, newPower: int, battleTime: int)
    requires battleTime < p.latestBattle
    ensures UpdateTekkenPower(p, newPower, battleTime) == p
  {
  }

  // ---------------------------------------------------------------------
  // hasPlayerName

  /** Whether some historical name record carries exactly `name`. */
  predicate HasPlayerName(p: Player, name: string) {
    exists pn :: pn in p.playerNames && pn.name == name
  }

  /** The set of historical names, one entry per distinct name. */
  function PastNames(p: Player): (names: set<string>)
    ensures forall pn :: pn in p.playerNames ==> pn.name in names
    ensures forall n :: n in names ==> PastPlayerName(n) in p.playerNames
  {
    set pn | pn in p.playerNames :: pn.name
  }

  /** `hasPlayerName` is membership in the set of past names; recording a
      name makes it true and leaves every other answer unchanged. */
  lemma HasPlayerNameIsMembership(p: Player, name: string, recorded: string)
    ensures HasPlayerName(p, name) <==> name in PastNames(p)
    ensures HasPlayerName(p.(playerNames := p.playerNames + {PastPlayerName(recorded)}), name)
            <==> name == recorded || HasPlayerName(p, name)
  {
  }

  // ---------------------------------------------------------------------
  // equals

  /** `equals(Object)`: `other` is `None` when the argument is null or not a
      `Player`; otherwise two players are equal when their ids are. */
  predicate Equals(p: Player, other: Option<Player>) {
    match other
    case None => false
    case Some(q) => p.playerId == q.playerId
  }

  /** `equals` is an equivalence relation on players that looks at nothing but the id. */
  lemma EqualsIsIdentityById(p: Player, q: Player, r: Player)
    ensures Equals(p, Some(p))
    ensures Equals(p, Some(q)) <==> Equals(q, Some(p))
    ensures Equals(p, Some(q)) && Equals(q, Some(r)) ==> Equals(p, Some(r))
    ensures Equals(p, Some(q)) <==> p.playerId == q.playerId
    ensures !Equals(p, None)
  {
  }

  /** Updating the rating never changes who the player is. */
  lemma UpdateKeepsIdentity(p: Player, newPower: int, battleTime: int)
    ensures Equals(p, Some(UpdateTekkenPower(p, newPower, battleTime)))
  {
  }
}
