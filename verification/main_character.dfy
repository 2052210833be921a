/** `findMainCharacter` and `getMostPlayedCharacterInfo`: the player's main
    character is one that reached the highest dan rank of any entry and,
    among those, has the most matches summed over all its game versions. */
module MainCharacter {

  import opened Wrappers
  import opened Decimal
  import opened Players
  import opened Aggregates

  /** Text of the sentinel character id and character name. */
  const NoCharacterData: string := "No Character Data"

  /** The two entries of the map `findMainCharacter` returns
      (keys "characterId" and "danRank"). */
  datatype CharacterSummary = CharacterSummary(characterId: string, danRank: string)

  /** The two entries of the map `getMostPlayedCharacterInfo` returns
      (keys "characterName" and "danRank"). */
  datatype CharacterInfo = CharacterInfo(characterName: string, danRank: string)

  /** The display-name lookup the info query is given: character id to
      character name, and dan-rank text to dan name. */
  datatype EnumsMapper = EnumsMapper(characterName: string -> string, danName: string -> string)

  const NoDataSummary := CharacterSummary(NoCharacterData, "0")
  const NoDataInfo := CharacterInfo(NoCharacterData, "N/A")

  ghost predicate IsHighestDanRank(stats: StatsMap, rank: int) {
    IsMaxOf(stats, DanRankOf, rank)
  }

  /** Character `c` has an entry, in some game version, at dan rank `rank`. */
  ghost predicate ReachedRank(stats: StatsMap, c: string, rank: int) {
    exists k :: k in stats && k.characterId == c && stats[k].danRank == rank
  }

  /** `c` is an acceptable answer: it reached the highest rank `rank`, and no
      other character that reached it has more total matches. */
  ghost predicate IsMainCharacter(stats: StatsMap, c: string, rank: int) {
    && IsHighestDanRank(stats, rank)
    && ReachedRank(stats, c, rank)
    && forall c' :: ReachedRank(stats, c', rank) ==> TotalMatches(stats, c') <= TotalMatches(stats, c)
  }

  /** The characters with an entry at dan rank `rank`. */
  function CharactersWithRank(stats: StatsMap, rank: int): (ids: set<string>)
    ensures forall c :: c in ids <==> ReachedRank(stats, c, rank)
  {
    set k | k in stats && stats[k].danRank == rank :: k.characterId
  }

  /** The candidate with the most total matches, or `None` when there are no
      candidates. Candidates come in an unspecified order; on a tie the one
      already held is kept, as `Stream.max` does. */
  method PickMostPlayed(candidates: set<string>, totals: map<string, int>) returns (best: Option<string>)
    requires candidates <= totals.Keys
    ensures best.None? <==> candidates == {}
    ensures best.Some? ==> best.value in candidates
    ensures best.Some? ==> forall c :: c in candidates ==> totals[c] <= totals[best.value]
  {
    if candidates == {} {
      return None;
    }
    var first :| first in candidates;
    var current := first;
    var todo := candidates - {first};
    while todo != {}
      invariant todo <= candidates && current in candidates
      invariant forall c :: c in candidates && c !in todo ==> totals[c] <= totals[current]
      decreases |todo|
    {
      var c :| c in todo;
      if totals[c] > totals[current] {
        current := c;
      }
      todo := todo - {c};
    }
    best := Some(current);
  }

  /** The highest dan rank is attained, so the set of characters at that rank is never empty. */
  lemma HighestRankIsReached(stats: StatsMap, rank: int)
    requires IsHighestDanRank(stats, rank)
    ensures CharactersWithRank(stats, rank) != {}
  {
    var k :| k in stats && DanRankOf(stats[k]) == rank;
    assert ReachedRank(stats, k.characterId, rank);
  }

  /** The main character and its dan rank (as decimal text), or the
      "No Character Data" / "0" summary when the player has no statistics.
      The reduction's own empty case cannot happen: some character always
      reaches the highest rank. */
  method FindMainCharacter(stats: StatsMap) returns (r: CharacterSummary)
    ensures stats == map[] ==> r == NoDataSummary
    ensures stats != map[] ==>
              exists rank :: IsMainCharacter(stats, r.characterId, rank) && r.danRank == DecimalString(rank)
  {
    if stats == map[] {
      return NoDataSummary;
    }
    var maxRank := MaxOver(stats, DanRankOf);
    var highest := maxRank.GetOr(0);
    var totals := TotalMatchesByCharacter(stats);
    var candidates := CharactersWithRank(stats, highest);
    assert candidates <= totals.Keys by {
      forall c | c in candidates ensures c in totals.Keys {
        var k :| k in stats && k.characterId == c && stats[k].danRank == highest;
      }
    }
    HighestRankIsReached(stats, highest);
    var best := PickMostPlayed(candidates, totals);
    r := CharacterSummary(best.value, DecimalString(highest));
    assert IsMainCharacter(stats, best.value, highest);
  }

  /** Turns a summary into display names, passing the sentinel through. The
      info is the sentinel pair exactly when the summary carries the
      sentinel id, or when the lookup itself answers with the sentinel texts. */
  function InfoOf(summary: CharacterSummary, mapper: EnumsMapper): (info: CharacterInfo)
    ensures info == NoDataInfo <==>
              (|| summary.characterId == NoCharacterData
               || (&& mapper.characterName(summary.characterId) == NoCharacterData
                   && mapper.danName(summary.danRank) == "N/A"))
  {
    if summary.characterId == NoCharacterData then NoDataInfo
    else CharacterInfo(mapper.characterName(summary.characterId), mapper.danName(summary.danRank))
  }

  /** Display names of the main character and its dan rank, or
      "No Character Data" / "N/A" when the player has no statistics. */
  method GetMostPlayedCharacterInfo(p: Player, mapper: EnumsMapper) returns (info: CharacterInfo)
    ensures p.characterStats == map[] ==> info == NoDataInfo
    ensures p.characterStats != map[] ==>
              exists c, rank :: IsMainCharacter(p.characterStats, c, rank)
                && info == InfoOf(CharacterSummary(c, DecimalString(rank)), mapper)
  {
    var summary := FindMainCharacter(p.characterStats);
    info := InfoOf(summary, mapper);
  }

  /** With a lookup that never answers "No Character Data", the info is the
      sentinel pair exactly when the summary is the sentinel; a real
      character whose id is that text is reported as the sentinel too. */
  lemma SentinelInfoExactlyForSentinelSummary(summary: CharacterSummary, mapper: EnumsMapper)
    requires forall id :: mapper.characterName(id) != NoCharacterData
    ensures InfoOf(summary, mapper) == NoDataInfo <==> summary.characterId == NoCharacterData
  {
  }

  /** All acceptable answers agree on the rank (and so on its text) and on
      the total number of matches; they differ only in which tied
      character is named. */
  lemma MainCharacterUniqueUpToTies(stats: StatsMap, a: string, ra: int, b: string, rb: int)
    requires IsMainCharacter(stats, a, ra) && IsMainCharacter(stats, b, rb)
    ensures ra == rb
    ensures TotalMatches(stats, a) == TotalMatches(stats, b)
    ensures DecimalString(ra) == DecimalString(rb)
  {
  }

  /** Of two characters at the highest rank, one with fewer total matches
      than the other is never the main character. */
  lemma FewerMatchesNeverChosen(stats: StatsMap, rank: int, more: string, fewer: string)
    requires IsHighestDanRank(stats, rank)
    requires ReachedRank(stats, more, rank) && ReachedRank(stats, fewer, rank)
    requires TotalMatches(stats, fewer) < TotalMatches(stats, more)
    ensures !IsMainCharacter(stats, fewer, rank)
  {
  }

  /** When one character at the highest rank has strictly more total
      matches than every other character at that rank, it is the only
      acceptable answer, whatever the iteration order. */
  lemma StrictlyMostPlayedIsTheMain(stats: StatsMap, rank: int, most: string)
    requires IsHighestDanRank(stats, rank) && ReachedRank(stats, most, rank)
    requires forall c :: ReachedRank(stats, c, rank) && c != most ==> TotalMatches(stats, c) < TotalMatches(stats, most)
    ensures IsMainCharacter(stats, most, rank)
    ensures forall c, r :: IsMainCharacter(stats, c, r) ==> c == most
  {
  }

  /** A character that did not reach the highest rank is never the main
      character, however many matches it has. */
  lemma BelowHighestRankNeverChosen(stats: StatsMap, rank: int, c: string)
    requires IsHighestDanRank(stats, rank)
    requires !ReachedRank(stats, c, rank)
    ensures forall r :: !IsMainCharacter(stats, c, r)
  {
  }
}
