# Player aggregate of the Tekken statistics backend

This project models the `Player` aggregate of a statistics backend for a
fighting-game ladder. A player has an id, a "tekken power" rating and the
timestamp of its latest battle. It owns a set of past display names and a map
of ranked statistics keyed by (character id, game version). The model is in
Dafny and is purely functional. `Player` is an immutable datatype. Each Java
mutator becomes a function or method that returns the updated player.

The modules are:

- `Players` (`player.dfy`): the data model; `updateTekkenPower`,
  `hasPlayerName` and `equals`.
- `Aggregates` (`aggregates.dfy`): the two `max().orElse(0)` reductions,
  which share one method, and the per-character sum of wins plus losses.
  That sum is what `groupingBy`/`summingInt` computes.
- `LatestBattle` (`latest_battle.dfy`): `setLatestBattle`, and how it
  interacts with the power guard.
- `MainCharacter` (`main_character.dfy`): `findMainCharacter` and
  `getMostPlayedCharacterInfo`.
- `Decimal` (`decimal.dfy`): `String.valueOf(int)`, used to report the dan
  rank as text, with its inverse.
- `Wrappers` (`wrappers.dfy`): `Option`, which stands for Java's
  `Optional`/`OptionalInt`/`OptionalLong`.

`HashMap` and `HashSet` hand out their elements in an unspecified order.
The loops that model those streams pick the next element with Dafny's `:|`
choice, so no particular order is assumed. The main character is
therefore specified relationally. `IsMainCharacter(stats, c, rank)` holds when:

- `rank` is the highest dan rank of any entry;
- `c` has an entry at that rank;
- no other character at that rank has more wins plus losses, summed over all
  its game versions.

Any such character is an acceptable answer. The lemma
`MainCharacterUniqueUpToTies` shows that all acceptable answers agree on the
rank and on the match total.

The reduction in `findMainCharacter` can end in its own "No Character Data"
fallback (`orElseGet`). That case cannot happen once the statistics are
non-empty, because the highest rank is always reached by some entry.
`HighestRankIsReached` proves this, and `FindMainCharacter` relies on it.

### A late report is not always ignored

One might expect `updateTekkenPower(p1, t1)` followed by
`updateTekkenPower(p2, t2)` with `t2 < t1` to leave the rating at `p1`. The
code does not do that on its own. `updateTekkenPower` never advances
`latestBattle`; it only compares against it. So a report that is older than
the previously accepted one still wins, provided it is not older than
`latestBattle`. The model follows the code. `LateReportAcceptedWhileLatestBattleStale`
shows this behaviour. `LateReportRejectedAfterSync` proves the property under
the condition it needs: the late report is rejected once the statistics
record a battle at `t1` and `latestBattle` has been recomputed from them by
`setLatestBattle`.

## Model

| member | source | states |
|---|---|---|
| `Players.UpdateTekkenPower` | src/main/java/org/tekkenstats/models/Player.java:81-87 | A report no older than `latestBattle` sets the rating to the new power. An older report keeps the old rating. Every other field is unchanged. |
| `Players.UpdateTekkenPowerAccepts` | src/main/java/org/tekkenstats/models/Player.java:83-86 | The rating changes only if the guard admits the report. The result carries the reported power exactly when the report is admitted or the power was already that value. |
| `Players.UpdateTekkenPowerIdempotent` | src/main/java/org/tekkenstats/models/Player.java:81-87 | Applying the same report twice has the same effect as applying it once. |
| `Players.LateReportIgnored` | src/main/java/org/tekkenstats/models/Player.java:83-86 | A report older than the stored latest battle leaves the whole player unchanged. |
| `Players.LateReportAcceptedWhileLatestBattleStale` | src/main/java/org/tekkenstats/models/Player.java:83-86 | If `latestBattle` has not advanced, a report older than an accepted one still overwrites the rating. The guard does not order reports by itself. |
| `Players.PastNames` | src/main/java/org/tekkenstats/models/Player.java:47 | The set of distinct past names contains every recorded name and nothing else. |
| `Players.HasPlayerName` | src/main/java/org/tekkenstats/models/Player.java:163-165 | `hasPlayerName(n)`: true when some past-name record carries exactly the name `n`; its meaning as set membership is proved by `Players.HasPlayerNameIsMembership`. |
| `Players.HasPlayerNameIsMembership` | src/main/java/org/tekkenstats/models/Player.java:163-165 | `hasPlayerName(n)` is true exactly when `n` is among the past names. Recording a name makes it true for that name and leaves it unchanged for every other name. |
| `Players.Equals` | src/main/java/org/tekkenstats/models/Player.java:167-173 | `equals(Object)`: false for null or a non-player, otherwise true when the player ids match; its properties are proved by `Players.EqualsIsIdentityById`. |
| `Players.EqualsIsIdentityById` | src/main/java/org/tekkenstats/models/Player.java:167-173 | `equals` is reflexive, symmetric and transitive. It holds exactly when the player ids match, whatever the other fields are. It is false for null or a non-player. |
| `Players.UpdateKeepsIdentity` | src/main/java/org/tekkenstats/models/Player.java:167-173 | A rating update yields a player equal to the original. |
| `Aggregates.MaxOver` | src/main/java/org/tekkenstats/models/Player.java:100-103 | `max()` over the entries returns nothing exactly when there are no entries. Otherwise the result is attained by some entry and is at least every entry's value, in any visiting order. |
| `Aggregates.MaxIsUnique` | src/main/java/org/tekkenstats/models/Player.java:100-103 | Two values that both meet the maximum specification are equal. |
| `Players.Matches` | src/main/java/org/tekkenstats/models/Player.java:110 | The matches of one entry are its wins plus its losses; the per-character sums over them are stated by the `Aggregates` rows. |
| `Aggregates.MatchesOverRemove` | src/main/java/org/tekkenstats/models/Player.java:106-112 | The per-character sum of wins plus losses does not depend on the order in which entries are visited. |
| `Aggregates.TotalMatchesInsert` | src/main/java/org/tekkenstats/models/Player.java:106-112 | Adding a new (character, version) entry adds its wins plus losses to that character's total and changes no other character's total. |
| `Aggregates.TotalMatchesAbsent` | src/main/java/org/tekkenstats/models/Player.java:106-112 | A character with no entry has a total of zero. |
| `Aggregates.CharacterIdsOver` | src/main/java/org/tekkenstats/models/Player.java:107-108 | The grouping keys are exactly the characters that have an entry. |
| `Aggregates.AddMatches` | src/main/java/org/tekkenstats/models/Player.java:109-111 | Folding one entry into the running totals adds its wins plus losses under its character and leaves the other characters alone. |
| `Aggregates.TotalsStep` | src/main/java/org/tekkenstats/models/Player.java:106-112 | Folding one more entry into exact running totals keeps them exact. |
| `Aggregates.TotalMatchesByCharacter` | src/main/java/org/tekkenstats/models/Player.java:106-112 | There is one key per character that has an entry. Its value is that character's wins plus losses summed over all its game versions. |
| `LatestBattle.SetLatestBattle` | src/main/java/org/tekkenstats/models/Player.java:156-161 | With no statistics, `latestBattle` becomes 0. Otherwise it becomes some entry's latest battle that is at least every entry's latest battle. No other field changes. |
| `LatestBattle.LateReportRejectedAfterSync` | src/main/java/org/tekkenstats/models/Player.java:81-87 | Once the statistics record a battle at `t1` and `latestBattle` has been recomputed, every report older than `t1` leaves the player unchanged. |
| `LatestBattle.ReportAtEntryTimeAdmittedOnlyIfNewest` | src/main/java/org/tekkenstats/models/Player.java:83 | After recomputation, a report dated at an entry's latest battle is admitted exactly when that entry is a newest one, or when the power does not change. |
| `MainCharacter.CharactersWithRank` | src/main/java/org/tekkenstats/models/Player.java:115-118 | The set holds exactly the characters that have an entry, in some version, at the given dan rank. |
| `MainCharacter.PickMostPlayed` | src/main/java/org/tekkenstats/models/Player.java:121-122 | The result is empty exactly when there are no candidates. Otherwise it is a candidate whose total is at least every candidate's total, in any visiting order. |
| `MainCharacter.HighestRankIsReached` | src/main/java/org/tekkenstats/models/Player.java:129-134 | When there are statistics, the set of characters at the highest rank is never empty, so the reduction's fallback is unreachable. |
| `MainCharacter.FindMainCharacter` | src/main/java/org/tekkenstats/models/Player.java:89-135 | With no statistics the result is "No Character Data" / "0". Otherwise the character reached the highest dan rank of all entries and has the most total matches among the characters at that rank. The rank is reported as the decimal text of that highest rank. |
| `MainCharacter.InfoOf` | src/main/java/org/tekkenstats/models/Player.java:142-151 | The display info is "No Character Data" / "N/A" exactly when the summary carries the sentinel id, or when the lookup itself returns those two texts for a real character and rank. |
| `MainCharacter.GetMostPlayedCharacterInfo` | src/main/java/org/tekkenstats/models/Player.java:137-154 | With no statistics the result is "No Character Data" / "N/A". Otherwise it is the display form of some acceptable main character and its highest rank. |
| `MainCharacter.SentinelInfoExactlyForSentinelSummary` | src/main/java/org/tekkenstats/models/Player.java:142-146 | If the lookup never returns "No Character Data", the info is the sentinel pair exactly when the summary carries the sentinel id. |
| `MainCharacter.MainCharacterUniqueUpToTies` | src/main/java/org/tekkenstats/models/Player.java:120-126 | All acceptable answers have the same highest rank, the same rank text and the same match total. |
| `MainCharacter.FewerMatchesNeverChosen` | src/main/java/org/tekkenstats/models/Player.java:120-122 | Of two characters at the highest rank, one with fewer total matches is never the main character. |
| `MainCharacter.StrictlyMostPlayedIsTheMain` | src/main/java/org/tekkenstats/models/Player.java:120-122 | A character at the highest rank with strictly more matches than every other such character is the one and only answer. |
| `MainCharacter.BelowHighestRankNeverChosen` | src/main/java/org/tekkenstats/models/Player.java:114-118 | A character without an entry at the highest rank is never the main character, at any rank. |
| `Decimal.NatToDigits` | src/main/java/org/tekkenstats/models/Player.java:126 | The result is a non-empty string of decimal digits with no leading zero. |
| `Decimal.DecimalString` | src/main/java/org/tekkenstats/models/Player.java:126 | The text of the rank is non-empty and starts with '-' exactly for negative ranks. |
| `Decimal.DecimalRoundTrip` | src/main/java/org/tekkenstats/models/Player.java:126 | Parsing the rendered rank gives the rank back. |
| `Decimal.DecimalStringInjective` | src/main/java/org/tekkenstats/models/Player.java:126 | Distinct ranks are rendered as distinct text. |

## Left out

- `PastPlayerNamesRepository` is a framework repository interface with no logic of its own.
- `PopularCharacterProjection` is a read shape filled by an SQL aggregate. Its win rate is a floating-point value computed in the database.
- JPA mapping is left out: table and column annotations, cascade, orphan removal, and eager or lazy fetching are persistence-framework behaviour.
- The Lombok-generated getters, setters, `toString`, and the constructors are left out because they hold no logic.
- `hashCode` is left out because it delegates to Java's `Objects.hash`.
- `EnumsMapper` is not part of this model. It is a parameter holding two arbitrary total functions, so the model says nothing about how names are looked up or about unknown codes.
- A past-name record is modelled by its name alone, because the entity class is not part of this model. Two records with the same name therefore collapse into one. `hasPlayerName` cannot tell the difference.
- Java nulls are not modelled. `playerId` is never null, so the cases of `Objects.equals` in `equals` where one or both ids are null (two null ids are equal, a null id differs from any real id) do not arise. `latestBattle` is always set, so the unboxing failure in `updateTekkenPower` on a null value does not arise. The statistics map and the past-name set are never null. Only `findMainCharacter` checks for a null map, and it treats it like an empty one, which is the modelled case.
- `LatestBattle.SetLatestBattle`: a null statistics map makes the source throw a `NullPointerException`; the model has no null map, so this failure is not represented.
- `Players.HasPlayerName`: a null past-name set makes the source throw a `NullPointerException`; the model has no null set, so this failure is not represented.
- `Players.UpdateTekkenPower`: timestamps and ratings are unbounded integers rather than 64-bit `Long`s. The guard does no arithmetic, so only the value range differs.
- `Aggregates.TotalMatchesByCharacter`: wins plus losses and their per-character sums are unbounded. In Java they are 32-bit `int` sums that wrap around on overflow, which can change which character is chosen.
- `MainCharacter.FindMainCharacter`: the result is specified up to ties. The source picks among tied characters by `HashSet` iteration order, which the model does not fix.
- `MainCharacter.GetMostPlayedCharacterInfo`: the result is specified up to ties, for the same reason as `FindMainCharacter`.
