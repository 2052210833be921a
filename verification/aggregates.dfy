/** Aggregations over a player's statistics map: the maximum of a per-entry
    value (Java's `mapToInt(...).max()` / `mapToLong(...).max()`) and the
    per-character sum of matches (`groupingBy` with `summingInt`). */
module Aggregates {

  import opened Wrappers
  import opened Players

  /** `v` is the largest `f` over the entries whose keys are in `keys`, and
      some entry attains it. */
  ghost predicate IsMaxOver(stats: StatsMap, keys: set<StatsKey>, f: CharacterStats -> int, v: int) {
    && keys <= stats.Keys
    && (exists k :: k in keys && f(stats[k]) == v)
    && (forall k :: k in keys ==> f(stats[k]) <= v)
  }

  ghost predicate IsMaxOf(stats: StatsMap, f: CharacterStats -> int, v: int) {
    IsMaxOver(stats, stats.Keys, f, v)
  }

  /** A maximum, when there is one, is unique. */
  lemma MaxIsUnique(stats: StatsMap, f: CharacterStats -> int, a: int, b: int)
    requires IsMaxOf(stats, f, a) && IsMaxOf(stats, f, b)
    ensures a == b
  {
  }

  /** The maximum of `f` over all entries, or `None` when there are no
      entries. Entries are visited in an unspecified order, as a `HashMap`
      hands them out. */
  method MaxOver(stats: StatsMap, f: CharacterStats -> int) returns (r: Option<int>)
    ensures r.None? <==> stats == map[]
    ensures r.Some? ==> IsMaxOf(stats, f, r.value)
  {
    r := None;
    var todo := stats.Keys;
    ghost var attained := StatsKey("", 0);
    while todo != {}
      invariant todo <= stats.Keys
      invariant r.None? <==> todo == stats.Keys
      invariant r.Some? ==> attained in stats && attained !in todo && f(stats[attained]) == r.value
      invariant r.Some? ==> forall k :: k in stats && k !in todo ==> f(stats[k]) <= r.value
      decreases |todo|
    {
      var k :| k in todo;
      var v := f(stats[k]);
      if r.None? || v > r.value {
        r := Some(v);
        attained := k;
      }
      todo := todo - {k};
    }
    if r.None? {
      assert stats.Keys == {};
      assert stats == map[];
    } else {
      assert IsMaxOver(stats, stats.Keys, f, r.value);
    }
  }

  // ---------------------------------------------------------------------
  // Total matches per character

  /** The part one entry adds to the total of character `c`. */
  function Contribution(stats: StatsMap, k: StatsKey, c: string): int
    requires k in stats
  {
    if k.characterId == c then Matches(stats[k]) else 0
  }

  ghost function Pick(keys: set<StatsKey>): (k: StatsKey)
    requires keys != {}
    ensures k in keys
  {
    var k :| k in keys; k
  }

  /** Sum of wins plus losses over the entries of `keys` that belong to `c`. */
  ghost function MatchesOver(stats: StatsMap, keys: set<StatsKey>, c: string): int
    requires keys <= stats.Keys
    decreases keys
  {
    if keys == {} then 0
    else
      var k := Pick(keys);
      Contribution(stats, k, c) + MatchesOver(stats, keys - {k}, c)
  }

  /** Wins plus losses of character `c`, summed over all its game versions. */
  ghost function TotalMatches(stats: StatsMap, c: string): int {
    MatchesOver(stats, stats.Keys, c)
  }

  /** The sum does not depend on the order the entries are visited in: any
      entry can be taken out first. */
  lemma {:induction false} MatchesOverRemove(stats: StatsMap, keys: set<StatsKey>, c: string, k: StatsKey)
    requires keys <= stats.Keys && k in keys
    ensures MatchesOver(stats, keys, c) == Contribution(stats, k, c) + MatchesOver(stats, keys - {k}, c)
    decreases keys
  {
    var x := Pick(keys);
    if x != k {
      MatchesOverRemove(stats, keys - {x}, c, k);
      MatchesOverRemove(stats, keys - {k}, c, x);
      assert keys - {x} - {k} == keys - {k} - {x};
    }
  }

  /** A character with no entry among `keys` has played no matches there. */
  lemma {:induction false} MatchesOverAbsent(stats: StatsMap, keys: set<StatsKey>, c: string)
    requires keys <= stats.Keys
    requires forall k :: k in keys ==> k.characterId != c
    ensures MatchesOver(stats, keys, c) == 0
    decreases keys
  {
    if keys != {} {
      MatchesOverAbsent(stats, keys - {Pick(keys)}, c);
    }
  }

  /** Entries outside `keys` do not matter to the sum over `keys`. */
  lemma {:induction false} MatchesOverFrame(stats: StatsMap, other: StatsMap, keys: set<StatsKey>, c: string)
    requires keys <= stats.Keys && keys <= other.Keys
    requires forall k :: k in keys ==> stats[k] == other[k]
    ensures MatchesOver(stats, keys, c) == MatchesOver(other, keys, c)
    decreases keys
  {
    if keys != {} {
      MatchesOverFrame(stats, other, keys - {Pick(keys)}, c);
    }
  }

  /** Recording a new (character, version) entry adds its wins and losses to
      that character's total and to no other. */
  lemma TotalMatchesInsert(stats: StatsMap, k: StatsKey, s: CharacterStats, c: string)
    requires k !in stats
    ensures TotalMatches(stats[k := s], c)
            == TotalMatches(stats, c) + (if k.characterId == c then Matches(s) else 0)
  {
    var bigger := stats[k := s];
    assert bigger.Keys - {k} == stats.Keys;
    MatchesOverRemove(bigger, bigger.Keys, c, k);
    MatchesOverFrame(bigger, stats, stats.Keys, c);
  }

  /** A character without entries has a total of zero. */
  lemma TotalMatchesAbsent(stats: StatsMap, c: string)
    requires forall k :: k in stats ==> k.characterId != c
    ensures TotalMatches(stats, c) == 0
  {
    MatchesOverAbsent(stats, stats.Keys, c);
  }

  /** The characters that have at least one entry among `keys`. */
  function CharacterIdsOver(keys: set<StatsKey>): (ids: set<string>)
    ensures forall k :: k in keys ==> k.characterId in ids
    ensures forall c :: c in ids ==> exists k :: k in keys && k.characterId == c
  {
    set k | k in keys :: k.characterId
  }

  /** The value `Matches(s)` adds to character `c` in a running total. */
  function AddMatches(totals: map<string, int>, c: string, s: CharacterStats): (r: map<string, int>)
    ensures r.Keys == totals.Keys + {c}
    ensures r[c] == (if c in totals then totals[c] else 0) + Matches(s)
    ensures forall c' :: c' in totals && c' != c ==> r[c'] == totals[c']
  {
    if c in totals then totals[c := totals[c] + Matches(s)] else totals[c := Matches(s)]
  }

  /** Running totals over the entries of `done` are exactly the grouped sums. */
  ghost predicate TotalsOver(stats: StatsMap, done: set<StatsKey>, totals: map<string, int>)
    requires done <= stats.Keys
  {
    && totals.Keys == CharacterIdsOver(done)
    && forall c :: c in totals ==> totals[c] == MatchesOver(stats, done, c)
  }

  /** Adding one more entry to the running totals keeps them exact. */
  lemma TotalsStep(stats: StatsMap, done: set<StatsKey>, k: StatsKey, totals: map<string, int>)
    requires done <= stats.Keys && k in stats && k !in done
    requires TotalsOver(stats, done, totals)
    ensures TotalsOver(stats, done + {k}, AddMatches(totals, k.characterId, stats[k]))
  {
    var after := AddMatches(totals, k.characterId, stats[k]);
    var done' := done + {k};
    assert done' - {k} == done;
    assert CharacterIdsOver(done') == CharacterIdsOver(done) + {k.characterId};
    forall c | c in after
      ensures after[c] == MatchesOver(stats, done', c)
    {
      MatchesOverRemove(stats, done', c, k);
      if c == k.characterId && c !in totals {
        MatchesOverAbsent(stats, done, c);
      }
    }
  }

  /** Total matches of every character that has an entry, grouped by character. */
  method TotalMatchesByCharacter(stats: StatsMap) returns (totals: map<string, int>)
    ensures totals.Keys == CharacterIdsOver(stats.Keys)
    ensures forall c :: c in totals ==> totals[c] == TotalMatches(stats, c)
  {
    totals := map[];
    var todo := stats.Keys;
    ghost var done: set<StatsKey> := {};
    while todo != {}
      invariant done <= stats.Keys && todo == stats.Keys - done
      invariant TotalsOver(stats, done, totals)
      decreases |todo|
    {
      var k :| k in todo;
      assert k !in done;
      TotalsStep(stats, done, k, totals);
      totals := AddMatches(totals, k.characterId, stats[k]);
      todo := todo - {k};
      done := done + {k};
    }
    assert done == stats.Keys;
    assert TotalsOver(stats, stats.Keys, totals);
  }
}
