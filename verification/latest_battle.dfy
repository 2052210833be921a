/** `setLatestBattle`: the player's latest-battle time is recomputed from its
    statistics, and how that recomputation interacts with the power guard. */
module LatestBattle {

  import opened Players
  import opened Aggregates

  /** Sets `latestBattle` to the newest `latestBattle` among the player's
      statistics entries, or to 0 when there are none; nothing else changes. */
  method SetLatestBattle(p: Player) returns (q: Player)
    ensures q == p.(latestBattle := q.latestBattle)
    ensures p.characterStats == map[] ==> q.latestBattle == 0
    ensures p.characterStats != map[] ==> IsMaxOf(p.characterStats, LatestBattleOf, q.latestBattle)
  {
    var newest := MaxOver(p.characterStats, LatestBattleOf);
    q := p.(latestBattle := newest.GetOr(0));
  }

  /** Once the stats record a battle at `t1` and `latestBattle` has been
      recomputed from them, every report older than `t1` is rejected and
      the rating accepted before stays in place. */
  lemma LateReportRejectedAfterSync(q: Player, t1: int, newPower: int, t2: int)
    requires q.characterStats != map[] && IsMaxOf(q.characterStats, LatestBattleOf, q.latestBattle)
    requires exists k :: k in q.characterStats && q.characterStats[k].latestBattle >= t1
    requires t2 < t1
    ensures UpdateTekkenPower(q, newPower, t2) == q
  {
  }

  /** The latest battle is never older than any entry's latest battle, so a
      report dated at some entry's latest battle is admitted only if that
      entry is (one of) the newest. */
  lemma ReportAtEntryTimeAdmittedOnlyIfNewest(q: Player, k: StatsKey, newPower: int)
    requires q.characterStats != map[] && IsMaxOf(q.characterStats, LatestBattleOf, q.latestBattle)
    requires k in q.characterStats
    ensures UpdateTekkenPower(q, newPower, q.characterStats[k].latestBattle).tekkenPower == newPower
            <==> (q.characterStats[k].latestBattle == q.latestBattle || newPower == q.tekkenPower)
  {
  }
}
