/** The reserve split of the cricket match card (components/CricketMatch.tsx):
    the reserves are cut at the rounded-up half, the first part going to
    team 1 and the rest to team 2. */
module CricketMatch {
  import opened Roster

  /** `Math.ceil(n / 2)` for a list length `n`: the least `m` with `2 * m >= n`. */
  function MidPoint(n: nat): (m: nat)
    ensures 2 * m >= n
    ensures 2 * m <= n + 1
  {
    (n + 1) / 2
  }

  /** `reserves.slice(0, midPoint)` and `reserves.slice(midPoint)`. */
  function SplitReserves(reserves: seq<Name>): (r: (seq<Name>, seq<Name>))
    ensures r.0 + r.1 == reserves
    ensures 0 <= |r.0| - |r.1| <= 1
    ensures |r.0| == MidPoint(|reserves|) && |r.1| == |reserves| / 2
    ensures r.0 == [] <==> reserves == []
    ensures r.1 == [] <==> |reserves| <= 1
  {
    var midPoint := MidPoint(|reserves|);
    (reserves[..midPoint], reserves[midPoint..])
  }

  /** The reserves block is rendered only when there are reserves, that is,
      exactly when team 1 receives at least one of them. */
  function ShowReserves(reserves: seq<Name>): (shown: bool)
    ensures shown <==> SplitReserves(reserves).0 != []
    ensures !shown ==> SplitReserves(reserves) == ([], [])
  {
    |reserves| > 0
  }
}
