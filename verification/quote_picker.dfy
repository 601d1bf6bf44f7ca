/**
 * The repeat-avoiding index choice shared by the new-tab page's
 * `pickRandomIndex` and the background's `pickQuote`: a uniform draw in
 * `[0, n)` that is moved one place on (wrapping round) when it equals the
 * previously shown index. The moved index is not checked again.
 */
module QuotePicker {

  /** `i === lastIndex ? (i + 1) % n : i` for a list of at least two quotes. */
  function AvoidRepeat(n: nat, last: int, draw: nat): (i: nat)
    requires 2 <= n && draw < n
    ensures i < n && i != last
    ensures draw != last ==> i == draw
  {
    if draw == last then (draw + 1) % n else draw
  }

  /** The deliberate bias of the collision rule: the index after the previous
      one is produced by two draws, the previous one by none. */
  lemma CollisionFavoursSuccessor(n: nat, last: nat)
    requires 2 <= n && last < n
    ensures AvoidRepeat(n, last, last) == (last + 1) % n
    ensures AvoidRepeat(n, last, (last + 1) % n) == (last + 1) % n
    ensures forall d :: 0 <= d < n ==> AvoidRepeat(n, last, d) != last
  {
  }

  /** The indices shown by a run of picks over a list of `n` quotes, starting
      from the cursor `last`, one per draw. */
  function Picks(n: nat, last: int, draws: seq<nat>): (r: seq<nat>)
    requires 2 <= n
    requires forall k :: 0 <= k < |draws| ==> draws[k] < n
    decreases |draws|
  {
    if draws == [] then []
    else
      var i := AvoidRepeat(n, last, draws[0]);
      [i] + Picks(n, i, draws[1..])
  }

  /** However the draws fall, every pick is in range, the first differs from
      the starting cursor and no two consecutive picks are equal. */
  lemma {:induction false} PicksNeverRepeat(n: nat, last: int, draws: seq<nat>)
    requires 2 <= n
    requires forall k :: 0 <= k < |draws| ==> draws[k] < n
    ensures |Picks(n, last, draws)| == |draws|
    ensures forall k :: 0 <= k < |draws| ==> Picks(n, last, draws)[k] < n
    ensures draws != [] ==> Picks(n, last, draws)[0] != last
    ensures forall k :: 0 <= k < |draws| - 1 ==> Picks(n, last, draws)[k] != Picks(n, last, draws)[k + 1]
    decreases |draws|
  {
    if draws != [] {
      var i := AvoidRepeat(n, last, draws[0]);
      PicksNeverRepeat(n, i, draws[1..]);
    }
  }
}
