/** `generateId` (src/core/utils/generateId.ts): the next id is one more
    than the id of the last entity, or 1 for an empty list. Nothing in the
    request handlers calls it. Entities are given by their ids, in order. */
module IdGeneration {

  /** Each id is larger than every id before it. */
  predicate StrictlyIncreasing(ids: seq<int>) {
    forall i, j :: 0 <= i < j < |ids| ==> ids[i] < ids[j]
  }

  /** `generateId`. Its `else` branch, for a falsy last entity, cannot be
      reached with a list of objects and is left out. */
  function GenerateId(ids: seq<int>): (r: int)
    ensures |ids| == 0 ==> r == 1
    ensures |ids| > 0 ==> r > ids[|ids| - 1]
  {
    if |ids| == 0 then 1 else ids[|ids| - 1] + 1
  }

  /** On ids that increase, the new id is fresh, and appending it keeps
      the ids increasing. */
  lemma FreshOnIncreasing(ids: seq<int>)
    requires StrictlyIncreasing(ids)
    ensures forall i :: 0 <= i < |ids| ==> ids[i] < GenerateId(ids)
    ensures StrictlyIncreasing(ids + [GenerateId(ids)])
  {
    var r := GenerateId(ids);
    var s := ids + [r];
    forall i, j | 0 <= i < j < |s|
      ensures s[i] < s[j]
    {
      if j < |ids| {
        assert s[i] == ids[i] && s[j] == ids[j];
      } else {
        assert s[i] == ids[i];
      }
    }
  }

  /** Appending generated ids one after another from the empty list gives
      1, 2, 3, ... */
  lemma {:induction false} GeneratedFromEmpty(n: nat)
    ensures GenerateId(Consecutive(n)) == n + 1
    ensures StrictlyIncreasing(Consecutive(n))
  {
    if n > 0 {
      GeneratedFromEmpty(n - 1);
      FreshOnIncreasing(Consecutive(n - 1));
    }
  }

  /** The ids 1 to `n` as `generateId` hands them out. */
  function Consecutive(n: nat): (ids: seq<int>)
    ensures |ids| == n
  {
    if n == 0 then [] else var p := Consecutive(n - 1); p + [GenerateId(p)]
  }

  /** When ids do not increase the new id can repeat an existing one: after
      ids 3 and 2 it is 3 again. */
  lemma CanRepeatOutOfOrder()
    ensures GenerateId([3, 2]) == 3 && 3 in [3, 2]
  {
  }
}
