/** The ids of created questions and answers: a one-letter prefix and one more than the
    largest number found after the first character of any existing id. */
module Ids {
  import opened Common

  /** `parseInt(id.substring(1))`: the leading integer after the first character, None for NaN. */
  function Suffix(id: string): Option<int>
  {
    ParseInt(if |id| >= 1 then id[1..] else "")
  }

  /** The `reduce` from 0 that keeps `num > max ? num : max`, over the parsed suffixes; a NaN
      suffix is never greater, so it leaves the maximum as it was. */
  function MaxOf(nums: seq<Option<int>>): int
  {
    if nums == [] then 0
    else
      var max := MaxOf(nums[..|nums| - 1]);
      var num := nums[|nums| - 1];
      if num.Some? && num.value > max then num.value else max
  }

  /** The `id` field of every stored record, in stored order: what the `reduce` reads. */
  function IdsOf<T>(records: seq<T>, id: T -> string): (ids: seq<string>)
    ensures |ids| == |records| && forall i :: 0 <= i < |ids| ==> ids[i] == id(records[i])
  {
    seq(|records|, i requires 0 <= i < |records| => id(records[i]))
  }

  function Suffixes(ids: seq<string>): (nums: seq<Option<int>>)
    ensures |nums| == |ids|
  {
    seq(|ids|, i requires 0 <= i < |ids| => Suffix(ids[i]))
  }

  function MaxId(ids: seq<string>): int
  {
    MaxOf(Suffixes(ids))
  }

  /** The maximum is at least the starting 0, bounds every number, and is either that 0 or
      one of the numbers. */
  lemma {:induction false} MaxOfBounds(nums: seq<Option<int>>)
    ensures MaxOf(nums) >= 0
    ensures forall i :: 0 <= i < |nums| && nums[i].Some? ==> nums[i].value <= MaxOf(nums)
    ensures MaxOf(nums) == 0 || exists i :: 0 <= i < |nums| && nums[i] == Some(MaxOf(nums))
  {
    if nums != [] {
      var init := nums[..|nums| - 1];
      MaxOfBounds(init);
      assert forall i :: 0 <= i < |init| ==> nums[i] == init[i];
    }
  }

  /** maxId bounds the suffix of every id and is 0 or the suffix of one of them. */
  lemma MaxIdBounds(ids: seq<string>)
    ensures MaxId(ids) >= 0
    ensures forall i :: 0 <= i < |ids| && Suffix(ids[i]).Some? ==> Suffix(ids[i]).value <= MaxId(ids)
    ensures MaxId(ids) == 0 || exists i :: 0 <= i < |ids| && Suffix(ids[i]) == Some(MaxId(ids))
  {
    var nums := Suffixes(ids);
    MaxOfBounds(nums);
    forall i | 0 <= i < |ids| && Suffix(ids[i]).Some?
      ensures Suffix(ids[i]).value <= MaxId(ids)
    {
      assert nums[i] == Suffix(ids[i]);
    }
  }

  /** The id given to a new record: `${prefix}${maxId + 1}`. */
  function NewId(prefix: char, ids: seq<string>): (id: string)
    requires MaxId(ids) >= 0
  {
    [prefix] + NatToString(MaxId(ids) + 1)
  }

  /** The new id is different from every existing id, whatever its prefix: an equal id would
      carry the suffix maxId + 1, above the maximum. */
  lemma NewIdIsFresh(prefix: char, ids: seq<string>)
    ensures MaxId(ids) >= 0
    ensures forall i :: 0 <= i < |ids| ==> ids[i] != NewId(prefix, ids)
    ensures Suffix(NewId(prefix, ids)) == Some(MaxId(ids) + 1)
  {
    MaxIdBounds(ids);
    var id := NewId(prefix, ids);
    assert id[1..] == NatToString(MaxId(ids) + 1);
    ParseIntOfNatToString(MaxId(ids) + 1);
  }
}
