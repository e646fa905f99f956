/** Lists of lists, which pages and shards both are, and lists picked from others. */
module Sequences {

  function Flatten<T>(parts: seq<seq<T>>): seq<T> {
    if parts == [] then [] else Flatten(parts[..|parts| - 1]) + parts[|parts| - 1]
  }

  lemma FlattenLast<T>(parts: seq<seq<T>>, part: seq<T>)
    ensures Flatten(parts + [part]) == Flatten(parts) + part
  {
    assert (parts + [part])[..|parts|] == parts;
  }

  /** `part` is what stands in `whole` at the positions `picked`, in that order. */
  ghost predicate Picks<T>(picked: seq<nat>, whole: seq<T>, part: seq<T>) {
    && |picked| == |part|
    && (forall i, j :: 0 <= i < j < |picked| ==> picked[i] < picked[j])
    && (forall i :: 0 <= i < |picked| ==> picked[i] < |whole| && part[i] == whole[picked[i]])
  }

  /** One more element in front, picked or not. */
  lemma ShiftPicks<T>(picked: seq<nat>, whole: seq<T>, part: seq<T>, kept: bool) returns (shifted: seq<nat>)
    requires whole != [] && Picks(picked, whole[1..], part)
    ensures Picks(shifted, whole, (if kept then [whole[0]] else []) + part)
    ensures forall i :: 0 < i < |whole| ==> (i in shifted <==> i - 1 in picked)
    ensures 0 in shifted <==> kept
  {
    var later := seq(|picked|, j requires 0 <= j < |picked| => picked[j] + 1);
    shifted := (if kept then [0] else []) + later;
    forall i | 0 < i < |whole|
      ensures i in later <==> i - 1 in picked
    {
      if i - 1 in picked {
        var j :| 0 <= j < |picked| && picked[j] == i - 1;
        assert later[j] == i;
      }
    }
  }

  lemma OneMore(n: nat, each: nat)
    ensures (n + 1) * each == n * each + each
  {
  }
}
