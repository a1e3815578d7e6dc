/** The append-only log of drops and the two queries over it: the total
    count of the home page and the per-rarity counts of the stats page. */
module DropLog {
  import opened Items

  /** One row of the `drop` table: what is copied from the drawn item.
      The auto-assigned id and the `opened_at` timestamp are not modelled. */
  datatype Drop = Drop(itemName: string, rarity: string, price: int)

  function DropOf(item: Item): Drop {
    Drop(item.name, item.rarity, item.price)
  }

  /** One group of `GROUP BY rarity`: a label and its count. */
  datatype RarityCount = RarityCount(rarity: string, count: nat)

  /** The rarity column of the log, as a sequence. */
  function Rarities(log: seq<Drop>): seq<string> {
    seq(|log|, i requires 0 <= i < |log| => log[i].rarity)
  }

  function Labels(groups: seq<RarityCount>): set<string> {
    if groups == [] then {} else {groups[0].rarity} + Labels(groups[1..])
  }

  predicate DistinctLabels(groups: seq<RarityCount>) {
    groups == [] || (groups[0].rarity !in Labels(groups[1..]) && DistinctLabels(groups[1..]))
  }

  predicate PositiveCounts(groups: seq<RarityCount>) {
    forall k :: 0 <= k < |groups| ==> groups[k].count > 0
  }

  /** The count of the group labelled `tag`, or 0 when there is none. */
  function CountFor(groups: seq<RarityCount>, tag: string): nat {
    if groups == [] then 0
    else if groups[0].rarity == tag then groups[0].count
    else CountFor(groups[1..], tag)
  }

  function SumCounts(groups: seq<RarityCount>): nat {
    if groups == [] then 0 else groups[0].count + SumCounts(groups[1..])
  }

  /** Counts one more drop of rarity `tag`. */
  function Bump(groups: seq<RarityCount>, tag: string): seq<RarityCount> {
    if groups == [] then [RarityCount(tag, 1)]
    else if groups[0].rarity == tag then [RarityCount(tag, groups[0].count + 1)] + groups[1..]
    else [groups[0]] + Bump(groups[1..], tag)
  }

  /** `SELECT rarity, COUNT(id) FROM drop GROUP BY rarity`, with the groups in
      order of each rarity's first drop. */
  function GroupByRarity(log: seq<Drop>): seq<RarityCount> {
    if log == [] then [] else Bump(GroupByRarity(log[..|log| - 1]), log[|log| - 1].rarity)
  }

  lemma {:induction false} CountForAbsent(groups: seq<RarityCount>, tag: string)
    requires tag !in Labels(groups)
    ensures CountFor(groups, tag) == 0
  {
    if groups != [] {
      CountForAbsent(groups[1..], tag);
    }
  }

  /** Counting one drop adds its label, keeps labels distinct and counts
      positive, raises the total by one and the group of `tag` by one, and
      leaves every other group as it was. */
  lemma {:induction false} BumpFacts(groups: seq<RarityCount>, tag: string)
    ensures Labels(Bump(groups, tag)) == Labels(groups) + {tag}
    ensures DistinctLabels(groups) ==> DistinctLabels(Bump(groups, tag))
    ensures PositiveCounts(groups) ==> PositiveCounts(Bump(groups, tag))
    ensures SumCounts(Bump(groups, tag)) == SumCounts(groups) + 1
    ensures DistinctLabels(groups) ==> forall l :: CountFor(Bump(groups, tag), l) == CountFor(groups, l) + (if l == tag then 1 else 0)
  {
    var b := Bump(groups, tag);
    if groups == [] {
      assert b[1..] == [];
      forall l ensures CountFor(b, l) == CountFor(groups, l) + (if l == tag then 1 else 0) {
        assert CountFor(b[1..], l) == 0;
      }
    } else if groups[0].rarity == tag {
      assert b[1..] == groups[1..];
      if DistinctLabels(groups) {
        forall l ensures CountFor(b, l) == CountFor(groups, l) + (if l == tag then 1 else 0) {
        }
      }
    } else {
      BumpFacts(groups[1..], tag);
      assert b[1..] == Bump(groups[1..], tag);
      if PositiveCounts(groups) {
        assert PositiveCounts(groups[1..]) by {
          forall k | 0 <= k < |groups[1..]| ensures groups[1..][k].count > 0 {
            assert groups[1..][k] == groups[k + 1];
          }
        }
      }
    }
  }

  /** The groups cover exactly the rarities that have at least one drop,
      each once, each with a positive count. */
  lemma {:induction false} GroupByRarityShape(log: seq<Drop>)
    ensures Labels(GroupByRarity(log)) == set i | 0 <= i < |log| :: log[i].rarity
    ensures DistinctLabels(GroupByRarity(log))
    ensures PositiveCounts(GroupByRarity(log))
  {
    if log != [] {
      var n := |log| - 1;
      GroupByRarityShape(log[..n]);
      BumpFacts(GroupByRarity(log[..n]), log[n].rarity);
      var front := log[..n];
      assert (set i | 0 <= i < |log| :: log[i].rarity) == (set i | 0 <= i < |front| :: front[i].rarity) + {log[n].rarity} by {
        assert forall i :: 0 <= i < |front| ==> front[i] == log[i];
      }
    }
  }

  /** Each rarity's count is the number of drops of that rarity. */
  lemma {:induction false} GroupByRarityCounts(log: seq<Drop>, tag: string)
    ensures CountFor(GroupByRarity(log), tag) == multiset(Rarities(log))[tag]
  {
    if log != [] {
      var n := |log| - 1;
      GroupByRarityCounts(log[..n], tag);
      GroupByRarityShape(log[..n]);
      BumpFacts(GroupByRarity(log[..n]), log[n].rarity);
      assert Rarities(log) == Rarities(log[..n]) + [log[n].rarity];
    }
  }

  /** The per-rarity counts add up to the total count of the log. */
  lemma {:induction false} GroupByRaritySum(log: seq<Drop>)
    ensures SumCounts(GroupByRarity(log)) == |log|
  {
    if log != [] {
      var n := |log| - 1;
      GroupByRaritySum(log[..n]);
      BumpFacts(GroupByRarity(log[..n]), log[n].rarity);
    }
  }

  /** Appending one drop raises its rarity's count by one and no other. */
  lemma AppendDropCounts(log: seq<Drop>, d: Drop, tag: string)
    ensures CountFor(GroupByRarity(log + [d]), tag) == CountFor(GroupByRarity(log), tag) + (if tag == d.rarity then 1 else 0)
  {
    assert (log + [d])[..|log|] == log;
    GroupByRarityShape(log);
    BumpFacts(GroupByRarity(log), d.rarity);
  }
}
