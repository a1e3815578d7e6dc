/** The state of the case-opening site: the global catalog that an upload
    replaces, and the drop table that every opened case appends to. */
module CaseSite {
  import opened Wrappers
  import opened Items
  import opened Weights
  import opened DrawEngine
  import opened DropLog
  import opened CsvUpload

  class Site {
    /** `items_dataset`: the catalog draws are made from. */
    var itemsDataset: seq<Item>
    /** The rows of the drop table, in insertion order. */
    var drops: seq<Drop>

    /** Start-up: the default catalog, and the drop table with the rows
        `stored` that the database file already holds. */
    constructor (stored: seq<Drop>)
      ensures itemsDataset == DefaultItems && drops == stored
    {
      itemsDataset := DefaultItems;
      drops := stored;
    }

    /** POST to `/upload`: the catalog is replaced wholesale exactly when the
        file passes the checks; the drop table is never touched. */
    method Upload(file: Option<UploadedFile>) returns (outcome: UploadOutcome)
      modifies this
      ensures outcome == CheckUpload(file)
      ensures outcome.Loaded? ==> itemsDataset == outcome.items
      ensures !outcome.Loaded? ==> itemsDataset == old(itemsDataset)
      ensures drops == old(drops)
    {
      outcome := CheckUpload(file);
      if outcome.Loaded? {
        itemsDataset := outcome.items;
      }
    }

    /** POST to `/open`: one draw with the weighted point `r` and the
        candidate position `idx`, and one drop row copying the drawn item.
        On an empty catalog `random.choice` raises before anything is
        stored; that failure is `None`. */
    method OpenCase(r: nat, idx: nat) returns (result: Option<Item>)
      requires r < TotalWeight
      requires itemsDataset != [] ==> idx < |Candidates(itemsDataset, ChooseRarity(r))|
      modifies this
      ensures itemsDataset == old(itemsDataset)
      ensures old(itemsDataset) == [] ==> result == None && drops == old(drops)
      ensures old(itemsDataset) != [] ==>
        && result == Some(SimulateCaseOpen(itemsDataset, r, idx))
        && drops == old(drops) + [Drop(result.value.name, result.value.rarity, result.value.price)]
    {
      if itemsDataset == [] {
        result := None;
      } else {
        var item := SimulateCaseOpen(itemsDataset, r, idx);
        drops := drops + [DropOf(item)];
        result := Some(item);
      }
    }

    /** `/`: the number of drops so far. */
    method Home() returns (total: nat)
      ensures total == |drops|
    {
      total := |drops|;
    }

    /** `/inventory`: every drop, in insertion order. */
    method Inventory() returns (all: seq<Drop>)
      ensures all == drops
    {
      all := drops;
    }

    /** `/stats`: one group per rarity that has been dropped at least once,
        each counting that rarity's drops, the counts adding up to the total. */
    method Stats() returns (groups: seq<RarityCount>)
      ensures Labels(groups) == set i | 0 <= i < |drops| :: drops[i].rarity
      ensures DistinctLabels(groups) && PositiveCounts(groups)
      ensures forall tag :: CountFor(groups, tag) == multiset(Rarities(drops))[tag]
      ensures SumCounts(groups) == |drops|
    {
      groups := GroupByRarity(drops);
      GroupByRarityShape(drops);
      GroupByRaritySum(drops);
      forall tag ensures CountFor(groups, tag) == multiset(Rarities(drops))[tag] {
        GroupByRarityCounts(drops, tag);
      }
    }
  }
}
