/** Client scenarios over the site, using only the contracts of its methods. */
module Scenarios {
  import opened Wrappers
  import opened Items
  import opened Weights
  import opened DrawEngine
  import opened DropLog
  import opened CsvUpload
  import opened CaseSite

  /** A file without `price` is refused and a file with the wrong extension
      is refused, both leaving the catalog alone; a well-formed one-row file
      becomes the whole catalog. */
  method UploadScenario() {
    var site := new Site([]);
    var knife := Item("Test Knife", "Covert", 10000);
    assert EndsWith("items.csv", ".csv") by { assert "items.csv"[5..] == ".csv"; }
    assert !EndsWith("items.txt", ".csv") by { assert "items.txt"[5..] != ".csv"; }

    var o1 := site.Upload(Some(UploadedFile("items.csv", Table({"item_name", "rarity"}, [knife]))));
    assert "price" !in {"item_name", "rarity"};
    assert o1 == MissingColumns && site.itemsDataset == DefaultItems;

    var o2 := site.Upload(Some(UploadedFile("items.txt", Table(RequiredColumns, [knife]))));
    assert o2 == NotCsv && site.itemsDataset == DefaultItems;

    var o3 := site.Upload(None);
    assert o3 == NotCsv && site.itemsDataset == DefaultItems;

    var o4 := site.Upload(Some(UploadedFile("items.csv", Table(RequiredColumns, [knife]))));
    assert o4 == Loaded([knife]) && site.itemsDataset == [knife];
  }

  /** Three cases opened on a fresh drop table and a non-empty catalog:
      three drops, and the per-rarity counts add up to three. */
  method ThreeDropsScenario(site: Site, r1: nat, r2: nat, r3: nat)
    requires site.drops == [] && site.itemsDataset != []
    requires r1 < TotalWeight && r2 < TotalWeight && r3 < TotalWeight
    modifies site
  {
    var a := site.OpenCase(r1, 0);
    var b := site.OpenCase(r2, 0);
    var c := site.OpenCase(r3, 0);
    assert a.Some? && b.Some? && c.Some?;
    var total := site.Home();
    assert total == 3;
    var groups := site.Stats();
    assert SumCounts(groups) == 3;
  }

  /** An uploaded file with the three columns and no rows empties the
      catalog; opening a case then fails and stores nothing. */
  method EmptyCatalogScenario(r: nat)
    requires r < TotalWeight
  {
    var site := new Site([]);
    assert EndsWith("empty.csv", ".csv") by { assert "empty.csv"[5..] == ".csv"; }
    var o := site.Upload(Some(UploadedFile("empty.csv", Table(RequiredColumns, []))));
    assert site.itemsDataset == [];
    var result := site.OpenCase(r, 0);
    assert result == None && site.drops == [];
  }
}
