/** The draw of `simulate_case_open`: a rarity is picked by weight, the catalog
    is filtered to that rarity, the whole catalog stands in when the filter is
    empty, and one candidate is taken. Both random choices are inputs: the
    weighted point `r` and the position `idx` among the candidates. */
module DrawEngine {
  import opened Items
  import opened Weights

  /** Some catalog item carries the tag. */
  predicate HasRarity(catalog: seq<Item>, tag: string) {
    exists i :: 0 <= i < |catalog| && catalog[i].rarity == tag
  }

  /** The list comprehension `[i for i in items_dataset if i['rarity'] == tag]`. */
  function Filter(catalog: seq<Item>, tag: string): (r: seq<Item>)
    ensures |r| <= |catalog|
    ensures forall x :: x in r <==> x in catalog && x.rarity == tag
  {
    if catalog == [] then []
    else (if catalog[0].rarity == tag then [catalog[0]] else []) + Filter(catalog[1..], tag)
  }

  /** The positions of the items with the tag, in increasing order. */
  function Positions(catalog: seq<Item>, tag: string): seq<nat> {
    if catalog == [] then []
    else
      var n := |catalog| - 1;
      Positions(catalog[..n], tag) + (if catalog[n].rarity == tag then [n] else [])
  }

  lemma {:induction false} FilterSnoc(catalog: seq<Item>, x: Item, tag: string)
    ensures Filter(catalog + [x], tag) == Filter(catalog, tag) + (if x.rarity == tag then [x] else [])
  {
    if catalog != [] {
      assert (catalog + [x])[1..] == catalog[1..] + [x];
      FilterSnoc(catalog[1..], x, tag);
    }
  }

  /** `f` is `c` restricted to the increasing positions `p`, and `p` holds
      exactly the positions of `c` whose rarity is the tag. */
  ghost predicate SelectsAt(f: seq<Item>, c: seq<Item>, p: seq<nat>, tag: string) {
    && |p| == |f|
    && (forall k :: 0 <= k < |p| ==> p[k] < |c| && f[k] == c[p[k]])
    && (forall k, l :: 0 <= k < l < |p| ==> p[k] < p[l])
    && (forall i :: 0 <= i < |c| ==> (c[i].rarity == tag <==> i in p))
  }

  lemma SelectsAtSnoc(f: seq<Item>, c: seq<Item>, p: seq<nat>, tag: string, x: Item)
    requires SelectsAt(f, c, p, tag)
    ensures x.rarity == tag ==> SelectsAt(f + [x], c + [x], p + [|c|], tag)
    ensures x.rarity != tag ==> SelectsAt(f, c + [x], p, tag)
  {
  }

  /** The filtered list is the catalog's items at exactly the positions whose
      rarity is the tag, in catalog order: an order-preserving subsequence
      holding every item with the tag and nothing else. */
  lemma {:induction false} FilterIsOrderedSelection(catalog: seq<Item>, tag: string)
    ensures SelectsAt(Filter(catalog, tag), catalog, Positions(catalog, tag), tag)
  {
    if catalog != [] {
      var n := |catalog| - 1;
      var front, x := catalog[..n], catalog[n];
      assert catalog == front + [x];
      FilterIsOrderedSelection(front, tag);
      FilterSnoc(front, x, tag);
      SelectsAtSnoc(Filter(front, tag), front, Positions(front, tag), tag, x);
    }
  }

  /** The candidate list after the fallback of `simulate_case_open`. */
  function Candidates(catalog: seq<Item>, tag: string): (r: seq<Item>)
    ensures HasRarity(catalog, tag) ==> r == Filter(catalog, tag) && r != []
    ensures !HasRarity(catalog, tag) ==> r == catalog
    ensures forall x :: x in r ==> x in catalog
    ensures r == [] <==> catalog == []
  {
    var available := Filter(catalog, tag);
    if available == [] then
      assert forall i :: 0 <= i < |catalog| ==> catalog[i] in catalog;
      catalog
    else
      assert available[0] in catalog;
      available
  }

  /** One draw for a chosen rarity and a candidate position. The catalog must
      be non-empty: `random.choice` on an empty list raises. */
  function Draw(catalog: seq<Item>, chosenRarity: string, idx: nat): (item: Item)
    requires catalog != []
    requires chosenRarity in RarityKeys
    requires idx < |Candidates(catalog, chosenRarity)|
    ensures item in catalog
    ensures HasRarity(catalog, chosenRarity) ==> item.rarity == chosenRarity
    ensures !HasRarity(catalog, chosenRarity) ==> item == catalog[idx]
  {
    Candidates(catalog, chosenRarity)[idx]
  }

  /** `simulate_case_open` with its weighted point `r` and candidate position `idx`. */
  function SimulateCaseOpen(catalog: seq<Item>, r: nat, idx: nat): (item: Item)
    requires catalog != []
    requires r < TotalWeight
    requires idx < |Candidates(catalog, ChooseRarity(r))|
    ensures item in catalog
    ensures item.rarity == ChooseRarity(r) || !HasRarity(catalog, ChooseRarity(r))
  {
    Draw(catalog, ChooseRarity(r), idx)
  }

  /** What a draw can return: any catalog item when no item has the chosen
      rarity, otherwise exactly the catalog items of that rarity. */
  lemma DrawableIff(catalog: seq<Item>, chosenRarity: string, x: Item)
    requires catalog != [] && chosenRarity in RarityKeys
    ensures (exists idx: nat :: idx < |Candidates(catalog, chosenRarity)| && Draw(catalog, chosenRarity, idx) == x)
        <==> x in catalog && (HasRarity(catalog, chosenRarity) ==> x.rarity == chosenRarity)
  {
    var cands := Candidates(catalog, chosenRarity);
    if x in catalog && (HasRarity(catalog, chosenRarity) ==> x.rarity == chosenRarity) {
      assert x in cands;
      var idx :| 0 <= idx < |cands| && cands[idx] == x;
      assert Draw(catalog, chosenRarity, idx) == x;
    }
  }

  /** A catalog holding a single rarity always yields that rarity, whatever the weighted pick. */
  lemma SingleRarityCatalog(catalog: seq<Item>, tag: string, r: nat, idx: nat)
    requires catalog != [] && r < TotalWeight
    requires forall i :: 0 <= i < |catalog| ==> catalog[i].rarity == tag
    requires idx < |Candidates(catalog, ChooseRarity(r))|
    ensures SimulateCaseOpen(catalog, r, idx).rarity == tag
  {
  }

  /** The default catalog has items of all five rarities. */
  lemma DefaultCoversRarities(tag: string)
    requires tag in RarityKeys
    ensures HasRarity(DefaultItems, tag)
  {
    var d := DefaultItems;
    if tag == "Mil-Spec" { assert d[0].rarity == tag; }
    else if tag == "Restricted" { assert d[4].rarity == tag; }
    else if tag == "Classified" { assert d[7].rarity == tag; }
    else if tag == "Covert" { assert d[9].rarity == tag; }
    else { assert d[11].rarity == tag; }
  }

  /** On the default catalog the fallback never fires, so the drawn rarity
      is always the weighted pick. */
  lemma DefaultCatalogFollowsPick(r: nat, idx: nat)
    requires r < TotalWeight
    requires idx < |Candidates(DefaultItems, ChooseRarity(r))|
    ensures SimulateCaseOpen(DefaultItems, r, idx).rarity == ChooseRarity(r)
  {
    DefaultCoversRarities(ChooseRarity(r));
  }
}
