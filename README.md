# Case opener: a Dafny model of the draw and the site state

This project models the core of a small case-opening web site. A case is opened
by a weighted draw from an item catalog, and each result is stored in a drop
table. The site shows the total number of drops and a per-rarity count, and it
lets an operator replace the catalog by uploading a CSV file.

Modules:

- `Wrappers`: the `Option` type of a missing upload and a failed open.
- `Items`: the catalog row (`item_name`, `rarity`, `price`) and the built-in default catalog.
- `Weights`: the five-entry `rarity_weights` table and the weighted pick made by `random.choices`.
  The pick is a right bisection over the running sums of the weights, with the random point as an input.
  The weights are doubled to whole numbers: 160, 32, 6, 2 and 1, out of 201.
  The running sums are integers, so comparing them with `floor` of the real point gives the same answer as comparing them with the point itself.
  Nothing is lost by using an integer point in `[0, 201)`.
- `DrawEngine`: `simulate_case_open`. It filters the catalog to the chosen rarity and falls back to the whole catalog when that filter is empty.
  The candidate position (`random.choice`) is an input.
- `DropLog`: the drop rows, plus the `GROUP BY rarity` count of the stats page.
- `CsvUpload`: the upload checks. The file name must end in `.csv`, the table must be readable, and the three columns must be present.
- `CaseSite`: class `Site`, which holds the global catalog (`items_dataset`) and the drop table. Its methods are the five routes.
- `Scenarios`: client methods that use only the `Site` contracts. They show that a bad upload leaves the catalog alone, that three drops give a count of three, and that an empty upload makes the next open fail.

The upload checks do not reject a table without rows. Such an upload is loaded and empties the catalog (`CsvUpload.EmptyTableAccepted`, `Scenarios.EmptyCatalogScenario`).
After that, `random.choice` raises when a case is opened. So `DrawEngine.Draw` keeps a non-empty catalog as a precondition.
`CaseSite.Site.OpenCase` models the failure: the result is `None` and no row is stored.
Nothing in `simulate_case_open` or `open_case` checks that the catalog is non-empty before the draw (app.py:61-70, 80-81), and the model follows the code.

## Model

| member | source | states |
|---|---|---|
| `Weights.Bisect` | app.py:63-65 | the chosen index is the entry whose running-sum interval `[cum[i-1], cum[i])` holds the point `r`, so it is the first entry whose running sum exceeds `r` |
| `Weights.ChooseRarity` | app.py:53-65 | the weighted pick always returns one of the five keys of `rarity_weights` |
| `Weights.BisectIff` | app.py:63-65 | the pick is index `i` exactly when `r` lies in `i`'s running-sum interval, in both directions |
| `Weights.PrefixMonotone` | app.py:64-65 | running sums of the non-negative weights never decrease |
| `Weights.Reachable` | app.py:63-65 | every entry with a positive weight is picked for some point below the total |
| `Weights.TableShape` | app.py:53-59 | the doubled table has five entries, every weight is positive, its keys are exactly the five rarities, and the total is 201 |
| `Weights.EveryRarityReachable` | app.py:53-65 | each of the five rarities is the pick for some point in `[0, 201)` |
| `Weights.RarityRanges` | app.py:53-65 | Mil-Spec is picked for points `[0,160)`, Restricted for `[160,192)`, Classified for `[192,198)`, Covert for `[198,200)` and Exceedingly Rare for 200, which is the ratio 80 : 16 : 3 : 1 : 0.5 |
| `DrawEngine.Filter` | app.py:66 | the filtered list holds exactly the catalog items of the chosen rarity and is no longer than the catalog |
| `DrawEngine.FilterIsOrderedSelection` | app.py:66 | the filtered list is the catalog at exactly the positions whose rarity is the tag, in increasing position order: an order-preserving subsequence with every matching item and nothing else |
| `DrawEngine.Candidates` | app.py:66-69 | when some item has the chosen rarity, the candidates are the filtered list and are non-empty; otherwise they are the whole catalog; candidates are empty only for an empty catalog |
| `DrawEngine.Draw` | app.py:66-70 | the drawn item is in the catalog; it has the chosen rarity whenever any catalog item does; otherwise it is the catalog item at the chosen position |
| `DrawEngine.SimulateCaseOpen` | app.py:61-70 | the result is a catalog item, and its rarity is the weighted pick unless the catalog has no item of that rarity |
| `DrawEngine.DrawableIff` | app.py:66-70 | an item can be drawn exactly when it is in the catalog and, if the chosen rarity is present, has that rarity; with no such item every catalog item is possible |
| `DrawEngine.SingleRarityCatalog` | app.py:66-70 | a catalog of a single rarity always yields that rarity, whatever the weighted pick |
| `DrawEngine.DefaultCoversRarities` | app.py:29-47 | the default catalog has an item of each of the five rarities |
| `DrawEngine.DefaultCatalogFollowsPick` | app.py:50-70 | on the default catalog the fallback never fires, so the drawn rarity equals the weighted pick |
| `DropLog.DropOf` | app.py:82 | the stored row copies the drawn item's name, rarity and price; it has no contract of its own, and `CaseSite.Site.OpenCase` states the copy field by field |
| `DropLog.GroupByRarity` | app.py:96-98 | the `GROUP BY rarity` count, with groups in order of each rarity's first drop; it has no contract of its own, and its facts are `DropLog.GroupByRarityShape`, `DropLog.GroupByRarityCounts` and `DropLog.GroupByRaritySum` |
| `DropLog.BumpFacts` | app.py:96 | counting one more drop adds its rarity to the groups, keeps the groups distinct with positive counts, and raises that rarity's count and the total by one and nothing else |
| `DropLog.GroupByRarityShape` | app.py:96-98 | the groups cover exactly the rarities with at least one drop, each once, each with a positive count |
| `DropLog.GroupByRarityCounts` | app.py:96-98 | each rarity's group count is the number of drops of that rarity (its multiplicity in the rarity column) |
| `DropLog.GroupByRaritySum` | app.py:96-98 | the per-rarity counts add up to the total drop count |
| `DropLog.AppendDropCounts` | app.py:82-96 | storing one drop raises the count of its rarity by one and leaves every other rarity's count alone |
| `CsvUpload.CheckUpload` | app.py:105-121 | the upload is loaded if and only if there is a file, its name ends in `.csv`, it reads as a table and the table has `item_name`, `rarity` and `price`; the loaded rows are the table's rows; a missing file or wrong extension, an unreadable file and missing columns each give their own outcome |
| `CsvUpload.EmptyTableAccepted` | app.py:110-113 | a `.csv` file with the three columns and no rows is accepted and yields an empty catalog |
| `CaseSite.Site.constructor` | app.py:18-50 | the site starts with the default catalog, and its drop table holds the rows the database file already stores |
| `CaseSite.Site.Upload` | app.py:101-121 | the catalog is replaced by the uploaded rows exactly when the checks pass and is unchanged otherwise; the drop table is never changed |
| `CaseSite.Site.OpenCase` | app.py:78-86 | on a non-empty catalog, one draw is made and exactly one row is appended, copying the drawn item's name, rarity and price, and earlier rows are unchanged; on an empty catalog nothing is stored; the catalog is never changed |
| `CaseSite.Site.Home` | app.py:72-75 | the total is the number of stored drops |
| `CaseSite.Site.Inventory` | app.py:88-91 | the listing is every stored drop, in insertion order |
| `CaseSite.Site.Stats` | app.py:93-99 | one group per dropped rarity, each counting that rarity's drops, each positive, all adding up to the total |

## Left out

- Flask plumbing is not modelled: routing, the GET branches that only render forms, `render_template`, `flash` messages, `redirect`/`url_for` and `app.run`.
- SQLAlchemy and SQLite are not modelled. The drop table is an in-memory sequence, and the auto-assigned `id`, the `opened_at` UTC timestamp (a system clock read) and commit semantics are omitted. Storage failures are not modelled.
- Reading the stored rows from the database file at start-up is not modelled; `CaseSite.Site.constructor` receives them as a parameter.
- `pd.read_csv` and `to_dict` are not modelled. An upload arrives as the reader's outcome: a column set and rows already projected onto the three fields, or a read error. Extra columns, and rows with missing or ill-typed cells, are not represented.
- The distributions of `random.choices` and `random.choice` are not modelled, and neither are claims about convergence over many trials. Both random outcomes are inputs: the point `r` in `[0, 201)` and the candidate position `idx`.
- Prices are floats in the source and whole cents here. Weights are doubled to integers, with the same ratios. Floating-point rounding of `random() * total` is not modelled.
- `DropLog.GroupByRarity`: the groups come out in order of each rarity's first drop. The order of rows that the database returns for `GROUP BY` is not modelled.
- `CaseSite.Site.OpenCase`: the exception `random.choice` raises on an empty catalog (a server error) is modelled as the result `None`.
- Concurrency is not modelled, including a race between an upload and a draw in flight on the global catalog.
