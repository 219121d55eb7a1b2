# Food-bank inventory, modelled in Dafny

This project models the core of a small food-bank inventory program. Its parts:

- **Weight normaliser** (`format_unit`). It turns free-form weights such as "1l", "500 ml" or "8   fl oz" into a standard spelling, or rejects them.
- **Food-group normaliser** (`normalize_food_group`). It maps spellings such as "veggies" or " Oil " to one of eight canonical labels.
- **`Item` record.**
- **Inventory store**:
  - keys and adding and removing stock;
  - the listing and its two totals;
  - the sorted listing;
  - the two bookkeeping fields (current file, unsaved-changes flag);
  - saving the store as CSV records and loading them back.
- **Two-line settings file** (`load_config` / `save_config`).

Modules follow the program's files:

| module | file | models |
|---|---|---|
| `Wrappers` | `wrappers.dfy` | `Option` and `Result` |
| `Text` | `text.dfy` | ASCII versions of the Python `str` operations used: `lower`, `strip`, `split`/`join`, `replace`, `startswith`, `find`, `<` |
| `Numerals` | `numerals.dfy` | `str(int)` and `int(str)` |
| `Measurements` | `measurements.dfy` | `UNIT_MAP`, `format_unit` |
| `MeasurementExamples` | `measurement_examples.dfy` | the documented `format_unit` examples |
| `FoodGroups` | `food_groups.dfy` | `VARIATION_FOOD_GROUP_MAP`, `CANONICAL_FOOD_GROUPS`, `normalize_food_group` |
| `Items` | `items.dfy` | `Item(...)` |
| `InventoryStore` | `inventory.dfy` | `make_key`, the getters and setters, `add_item`, `remove_item`, `get_all_items`, the totals |
| `InventorySort` | `inventory_sort.dfy` | `get_sorted_items` |
| `InventoryCsv` | `inventory_csv.dfy` | `save_inventory_to_csv`, `load_inventory_from_csv` |
| `Config` | `config.dfy` | `load_config`, `save_config` |

Modelling choices:

- **The store.** Python's dict is a map that remembers insertion order. The store is therefore a sequence of distinct keys beside a map from key to item, plus the current file and the changed flag. Every operation is a pure function from store to store.
- **Errors.** Where the program raises, the model returns an error value: `Result` for `format_unit`, an outcome datatype for `remove_item` and for the load.
- **Files.** A file is given as its contents, or as the way opening or reading it fails.
- **CSV records.** The CSV file is modelled at the level of records (lists of fields). The csv module is taken to give back on reading the fields it was given on writing.
- **The settings file.** It is modelled as text, and is read by the line splitting `readlines` performs.

## Model

| member | source | states |
|---|---|---|
| Measurements.FormatUnit | measurements.py:42-84 | Blank input (after stripping and dropping commas) gives back the empty string. The input is rejected as invalid exactly when the cleaned text does not start with a digit or holds a line feed anywhere but at its very end. Otherwise the outcome is that of the parse: success or unknown unit. A success returns the matched number, one space and the unit's canonical label. |
| Measurements.ParseWeight | measurements.py:55-81 | Blank iff the cleaned input is empty. InvalidFormat iff the number pattern does not match. UnknownUnit implies the normalised unit is not a key of the table. A success carries the matched number and the table's label for the unit key. |
| Measurements.MatchNumber | measurements.py:63 | The regular expression matches iff the cleaned text starts with a digit and holds no line feed before its last character (`$` also matches before a final line feed). The two groups join back to the text without that final line feed. The first is a number, and the rest does not continue it with a digit (nor with a decimal part when the number has none). |
| Measurements.UnitMapValues | measurements.py:4-39 | The table's values are exactly the six canonical units, and each unit's lower-case spelling is a key mapping back to it. |
| Measurements.RenderReparses | measurements.py:74-84 | A rendered "number unit" parses back to the same number and unit, also once lower-cased. |
| Measurements.FormatUnitIdempotent | measurements.py:42-84 | Normalising an already normalised weight, or its lower-cased form, gives it back unchanged. |
| Measurements.FormatNumberThenUnit | measurements.py:70-84 | A number, optional whitespace, then a unit written with single spaces: the result is the number, one space, then the table's label. An unknown unit is rejected. |
| Measurements.ParseNumberThenUnit | measurements.py:55-81 | The same, stated for the parse of any input that cleans to that shape. |
| MeasurementExamples.LitreExample | measurements.py:48 | "1l" normalises to "1 L". |
| MeasurementExamples.MillilitresExample | measurements.py:49 | "500 ml" normalises to "500 mL". |
| MeasurementExamples.PoundsExample | measurements.py:50 | "2 lbs" normalises to "2 lb". |
| MeasurementExamples.FluidOuncesExample | measurements.py:51 | "8   fl oz" normalises to "8 fl oz". |
| MeasurementExamples.ThousandsExample | measurements.py:53-55 | Commas are dropped before parsing: "1,000 lb" normalises to "1000 lb". |
| MeasurementExamples.TrailingFeedExample | measurements.py:55-63 | "5 lb\n," cleans to text ending in a line feed, which still matches: it normalises to "5 lb". |
| MeasurementExamples.BareFeedExample | measurements.py:63-78 | "5\n," matches with an empty unit, so it is rejected as an unknown unit, not as invalid. |
| FoodGroups.NormalizeFoodGroup | food_groups.py:64-75 | The empty string gives None. Otherwise the result is Some iff the stripped, lower-cased input is a key of the table. Any result is one of the canonical labels. |
| FoodGroups.NormalizeBlank | food_groups.py:71-75 | Text made only of whitespace is not a food group. |
| FoodGroups.NormalizeIgnoresCase | food_groups.py:75 | Inputs that agree after lower-casing normalise alike. |
| FoodGroups.NormalizeIgnoresPadding | food_groups.py:75 | Surrounding whitespace does not change the result. |
| FoodGroups.NormalizeVariant | food_groups.py:75 | A padded, differently-cased spelling of a table key gives that key's label. |
| FoodGroups.CanonicalNormalizes | food_groups.py:61-75 | Every canonical label normalises to itself, as listed and lower-cased. |
| FoodGroups.CanonicalFoodGroupsSorted | food_groups.py:61 | The canonical list is strictly ascending in Python's string order, has no repeats, and holds exactly the table's values. It is the only sequence with these properties, i.e. it is `sorted(set(values))`. |
| FoodGroups.VeggiesExample | food_groups.py:23 | "veggies" normalises to "Vegetables". |
| Items.MakeItem | item.py:1-7 | The four text fields are lower-cased, keeping their length, and text already lower-case is kept. The quantity is stored as given. |
| Items.MakeItemIdempotent | item.py:3-7 | Building an item from an item's own fields gives the same item. |
| Items.MakeItemKeepsText | item.py:3-6 | In each of the four text fields only letter case changes: the length, the positions of whitespace and every non-capital character stay, so padded text stays padded and an empty field stays empty. |
| Numerals.IntToStringRoundTrip | inventory.py:233 | `int(str(n)) == n`, the quantity written to and read from the CSV file. |
| Numerals.CanonicalIntRoundTrip | inventory.py:170 | `str(int(t)) == t` for text in the form `str` writes. |
| Numerals.ParseInt | inventory.py:170 | `int()` accepts exactly an optional sign and digits once the whitespace it skips (space, \t \n \v \f \r) is removed from both ends. The sign of the result follows the text. |
| Numerals.ParseIntPadded | inventory.py:170 | `int()` ignores that whitespace at either end. |
| Numerals.ParseIntValue | inventory.py:170 | The value of every accepted text: leading zeros, then the digits of `n`, read as `n`; with `+` as `n`; with `-` as `-n` ("007" is 7, "+5" is 5, "-0" is 0). |
| Numerals.ParseIntSeparator | inventory.py:170 | A trailing \x1c, which `strip()` removes, still makes `int()` fail. |
| InventoryStore.MakeKey | inventory.py:17-19 | A key is made of lower-case fields, and a description already in lower case is its own key. |
| InventoryStore.MakeKeyIgnoresCase | inventory.py:17-19 | Descriptions differing only in letter case share a key. |
| InventoryStore.KeyOfMakeItem | inventory.py:53-60 | A new item is filed under its own description's key. |
| InventoryStore.EmptyInventory | inventory.py:6-12 | A new store is consistent and empty, has no file and has nothing unsaved. |
| InventoryStore.SetCurrentFile | inventory.py:24-26 | The current file becomes the given name; the items, their order and the flag stay. |
| InventoryStore.SetChanged | inventory.py:34-36 | The flag becomes the given value; the items, their order and the current file stay. |
| InventoryStore.GetSetFlags | inventory.py:24-41 | Each getter (`CurrentFile`, `Changed`) returns what its setter set, and each setter leaves the other field alone. |
| InventoryStore.AddItem | inventory.py:44-63 | A stocked item gains the quantity and keeps its place. A new item is appended with exactly that quantity. No other entry changes and the store is marked changed. |
| InventoryStore.RemoveItem | inventory.py:66-91 | Not stocked iff the key is absent. Insufficient iff more is asked than stocked. Both change nothing. Otherwise the stock drops by the quantity, an entry left at or below 0 is deleted from the map and the order, nothing else changes, and the store is marked changed. |
| InventoryStore.AddItemValid | inventory.py:44-63 | Adding keeps the store consistent: each key listed once in the order, each item filed under its own lower-cased key. |
| InventoryStore.RemoveItemValid | inventory.py:66-91 | Removing keeps the store consistent in the same sense. |
| InventoryStore.AllItemsInOrder | inventory.py:94-96 | `AllItems` lists, at each position, the item stored under the key at that position of the insertion order. |
| InventoryStore.AllItemsSize | inventory.py:94-112 | The listing has one entry per stored key, so its length is the unique-item count (`UniqueCount`). Every stored item is listed and every listed item is stored. |
| InventoryStore.TotalBoundsEachStock | inventory.py:99-107 | With no negative stock, `TotalQuantity` is not negative and no stored item holds more than the total. |
| InventoryStore.AllItemsNormalized | inventory.py:94-96 | Every listed item has lower-case fields. |
| InventoryStore.AddExistingTotals | inventory.py:56-57 | Restocking adds the quantity to the total and keeps the count. |
| InventoryStore.AddNewTotals | inventory.py:59-60 | A new item is listed last, adds its quantity to the total and one to the count. |
| InventoryStore.RemoveTotals | inventory.py:77-91 | A removal takes exactly the quantity off the total. It takes one off the count iff the entry's stock was exactly that quantity. A refused removal changes nothing. |
| InventoryStore.AddThenRemove | inventory.py:44-91 | Adding a lot and removing it again restores the total. It also restores the count unless the item was stocked at 0. A new item leaves the order and items exactly as before. Stated for stock that is not negative. |
| InventoryStore.AddThenRemoveNegative | inventory.py:44-84 | With negative stock, removing what was just added is refused as insufficient and the addition stays. |
| InventoryStore.RestockedGoesLast | inventory.py:59-88 | An item that runs out and is stocked again moves to the end of the listing. |
| InventorySort.ParseSortField | inventory.py:251-255 | The five accepted names select their attribute; anything else sorts by name. |
| InventorySort.SortCorrect | inventory.py:258-265 | The sort is a permutation, ordered by the key ascending or descending, and stable: items with equal keys keep insertion order in both directions. |
| InventorySort.SortedItems | inventory.py:243-265 | The sorted listing is a rearrangement of the store's items, ordered by the chosen attribute (the name for an unknown one). |
| InventorySort.SortedItemsCorrect | inventory.py:243-265 | The sorted listing holds exactly the store's items, ordered by the chosen attribute (the name for an unknown one), ties in insertion order. |
| InventorySort.WeightsCompareAsText | inventory.py:262 | Weights compare as text: "12 oz" sorts before "2 lb". |
| InventorySort.QuantitiesCompareAsNumbers | inventory.py:262 | Quantities compare as numbers: 2 before 12 ascending, 12 before 2 descending. |
| InventorySort.InsertStable | inventory.py:258-265 | Inserting an item puts it after every item with the same key. |
| InventoryCsv.Save | inventory.py:196-240 | An empty store writes nothing and keeps its flag. Otherwise the header is written, then for each listed item, in order, its record (name, container, food group, weight, quantity in decimal); the store counts as saved, and the current file is unchanged. |
| InventoryCsv.LastIndex | inventory.py:158-170 | A column lookup uses the last header position with that name, and None iff the name is absent. |
| InventoryCsv.Field | inventory.py:166-170 | A lookup succeeds iff the column exists and the row reaches it. The value is the row's field at the last column of that name. |
| InventoryCsv.ParseRow | inventory.py:166-170 | A row reads iff all five columns are found and the quantity is text `int()` accepts. The values read are those five fields, the quantity converted by `int()`. |
| InventoryCsv.LoadRowsFlags | inventory.py:164-177 | `LoadRows`, the row loop, completes iff every non-blank row reads. It leaves the store marked changed iff it was already, or a row was added before the first unreadable one. |
| InventoryCsv.LoadRowsValid | inventory.py:164-173 | `LoadRows` keeps the store consistent. |
| InventoryCsv.Load | inventory.py:149-193 | A missing file gives not-found and an unopenable one an unexpected error, both changing nothing. Success implies a complete read, nothing unsaved, and the file remembered. A malformed-CSV report comes from the csv reader only. Any failure keeps the current file. |
| InventoryCsv.Finish | inventory.py:177-193 | Success iff every row was read and the file ended. A csv error is reported as malformed. Anything else is unexpected and keeps what was added. |
| InventoryCsv.LoadStopsAtBadRow | inventory.py:164-193 | An unreadable row ends the load with an unexpected error, not "malformed". The rows before it stay loaded, the current file is kept, and the store is marked changed iff a row was added. |
| InventoryCsv.LoadSaveRoundTrip | inventory.py:149-240 | Loading what was saved, from any prior store, gives back the same items in the same order, with nothing unsaved and the file remembered. |
| InventoryCsv.ParseRecordOf | inventory.py:226-234 | A written record reads back, under the written header, as the item's own values. |
| InventoryCsv.LoadDuplicateRows | inventory.py:164-173 | Two rows for the same item load as one entry holding the summed quantity. |
| Config.ReadLinesConcat | config.py:17-18 | Joined back together, the lines read give the text itself: nothing is dropped or added. |
| Config.ReadLinesShape | config.py:17-18 | Every line read is non-empty, holds a newline only as its last character, and every line but the last ends with one. |
| Config.ConfigLinesInOrder | config.py:18-25 | `ConfigLines` works line by line: one line is kept, stripped, iff it is not blank, and the kept lines of two joined parts are each part's kept lines, in order. |
| Config.ConfigLinesMembers | config.py:18-25 | A line is kept iff it is non-empty and is the stripped form of some line read. |
| Config.AfterColon | config.py:35-38 | The value is what follows the first colon. |
| Config.Apply | config.py:34-38 | A name line sets the name; otherwise a file line sets the file. No line is both. |
| Config.LoadConfig | config.py:3-46 | A missing file gives neither setting, and any setting returned is non-empty and stripped. |
| Config.ScanFindsLast | config.py:32-38 | After `Scan`, the loop, each setting holds the value of the last line carrying its label, or its earlier value when none does. |
| Config.LoadConfigLastWins | config.py:16-46 | For an existing file, each setting is the value on its last non-blank line whose lower-cased text starts with the label. It is unset when there is no such line or the value is empty. |
| Config.BlankFile | config.py:25-29 | A file of whitespace only sets nothing. |
| Config.Written | config.py:57-58 | A value is written stripped, and an unset or empty one as nothing. |
| Config.SaveConfigLines | config.py:49-66 | `SaveConfig` writes two lines: the name label, a space and the written name with a line break, then the file label, a space and the written file name, when no value holds a line break. |
| Config.SaveLoadRoundTrip | config.py:49-70 | Loading what was saved gives back each value stripped, with an empty one unset, provided no value holds a line break. |

## Left out

- The menu, `main`, printing, `display_inventory`/`display_totals` and the `title()` display casing are user interface, not core logic.
- Real file I/O is left out. A file is a parameter: its text, or the way opening or reading it fails (`CsvSource`, `Option<string>`).
- Write errors are not modelled. In `save_inventory_to_csv` nothing catches them: the exception propagates and the flag stays set. `save_config` catches them and prints, which is not modelled either.
- CSV quoting and escaping are not modelled. The csv module is taken to return on reading exactly the fields written (the save records are the load records).
- Only `FileNotFoundError` is caught by `load_config`. Other open or decoding errors propagate and are not modelled.
- Universal-newline translation (`\r\n`, `\r`) on reading the settings file is not modelled: lines end at `\n` only. For this reason `Config.SaveLoadRoundTrip` requires values free of `\r` as well as `\n`.
- Strings are ASCII-modelled:
  - `lower`, `isspace` and `\d` are modelled on their ASCII behaviour;
  - Unicode case mapping, Unicode whitespace and non-ASCII digits are not covered;
  - `int()` underscores are not covered.
- `Item` is given an `int` quantity, as `add_item` always passes one; the conversion `int(quantity)` of other types is not modelled.
- InventoryStore.AddThenRemove: the count is restored only when the item was new or stocked above 0. The program itself deletes an entry stocked at 0 after adding and removing the same amount, so the weaker statement is the true one. The lemma also assumes the stock is not negative. A negative stock is reachable by loading a CSV row with a negative quantity, and then the removal is refused; `InventoryStore.AddThenRemoveNegative` states that case.
- The specification's "quantity is always positive" invariant is not stated, because the code does not enforce it: `add_item` stores zero or negative amounts. The model follows the code.
- Following the code, a load is not atomic. Items are cleared before the rows are read, and a row that cannot be read (missing column, short row, bad quantity) ends the load with an unexpected error, not "malformed CSV", leaving the rows before it loaded. `InventoryCsv.LoadStopsAtBadRow` states this.
