/** Saving the store as CSV records and loading it back, at the level of
    records: the csv module's quoting is taken to give back on reading the
    fields it was given on writing. */
module InventoryCsv {
  import opened Wrappers
  import opened Text
  import opened Numerals
  import opened Items
  import opened InventoryStore

  /** One CSV row: its fields in order. */
  type Record = seq<string>

  /** The column names, in the order the file is written. */
  const Header: Record := ["name", "container", "food_group", "weight", "quantity"]

  /** The row written for one item; the quantity in decimal. */
  function RecordOf(it: Item): (r: Record)
    ensures |r| == |Header|
  {
    [it.name, it.container, it.foodGroup, it.weight, IntToString(it.quantity)]
  }

  function RecordsOf(items: seq<Item>): (r: seq<Record>)
    ensures |r| == |items|
    ensures forall i :: 0 <= i < |items| ==> r[i] == RecordOf(items[i])
  {
    if items == [] then [] else [RecordOf(items[0])] + RecordsOf(items[1..])
  }

  lemma ItemsOfCons(ks: seq<Key>, m: map<Key, Item>)
    requires ks != [] && ks[0] in m
    ensures ItemsOf(ks, m) == [m[ks[0]]] + ItemsOf(ks[1..], m)
  {
  }

  /** `save_inventory_to_csv`: an empty store writes nothing and keeps its
      flag. Otherwise the header and one row per item, in insertion order,
      are written and the store counts as saved. The current file is not
      touched. */
  function Save(inv: Inventory): (r: (Inventory, Option<seq<Record>>))
    ensures |inv.items| == 0 <==> r.1.None?
    ensures r.1.None? ==> r.0 == inv
    ensures r.1.Some? ==> && !r.0.changed
                          && r.0.order == inv.order && r.0.items == inv.items
                          && r.0.currentFile == inv.currentFile
                          && |r.1.value| == |AllItems(inv)| + 1 && r.1.value[0] == Header
                          && forall i :: 0 <= i < |AllItems(inv)| ==> r.1.value[i + 1] == RecordOf(AllItems(inv)[i])
  {
    if |inv.items| == 0 then (inv, None)
    else (inv.(changed := false), Some([Header] + RecordsOf(AllItems(inv))))
  }

  /** How reading the file ends once the records listed have been read. */
  datatype StreamEnd =
    | Complete     // end of file
    | CsvFault     // the csv reader raises `csv.Error`
    | ReadFault    // any other error while reading (decoding, I/O)

  /** What `open` and the csv reader produce: the file is missing, cannot
      be opened for another reason, or yields records (the header first). */
  datatype CsvSource = Missing | Unopenable | Opened(records: seq<Record>, end: StreamEnd)

  /** The outcome of a load: success, `FileNotFoundError`, `ValueError`
      (malformed CSV) or `RuntimeError` (anything else). */
  datatype LoadOutcome = Loaded | NotFound | Malformed | Unexpected

  /** Position of the last column called `name`: the one a `DictReader`
      row keeps when names repeat. */
  function LastIndex(header: Record, name: string): (r: Option<nat>)
    ensures r.None? <==> name !in header
    ensures r.Some? ==> r.value < |header| && header[r.value] == name
                        && forall j :: r.value < j < |header| ==> header[j] != name
  {
    if header == [] then None
    else if header[|header| - 1] == name then Some(|header| - 1)
    else
      var r := LastIndex(header[..|header| - 1], name);
      assert header == header[..|header| - 1] + [header[|header| - 1]];
      r
  }

  /** `row[name]` on a `DictReader` row: `None` for an unknown column (a
      `KeyError`) and for a column the row is too short to reach (the
      reader's `None` filler). */
  function Field(header: Record, row: Record, name: string): (r: Option<string>)
    ensures r.Some? <==> name in header && LastIndex(header, name).value < |row|
    ensures r.Some? ==> r.value in row
    ensures r.Some? ==> r.value == row[LastIndex(header, name).value]
  {
    match LastIndex(header, name)
    case None => None
    case Some(i) => if i < |row| then Some(row[i]) else None
  }

  /** The values one data row supplies to `add_item`. */
  datatype RowValues = RowValues(name: string, container: string, foodGroup: string, weight: string, quantity: int)

  /** The five lookups and `int(quantity)`; `None` where any of them, or
      lower-casing a missing value, raises. */
  function ParseRow(header: Record, row: Record): (r: Option<RowValues>)
    ensures r.Some? <==>
              && Field(header, row, "name").Some? && Field(header, row, "container").Some?
              && Field(header, row, "food_group").Some? && Field(header, row, "weight").Some?
              && Field(header, row, "quantity").Some?
              && ParseInt(Field(header, row, "quantity").value).Some?
    ensures r.Some? ==>
              r.value == RowValues(Field(header, row, "name").value, Field(header, row, "container").value,
                                   Field(header, row, "food_group").value, Field(header, row, "weight").value,
                                   ParseInt(Field(header, row, "quantity").value).value)
  {
    match (Field(header, row, "name"), Field(header, row, "container"),
           Field(header, row, "food_group"), Field(header, row, "weight"),
           Field(header, row, "quantity"))
    case (Some(n), Some(c), Some(g), Some(w), Some(q)) =>
      (match ParseInt(q)
       case Some(v) => Some(RowValues(n, c, g, w, v))
       case None => None)
    case _ => None
  }

  /** `add_item` with one row's values. */
  function AddRow(st: Inventory, v: RowValues): Inventory {
    AddItem(st, v.name, v.container, v.foodGroup, v.weight, v.quantity)
  }

  /** The `for row in reader` loop: blank rows are skipped, every other row
      is added, and the first row that cannot be read stops the loop
      (`false`), leaving what was added before it. */
  function LoadRows(st: Inventory, header: Record, rows: seq<Record>): (r: (Inventory, bool))
    ensures r.0.currentFile == st.currentFile
    decreases |rows|
  {
    if rows == [] then (st, true)
    else if rows[0] == [] then LoadRows(st, header, rows[1..])
    else match ParseRow(header, rows[0])
      case None => (st, false)
      case Some(v) => LoadRows(AddRow(st, v), header, rows[1..])
  }

  /** The loop keeps the store consistent. */
  lemma {:induction false} LoadRowsValid(st: Inventory, header: Record, rows: seq<Record>)
    requires Valid(st)
    ensures Valid(LoadRows(st, header, rows).0)
    decreases |rows|
  {
    if rows != [] {
      if rows[0] == [] {
        LoadRowsValid(st, header, rows[1..]);
      } else if ParseRow(header, rows[0]).Some? {
        var v := ParseRow(header, rows[0]).value;
        AddItemValid(st, v.name, v.container, v.foodGroup, v.weight, v.quantity);
        LoadRowsValid(AddRow(st, v), header, rows[1..]);
      }
    }
  }

  /** The loop runs to the end exactly when every non-blank row can be read,
      and it marks the store changed exactly when it added a row before
      stopping. */
  lemma LoadRowsFlags(st: Inventory, header: Record, rows: seq<Record>)
    ensures LoadRows(st, header, rows).1 <==> forall i :: 0 <= i < |rows| && rows[i] != [] ==> ParseRow(header, rows[i]).Some?
    ensures LoadRows(st, header, rows).0.changed == (st.changed || exists i :: 0 <= i < FirstBad(header, rows) && rows[i] != [])
  {
    LoadRowsCompletes(st, header, rows);
    LoadRowsChanged(st, header, rows);
  }

  /** Every non-blank row reads. */
  predicate AllReadable(header: Record, rows: seq<Record>) {
    forall i :: 0 <= i < |rows| && rows[i] != [] ==> ParseRow(header, rows[i]).Some?
  }

  lemma AllReadableCons(header: Record, rows: seq<Record>)
    requires rows != []
    ensures AllReadable(header, rows)
            <==> (rows[0] == [] || ParseRow(header, rows[0]).Some?) && AllReadable(header, rows[1..])
  {
    var t := rows[1..];
    if AllReadable(header, rows) {
      forall i | 0 <= i < |t| && t[i] != [] ensures ParseRow(header, t[i]).Some? {
        assert t[i] == rows[i + 1];
      }
    }
    if (rows[0] == [] || ParseRow(header, rows[0]).Some?) && AllReadable(header, t) {
      forall i | 0 <= i < |rows| && rows[i] != [] ensures ParseRow(header, rows[i]).Some? {
        if i > 0 {
          assert rows[i] == t[i - 1];
        }
      }
    }
  }

  lemma {:induction false} LoadRowsCompletes(st: Inventory, header: Record, rows: seq<Record>)
    ensures LoadRows(st, header, rows).1 <==> AllReadable(header, rows)
    decreases |rows|
  {
    if rows != [] {
      AllReadableCons(header, rows);
      if rows[0] == [] {
        LoadRowsCompletes(st, header, rows[1..]);
      } else if ParseRow(header, rows[0]).Some? {
        LoadRowsCompletes(AddRow(st, ParseRow(header, rows[0]).value), header, rows[1..]);
      }
    }
  }

  lemma {:induction false} LoadRowsChanged(st: Inventory, header: Record, rows: seq<Record>)
    ensures LoadRows(st, header, rows).0.changed == (st.changed || exists i :: 0 <= i < FirstBad(header, rows) && rows[i] != [])
    decreases |rows|
  {
    if rows != [] {
      var t := rows[1..];
      assert forall i :: 1 <= i < |rows| ==> rows[i] == t[i - 1];
      if rows[0] == [] {
        LoadRowsChanged(st, header, t);
        FirstBadStep(header, rows);
      } else if ParseRow(header, rows[0]).Some? {
        var v := ParseRow(header, rows[0]).value;
        var st' := AddRow(st, v);
        assert LoadRows(st, header, rows) == LoadRows(st', header, t);
        assert st'.changed;
        LoadRowsChanged(st', header, t);
        FirstBadStep(header, rows);
        assert 0 < FirstBad(header, rows);
      }
    }
  }

  /** Index of the first non-blank row that cannot be read (`|rows|` when
      there is none). */
  function FirstBad(header: Record, rows: seq<Record>): (j: nat)
    ensures j <= |rows|
    ensures forall i :: 0 <= i < j && rows[i] != [] ==> ParseRow(header, rows[i]).Some?
    ensures j < |rows| ==> rows[j] != [] && ParseRow(header, rows[j]).None?
    decreases |rows|
  {
    if rows == [] then 0
    else if rows[0] != [] && ParseRow(header, rows[0]).None? then 0
    else 1 + FirstBad(header, rows[1..])
  }

  lemma FirstBadStep(header: Record, rows: seq<Record>)
    requires rows != [] && (rows[0] == [] || ParseRow(header, rows[0]).Some?)
    ensures FirstBad(header, rows) == 1 + FirstBad(header, rows[1..])
  {
  }

  /** `load_inventory_from_csv`. A file that cannot be opened changes
      nothing. Otherwise the items are cleared before the first record is
      read and the rows are added one by one; the changed flag and the
      current file are set only when every row was read and the file ended
      normally. A failure after that point keeps what was added. */
  function Load(inv: Inventory, filename: string, src: CsvSource): (r: (Inventory, LoadOutcome))
    ensures src == Missing ==> r == (inv, NotFound)
    ensures src == Unopenable ==> r == (inv, Unexpected)
    ensures r.1 == Loaded ==> src.Opened? && src.end == Complete
                              && !r.0.changed && r.0.currentFile == Some(filename)
    ensures r.1 == Malformed ==> src.Opened? && src.end == CsvFault
    ensures r.1 != Loaded ==> r.0.currentFile == inv.currentFile
    ensures src.Opened? ==> Valid(r.0)
    ensures Valid(inv) ==> Valid(r.0)
  {
    match src
    case Missing => (inv, NotFound)
    case Unopenable => (inv, Unexpected)
    case Opened(records, end) =>
      var header := if records == [] then [] else records[0];
      var rows := if records == [] then [] else records[1..];
      var r := LoadRows(Cleared(inv), header, rows);
      LoadRowsValid(Cleared(inv), header, rows);
      Finish(r.0, r.1, end, filename)
  }

  /** The store with its items cleared, flag and file kept. */
  function Cleared(inv: Inventory): (r: Inventory)
    ensures Valid(r) && r.items == map[] && r.order == []
    ensures r.changed == inv.changed && r.currentFile == inv.currentFile
  {
    inv.(order := [], items := map[])
  }

  /** After the loop: a bad row or a reading error is reported; a file read
      to its end marks the store saved and remembers the file. */
  function Finish(st: Inventory, ok: bool, end: StreamEnd, filename: string): (r: (Inventory, LoadOutcome))
    ensures r.1 == Loaded <==> ok && end == Complete
    ensures r.1 == Malformed <==> ok && end == CsvFault
    ensures r.1 == Loaded ==> r.0 == st.(changed := false, currentFile := Some(filename))
    ensures r.1 != Loaded ==> r.0 == st && r.1 != NotFound
  {
    if !ok then (st, Unexpected)
    else match end
      case Complete => (st.(changed := false, currentFile := Some(filename)), Loaded)
      case CsvFault => (st, Malformed)
      case ReadFault => (st, Unexpected)
  }

  /** Loading opened records: the first is the header, the rest are rows. */
  lemma LoadOpened(inv: Inventory, filename: string, header: Record, rows: seq<Record>, end: StreamEnd)
    ensures var r := LoadRows(Cleared(inv), header, rows);
            Load(inv, filename, Opened([header] + rows, end)) == Finish(r.0, r.1, end, filename)
  {
    assert ([header] + rows)[1..] == rows;
  }

  /** A bad row (an unknown column, a missing value, a quantity `int`
      rejects) ends the load with `RuntimeError`, not "malformed CSV": the
      rows before it stay loaded, the current file is unchanged, and the
      changed flag is set if any row was added. */
  lemma LoadStopsAtBadRow(inv: Inventory, filename: string, header: Record, rows: seq<Record>, end: StreamEnd, j: nat)
    requires j < |rows| && rows[j] != [] && ParseRow(header, rows[j]).None?
    requires forall i :: 0 <= i < j && rows[i] != [] ==> ParseRow(header, rows[i]).Some?
    ensures var r := Load(inv, filename, Opened([header] + rows, end));
            && r.1 == Unexpected
            && r.0 == LoadRows(Cleared(inv), header, rows[..j]).0
            && r.0.currentFile == inv.currentFile
            && r.0.changed == (inv.changed || exists i :: 0 <= i < j && rows[i] != [])
  {
    var cleared := Cleared(inv);
    LoadOpened(inv, filename, header, rows, end);
    LoadRowsPrefix(cleared, header, rows, j);
    FirstBadIs(header, rows, j);
    LoadRowsFlags(cleared, header, rows);
  }

  lemma {:induction false} FirstBadIs(header: Record, rows: seq<Record>, j: nat)
    requires j < |rows| && rows[j] != [] && ParseRow(header, rows[j]).None?
    requires forall i :: 0 <= i < j && rows[i] != [] ==> ParseRow(header, rows[i]).Some?
    ensures FirstBad(header, rows) == j
    decreases j
  {
    if j > 0 {
      FirstBadIs(header, rows[1..], j - 1);
    }
  }

  /** Up to the first bad row, the loop does what it does on the prefix. */
  lemma {:induction false} LoadRowsPrefix(st: Inventory, header: Record, rows: seq<Record>, j: nat)
    requires j < |rows| && rows[j] != [] && ParseRow(header, rows[j]).None?
    requires forall i :: 0 <= i < j && rows[i] != [] ==> ParseRow(header, rows[i]).Some?
    ensures !LoadRows(st, header, rows).1
    ensures LoadRows(st, header, rows).0 == LoadRows(st, header, rows[..j]).0
    decreases j
  {
    if j > 0 {
      PrefixTail(rows, j);
      if rows[0] == [] {
        LoadRowsPrefix(st, header, rows[1..], j - 1);
      } else {
        var v := ParseRow(header, rows[0]).value;
        LoadRowsPrefix(AddRow(st, v), header, rows[1..], j - 1);
      }
    }
  }

  lemma HeadAndTail(rows: seq<Record>)
    requires rows != []
    ensures rows == [rows[0]] + rows[1..]
  {
  }

  lemma PrefixTail(rows: seq<Record>, j: nat)
    requires 0 < j <= |rows|
    ensures rows[..j][1..] == rows[1..][..j - 1]
  {
  }

  // Round trip: loading what was saved rebuilds the store.

  lemma HeaderLookups()
    ensures LastIndex(Header, "name") == Some(0)
    ensures LastIndex(Header, "container") == Some(1)
    ensures LastIndex(Header, "food_group") == Some(2)
    ensures LastIndex(Header, "weight") == Some(3)
    ensures LastIndex(Header, "quantity") == Some(4)
  {
  }

  /** A written row reads back as the item's own values. */
  lemma ParseRecordOf(it: Item)
    ensures ParseRow(Header, RecordOf(it))
            == Some(RowValues(it.name, it.container, it.foodGroup, it.weight, it.quantity))
  {
    HeaderLookups();
    IntToStringRoundTrip(it.quantity);
  }

  /** The items of `m` under the keys listed in `ks`. */
  function Restrict(ks: seq<Key>, m: map<Key, Item>): map<Key, Item> {
    map k | k in ks && k in m :: m[k]
  }

  /** The values the row written for `it` supplies. */
  function ValuesOf(it: Item): RowValues {
    RowValues(it.name, it.container, it.foodGroup, it.weight, it.quantity)
  }

  function ValuesOfAll(items: seq<Item>): (r: seq<RowValues>)
    ensures |r| == |items|
    ensures forall i :: 0 <= i < |items| ==> r[i] == ValuesOf(items[i])
  {
    if items == [] then [] else [ValuesOf(items[0])] + ValuesOfAll(items[1..])
  }

  /** `add_item` for each of `vs` in turn. */
  function AddAll(st: Inventory, vs: seq<RowValues>): Inventory
    decreases |vs|
  {
    if vs == [] then st else AddAll(AddRow(st, vs[0]), vs[1..])
  }

  /** Rows that all read, one to one, as `vs` load as adding `vs`. */
  lemma {:induction false} LoadRowsAll(st: Inventory, header: Record, rows: seq<Record>, vs: seq<RowValues>)
    requires |rows| == |vs|
    requires forall i :: 0 <= i < |rows| ==> ParseRow(header, rows[i]) == Some(vs[i])
    ensures LoadRows(st, header, rows) == (AddAll(st, vs), true)
    decreases |rows|
  {
    if rows != [] {
      var t := rows[1..];
      assert LoadRows(st, header, rows) == LoadRows(AddRow(st, vs[0]), header, t) by {
        HeadAndTail(rows);
        LoadRowsCons(st, header, rows[0], t, vs[0]);
      }
      ParsedTail(header, rows, vs);
      LoadRowsAll(AddRow(st, vs[0]), header, t, vs[1..]);
    }
  }

  /** Rows reading one to one as `vs` still do once the first is dropped. */
  lemma ParsedTail(header: Record, rows: seq<Record>, vs: seq<RowValues>)
    requires |rows| == |vs| && rows != []
    requires forall i :: 0 <= i < |rows| ==> ParseRow(header, rows[i]) == Some(vs[i])
    ensures forall i :: 0 <= i < |rows| - 1 ==> ParseRow(header, rows[1..][i]) == Some(vs[1..][i])
  {
    forall i | 0 <= i < |rows| - 1
      ensures ParseRow(header, rows[1..][i]) == Some(vs[1..][i])
    {
      assert rows[1..][i] == rows[i + 1] && vs[1..][i] == vs[i + 1];
    }
  }

  /** Adding the items under `ks`, whose keys are new, appends `ks` to the
      order and files each item under its key. */
  lemma {:induction false} AddAllFresh(st: Inventory, ks: seq<Key>, m: map<Key, Item>)
    requires Distinct(ks)
    requires forall k :: k in ks ==> k !in st.order && k in m && KeyOf(m[k]) == k && IsNormalizedKey(k)
    requires st.items == Restrict(st.order, m)
    ensures var r := AddAll(st, ValuesOfAll(ItemsOf(ks, m)));
            r.order == st.order + ks && r.items == Restrict(st.order + ks, m)
    decreases |ks|
  {
    var vs := ValuesOfAll(ItemsOf(ks, m));
    if ks == [] {
      assert st.order + ks == st.order;
      assert vs == [];
    } else {
      var k := ks[0];
      ItemsOfCons(ks, m);
      assert vs == [ValuesOf(m[k])] + ValuesOfAll(ItemsOf(ks[1..], m));
      AddFresh(st, k, m, ValuesOfAll(ItemsOf(ks[1..], m)));
      RestrictExtend(st.order, k, m);
      var st' := st.(order := st.order + [k], items := st.items[k := m[k]], changed := true);
      TailFresh(ks, st.order);
      AddAllFresh(st', ks[1..], m);
      var r := AddAll(st', ValuesOfAll(ItemsOf(ks[1..], m)));
      assert AddAll(st, vs) == r;
      AppendHead(st.order, ks);
    }
  }

  lemma AppendHead(a: seq<Key>, ks: seq<Key>)
    requires ks != []
    ensures a + ks == (a + [ks[0]]) + ks[1..]
  {
  }

  /** The keys after the first are distinct and new even once the first
      is listed. */
  lemma TailFresh(ks: seq<Key>, order: seq<Key>)
    requires ks != [] && Distinct(ks)
    requires forall x :: x in ks ==> x !in order
    ensures Distinct(ks[1..])
    ensures forall x :: x in ks[1..] ==> x in ks && x !in order + [ks[0]]
  {
    var t := ks[1..];
    forall i, j | 0 <= i < j < |t| ensures t[i] != t[j] {
      assert t[i] == ks[i + 1] && t[j] == ks[j + 1];
    }
    forall x | x in t ensures x in ks && x !in order + [ks[0]] {
      var i :| 0 <= i < |t| && t[i] == x;
      assert ks[i + 1] == x;
    }
  }

  /** Adding the row of an item whose key is not yet listed appends the key
      and files the item itself. */
  lemma AddFresh(st: Inventory, k: Key, m: map<Key, Item>, rest: seq<RowValues>)
    requires k in m && KeyOf(m[k]) == k && IsNormalizedKey(k) && k !in st.order
    requires st.items == Restrict(st.order, m)
    ensures AddAll(st, [ValuesOf(m[k])] + rest)
            == AddAll(st.(order := st.order + [k], items := st.items[k := m[k]], changed := true), rest)
  {
    var it := m[k];
    assert MakeKey(it.name, it.container, it.foodGroup, it.weight) == k;
    assert k !in st.items;
    RebuildItem(it);
    assert AddRow(st, ValuesOf(it)) == st.(order := st.order + [k], items := st.items[k := it], changed := true);
    assert ([ValuesOf(it)] + rest)[1..] == rest;
  }

  lemma RestrictExtend(order: seq<Key>, k: Key, m: map<Key, Item>)
    requires k in m
    ensures Restrict(order, m)[k := m[k]] == Restrict(order + [k], m)
  {
  }

  /** Loading a saved store, complete and unaltered, gives back the same
      items in the same order, marked saved and tied to the file it was
      loaded from. */
  lemma LoadSaveRoundTrip(s: Inventory, any: Inventory, filename: string)
    requires Valid(s) && |s.items| > 0
    ensures Save(s).1.Some?
    ensures Load(any, filename, Opened(Save(s).1.value, Complete))
            == (s.(changed := false, currentFile := Some(filename)), Loaded)
  {
    LoadWritten(any, filename, AllItems(s));
    RebuildStore(s, Cleared(any));
  }

  /** Reading back the header and the rows written for `items` adds the
      items in turn to the cleared store. */
  lemma LoadWritten(any: Inventory, filename: string, items: seq<Item>)
    ensures Load(any, filename, Opened([Header] + RecordsOf(items), Complete))
            == Finish(AddAll(Cleared(any), ValuesOfAll(items)), true, Complete, filename)
  {
    var rows := RecordsOf(items);
    LoadOpened(any, filename, Header, rows, Complete);
    forall i | 0 <= i < |rows|
      ensures ParseRow(Header, rows[i]) == Some(ValuesOfAll(items)[i])
    {
      ParseRecordOf(items[i]);
    }
    LoadRowsAll(Cleared(any), Header, rows, ValuesOfAll(items));
  }

  /** Adding a consistent store's items, in its order, to an empty store
      rebuilds its order and items. */
  lemma RebuildStore(s: Inventory, empty: Inventory)
    requires Valid(s) && empty.order == [] && empty.items == map[]
    ensures AddAll(empty, ValuesOfAll(AllItems(s))).order == s.order
    ensures AddAll(empty, ValuesOfAll(AllItems(s))).items == s.items
  {
    assert empty.items == Restrict([], s.items) by {
      RestrictNone(s.items);
    }
    var r := AddAll(empty, ValuesOfAll(ItemsOf(s.order, s.items)));
    assert r.order == s.order && r.items == Restrict(s.order, s.items) by {
      AddAllFresh(empty, s.order, s.items);
      AppendToEmpty(s.order);
    }
    RestrictToOrder(s);
  }

  lemma RestrictNone(m: map<Key, Item>)
    ensures Restrict([], m) == map[]
  {
  }

  lemma AppendToEmpty(ks: seq<Key>)
    ensures [] + ks == ks
  {
  }

  /** A consistent store's map holds exactly the keys of its order. */
  lemma RestrictToOrder(s: Inventory)
    requires Valid(s)
    ensures Restrict(s.order, s.items) == s.items
  {
  }

  /** Two rows for the same item load as one entry holding the sum. */
  lemma LoadDuplicateRows(inv: Inventory, filename: string, row: Record, v: RowValues)
    requires ParseRow(Header, row) == Some(v)
    ensures var r := Load(inv, filename, Opened([Header, row, row], Complete));
            var k := MakeKey(v.name, v.container, v.foodGroup, v.weight);
            && r.1 == Loaded
            && r.0.order == [k]
            && r.0.items.Keys == {k}
            && r.0.items[k].quantity == 2 * v.quantity
  {
    var b := AddRow(AddRow(Cleared(inv), v), v);
    assert Load(inv, filename, Opened([Header, row, row], Complete))
           == (b.(changed := false, currentFile := Some(filename)), Loaded) by {
      TwoRows(Cleared(inv), row, v);
      RowsAfterHeader(row);
      LoadOpened(inv, filename, Header, [row, row], Complete);
    }
    AddTwice(Cleared(inv), v);
  }

  lemma RowsAfterHeader(row: Record)
    ensures [Header, row, row] == [Header] + [row, row]
  {
  }

  /** The same row added twice to an empty store: one entry, twice the
      quantity. */
  lemma AddTwice(st: Inventory, v: RowValues)
    requires st.order == [] && st.items == map[]
    ensures var b := AddRow(AddRow(st, v), v);
            var k := MakeKey(v.name, v.container, v.foodGroup, v.weight);
            b.order == [k] && b.items.Keys == {k} && b.items[k].quantity == 2 * v.quantity
  {
    var k := MakeKey(v.name, v.container, v.foodGroup, v.weight);
    var a := AddRow(st, v);
    assert a.order == [k] && a.items.Keys == {k} && a.items[k].quantity == v.quantity by {
      AddNewForm(st, v.name, v.container, v.foodGroup, v.weight, v.quantity);
    }
    AddStockedForm(a, v.name, v.container, v.foodGroup, v.weight, v.quantity);
  }

  lemma TwoRows(st: Inventory, row: Record, v: RowValues)
    requires ParseRow(Header, row) == Some(v)
    ensures LoadRows(st, Header, [row, row]) == (AddRow(AddRow(st, v), v), true)
  {
    var a := AddRow(st, v);
    assert LoadRows(st, Header, [row, row]) == LoadRows(a, Header, [row]) by {
      PairOfRows(row);
      LoadRowsCons(st, Header, row, [row], v);
    }
    assert LoadRows(a, Header, [row]) == LoadRows(AddRow(a, v), Header, []) by {
      PairOfRows(row);
      LoadRowsCons(a, Header, row, [], v);
    }
  }

  lemma PairOfRows(row: Record)
    ensures [row, row] == [row] + [row] && [row] == [row] + []
  {
  }

  /** A readable row is added, then the loop goes on. */
  lemma LoadRowsCons(st: Inventory, header: Record, row: Record, rest: seq<Record>, v: RowValues)
    requires ParseRow(header, row) == Some(v)
    ensures LoadRows(st, header, [row] + rest) == LoadRows(AddRow(st, v), header, rest)
  {
    assert row != [];
    assert ([row] + rest)[1..] == rest;
  }
}
