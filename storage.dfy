/**
 * The versioned store: `readFin`, `readCats` and `saveAll`. Storage holds the
 * v2 keys `pwa_fin_rows_v2` / `pwa_fin_cats_v2` and the legacy v1 keys
 * `pwa_fin_rows_v1` / `pwa_fin_cats_v1`. JSON text is abstract here: a v2 slot
 * holds already-parsed v2 records, a v1 slot holds what `JSON.parse` made of
 * the legacy text.
 */
module Storage {
  import opened Records
  import opened Text
  import Ledger

  /** What a v1 key yields: nothing (absent or empty string), text that
      `JSON.parse` rejects, a parsed value that is not an array, or an array. */
  datatype Legacy<T> = Missing | Unparseable | NotArray | Items(items: seq<T>)

  /** A v1 ledger row. Absent string fields are "", absent numbers are 0 (both
      falsy, as `undefined` is), an absent or null id is None (`??` tests only
      for null/undefined). */
  datatype LegacyRow = LegacyRow(
    id: Option<int>,
    date: string,
    desc: string,
    description: string,
    cat: string,
    category: string,
    subcategory: string,
    kind: string,
    value: int,
    val: int)

  datatype Store = Store(
    finV2: Option<seq<Txn>>,
    catV2: Option<seq<Category>>,
    finV1: Legacy<LegacyRow>,
    catV1: Legacy<string>)

  /** The mapper of `readFin` for the row at position `i`; `today` stands for
      `new Date().toISOString().slice(0, 10)`. */
  function MigrateRow(r: LegacyRow, i: nat, today: string): Txn
  {
    Txn(
      id := match r.id case Some(n) => n case None => i + 1,
      date := Or(r.date, today),
      desc := Or(r.desc, Or(r.description, "")),
      category := Or(r.cat, Or(r.category, OUTROS)),
      subcategory := if r.subcategory != "" then Some(r.subcategory) else None,
      kind := Or(r.kind, SAIDA),
      value := if r.value != 0 then r.value else r.val)
  }

  /** What a legacy element that is a number, string, boolean or array
      reads as: every field `undefined`, so every default applies. */
  const NON_OBJECT_ROW := LegacyRow(None, "", "", "", "", "", "", "", 0, 0)

  /** `rows.map((r, i) => ...)`. */
  function MigrateRows(rows: seq<LegacyRow>, today: string): (m: seq<Txn>)
    ensures |m| == |rows|
  {
    seq(|rows|, i requires 0 <= i < |rows| => MigrateRow(rows[i], i, today))
  }

  /** `arr.map(n => ({name: n, subcats: []}))`. */
  function WrapNames(names: seq<string>): (cats: seq<Category>)
    ensures Names(cats) == names
    ensures forall i :: 0 <= i < |cats| ==> cats[i].subcats == []
  {
    seq(|names|, i requires 0 <= i < |names| => Category(names[i], []))
  }

  /** `readFin()`: the rows it returns and the store after it. */
  function ReadFin(s: Store, today: string): (seq<Txn>, Store)
  {
    match s.finV2
    case Some(rows) => (rows, s)
    case None =>
      match s.finV1
      case Items(rs) =>
        var mapped := MigrateRows(rs, today);
        (mapped, s.(finV2 := Some(mapped)))
      case _ => ([], s)
  }

  /** `readCats()`: the categories it returns and the store after it. */
  function ReadCats(s: Store): (seq<Category>, Store)
  {
    match s.catV2
    case Some(cats) => (cats, s)
    case None =>
      match s.catV1
      case Items(ns) =>
        var mapped := WrapNames(ns);
        (mapped, s.(catV2 := Some(mapped)))
      case NotArray => ([], s.(catV2 := Some([])))
      case _ => (DEFAULT_CATS, s.(catV2 := Some(DEFAULT_CATS)))
  }

  /** `saveAll()`: both v2 keys are written together. */
  function SaveAll(s: Store, fin: seq<Txn>, cats: seq<Category>): Store
  {
    s.(finV2 := Some(fin), catV2 := Some(cats))
  }

  /** The store reflects the in-memory state: reloading gives it back. Either
      the v2 ledger key holds `fin`, or it was never written because there was
      nothing to migrate and `fin` is empty. */
  predicate Durable(s: Store, fin: seq<Txn>, cats: seq<Category>)
  {
    && (s.finV2 == Some(fin) || (s.finV2 == None && fin == [] && !s.finV1.Items?))
    && s.catV2 == Some(cats)
  }

  // ---------------------------------------------------------------------------
  // Properties

  /** Migration maps legacy rows one to one, in order, with the documented
      defaults: id `i+1`, category "Outros", type "Saída", value 0, date today,
      no subcategory. Every migrated row has a non-empty category and type. */
  lemma MigrateRowsSpec(rows: seq<LegacyRow>, today: string)
    ensures var m := MigrateRows(rows, today);
      && |m| == |rows|
      && forall i :: 0 <= i < |rows| ==>
           && (rows[i].id.None? ==> m[i].id == i + 1)
           && (rows[i].id.Some? ==> m[i].id == rows[i].id.value)
           && (rows[i].cat == "" && rows[i].category == "" ==> m[i].category == OUTROS)
           && (rows[i].cat != "" ==> m[i].category == rows[i].cat)
           && (rows[i].cat == "" && rows[i].category != "" ==> m[i].category == rows[i].category)
           && (rows[i].kind == "" ==> m[i].kind == SAIDA)
           && (rows[i].kind != "" ==> m[i].kind == rows[i].kind)
           && (rows[i].value != 0 ==> m[i].value == rows[i].value)
           && (rows[i].value == 0 ==> m[i].value == rows[i].val)
           && (rows[i].date == "" ==> m[i].date == today)
           && (rows[i].date != "" ==> m[i].date == rows[i].date)
           && (rows[i].desc != "" ==> m[i].desc == rows[i].desc)
           && (rows[i].desc == "" ==> m[i].desc == rows[i].description)
           && (rows[i].subcategory == "" <==> m[i].subcategory == None)
           && (rows[i].subcategory != "" ==> m[i].subcategory == Some(rows[i].subcategory))
           && m[i].category != "" && m[i].kind != ""
  {
  }

  /** A legacy element that is not an object migrates to the all-defaults
      row at its position. */
  lemma NonObjectRowMigrates(i: nat, today: string)
    ensures MigrateRow(NON_OBJECT_ROW, i, today) == Txn(i + 1, today, "", OUTROS, None, SAIDA, 0)
  {
  }

  /** Legacy rows without ids get distinct ids 1..n. */
  lemma MigratedIdsDistinct(rows: seq<LegacyRow>, today: string)
    requires forall i :: 0 <= i < |rows| ==> rows[i].id.None?
    ensures var m := MigrateRows(rows, today);
      forall i, j :: 0 <= i < j < |m| ==> m[i].id != m[j].id
  {
  }

  /** The v2 ledger key wins: once it is written, the v1 key is never
      consulted and nothing is written. */
  lemma ReadFinPrefersV2(s: Store, legacy: Legacy<LegacyRow>, today: string)
    requires s.finV2.Some?
    ensures ReadFin(s, today) == (s.finV2.value, s)
    ensures ReadFin(s.(finV1 := legacy), today).0 == ReadFin(s, today).0
  {
  }

  /** The ledger read without a v2 key: a v1 array is migrated and written
      under the v2 key; anything else (absent, unparseable, not an array)
      yields no rows and writes nothing. The taxonomy keys are not touched. */
  lemma ReadFinSpec(s: Store, today: string)
    requires s.finV2.None?
    ensures var (rows, s1) := ReadFin(s, today);
      && (s.finV1.Items? ==> rows == MigrateRows(s.finV1.items, today) && s1 == s.(finV2 := Some(rows)))
      && (!s.finV1.Items? ==> rows == [] && s1 == s)
      && s1.catV2 == s.catV2 && s1.catV1 == s.catV1 && s1.finV1 == s.finV1
  {
  }

  /** `r.id ?? i+1` ignores the ids other rows carry: a legacy row with id 2
      followed by one without an id gives two migrated rows with id 2, so
      removing id 2 afterwards removes both. */
  lemma MixedIdsCollide(a: LegacyRow, b: LegacyRow, today: string)
    requires a.id == Some(2) && b.id == None
    ensures var m := MigrateRows([a, b], today);
            |m| == 2 && m[0].id == m[1].id == 2 && Ledger.RemoveById(m, 2) == []
  {
    var m := MigrateRows([a, b], today);
    assert m == [m[0], m[1]];
    assert Ledger.RemoveById([m[1]], 2) == [];
  }

  /** Reading the ledger twice gives the same rows and the same store: the
      first read migrates at most once, and the second, whatever its date,
      re-reads what the first wrote. */
  lemma ReadFinIdempotent(s: Store, today: string, later: string)
    ensures var (rows, s1) := ReadFin(s, today);
            ReadFin(s1, later) == (rows, s1)
  {
  }

  /** Reading the taxonomy always leaves the v2 key written, and reading again
      gives the same categories and store. */
  lemma ReadCatsIdempotent(s: Store)
    ensures var (cats, s1) := ReadCats(s);
            s1.catV2 == Some(cats) && ReadCats(s1) == (cats, s1)
  {
  }

  /** The taxonomy read: the v2 key if present, else the wrapped v1 names, else
      an empty list for a non-array v1 value, else the seed. */
  lemma ReadCatsSpec(s: Store)
    ensures var (cats, s1) := ReadCats(s);
      && (s.catV2.Some? ==> cats == s.catV2.value && s1 == s)
      && (s.catV2.None? && s.catV1.Items? ==> Names(cats) == s.catV1.items && forall i :: 0 <= i < |cats| ==> cats[i].subcats == [])
      && (s.catV2.None? && s.catV1.NotArray? ==> cats == [])
      && (s.catV2.None? && (s.catV1.Missing? || s.catV1.Unparseable?) ==> cats == DEFAULT_CATS && HasCategory(cats, OUTROS))
      && s1.finV2 == s.finV2 && s1.finV1 == s.finV1 && s1.catV1 == s.catV1
  {
    DefaultCatsWellFormed();
  }

  /** Legacy category names `["Casa", "Carro"]` with no v2 key become two
      categories without subcategories, written under the v2 key. */
  lemma LegacyCatsScenario(s: Store)
    requires s.catV2 == None && s.catV1 == Items(["Casa", "Carro"])
    ensures ReadCats(s).1.catV2 == Some([Category("Casa", []), Category("Carro", [])])
  {
    var w := WrapNames(["Casa", "Carro"]);
    assert |w| == 2 && w[0] == Category("Casa", []) && w[1] == Category("Carro", []);
    assert w == [Category("Casa", []), Category("Carro", [])];
    assert ReadCats(s) == (w, s.(catV2 := Some(w)));
  }

  /** Loading at start-up leaves a durable store, a durable store reloads to
      the same state, and saving makes any state durable. */
  lemma DurableSpec(s: Store, today: string, fin: seq<Txn>, cats: seq<Category>)
    ensures var (f, s1) := ReadFin(s, today);
            var (c, s2) := ReadCats(s1);
            Durable(s2, f, c)
    ensures Durable(s, fin, cats) ==> ReadFin(s, today) == (fin, s) && ReadCats(s) == (cats, s)
    ensures Durable(SaveAll(s, fin, cats), fin, cats)
  {
  }
}
