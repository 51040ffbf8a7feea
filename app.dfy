/**
 * The application state of the finance tracker and its event handlers. The
 * source keeps `fin` and `cats` as global arrays that the handlers mutate in
 * place and then persist with `saveAll()`; here they are the fields of one
 * `Finance` object, next to the store they are persisted to. The answers of
 * `confirm`/`prompt`, the form fields and `Date.now()` are parameters.
 */
module App {
  import opened Records
  import opened Text
  import Ledger
  import Taxonomy
  import Storage

  /** How `addFin` ended: a row was appended, or one of its two alerts. */
  datatype AddFinOutcome = RowAdded | NoCategory | NoValue

  /** The row object `addFin` builds from the form: a blank date means today,
      the description is trimmed, an empty subcategory becomes null. */
  function FormRow(id: int, dateInput: string, descInput: string, category: string,
                   subInput: string, kind: string, value: int, today: string): (r: Txn)
    ensures dateInput == "" ==> r.date == today
    ensures dateInput != "" ==> r.date == dateInput
    ensures r.desc == Trim(descInput) && (r.desc == [] <==> AllSpace(descInput))
    ensures r.subcategory.None? <==> subInput == ""
    ensures subInput != "" ==> r.subcategory == Some(subInput)
    ensures r.id == id && r.category == category && r.kind == kind && r.value == value
  {
    Txn(id, Or(dateInput, today), Trim(descInput), category,
        if subInput == "" then None else Some(subInput), kind, value)
  }

  class Finance {
    var fin: seq<Txn>
    var cats: seq<Category>
    var store: Storage.Store

    /** Reloading the page would give back the state in memory. */
    ghost predicate Valid()
      reads this
    {
      Storage.Durable(store, fin, cats)
    }

    /** Start-up: `let fin = readFin(); let cats = readCats();`. */
    constructor Load(s: Storage.Store, today: string)
      ensures Valid()
      ensures (fin, cats, store) ==
                var (f, s1) := Storage.ReadFin(s, today);
                var (c, s2) := Storage.ReadCats(s1);
                (f, c, s2)
    {
      var (f, s1) := Storage.ReadFin(s, today);
      var (c, s2) := Storage.ReadCats(s1);
      fin, cats, store := f, c, s2;
      Storage.DurableSpec(s, today, f, c);
    }

    // -------------------------------------------------------------------------
    // Ledger handlers

    /** `addFin()`: appends the form's row unless the category is empty or
        the value is 0. Negative values are accepted. */
    method AddFin(id: int, dateInput: string, descInput: string, category: string,
                  subInput: string, kind: string, value: int, today: string)
      returns (outcome: AddFinOutcome)
      requires Valid()
      modifies this
      ensures Valid() && cats == old(cats)
      ensures outcome == NoCategory <==> category == ""
      ensures outcome == NoValue <==> category != "" && value == 0
      ensures outcome == RowAdded ==>
                fin == old(fin) + [FormRow(id, dateInput, descInput, category, subInput, kind, value, today)]
      ensures outcome != RowAdded ==> fin == old(fin) && store == old(store)
    {
      var row := FormRow(id, dateInput, descInput, category, subInput, kind, value, today);
      if row.category == "" {
        return NoCategory;
      }
      if row.value == 0 {
        return NoValue;
      }
      fin := fin + [row];
      store := Storage.SaveAll(store, fin, cats);
      outcome := RowAdded;
    }

    /** `removeFin(id)`: once confirmed, keeps the rows with another id. */
    method RemoveFin(id: int, confirmed: bool)
      requires Valid()
      modifies this
      ensures Valid() && cats == old(cats)
      ensures fin == if confirmed then Ledger.RemoveById(old(fin), id) else old(fin)
      ensures !confirmed ==> store == old(store)
    {
      if !confirmed {
        return;
      }
      fin := Ledger.RemoveById(fin, id);
      store := Storage.SaveAll(store, fin, cats);
    }

    // -------------------------------------------------------------------------
    // The two row loops of the category manager

    /** `fin.forEach(r => { if (r.category === from) r.category = to; })`. */
    method RecategorizeRows(from: string, to: string)
      modifies this
      ensures fin == Ledger.Recategorize(old(fin), from, to)
      ensures cats == old(cats) && store == old(store)
    {
      var i := 0;
      while i < |fin|
        invariant 0 <= i <= |fin| == |old(fin)|
        invariant cats == old(cats) && store == old(store)
        invariant forall k :: 0 <= k < i ==> fin[k] == Ledger.Recategorize(old(fin), from, to)[k]
        invariant forall k :: i <= k < |fin| ==> fin[k] == old(fin)[k]
      {
        if fin[i].category == from {
          fin := fin[i := fin[i].(category := to)];
        }
        i := i + 1;
      }
    }

    /** `fin.forEach(r => { if (r.category === cat && r.subcategory === sub) r.subcategory = to; })`. */
    method ResubcategorizeRows(cat: string, sub: string, to: Option<string>)
      modifies this
      ensures fin == Ledger.Resubcategorize(old(fin), cat, sub, to)
      ensures cats == old(cats) && store == old(store)
    {
      var i := 0;
      while i < |fin|
        invariant 0 <= i <= |fin| == |old(fin)|
        invariant cats == old(cats) && store == old(store)
        invariant forall k :: 0 <= k < i ==> fin[k] == Ledger.Resubcategorize(old(fin), cat, sub, to)[k]
        invariant forall k :: i <= k < |fin| ==> fin[k] == old(fin)[k]
      {
        if fin[i].category == cat && fin[i].subcategory == Some(sub) {
          fin := fin[i := fin[i].(subcategory := to)];
        }
        i := i + 1;
      }
    }

    // -------------------------------------------------------------------------
    // Category manager handlers (`idx` and `sidx` are the entries the clicked
    // control was rendered for)

    /** The name input's change handler: the category takes the trimmed input
        (a blank input keeps the old name) and its rows follow. */
    method RenameCategory(idx: nat, input: string)
      requires Valid() && idx < |cats|
      modifies this
      ensures Valid()
      ensures var name := Taxonomy.NewName(old(cats)[idx].name, input);
              && cats == Taxonomy.RenameCategory(old(cats), idx, name)
              && fin == Ledger.Recategorize(old(fin), old(cats)[idx].name, name)
    {
      var oldName := cats[idx].name;
      var trimmed := Trim(input);
      var name := if trimmed != "" then trimmed else oldName;
      cats := cats[idx := cats[idx].(name := name)];
      RecategorizeRows(oldName, name);
      store := Storage.SaveAll(store, fin, cats);
    }

    /** The delete button: once confirmed, the category's rows move to
        "Outros" (keeping their subcategory), the category is spliced out and
        "Outros" is appended if no category has that name. */
    method DeleteCategory(idx: nat, confirmed: bool)
      requires Valid() && idx < |cats|
      modifies this
      ensures Valid()
      ensures confirmed ==> cats == Taxonomy.DeleteCategory(old(cats), idx)
                            && fin == Ledger.Recategorize(old(fin), old(cats)[idx].name, OUTROS)
      ensures !confirmed ==> fin == old(fin) && cats == old(cats) && store == old(store)
    {
      if !confirmed {
        return;
      }
      var oldName := cats[idx].name;
      RecategorizeRows(oldName, OUTROS);
      cats := cats[..idx] + cats[idx + 1..];
      if !HasCategory(cats, OUTROS) {
        cats := cats + [Category(OUTROS, [])];
      }
      store := Storage.SaveAll(store, fin, cats);
    }

    /** The subcategory edit button: a null or empty prompt answer does
        nothing; otherwise rows on (category, old subcategory) take the new
        name and slot `sidx` is overwritten. */
    method RenameSubcategory(idx: nat, sidx: nat, nv: string)
      requires Valid() && idx < |cats| && sidx < |cats[idx].subcats|
      modifies this
      ensures Valid()
      ensures nv != "" ==> cats == Taxonomy.RenameSubcategory(old(cats), idx, sidx, nv)
                           && fin == Ledger.Resubcategorize(old(fin), old(cats)[idx].name,
                                                            old(cats)[idx].subcats[sidx], Some(nv))
      ensures nv == "" ==> fin == old(fin) && cats == old(cats) && store == old(store)
    {
      if nv == "" {
        return;
      }
      var c := cats[idx];
      ResubcategorizeRows(c.name, c.subcats[sidx], Some(nv));
      cats := cats[idx := c.(subcats := c.subcats[sidx := nv])];
      store := Storage.SaveAll(store, fin, cats);
    }

    /** The subcategory remove button: once confirmed, rows on (category,
        subcategory) lose their subcategory and element `sidx` is spliced out. */
    method DeleteSubcategory(idx: nat, sidx: nat, confirmed: bool)
      requires Valid() && idx < |cats| && sidx < |cats[idx].subcats|
      modifies this
      ensures Valid()
      ensures confirmed ==> cats == Taxonomy.DeleteSubcategory(old(cats), idx, sidx)
                            && fin == Ledger.Resubcategorize(old(fin), old(cats)[idx].name,
                                                             old(cats)[idx].subcats[sidx], None)
      ensures !confirmed ==> fin == old(fin) && cats == old(cats) && store == old(store)
    {
      if !confirmed {
        return;
      }
      var c := cats[idx];
      ResubcategorizeRows(c.name, c.subcats[sidx], None);
      var subs := c.subcats;
      cats := cats[idx := c.(subcats := subs[..sidx] + subs[sidx + 1..])];
      store := Storage.SaveAll(store, fin, cats);
    }

    /** The add-subcategory button: a blank trimmed name does nothing; a name
        already listed is skipped silently (the state is still saved);
        otherwise it is appended. The ledger is not touched. */
    method AddSubcategory(idx: nat, input: string)
      requires Valid() && idx < |cats|
      modifies this
      ensures Valid() && fin == old(fin)
      ensures cats == Taxonomy.AddSubcategory(old(cats), idx, input)
    {
      var name := Trim(input);
      if name == "" {
        return;
      }
      if name !in cats[idx].subcats {
        cats := cats[idx := cats[idx].(subcats := cats[idx].subcats + [name])];
      }
      store := Storage.SaveAll(store, fin, cats);
    }

    /** `addCategory()` as bound to the add-category button's intent: a blank
        trimmed name does nothing, a taken name raises the duplicate alert,
        otherwise the category is appended with no subcategories. */
    method AddCategory(input: string) returns (outcome: Taxonomy.AddOutcome)
      requires Valid()
      modifies this
      ensures Valid() && fin == old(fin)
      ensures (cats, outcome) == Taxonomy.AddCategory(old(cats), input)
      ensures outcome != Taxonomy.Added ==> store == old(store)
    {
      var name := Trim(input);
      if name == "" {
        return Taxonomy.Blank;
      }
      if HasCategory(cats, name) {
        return Taxonomy.Duplicate;
      }
      cats := cats + [Category(name, [])];
      store := Storage.SaveAll(store, fin, cats);
      outcome := Taxonomy.Added;
    }
  }
}
