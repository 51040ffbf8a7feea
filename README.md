# Finance tracker: taxonomy and ledger core

A Dafny model of the core of a client-side personal finance tracker (a PWA
written in JavaScript). The app keeps two collections in memory and persists
them to browser storage:

- `fin`, the ledger: rows `{id, date, desc, category, subcategory|null, type, value}`;
- `cats`, the taxonomy: categories `{name, subcats}`.

Rows refer to categories and subcategories by name. So every rename or delete
in the category manager also rewrites the ledger rows that used the old name.
The model covers these parts:

- the category-manager handlers and the two row rewrites they trigger;
- adding and removing rows;
- the totals and per-category breakdown shown on screen;
- the one-time migration from the v1 storage keys to the v2 keys;
- the `escapeHtml` encoder.

Modules:

- `Records` (records.dfy): the `Txn` and `Category` datatypes, the constants
  "Entrada", "Saída" and "Outros", the seed taxonomy, and the uniqueness
  predicates.
- `Text` (text.dfy): JavaScript `trim`, the `||` fallback on strings, and
  `escapeHtml` with a reference decoder.
- `Ledger` (ledger.dfy): the ledger as a value. It holds the totals, the
  `removeFin` filter, the two row rewrites (`Recategorize`,
  `Resubcategorize`) and the loop that builds the pie chart's breakdown.
- `Taxonomy` (taxonomy.dfy): what each handler does to `cats`.
- `References` (references.dfy): which reference-consistency facts between
  `fin` and `cats` each handler keeps, and the one it does not keep.
- `Storage` (storage.dfy): `readFin`, `readCats`, `saveAll`, and the v1
  shapes they migrate.
- `App` (app.dfy): class `Finance`. Its fields are `fin`, `cats` and the
  store. It has one method per handler. The rewrite loops update rows in
  place and are proved equal to the `Ledger` functions. Every handler keeps
  `Valid()`: reloading the page would restore the state held in memory.

Modelling choices:

- The source's `type` field is called `kind`, because `type` is a Dafny keyword.
- `value` is a whole number of cents.
- Answers to `confirm` and `prompt`, form-field contents, `Date.now()` ids
  and today's date are passed in as parameters. A cancelled `prompt` is
  passed as `""`; the source treats null and `""` the same way (`if(!nv)`).
- A handler receives the index of the entry its control was drawn for, so
  it requires that index to exist.

Behaviours of the code worth knowing, modelled as written:

- Deleting a category moves its rows to "Outros" but keeps their
  `subcategory` (app.js:202). `References.DeleteCategoryLeavesStaleSubcategory`
  shows a row left with a subcategory that "Outros" does not list.
- Renaming a category or a subcategory has no duplicate check and no
  not-found error. `Taxonomy.RenameCategoryUnique` shows that a rename keeps
  names unique exactly when the new name is not already taken.
- `addFin` rejects only an empty category or a value of 0. Negative values
  are accepted.
- An unparseable v1 ledger yields `[]` and writes nothing. An unparseable v1
  taxonomy falls back to the seed. An unparseable v2 key makes `JSON.parse`
  throw at start-up.
- Two functions are named `addCategory`, and the later one wins by hoisting:
  `addCategory(tipo, nome)` at app.js:401 replaces the one at app.js:251. So
  the button bound at app.js:294 actually runs the app.js:401 version. That
  version receives the click event as `tipo`, so `cats[tipo][nome]` throws a
  TypeError before anything is saved (app.js:402-404): the button changes
  nothing. `App.Finance.AddCategory` models the intended app.js:251-255
  behaviour.
- Migration keeps a legacy id when present and uses `i+1` otherwise, without
  looking at the other rows' ids. `Storage.MixedIdsCollide` shows two
  migrated rows sharing id 2, both removed by one `removeFin(2)`.

## Model

Functions without a contract of their own (`Ledger.KindTotal`,
`Ledger.FirstSeen`, `Storage.MigrateRow`, `Storage.ReadFin`,
`Storage.ReadCats`, `Storage.SaveAll` and the `Taxonomy` transition
functions) are specified by the lemmas in the rows below: each `*Spec` lemma
covers the function of the same name, `Taxonomy.RenameCategory` is covered
by `Taxonomy.RenameCategoryUnique` and the `References` rename lemmas,
`Taxonomy.EnsureFallback` by `Taxonomy.DeleteCategorySpec`, `KindTotal` by
the totals lemmas and `FirstSeen` by `Ledger.FirstSeenSpec`. `Text.Or`, the
JavaScript `||` fallback used by the migration, the form and the rename
handler, carries its own contract: the first operand unless it is empty,
else the second.

| member | source | states |
|---|---|---|
| `Records.DefaultCatsWellFormed` | app.js:15-24 | The seed taxonomy has 8 categories with unique names and duplicate-free subcategory lists, and it contains "Outros". |
| `Text.Trim` | app.js:252 | A trimmed name begins and ends with a non-space character, and it is empty exactly when the input is all white space (the `if(!name) return;` checks at app.js:241 and 253). |
| `Text.TrimSlice` | app.js:252 | Trimming keeps one contiguous slice of the input and drops only white space on either side of it. |
| `Text.TrimIdempotent` | app.js:252 | Trimming twice gives the same result as trimming once. |
| `Text.EscapeText` | app.js:286 | The escaped text contains none of `<`, `>`, `"` or `'`, and it is at least as long as the input. |
| `Text.EscapeHtml` | app.js:286 | A null or empty input yields the empty string; any other string yields its character-by-character escape, which the five-entity decoder turns back into the input. |
| `Text.EscapeTextAppend` | app.js:286 | Escaping works character by character: escaping `a + b` gives the escape of `a` followed by the escape of `b`. |
| `Text.EscapeTextPlain` | app.js:286 | Text with none of `& < > " '` is copied unchanged. |
| `Text.UnescapeEscape` | app.js:286 | Decoding the five entities gives back the original text, so each special character maps to its own entity and nothing is lost. |
| `Ledger.SameAmountsSameTotals` | app.js:131-132 | The Entrada and Saída totals depend only on the rows' types and values, position by position. |
| `Ledger.KindTotalAppend` | app.js:131-132 | Appending a row adds its value to the total of its own type and leaves the other totals as they were. |
| `Ledger.RemoveById` | app.js:122 | A row is kept exactly when it was in the ledger and its id differs from the removed one; the ledger never grows. |
| `Ledger.RemoveByIdAppend` | app.js:122 | The filter distributes over concatenation, so the kept rows stay in their original order. |
| `Ledger.RemoveByIdAbsent` | app.js:122 | Removing an id that no row carries leaves the ledger unchanged. |
| `Ledger.RemoveUndoesAdd` | app.js:115-122 | Removing the id of a row just appended with a fresh id restores the previous ledger. |
| `Ledger.Recategorize` | app.js:192 | Only `category` changes, and only on rows that named the old name; every other row is unchanged. Every such row now names the new name. No row names the old name afterwards unless the two names are equal. Types and values are unchanged. |
| `Ledger.Resubcategorize` | app.js:223 | Only `subcategory` changes, and only on rows matching both the category and the old subcategory; every other row is unchanged. Those rows take the new value. Afterwards no row matches that pair unless the new value is the old one. Types and values are unchanged. |
| `Ledger.RecategorizeKeepsTotals` | app.js:188-192 | Renaming a category, or moving a deleted category's rows to "Outros", leaves the Entrada and Saída totals unchanged. |
| `Ledger.ResubcategorizeKeepsTotals` | app.js:219-230 | Renaming or clearing a subcategory leaves the totals unchanged. |
| `Ledger.RecategorizeMergesTotals` | app.js:188-192 | After a rename, the new name's breakdown total is the sum of both old totals, the old name totals 0, and every other category keeps its total. |
| `Ledger.FirstSeenSpec` | app.js:158-162 | The chart labels are distinct and are exactly the categories used by rows of the charted type. |
| `Ledger.BreakdownCoversTotal` | app.js:158-163 | The chart slices add up to the total of the charted type, so the pie splits the Saída total among categories. |
| `Ledger.CategoryBreakdown` | app.js:158-163 | The `byCat` loop yields one label per Saída category, in order of first appearance. Each label's value is that category's Saída total. |
| `Taxonomy.NewName` | app.js:190 | A blank input keeps the current name, any other input gives its trimmed form; the chosen name is never empty unless the current one was. |
| `Taxonomy.AddCategorySpec` | app.js:251-255 | A blank name is ignored and an existing name is refused; both leave `cats` unchanged. Otherwise the trimmed name is appended with empty subcats. Unique names and duplicate-free subcategory lists are kept. |
| `Taxonomy.RenameCategoryUnique` | app.js:188-190 | Given unique names, a rename keeps them unique exactly when the new name equals the old one or is not already taken. |
| `Taxonomy.DeleteCategorySpec` | app.js:198-206 | "Outros" exists afterwards. The other categories keep their order. "Outros" is appended, with empty subcats, only if missing; otherwise the result is exactly the spliced list. Uniqueness is kept. With unique names, the deleted name is gone unless it was "Outros". |
| `Taxonomy.AddSubcategorySpec` | app.js:240-242 | Category names and other categories are unchanged. A blank name or one already listed leaves `cats` unchanged; any other trimmed name is appended to the existing list. Duplicate-free lists stay duplicate-free. |
| `Taxonomy.RenameSubcategorySpec` | app.js:219-224 | Slot `sidx` is replaced in place; the other slots, the category's name and every other category are unchanged. The list stays duplicate-free exactly when the new name is the old one or not yet listed. |
| `Taxonomy.DeleteSubcategorySpec` | app.js:227-230 | Element `sidx` is removed and nothing else changes. In a duplicate-free list, that name is no longer listed. |
| `References.RenameCategoryKeepsCategoryRefs` | app.js:188-192 | After a category rename, every row still names an existing category, even when the rename merges two categories. |
| `References.RenameCategoryKeepsSubRefs` | app.js:188-192 | With unique names, every row's subcategory is still listed under its category after the rename. |
| `References.RenameCategoryWithNamesakeLosesSubRefs` | app.js:188-192 | If two categories share a name, renaming one can leave a row with a subcategory its category does not list. |
| `References.DeleteCategoryKeepsCategoryRefs` | app.js:198-206 | After a category delete, every row still names an existing category. |
| `References.DeleteCategoryLeavesStaleSubcategory` | app.js:198-206 | Deleting "Moradia" moves its "Aluguel" row to "Outros" with the subcategory kept. "Outros" is created with empty subcats, so the row's subcategory reference is no longer valid. |
| `References.AddsKeepRefs` | app.js:240-255 | Adding a category or a subcategory keeps every existing reference valid. |
| `References.RenameSubcategoryKeepsRefs` | app.js:219-224 | A subcategory rename keeps every category and subcategory reference valid. |
| `References.DeleteSubcategoryKeepsRefs` | app.js:227-230 | A subcategory delete keeps every category and subcategory reference valid. |
| `References.AddRowKeepsRefs` | app.js:103-115 | An appended row keeps the references valid exactly when its category exists and its subcategory, if any, is listed under it. |
| `References.RemoveRowKeepsRefs` | app.js:120-122 | Removing rows never invalidates a reference. |
| `Storage.MigrateRows` | app.js:38-46 | Migration maps legacy rows one to one. |
| `Storage.WrapNames` | app.js:60 | Legacy name strings become categories with those names, in order, each with empty subcats. |
| `Storage.MigrateRowsSpec` | app.js:38-46 | Row `i` comes from legacy row `i`: a present id, date, type and subcategory are kept, the description is `desc` or else `description`, the category is `cat` or else `category`, the value is `value` or else `val`. Defaults: id `i+1` when the id is null, "Outros" for the category, "Saída" for the type, 0 for the value, today for the date, null for an empty subcategory. Every migrated category and type is non-empty. |
| `Storage.NonObjectRowMigrates` | app.js:38-46 | A legacy element that is not an object migrates to id `i+1`, today's date, an empty description, "Outros", no subcategory, "Saída" and value 0. |
| `Storage.MigratedIdsDistinct` | app.js:39 | Legacy rows without ids receive distinct ids. |
| `Storage.MixedIdsCollide` | app.js:39 | A legacy row with id 2 followed by one without an id migrate to two rows with id 2, and removing id 2 removes both. |
| `Storage.ReadFinSpec` | app.js:33-51 | Without a v2 key, a v1 array is migrated row by row and written under the v2 key; an absent, unparseable or non-array v1 value gives no rows and writes nothing. The taxonomy keys are untouched. |
| `Storage.ReadFinPrefersV2` | app.js:31-32 | Once the v2 ledger key is present, it is returned as stored and the v1 key is never read. |
| `Storage.ReadFinIdempotent` | app.js:30-52 | A second ledger read returns the same rows and writes nothing, whatever its date: migration happens at most once. |
| `Storage.ReadCatsIdempotent` | app.js:53-67 | After a taxonomy read the v2 key is always written, and a second read returns the same categories. |
| `Storage.ReadCatsSpec` | app.js:53-67 | The taxonomy read returns the first available of: the v2 key; the wrapped v1 names; `[]` for a non-array v1 value; the seed, which contains "Outros". It never touches the ledger keys. |
| `Storage.LegacyCatsScenario` | app.js:56-62 | The v1 names `["Casa", "Carro"]` with no v2 key are written to the v2 key as two categories with empty subcats. |
| `Storage.DurableSpec` | app.js:68-71 | Loading at start-up leaves the store consistent with the loaded state, a consistent store reloads to the same state, and `saveAll` makes any state consistent. |
| `App.FormRow` | app.js:104-112 | The row built from the form keeps the id, category, type and value as entered. A blank date becomes today and any other date is kept. The description is the trimmed input, empty exactly when the input is blank. The subcategory is null exactly when the field is empty, and otherwise the field's text. |
| `App.Finance.Load` | app.js:26-27 | The start-up state is what `readFin` and then `readCats` return, and reloading from the store would restore it. |
| `App.Finance.AddFin` | app.js:103-119 | An empty category or a value of 0 raises the matching alert and leaves the state unchanged. Otherwise exactly one row is appended, with a defaulted date, trimmed description and null for an empty subcategory, and it is saved. |
| `App.Finance.RemoveFin` | app.js:120-125 | Once confirmed, `fin` becomes the rows with another id; without confirmation nothing changes. |
| `App.Finance.RecategorizeRows` | app.js:192 | The in-place loop leaves `fin` equal to `Ledger.Recategorize` of the old ledger and touches nothing else. |
| `App.Finance.ResubcategorizeRows` | app.js:223 | The in-place loop leaves `fin` equal to `Ledger.Resubcategorize` of the old ledger and touches nothing else. |
| `App.Finance.RenameCategory` | app.js:188-194 | Category `idx` takes the trimmed input, or keeps its name if the input is blank. Its rows follow the name, and the state is saved. |
| `App.Finance.DeleteCategory` | app.js:198-208 | Once confirmed, the category's rows move to "Outros", the category is spliced out, "Outros" is added if missing, and the state is saved. Without confirmation nothing changes. |
| `App.Finance.RenameSubcategory` | app.js:219-225 | A non-empty answer renames the matching rows and overwrites slot `sidx`; an empty or cancelled answer changes nothing. |
| `App.Finance.DeleteSubcategory` | app.js:227-231 | Once confirmed, the matching rows lose their subcategory and slot `sidx` is spliced out. Without confirmation nothing changes. |
| `App.Finance.AddSubcategory` | app.js:240-244 | `cats` becomes the add-subcategory result and the ledger is untouched. |
| `App.Finance.AddCategory` | app.js:251-258 | `cats` and the outcome (added, blank, duplicate) are those of the add-category rule; the ledger is untouched. |

## Left out

- DOM rendering and UI wiring are not modelled: select refresh, table building, the modal, tabs and event binding (app.js:76-100, 138-155, 176-187, 289-308).
- Chart drawing (app.js:167-173) is a foreign library call. The model stops at the labels and values handed to it.
- Money formatting (app.js:74) and the report sums in `generateReports` (app.js:414-437) are left out: floating point and date arithmetic.
- Amounts are whole cents. Floating-point addition, `Number(...)` coercion of form text and the NaN that `addFin` also rejects are not modelled.
- localStorage and JSON are abstract. A v2 slot holds parsed records, and `None` stands for a key that is absent or holds the empty string (both falsy for `if(v2)` at app.js:32 and 55). A non-empty v2 text that does not parse, or parses to a non-array, is not modelled; in the source it breaks start-up.
- In the ledger migration, a `null` element makes `r.id` throw, and `readFin` catches it and returns `[]` without writing (app.js:49); the model stands for this with `Unparseable`, not element by element. Any other element that is not an object (a number, string, boolean or array) reads every field as `undefined` and migrates as `Storage.NON_OBJECT_ROW`, the `LegacyRow` with every field empty (`Storage.NonObjectRowMigrates`). Legacy category names that are not strings are not modelled.
- The breakdown's label order is insertion order. JavaScript puts integer-like object keys first, and keys such as `__proto__` misbehave; neither is modelled.
- Backup export and import (app.js:261-283) are file I/O and not modelled. The source's import replaces each of `fin` and `cats` separately, and only when it is an array.
- The superseded string-array and `{receitas, despesas}` category stores (app.js:314-411) are not modelled. Only their `addCategory` name clash with the v2 handler is noted above.
- sw.js (service-worker asset caching) is not part of this model.
- Aliasing is not modelled. Rows and categories are values, and a handler reassigns the field. In the source the table's delete buttons also hold their row object `r` (app.js:144-149), but they read only `r.id`, which no handler changes. Each category-manager handler holds its category object `c` (app.js:180-244); `c` is still `cats[idx]` when the handler runs, because every handler that changes `cats` or a subcategory list re-renders with `renderCatManager()` (app.js:207, 224, 230, 243), which rebuilds the closures with fresh indices; the category rename (app.js:190) does not re-render, but it shifts no index. So in-place mutation through `c` and a value update of `cats[idx]` agree, and the handlers take `idx` (and `sidx`) in place of the captured objects.
- `Storage.MigrateRows`: its own contract states only the length. The per-row defaults are stated in `Storage.MigrateRowsSpec`.
