/**
 * The two record shapes of the finance tracker ("v2" data model) and the
 * constants the handlers compare against.
 *
 * A transaction is `{id, date, desc, category, subcategory|null, type, value}`;
 * a category is `{name, subcats}`. Transactions refer to categories and
 * subcategories by NAME, which is why every rename or delete of a taxonomy
 * entry has to rewrite ledger rows.
 */
module Records {

  datatype Option<T> = None | Some(value: T)

  /** A ledger row. `kind` is the source's `type` field ("Entrada" or "Saída");
      `value` is an amount in integer cents. */
  datatype Txn = Txn(
    id: int,
    date: string,
    desc: string,
    category: string,
    subcategory: Option<string>,
    kind: string,
    value: int)

  /** A taxonomy entry: a category name and its ordered subcategory names. */
  datatype Category = Category(name: string, subcats: seq<string>)

  const ENTRADA: string := "Entrada"
  const SAIDA: string := "Saída"
  /** The fallback category that absorbs the rows of a deleted category. */
  const OUTROS: string := "Outros"

  /** The built-in seed taxonomy used when nothing is stored. */
  const DEFAULT_CATS: seq<Category> := [
    Category("Alimentação", ["Mercado", "Restaurante", "Delivery"]),
    Category("Moradia", ["Aluguel", "Luz", "Água", "Internet"]),
    Category("Transporte", ["Combustível", "Ônibus", "App"]),
    Category("Lazer", []),
    Category("Contas", ["Bancos", "Tarifas"]),
    Category("Saúde", ["Farmácia", "Consultas"]),
    Category("Educação", []),
    Category(OUTROS, [])
  ]

  predicate NoDuplicates<T(==)>(s: seq<T>)
  {
    forall i, j :: 0 <= i < j < |s| ==> s[i] != s[j]
  }

  /** The category names, in taxonomy order. */
  function Names(cats: seq<Category>): (ns: seq<string>)
    ensures |ns| == |cats|
    ensures forall i :: 0 <= i < |cats| ==> ns[i] == cats[i].name
  {
    seq(|cats|, i requires 0 <= i < |cats| => cats[i].name)
  }

  /** `cats.find(c => c.name === name)` is truthy. */
  predicate HasCategory(cats: seq<Category>, name: string)
  {
    name in Names(cats)
  }

  /** No two categories share a name. */
  predicate UniqueNames(cats: seq<Category>)
  {
    NoDuplicates(Names(cats))
  }

  /** No category lists a subcategory twice. */
  predicate UniqueSubcats(cats: seq<Category>)
  {
    forall i :: 0 <= i < |cats| ==> NoDuplicates(cats[i].subcats)
  }

  lemma DefaultCatsWellFormed()
    ensures UniqueNames(DEFAULT_CATS) && UniqueSubcats(DEFAULT_CATS)
    ensures HasCategory(DEFAULT_CATS, OUTROS)
    ensures |DEFAULT_CATS| == 8
  {
    assert Names(DEFAULT_CATS)[7] == OUTROS;
  }
}
