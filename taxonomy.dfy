/**
 * The taxonomy `cats` as a value: what each handler of the category manager
 * does to the list of categories (the ledger side of each handler is in
 * Ledger, the two sides are put together in References and App).
 */
module Taxonomy {
  import opened Records
  import opened Text

  /** How the add-category handler ended: it appended, ignored a blank name,
      or refused a duplicate (the alert). */
  datatype AddOutcome = Added | Blank | Duplicate

  /** `addCategory()`: the trimmed name is appended with no subcategories
      unless it is blank or already taken. */
  function AddCategory(cats: seq<Category>, input: string): (seq<Category>, AddOutcome)
  {
    var name := Trim(input);
    if name == [] then (cats, Blank)
    else if HasCategory(cats, name) then (cats, Duplicate)
    else (cats + [Category(name, [])], Added)
  }

  /** The new name the rename handler settles on: `input.trim() || current`. */
  function NewName(current: string, input: string): (name: string)
    ensures name != [] || current == []
    ensures AllSpace(input) ==> name == current
    ensures !AllSpace(input) ==> name == Trim(input)
  {
    var t := Trim(input);
    if t == [] then current else t
  }

  /** `c.name = newName` for the category at `idx`. */
  function RenameCategory(cats: seq<Category>, idx: nat, name: string): seq<Category>
    requires idx < |cats|
  {
    cats[idx := cats[idx].(name := name)]
  }

  /** `if (!cats.find(x => x.name === "Outros")) cats.push({name: "Outros", subcats: []})`. */
  function EnsureFallback(cats: seq<Category>): seq<Category>
  {
    if HasCategory(cats, OUTROS) then cats else cats + [Category(OUTROS, [])]
  }

  /** `cats.splice(idx, 1)` followed by the fallback check. */
  function DeleteCategory(cats: seq<Category>, idx: nat): seq<Category>
    requires idx < |cats|
  {
    EnsureFallback(cats[..idx] + cats[idx + 1..])
  }

  /** The add-subcategory handler: the trimmed name is appended to the
      category's list unless blank or already listed. */
  function AddSubcategory(cats: seq<Category>, idx: nat, input: string): seq<Category>
    requires idx < |cats|
  {
    var name := Trim(input);
    if name == [] || name in cats[idx].subcats then cats
    else cats[idx := cats[idx].(subcats := cats[idx].subcats + [name])]
  }

  /** `c.subcats[sidx] = nv`, reached only when `nv` is not empty. */
  function RenameSubcategory(cats: seq<Category>, idx: nat, sidx: nat, nv: string): seq<Category>
    requires idx < |cats| && sidx < |cats[idx].subcats|
  {
    cats[idx := cats[idx].(subcats := cats[idx].subcats[sidx := nv])]
  }

  /** `c.subcats.splice(sidx, 1)`. */
  function DeleteSubcategory(cats: seq<Category>, idx: nat, sidx: nat): seq<Category>
    requires idx < |cats| && sidx < |cats[idx].subcats|
  {
    var subs := cats[idx].subcats;
    cats[idx := cats[idx].(subcats := subs[..sidx] + subs[sidx + 1..])]
  }

  // ---------------------------------------------------------------------------
  // Properties

  lemma NoDuplicatesAppend<T>(s: seq<T>, x: T)
    requires NoDuplicates(s) && x !in s
    ensures NoDuplicates(s + [x])
  {
    forall i, j | 0 <= i < j < |s + [x]| ensures (s + [x])[i] != (s + [x])[j] {
      if j == |s| { assert (s + [x])[i] == s[i]; }
    }
  }

  lemma NoDuplicatesRemove<T>(s: seq<T>, k: nat)
    requires NoDuplicates(s) && k < |s|
    ensures NoDuplicates(s[..k] + s[k + 1..])
    ensures s[k] !in s[..k] + s[k + 1..]
  {
    var t := s[..k] + s[k + 1..];
    assert forall i :: 0 <= i < |t| ==> t[i] == if i < k then s[i] else s[i + 1];
  }

  /** The add-category handler: a blank name is ignored and a taken name is
      refused, both leaving `cats` unchanged; any other name is appended at the
      end with empty subcategories. Uniqueness of names is kept. */
  lemma AddCategorySpec(cats: seq<Category>, input: string)
    ensures var (r, outcome) := AddCategory(cats, input);
      && (outcome == Blank <==> AllSpace(input))
      && (outcome == Duplicate <==> !AllSpace(input) && HasCategory(cats, Trim(input)))
      && (outcome != Added ==> r == cats)
      && (outcome == Added ==> r == cats + [Category(Trim(input), [])])
      && (!AllSpace(input) ==> HasCategory(r, Trim(input)))
      && (UniqueNames(cats) ==> UniqueNames(r))
      && (UniqueSubcats(cats) ==> UniqueSubcats(r))
  {
    var (r, outcome) := AddCategory(cats, input);
    if outcome == Added {
      var c := Category(Trim(input), []);
      assert Names(r) == Names(cats) + [c.name];
      if UniqueNames(cats) { NoDuplicatesAppend(Names(cats), c.name); }
      assert r[|cats|] == c;
    }
  }

  /** Renaming keeps names unique exactly when the new name is the old one or
      is not already taken: the rename handler has no duplicate check, so it
      can merge two categories under one name. */
  lemma RenameCategoryUnique(cats: seq<Category>, idx: nat, name: string)
    requires idx < |cats| && UniqueNames(cats)
    ensures UniqueNames(RenameCategory(cats, idx, name)) <==> name == cats[idx].name || !HasCategory(cats, name)
  {
    var r := RenameCategory(cats, idx, name);
    assert Names(r) == Names(cats)[idx := name];
    if name != cats[idx].name && HasCategory(cats, name) {
      var j :| 0 <= j < |cats| && Names(cats)[j] == name;
      assert j != idx && Names(r)[j] == Names(r)[idx];
    }
  }

  /** Deleting a category: the fallback exists afterwards, every other category
      is kept in order, and with unique names the deleted name is gone unless
      it was the fallback itself. Uniqueness is kept. */
  lemma DeleteCategorySpec(cats: seq<Category>, idx: nat)
    requires idx < |cats|
    ensures var r := DeleteCategory(cats, idx);
      && HasCategory(r, OUTROS)
      && r[..|cats| - 1] == cats[..idx] + cats[idx + 1..]
      && (|r| == |cats| <==> !HasCategory(cats[..idx] + cats[idx + 1..], OUTROS))
      && (|r| == |cats| ==> r[|cats| - 1] == Category(OUTROS, []))
      && (HasCategory(cats[..idx] + cats[idx + 1..], OUTROS) ==> r == cats[..idx] + cats[idx + 1..])
      && (UniqueNames(cats) ==> UniqueNames(r))
      && (UniqueNames(cats) && cats[idx].name != OUTROS ==> !HasCategory(r, cats[idx].name))
      && (UniqueSubcats(cats) ==> UniqueSubcats(r))
  {
    var rest := cats[..idx] + cats[idx + 1..];
    var r := DeleteCategory(cats, idx);
    assert Names(rest) == Names(cats)[..idx] + Names(cats)[idx + 1..];
    if !HasCategory(rest, OUTROS) {
      assert Names(r) == Names(rest) + [OUTROS];
      assert r[|rest|].name == OUTROS;
    }
    if UniqueNames(cats) {
      NoDuplicatesRemove(Names(cats), idx);
      if !HasCategory(rest, OUTROS) { NoDuplicatesAppend(Names(rest), OUTROS); }
    }
    assert forall i :: 0 <= i < |rest| ==> rest[i] == if i < idx then cats[i] else cats[i + 1];
  }

  /** Adding a subcategory never changes category names, keeps each
      subcategory list free of duplicates, and the trimmed name is listed
      under the category afterwards unless it was blank. */
  lemma AddSubcategorySpec(cats: seq<Category>, idx: nat, input: string)
    requires idx < |cats|
    ensures var r := AddSubcategory(cats, idx, input);
      && |r| == |cats| && Names(r) == Names(cats)
      && (forall j :: 0 <= j < |cats| && j != idx ==> r[j] == cats[j])
      && (!AllSpace(input) ==> Trim(input) in r[idx].subcats)
      && (AllSpace(input) || Trim(input) in cats[idx].subcats ==> r == cats)
      && (!AllSpace(input) && Trim(input) !in cats[idx].subcats ==>
            r[idx] == Category(cats[idx].name, cats[idx].subcats + [Trim(input)]))
      && (UniqueSubcats(cats) ==> UniqueSubcats(r))
  {
    var r := AddSubcategory(cats, idx, input);
    var name := Trim(input);
    if name != [] && name !in cats[idx].subcats {
      assert r[idx].subcats == cats[idx].subcats + [name];
      if UniqueSubcats(cats) { NoDuplicatesAppend(cats[idx].subcats, name); }
      assert r[idx].subcats[|cats[idx].subcats|] == name;
    }
  }

  /** Renaming a subcategory replaces slot `sidx` in place; the list stays free
      of duplicates exactly when the new name is the old one or not already
      listed (there is no duplicate check). */
  lemma RenameSubcategorySpec(cats: seq<Category>, idx: nat, sidx: nat, nv: string)
    requires idx < |cats| && sidx < |cats[idx].subcats|
    ensures var r := RenameSubcategory(cats, idx, sidx, nv);
      && Names(r) == Names(cats)
      && (forall j :: 0 <= j < |cats| && j != idx ==> r[j] == cats[j])
      && r[idx].name == cats[idx].name
      && |r[idx].subcats| == |cats[idx].subcats| && r[idx].subcats[sidx] == nv
      && (forall k :: 0 <= k < |r[idx].subcats| && k != sidx ==> r[idx].subcats[k] == cats[idx].subcats[k])
      && (UniqueSubcats(cats) ==>
            (UniqueSubcats(r) <==> nv == cats[idx].subcats[sidx] || nv !in cats[idx].subcats))
  {
    var r := RenameSubcategory(cats, idx, sidx, nv);
    assert Names(r) == Names(cats);
    var subs := cats[idx].subcats;
    if UniqueSubcats(cats) && nv != subs[sidx] && nv in subs {
      var k :| 0 <= k < |subs| && subs[k] == nv;
      assert k != sidx && r[idx].subcats[k] == r[idx].subcats[sidx];
    }
  }

  /** Deleting a subcategory removes element `sidx` and nothing else; with a
      duplicate-free list the name is no longer listed. */
  lemma DeleteSubcategorySpec(cats: seq<Category>, idx: nat, sidx: nat)
    requires idx < |cats| && sidx < |cats[idx].subcats|
    ensures var r := DeleteSubcategory(cats, idx, sidx);
      && Names(r) == Names(cats)
      && (forall j :: 0 <= j < |cats| && j != idx ==> r[j] == cats[j])
      && r[idx].subcats == cats[idx].subcats[..sidx] + cats[idx].subcats[sidx + 1..]
      && (UniqueSubcats(cats) ==> UniqueSubcats(r) && cats[idx].subcats[sidx] !in r[idx].subcats)
  {
    var r := DeleteSubcategory(cats, idx, sidx);
    assert Names(r) == Names(cats);
    if UniqueSubcats(cats) { NoDuplicatesRemove(cats[idx].subcats, sidx); }
  }
}
