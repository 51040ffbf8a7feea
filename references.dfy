/**
 * Referential consistency between the ledger and the taxonomy. Rows name
 * their category and subcategory by string, so each taxonomy handler pairs a
 * change to `cats` with a rewrite of `fin`; the lemmas here say which
 * consistency facts each pair keeps, and show the one it does not.
 */
module References {
  import opened Records
  import opened Ledger
  import opened Taxonomy

  /** Every row's category names a category that exists. */
  predicate CategoryRefsValid(fin: seq<Txn>, cats: seq<Category>)
  {
    forall i :: 0 <= i < |fin| ==> HasCategory(cats, fin[i].category)
  }

  /** Some category called `name` lists `sub`. */
  predicate HasSub(cats: seq<Category>, name: string, sub: string)
  {
    exists j :: 0 <= j < |cats| && cats[j].name == name && sub in cats[j].subcats
  }

  /** Every row's subcategory, when present, is listed under a category of the
      row's category name. */
  predicate SubRefsValid(fin: seq<Txn>, cats: seq<Category>)
  {
    forall i :: 0 <= i < |fin| && fin[i].subcategory.Some? ==>
      HasSub(cats, fin[i].category, fin[i].subcategory.value)
  }

  /** Renaming category `idx` and moving its rows along keeps every row's
      category reference valid, even when the rename merges two categories. */
  lemma RenameCategoryKeepsCategoryRefs(fin: seq<Txn>, cats: seq<Category>, idx: nat, name: string)
    requires idx < |cats| && CategoryRefsValid(fin, cats)
    ensures CategoryRefsValid(Recategorize(fin, cats[idx].name, name), RenameCategory(cats, idx, name))
  {
    var fin', cats' := Recategorize(fin, cats[idx].name, name), RenameCategory(cats, idx, name);
    forall i | 0 <= i < |fin'| ensures HasCategory(cats', fin'[i].category) {
      if fin[i].category == cats[idx].name {
        assert Names(cats')[idx] == name;
      } else {
        var j :| 0 <= j < |cats| && Names(cats)[j] == fin[i].category;
        assert Names(cats')[j] == fin'[i].category;
      }
    }
  }

  /** With unique category names, a category rename also keeps subcategory
      references valid: the renamed rows' subcategories move with their
      category. */
  lemma RenameCategoryKeepsSubRefs(fin: seq<Txn>, cats: seq<Category>, idx: nat, name: string)
    requires idx < |cats| && UniqueNames(cats) && SubRefsValid(fin, cats)
    ensures SubRefsValid(Recategorize(fin, cats[idx].name, name), RenameCategory(cats, idx, name))
  {
    var fin', cats' := Recategorize(fin, cats[idx].name, name), RenameCategory(cats, idx, name);
    forall i | 0 <= i < |fin'| && fin'[i].subcategory.Some?
      ensures HasSub(cats', fin'[i].category, fin'[i].subcategory.value)
    {
      var sub := fin[i].subcategory.value;
      var j :| 0 <= j < |cats| && cats[j].name == fin[i].category && sub in cats[j].subcats;
      if fin[i].category == cats[idx].name {
        assert Names(cats)[j] == Names(cats)[idx];
        assert cats'[idx].name == name && sub in cats'[idx].subcats;
      } else {
        assert j != idx && cats'[j] == cats[j];
      }
    }
  }

  /** Without unique names the subcategory facts can break: the rows follow
      the renamed category but the subcategory was listed under its namesake. */
  lemma RenameCategoryWithNamesakeLosesSubRefs()
    ensures var fin := [Txn(1, "2024-01-01", "", "A", Some("x"), SAIDA, 100)];
            var cats := [Category("A", ["x"]), Category("A", [])];
            SubRefsValid(fin, cats)
            && !SubRefsValid(Recategorize(fin, "A", "B"), RenameCategory(cats, 1, "B"))
  {
    var fin := [Txn(1, "2024-01-01", "", "A", Some("x"), SAIDA, 100)];
    var cats := [Category("A", ["x"]), Category("A", [])];
    assert HasSub(cats, "A", "x") by { assert cats[0].name == "A" && "x" in cats[0].subcats; }
    var fin' := Recategorize(fin, "A", "B");
    assert fin'[0].category == "B";
  }

  /** Deleting category `idx` and moving its rows to the fallback keeps every
      row's category reference valid. */
  lemma DeleteCategoryKeepsCategoryRefs(fin: seq<Txn>, cats: seq<Category>, idx: nat)
    requires idx < |cats| && CategoryRefsValid(fin, cats)
    ensures CategoryRefsValid(Recategorize(fin, cats[idx].name, OUTROS), DeleteCategory(cats, idx))
  {
    var fin', cats' := Recategorize(fin, cats[idx].name, OUTROS), DeleteCategory(cats, idx);
    DeleteCategorySpec(cats, idx);
    var rest := cats[..idx] + cats[idx + 1..];
    forall i | 0 <= i < |fin'| ensures HasCategory(cats', fin'[i].category) {
      if fin[i].category != cats[idx].name {
        var j :| 0 <= j < |cats| && Names(cats)[j] == fin[i].category;
        var k := if j < idx then j else j - 1;
        assert j != idx && rest[k] == cats[j];
        assert cats'[k] == rest[k];
        assert Names(cats')[k] == fin'[i].category;
      }
    }
  }

  /** Deleting a category keeps the moved rows' subcategories: the model of the
      handler shows a row left under "Outros" with a subcategory that "Outros"
      does not list (the delete of "Moradia" with its row on "Aluguel"). */
  lemma DeleteCategoryLeavesStaleSubcategory()
    ensures var fin := [Txn(1, "2024-01-01", "", "Moradia", Some("Aluguel"), SAIDA, 10000)];
            var cats := [Category("Moradia", ["Aluguel"])];
            var fin' := Recategorize(fin, "Moradia", OUTROS);
            var cats' := DeleteCategory(cats, 0);
            && SubRefsValid(fin, cats) && CategoryRefsValid(fin, cats)
            && cats' == [Category(OUTROS, [])]
            && fin' == [Txn(1, "2024-01-01", "", OUTROS, Some("Aluguel"), SAIDA, 10000)]
            && CategoryRefsValid(fin', cats') && !SubRefsValid(fin', cats')
  {
    var fin := [Txn(1, "2024-01-01", "", "Moradia", Some("Aluguel"), SAIDA, 10000)];
    var cats := [Category("Moradia", ["Aluguel"])];
    assert HasSub(cats, "Moradia", "Aluguel") by { assert cats[0].name == "Moradia"; }
    assert HasCategory(cats, "Moradia") by { assert Names(cats)[0] == "Moradia"; }
    assert cats[..0] + cats[1..] == [];
    var cats' := DeleteCategory(cats, 0);
    assert cats' == [Category(OUTROS, [])];
    assert HasCategory(cats', OUTROS) by { assert Names(cats')[0] == OUTROS; }
    var fin' := Recategorize(fin, "Moradia", OUTROS);
    assert fin'[0] == Txn(1, "2024-01-01", "", OUTROS, Some("Aluguel"), SAIDA, 10000);
    assert !HasSub(cats', OUTROS, "Aluguel");
  }

  /** Adding a category or a subcategory only adds names, so every valid
      reference stays valid. */
  lemma AddsKeepRefs(fin: seq<Txn>, cats: seq<Category>, idx: nat, input: string)
    requires idx < |cats| && CategoryRefsValid(fin, cats) && SubRefsValid(fin, cats)
    ensures CategoryRefsValid(fin, AddCategory(cats, input).0) && SubRefsValid(fin, AddCategory(cats, input).0)
    ensures CategoryRefsValid(fin, AddSubcategory(cats, idx, input)) && SubRefsValid(fin, AddSubcategory(cats, idx, input))
  {
    AddCategorySpec(cats, input);
    AddSubcategorySpec(cats, idx, input);
    var a := AddCategory(cats, input).0;
    var b := AddSubcategory(cats, idx, input);
    forall i | 0 <= i < |fin| ensures HasCategory(a, fin[i].category) && HasCategory(b, fin[i].category) {
      var j :| 0 <= j < |cats| && Names(cats)[j] == fin[i].category;
      assert Names(a)[j] == fin[i].category;
    }
    forall i | 0 <= i < |fin| && fin[i].subcategory.Some?
      ensures HasSub(a, fin[i].category, fin[i].subcategory.value)
      ensures HasSub(b, fin[i].category, fin[i].subcategory.value)
    {
      var sub := fin[i].subcategory.value;
      var j :| 0 <= j < |cats| && cats[j].name == fin[i].category && sub in cats[j].subcats;
      assert a[j] == cats[j];
      assert b[j].name == cats[j].name && sub in b[j].subcats;
    }
  }

  /** Renaming subcategory `sidx` of category `idx` and rewriting its rows keeps
      every reference valid. */
  lemma RenameSubcategoryKeepsRefs(fin: seq<Txn>, cats: seq<Category>, idx: nat, sidx: nat, nv: string)
    requires idx < |cats| && sidx < |cats[idx].subcats|
    requires CategoryRefsValid(fin, cats) && SubRefsValid(fin, cats)
    ensures var fin' := Resubcategorize(fin, cats[idx].name, cats[idx].subcats[sidx], Some(nv));
            var cats' := RenameSubcategory(cats, idx, sidx, nv);
            CategoryRefsValid(fin', cats') && SubRefsValid(fin', cats')
  {
    var c, sc := cats[idx], cats[idx].subcats[sidx];
    var fin' := Resubcategorize(fin, c.name, sc, Some(nv));
    var cats' := RenameSubcategory(cats, idx, sidx, nv);
    RenameSubcategorySpec(cats, idx, sidx, nv);
    forall i | 0 <= i < |fin'| ensures HasCategory(cats', fin'[i].category) {
      assert HasCategory(cats, fin[i].category);
    }
    forall i | 0 <= i < |fin'| && fin'[i].subcategory.Some?
      ensures HasSub(cats', fin'[i].category, fin'[i].subcategory.value)
    {
      if fin[i].category == c.name && fin[i].subcategory == Some(sc) {
        assert cats'[idx].name == c.name && nv == cats'[idx].subcats[sidx];
      } else {
        var sub := fin[i].subcategory.value;
        var j :| 0 <= j < |cats| && cats[j].name == fin[i].category && sub in cats[j].subcats;
        if j == idx {
          var k :| 0 <= k < |c.subcats| && c.subcats[k] == sub;
          assert k != sidx && cats'[idx].subcats[k] == sub;
        } else {
          assert cats'[j] == cats[j];
        }
      }
    }
  }

  /** Deleting subcategory `sidx` of category `idx` and clearing it on its rows
      keeps every reference valid. */
  lemma DeleteSubcategoryKeepsRefs(fin: seq<Txn>, cats: seq<Category>, idx: nat, sidx: nat)
    requires idx < |cats| && sidx < |cats[idx].subcats|
    requires CategoryRefsValid(fin, cats) && SubRefsValid(fin, cats)
    ensures var fin' := Resubcategorize(fin, cats[idx].name, cats[idx].subcats[sidx], None);
            var cats' := DeleteSubcategory(cats, idx, sidx);
            CategoryRefsValid(fin', cats') && SubRefsValid(fin', cats')
  {
    var c, sc := cats[idx], cats[idx].subcats[sidx];
    var fin' := Resubcategorize(fin, c.name, sc, None);
    var cats' := DeleteSubcategory(cats, idx, sidx);
    DeleteSubcategorySpec(cats, idx, sidx);
    forall i | 0 <= i < |fin'| ensures HasCategory(cats', fin'[i].category) {
      assert HasCategory(cats, fin[i].category);
    }
    forall i | 0 <= i < |fin'| && fin'[i].subcategory.Some?
      ensures HasSub(cats', fin'[i].category, fin'[i].subcategory.value)
    {
      var sub := fin[i].subcategory.value;
      var j :| 0 <= j < |cats| && cats[j].name == fin[i].category && sub in cats[j].subcats;
      if j == idx {
        var k :| 0 <= k < |c.subcats| && c.subcats[k] == sub;
        assert k != sidx;
        var k' := if k < sidx then k else k - 1;
        assert cats'[idx].subcats[k'] == sub;
      } else {
        assert cats'[j] == cats[j];
      }
    }
  }

  /** An appended row keeps the references valid exactly when its own
      category exists and its subcategory, if any, is listed under it. */
  lemma AddRowKeepsRefs(fin: seq<Txn>, cats: seq<Category>, r: Txn)
    requires CategoryRefsValid(fin, cats) && SubRefsValid(fin, cats)
    ensures CategoryRefsValid(fin + [r], cats) <==> HasCategory(cats, r.category)
    ensures SubRefsValid(fin + [r], cats) <==> (r.subcategory.Some? ==> HasSub(cats, r.category, r.subcategory.value))
  {
    assert (fin + [r])[|fin|] == r;
    assert forall i :: 0 <= i < |fin| ==> (fin + [r])[i] == fin[i];
  }

  /** Removing rows never invalidates a reference. */
  lemma RemoveRowKeepsRefs(fin: seq<Txn>, cats: seq<Category>, id: int)
    requires CategoryRefsValid(fin, cats) && SubRefsValid(fin, cats)
    ensures CategoryRefsValid(RemoveById(fin, id), cats) && SubRefsValid(RemoveById(fin, id), cats)
  {
    var r := RemoveById(fin, id);
    forall i | 0 <= i < |r|
      ensures HasCategory(cats, r[i].category)
      ensures r[i].subcategory.Some? ==> HasSub(cats, r[i].category, r[i].subcategory.value)
    {
      assert r[i] in fin;
      var j :| 0 <= j < |fin| && fin[j] == r[i];
    }
  }
}
