/** The category selector bar (components/CategorySelector.tsx): a fixed
    list of category names, and a click handler that marks the clicked name
    active and reports a URL slug derived from it. */
module CategorySelector {
  import opened JsText
  import Categories
  import Header

  /** One entry of the selector's `categories` list. */
  datatype Entry = Entry(name: string, subcategories: seq<string>)

  const Entries: seq<Entry> := [
    Entry("TOUS", []),
    Entry("SALLE A MANGER", ["SALLE A MANGER"]),
    Entry("SEJOUR", ["SEJOUR"]),
    Entry("CHAMBRE A COUCHER", ["CHAMBRE A COUCHER"]),
    Entry("ENSEMBLES DE JARDIN", ["ENSEMBLES DE JARDIN"])]

  /** The slug `handleCategoryClick` reports: `tous` for `TOUS`, otherwise
      the lower-cased name with each whitespace run replaced by `-`. */
  function Slug(category: string): (slug: string)
    ensures category == "TOUS" ==> slug == "tous"
    ensures |slug| <= |category|
    ensures slug == [] <==> category == []
  {
    if category == "TOUS" then "tous"
    else
      var lowered := Lower(category);
      assert lowered != [] ==> HyphenateWhitespace(lowered) != [] by {
        if lowered != [] { HyphenateNonEmpty(lowered); }
      }
      HyphenateWhitespace(lowered)
  }

  /** A slug holds no whitespace and no upper-case letter. */
  lemma SlugShape(category: string)
    ensures HasNoWhitespace(Slug(category))
    ensures forall i :: 0 <= i < |Slug(category)| ==> !IsUpperLetter(Slug(category)[i])
  {
    var slug := Slug(category);
    if category == "TOUS" {
      assert slug == "tous";
    } else {
      var lowered := Lower(category);
      HyphenateShape(lowered);
      forall i | 0 <= i < |slug| ensures !IsUpperLetter(slug[i]) {
        if slug[i] != '-' {
          var j :| 0 <= j < |lowered| && lowered[j] == slug[i];
          assert lowered[j] == LowerChar(category[j]);
        }
      }
    }
  }

  /** The `TOUS` special case gives what the general rule would give. */
  lemma TousSpecialCaseAgrees()
    ensures Slug("TOUS") == HyphenateWhitespace(Lower("TOUS"))
  {
    assert Lower("TOUS") == "tous";
    HyphenateNoWhitespace("tous");
  }

  // The listed multi-word names, word by word.

  lemma LowerSalleAManger() ensures Lower("SALLE A MANGER") == Join(["salle", "a", "manger"], ' ') {}
  lemma LowerChambreACoucher() ensures Lower("CHAMBRE A COUCHER") == Join(["chambre", "a", "coucher"], ' ') {}
  lemma LowerEnsemblesDeJardin() ensures Lower("ENSEMBLES DE JARDIN") == Join(["ensembles", "de", "jardin"], ' ') {}

  lemma SlugSalleAManger()
    ensures Slug("SALLE A MANGER") == "salle-a-manger"
  {
    LowerSalleAManger();
    HyphenateJoin(["salle", "a", "manger"]);
    assert Join(["salle", "a", "manger"], '-') == "salle-a-manger";
  }

  lemma SlugChambreACoucher()
    ensures Slug("CHAMBRE A COUCHER") == "chambre-a-coucher"
  {
    LowerChambreACoucher();
    HyphenateJoin(["chambre", "a", "coucher"]);
    assert Join(["chambre", "a", "coucher"], '-') == "chambre-a-coucher";
  }

  lemma SlugEnsemblesDeJardin()
    ensures Slug("ENSEMBLES DE JARDIN") == "ensembles-de-jardin"
  {
    LowerEnsemblesDeJardin();
    HyphenateJoin(["ensembles", "de", "jardin"]);
    assert Join(["ensembles", "de", "jardin"], '-') == "ensembles-de-jardin";
  }

  lemma SlugSejour()
    ensures Slug("SEJOUR") == "sejour"
  {
    assert Lower("SEJOUR") == "sejour";
    HyphenateNoWhitespace("sejour");
  }

  /** Each listed name is a key of the category table, so its label lookup
      is defined, and the slug derived from it is the table's slug. */
  lemma EntriesMatchTable(i: nat)
    requires i < |Entries|
    ensures Entries[i].name == Categories.CategoryKeys[i]
    ensures Entries[i].name in Categories.CategoryDisplayNames
    ensures Slug(Entries[i].name) == Categories.CategoryToSlug[Entries[i].name]
  {
    var name := Entries[i].name;
    if i == 1 { SlugSalleAManger(); }
    else if i == 2 { SlugSejour(); }
    else if i == 3 { SlugChambreACoucher(); }
    else if i == 4 { SlugEnsemblesDeJardin(); }
  }

  /** The header's category for a selector entry. */
  function HeaderCategory(i: nat): Header.Category
    requires i < |Entries|
  {
    Header.NavCategories[i]
  }

  /** The slug a selector click reports leads the header to highlight the
      same category. */
  lemma SlugResolvesInHeader(i: nat)
    requires i < |Entries|
    ensures Header.GetActiveCategory(Some(Header.CategoriesPrefix + Slug(Entries[i].name)))
      == Header.Resolved(HeaderCategory(i))
  {
    EntriesMatchTable(i);
    var c := HeaderCategory(i);
    Header.SlugsAgreeWithTable(c);
    assert Header.LibKey(c) == Entries[i].name;
    Header.NavigationRoundTrip(c);
  }

  /** The selector's state: the active name, and the slugs reported to
      `onSelectCategory` so far. */
  class SelectorState {
    var activeCategory: string
    var reported: seq<string>

    /** `useState('TOUS')`, before any report. */
    constructor()
      ensures activeCategory == "TOUS" && reported == []
    {
      activeCategory := "TOUS";
      reported := [];
    }

    predicate IsActive(name: string)
      reads this
    {
      activeCategory == name
    }

    /** `handleCategoryClick(category)`: the clicked name becomes active and
      its slug is reported once. */
    method HandleCategoryClick(category: string)
      modifies this
      ensures activeCategory == category
      ensures reported == old(reported) + [Slug(category)]
    {
      activeCategory := category;
      var slug := if category == "TOUS" then "tous" else HyphenateWhitespace(Lower(category));
      reported := reported + [slug];
    }
  }
}
