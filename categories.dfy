/** The closed category table of the storefront (lib/categories.ts): five
    storage-level keys, their display names and URL slugs, the inverted
    slug-to-key map, and the accent- and case-insensitive key normaliser. */
module Categories {
  import opened JsText

  /** `Object.keys(PREDEFINED_CATEGORIES)`, in declaration order. */
  const CategoryKeys: seq<string> :=
    ["TOUS", "SALLE A MANGER", "SEJOUR", "CHAMBRE A COUCHER", "ENSEMBLES DE JARDIN"]

  /** `MainCategory`: a key of the table. */
  type MainCategory = c: string | c in CategoryKeys witness "TOUS"

  /** `PREDEFINED_CATEGORIES`: each key with its list of sub-category labels. */
  const PredefinedCategories: map<string, seq<string>> := map[
    "TOUS" := ["Tous les produits"],
    "SALLE A MANGER" := ["Salle à Manger"],
    "SEJOUR" := ["Séjour"],
    "CHAMBRE A COUCHER" := ["Chambre à coucher"],
    "ENSEMBLES DE JARDIN" := ["Ensembles de Jardin"]]

  /** `CATEGORY_DISPLAY_NAMES` */
  const CategoryDisplayNames: map<string, string> := map[
    "TOUS" := "Tous",
    "SALLE A MANGER" := "Salle à Manger",
    "SEJOUR" := "Séjour",
    "CHAMBRE A COUCHER" := "Chambre à coucher",
    "ENSEMBLES DE JARDIN" := "Ensembles de Jardin"]

  /** `CATEGORY_TO_SLUG` */
  const CategoryToSlug: map<string, string> := map[
    "TOUS" := "tous",
    "SALLE A MANGER" := "salle-a-manger",
    "SEJOUR" := "sejour",
    "CHAMBRE A COUCHER" := "chambre-a-coucher",
    "ENSEMBLES DE JARDIN" := "ensembles-de-jardin"]

  /** `DISPLAY_TO_DB_CATEGORY` */
  const DisplayToDbCategory: map<string, string> := map[
    "TOUS" := "TOUS",
    "SALLE A MANGER" := "SALLE A MANGER",
    "SEJOUR" := "SEJOUR",
    "CHAMBRE A COUCHER" := "CHAMBRE A COUCHER",
    "ENSEMBLES DE JARDIN" := "ENSEMBLES DE JARDIN"]

  /** `Object.entries(m)` for a record keyed by the categories: key/value
      pairs in key declaration order. */
  function Entries(m: map<string, string>): (e: seq<(string, string)>)
    requires forall k :: k in CategoryKeys ==> k in m
    ensures |e| == |CategoryKeys|
    ensures forall i :: 0 <= i < |e| ==> e[i].0 == CategoryKeys[i] && e[i].1 == m[CategoryKeys[i]]
  {
    seq(|CategoryKeys|, i requires 0 <= i < |CategoryKeys| => (CategoryKeys[i], m[CategoryKeys[i]]))
  }

  /** The `reduce` that builds `{...acc, [slug]: category}` entry after entry:
      a later entry overrides an earlier one with the same slug. */
  function InvertEntries(entries: seq<(string, string)>): (m: map<string, string>)
    ensures m.Keys == set i | 0 <= i < |entries| :: entries[i].1
  {
    if entries == [] then map[]
    else
      var last := entries[|entries| - 1];
      var m := InvertEntries(entries[..|entries| - 1])[last.1 := last.0];
      assert forall i :: 0 <= i < |entries| - 1 ==> entries[..|entries| - 1][i] == entries[i];
      m
  }

  predicate DistinctValues(entries: seq<(string, string)>) {
    forall i, j :: 0 <= i < j < |entries| ==> entries[i].1 != entries[j].1
  }

  /** With pairwise distinct values, the inverted map sends each value back to its key. */
  lemma {:induction false} InvertEntriesLookup(entries: seq<(string, string)>, i: nat)
    requires DistinctValues(entries)
    requires i < |entries|
    ensures entries[i].1 in InvertEntries(entries)
    ensures InvertEntries(entries)[entries[i].1] == entries[i].0
  {
    var n := |entries|;
    if i < n - 1 {
      var prefix := entries[..n - 1];
      assert DistinctValues(prefix);
      InvertEntriesLookup(prefix, i);
      assert prefix[i] == entries[i];
    }
  }

  /** `SLUG_TO_CATEGORY` */
  const SlugToCategory: map<string, string> := InvertEntries(Entries(CategoryToSlug))

  /** `normalizeCategory(category)`: trim, strip accents, upper-case. */
  function NormalizeCategory(category: string): (r: string)
    ensures |r| <= |category|
  {
    Upper(StripAccents(Trim(category)))
  }

  /** What the normaliser leaves: no lower-case letter, no combining mark and
      no precomposed accented letter. */
  lemma NormalizeShape(category: string)
    ensures forall i :: 0 <= i < |NormalizeCategory(category)| ==>
      var c := NormalizeCategory(category)[i];
      !IsLowerLetter(c) && !IsCombiningMark(c) && !IsAccented(c)
  {
    var stripped := StripAccents(Trim(category));
    var r := Upper(stripped);
    NormalizeStages(category, Trim(category), stripped);
    StripAccentsShape(Trim(category));
    forall i | 0 <= i < |r|
      ensures !IsLowerLetter(r[i]) && !IsCombiningMark(r[i]) && !IsAccented(r[i])
    {
      assert !IsAccented(stripped[i]) && !IsCombiningMark(stripped[i]);
    }
  }

  /** `isValidCategory(category)`: the normal form is a key, and then it is
      its own normal form, so normalising before validating changes nothing. */
  function IsValidCategory(category: string): (valid: bool)
    ensures valid ==> NormalizeCategory(NormalizeCategory(category)) == NormalizeCategory(category)
  {
    var key := NormalizeCategory(category);
    if key in CategoryKeys then KeyFixed(key); true else false
  }

  /** `getCategoryDisplay(category)`: the display name, which normalises back
      to the key it was looked up with. */
  function GetCategoryDisplay(category: MainCategory): (d: string)
    ensures d == CategoryDisplayNames[category]
    ensures NormalizeCategory(d) == category && IsValidCategory(d)
  {
    DisplayNamesNormalize();
    CategoryDisplayNames[category]
  }

  // ---------------------------------------------------------------------------
  // The shape of the table

  /** Five distinct keys; every table is keyed by exactly those five; each key
      has one sub-category label, one display name and one slug. */
  lemma CategoryTableShape()
    ensures |CategoryKeys| == 5
    ensures forall i, j :: 0 <= i < j < |CategoryKeys| ==> CategoryKeys[i] != CategoryKeys[j]
    ensures PredefinedCategories.Keys == CategoryDisplayNames.Keys == CategoryToSlug.Keys
         == DisplayToDbCategory.Keys == set c | c in CategoryKeys
    ensures forall c :: c in PredefinedCategories ==> |PredefinedCategories[c]| == 1
  {
    KeysDistinct();
    KeySet();
    PredefinedKeys(); DisplayNameKeys(); SlugKeys(); DisplayToDbKeys();
    PredefinedSingletons();
  }

  lemma KeysDistinct()
    ensures forall i, j :: 0 <= i < j < |CategoryKeys| ==> CategoryKeys[i] != CategoryKeys[j]
  {
  }

  lemma KeySet()
    ensures (set c | c in CategoryKeys) ==
      {"TOUS", "SALLE A MANGER", "SEJOUR", "CHAMBRE A COUCHER", "ENSEMBLES DE JARDIN"}
  {
  }

  lemma PredefinedKeys()
    ensures PredefinedCategories.Keys ==
      {"TOUS", "SALLE A MANGER", "SEJOUR", "CHAMBRE A COUCHER", "ENSEMBLES DE JARDIN"}
  {
  }

  lemma DisplayNameKeys()
    ensures CategoryDisplayNames.Keys ==
      {"TOUS", "SALLE A MANGER", "SEJOUR", "CHAMBRE A COUCHER", "ENSEMBLES DE JARDIN"}
  {
  }

  lemma SlugKeys()
    ensures CategoryToSlug.Keys ==
      {"TOUS", "SALLE A MANGER", "SEJOUR", "CHAMBRE A COUCHER", "ENSEMBLES DE JARDIN"}
  {
  }

  lemma DisplayToDbKeys()
    ensures DisplayToDbCategory.Keys ==
      {"TOUS", "SALLE A MANGER", "SEJOUR", "CHAMBRE A COUCHER", "ENSEMBLES DE JARDIN"}
  {
  }

  lemma PredefinedSingletons()
    ensures forall c :: c in PredefinedCategories ==> |PredefinedCategories[c]| == 1
  {
  }

  /** The five slugs are pairwise distinct, so inverting the slug table loses
      nothing: its keys are exactly the five slugs and each leads back to its category. */
  lemma SlugRoundTrip()
    ensures SlugToCategory.Keys == CategoryToSlug.Values
    ensures forall c :: c in CategoryKeys ==> SlugToCategory[CategoryToSlug[c]] == c
  {
    SlugLookups();
    SlugKeysAreSlugs();
  }

  lemma SlugLookups()
    ensures forall c :: c in CategoryKeys ==> CategoryToSlug[c] in SlugToCategory && SlugToCategory[CategoryToSlug[c]] == c
  {
    var e := Entries(CategoryToSlug);
    assert DistinctValues(e);
    forall c | c in CategoryKeys ensures CategoryToSlug[c] in SlugToCategory && SlugToCategory[CategoryToSlug[c]] == c {
      var i :| 0 <= i < |CategoryKeys| && CategoryKeys[i] == c;
      InvertEntriesLookup(e, i);
    }
  }

  lemma SlugKeysAreSlugs()
    ensures SlugToCategory.Keys == CategoryToSlug.Values
  {
    var e := Entries(CategoryToSlug);
    assert SlugToCategory.Keys == set i | 0 <= i < |e| :: e[i].1;
    forall s | s in CategoryToSlug.Values ensures s in SlugToCategory.Keys {
      var c :| c in CategoryToSlug && CategoryToSlug[c] == s;
      SlugKeys();
      KeySet();
      var i :| 0 <= i < |CategoryKeys| && CategoryKeys[i] == c;
      assert e[i].1 == s;
    }
  }

  /** `DISPLAY_TO_DB_CATEGORY` maps every key to itself. */
  lemma DisplayToDbIdentity()
    ensures forall c :: c in CategoryKeys ==> c in DisplayToDbCategory && DisplayToDbCategory[c] == c
  {
  }

  // ---------------------------------------------------------------------------
  // The normaliser

  /** Without combining marks, stripping is a letter-by-letter map. */
  lemma {:induction false} StripAccentsPrecomposed(s: string)
    requires forall i :: 0 <= i < |s| ==> !IsCombiningMark(s[i])
    ensures |StripAccents(s)| == |s|
    ensures forall i :: 0 <= i < |s| ==> StripAccents(s)[i] == BaseLetter(s[i])
  {
    if s != [] {
      StripAccentsPrecomposed(s[1..]);
    }
  }

  /** Trimming leaves a string that neither starts nor ends with whitespace untouched. */
  lemma TrimUnpadded(s: string)
    requires s == [] || (!IsWhitespace(s[0]) && !IsWhitespace(s[|s| - 1]))
    ensures Trim(s) == s
  {
    assert TrimStart(s) == s;
  }

  /** The normaliser's three stages, one at a time. */
  lemma NormalizeStages(s: string, trimmed: string, stripped: string)
    requires Trim(s) == trimmed && StripAccents(trimmed) == stripped
    ensures NormalizeCategory(s) == Upper(stripped)
  {
  }

  /** Upper-casing changes nothing in text without lower-case letters. */
  lemma UpperNoLower(s: string)
    requires forall i :: 0 <= i < |s| ==> !IsLowerLetter(s[i])
    ensures Upper(s) == s
  {
  }

  /** For text written with precomposed letters, normalising is the letter-by-letter
      map `UpperChar . BaseLetter` of the trimmed text. */
  lemma NormalizePrecomposed(s: string)
    requires forall i :: 0 <= i < |s| ==> !IsCombiningMark(s[i])
    ensures var t := Trim(s);
      |NormalizeCategory(s)| == |t| &&
      forall i :: 0 <= i < |t| ==> NormalizeCategory(s)[i] == UpperChar(BaseLetter(t[i]))
  {
    var t := Trim(s);
    forall i | 0 <= i < |t| ensures !IsCombiningMark(t[i]) {
      assert t[i] == s[LeadingWhitespace(s) + i];
    }
    StripAccentsPrecomposed(t);
    NormalizeStages(s, t, StripAccents(t));
  }

  /** Normalising one letter keeps whether it is whitespace. */
  lemma NormalizeCharWhitespace(c: char)
    ensures IsWhitespace(UpperChar(BaseLetter(c))) == IsWhitespace(c)
  {
  }

  /** Over precomposed text, normalising twice is normalising once. */
  lemma NormalizeIdempotent(s: string)
    requires forall i :: 0 <= i < |s| ==> !IsCombiningMark(s[i])
    ensures NormalizeCategory(NormalizeCategory(s)) == NormalizeCategory(s)
  {
    var t := Trim(s);
    var r := NormalizeCategory(s);
    NormalizeShape(s);
    NormalizePrecomposed(s);
    if r != [] {
      NormalizeCharWhitespace(t[0]);
      NormalizeCharWhitespace(t[|t| - 1]);
    }
    NormalizeCanonical(r);
  }

  /** For every text, decomposed or not, normalising again only trims: the normal
      form is already upper-case and unaccented, and the one stage that can still
      change it is the trim, which whitespace uncovered by stripping a mark survives. */
  lemma NormalizeTwice(s: string)
    ensures NormalizeCategory(NormalizeCategory(s)) == Trim(NormalizeCategory(s))
  {
    var r := NormalizeCategory(s);
    var u := Trim(r);
    NormalizeShape(s);
    forall i | 0 <= i < |u| ensures !IsLowerLetter(u[i]) && !IsCombiningMark(u[i]) && !IsAccented(u[i]) {
      assert u[i] == r[LeadingWhitespace(r) + i];
    }
    NormalizeCanonical(u);
    TrimIdempotent(r);
    NormalizeStages(r, u, StripAccents(u));
    NormalizeStages(u, u, StripAccents(u));
  }

  /** Wherever the normal form carries no padding, normalising twice is normalising
      once; this covers decomposed text such as `"se\U{301}jour"`. */
  lemma NormalizeIdempotentUnpadded(s: string)
    requires var r := NormalizeCategory(s); r == [] || (!IsWhitespace(r[0]) && !IsWhitespace(r[|r| - 1]))
    ensures NormalizeCategory(NormalizeCategory(s)) == NormalizeCategory(s)
  {
    NormalizeTwice(s);
    TrimUnpadded(NormalizeCategory(s));
  }

  /** The stages of normalising `"a \U{301}"`: the trim keeps the space
      because the combining mark comes after it. */
  lemma StrayMarkTrim()
    ensures Trim("a \U{301}") == "a \U{301}"
  {
    assert TrimStart("a \U{301}") == "a \U{301}";
  }
  lemma StrayMarkStrip()
    ensures StripAccents("a \U{301}") == "a "
  {
    var s := "a \U{301}";
    assert StripAccents(s[2..]) == [];
    assert StripAccents(s[1..]) == " ";
  }
  lemma StrayMarkUpper() ensures Upper("a ") == "A " {}

  /** The stages of normalising `"A "`. */
  lemma PaddedKeyStages()
    ensures Trim("A ") == "A"
    ensures StripAccents("A") == "A"
    ensures Upper("A") == "A"
  {
    assert TrimStart("A ") == "A ";
    assert TrimEnd("A ") == "A";
  }

  /** A combining mark written after trailing whitespace defeats idempotence:
      the whitespace survives the trim that precedes the accent stripping. */
  lemma NormalizeStrayMark()
    ensures NormalizeCategory("a \U{301}") == "A "
    ensures NormalizeCategory("A ") == "A"
  {
    StrayMarkTrim(); StrayMarkStrip(); StrayMarkUpper();
    NormalizeVia("a \U{301}", "a \U{301}", "a ", "A ");
    PaddedKeyStages();
    NormalizeStages("A ", "A", "A");
  }

  /** A text already in key form (upper-case, unaccented, unpadded) normalises to itself. */
  lemma NormalizeCanonical(s: string)
    requires NoAccents(s) && forall i :: 0 <= i < |s| ==> !IsLowerLetter(s[i])
    requires s == [] || (!IsWhitespace(s[0]) && !IsWhitespace(s[|s| - 1]))
    ensures NormalizeCategory(s) == s
  {
    TrimUnpadded(s);
    StripAccentsUnaccented(s);
    NormalizeStages(s, s, s);
    UpperNoLower(s);
  }

  /** Every key is a valid category. */
  lemma KeysValid()
    ensures forall c :: c in CategoryKeys ==> NormalizeCategory(c) == c && IsValidCategory(c)
  {
    forall c | c in CategoryKeys ensures NormalizeCategory(c) == c {
      KeyFixed(c);
    }
  }

  /** A key is its own normal form. */
  lemma KeyFixed(c: string)
    requires c in CategoryKeys
    ensures NormalizeCategory(c) == c
  {
    KeyCases(c);
    if c == "TOUS" { KeyTousCanonical(); }
    else if c == "SALLE A MANGER" { KeySalleAMangerCanonical(); }
    else if c == "SEJOUR" { KeySejourCanonical(); }
    else if c == "CHAMBRE A COUCHER" { KeyChambreACoucherCanonical(); }
    else { KeyEnsemblesDeJardinCanonical(); }
  }

  // Each key is in key form, one key at a time.

  lemma KeyTousCanonical() ensures NormalizeCategory("TOUS") == "TOUS" {
    NormalizeCanonical("TOUS");
  }
  lemma KeySalleAMangerCanonical() ensures NormalizeCategory("SALLE A MANGER") == "SALLE A MANGER" {
    NormalizeCanonical("SALLE A MANGER");
  }
  lemma KeySejourCanonical() ensures NormalizeCategory("SEJOUR") == "SEJOUR" {
    NormalizeCanonical("SEJOUR");
  }
  lemma KeyChambreACoucherCanonical() ensures NormalizeCategory("CHAMBRE A COUCHER") == "CHAMBRE A COUCHER" {
    NormalizeCanonical("CHAMBRE A COUCHER");
  }
  lemma KeyEnsemblesDeJardinCanonical() ensures NormalizeCategory("ENSEMBLES DE JARDIN") == "ENSEMBLES DE JARDIN" {
    NormalizeCanonical("ENSEMBLES DE JARDIN");
  }

  /** The normaliser's three stages, each given as its result. */
  lemma NormalizeVia(s: string, trimmed: string, stripped: string, r: string)
    requires Trim(s) == trimmed && StripAccents(trimmed) == stripped && Upper(stripped) == r
    ensures NormalizeCategory(s) == r
  {
    NormalizeStages(s, trimmed, stripped);
  }

  // The display names, word by word: each fact about a literal sits in a
  // lemma of its own so that the verifier evaluates one short text at a time.

  lemma TousUnaccented() ensures NoAccents("Tous") {}
  lemma StripTous() ensures StripAccents("Tous") == "Tous" {
    TousUnaccented(); StripAccentsUnaccented("Tous");
  }
  lemma SejourPieces() ensures NoAccents("S") && NoAccents("s") && NoAccents("jour") {}
  lemma StripSejour() ensures StripAccents("Séjour") == "Sejour" {
    assert "Séjour" == "S" + ['é'] + "jour";
    SejourPieces();
    StripOneAccent("S", 'é', "jour");
    assert BaseLetter('é') == 'e';
    assert "S" + ['e'] + "jour" == "Sejour";
  }
  lemma SalleUnaccented() ensures NoAccents("Salle") {}
  lemma StripSalle() ensures StripAccents("Salle") == "Salle" {
    SalleUnaccented(); StripAccentsUnaccented("Salle");
  }
  lemma StripA() ensures StripAccents(" à ") == " a " {
    assert " à " == " " + ['à'] + " ";
    StripOneAccent(" ", 'à', " ");
    assert BaseLetter('à') == 'a';
    assert " " + ['a'] + " " == " a ";
  }
  lemma MangerUnaccented() ensures NoAccents("Manger") {}
  lemma StripManger() ensures StripAccents("Manger") == "Manger" {
    MangerUnaccented(); StripAccentsUnaccented("Manger");
  }
  lemma ChambreUnaccented() ensures NoAccents("Chambre") {}
  lemma StripChambre() ensures StripAccents("Chambre") == "Chambre" {
    ChambreUnaccented(); StripAccentsUnaccented("Chambre");
  }
  lemma CoucherUnaccented() ensures NoAccents("coucher") {}
  lemma StripCoucher() ensures StripAccents("coucher") == "coucher" {
    CoucherUnaccented(); StripAccentsUnaccented("coucher");
  }
  lemma EnsemblesUnaccented() ensures NoAccents("Ensembles") {}
  lemma StripEnsembles() ensures StripAccents("Ensembles") == "Ensembles" {
    EnsemblesUnaccented(); StripAccentsUnaccented("Ensembles");
  }
  lemma DeUnaccented() ensures NoAccents(" de ") {}
  lemma StripDe() ensures StripAccents(" de ") == " de " {
    DeUnaccented(); StripAccentsUnaccented(" de ");
  }
  lemma JardinUnaccented() ensures NoAccents("Jardin") {}
  lemma StripJardin() ensures StripAccents("Jardin") == "Jardin" {
    JardinUnaccented(); StripAccentsUnaccented("Jardin");
  }

  lemma TrimTous() ensures Trim("Tous") == "Tous" { TrimUnpadded("Tous"); }
  lemma TrimSejour() ensures Trim("Séjour") == "Séjour" { TrimUnpadded("Séjour"); }
  lemma TrimSalleAManger() ensures Trim("Salle à Manger") == "Salle à Manger" {
    TrimUnpadded("Salle à Manger");
  }
  lemma TrimChambreACoucher() ensures Trim("Chambre à coucher") == "Chambre à coucher" {
    TrimUnpadded("Chambre à coucher");
  }
  lemma TrimEnsemblesDeJardin() ensures Trim("Ensembles de Jardin") == "Ensembles de Jardin" {
    TrimUnpadded("Ensembles de Jardin");
  }

  lemma UpperTous() ensures Upper("Tous") == "TOUS" {}
  lemma UpperSejour() ensures Upper("Sejour") == "SEJOUR" {}
  lemma UpperSalleAManger() ensures Upper("Salle a Manger") == "SALLE A MANGER" {}
  lemma UpperChambreACoucher() ensures Upper("Chambre a coucher") == "CHAMBRE A COUCHER" {}
  lemma UpperEnsemblesDeJardin() ensures Upper("Ensembles de Jardin") == "ENSEMBLES DE JARDIN" {}

  lemma SplitSalleAManger()
    ensures "Salle à Manger" == "Salle" + " à " + "Manger"
    ensures "Salle a Manger" == "Salle" + " a " + "Manger"
  {
  }
  lemma SplitChambreACoucher()
    ensures "Chambre à coucher" == "Chambre" + " à " + "coucher"
    ensures "Chambre a coucher" == "Chambre" + " a " + "coucher"
  {
  }
  lemma SplitEnsemblesDeJardin()
    ensures "Ensembles de Jardin" == "Ensembles" + " de " + "Jardin"
  {
  }

  lemma StripSalleAManger()
    ensures StripAccents("Salle à Manger") == "Salle a Manger"
  {
    SplitSalleAManger();
    StripAccentsConcat("Salle" + " à ", "Manger");
    StripAccentsConcat("Salle", " à ");
    StripSalle(); StripA(); StripManger();
  }

  lemma StripChambreACoucher()
    ensures StripAccents("Chambre à coucher") == "Chambre a coucher"
  {
    SplitChambreACoucher();
    StripAccentsConcat("Chambre" + " à ", "coucher");
    StripAccentsConcat("Chambre", " à ");
    StripChambre(); StripA(); StripCoucher();
  }

  lemma StripEnsemblesDeJardin()
    ensures StripAccents("Ensembles de Jardin") == "Ensembles de Jardin"
  {
    SplitEnsemblesDeJardin();
    StripAccentsConcat("Ensembles" + " de ", "Jardin");
    StripAccentsConcat("Ensembles", " de ");
    StripEnsembles(); StripDe(); StripJardin();
  }

  /** The five keys, one by one. */
  lemma KeyCases(c: string)
    requires c in CategoryKeys
    ensures c == "TOUS" || c == "SALLE A MANGER" || c == "SEJOUR" || c == "CHAMBRE A COUCHER"
         || c == "ENSEMBLES DE JARDIN"
  {
  }

  /** Every display name normalises to its own key, so every display name is valid. */
  lemma DisplayNamesNormalize()
    ensures forall c :: c in CategoryKeys ==>
      NormalizeCategory(CategoryDisplayNames[c]) == c && IsValidCategory(CategoryDisplayNames[c])
  {
    forall c | c in CategoryKeys
      ensures NormalizeCategory(CategoryDisplayNames[c]) == c
    {
      DisplayNameNormalizes(c);
    }
  }

  lemma DisplayNameNormalizes(c: string)
    requires c in CategoryKeys
    ensures NormalizeCategory(CategoryDisplayNames[c]) == c
  {
    KeyCases(c);
    if c == "TOUS" {
      DisplayTousNormalizes();
    } else if c == "SALLE A MANGER" {
      DisplaySalleAMangerNormalizes();
    } else if c == "SEJOUR" {
      DisplaySejourNormalizes();
    } else if c == "CHAMBRE A COUCHER" {
      DisplayChambreACoucherNormalizes();
    } else {
      DisplayEnsemblesDeJardinNormalizes();
    }
  }

  lemma DisplayTousNormalizes()
    ensures NormalizeCategory(CategoryDisplayNames["TOUS"]) == "TOUS"
  {
    assert CategoryDisplayNames["TOUS"] == "Tous";
    TrimTous(); StripTous(); UpperTous();
    NormalizeVia("Tous", "Tous", "Tous", "TOUS");
  }

  lemma DisplaySalleAMangerNormalizes()
    ensures NormalizeCategory(CategoryDisplayNames["SALLE A MANGER"]) == "SALLE A MANGER"
  {
    assert CategoryDisplayNames["SALLE A MANGER"] == "Salle à Manger";
    TrimSalleAManger(); StripSalleAManger(); UpperSalleAManger();
    NormalizeVia("Salle à Manger", "Salle à Manger", "Salle a Manger", "SALLE A MANGER");
  }

  lemma DisplaySejourNormalizes()
    ensures NormalizeCategory(CategoryDisplayNames["SEJOUR"]) == "SEJOUR"
  {
    assert CategoryDisplayNames["SEJOUR"] == "Séjour";
    TrimSejour(); StripSejour(); UpperSejour();
    NormalizeVia("Séjour", "Séjour", "Sejour", "SEJOUR");
  }

  lemma DisplayChambreACoucherNormalizes()
    ensures NormalizeCategory(CategoryDisplayNames["CHAMBRE A COUCHER"]) == "CHAMBRE A COUCHER"
  {
    assert CategoryDisplayNames["CHAMBRE A COUCHER"] == "Chambre à coucher";
    TrimChambreACoucher(); StripChambreACoucher(); UpperChambreACoucher();
    NormalizeVia("Chambre à coucher", "Chambre à coucher", "Chambre a coucher", "CHAMBRE A COUCHER");
  }

  lemma DisplayEnsemblesDeJardinNormalizes()
    ensures NormalizeCategory(CategoryDisplayNames["ENSEMBLES DE JARDIN"]) == "ENSEMBLES DE JARDIN"
  {
    assert CategoryDisplayNames["ENSEMBLES DE JARDIN"] == "Ensembles de Jardin";
    TrimEnsemblesDeJardin(); StripEnsemblesDeJardin(); UpperEnsemblesDeJardin();
    NormalizeVia("Ensembles de Jardin", "Ensembles de Jardin", "Ensembles de Jardin", "ENSEMBLES DE JARDIN");
  }

  lemma StripLowerSejour() ensures StripAccents("séjour") == "sejour" {
    assert "séjour" == "s" + ['é'] + "jour";
    SejourPieces();
    StripOneAccent("s", 'é', "jour");
    assert BaseLetter('é') == 'e';
    assert "s" + ['e'] + "jour" == "sejour";
  }
  lemma UpperLowerSejour() ensures Upper("sejour") == "SEJOUR" {}

  /** Padding and case do not matter: the padded lower-case and the
      upper-case unaccented spellings of the living-room category give its key too. */
  lemma NormalizeSejourSpellings()
    ensures NormalizeCategory(" séjour ") == "SEJOUR"
    ensures NormalizeCategory("SEJOUR") == "SEJOUR"
  {
    NormalizePaddedSejour();
    KeySejourCanonical();
  }

  lemma TrimPaddedSejour() ensures Trim(" séjour ") == "séjour"
  {
    assert " séjour " == [' '] + "séjour" + [' '];
    TrimSpaced("séjour");
  }

  lemma NormalizePaddedSejour() ensures NormalizeCategory(" séjour ") == "SEJOUR"
  {
    TrimPaddedSejour(); StripLowerSejour(); UpperLowerSejour();
    NormalizeVia(" séjour ", "séjour", "sejour", "SEJOUR");
  }

  // ---------------------------------------------------------------------------
  // What the normaliser does not do

  /** Stripping keeps every character that is neither accented nor a combining mark. */
  lemma {:induction false} StripAccentsKeeps(s: string, c: char)
    requires c in s && !IsCombiningMark(c) && !IsAccented(c)
    ensures c in StripAccents(s)
  {
    if s[0] != c {
      StripAccentsKeeps(s[1..], c);
    }
  }

  /** No key holds a `-`. */
  lemma KeysUnhyphenated()
    ensures forall c :: c in CategoryKeys ==> '-' !in c
  {
  }

  /** Normalising keeps every `-`, and no key holds one: any text containing
      `-` is rejected. */
  lemma HyphenatedInvalid(s: string)
    requires '-' in s
    ensures !IsValidCategory(s)
  {
    var t := Trim(s);
    HyphenSurvivesTrim(s);
    StripAccentsKeeps(t, '-');
    HyphenSurvivesUpper(StripAccents(t));
    KeysUnhyphenated();
  }

  lemma HyphenSurvivesTrim(s: string)
    requires '-' in s
    ensures '-' in Trim(s)
  {
    var i :| 0 <= i < |s| && s[i] == '-';
    var lead, r := LeadingWhitespace(s), Trim(s);
    assert !IsWhitespace(s[i]);
    assert lead <= i < lead + |r|;
    assert r[i - lead] == s[lead..lead + |r|][i - lead];
  }

  lemma HyphenSurvivesUpper(s: string)
    requires '-' in s
    ensures '-' in Upper(s)
  {
    var j :| 0 <= j < |s| && s[j] == '-';
    assert Upper(s)[j] == '-';
  }

  lemma TrimTousSlug() ensures Trim("tous") == "tous" { TrimUnpadded("tous"); }
  lemma TousSlugUnaccented() ensures NoAccents("tous") {}
  lemma StripTousSlug() ensures StripAccents("tous") == "tous" {
    TousSlugUnaccented(); StripAccentsUnaccented("tous");
  }
  lemma UpperTousSlug() ensures Upper("tous") == "TOUS" {}
  lemma TrimSejourSlug() ensures Trim("sejour") == "sejour" { TrimUnpadded("sejour"); }
  lemma SejourSlugUnaccented() ensures NoAccents("sejour") {}
  lemma StripSejourSlug() ensures StripAccents("sejour") == "sejour" {
    SejourSlugUnaccented(); StripAccentsUnaccented("sejour");
  }

  /** The one-word slugs pass `isValidCategory`. */
  lemma SlugsValidity()
    ensures IsValidCategory("tous") && IsValidCategory("sejour")
  {
    SlugTousNormalizes();
    SlugSejourNormalizes();
    assert CategoryKeys[0] == "TOUS" && CategoryKeys[2] == "SEJOUR";
  }

  lemma SlugTousNormalizes() ensures NormalizeCategory("tous") == "TOUS"
  {
    TrimTousSlug(); StripTousSlug(); UpperTousSlug();
    NormalizeVia("tous", "tous", "tous", "TOUS");
  }

  lemma SlugSejourNormalizes() ensures NormalizeCategory("sejour") == "SEJOUR"
  {
    TrimSejourSlug(); StripSejourSlug(); UpperLowerSejour();
    NormalizeVia("sejour", "sejour", "sejour", "SEJOUR");
  }

  /** The hyphenated slugs do not. */
  lemma HyphenatedSlugsInvalid(slug: string)
    requires slug in CategoryToSlug.Values && slug != "tous" && slug != "sejour"
    ensures !IsValidCategory(slug)
  {
    assert slug == "salle-a-manger" || slug == "chambre-a-coucher" || slug == "ensembles-de-jardin";
    if slug == "salle-a-manger" { assert slug[5] == '-'; }
    else if slug == "chambre-a-coucher" { assert slug[7] == '-'; }
    else { assert slug[9] == '-'; }
    HyphenatedInvalid(slug);
  }
}
