/** The site header (components/Header.tsx): its own, accented, category
    keys; the resolution of the current pathname to the highlighted
    category; and the header's navigation and mobile-menu state. */
module Header {
  import opened JsText
  import Uri
  import Categories

  /** The header's `Category` union. */
  datatype Category = Tous | SalleAManger | Sejour | ChambreACoucher | EnsemblesDeJardin

  /** The string each member of the union stands for: the keys are written
      with their accents, unlike the unaccented keys of the category table. */
  function Key(c: Category): string {
    match c
    case Tous => "TOUS"
    case SalleAManger => "SALLE À MANGER"
    case Sejour => "SÉJOUR"
    case ChambreACoucher => "CHAMBRE À COUCHER"
    case EnsemblesDeJardin => "ENSEMBLES DE JARDIN"
  }

  /** `categories`: the order of the navigation entries. */
  const NavCategories: seq<Category> := [Tous, SalleAManger, Sejour, ChambreACoucher, EnsemblesDeJardin]

  /** `categoryDisplayNames`, as read by `getCategoryDisplayName`. */
  function DisplayName(c: Category): string {
    match c
    case Tous => "Tous"
    case SalleAManger => "Salle à Manger"
    case Sejour => "Séjour"
    case ChambreACoucher => "Chambre à coucher"
    case EnsemblesDeJardin => "Ensembles de Jardin"
  }

  /** The `slugToCategory` table built inside `getActiveCategory`. */
  const SlugToCategory: map<string, Category> := map[
    "tous" := Tous,
    "salle-a-manger" := SalleAManger,
    "sejour" := Sejour,
    "chambre-a-coucher" := ChambreACoucher,
    "ensembles-de-jardin" := EnsemblesDeJardin]

  /** The `categoryToSlug` table built inside `handleCategoryClick`. */
  const CategoryToSlug: map<Category, string> := map[
    Tous := "tous",
    SalleAManger := "salle-a-manger",
    Sejour := "sejour",
    ChambreACoucher := "chambre-a-coucher",
    EnsemblesDeJardin := "ensembles-de-jardin"]

  /** The two tables are inverse to each other over all five categories. */
  lemma SlugTablesInverse()
    ensures forall c: Category :: c in CategoryToSlug
    ensures SlugToCategory.Keys == CategoryToSlug.Values
    ensures forall c :: SlugToCategory[CategoryToSlug[c]] == c
    ensures forall s :: s in SlugToCategory ==> CategoryToSlug[SlugToCategory[s]] == s
  {
    forall c: Category
      ensures c in CategoryToSlug && CategoryToSlug[c] in SlugToCategory && SlugToCategory[CategoryToSlug[c]] == c
    {
      match c
      case Tous =>
      case SalleAManger =>
      case Sejour =>
      case ChambreACoucher =>
      case EnsemblesDeJardin =>
    }
    forall s | s in SlugToCategory ensures s in CategoryToSlug.Values && CategoryToSlug[SlugToCategory[s]] == s {
      assert CategoryToSlug[SlugToCategory[s]] == s;
    }
  }

  // ---------------------------------------------------------------------------
  // Resolving the pathname

  const CategoriesPrefix: string := "/categories/"
  const ProductsPrefix: string := "/products/"

  predicate StartsWith(s: string, prefix: string) {
    |prefix| <= |s| && s[..|prefix|] == prefix
  }

  /** The longest prefix of `s` holding no `/` (the greedy `[^/]*`). */
  function NonSlashRun(s: string): (r: string)
    ensures |r| <= |s| && r == s[..|r|] && '/' !in r
    ensures |r| == |s| || s[|r|] == '/'
  {
    if s == [] || s[0] == '/' then []
    else
      var rest := NonSlashRun(s[1..]);
      assert [s[0]] + rest == s[..|rest| + 1];
      [s[0]] + rest
  }

  /** `pathname.match(/\/categories\/([^/]+)/)`: the capture of the leftmost
      match of the unanchored pattern, if any. */
  function MatchCategoriesSegment(p: string): (r: Option<string>)
    ensures r.Some? ==> r.value != [] && '/' !in r.value
    decreases |p|
  {
    if |p| <= |CategoriesPrefix| then None
    else if p[..|CategoriesPrefix|] == CategoriesPrefix && p[|CategoriesPrefix|] != '/' then
      Some(NonSlashRun(p[|CategoriesPrefix|..]))
    else MatchCategoriesSegment(p[1..])
  }

  /** The decoded segment with its accents stripped and lower-cased. */
  function NormalizedSlug(decoded: string): string {
    Lower(StripAccents(decoded))
  }

  /** What `getActiveCategory` can give, with the URIError a malformed
      escape in the segment throws out of `decodeURIComponent`; an
      `InheritedMember` is a value found on `Object.prototype` rather than
      in the slug table. */
  datatype Active = NoCategory | Resolved(category: Category) | InheritedMember(name: string) | UriError

  /** The own properties of `Object.prototype`, which a lookup in an object
      literal finds when the literal has no property of that name. */
  const ObjectPrototypeMembers: set<string> := {
    "constructor", "__proto__", "__defineGetter__", "__defineSetter__",
    "__lookupGetter__", "__lookupSetter__", "hasOwnProperty", "isPrototypeOf",
    "propertyIsEnumerable", "toString", "toLocaleString", "valueOf"}

  /** `slugToCategory[normalizedSlug] || null`, as JavaScript evaluates it:
      the prototype members are all truthy. */
  function SlugLookupAsWritten(slug: string): (r: Active)
    ensures r.Resolved? <==> slug in SlugToCategory
    ensures r.Resolved? ==> r.category == SlugToCategory[slug]
    ensures r.InheritedMember? <==> slug !in SlugToCategory && slug in ObjectPrototypeMembers
    ensures !r.UriError?
  {
    if slug in SlugToCategory then Resolved(SlugToCategory[slug])
    else if slug in ObjectPrototypeMembers then InheritedMember(slug)
    else NoCategory
  }

  /** The same lookup restricted to the table's own entries. */
  function SlugLookup(slug: string): (r: Active)
    ensures r.Resolved? <==> slug in SlugToCategory
    ensures r.Resolved? ==> r.category == SlugToCategory[slug]
    ensures r.NoCategory? <==> slug !in SlugToCategory
  {
    if slug in SlugToCategory then Resolved(SlugToCategory[slug]) else NoCategory
  }

  /** The steps common to both versions of `getActiveCategory`, with the
      table lookup passed in. */
  function ResolvePath(pathname: Option<string>, lookup: string -> Active): Active {
    if pathname.None? || pathname.value == [] || StartsWith(pathname.value, ProductsPrefix) then
      NoCategory
    else
      match MatchCategoriesSegment(pathname.value)
      case Some(segment) =>
        (match Uri.Decode(segment)
         case None => UriError
         case Some(decoded) => lookup(NormalizedSlug(decoded)))
      case None =>
        if pathname.value == "/" then Resolved(Tous) else NoCategory
  }

  /** `getActiveCategory()` as written. */
  function GetActiveCategoryAsWritten(pathname: Option<string>): (r: Active)
    ensures r.InheritedMember? ==> r.name in ObjectPrototypeMembers && r.name !in SlugToCategory
  {
    ResolvePath(pathname, SlugLookupAsWritten)
  }

  /** `getActiveCategory()` with the lookup confined to the table. */
  function GetActiveCategory(pathname: Option<string>): (r: Active)
    ensures !r.InheritedMember?
  {
    ResolvePath(pathname, SlugLookup)
  }

  // ---------------------------------------------------------------------------
  // Properties of the resolution

  /** No pathname, the empty pathname and every product page highlight
      nothing, whatever else the path holds. */
  lemma NoCategoryOffCatalog(pathname: Option<string>)
    requires pathname.None? || pathname.value == [] || StartsWith(pathname.value, ProductsPrefix)
    ensures GetActiveCategory(pathname) == NoCategory
    ensures GetActiveCategoryAsWritten(pathname) == NoCategory
  {
  }

  /** A product page is off the catalog even when a category path follows. */
  lemma ProductPageWithCategory(rest: string)
    ensures GetActiveCategory(Some(ProductsPrefix + rest)) == NoCategory
  {
    var p := ProductsPrefix + rest;
    assert p[..|ProductsPrefix|] == ProductsPrefix;
    NoCategoryOffCatalog(Some(p));
  }

  /** The home page highlights `TOUS`. */
  lemma HomeIsTous()
    ensures GetActiveCategory(Some("/")) == Resolved(Tous)
  {
    assert !StartsWith("/", ProductsPrefix);
  }

  /** A path that is neither the home page nor a category path highlights nothing. */
  lemma OtherPathsNoCategory(p: string)
    requires p != "/" && MatchCategoriesSegment(p).None?
    ensures GetActiveCategory(Some(p)) == NoCategory
  {
  }

  /** The greedy run takes all of a segment without `/`. */
  lemma {:induction false} NonSlashRunAll(s: string)
    requires '/' !in s
    ensures NonSlashRun(s) == s
  {
    if s != [] {
      NonSlashRunAll(s[1..]);
    }
  }

  /** `/categories/<segment>` captures the segment. */
  lemma MatchPrefixed(segment: string)
    requires segment != [] && '/' !in segment
    ensures MatchCategoriesSegment(CategoriesPrefix + segment) == Some(segment)
  {
    var p := CategoriesPrefix + segment;
    assert p[..|CategoriesPrefix|] == CategoriesPrefix;
    assert p[|CategoriesPrefix|..] == segment;
    NonSlashRunAll(segment);
  }

  /** A category path is not a product page. */
  lemma CategoryPathNotProduct(segment: string)
    ensures !StartsWith(CategoriesPrefix + segment, ProductsPrefix)
  {
    var p := CategoriesPrefix + segment;
    assert p[1] == 'c' && ProductsPrefix[1] == 'p';
    assert |ProductsPrefix| <= |p| ==> p[..|ProductsPrefix|][1] == p[1];
  }

  /** The resolution of `/categories/<segment>`: decode, normalise, look up. */
  lemma ResolveCategoryPath(segment: string)
    requires segment != [] && '/' !in segment
    ensures GetActiveCategory(Some(CategoriesPrefix + segment)) ==
      match Uri.Decode(segment)
      case None => UriError
      case Some(decoded) => SlugLookup(NormalizedSlug(decoded))
  {
    MatchPrefixed(segment);
    CategoryPathNotProduct(segment);
  }

  /** The same resolution with the lookup as written. */
  lemma ResolveCategoryPathAsWritten(segment: string)
    requires segment != [] && '/' !in segment
    ensures GetActiveCategoryAsWritten(Some(CategoriesPrefix + segment)) ==
      match Uri.Decode(segment)
      case None => UriError
      case Some(decoded) => SlugLookupAsWritten(NormalizedSlug(decoded))
  {
    MatchPrefixed(segment);
    CategoryPathNotProduct(segment);
  }

  /** Slug text: lower-case ASCII letters and `-` only. */
  predicate SlugText(s: string) {
    forall i :: 0 <= i < |s| ==> IsAsciiLower(s[i]) || s[i] == '-'
  }

  /** Slug text survives decoding and normalising unchanged. */
  lemma SlugTextFixed(s: string)
    requires SlugText(s)
    ensures Uri.Decode(s) == Some(s)
    ensures NormalizedSlug(s) == s
  {
    assert '%' !in s;
    StripAccentsUnaccented(s);
  }

  lemma SlugsAreSlugText()
    ensures forall c :: c in CategoryToSlug ==> SlugText(CategoryToSlug[c])
  {
    SlugTablesInverse();
    assert SlugText("tous");
    assert SlugText("salle-a-manger");
    assert SlugText("sejour");
    assert SlugText("chambre-a-coucher");
    assert SlugText("ensembles-de-jardin");
  }

  /** The path the header navigates to for a category leads back to it. */
  lemma NavigationRoundTrip(c: Category)
    ensures GetActiveCategory(Some(CategoriesPrefix + CategoryToSlug[c])) == Resolved(c)
  {
    SlugTablesInverse();
    SlugsAreSlugText();
    var s := CategoryToSlug[c];
    assert s != [] && '/' !in s;
    ResolveCategoryPath(s);
    SlugTextFixed(s);
  }

  /** Whenever a path resolves to a category, it is the home page and the
      category is `TOUS`, or its segment normalises to that category's slug. */
  lemma ResolvedMeansSlug(p: string, c: Category)
    requires GetActiveCategory(Some(p)) == Resolved(c)
    ensures (p == "/" && c == Tous) ||
      (MatchCategoriesSegment(p).Some? && Uri.Decode(MatchCategoriesSegment(p).value).Some? &&
       NormalizedSlug(Uri.Decode(MatchCategoriesSegment(p).value).value) == CategoryToSlug[c])
  {
    SlugTablesInverse();
  }

  /** An unknown slug resolves to nothing, never to a default. */
  lemma UnknownSlugNoCategory(segment: string)
    requires segment != [] && '/' !in segment
    requires Uri.Decode(segment).Some? && NormalizedSlug(Uri.Decode(segment).value) !in SlugToCategory
    ensures GetActiveCategory(Some(CategoriesPrefix + segment)) == NoCategory
  {
    ResolveCategoryPath(segment);
  }

  /** A segment that does not decode makes the resolution throw. */
  lemma MalformedSegmentThrows(segment: string)
    requires segment != [] && '/' !in segment && Uri.Decode(segment).None?
    ensures GetActiveCategory(Some(CategoriesPrefix + segment)) == UriError
  {
    ResolveCategoryPath(segment);
  }

  // The living-room category under four spellings.

  lemma DecodePlainSejour()
    ensures Uri.Decode("séjour") == Some("séjour")
    ensures Uri.Decode("sejour") == Some("sejour")
    ensures Uri.Decode("SEJOUR") == Some("SEJOUR")
  {
    assert '%' !in "séjour" && '%' !in "sejour" && '%' !in "SEJOUR";
  }

  /** A character other than `%` decodes to itself, ahead of the rest. */
  lemma DecodeCons(c: char, t: string)
    requires c != '%' && Uri.Decode(t).Some?
    ensures Uri.Decode([c] + t) == Some([c] + Uri.Decode(t).value)
  {
    assert ([c] + t)[1..] == t;
  }

  lemma EscapedSejourPieces()
    ensures "s%C3%A9jour" == ['s'] + ("%C3%A9" + "jour")
    ensures ['s'] + ("é" + "jour") == "séjour"
    ensures '%' !in "jour"
  {
  }

  lemma DecodeEscapedSejour()
    ensures Uri.Decode("s%C3%A9jour") == Some("séjour")
  {
    EscapedSejourPieces();
    Uri.DecodeAccentedE("jour");
    DecodeCons('s', "%C3%A9" + "jour");
  }

  lemma SejourUpperUnaccented() ensures NoAccents("SEJOUR") {}
  lemma StripSejourUpper() ensures StripAccents("SEJOUR") == "SEJOUR" {
    SejourUpperUnaccented(); StripAccentsUnaccented("SEJOUR");
  }
  lemma LowerSejourUpper() ensures Lower("SEJOUR") == "sejour" {}
  lemma LowerSejourPlain() ensures Lower("sejour") == "sejour" {}

  lemma NormalizedSlugSejour()
    ensures NormalizedSlug("séjour") == "sejour"
    ensures NormalizedSlug("sejour") == "sejour"
    ensures NormalizedSlug("SEJOUR") == "sejour"
  {
    Categories.StripLowerSejour(); StripSejourUpper(); Categories.StripSejourSlug();
    LowerSejourUpper(); LowerSejourPlain();
  }

  /** `/categories/séjour`, `/categories/sejour`, `/categories/SEJOUR` and the
      percent-encoded `/categories/s%C3%A9jour` all highlight `SÉJOUR`. */
  lemma SejourSpellings()
    ensures GetActiveCategory(Some("/categories/séjour")) == Resolved(Sejour)
    ensures GetActiveCategory(Some("/categories/sejour")) == Resolved(Sejour)
    ensures GetActiveCategory(Some("/categories/SEJOUR")) == Resolved(Sejour)
    ensures GetActiveCategory(Some("/categories/s%C3%A9jour")) == Resolved(Sejour)
  {
    DecodePlainSejour();
    DecodeEscapedSejour();
    NormalizedSlugSejour();
    SegmentsWithoutSlash();
    ResolveCategoryPath("séjour");
    ResolveCategoryPath("sejour");
    ResolveCategoryPath("SEJOUR");
    ResolveCategoryPath("s%C3%A9jour");
    PrefixedSpellings();
  }

  lemma SegmentsWithoutSlash()
    ensures '/' !in "séjour" && '/' !in "sejour" && '/' !in "SEJOUR" && '/' !in "s%C3%A9jour"
  {
  }

  lemma PrefixedSpellings()
    ensures CategoriesPrefix + "séjour" == "/categories/séjour"
    ensures CategoriesPrefix + "sejour" == "/categories/sejour"
    ensures CategoriesPrefix + "SEJOUR" == "/categories/SEJOUR"
    ensures CategoriesPrefix + "s%C3%A9jour" == "/categories/s%C3%A9jour"
  {
  }

  // ---------------------------------------------------------------------------
  // The links' own `href`

  /** The `href` each navigation link carries: `/categories/` and the
      lower-cased key, accents and spaces included. */
  function LinkHref(c: Category): string {
    CategoriesPrefix + Lower(Key(c))
  }

  /** The path the click handler navigates to: `/categories/` and the slug.
      It always resolves back to its category. */
  function NavigationPath(c: Category): (path: string)
    ensures GetActiveCategory(Some(path)) == Resolved(c)
  {
    NavigationRoundTrip(c);
    CategoriesPrefix + CategoryToSlug[c]
  }

  lemma LowerKeySalle() ensures Lower("SALLE À MANGER") == "salle à manger" {}
  lemma SalleLowerUnaccented() ensures NoAccents("salle") {}
  lemma StripSalleLower() ensures StripAccents("salle") == "salle" {
    SalleLowerUnaccented(); StripAccentsUnaccented("salle");
  }
  lemma MangerLowerUnaccented() ensures NoAccents("manger") {}
  lemma StripMangerLower() ensures StripAccents("manger") == "manger" {
    MangerLowerUnaccented(); StripAccentsUnaccented("manger");
  }
  lemma LowerSalleAManger() ensures Lower("salle a manger") == "salle a manger" {}
  lemma SallePieces() ensures "salle à manger" == "salle" + (" à " + "manger") && "salle a manger" == "salle" + (" a " + "manger") {}

  lemma StripLinkSalle()
    ensures StripAccents("salle à manger") == "salle a manger"
  {
    SallePieces();
    StripAccentsConcat(" à ", "manger");
    StripAccentsConcat("salle", " à " + "manger");
    StripSalleLower(); Categories.StripA(); StripMangerLower();
  }

  lemma LinkSalleSegment()
    ensures '/' !in "salle à manger" && '%' !in "salle à manger"
    ensures "salle a manger" !in SlugToCategory
  {
  }

  /** The dining-room link's `href`, `/categories/salle à manger`, does
      not resolve to the dining room: its segment normalises to
      `salle a manger`, with spaces where the slug has `-`. */
  lemma LinkHrefCounterexample()
    ensures LinkHref(SalleAManger) == CategoriesPrefix + "salle à manger"
    ensures GetActiveCategory(Some(LinkHref(SalleAManger))) == NoCategory
    ensures GetActiveCategory(Some(NavigationPath(SalleAManger))) == Resolved(SalleAManger)
  {
    LowerKeySalle();
    LinkSalleSegment();
    ResolveCategoryPath("salle à manger");
    StripLinkSalle();
    LowerSalleAManger();
    assert NormalizedSlug("salle à manger") == "salle a manger";
  }

  // ---------------------------------------------------------------------------
  // The prototype lookup

  /** The two versions differ only where the normalised slug names a member
      of `Object.prototype` that the table does not hold. */
  lemma AsWrittenAgrees(pathname: Option<string>)
    requires GetActiveCategoryAsWritten(pathname) != GetActiveCategory(pathname)
    ensures GetActiveCategoryAsWritten(pathname).InheritedMember?
    ensures GetActiveCategoryAsWritten(pathname).name in ObjectPrototypeMembers
  {
  }

  lemma ConstructorChars() ensures '/' !in "constructor" && '%' !in "constructor" {}
  lemma ConstructorUnaccented() ensures NoAccents("constructor") {}
  lemma ConstructorStrip() ensures StripAccents("constructor") == "constructor" {
    ConstructorUnaccented();
    StripAccentsUnaccented("constructor");
  }
  lemma ConstructorLower() ensures Lower("constructor") == "constructor" {}
  lemma ConstructorPath() ensures CategoriesPrefix + "constructor" == "/categories/constructor" {}
  lemma ConstructorNotSlug() ensures "constructor" !in SlugToCategory {}

  /** `/categories/constructor` makes the lookup as written return
      `Object.prototype.constructor`, which is not a category, where the
      table-confined lookup highlights nothing. */
  lemma PrototypeLookupCounterexample()
    ensures GetActiveCategoryAsWritten(Some("/categories/constructor")) == InheritedMember("constructor")
    ensures GetActiveCategory(Some("/categories/constructor")) == NoCategory
  {
    ConstructorChars(); ConstructorStrip(); ConstructorLower(); ConstructorPath(); ConstructorNotSlug();
    ResolveCategoryPath("constructor");
    ResolveCategoryPathAsWritten("constructor");
    assert Uri.Decode("constructor") == Some("constructor");
    assert NormalizedSlug("constructor") == "constructor";
  }

  lemma ProtoChars() ensures '/' !in "__proto__" && '%' !in "__proto__" {}
  lemma ProtoUnaccented() ensures NoAccents("__proto__") {}
  lemma ProtoStrip() ensures StripAccents("__proto__") == "__proto__" {
    ProtoUnaccented();
    StripAccentsUnaccented("__proto__");
  }
  lemma ProtoLower() ensures Lower("__proto__") == "__proto__" {}
  lemma ProtoPath() ensures CategoriesPrefix + "__proto__" == "/categories/__proto__" {}
  lemma ProtoNotSlug() ensures "__proto__" !in SlugToCategory {}

  /** `/categories/__proto__` makes the lookup as written store
      `Object.prototype` itself as the active category, which the menu
      label then tries to render; the table-confined lookup gives nothing. */
  lemma ProtoLookupCounterexample()
    ensures GetActiveCategoryAsWritten(Some("/categories/__proto__")) == InheritedMember("__proto__")
    ensures GetActiveCategory(Some("/categories/__proto__")) == NoCategory
  {
    ProtoChars(); ProtoStrip(); ProtoLower(); ProtoPath(); ProtoNotSlug();
    ResolveCategoryPath("__proto__");
    ResolveCategoryPathAsWritten("__proto__");
    assert Uri.Decode("__proto__") == Some("__proto__");
    assert NormalizedSlug("__proto__") == "__proto__";
  }

  // ---------------------------------------------------------------------------
  // Agreement with the category table

  /** The table key of the category table that a header key corresponds to. */
  function LibKey(c: Category): (k: Categories.MainCategory) {
    match c
    case Tous => "TOUS"
    case SalleAManger => "SALLE A MANGER"
    case Sejour => "SEJOUR"
    case ChambreACoucher => "CHAMBRE A COUCHER"
    case EnsemblesDeJardin => "ENSEMBLES DE JARDIN"
  }

  /** The header's slugs are the category table's slugs. */
  lemma SlugsAgreeWithTable(c: Category)
    ensures CategoryToSlug[c] == Categories.CategoryToSlug[LibKey(c)]
  {
    SlugTablesInverse();
  }

  /** The header's display names are the category table's display names. */
  lemma DisplayNamesAgreeWithTable(c: Category)
    ensures DisplayName(c) == Categories.CategoryDisplayNames[LibKey(c)]
  {
  }

  lemma StripKeySallePieces() ensures NoAccents("SALLE ") && NoAccents(" MANGER") {}
  lemma StripKeySalle() ensures StripAccents("SALLE À MANGER") == "SALLE A MANGER" {
    assert "SALLE À MANGER" == "SALLE " + ['À'] + " MANGER";
    StripKeySallePieces();
    StripOneAccent("SALLE ", 'À', " MANGER");
    assert BaseLetter('À') == 'A';
    assert "SALLE " + ['A'] + " MANGER" == "SALLE A MANGER";
  }
  lemma StripKeyChambrePieces() ensures NoAccents("CHAMBRE ") && NoAccents(" COUCHER") {}
  lemma StripKeyChambre() ensures StripAccents("CHAMBRE À COUCHER") == "CHAMBRE A COUCHER" {
    assert "CHAMBRE À COUCHER" == "CHAMBRE " + ['À'] + " COUCHER";
    StripKeyChambrePieces();
    StripOneAccent("CHAMBRE ", 'À', " COUCHER");
    assert BaseLetter('À') == 'A';
    assert "CHAMBRE " + ['A'] + " COUCHER" == "CHAMBRE A COUCHER";
  }
  lemma StripKeySejourPieces() ensures NoAccents("S") && NoAccents("JOUR") {}
  lemma StripKeySejour() ensures StripAccents("SÉJOUR") == "SEJOUR" {
    assert "SÉJOUR" == "S" + ['É'] + "JOUR";
    StripKeySejourPieces();
    StripOneAccent("S", 'É', "JOUR");
    assert BaseLetter('É') == 'E';
    assert "S" + ['E'] + "JOUR" == "SEJOUR";
  }

  /** Stripping the accents of a header key gives the table key. */
  lemma StripKey(c: Category)
    ensures StripAccents(Key(c)) == LibKey(c)
  {
    match c
    case Tous => assert StripAccents("TOUS") == "TOUS";
    case SalleAManger => StripKeySalle();
    case Sejour => StripKeySejour();
    case ChambreACoucher => StripKeyChambre();
    case EnsemblesDeJardin => Categories.KeysValid(); KeyEnsemblesUnaccented();
  }

  lemma KeyEnsemblesUnaccented()
    ensures StripAccents("ENSEMBLES DE JARDIN") == "ENSEMBLES DE JARDIN"
  {
    assert NoAccents("ENSEMBLES DE JARDIN");
    StripAccentsUnaccented("ENSEMBLES DE JARDIN");
  }

  /** Every header key is accepted by `isValidCategory` and normalises to its
      table key, yet the three accented header keys are not table keys:
      the two files name the same categories by different strings. */
  lemma HeaderKeysAgainstTable(c: Category)
    ensures Categories.NormalizeCategory(Key(c)) == LibKey(c)
    ensures Categories.IsValidCategory(Key(c))
    ensures Key(c) in Categories.CategoryKeys <==> c in {Tous, EnsemblesDeJardin}
  {
    HeaderKeyNormalizes(c);
    KeyMembership(c);
  }

  lemma HeaderKeyNormalizes(c: Category)
    ensures Categories.NormalizeCategory(Key(c)) == LibKey(c)
  {
    var k := Key(c);
    var lib := LibKey(c);
    KeyUnpadded(c);
    Categories.TrimUnpadded(k);
    StripKey(c);
    LibKeyUpper(c);
    Categories.NormalizeVia(k, k, lib, lib);
  }

  lemma LibKeyUpper(c: Category)
    ensures Upper(LibKey(c)) == LibKey(c)
  {
    var k := LibKey(c);
    Categories.KeysValid();
    Categories.NormalizeShape(k);
    Categories.UpperNoLower(k);
  }

  lemma KeyUnpadded(c: Category)
    ensures Key(c) != [] && !IsWhitespace(Key(c)[0]) && !IsWhitespace(Key(c)[|Key(c)| - 1])
  {
  }

  lemma KeyMembership(c: Category)
    ensures Key(c) in Categories.CategoryKeys <==> c in {Tous, EnsemblesDeJardin}
  {
    match c
    case Tous => assert Categories.CategoryKeys[0] == "TOUS";
    case EnsemblesDeJardin => assert Categories.CategoryKeys[4] == "ENSEMBLES DE JARDIN";
    case SalleAManger => assert Key(c)[6] == 'À' && Categories.CategoryKeys[1][6] == 'A';
    case Sejour => assert Key(c)[1] == 'É';
    case ChambreACoucher => assert Key(c)[8] == 'À';
  }

  // ---------------------------------------------------------------------------
  // Navigation and menu state

  /** Where the corrected lookup finds a category, the lookup as written
      finds the same one; where it finds none, the one as written finds
      none or an inherited member. */
  lemma AsWrittenOnTable(pathname: Option<string>)
    ensures GetActiveCategory(pathname).Resolved? ==> GetActiveCategoryAsWritten(pathname) == GetActiveCategory(pathname)
    ensures GetActiveCategory(pathname).UriError? <==> GetActiveCategoryAsWritten(pathname).UriError?
    ensures GetActiveCategory(pathname).NoCategory? ==>
      GetActiveCategoryAsWritten(pathname).NoCategory? || GetActiveCategoryAsWritten(pathname).InheritedMember?
  {
  }

  lemma TousPath() ensures NavigationPath(Tous) == "/categories/tous" {}

  /** The header's React state: the highlighted category (`null` as `NoCategory`,
      an inherited object member as `InheritedMember`) and whether the mobile
      menu is open. */
  class HeaderState {
    /** `activeCategory`: `NoCategory` is `null`; an `InheritedMember` is the
        prototype function the lookup as written can store. */
    var activeCategory: Active
    var isMobileMenuOpen: bool

    /** `useState('TOUS')` and `useState(false)`. */
    constructor()
      ensures activeCategory == Resolved(Tous) && !isMobileMenuOpen
    {
      activeCategory := Resolved(Tous);
      isMobileMenuOpen := false;
    }

    /** Whether a navigation entry is drawn as the active one
        (`activeCategory === category`). */
    predicate IsHighlighted(c: Category)
      reads this
    {
      activeCategory == Resolved(c)
    }

    /** `handleCategoryClick(category)`: clicking the active category does
      nothing; clicking another one makes it active, closes the menu and
      pushes `/categories/<slug>`, the path that resolves back to it. */
    method HandleCategoryClick(category: Category) returns (navigation: Option<string>)
      modifies this
      ensures old(activeCategory) == Resolved(category) ==>
        navigation == None && activeCategory == old(activeCategory) && isMobileMenuOpen == old(isMobileMenuOpen)
      ensures old(activeCategory) != Resolved(category) ==>
        activeCategory == Resolved(category) && !isMobileMenuOpen &&
        navigation == Some(NavigationPath(category))
      ensures navigation.Some? ==> GetActiveCategory(navigation) == Resolved(category)
    {
      if activeCategory == Resolved(category) {
        return None;
      }
      activeCategory := Resolved(category);
      isMobileMenuOpen := false;
      navigation := Some(NavigationPath(category));
    }

    /** A click on the logo: `handleLogoClick`, the same as clicking `TOUS`,
      and then the link's own navigation to `/`, which the handler does not
      prevent. The navigations come in the order they are pushed. */
    method HandleLogoClick() returns (navigations: seq<string>)
      modifies this
      ensures old(activeCategory) == Resolved(Tous) ==>
        navigations == ["/"] && activeCategory == old(activeCategory) && isMobileMenuOpen == old(isMobileMenuOpen)
      ensures old(activeCategory) != Resolved(Tous) ==>
        activeCategory == Resolved(Tous) && !isMobileMenuOpen && navigations == ["/categories/tous", "/"]
      ensures GetActiveCategory(Some(navigations[|navigations| - 1])) == Resolved(Tous)
    {
      var navigation := HandleCategoryClick(Tous);
      TousPath();
      HomeIsTous();
      if navigation.Some? {
        navigations := [navigation.value, "/"];
      } else {
        navigations := ["/"];
      }
    }

    /** The menu button's click handler: flips the menu. */
    method ToggleMenu()
      modifies this
      ensures isMobileMenuOpen == !old(isMobileMenuOpen)
      ensures activeCategory == old(activeCategory)
    {
      isMobileMenuOpen := !isMobileMenuOpen;
    }

    /** The document's `mousedown` listener: a press on the menu button is
      left to the button's own handler; any other press closes the menu. */
    method HandleMouseDown(onMenuButton: bool)
      modifies this
      ensures onMenuButton ==> isMobileMenuOpen == old(isMobileMenuOpen)
      ensures !onMenuButton ==> !isMobileMenuOpen
      ensures activeCategory == old(activeCategory)
    {
      if onMenuButton {
        return;
      }
      if isMobileMenuOpen {
        isMobileMenuOpen := false;
      }
    }

    /** The effect that runs when the pathname changes: `activeCategory`
      becomes what `getActiveCategory` as written returns, an inherited
      prototype member included. A malformed escape throws, and the state is
      left as it was; `ok` says whether it did not. Either way the entry
      drawn as active is the one the table-confined lookup finds. */
    method SyncWithPathname(pathname: Option<string>) returns (ok: bool)
      modifies this
      ensures ok <==> !GetActiveCategoryAsWritten(pathname).UriError?
      ensures ok ==> activeCategory == GetActiveCategoryAsWritten(pathname)
      ensures ok ==> forall c :: IsHighlighted(c) <==> GetActiveCategory(pathname) == Resolved(c)
      ensures !ok ==> activeCategory == old(activeCategory)
      ensures isMobileMenuOpen == old(isMobileMenuOpen)
    {
      var r := GetActiveCategoryAsWritten(pathname);
      if r.UriError? {
        return false;
      }
      AsWrittenOnTable(pathname);
      activeCategory := r;
      ok := true;
    }
  }

  /** After following the navigation a click produced, the pathname effect
      keeps the clicked category highlighted. */
  method ClickThenNavigate(h: HeaderState, category: Category)
    modifies h
    ensures h.activeCategory == Resolved(category)
  {
    var navigation := h.HandleCategoryClick(category);
    if navigation.Some? {
      var ok := h.SyncWithPathname(navigation);
    }
  }

  /** After a logo click and the navigations it pushes, the pathname effect
      on the last of them, `/`, highlights `TOUS`. */
  method LogoThenNavigate(h: HeaderState)
    modifies h
    ensures h.activeCategory == Resolved(Tous)
    ensures forall c :: h.IsHighlighted(c) <==> c == Tous
  {
    var navigations := h.HandleLogoClick();
    var ok := h.SyncWithPathname(Some(navigations[|navigations| - 1]));
  }
}
