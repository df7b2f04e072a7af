/** The quick-view dialog (components/QuickView.tsx): the image list and
    its navigation, its own reading of the pack `dimensions`, the simulated
    viewer count, and the per-store stock panel. */
module QuickView {
  import opened JsText
  import ProductCard

  // ---------------------------------------------------------------------------
  // Images

  /** `filter(Boolean)` over image URLs: the empty ones are dropped. */
  function NonEmpty(urls: seq<string>): (r: seq<string>)
    ensures |r| <= |urls|
    ensures forall u :: u in r <==> u in urls && u != ""
  {
    if urls == [] then []
    else (if urls[0] != "" then [urls[0]] else []) + NonEmpty(urls[1..])
  }

  /** Filtering a concatenation filters each side, in order. */
  lemma {:induction false} NonEmptyAppend(a: seq<string>, b: seq<string>)
    ensures NonEmpty(a + b) == NonEmpty(a) + NonEmpty(b)
  {
    if a != [] {
      var head := if a[0] != "" then [a[0]] else [];
      assert (a + b)[0] == a[0] && (a + b)[1..] == a[1..] + b;
      assert NonEmpty(a + b) == head + NonEmpty(a[1..] + b);
      NonEmptyAppend(a[1..], b);
      assert NonEmpty(a) == head + NonEmpty(a[1..]);
    } else {
      assert a + b == b;
    }
  }

  /** `images`: the main image, then the gallery, without empty entries. */
  function Images(mainImage: string, gallery: seq<string>): (images: seq<string>)
    ensures forall u :: u in images ==> u != ""
    ensures mainImage != "" ==> |images| > 0 && images[0] == mainImage
  {
    NonEmpty([mainImage] + gallery)
  }

  /** The images are the non-empty ones among the main image and the
      gallery, the main image first when it is set. */
  lemma ImagesShape(mainImage: string, gallery: seq<string>)
    ensures |Images(mainImage, gallery)| <= 1 + |gallery|
    ensures forall u :: u in Images(mainImage, gallery) <==> (u == mainImage || u in gallery) && u != ""
    ensures mainImage != "" ==> Images(mainImage, gallery) == [mainImage] + NonEmpty(gallery)
    ensures mainImage == "" ==> Images(mainImage, gallery) == NonEmpty(gallery)
  {
    NonEmptyAppend([mainImage], gallery);
  }

  /** The arrows and the `n / total` counter are shown only for more than
      one image. */
  predicate ShowsNavigation(images: seq<string>) {
    |images| > 1
  }

  /** A main image and one non-empty gallery entry are enough for the
      arrows; a gallery of empty entries never shows them. */
  lemma NavigationShown(mainImage: string, gallery: seq<string>)
    ensures mainImage != "" && (exists g :: g in gallery && g != "") ==> ShowsNavigation(Images(mainImage, gallery))
    ensures (forall g :: g in gallery ==> g == "") ==> !ShowsNavigation(Images(mainImage, gallery))
  {
    ImagesShape(mainImage, gallery);
    var rest := NonEmpty(gallery);
    if exists g :: g in gallery && g != "" {
      var g :| g in gallery && g != "";
      assert g in rest;
    }
    if forall g :: g in gallery ==> g == "" {
      assert forall i :: 0 <= i < |gallery| ==> gallery[i] in gallery;
      NonEmptyOfEmpties(gallery);
    }
  }

  lemma {:induction false} NonEmptyOfEmpties(urls: seq<string>)
    requires forall i :: 0 <= i < |urls| ==> urls[i] == ""
    ensures NonEmpty(urls) == []
  {
    if urls != [] {
      NonEmptyOfEmpties(urls[1..]);
    }
  }

  // ---------------------------------------------------------------------------
  // Pack contents, as the dialog reads them

  /** A line of the dialog's pack list; `qty` is `None` where `parseInt`
      gives NaN. */
  datatype ViewerItem = ViewerItem(name: string, qty: Option<int>)

  /** The second item: the part cut at `x`, the name before the first `x`
      and the quantity read from what lies between the first and second
      `x`, `'1'` when that is missing or empty. */
  function SecondItem(part: string): (item: ViewerItem)
    ensures 'x' !in item.name && item.name <= part
    ensures |item.name| == |part| || part[|item.name|] == 'x'
  {
    var pieces := Split(part, 'x');
    assert |pieces| > 1 ==> part == pieces[0] + ['x'] + Join(pieces[1..], 'x');
    ViewerItem(pieces[0], ParseInt(if |pieces| > 1 && pieces[1] != "" then pieces[1] else "1"))
  }

  /** The dialog's `packItems`: one item for a single part; otherwise the
      first part with quantity 1 and the second part cut at `x`. */
  function PackItems(dimensions: string): (items: seq<ViewerItem>)
    ensures 1 <= |items| <= 2
  {
    var parts := ProductCard.PackParts(dimensions);
    if |parts| == 1 then [ViewerItem(parts[0], Some(1))]
    else [ViewerItem(parts[0], Some(1)), SecondItem(parts[1])]
  }

  /** `dimensions` without `+`: one item, the trimmed text, quantity 1. */
  lemma SinglePart(dimensions: string)
    requires '+' !in dimensions
    ensures PackItems(dimensions) == [ViewerItem(Trim(dimensions), Some(1))]
  {
    SplitFree(dimensions, '+');
  }

  /** With a `+` there are exactly two items, whatever the number of parts. */
  lemma TwoItems(dimensions: string)
    requires '+' in dimensions
    ensures var parts := ProductCard.PackParts(dimensions);
      |parts| >= 2 && PackItems(dimensions) == [ViewerItem(parts[0], Some(1)), SecondItem(parts[1])]
  {
    CountPositive(dimensions, '+');
  }

  /** Parts after the second are dropped. */
  lemma LaterPartsDropped(a: string, b: string, rest: string)
    requires '+' !in a && '+' !in b
    ensures PackItems(a + "+" + b + "+" + rest) == PackItems(a + "+" + b)
  {
    var long := a + "+" + b + "+" + rest;
    var short := a + "+" + b;
    assert long == a + ['+'] + (b + ['+'] + rest);
    assert short == a + ['+'] + b;
    SplitPrefix(a, '+', b + ['+'] + rest);
    SplitPrefix(b, '+', rest);
    SplitPrefix(a, '+', b);
    SplitFree(b, '+');
    ProductCard.PartsOfTwoPieces(short, a, b);
    LongParts(long, a, b, Split(rest, '+'));
  }

  /** Text cut into `a`, `b` and more pieces has `a` and `b`, trimmed, as
      its first two parts. */
  lemma LongParts(dimensions: string, a: string, b: string, more: seq<string>)
    requires Split(dimensions, '+') == [a] + ([b] + more)
    ensures |ProductCard.PackParts(dimensions)| >= 2
    ensures ProductCard.PackParts(dimensions)[0] == Trim(a) && ProductCard.PackParts(dimensions)[1] == Trim(b)
  {
    assert Split(dimensions, '+')[0] == a && Split(dimensions, '+')[1] == b;
  }

  lemma ParseOne()
    ensures ParseInt("1") == Some(1)
  {
    ParseIntDigits("1");
  }

  /** The second quantity is 1 when the part has no `x`, or nothing
      between its first and second `x`. */
  lemma SecondQuantityDefault(part: string)
    ensures 'x' !in part ==> SecondItem(part).qty == Some(1)
    ensures |Split(part, 'x')| > 1 && Split(part, 'x')[1] == "" ==> SecondItem(part).qty == Some(1)
  {
    ParseOne();
    if 'x' !in part {
      SplitFree(part, 'x');
    }
  }

  /** The format this reading expects: the name, `x`, then the quantity. */
  lemma SecondNameThenQuantity(name: string, k: nat)
    requires 'x' !in name
    ensures SecondItem(name + "x" + NatToString(k)) == ViewerItem(name, Some(k))
  {
    var digits := NatToString(k);
    assert name + "x" + digits == name + ['x'] + digits;
    SplitPrefix(name, 'x', digits);
    assert 'x' !in digits by {
      forall i | 0 <= i < |digits| ensures digits[i] != 'x' { assert IsDigit(digits[i]); }
    }
    SplitFree(digits, 'x');
    ParseIntToString(k);
  }

  // The two readings of one `dimensions` text.

  /** A word the pack texts are made of: non-empty, without whitespace,
      and holding neither `+` nor `x`. */
  predicate PlainWord(w: string) {
    w != [] && HasNoWhitespace(w) && '+' !in w && 'x' !in w
  }

  /** Digits hold neither `+` nor `x`. */
  lemma DigitsPlain(digits: string)
    requires AllDigits(digits)
    ensures '+' !in digits && 'x' !in digits
  {
    forall i | 0 <= i < |digits| ensures digits[i] != '+' && digits[i] != 'x' {
      assert IsDigit(digits[i]);
    }
  }

  /** The second part, `<digits>x <name>`, starts and ends with a non-space. */
  lemma QuantityPartUnpadded(digits: string, name: string)
    requires PlainWord(name)
    requires digits != [] && AllDigits(digits)
    ensures var second := digits + "x " + name;
      second != [] && !IsWhitespace(second[0]) && !IsWhitespace(second[|second| - 1])
  {
    var second := digits + "x " + name;
    assert second[0] == digits[0] && second[|second| - 1] == name[|name| - 1];
  }

  /** ` <digits>x <name>` holds no `+`. */
  lemma QuantityPartPlusFree(digits: string, name: string)
    requires PlainWord(name) && AllDigits(digits)
    ensures '+' !in [' '] + (digits + "x " + name)
  {
    DigitsPlain(digits);
    var rest := [' '] + (digits + "x " + name);
    forall i | 0 <= i < |rest| ensures rest[i] != '+' {
      if 1 <= i <= |digits| { assert rest[i] == digits[i - 1]; }
      else if i > |digits| + 2 { assert rest[i] == name[i - |digits| - 3]; }
    }
  }

  /** `<first> + <digits>x <name>` cut at `+`. */
  lemma SplitQuantityPack(first: string, digits: string, name: string)
    requires PlainWord(first) && PlainWord(name) && AllDigits(digits)
    ensures Split(first + " + " + digits + "x " + name, '+') == [first + [' '], [' '] + (digits + "x " + name)]
  {
    var rest := [' '] + (digits + "x " + name);
    assert first + " + " + digits + "x " + name == (first + [' ']) + ['+'] + rest;
    QuantityPartPlusFree(digits, name);
    SplitPrefix(first + [' '], '+', rest);
    SplitFree(rest, '+');
  }

  /** `<first> + <digits>x <name>` split at `+` and trimmed. */
  lemma PartsOfQuantityPack(first: string, digits: string, name: string)
    requires PlainWord(first) && PlainWord(name)
    requires digits != [] && AllDigits(digits)
    ensures ProductCard.PackParts(first + " + " + digits + "x " + name) == [first, digits + "x " + name]
  {
    var second := digits + "x " + name;
    SplitQuantityPack(first, digits, name);
    ProductCard.PartsOfTwoPieces(first + " + " + digits + "x " + name, first + [' '], [' '] + second);
    TrimOneSpace(first);
    QuantityPartUnpadded(digits, name);
    TrimOneSpace(second);
  }

  /** A space, then a plain word, is free of line terminators. */
  lemma SpacedWordOneLine(name: string)
    requires PlainWord(name)
    ensures forall i :: 0 <= i < |[' '] + name| ==> !ProductCard.IsLineTerminator(([' '] + name)[i])
  {
    var r := [' '] + name;
    forall i | 0 <= i < |r| ensures !ProductCard.IsLineTerminator(r[i]) {
      if i > 0 { assert r[i] == name[i - 1]; }
    }
  }

  /** The card's reading of `<digits>x <name>`: `name`, that many times. */
  lemma CardQuantityItem(digits: string, name: string)
    requires PlainWord(name)
    requires digits != [] && AllDigits(digits)
    ensures ProductCard.ItemOf(digits + "x " + name) == ProductCard.PackItem(name, DecimalValue(digits))
  {
    var r := [' '] + name;
    assert digits + "x " + name == [] + digits + "x" + r;
    SpacedWordOneLine(name);
    ProductCard.ItemWithQuantity([], digits, r);
    TrimOneSpace(name);
  }

  /** `<digits>x <name>` cut at `x`. */
  lemma SplitQuantityPart(digits: string, name: string)
    requires PlainWord(name) && AllDigits(digits)
    ensures Split(digits + "x " + name, 'x') == [digits, [' '] + name]
  {
    var r := [' '] + name;
    assert digits + "x " + name == digits + ['x'] + r;
    DigitsPlain(digits);
    assert 'x' !in r by {
      forall i | 0 <= i < |r| ensures r[i] != 'x' { if i > 0 { assert r[i] == name[i - 1]; } }
    }
    SplitPrefix(digits, 'x', r);
    SplitFree(r, 'x');
  }

  /** The dialog's reading of `<digits>x <name>`: an item named by the
      digits, whose quantity, read from ` <name>`, is NaN. */
  lemma DialogQuantityItem(digits: string, name: string)
    requires PlainWord(name) && !IsDigit(name[0]) && name[0] != '-'
    requires digits != [] && AllDigits(digits)
    ensures SecondItem(digits + "x " + name) == ViewerItem(digits, None)
  {
    SplitQuantityPart(digits, name);
    TrimOneSpace(name);
    ParseIntNoDigits([' '] + name);
  }

  /** The card and the dialog read the same pack differently: for
      `<first> + <digits>x <name>` (`Table + 2x Chaises`, say) the card
      lists `name` as many times as the digits say, while the dialog lists
      an item named by the digits whose quantity is NaN. */
  lemma ReadingsDisagree(first: string, digits: string, name: string)
    requires PlainWord(first) && PlainWord(name) && !IsDigit(name[0]) && name[0] != '-'
    requires digits != [] && AllDigits(digits)
    ensures var d := first + " + " + digits + "x " + name;
      ProductCard.PackItems(d) == [ProductCard.PackItem(first, 1), ProductCard.PackItem(name, DecimalValue(digits))] &&
      PackItems(d) == [ViewerItem(first, Some(1)), ViewerItem(digits, None)]
  {
    var d := first + " + " + digits + "x " + name;
    var second := digits + "x " + name;
    PartsOfQuantityPack(first, digits, name);
    ProductCard.PackItemsOfTwo(d, first, second);
    ProductCard.ItemWithoutX(first);
    CardQuantityItem(digits, name);
    DialogQuantityItem(digits, name);
  }

  // ---------------------------------------------------------------------------
  // Viewer count

  const MinViewers: int := 18
  const MaxViewers: int := 33

  /** `newCount < 18 ? 18 : newCount > 33 ? 33 : newCount`. */
  function Clamp(n: int): (r: int)
    ensures MinViewers <= r <= MaxViewers
    ensures MinViewers <= n <= MaxViewers ==> r == n
  {
    if n < MinViewers then MinViewers else if n > MaxViewers then MaxViewers else n
  }

  function Distance(a: int, b: int): nat {
    if a >= b then a - b else b - a
  }

  /** The clamped count is the in-range value nearest to the raw one. */
  lemma ClampNearest(n: int, m: int)
    requires MinViewers <= m <= MaxViewers
    ensures Distance(Clamp(n), n) <= Distance(m, n)
  {
  }

  /** The dialog's simulated state: the viewer count and the image shown. */
  class ViewerState {
    var viewersCount: int
    var currentImageIndex: nat

    predicate Valid()
      reads this
    {
      MinViewers <= viewersCount <= MaxViewers
    }

    /** `useState(25)` and `useState(0)`. */
    constructor()
      ensures Valid() && viewersCount == 25 && currentImageIndex == 0
    {
      viewersCount := 25;
      currentImageIndex := 0;
    }

    /** After hydration: `Math.floor(Math.random() * 15) + 18`, with the
        random draw `r` passed in. */
    method Hydrate(r: int)
      requires 0 <= r < 15
      modifies this
      ensures viewersCount == r + MinViewers && Valid()
      ensures currentImageIndex == old(currentImageIndex)
    {
      viewersCount := r + MinViewers;
    }

    /** One timer tick: a random step of -1, 0 or 1, clamped. The count
        stays in range, and from an in-range count it moves by at most
        the step. */
    method Tick(change: int)
      requires -1 <= change <= 1
      modifies this
      ensures viewersCount == Clamp(old(viewersCount) + change)
      ensures Valid()
      ensures old(Valid()) ==> Distance(viewersCount, old(viewersCount)) <= Distance(change, 0)
      ensures currentImageIndex == old(currentImageIndex)
    {
      var newCount := viewersCount + change;
      viewersCount := if newCount < MinViewers then MinViewers else if newCount > MaxViewers then MaxViewers else newCount;
    }

    /** The carousel settled on image `snap`. */
    method Select(snap: nat)
      modifies this
      ensures currentImageIndex == snap && viewersCount == old(viewersCount)
    {
      currentImageIndex := snap;
    }
  }

  // ---------------------------------------------------------------------------
  // Stock by store

  const StoreOrder: seq<string> := ["Casa", "Rabat", "Marrakech", "Tanger"]

  /** The availability key of a store. */
  function StockKey(store: string): string {
    "Stock " + store
  }

  /** The four stores read four different keys. */
  lemma StockKeysDistinct()
    ensures forall i, j :: 0 <= i < j < |StoreOrder| ==> StockKey(StoreOrder[i]) != StockKey(StoreOrder[j])
  {
    forall i, j | 0 <= i < j < |StoreOrder| ensures StockKey(StoreOrder[i]) != StockKey(StoreOrder[j]) {
      assert StockKey(StoreOrder[i])[6] != StockKey(StoreOrder[j])[6];
    }
  }

  /** `${stock}`: a missing key reads as `undefined`. */
  function Render(stock: Option<int>): string {
    if stock.Some? then IntToString(stock.value) else "undefined"
  }

  /** The colour and text of a store's line. */
  datatype StoreStatus = StoreStatus(color: string, text: string)

  /** `getStockStatus`: more than two is in stock, exactly zero is sold out,
      and everything else (one, two, a negative count, a missing key) is
      the amber `<n> restant(s)` line. */
  function StoreStock(stock: Option<int>): (s: StoreStatus)
    ensures s.color == "emerald" <==> stock.Some? && stock.value > 2
    ensures s.color == "red" <==> stock == Some(0)
    ensures s.color == "amber" <==> !(stock.Some? && (stock.value > 2 || stock.value == 0))
    ensures s.color == "emerald" ==> s.text == "En stock"
    ensures s.color == "red" ==> s.text == "Épuisé"
    ensures s.color == "amber" ==> |s.text| > 0 && (s.text[|s.text| - 1] == 's' <==> stock.Some? && stock.value > 1)
    ensures s.color == "amber" ==> var n := |Render(stock)|;
      |s.text| == n + 8 + (if stock.Some? && stock.value > 1 then 1 else 0) &&
      s.text[..n] == Render(stock) && s.text[n..n + 8] == " restant"
  {
    if stock.Some? && stock.value > 2 then StoreStatus("emerald", "En stock")
    else if stock == Some(0) then StoreStatus("red", "Épuisé")
    else StoreStatus("amber", Render(stock) + " restant" + (if stock.Some? && stock.value > 1 then "s" else ""))
  }

  /** The badge beside the line, computed by its own conditional. */
  function Badge(stock: Option<int>): (badge: string)
    ensures badge == "Disponible" <==> stock.Some? && stock.value > 2
    ensures badge == "Indisponible" <==> stock == Some(0)
    ensures badge == "Stock limité" <==> !(stock.Some? && (stock.value > 2 || stock.value == 0))
  {
    if stock.Some? && stock.value > 2 then "Disponible"
    else if stock == Some(0) then "Indisponible"
    else "Stock limité"
  }

  /** The badge always agrees with the line's colour. */
  lemma BadgeAgrees(stock: Option<int>)
    ensures Badge(stock) == "Disponible" <==> StoreStock(stock).color == "emerald"
    ensures Badge(stock) == "Indisponible" <==> StoreStock(stock).color == "red"
    ensures Badge(stock) == "Stock limité" <==> StoreStock(stock).color == "amber"
  {
  }

  /** A store of the panel with its line and its badge. */
  datatype StoreRow = StoreRow(store: string, status: StoreStatus, badge: string)

  /** The stock a store's key holds, `None` when the key is missing. */
  function StockOf(availability: map<string, int>, store: string): Option<int> {
    if StockKey(store) in availability then Some(availability[StockKey(store)]) else None
  }

  /** The panel: nothing until availability is known, then the four stores
      in their fixed order. */
  function StoreRows(availability: Option<map<string, int>>): (rows: seq<StoreRow>)
    ensures availability.None? <==> rows == []
    ensures availability.Some? ==> |rows| == |StoreOrder|
    ensures availability.Some? ==> forall i :: 0 <= i < |rows| ==>
      (rows[i].store == StoreOrder[i] &&
       rows[i].status == StoreStock(StockOf(availability.value, StoreOrder[i])) &&
       rows[i].badge == Badge(StockOf(availability.value, StoreOrder[i])))
  {
    if availability.None? then []
    else
      seq(|StoreOrder|, i requires 0 <= i < |StoreOrder| =>
        var stock := StockOf(availability.value, StoreOrder[i]);
        StoreRow(StoreOrder[i], StoreStock(stock), Badge(stock)))
  }

  /** The panel lists Casa, Rabat, Marrakech and Tanger in that order, and
      depends only on their four keys. */
  lemma StoreRowsOrder(a: map<string, int>, b: map<string, int>)
    requires forall store :: store in StoreOrder ==> StockOf(a, store) == StockOf(b, store)
    ensures |StoreRows(Some(a))| == 4
    ensures forall i :: 0 <= i < 4 ==> StoreRows(Some(a))[i].store == StoreOrder[i]
    ensures StoreRows(Some(a)) == StoreRows(Some(b))
  {
    var ra := StoreRows(Some(a));
    var rb := StoreRows(Some(b));
    forall i | 0 <= i < 4 ensures ra[i] == rb[i] {
      assert StoreOrder[i] in StoreOrder;
    }
  }

  /** A store whose key is missing shows `undefined restant` and a limited
      badge. */
  lemma MissingKeyLimited(availability: map<string, int>, i: nat)
    requires i < |StoreOrder| && StockKey(StoreOrder[i]) !in availability
    ensures StoreRows(Some(availability))[i].status == StoreStatus("amber", "undefined restant")
    ensures StoreRows(Some(availability))[i].badge == "Stock limité"
  {
  }
}
