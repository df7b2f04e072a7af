/** The product card (components/ProductCard.tsx): the store stock summed
    over all stores and banded into one status line, and the pack contents
    read from the product's `dimensions` text. */
module ProductCard {
  import opened JsText

  // ---------------------------------------------------------------------------
  // Stock

  /** A value of the availability record: a number, or anything else. */
  datatype Value = Number(n: int) | NonNumber

  /** `Object.values(availability).reduce(...)`: the numbers added from left
      to right, anything else counted as 0. */
  function TotalStock(values: seq<Value>): (total: int)
    ensures (forall i :: 0 <= i < |values| && values[i].Number? ==> values[i].n >= 0) ==> total >= 0
  {
    if values == [] then 0
    else
      var last := values[|values| - 1];
      TotalStock(values[..|values| - 1]) + (if last.Number? then last.n else 0)
  }

  /** Summing two stretches of values one after the other adds their totals. */
  lemma {:induction false} TotalStockAppend(a: seq<Value>, b: seq<Value>)
    ensures TotalStock(a + b) == TotalStock(a) + TotalStock(b)
  {
    if b != [] {
      var ab := a + b;
      assert ab[..|ab| - 1] == a + b[..|b| - 1];
      TotalStockAppend(a, b[..|b| - 1]);
    } else {
      assert a + b == a;
    }
  }

  /** The total is the sum of the numbers alone: any value that is not a
      number contributes nothing, wherever it stands. */
  lemma {:induction false} TotalStockNumbersOnly(values: seq<Value>)
    ensures TotalStock(values) == TotalStock(Numbers(values))
  {
    if values != [] {
      var init := values[..|values| - 1];
      var last := values[|values| - 1];
      TotalStockNumbersOnly(init);
      assert values == init + [last];
      NumbersAppend(init, [last]);
      TotalStockAppend(Numbers(init), Numbers([last]));
      LastValue(last);
    }
  }

  /** One value on its own: a number counts as itself, anything else as 0. */
  lemma LastValue(v: Value)
    ensures TotalStock(Numbers([v])) == TotalStock([v])
  {
    assert [v][..0] == [];
    if v.Number? {
      assert Numbers([v]) == [v];
    } else {
      assert Numbers([v]) == [];
    }
  }

  /** The numbers among `values`, in order. */
  function Numbers(values: seq<Value>): (r: seq<Value>)
    ensures forall v :: v in r ==> v.Number?
  {
    if values == [] then []
    else (if values[0].Number? then [values[0]] else []) + Numbers(values[1..])
  }

  lemma {:induction false} NumbersAppend(a: seq<Value>, b: seq<Value>)
    ensures Numbers(a + b) == Numbers(a) + Numbers(b)
  {
    if a != [] {
      assert (a + b)[1..] == a[1..] + b;
      NumbersAppend(a[1..], b);
    } else {
      assert a + b == b;
    }
  }

  /** The four states of the stock line. */
  datatype StockBand = Checking | InStock | Few | OutOfStock

  /** The status line and the total it was computed from. */
  datatype StockStatus = StockStatus(band: StockBand, text: string, totalStock: int)

  /** The `stockStatus`/`totalStock` memo: `availability` is `None` until
      the store query has answered. The bands partition all answers: more
      than five in stock, one to five, and none or fewer. */
  function CardStock(availability: Option<seq<Value>>): (s: StockStatus)
    ensures s.band == Checking <==> availability.None?
    ensures availability.None? ==> s.totalStock == 0 && s.text == "Vérification..."
    ensures availability.Some? ==> s.totalStock == TotalStock(availability.value)
    ensures s.band == InStock <==> availability.Some? && s.totalStock > 5
    ensures s.band == Few <==> availability.Some? && 0 < s.totalStock <= 5
    ensures s.band == OutOfStock <==> availability.Some? && s.totalStock <= 0
    ensures s.band == InStock ==> s.text == "En stock"
    ensures s.band == OutOfStock ==> s.text == "Rupture de stock"
    ensures s.band == Few ==> s.text == [DigitChar(s.totalStock)] + " restant" + (if s.totalStock > 1 then "s" else "")
  {
    if availability.None? then StockStatus(Checking, "Vérification...", 0)
    else
      var total := TotalStock(availability.value);
      if total > 5 then StockStatus(InStock, "En stock", total)
      else if total > 0 then StockStatus(Few, IntToString(total) + " restant" + (if total > 1 then "s" else ""), total)
      else StockStatus(OutOfStock, "Rupture de stock", total)
  }

  // ---------------------------------------------------------------------------
  // Pack contents

  /** `dimensions.split('+').map(part => part.trim())`. */
  function PackParts(dimensions: string): (parts: seq<string>)
    ensures |parts| == Count(dimensions, '+') + 1
  {
    var pieces := Split(dimensions, '+');
    seq(|pieces|, i requires 0 <= i < |pieces| => Trim(pieces[i]))
  }

  /** A line of the pack list: how many of what. */
  datatype PackItem = PackItem(name: string, qty: nat)

  /** The characters `.` does not match in a regular expression. */
  predicate IsLineTerminator(c: char) {
    c == '\n' || c == '\r' || c == '\U{2028}' || c == '\U{2029}'
  }

  /** What a greedy `.+` takes from the start of `s`: everything up to the
      first line terminator. */
  function LineRun(s: string): (r: string)
    ensures |r| <= |s| && r == s[..|r|]
    ensures |r| == |s| || IsLineTerminator(s[|r|])
  {
    if s != [] && !IsLineTerminator(s[0]) then [s[0]] + LineRun(s[1..]) else []
  }

  /** Where `(.+)` starts after `\s*` has taken the whitespace `t[..e]`:
      `\s*` gives characters back one at a time until `.` can match. */
  function CaptureStart(t: string, e: nat): (j: Option<nat>)
    requires e <= |t|
    ensures j.Some? ==> j.value <= e && j.value < |t| && !IsLineTerminator(t[j.value])
    decreases e
  {
    if e < |t| && !IsLineTerminator(t[e]) then Some(e)
    else if e == 0 then None
    else CaptureStart(t, e - 1)
  }

  /** `\s*(.+)` after the `x`, trimmed as the name: `\s*` takes the leading
      whitespace and gives characters back until `.+` can match. */
  function Capture(rest: string): Option<string>
  {
    match CaptureStart(rest, LeadingWhitespace(rest))
    case None => None
    case Some(j) => Some(Trim(LineRun(rest[j..])))
  }

  /** `/(\d+)x\s*(.+)/` tried at the start of `t`. `\d+` is greedy and a
      shorter digit run would be followed by a digit, not `x`, so only the
      whole run is tried. The item's quantity is `parseInt` of the digits. */
  function MatchAt(t: string): (r: Option<PackItem>)
    requires t != []
    ensures r.Some? ==> |r.value.name| < |t|
  {
    if !IsDigit(t[0]) then None
    else
      var d := DigitPrefix(t);
      if |d| < |t| && t[|d|] == 'x' then
        match Capture(t[|d| + 1..])
        case None => None
        case Some(name) => Some(PackItem(name, DecimalValue(d)))
      else None
  }

  /** `part.match(...)`: the leftmost position from `p` on where the
      pattern matches. */
  function QtyMatch(s: string, p: nat): (r: Option<PackItem>)
    ensures r.Some? ==> |r.value.name| < |s| - p
    decreases |s| - p
  {
    if p >= |s| then None
    else match MatchAt(s[p..])
      case Some(item) => Some(item)
      case None => QtyMatch(s, p + 1)
  }

  /** One part of the pack: the match, or the whole part with quantity 1. */
  function ItemOf(part: string): (item: PackItem)
    ensures |item.name| < |part| || item == PackItem(part, 1)
  {
    match QtyMatch(part, 0)
    case Some(item) => item
    case None => PackItem(part, 1)
  }

  /** `packItems`: one item per part, in order. */
  function PackItems(dimensions: string): (items: seq<PackItem>)
    ensures |items| == Count(dimensions, '+') + 1
  {
    var parts := PackParts(dimensions);
    seq(|parts|, i requires 0 <= i < |parts| => ItemOf(parts[i]))
  }

  /** A text cut into two parts lists their two items. */
  lemma PartsOfTwoPieces(dimensions: string, a: string, b: string)
    requires Split(dimensions, '+') == [a, b]
    ensures PackParts(dimensions) == [Trim(a), Trim(b)]
  {
  }

  lemma PackItemsOfTwo(dimensions: string, first: string, second: string)
    requires PackParts(dimensions) == [first, second]
    ensures PackItems(dimensions) == [ItemOf(first), ItemOf(second)]
  {
  }

  /** `isPackProduct`. */
  predicate IsPackProduct(dimensions: string) {
    |PackItems(dimensions)| > 1
  }

  /** A pack is a product whose `dimensions` name more than one part. */
  lemma PackExactlyWithPlus(dimensions: string)
    ensures IsPackProduct(dimensions) <==> '+' in dimensions
  {
    CountPositive(dimensions, '+');
  }

  /** The parts are the trimmed `+`-separated stretches, and joining the
      untrimmed stretches gives `dimensions` back. */
  lemma PackPartsAreTrimmedPieces(dimensions: string)
    ensures var pieces := Split(dimensions, '+');
      |PackParts(dimensions)| == |pieces| && Join(pieces, '+') == dimensions &&
      forall i :: 0 <= i < |pieces| ==> PackParts(dimensions)[i] == Trim(pieces[i]) && '+' !in pieces[i]
  {
  }

  /** A part with no `x` cannot match: it is taken whole, quantity 1. */
  lemma ItemWithoutX(part: string)
    requires 'x' !in part
    ensures ItemOf(part) == PackItem(part, 1)
  {
    NoMatchWithoutX(part, 0);
  }

  lemma {:induction false} NoMatchWithoutX(s: string, p: nat)
    requires 'x' !in s
    ensures QtyMatch(s, p) == None
    decreases |s| - p
  {
    if p < |s| {
      var t := s[p..];
      if IsDigit(t[0]) {
        var d := DigitPrefix(t);
        if |d| < |t| {
          assert t[|d|] == s[p + |d|];
        }
      }
      NoMatchWithoutX(s, p + 1);
    }
  }

  /** No match starts inside a text that holds no digit. */
  lemma {:induction false} SkipDigitFree(pre: string, rest: string, p: nat)
    requires forall i :: 0 <= i < |pre| ==> !IsDigit(pre[i])
    requires p <= |pre|
    ensures QtyMatch(pre + rest, p) == QtyMatch(pre + rest, |pre|)
    decreases |pre| - p
  {
    if p < |pre| {
      var s := pre + rest;
      assert s[p..][0] == pre[p];
      assert MatchAt(s[p..]) == None;
      SkipDigitFree(pre, rest, p + 1);
    }
  }

  /** Trimming is not changed by dropping leading whitespace first. */
  lemma TrimAfterLeading(r: string, e: nat)
    requires e <= |r|
    requires forall i :: 0 <= i < e ==> IsWhitespace(r[i])
    ensures Trim(r[e..]) == Trim(r)
  {
    TrimStartPrefix(r, e);
  }

  lemma {:induction false} TrimStartPrefix(r: string, e: nat)
    requires e <= |r|
    requires forall i :: 0 <= i < e ==> IsWhitespace(r[i])
    ensures TrimStart(r[e..]) == TrimStart(r)
  {
    if e > 0 {
      assert r[1..][e - 1..] == r[e..];
      TrimStartPrefix(r[1..], e - 1);
    }
  }

  /** The capture for a rest without line terminators: the rest itself
      once trimmed. */
  lemma CaptureOfRest(r: string)
    requires r != []
    requires forall i :: 0 <= i < |r| ==> !IsLineTerminator(r[i])
    ensures Capture(r) == Some(Trim(r))
  {
    var e := LeadingWhitespace(r);
    var j := if e < |r| then e else e - 1;
    CaptureStartIs(r, e);
    LineRunAll(r[j..]);
    TrimAfterLeading(r, j);
  }

  lemma CaptureStartIs(r: string, e: nat)
    requires r != [] && e == LeadingWhitespace(r)
    requires forall i :: 0 <= i < |r| ==> !IsLineTerminator(r[i])
    ensures CaptureStart(r, e) == Some(if e < |r| then e else e - 1)
    ensures forall i :: 0 <= i < e ==> IsWhitespace(r[i])
  {
    var t := TrimStart(r);
    assert forall i :: 0 <= i < |r| - |t| ==> IsWhitespace(r[i]);
    if e == |r| {
      assert !IsLineTerminator(r[e - 1]);
    }
  }

  lemma {:induction false} LineRunAll(s: string)
    requires forall i :: 0 <= i < |s| ==> !IsLineTerminator(s[i])
    ensures LineRun(s) == s
  {
    if s != [] {
      LineRunAll(s[1..]);
    }
  }

  /** `<digits>x<rest>` matches at its start. */
  lemma MatchOfQuantity(d: string, r: string)
    requires d != [] && AllDigits(d)
    requires r != [] && forall i :: 0 <= i < |r| ==> !IsLineTerminator(r[i])
    ensures MatchAt(d + "x" + r) == Some(PackItem(Trim(r), DecimalValue(d)))
  {
    var t := d + "x" + r;
    assert t == d + ("x" + r);
    DigitPrefixStops(d, "x" + r);
    assert t[0] == d[0];
    assert t[|d|] == 'x';
    assert t[|d| + 1..] == r;
    CaptureOfRest(r);
  }

  /** A part reading `<text without digits><digits>x<rest>` is `digits`
      of the trimmed rest: the pattern is not anchored, so the text before
      the quantity is dropped. */
  lemma ItemWithQuantity(pre: string, d: string, r: string)
    requires forall i :: 0 <= i < |pre| ==> !IsDigit(pre[i])
    requires d != [] && AllDigits(d)
    requires r != [] && forall i :: 0 <= i < |r| ==> !IsLineTerminator(r[i])
    ensures ItemOf(pre + d + "x" + r) == PackItem(Trim(r), DecimalValue(d))
  {
    var s := pre + d + "x" + r;
    assert s == pre + (d + "x" + r);
    SkipDigitFree(pre, d + "x" + r, 0);
    assert s[|pre|..] == d + "x" + r;
    MatchOfQuantity(d, r);
  }

  /** The quantity is the value of the digits, as `parseInt` reads them. */
  lemma QuantityIsParseInt(d: string)
    requires d != [] && AllDigits(d)
    ensures ParseInt(d) == Some(DecimalValue(d) as int)
  {
    ParseIntDigits(d);
  }
}
