/** The JavaScript string built-ins that the storefront's category, path and
    pack-string logic calls: `trim`, `toUpperCase`/`toLowerCase`, the
    `normalize('NFD')` + `replace(/[̀-ͯ]/g, '')` accent stripping,
    `split`, `replace(/\s+/g, ...)`, `parseInt` and number-to-string rendering.
    Case mapping and decomposition are modelled over the ASCII and Latin-1
    letters; every other character is left as it is. */
module JsText {

  datatype Option<T> = None | Some(value: T)

  // ---------------------------------------------------------------------------
  // Character classes

  /** The WhiteSpace and LineTerminator code points of ECMAScript: what `trim`
      removes and what the regular-expression class `\s` matches. */
  predicate IsWhitespace(c: char) {
    c == '\t' || c == '\n' || c == '\U{B}' || c == '\U{C}' || c == '\r' || c == ' ' ||
    c == '\U{A0}' || c == '\U{1680}' || ('\U{2000}' <= c <= '\U{200A}') ||
    c == '\U{2028}' || c == '\U{2029}' || c == '\U{202F}' || c == '\U{205F}' ||
    c == '\U{3000}' || c == '\U{FEFF}'
  }

  /** The block U+0300..U+036F of combining diacritical marks. */
  predicate IsCombiningMark(c: char) {
    '\U{300}' <= c <= '\U{36F}'
  }

  predicate IsAsciiUpper(c: char) { 'A' <= c <= 'Z' }
  predicate IsAsciiLower(c: char) { 'a' <= c <= 'z' }
  predicate IsDigit(c: char) { '0' <= c <= '9' }

  /** The lower-case letters of the Latin-1 block (U+00E0..U+00FE without
      the division sign) and `ÿ`; `ß` has no one-letter upper case and is left out. */
  predicate IsLatinLower(c: char) { ('à' <= c <= 'þ' && c != '÷') || c == 'ÿ' }

  /** The upper-case letters of the Latin-1 block (U+00C0..U+00DE without
      the multiplication sign) and `Ÿ`. */
  predicate IsLatinUpper(c: char) { ('À' <= c <= 'Þ' && c != '×') || c == 'Ÿ' }

  /** A lower-case letter of the modelled alphabet. */
  predicate IsLowerLetter(c: char) { IsAsciiLower(c) || IsLatinLower(c) }

  /** An upper-case letter of the modelled alphabet. */
  predicate IsUpperLetter(c: char) { IsAsciiUpper(c) || IsLatinUpper(c) }

  /** A precomposed letter that NFD splits into a base letter and combining
      marks: the Latin-1 letters with a grave, acute, circumflex, tilde,
      diaeresis, ring or cedilla, and `Ÿ`. */
  predicate IsAccented(c: char) {
    ('À' <= c <= 'Ï' && c != 'Æ') || ('Ñ' <= c <= 'Ö') || ('Ù' <= c <= 'Ý') ||
    ('à' <= c <= 'ï' && c != 'æ') || ('ñ' <= c <= 'ö') || ('ù' <= c <= 'ý') ||
    c == 'ÿ' || c == 'Ÿ'
  }

  // ---------------------------------------------------------------------------
  // Case mapping and accent stripping, one character at a time

  /** `toUpperCase` on one character of the modelled alphabet. */
  function UpperChar(c: char): (u: char)
    ensures !IsLowerLetter(u)
    ensures IsLowerLetter(c) ==> IsUpperLetter(u)
    ensures !IsLowerLetter(c) ==> u == c
    ensures IsAccented(u) == IsAccented(c)
  {
    if IsAsciiLower(c) || ('à' <= c <= 'þ' && c != '÷') then (c as int - 32) as char
    else if c == 'ÿ' then 'Ÿ'
    else c
  }

  /** `toLowerCase` on one character of the modelled alphabet. */
  function LowerChar(c: char): (l: char)
    ensures !IsUpperLetter(l)
    ensures IsUpperLetter(c) ==> IsLowerLetter(l)
    ensures !IsUpperLetter(c) ==> l == c
    ensures IsAccented(l) == IsAccented(c)
  {
    if IsAsciiUpper(c) || ('À' <= c <= 'Þ' && c != '×') then (c as int + 32) as char
    else if c == 'Ÿ' then 'ÿ'
    else c
  }

  /** The base letter that NFD decomposition leaves once its combining marks
      are removed; characters that do not decompose are their own base. */
  function BaseLetter(c: char): (b: char)
    ensures !IsAccented(b)
    ensures IsAccented(c) && IsLowerLetter(c) ==> IsAsciiLower(b)
    ensures IsAccented(c) && IsUpperLetter(c) ==> IsAsciiUpper(b)
    ensures !IsAccented(c) ==> b == c
  {
    if 'À' <= c <= 'Å' then 'A' else if c == 'Ç' then 'C' else if 'È' <= c <= 'Ë' then 'E'
    else if 'Ì' <= c <= 'Ï' then 'I' else if c == 'Ñ' then 'N' else if 'Ò' <= c <= 'Ö' then 'O'
    else if 'Ù' <= c <= 'Ü' then 'U' else if c == 'Ý' || c == 'Ÿ' then 'Y'
    else if 'à' <= c <= 'å' then 'a' else if c == 'ç' then 'c' else if 'è' <= c <= 'ë' then 'e'
    else if 'ì' <= c <= 'ï' then 'i' else if c == 'ñ' then 'n' else if 'ò' <= c <= 'ö' then 'o'
    else if 'ù' <= c <= 'ü' then 'u' else if c == 'ý' || c == 'ÿ' then 'y'
    else c
  }

  // ---------------------------------------------------------------------------
  // Whole-string case mapping and accent stripping

  /** `s.toUpperCase()` */
  function Upper(s: string): (r: string)
    ensures |r| == |s|
    ensures forall i :: 0 <= i < |s| ==> r[i] == UpperChar(s[i])
  {
    seq(|s|, i requires 0 <= i < |s| => UpperChar(s[i]))
  }

  /** `s.toLowerCase()` */
  function Lower(s: string): (r: string)
    ensures |r| == |s|
    ensures forall i :: 0 <= i < |s| ==> r[i] == LowerChar(s[i])
  {
    seq(|s|, i requires 0 <= i < |s| => LowerChar(s[i]))
  }

  /** `s.normalize('NFD')` followed by deleting U+0300..U+036F: precomposed
      letters become their base letter and stray combining marks disappear. */
  function StripAccents(s: string): (r: string)
    ensures |r| <= |s|
  {
    if s == [] then []
    else if IsCombiningMark(s[0]) then StripAccents(s[1..])
    else [BaseLetter(s[0])] + StripAccents(s[1..])
  }

  predicate NoAccents(s: string) {
    forall i :: 0 <= i < |s| ==> !IsCombiningMark(s[i]) && !IsAccented(s[i])
  }

  /** Stripping leaves neither a combining mark nor a precomposed accented letter. */
  lemma {:induction false} StripAccentsShape(s: string)
    ensures NoAccents(StripAccents(s))
  {
    if s != [] {
      StripAccentsShape(s[1..]);
      var t := StripAccents(s[1..]);
      if !IsCombiningMark(s[0]) {
        var r := [BaseLetter(s[0])] + t;
        forall i | 0 <= i < |r| ensures !IsCombiningMark(r[i]) && !IsAccented(r[i]) {
          if i > 0 { assert r[i] == t[i - 1]; }
        }
      }
    }
  }

  /** Stripping works piece by piece. */
  lemma {:induction false} StripAccentsConcat(a: string, b: string)
    ensures StripAccents(a + b) == StripAccents(a) + StripAccents(b)
  {
    if a != [] {
      assert (a + b)[0] == a[0];
      assert (a + b)[1..] == a[1..] + b;
      StripAccentsConcat(a[1..], b);
      if !IsCombiningMark(a[0]) {
        assert StripAccents(a + b) == [BaseLetter(a[0])] + (StripAccents(a[1..]) + StripAccents(b));
      }
    } else {
      assert a + b == b;
    }
  }

  /** One accented letter between unaccented text loses its accent and nothing else changes. */
  lemma StripOneAccent(a: string, c: char, b: string)
    requires NoAccents(a) && NoAccents(b) && IsAccented(c)
    ensures StripAccents(a + [c] + b) == a + [BaseLetter(c)] + b
  {
    StripAccentsConcat(a + [c], b);
    StripAccentsConcat(a, [c]);
    StripAccentsUnaccented(a);
    StripAccentsUnaccented(b);
    assert !IsCombiningMark(c);
    assert StripAccents([c]) == [BaseLetter(c)];
  }

  /** Text that carries no accent is left alone by the stripping. */
  lemma {:induction false} StripAccentsUnaccented(s: string)
    requires NoAccents(s)
    ensures StripAccents(s) == s
  {
    if s != [] {
      assert NoAccents(s[1..]) by {
        forall i | 0 <= i < |s[1..]| ensures !IsCombiningMark(s[1..][i]) && !IsAccented(s[1..][i]) {
          assert s[1..][i] == s[i + 1];
        }
      }
      StripAccentsUnaccented(s[1..]);
    }
  }

  // ---------------------------------------------------------------------------
  // trim

  /** `s.trimStart()`: the suffix of `s` left after its leading whitespace. */
  function TrimStart(s: string): (r: string)
    ensures |r| <= |s| && r == s[|s| - |r|..]
    ensures r == [] || !IsWhitespace(r[0])
    ensures forall i :: 0 <= i < |s| - |r| ==> IsWhitespace(s[i])
  {
    if s != [] && IsWhitespace(s[0]) then TrimStart(s[1..]) else s
  }

  /** `s.trimEnd()`: the prefix of `s` left before its trailing whitespace. */
  function TrimEnd(s: string): (r: string)
    ensures |r| <= |s| && r == s[..|r|]
    ensures r == [] || !IsWhitespace(r[|r| - 1])
    ensures forall i :: |r| <= i < |s| ==> IsWhitespace(s[i])
  {
    if s != [] && IsWhitespace(s[|s| - 1]) then TrimEnd(s[..|s| - 1]) else s
  }

  /** The number of whitespace characters that `s` starts with. */
  function LeadingWhitespace(s: string): (n: nat)
    ensures n <= |s|
  {
    |s| - |TrimStart(s)|
  }

  /** `s.trim()`: the infix of `s` between its leading and trailing whitespace. */
  function Trim(s: string): (r: string)
    ensures LeadingWhitespace(s) + |r| <= |s|
    ensures r == s[LeadingWhitespace(s)..LeadingWhitespace(s) + |r|]
    ensures forall i :: 0 <= i < |s| && !(LeadingWhitespace(s) <= i < LeadingWhitespace(s) + |r|) ==> IsWhitespace(s[i])
    ensures r == [] || (!IsWhitespace(r[0]) && !IsWhitespace(r[|r| - 1]))
  {
    var t := TrimStart(s);
    var r := TrimEnd(t);
    assert forall i :: |s| - |t| + |r| <= i < |s| ==> s[i] == t[i - (|s| - |t|)];
    r
  }

  lemma TrimStartUnpadded(s: string)
    requires s == [] || !IsWhitespace(s[0])
    ensures TrimStart(s) == s
  {
  }

  predicate HasNoWhitespace(s: string) {
    forall i :: 0 <= i < |s| ==> !IsWhitespace(s[i])
  }

  /** Text with no whitespace at all is its own trim. */
  lemma TrimNoWhitespace(s: string)
    requires HasNoWhitespace(s)
    ensures Trim(s) == s
  {
    assert s == [] || !IsWhitespace(s[0]);
    assert s == [] || !IsWhitespace(s[|s| - 1]);
  }

  /** Trimming a trimmed string changes nothing. */
  lemma TrimIdempotent(s: string)
    ensures Trim(Trim(s)) == Trim(s)
  {
    var t := Trim(s);
    assert t == [] || !IsWhitespace(t[0]);
    assert TrimStart(t) == t;
    assert t == [] || !IsWhitespace(t[|t| - 1]);
  }

  /** One space before or after a word is trimmed away. */
  lemma TrimOneSpace(w: string)
    requires w != [] && !IsWhitespace(w[0]) && !IsWhitespace(w[|w| - 1])
    ensures TrimStart([' '] + w) == w
    ensures Trim([' '] + w) == w && Trim(w + [' ']) == w
  {
    assert ([' '] + w)[1..] == w;
    assert TrimStart(w) == w;
    assert TrimStart(w + [' ']) == w + [' '];
    assert (w + [' '])[..|w|] == w;
  }

  /** A word with one space on each side trims back to the word. */
  lemma TrimSpaced(w: string)
    requires w != [] && !IsWhitespace(w[0]) && !IsWhitespace(w[|w| - 1])
    ensures Trim([' '] + w + [' ']) == w
  {
    var s := [' '] + w + [' '];
    assert s[1..] == w + [' '];
    TrimStartUnpadded(w + [' ']);
    assert TrimStart(s) == w + [' '];
    assert (w + [' '])[..|w|] == w;
    assert TrimEnd(w) == w;
  }

  // ---------------------------------------------------------------------------
  // split

  /** The parts joined back with the separator: the inverse of `Split`. */
  function Join(parts: seq<string>, sep: char): string
    requires |parts| >= 1
  {
    if |parts| == 1 then parts[0] else parts[0] + [sep] + Join(parts[1..], sep)
  }

  /** Number of occurrences of `c` in `s`. */
  function Count(s: string, c: char): nat
  {
    if s == [] then 0 else (if s[0] == c then 1 else 0) + Count(s[1..], c)
  }

  /** `s.split(sep)` for a one-character separator: one part per
      separator-free stretch, the empty stretches included. */
  function Split(s: string, sep: char): (parts: seq<string>)
    ensures |parts| == Count(s, sep) + 1
    ensures forall i :: 0 <= i < |parts| ==> sep !in parts[i]
    ensures Join(parts, sep) == s
  {
    if s == [] then [[]]
    else
      var rest := Split(s[1..], sep);
      if s[0] == sep then [[]] + rest
      else
        assert s == [s[0]] + s[1..];
        [[s[0]] + rest[0]] + rest[1..]
  }

  /** Splitting a join of separator-free parts gives the parts back. */
  lemma {:induction false} SplitJoin(parts: seq<string>, sep: char)
    requires |parts| >= 1
    requires forall i :: 0 <= i < |parts| ==> sep !in parts[i]
    ensures Split(Join(parts, sep), sep) == parts
  {
    var p := parts[0];
    if |parts| == 1 {
      SplitFree(p, sep);
    } else {
      SplitJoin(parts[1..], sep);
      SplitPrefix(p, sep, Join(parts[1..], sep));
    }
  }

  /** A separator-free string splits into itself alone. */
  lemma {:induction false} SplitFree(s: string, sep: char)
    requires sep !in s
    ensures Split(s, sep) == [s]
  {
    if s != [] {
      SplitFree(s[1..], sep);
    }
  }

  lemma {:induction false} SplitPrefix(p: string, sep: char, rest: string)
    requires sep !in p
    ensures Split(p + [sep] + rest, sep) == [p] + Split(rest, sep)
  {
    if p == [] {
      assert p + [sep] + rest == [sep] + rest;
      assert ([sep] + rest)[1..] == rest;
    } else {
      assert (p + [sep] + rest)[1..] == p[1..] + [sep] + rest;
      SplitPrefix(p[1..], sep, rest);
      assert p == [p[0]] + p[1..];
    }
  }

  /** `s.includes(c)` for one character, in terms of the part count. */
  lemma {:induction false} CountPositive(s: string, c: char)
    ensures Count(s, c) > 0 <==> c in s
  {
    if s != [] {
      CountPositive(s[1..], c);
      assert s == [s[0]] + s[1..];
    }
  }

  // ---------------------------------------------------------------------------
  // replace(/\s+/g, "-")

  /** `s.replace(/\s+/g, '-')`: every maximal run of whitespace becomes one `-`. */
  function HyphenateWhitespace(s: string): (r: string)
    ensures |r| <= |s|
    decreases |s|
  {
    if s == [] then []
    else if IsWhitespace(s[0]) then
      var t := TrimStart(s);
      assert |t| < |s|;
      "-" + HyphenateWhitespace(t)
    else [s[0]] + HyphenateWhitespace(s[1..])
  }

  /** The result holds no whitespace, and each of its characters is a `-`
      or a character of the input. */
  lemma {:induction false} HyphenateShape(s: string)
    ensures HasNoWhitespace(HyphenateWhitespace(s))
    ensures forall i :: 0 <= i < |HyphenateWhitespace(s)| ==>
      HyphenateWhitespace(s)[i] == '-' || HyphenateWhitespace(s)[i] in s
    decreases |s|
  {
    if s != [] {
      var r := HyphenateWhitespace(s);
      if IsWhitespace(s[0]) {
        var t := TrimStart(s);
        HyphenateShape(t);
        forall i | 0 <= i < |r| ensures !IsWhitespace(r[i]) && (r[i] == '-' || r[i] in s) {
          if i > 0 {
            assert r[i] == HyphenateWhitespace(t)[i - 1];
            if r[i] != '-' {
              var j :| 0 <= j < |t| && t[j] == r[i];
              assert t[j] == s[|s| - |t| + j];
            }
          }
        }
      } else {
        HyphenateShape(s[1..]);
        forall i | 0 <= i < |r| ensures !IsWhitespace(r[i]) && (r[i] == '-' || r[i] in s) {
          if i > 0 {
            assert r[i] == HyphenateWhitespace(s[1..])[i - 1];
          }
        }
      }
    }
  }

  /** Hyphenating keeps a non-empty text non-empty. */
  lemma HyphenateNonEmpty(s: string)
    requires s != []
    ensures HyphenateWhitespace(s) != []
  {
  }

  /** A whitespace-free head passes through and the rest is hyphenated on its own. */
  lemma {:induction false} HyphenateConcat(a: string, b: string)
    requires HasNoWhitespace(a)
    ensures HyphenateWhitespace(a + b) == a + HyphenateWhitespace(b)
  {
    if a == [] {
      assert a + b == b;
    } else {
      var c, tail := a[0], a[1..];
      NoWhitespaceTail(a);
      assert a + b == [c] + (tail + b);
      calc {
        HyphenateWhitespace(a + b);
        { HyphenateCons(c, tail + b); }
        [c] + HyphenateWhitespace(tail + b);
        { HyphenateConcat(tail, b); }
        [c] + (tail + HyphenateWhitespace(b));
        { assert a == [c] + tail; }
        a + HyphenateWhitespace(b);
      }
    }
  }

  /** A non-blank first character passes through. */
  lemma HyphenateCons(c: char, t: string)
    requires !IsWhitespace(c)
    ensures HyphenateWhitespace([c] + t) == [c] + HyphenateWhitespace(t)
  {
    assert ([c] + t)[1..] == t;
  }

  lemma NoWhitespaceTail(a: string)
    requires a != [] && HasNoWhitespace(a)
    ensures !IsWhitespace(a[0]) && HasNoWhitespace(a[1..])
  {
    forall i | 0 <= i < |a[1..]| ensures !IsWhitespace(a[1..][i]) { assert a[1..][i] == a[i + 1]; }
  }

  /** A whole run of whitespace becomes a single `-`. */
  lemma HyphenateRun(ws: string, b: string)
    requires ws != [] && forall i :: 0 <= i < |ws| ==> IsWhitespace(ws[i])
    requires b == [] || !IsWhitespace(b[0])
    ensures HyphenateWhitespace(ws + b) == "-" + HyphenateWhitespace(b)
  {
    TrimStartRun(ws, b);
  }

  /** Words separated by single spaces come out separated by single `-`. */
  lemma {:induction false} HyphenateJoin(words: seq<string>)
    requires |words| >= 1
    requires forall i :: 0 <= i < |words| ==> words[i] != [] && HasNoWhitespace(words[i])
    ensures HyphenateWhitespace(Join(words, ' ')) == Join(words, '-')
  {
    if |words| == 1 {
      HyphenateNoWhitespace(words[0]);
    } else {
      var rest := Join(words[1..], ' ');
      HyphenateJoin(words[1..]);
      JoinHead(words[1..], ' ');
      assert words[0] + [' '] + rest == words[0] + ([' '] + rest);
      HyphenateConcat(words[0], [' '] + rest);
      HyphenateRun([' '], rest);
      assert words[0] + "-" + Join(words[1..], '-') == Join(words, '-');
    }
  }

  /** A join of non-empty parts starts with the first part's first character. */
  lemma JoinHead(parts: seq<string>, sep: char)
    requires |parts| >= 1 && parts[0] != []
    ensures Join(parts, sep) != [] && Join(parts, sep)[0] == parts[0][0]
  {
  }

  /** `trimStart` removes exactly a leading run of whitespace. */
  lemma {:induction false} TrimStartRun(ws: string, b: string)
    requires forall i :: 0 <= i < |ws| ==> IsWhitespace(ws[i])
    requires b == [] || !IsWhitespace(b[0])
    ensures TrimStart(ws + b) == b
  {
    if ws == [] {
      assert ws + b == b;
    } else {
      assert (ws + b)[0] == ws[0];
      assert (ws + b)[1..] == ws[1..] + b;
      TrimStartRun(ws[1..], b);
    }
  }

  /** Text without whitespace passes through unchanged. */
  lemma {:induction false} HyphenateNoWhitespace(s: string)
    requires HasNoWhitespace(s)
    ensures HyphenateWhitespace(s) == s
  {
    if s != [] {
      assert HasNoWhitespace(s[1..]) by {
        forall i | 0 <= i < |s[1..]| ensures !IsWhitespace(s[1..][i]) { assert s[1..][i] == s[i + 1]; }
      }
      HyphenateNoWhitespace(s[1..]);
    }
  }

  // ---------------------------------------------------------------------------
  // parseInt and number rendering

  function DigitValue(c: char): nat
    requires IsDigit(c)
  {
    c as int - '0' as int
  }

  function HexDigitValue(c: char): Option<nat>
  {
    if IsDigit(c) then Some(c as int - '0' as int)
    else if 'a' <= c <= 'f' then Some(c as int - 'a' as int + 10)
    else if 'A' <= c <= 'F' then Some(c as int - 'A' as int + 10)
    else None
  }

  predicate AllDigits(s: string) {
    forall i :: 0 <= i < |s| ==> IsDigit(s[i])
  }

  /** The value of a string of decimal digits, most significant first. */
  function DecimalValue(d: string): nat
    requires AllDigits(d)
  {
    if d == [] then 0 else DecimalValue(d[..|d| - 1]) * 10 + DigitValue(d[|d| - 1])
  }

  /** The value of a string of hexadecimal digits, most significant first. */
  function HexValue(d: string): nat
    requires forall i :: 0 <= i < |d| ==> HexDigitValue(d[i]).Some?
  {
    if d == [] then 0 else HexValue(d[..|d| - 1]) * 16 + HexDigitValue(d[|d| - 1]).value
  }

  /** The longest prefix of `s` made of decimal digits. */
  function DigitPrefix(s: string): (d: string)
    ensures |d| <= |s| && d == s[..|d|] && AllDigits(d)
    ensures |d| == |s| || !IsDigit(s[|d|])
  {
    if s != [] && IsDigit(s[0]) then [s[0]] + DigitPrefix(s[1..]) else []
  }

  /** The longest prefix of `s` made of hexadecimal digits. */
  function HexPrefix(s: string): (d: string)
    ensures |d| <= |s| && d == s[..|d|]
    ensures forall i :: 0 <= i < |d| ==> HexDigitValue(d[i]).Some?
    ensures |d| == |s| || HexDigitValue(s[|d|]).None?
  {
    if s != [] && HexDigitValue(s[0]).Some? then [s[0]] + HexPrefix(s[1..]) else []
  }

  /** `parseInt(s)` with no radix: leading whitespace is skipped, one sign is
      allowed, a `0x`/`0X` prefix selects base 16, and the longest run of
      digits that follows is read; `None` stands for `NaN` (no digit at all). */
  function ParseInt(s: string): Option<int>
  {
    var t := TrimStart(s);
    var negative := t != [] && t[0] == '-';
    var u := if t != [] && (t[0] == '-' || t[0] == '+') then t[1..] else t;
    var sign := if negative then -1 else 1;
    if |u| >= 2 && u[0] == '0' && (u[1] == 'x' || u[1] == 'X') then
      var d := HexPrefix(u[2..]);
      if d == [] then None else Some(sign * HexValue(d))
    else
      var d := DigitPrefix(u);
      if d == [] then None else Some(sign * DecimalValue(d))
  }

  function DigitChar(n: nat): (c: char)
    requires n < 10
    ensures IsDigit(c) && DigitValue(c) == n
  {
    ('0' as int + n) as char
  }

  /** The decimal rendering of a natural number, as `${n}` writes it. */
  function NatToString(n: nat): (s: string)
    ensures |s| >= 1 && AllDigits(s)
    ensures DecimalValue(s) == n
    ensures s[0] != '0' || n == 0
  {
    if n < 10 then [DigitChar(n)]
    else
      var s := NatToString(n / 10) + [DigitChar(n % 10)];
      assert s[..|s| - 1] == NatToString(n / 10);
      s
  }

  /** The decimal rendering of an integer, as `${n}` writes it. */
  function IntToString(n: int): (s: string)
    ensures n >= 0 ==> s == NatToString(n)
    ensures n < 0 ==> s == "-" + NatToString(-n)
  {
    if n >= 0 then NatToString(n) else "-" + NatToString(-n)
  }

  /** `parseInt` reads back any rendered integer. */
  lemma ParseIntToString(n: int)
    ensures ParseInt(IntToString(n)) == Some(n)
  {
    if n >= 0 {
      ParseIntNatToString(n);
    } else {
      ParseIntNegativeToString(n);
    }
  }

  lemma ParseIntNatToString(n: nat)
    ensures ParseInt(NatToString(n)) == Some(n)
  {
    ParseIntDigits(NatToString(n));
  }

  lemma ParseIntNegativeToString(n: int)
    requires n < 0
    ensures ParseInt("-" + NatToString(-n)) == Some(n)
  {
    ParseIntNegativeDigits(NatToString(-n));
  }

  /** A digit string parses to its value. */
  lemma ParseIntDigits(d: string)
    requires d != [] && AllDigits(d)
    ensures ParseInt(d) == Some(DecimalValue(d) as int)
  {
    DigitsUnpadded(d);
    DigitsNotHex(d);
    DigitPrefixAll(d);
  }

  /** A digit string after a minus sign parses to the negated value. */
  lemma ParseIntNegativeDigits(d: string)
    requires d != [] && AllDigits(d)
    ensures ParseInt("-" + d) == Some(0 - DecimalValue(d) as int)
  {
    MinusDigitsUnpadded(d);
    DigitsNotHex(d);
    DigitPrefixAll(d);
  }

  lemma DigitsUnpadded(d: string)
    requires d != [] && AllDigits(d)
    ensures TrimStart(d) == d
    ensures d[0] != '-' && d[0] != '+'
  {
    assert IsDigit(d[0]);
    assert !IsWhitespace(d[0]);
    TrimStartUnpadded(d);
  }

  lemma MinusDigitsUnpadded(d: string)
    requires d != [] && AllDigits(d)
    ensures TrimStart("-" + d) == "-" + d
    ensures ("-" + d)[0] == '-' && ("-" + d)[1..] == d
  {
  }

  /** A run of decimal digits never reads as a `0x` hexadecimal prefix. */
  lemma DigitsNotHex(d: string)
    requires d != [] && AllDigits(d)
    ensures !(|d| >= 2 && d[0] == '0' && (d[1] == 'x' || d[1] == 'X'))
  {
    if |d| >= 2 { assert IsDigit(d[1]); }
  }

  lemma {:induction false} DigitPrefixAll(s: string)
    requires AllDigits(s)
    ensures DigitPrefix(s) == s
  {
    if s != [] {
      DigitPrefixAll(s[1..]);
    }
  }

  /** The digit run of `d + rest` is `d` when `rest` does not start with a digit. */
  lemma {:induction false} DigitPrefixStops(d: string, rest: string)
    requires AllDigits(d)
    requires rest == [] || !IsDigit(rest[0])
    ensures DigitPrefix(d + rest) == d
  {
    if d == [] {
      assert d + rest == rest;
    } else {
      assert (d + rest)[1..] == d[1..] + rest;
      DigitPrefixStops(d[1..], rest);
    }
  }

  /** Text that, once its leading whitespace is skipped, starts with neither
      a sign nor a digit is NaN to `parseInt`. */
  lemma ParseIntNoDigits(s: string)
    requires TrimStart(s) != [] && !IsDigit(TrimStart(s)[0])
    requires TrimStart(s)[0] != '-' && TrimStart(s)[0] != '+'
    ensures ParseInt(s) == None
  {
    assert DigitPrefix(TrimStart(s)) == [];
  }
}
