/** The string helpers of formatters.ts: truncateText, capitalizeFirstLetter
    and slugify. Strings are sequences of characters; case mapping is
    restricted to ASCII, and the regular-expression classes follow
    JavaScript's definitions without the `u` flag. */
module Formatters {

  // ---------------------------------------------------------------------
  // Character classes

  predicate IsAsciiUpper(c: char) { 'A' <= c <= 'Z' }

  predicate IsAsciiLower(c: char) { 'a' <= c <= 'z' }

  predicate IsDigit(c: char) { '0' <= c <= '9' }

  /** JavaScript's `\w` without the `u` flag: [A-Za-z0-9_]. */
  predicate IsWordChar(c: char) {
    IsAsciiUpper(c) || IsAsciiLower(c) || IsDigit(c) || c == '_'
  }

  /** JavaScript's `\s`: the WhiteSpace and LineTerminator code points of
      ECMAScript (tab, line feed, vertical tab, form feed, carriage return,
      space, no-break space, the Unicode space separators, the line and
      paragraph separators and the byte-order mark). */
  predicate IsSpace(c: char) {
    var n := c as int;
    (0x09 <= n <= 0x0D) || n == 0x20 || n == 0xA0 || n == 0x1680
    || (0x2000 <= n <= 0x200A) || n == 0x2028 || n == 0x2029
    || n == 0x202F || n == 0x205F || n == 0x3000 || n == 0xFEFF
  }

  /** The characters a slug may contain: [a-z0-9_-]. */
  predicate IsSlugChar(c: char) {
    IsAsciiLower(c) || IsDigit(c) || c == '_' || c == '-'
  }

  /** ASCII upper-casing of one character; every other character is kept. */
  function ToUpper(c: char): (u: char)
    ensures IsAsciiLower(c) ==> IsAsciiUpper(u)
    ensures !IsAsciiLower(c) ==> u == c
  {
    if IsAsciiLower(c) then (c as int - 32) as char else c
  }

  /** ASCII lower-casing of one character; every other character is kept. */
  function ToLower(c: char): (l: char)
    ensures IsAsciiUpper(c) ==> IsAsciiLower(l)
    ensures !IsAsciiUpper(c) ==> l == c
  {
    if IsAsciiUpper(c) then (c as int + 32) as char else c
  }

  // ---------------------------------------------------------------------
  // truncateText

  /** The number of characters of `text` that survive truncation: all of
      them when the text fits, else `maxLength`, clamped at 0 as
      `substring` clamps a negative end. */
  function KeptLength(text: string, maxLength: int): (k: nat)
    ensures k <= |text|
  {
    if |text| <= maxLength then |text| else if maxLength < 0 then 0 else maxLength
  }

  function TruncateText(text: string, maxLength: int): (r: string)
    ensures |text| <= maxLength ==> r == text
    ensures |text| > maxLength ==>
              |r| == KeptLength(text, maxLength) + 3
              && r[KeptLength(text, maxLength)..] == "..."
    ensures text[..KeptLength(text, maxLength)] <= r
  {
    if |text| <= maxLength then text
    else text[..KeptLength(text, maxLength)] + "..."
  }

  /** The result is never longer than the bound plus the ellipsis, and it is
      shorter than `text` exactly when `text` exceeds that length. */
  lemma TruncateLengthBound(text: string, maxLength: int)
    ensures |TruncateText(text, maxLength)| <= (if maxLength < 0 then 0 else maxLength) + 3
    ensures |TruncateText(text, maxLength)| < |text|
            <==> |text| > (if maxLength < 0 then 0 else maxLength) + 3
  {
  }

  /** Truncating an already truncated text with the same bound changes
      nothing: the ellipsis keeps the result over the bound, and the kept
      prefix is the same. */
  lemma TruncateIdempotent(text: string, maxLength: int)
    ensures TruncateText(TruncateText(text, maxLength), maxLength)
            == TruncateText(text, maxLength)
  {
  }

  /** A text only one or two characters over the bound comes back longer
      than it went in, because three dots replace fewer than three
      characters. */
  lemma TruncateCanLengthen(text: string, maxLength: int)
    requires 0 <= maxLength < |text| < maxLength + 3
    ensures |TruncateText(text, maxLength)| > |text|
  {
  }

  // ---------------------------------------------------------------------
  // capitalizeFirstLetter

  function CapitalizeFirstLetter(text: string): (r: string)
    ensures |r| == |text|
    ensures text != [] ==> r[0] == ToUpper(text[0]) && r[1..] == text[1..]
  {
    if text == [] then [] else [ToUpper(text[0])] + text[1..]
  }

  /** Capitalising twice is capitalising once, and the result differs from
      the text only in the case of its first letter. */
  lemma CapitalizeIdempotent(text: string)
    ensures CapitalizeFirstLetter(CapitalizeFirstLetter(text)) == CapitalizeFirstLetter(text)
    ensures text != [] ==> ToLower(CapitalizeFirstLetter(text)[0]) == ToLower(text[0])
    ensures text != [] && IsAsciiLower(text[0]) ==> IsAsciiUpper(CapitalizeFirstLetter(text)[0])
  {
  }

  // ---------------------------------------------------------------------
  // slugify, one rewrite step at a time

  predicate NoUpper(s: string) {
    forall i :: 0 <= i < |s| ==> !IsAsciiUpper(s[i])
  }

  predicate NoSpace(s: string) {
    forall i :: 0 <= i < |s| ==> !IsSpace(s[i])
  }

  predicate SlugChars(s: string) {
    forall i :: 0 <= i < |s| ==> IsSlugChar(s[i])
  }

  predicate NoDoubleHyphen(s: string) {
    forall i :: 0 <= i < |s| - 1 ==> !(s[i] == '-' && s[i + 1] == '-')
  }

  /** The word characters of `s`, in order. */
  function WordCharsOf(s: string): string {
    if s == [] then [] else (if IsWordChar(s[0]) then [s[0]] else []) + WordCharsOf(s[1..])
  }

  /** The characters of `s` other than hyphens, in order. */
  function NonHyphens(s: string): string {
    if s == [] then [] else (if s[0] != '-' then [s[0]] else []) + NonHyphens(s[1..])
  }

  lemma {:induction false} NonHyphensAppend(a: string, b: string)
    ensures NonHyphens(a + b) == NonHyphens(a) + NonHyphens(b)
  {
    if a != [] {
      assert (a + b)[1..] == a[1..] + b;
      NonHyphensAppend(a[1..], b);
    } else {
      assert a + b == b;
    }
  }

  /** What slugify promises of its output: only [a-z0-9_-], no `--`, and no
      hyphen at either end. */
  predicate IsSlug(s: string) {
    && SlugChars(s)
    && NoDoubleHyphen(s)
    && (s != [] ==> s[0] != '-' && s[|s| - 1] != '-')
  }

  /** Step 1, `toLowerCase()`, on ASCII. */
  function Lower(s: string): (r: string)
    ensures |r| == |s|
    ensures forall i :: 0 <= i < |s| ==> r[i] == ToLower(s[i])
    ensures NoUpper(r)
  {
    if s == [] then [] else [ToLower(s[0])] + Lower(s[1..])
  }

  /** Step 2, `replace(/\s+/g, '-')`: every maximal run of white space
      becomes a single hyphen. A space followed by another space is
      dropped; the last space of a run becomes the hyphen. */
  function HyphenateSpaces(s: string): (r: string)
    ensures |r| <= |s|
    ensures NoSpace(s) ==> r == s
  {
    if s == [] then []
    else if IsSpace(s[0]) && |s| > 1 && IsSpace(s[1]) then HyphenateSpaces(s[1..])
    else if IsSpace(s[0]) then "-" + HyphenateSpaces(s[1..])
    else [s[0]] + HyphenateSpaces(s[1..])
  }

  /** Step 3, `replace(/[^\w-]+/g, '')`: every character that is neither a
      word character nor a hyphen is removed. */
  function KeepWordChars(s: string): (r: string)
    ensures |r| <= |s|
    ensures forall i :: 0 <= i < |r| ==> (IsWordChar(r[i]) || r[i] == '-') && r[i] in s
    ensures NoUpper(s) ==> SlugChars(r)
    ensures (forall i :: 0 <= i < |s| ==> IsWordChar(s[i]) || s[i] == '-') ==> r == s
  {
    if s == [] then []
    else if IsWordChar(s[0]) || s[0] == '-' then [s[0]] + KeepWordChars(s[1..])
    else KeepWordChars(s[1..])
  }

  /** Step 4, `replace(/--+/g, '-')`: every run of two or more hyphens
      becomes one. A hyphen followed by another hyphen is dropped. */
  function CollapseHyphens(s: string): (r: string)
    ensures |r| <= |s|
    ensures s != [] ==> r != [] && r[0] == s[0]
    ensures NoDoubleHyphen(r)
    ensures NoDoubleHyphen(s) ==> r == s
  {
    if s == [] then []
    else if s[0] == '-' && |s| > 1 && s[1] == '-' then CollapseHyphens(s[1..])
    else [s[0]] + CollapseHyphens(s[1..])
  }

  /** Step 5, `replace(/^-+/, '')`: the leading hyphens are removed. */
  function TrimLeadingHyphens(s: string): (r: string)
    ensures |r| <= |s| && r == s[|s| - |r|..]
    ensures forall i :: 0 <= i < |s| - |r| ==> s[i] == '-'
    ensures r != [] ==> r[0] != '-'
  {
    if s != [] && s[0] == '-' then TrimLeadingHyphens(s[1..]) else s
  }

  /** Step 6, `replace(/-+$/, '')`: the trailing hyphens are removed. */
  function TrimTrailingHyphens(s: string): (r: string)
    ensures |r| <= |s| && r == s[..|r|]
    ensures forall i :: |r| <= i < |s| ==> s[i] == '-'
    ensures r != [] ==> r[|r| - 1] != '-'
  {
    if s != [] && s[|s| - 1] == '-' then TrimTrailingHyphens(s[..|s| - 1]) else s
  }

  // How each step treats runs and concatenations. A step that commutes
  // with concatenation at every seam it may see, together with its value
  // on a single run or character, is determined on every input.

  /** Step 2 works run by run: text split between two characters that are
      not both white space is rewritten piece by piece. */
  lemma {:induction false} HyphenateSpacesAppend(a: string, b: string)
    requires a == [] || b == [] || !(IsSpace(a[|a| - 1]) && IsSpace(b[0]))
    ensures HyphenateSpaces(a + b) == HyphenateSpaces(a) + HyphenateSpaces(b)
  {
    if a == [] {
      assert a + b == b;
    } else {
      assert (a + b)[1..] == a[1..] + b;
      HyphenateSpacesAppend(a[1..], b);
    }
  }

  /** Step 2 leaves no white space and adds no character but hyphens, so it
      keeps a text lower case. */
  lemma {:induction false} HyphenateSpacesAlphabet(s: string)
    ensures NoSpace(HyphenateSpaces(s))
    ensures forall i :: 0 <= i < |HyphenateSpaces(s)| ==>
              HyphenateSpaces(s)[i] == '-' || HyphenateSpaces(s)[i] in s
    ensures NoUpper(s) ==> NoUpper(HyphenateSpaces(s))
  {
    if s != [] {
      HyphenateSpacesAlphabet(s[1..]);
      assert forall c :: c in s[1..] ==> c in s;
    }
  }

  /** Step 2 turns a whole run of white space into one hyphen. */
  lemma {:induction false} HyphenateSpacesRun(w: string)
    requires w != [] && forall i :: 0 <= i < |w| ==> IsSpace(w[i])
    ensures HyphenateSpaces(w) == "-"
  {
    if |w| > 1 {
      HyphenateSpacesRun(w[1..]);
    }
  }

  /** Step 3 filters character by character. */
  lemma {:induction false} KeepWordCharsAppend(a: string, b: string)
    ensures KeepWordChars(a + b) == KeepWordChars(a) + KeepWordChars(b)
  {
    if a == [] {
      assert a + b == b;
    } else {
      assert (a + b)[1..] == a[1..] + b;
      KeepWordCharsAppend(a[1..], b);
    }
  }

  /** Step 3 keeps a word character or a hyphen, and drops anything else. */
  lemma KeepWordCharsSingle(c: char)
    ensures KeepWordChars([c]) == if IsWordChar(c) || c == '-' then [c] else []
  {
    assert [c][1..] == [];
  }

  /** Step 4 works run by run: text split between two characters that are
      not both hyphens is collapsed piece by piece. */
  lemma {:induction false} CollapseHyphensAppend(a: string, b: string)
    requires a == [] || b == [] || !(a[|a| - 1] == '-' && b[0] == '-')
    ensures CollapseHyphens(a + b) == CollapseHyphens(a) + CollapseHyphens(b)
  {
    if a == [] {
      assert a + b == b;
    } else {
      assert (a + b)[1..] == a[1..] + b;
      CollapseHyphensAppend(a[1..], b);
    }
  }

  /** Step 4 turns a whole run of hyphens into one hyphen. */
  lemma {:induction false} CollapseHyphensRun(h: string)
    requires h != [] && forall i :: 0 <= i < |h| ==> h[i] == '-'
    ensures CollapseHyphens(h) == "-"
  {
    if |h| > 1 {
      CollapseHyphensRun(h[1..]);
    }
  }

  /** Step 4 adds no character, so it keeps the slug alphabet. */
  lemma {:induction false} CollapseHyphensAlphabet(s: string)
    ensures forall i :: 0 <= i < |CollapseHyphens(s)| ==> CollapseHyphens(s)[i] in s
    ensures SlugChars(s) ==> SlugChars(CollapseHyphens(s))
  {
    if s != [] {
      CollapseHyphensAlphabet(s[1..]);
      assert forall c :: c in s[1..] ==> c in s;
    }
  }

  // Each step keeps the characters that matter, in order.

  /** Step 2 keeps the word characters in order: it only rewrites white space. */
  lemma {:induction false} HyphenateSpacesKeepsWordChars(s: string)
    ensures WordCharsOf(HyphenateSpaces(s)) == WordCharsOf(s)
  {
    if s != [] {
      HyphenateSpacesKeepsWordChars(s[1..]);
      var t := HyphenateSpaces(s[1..]);
      if IsSpace(s[0]) && |s| > 1 && IsSpace(s[1]) {
      } else if IsSpace(s[0]) {
        assert ("-" + t)[1..] == t;
      } else {
        assert ([s[0]] + t)[1..] == t;
      }
    }
  }

  /** Step 3 drops no word character: apart from hyphens, what remains is
      exactly the word characters of its input, in order. */
  lemma {:induction false} KeepWordCharsKeepsWordChars(s: string)
    ensures NonHyphens(KeepWordChars(s)) == WordCharsOf(s)
  {
    if s != [] {
      KeepWordCharsKeepsWordChars(s[1..]);
      var t := KeepWordChars(s[1..]);
      if IsWordChar(s[0]) || s[0] == '-' {
        assert ([s[0]] + t)[1..] == t;
      }
    }
  }

  /** Step 4 drops hyphens only. */
  lemma {:induction false} CollapseHyphensKeepsNonHyphens(s: string)
    ensures NonHyphens(CollapseHyphens(s)) == NonHyphens(s)
  {
    if s != [] {
      CollapseHyphensKeepsNonHyphens(s[1..]);
      var t := CollapseHyphens(s[1..]);
      if !(s[0] == '-' && |s| > 1 && s[1] == '-') {
        assert ([s[0]] + t)[1..] == t;
      }
    }
  }

  /** Step 5 drops hyphens only. */
  lemma {:induction false} TrimLeadingKeepsNonHyphens(s: string)
    ensures NonHyphens(TrimLeadingHyphens(s)) == NonHyphens(s)
  {
    if s != [] && s[0] == '-' {
      TrimLeadingKeepsNonHyphens(s[1..]);
    }
  }

  /** Step 6 drops hyphens only. */
  lemma {:induction false} TrimTrailingKeepsNonHyphens(s: string)
    ensures NonHyphens(TrimTrailingHyphens(s)) == NonHyphens(s)
  {
    if s != [] && s[|s| - 1] == '-' {
      assert s == s[..|s| - 1] + [s[|s| - 1]];
      NonHyphensAppend(s[..|s| - 1], [s[|s| - 1]]);
      TrimTrailingKeepsNonHyphens(s[..|s| - 1]);
    }
  }

  /** Apart from hyphens, the slug is exactly the word characters of the
      lower-cased text, in order: nothing else is dropped or added. */
  function Slugify(text: string): (r: string)
    ensures NonHyphens(r) == WordCharsOf(Lower(text))
  {
    var hyphenated := HyphenateSpaces(Lower(text));
    HyphenateSpacesKeepsWordChars(Lower(text));
    KeepWordCharsKeepsWordChars(hyphenated);
    CollapseHyphensKeepsNonHyphens(KeepWordChars(hyphenated));
    TrimLeadingKeepsNonHyphens(CollapseHyphens(KeepWordChars(hyphenated)));
    TrimTrailingKeepsNonHyphens(TrimLeadingHyphens(CollapseHyphens(KeepWordChars(hyphenated))));
    TrimTrailingHyphens(TrimLeadingHyphens(CollapseHyphens(KeepWordChars(hyphenated))))
  }

  // ---------------------------------------------------------------------
  // What slugify promises

  /** Every output of slugify is a slug. */
  lemma SlugifyIsSlug(text: string)
    ensures IsSlug(Slugify(text))
  {
    HyphenateSpacesAlphabet(Lower(text));
    var kept := KeepWordChars(HyphenateSpaces(Lower(text)));
    assert SlugChars(kept);
    CollapseHyphensAlphabet(kept);
    TrimmedIsSlug(CollapseHyphens(kept));
  }

  /** Steps 5 and 6 turn slug characters without `--` into a slug. */
  lemma TrimmedIsSlug(collapsed: string)
    requires SlugChars(collapsed) && NoDoubleHyphen(collapsed)
    ensures IsSlug(TrimTrailingHyphens(TrimLeadingHyphens(collapsed)))
  {
    var trimmed := TrimLeadingHyphens(collapsed);
    SliceKeepsSlugChars(collapsed, |collapsed| - |trimmed|, |collapsed|);
    var r := TrimTrailingHyphens(trimmed);
    SliceKeepsSlugChars(trimmed, 0, |r|);
    assert r != [] ==> r[0] == trimmed[0];
  }

  /** A slice of slug characters without `--` has neither. */
  lemma SliceKeepsSlugChars(s: string, lo: nat, hi: nat)
    requires lo <= hi <= |s|
    requires SlugChars(s) && NoDoubleHyphen(s)
    ensures SlugChars(s[lo..hi]) && NoDoubleHyphen(s[lo..hi])
  {
    var t := s[lo..hi];
    assert forall i :: 0 <= i < |t| ==> t[i] == s[lo + i];
  }

  /** Each rewrite step leaves a slug as it is. */
  lemma SlugIsFixedPoint(s: string)
    requires IsSlug(s)
    ensures Slugify(s) == s
  {
    assert Lower(s) == s;
    assert NoSpace(s);
    SlugPassesLastSteps(s);
  }

  /** Steps 3 to 6 leave a slug as it is. */
  lemma SlugPassesLastSteps(s: string)
    requires IsSlug(s)
    ensures TrimTrailingHyphens(TrimLeadingHyphens(CollapseHyphens(KeepWordChars(s)))) == s
  {
    assert KeepWordChars(s) == s;
    assert CollapseHyphens(s) == s;
    assert TrimLeadingHyphens(s) == s;
  }

  /** Two slugs joined by one hyphen form a slug. */
  lemma JoinedSlugs(w1: string, w2: string)
    requires IsSlug(w1) && IsSlug(w2) && w1 != [] && w2 != []
    ensures IsSlug(w1 + "-" + w2)
  {
    var h := w1 + "-" + w2;
    assert forall i :: 0 <= i < |w1| ==> h[i] == w1[i];
    assert h[|w1|] == '-';
    assert forall i :: |w1| < i < |h| ==> h[i] == w2[i - |w1| - 1];
  }

  /** A text that is already lower case is left as it is by step 1. */
  lemma LowerKeepsLowerCase(s: string)
    requires NoUpper(s)
    ensures Lower(s) == s
  {
    assert forall i :: 0 <= i < |s| ==> Lower(s)[i] == s[i];
  }

  /** Lower-case pieces make a lower-case text. */
  lemma NoUpperJoin(a: string, b: string, c: string)
    requires NoUpper(a) && NoUpper(b) && NoUpper(c)
    ensures NoUpper(a + b + c)
  {
    var t := a + b + c;
    assert forall i :: 0 <= i < |t| ==>
      t[i] == (if i < |a| then a[i] else if i < |a| + |b| then b[i - |a|] else c[i - |a| - |b|]);
  }

  /** Step 2 on a white-space run with a piece free of white space on each
      side. */
  lemma HyphenateBetween(a: string, ws: string, b: string)
    requires NoSpace(a) && NoSpace(b)
    requires ws != [] && forall i :: 0 <= i < |ws| ==> IsSpace(ws[i])
    ensures HyphenateSpaces(a + ws + b) == a + "-" + b
  {
    assert a == [] || !IsSpace(a[|a| - 1]);
    HyphenateSpacesAppend(a, ws);
    HyphenateSpacesRun(ws);
    assert HyphenateSpaces(a + ws) == a + "-";
    assert b == [] || !IsSpace(b[0]);
    assert (a + ws)[|a + ws| - 1] == ws[|ws| - 1];
    HyphenateSpacesAppend(a + ws, b);
  }

  /** A run of white space between two slugs becomes exactly one hyphen. */
  lemma SlugifySeparatedWords(w1: string, ws: string, w2: string)
    requires IsSlug(w1) && IsSlug(w2) && w1 != [] && w2 != []
    requires ws != [] && forall i :: 0 <= i < |ws| ==> IsSpace(ws[i])
    ensures Slugify(w1 + ws + w2) == w1 + "-" + w2
  {
    NoUpperJoin(w1, ws, w2);
    LowerKeepsLowerCase(w1 + ws + w2);
    HyphenateBetween(w1, ws, w2);
    JoinedSlugs(w1, w2);
    SlugPassesLastSteps(w1 + "-" + w2);
  }

  /** Step 2 on a piece free of white space with a white-space run on
      each side. */
  lemma HyphenateAround(ws1: string, s: string, ws2: string)
    requires NoSpace(s) && s != []
    requires ws1 != [] && forall i :: 0 <= i < |ws1| ==> IsSpace(ws1[i])
    requires ws2 != [] && forall i :: 0 <= i < |ws2| ==> IsSpace(ws2[i])
    ensures HyphenateSpaces(ws1 + s + ws2) == "-" + s + "-"
  {
    assert !IsSpace(s[0]) && !IsSpace(s[|s| - 1]);
    HyphenateSpacesAppend(ws1, s);
    HyphenateSpacesRun(ws1);
    assert HyphenateSpaces(ws1 + s) == "-" + s;
    assert (ws1 + s)[|ws1 + s| - 1] == s[|s| - 1];
    HyphenateSpacesAppend(ws1 + s, ws2);
    HyphenateSpacesRun(ws2);
  }

  /** Steps 3 and 4 leave a slug with a hyphen at each end as it is. */
  lemma HyphenatedSlugKept(s: string)
    requires IsSlug(s) && s != []
    ensures KeepWordChars("-" + s + "-") == "-" + s + "-"
    ensures CollapseHyphens("-" + s + "-") == "-" + s + "-"
  {
    KeepWordCharsSingle('-');
    assert KeepWordChars(s) == s;
    KeepWordCharsAppend("-", s);
    KeepWordCharsAppend("-" + s, "-");
    assert CollapseHyphens("-") == "-";
    CollapseHyphensAppend("-", s);
    CollapseHyphensAppend("-" + s, "-");
  }

  /** Step 5 removes a single leading hyphen. */
  lemma TrimLeadingOneHyphen(x: string)
    requires x != [] && x[0] != '-'
    ensures TrimLeadingHyphens("-" + x) == x
  {
    assert ("-" + x)[1..] == x;
  }

  /** Step 6 removes a single trailing hyphen. */
  lemma TrimTrailingOneHyphen(x: string)
    requires x != [] && x[|x| - 1] != '-'
    ensures TrimTrailingHyphens(x + "-") == x
  {
    assert (x + "-")[..|x|] == x;
  }

  /** Steps 5 and 6 remove one hyphen at each end of a text that does not
      start or end with one itself. */
  lemma TrimBothEnds(s: string)
    requires s != [] && s[0] != '-' && s[|s| - 1] != '-'
    ensures TrimTrailingHyphens(TrimLeadingHyphens("-" + s + "-")) == s
  {
    assert "-" + s + "-" == "-" + (s + "-");
    TrimLeadingOneHyphen(s + "-");
    TrimTrailingOneHyphen(s);
  }

  /** White space before and after a slug is dropped, not turned into
      hyphens at the ends. */
  lemma SlugifyTrimsSpaces(ws1: string, s: string, ws2: string)
    requires IsSlug(s) && s != []
    requires ws1 != [] && forall i :: 0 <= i < |ws1| ==> IsSpace(ws1[i])
    requires ws2 != [] && forall i :: 0 <= i < |ws2| ==> IsSpace(ws2[i])
    ensures Slugify(ws1 + s + ws2) == s
  {
    NoUpperJoin(ws1, s, ws2);
    LowerKeepsLowerCase(ws1 + s + ws2);
    HyphenateAround(ws1, s, ws2);
    HyphenatedSlugKept(s);
    TrimBothEnds(s);
  }

  /** slugify is idempotent. */
  lemma SlugifyIdempotent(text: string)
    ensures Slugify(Slugify(text)) == Slugify(text)
  {
    SlugifyIsSlug(text);
    SlugIsFixedPoint(Slugify(text));
  }

  /** The texts slugify leaves unchanged are exactly the slugs. */
  lemma SlugifyFixesExactlySlugs(text: string)
    ensures Slugify(text) == text <==> IsSlug(text)
  {
    SlugifyIsSlug(text);
    if IsSlug(text) {
      SlugIsFixedPoint(text);
    }
  }
}
