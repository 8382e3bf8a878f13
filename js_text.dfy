/** The JavaScript string operations the scripts rely on: `trim`, `split`,
    the `/\s+/g` replacement, decimal rendering of array indices and
    `parseInt(s, 10)`. Strings are sequences of `char`; JavaScript works on
    UTF-16 code units, which only matters for characters outside the basic
    plane and is not modelled. */
module JsText {
  import opened Wrappers

  /** The code points JavaScript treats as white space (WhiteSpace and
      LineTerminator): what `trim` strips, what `\s` matches and what
      `parseInt` skips. */
  predicate IsSpace(c: char) {
    || c == '\t' || c == '\n' || c == '\U{B}' || c == '\U{C}' || c == '\r' || c == ' '
    || c == '\U{A0}' || c == '\U{1680}' || ('\U{2000}' <= c <= '\U{200A}')
    || c == '\U{2028}' || c == '\U{2029}' || c == '\U{202F}' || c == '\U{205F}'
    || c == '\U{3000}' || c == '\U{FEFF}'
  }

  predicate AllSpace(s: string) {
    forall i :: 0 <= i < |s| ==> IsSpace(s[i])
  }

  /** `s.trimStart()`: the suffix of `s` after its leading white space. */
  function TrimStart(s: string): (r: string)
    ensures |r| <= |s| && r == s[|s| - |r|..]
    ensures r == [] || !IsSpace(r[0])
  {
    if s != [] && IsSpace(s[0]) then TrimStart(s[1..]) else s
  }

  /** What `trimStart` removes is white space. */
  lemma {:induction false} TrimStartDropsSpace(s: string)
    ensures AllSpace(s[..|s| - |TrimStart(s)|])
    decreases |s|
  {
    if s != [] && IsSpace(s[0]) {
      var r := TrimStart(s[1..]);
      TrimStartDropsSpace(s[1..]);
      var k := |s| - |r|;
      forall i | 0 <= i < k
        ensures IsSpace(s[..k][i])
      {
        if i > 0 {
          assert s[..k][i] == s[1..][..k - 1][i - 1];
        }
      }
    }
  }

  /** `s.trimEnd()`: the prefix of `s` before its trailing white space. */
  function TrimEnd(s: string): (r: string)
    ensures |r| <= |s| && r == s[..|r|]
    ensures r == [] || !IsSpace(r[|r| - 1])
  {
    if s != [] && IsSpace(s[|s| - 1]) then TrimEnd(s[..|s| - 1]) else s
  }

  /** What `trimEnd` removes is white space. */
  lemma {:induction false} TrimEndDropsSpace(s: string)
    ensures AllSpace(s[|TrimEnd(s)|..])
    decreases |s|
  {
    if s != [] && IsSpace(s[|s| - 1]) {
      var init := s[..|s| - 1];
      TrimEndDropsSpace(init);
      var k := |TrimEnd(init)|;
      forall i | 0 <= i < |s| - k
        ensures IsSpace(s[k..][i])
      {
        if i < |s| - 1 - k {
          assert s[k..][i] == init[k..][i];
        }
      }
    }
  }

  /** `s.trim()`. */
  function Trim(s: string): string {
    TrimEnd(TrimStart(s))
  }

  /** Trimming leaves nothing exactly when the string is all white space. */
  lemma TrimEmptyIffAllSpace(s: string)
    ensures Trim(s) == [] <==> AllSpace(s)
  {
    var t := TrimStart(s);
    var k := |s| - |t|;
    TrimStartDropsSpace(s);
    TrimEndDropsSpace(t);
    if Trim(s) == [] {
      assert t[0..] == t;
      assert s[..k] == s;
    }
    assert t != [] ==> t[0] == s[k];
  }

  /** A trimmed string neither starts nor ends with white space, and is a
      contiguous part of the input. */
  lemma TrimShape(s: string)
    ensures var r := Trim(s);
      && (r == [] || (!IsSpace(r[0]) && !IsSpace(r[|r| - 1])))
      && var i := |s| - |TrimStart(s)|; i + |r| <= |s| && r == s[i..i + |r|]
  {
    TrimEdges(s);
    TrimSlice(s);
  }

  lemma TrimEdges(s: string)
    ensures var r := Trim(s); r == [] || (!IsSpace(r[0]) && !IsSpace(r[|r| - 1]))
  {
    var t := TrimStart(s);
    var r := TrimEnd(t);
    if r != [] {
      assert r[0] == t[0];
    }
  }

  lemma TrimSlice(s: string)
    ensures var r := Trim(s); var i := |s| - |TrimStart(s)|; i + |r| <= |s| && r == s[i..i + |r|]
  {
    var t := TrimStart(s);
    TrimEndSlice(s, |s| - |t|, t);
  }

  lemma TrimEndSlice(s: string, i: nat, t: string)
    requires i <= |s| && t == s[i..]
    ensures var r := TrimEnd(t); i + |r| <= |s| && r == s[i..i + |r|]
  {
    SliceOfSuffix(s, i, |TrimEnd(t)|);
  }

  lemma SliceOfSuffix(s: string, i: nat, k: nat)
    requires i + k <= |s|
    ensures s[i..][..k] == s[i..i + k]
  {
  }

  /** Trimming a string that has no white space at either end changes nothing. */
  lemma TrimNoEdgeSpace(s: string)
    requires s == [] || (!IsSpace(s[0]) && !IsSpace(s[|s| - 1]))
    ensures Trim(s) == s
  {
  }

  // ---------------------------------------------------------------- split

  /** `s.split(sep)` for a one-character separator: the pieces between
      separators, at least one (the empty string splits into `[""]`). */
  function Split(s: string, sep: char): (r: seq<string>)
    ensures |r| >= 1
    ensures forall p :: p in r ==> sep !in p
    decreases |s|
  {
    if s == [] then [""]
    else if s[0] == sep then [""] + Split(s[1..], sep)
    else
      var rest := Split(s[1..], sep);
      [[s[0]] + rest[0]] + rest[1..]
  }

  /** Splitting a string without the separator yields that string alone. */
  lemma {:induction false} SplitNoSep(s: string, sep: char)
    requires sep !in s
    ensures Split(s, sep) == [s]
    decreases |s|
  {
    if s != [] {
      assert sep !in s[1..];
      SplitNoSep(s[1..], sep);
      assert [s[0]] + s[1..] == s;
    }
  }

  /** Appending a separator and a separator-free piece appends that piece. */
  lemma {:induction false} SplitSnoc(x: string, sep: char, k: string)
    requires sep !in k
    ensures Split(x + [sep] + k, sep) == Split(x, sep) + [k]
    decreases |x|
  {
    if x == [] {
      assert [] + [sep] + k == [sep] + k;
      assert ([sep] + k)[1..] == k;
      SplitNoSep(k, sep);
    } else {
      assert (x + [sep] + k)[1..] == x[1..] + [sep] + k;
      SplitSnoc(x[1..], sep, k);
    }
  }

  /** A separator-free piece followed by a separator comes out as the first
      piece, whatever follows. */
  lemma {:induction false} SplitCons(x: string, sep: char, rest: string)
    requires sep !in x
    ensures Split(x + [sep] + rest, sep) == [x] + Split(rest, sep)
    decreases |x|
  {
    if x == [] {
      assert [] + [sep] + rest == [sep] + rest;
      assert ([sep] + rest)[1..] == rest;
    } else {
      assert (x + [sep] + rest)[0] == x[0];
      assert (x + [sep] + rest)[1..] == x[1..] + [sep] + rest;
      SplitCons(x[1..], sep, rest);
      assert [x[0]] + x[1..] == x;
    }
  }

  // ------------------------------------------------------------- decimals

  predicate IsDigit(c: char) {
    '0' <= c <= '9'
  }

  predicate AllDigits(s: string) {
    forall i :: 0 <= i < |s| ==> IsDigit(s[i])
  }

  function DigitValue(c: char): nat
    requires IsDigit(c)
  {
    c as int - '0' as int
  }

  function DigitChar(d: nat): (c: char)
    requires d < 10
    ensures IsDigit(c) && DigitValue(c) == d
  {
    ('0' as int + d) as char
  }

  /** The value of a string of decimal digits (leading zeros allowed). */
  function DecimalValue(s: string): nat
    requires AllDigits(s)
  {
    if s == [] then 0
    else DecimalValue(s[..|s| - 1]) * 10 + DigitValue(s[|s| - 1])
  }

  /** How JavaScript renders a non-negative integer: decimal digits, no
      leading zero. */
  function NatToDecimal(n: nat): (r: string)
    ensures |r| >= 1 && AllDigits(r)
    ensures r[0] == '0' ==> n == 0 && r == "0"
    ensures DecimalValue(r) == n
  {
    if n < 10 then [DigitChar(n)]
    else
      var p := NatToDecimal(n / 10);
      var r := p + [DigitChar(n % 10)];
      assert r[..|r| - 1] == p;
      r
  }

  /** `String(i)` for an integer. */
  function IntToDecimal(i: int): string {
    if i < 0 then "-" + NatToDecimal(-i) else NatToDecimal(i)
  }

  /** A property name that names an array index: "0", or digits without a
      leading zero. */
  predicate IsCanonicalIndex(k: string) {
    |k| >= 1 && AllDigits(k) && (k[0] == '0' ==> k == "0")
  }

  /** The array index a property name denotes, if any. */
  function CanonicalIndex(k: string): Option<nat> {
    if IsCanonicalIndex(k) then Some(DecimalValue(k)) else None
  }

  lemma {:induction false} DecimalValuePositive(s: string)
    requires |s| >= 1 && AllDigits(s) && s[0] != '0'
    ensures DecimalValue(s) >= 1
    decreases |s|
  {
    if |s| > 1 {
      DecimalValuePositive(s[..|s| - 1]);
    }
  }

  /** Rendering an index and reading it back gives the index. */
  lemma IndexRoundTrip(n: nat)
    ensures CanonicalIndex(NatToDecimal(n)) == Some(n)
  {
  }

  /** Every canonical index name is the rendering of its index, so the two
      are inverse bijections. */
  lemma {:induction false} CanonicalIndexIsRendering(k: string)
    requires IsCanonicalIndex(k)
    ensures NatToDecimal(DecimalValue(k)) == k
    decreases |k|
  {
    if |k| > 1 {
      var p := k[..|k| - 1];
      assert k[0] != '0';
      assert p[0] == k[0];
      DecimalValuePositive(p);
      CanonicalIndexIsRendering(p);
      var n := DecimalValue(k);
      assert n / 10 == DecimalValue(p) && n % 10 == DigitValue(k[|k| - 1]);
      assert k == p + [k[|k| - 1]];
    }
  }

  // ------------------------------------------------------------- parseInt

  /** The longest prefix of `s` made of decimal digits. */
  function DigitPrefix(s: string): (r: string)
    ensures |r| <= |s| && r == s[..|r|] && AllDigits(r)
    ensures |r| < |s| ==> !IsDigit(s[|r|])
  {
    if s != [] && IsDigit(s[0]) then
      var r := DigitPrefix(s[1..]);
      assert [s[0]] + r == s[..|r| + 1];
      [s[0]] + r
    else []
  }

  /** What follows an optional leading sign. */
  function AfterSign(t: string): (u: string)
    ensures t != [] && (t[0] == '-' || t[0] == '+') ==> u == t[1..]
    ensures t == [] || (t[0] != '-' && t[0] != '+') ==> u == t
  {
    if t != [] && (t[0] == '-' || t[0] == '+') then t[1..] else t
  }

  /** The digit prefix is empty exactly when the text does not start with a
      digit. */
  lemma DigitPrefixEmpty(u: string)
    ensures DigitPrefix(u) == [] <==> u == [] || !IsDigit(u[0])
  {
    if u != [] && IsDigit(u[0]) {
      assert |DigitPrefix(u)| >= 1 by {
        assert DigitPrefix(u) == [u[0]] + DigitPrefix(u[1..]);
      }
    }
  }

  /** `parseInt(s, 10)`: leading white space, an optional sign, then the
      longest run of digits; `None` (NaN) when there are no digits. */
  function ParseInt(s: string): (r: Option<int>)
    ensures var u := AfterSign(TrimStart(s));
      r.None? <==> u == [] || !IsDigit(u[0])
  {
    var t := TrimStart(s);
    var negative := t != [] && t[0] == '-';
    var u := AfterSign(t);
    var digits := DigitPrefix(u);
    DigitPrefixEmpty(u);
    if digits == [] then None
    else if negative then Some(-(DecimalValue(digits) as int))
    else Some(DecimalValue(digits))
  }

  lemma ParseIntOfDecimal(n: nat)
    ensures ParseInt(NatToDecimal(n)) == Some(n)
  {
    ParseIntOfDigits(NatToDecimal(n));
  }

  /** A non-empty string of digits parses to its value. */
  lemma ParseIntOfDigits(s: string)
    requires |s| >= 1 && AllDigits(s)
    ensures ParseInt(s) == Some(DecimalValue(s))
  {
    assert IsDigit(s[0]) && s[0] != '-' && s[0] != '+';
    TrimStartKeeps(s);
    DigitPrefixOfDigits(s);
    assert DigitPrefix(TrimStart(s)) == s;
  }

  /** A string that does not start with white space is its own `trimStart`. */
  lemma TrimStartKeeps(s: string)
    requires s == [] || !IsSpace(s[0])
    ensures TrimStart(s) == s
  {
  }

  /** A string of digits is its own longest digit prefix. */
  lemma {:induction false} DigitPrefixOfDigits(s: string)
    requires AllDigits(s)
    ensures DigitPrefix(s) == s
    decreases |s|
  {
    if s != [] {
      assert IsDigit(s[0]);
      assert AllDigits(s[1..]) by {
        forall i | 0 <= i < |s| - 1
          ensures IsDigit(s[1..][i])
        {
          assert s[1..][i] == s[i + 1];
        }
      }
      DigitPrefixOfDigits(s[1..]);
      assert [s[0]] + s[1..] == s;
    }
  }

  // ------------------------------------------------- white-space collapse

  /** `s` with its leading white space removed (the rest of a run). */
  function DropSpaces(s: string): (r: string)
    ensures |r| <= |s|
    ensures r == [] || !IsSpace(r[0])
  {
    if s != [] && IsSpace(s[0]) then DropSpaces(s[1..]) else s
  }

  /** `s.replace(/\s+/g, " ")`: every maximal run of white space becomes a
      single space character. */
  function CollapseSpaces(s: string): (r: string)
    ensures s == [] <==> r == []
    ensures r != [] && !IsSpace(s[0]) ==> r[0] == s[0]
    ensures r != [] && IsSpace(s[0]) ==> r[0] == ' '
    decreases |s|
  {
    if s == [] then []
    else if IsSpace(s[0]) then [' '] + CollapseSpaces(DropSpaces(s[1..]))
    else [s[0]] + CollapseSpaces(s[1..])
  }

  /** A string whose only white space is single, isolated spaces. */
  predicate Collapsed(t: string) {
    && (forall i :: 0 <= i < |t| && IsSpace(t[i]) ==> t[i] == ' ')
    && (forall i, j :: 0 <= i < |t| && j == i + 1 && j < |t| && IsSpace(t[i]) ==> !IsSpace(t[j]))
  }

  lemma {:induction false} CollapseSpacesIsCollapsed(s: string)
    ensures Collapsed(CollapseSpaces(s))
    decreases |s|
  {
    if s != [] {
      if IsSpace(s[0]) {
        var d := DropSpaces(s[1..]);
        CollapseSpacesIsCollapsed(d);
        var r := CollapseSpaces(s);
        assert r == [' '] + CollapseSpaces(d);
        forall i, j | 0 <= i < |r| && j == i + 1 && j < |r| && IsSpace(r[i])
          ensures !IsSpace(r[j])
        {
          if i == 0 {
            assert r[1] == CollapseSpaces(d)[0];
          } else {
            assert r[i] == CollapseSpaces(d)[i - 1] && r[j] == CollapseSpaces(d)[j - 1];
          }
        }
      } else {
        CollapseSpacesIsCollapsed(s[1..]);
      }
    }
  }

  /** Collapsing a collapsed string changes nothing. */
  lemma {:induction false} CollapseSpacesFixesCollapsed(t: string)
    requires Collapsed(t)
    ensures CollapseSpaces(t) == t
    decreases |t|
  {
    if t != [] {
      assert Collapsed(t[1..]);
      if IsSpace(t[0]) {
        assert t[1..] == [] || !IsSpace(t[1]);
        assert DropSpaces(t[1..]) == t[1..];
      }
      CollapseSpacesFixesCollapsed(t[1..]);
    }
  }

  /** Any contiguous part of a collapsed string is collapsed. */
  lemma CollapsedSlice(t: string, i: nat, j: nat, u: string)
    requires Collapsed(t) && i <= j <= |t| && u == t[i..j]
    ensures Collapsed(u)
  {
    forall k, m | 0 <= k < |u| && m == k + 1 && m < |u| && IsSpace(u[k])
      ensures !IsSpace(u[m])
    {
      assert u[k] == t[i + k] && u[m] == t[i + m];
    }
  }

  /** Trimming a collapsed string keeps it collapsed. */
  lemma CollapsedTrim(c: string)
    requires Collapsed(c)
    ensures Collapsed(Trim(c))
  {
    var t := TrimStart(c);
    CollapsedSlice(c, |c| - |t|, |c|, t);
    CollapsedSlice(t, 0, |TrimEnd(t)|, TrimEnd(t));
  }
}
