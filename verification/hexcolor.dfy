/** The theme editor's `hexToRgb`: turns a CSS hex colour (`#rgb` or
    `#rrggbb`, the `#` optional, digits in either case) into the
    `"r, g, b"` text used for the `--color-primary-rgb` custom property. */
module HexColor {
  import opened Text

  predicate IsHexDigit(c: char) {
    IsDigit(c) || 'a' <= c <= 'f' || 'A' <= c <= 'F'
  }

  predicate AllHex(s: string) {
    forall i :: 0 <= i < |s| ==> IsHexDigit(s[i])
  }

  /** `parseInt(c, 16)` of a single digit. */
  function HexValue(c: char): (v: nat)
    requires IsHexDigit(c)
    ensures v < 16
  {
    if IsDigit(c) then DigitValue(c)
    else if 'a' <= c <= 'f' then (c as int - 'a' as int + 10) as nat
    else (c as int - 'A' as int + 10) as nat
  }

  /** The lower-case digit for a value below 16. */
  function HexDigitChar(v: nat): (c: char)
    requires v < 16
    ensures IsHexDigit(c) && HexValue(c) == v
  {
    if v < 10 then DigitChar(v) else ('a' as int + (v - 10)) as char
  }

  /** What follows the optional leading `#`. Since `#` is not a hex digit,
      the anchored pattern `^#?…$` matches `s` exactly when it matches this. */
  function Body(s: string): string {
    if |s| > 0 && s[0] == '#' then s[1..] else s
  }

  /** `/^#?([a-f\d])([a-f\d])([a-f\d])$/i` matches the whole string. */
  predicate IsShorthand(s: string) {
    |Body(s)| == 3 && AllHex(Body(s))
  }

  /** `/^#?([a-f\d]{2})([a-f\d]{2})([a-f\d]{2})$/i` matches the whole string. */
  predicate IsFullHex(s: string) {
    |Body(s)| == 6 && AllHex(Body(s))
  }

  /** Each digit written twice, in order: `r + r + g + g + b + b`. */
  function Doubled(d: string): string
    requires |d| == 3
  {
    [d[0], d[0], d[1], d[1], d[2], d[2]]
  }

  /** The `replace` step: a whole-string shorthand becomes its six doubled
      digits (the `#` is part of the match and so disappears); anything else
      is left alone. */
  function ExpandShorthand(s: string): (r: string)
    ensures IsShorthand(s) ==> IsFullHex(r) && Body(r) == r
    ensures !IsShorthand(s) ==> r == s
  {
    if IsShorthand(s) then Doubled(Body(s)) else s
  }

  /** `parseInt(d.substr(i, 2), 16)`. */
  function Channel(d: string, i: nat): (v: nat)
    requires i + 1 < |d| && AllHex(d)
    ensures v < 256
  {
    16 * HexValue(d[i]) + HexValue(d[i + 1])
  }

  /** The success format: three decimals separated by a comma and a space. */
  function RgbText(r: nat, g: nat, b: nat): string {
    Decimal(r) + ", " + Decimal(g) + ", " + Decimal(b)
  }

  /** The failure value; note it has no spaces, unlike `RgbText`. */
  const Fallback: string := "0,0,0"

  lemma RgbTextIsNotFallback(r: nat, g: nat, b: nat)
    ensures RgbText(r, g, b) != Fallback
  {
    var t := RgbText(r, g, b);
    assert t[|Decimal(r)| + 1] == ' ';
    assert forall i :: 0 <= i < |Fallback| ==> Fallback[i] != ' ';
  }

  function HexToRgb(hex: string): (r: string)
    ensures r == Fallback <==> !IsShorthand(hex) && !IsFullHex(hex)
  {
    var h := ExpandShorthand(hex);
    if IsFullHex(h) then
      var d := Body(h);
      RgbTextIsNotFallback(Channel(d, 0), Channel(d, 2), Channel(d, 4));
      RgbText(Channel(d, 0), Channel(d, 2), Channel(d, 4))
    else Fallback
  }

  /** A shorthand colour converts like the six-digit colour that repeats
      each of its digits, so `#abc` converts like `aabbcc`. */
  lemma ShorthandMeansDoubled(s: string)
    requires IsShorthand(s)
    ensures HexToRgb(s) == HexToRgb(Doubled(Body(s)))
  {
    var d := Doubled(Body(s));
    assert Body(d) == d;
    assert !IsShorthand(d);
  }

  /** Any six-digit colour yields three byte values joined by `", "`. */
  lemma FullHexGivesBytes(s: string)
    requires IsFullHex(s)
    ensures exists r: nat, g: nat, b: nat :: r < 256 && g < 256 && b < 256 && HexToRgb(s) == RgbText(r, g, b)
  {
    assert !IsShorthand(s);
    var d := Body(s);
    var r, g, b := Channel(d, 0), Channel(d, 2), Channel(d, 4);
    assert HexToRgb(s) == RgbText(r, g, b);
  }

  /** Two lower-case hex digits for a byte. */
  function HexByte(v: nat): string
    requires v < 256
  {
    [HexDigitChar(v / 16), HexDigitChar(v % 16)]
  }

  /** The `#rrggbb` spelling of a colour, as a colour picker reports it. */
  function HexOf(r: nat, g: nat, b: nat): string
    requires r < 256 && g < 256 && b < 256
  {
    "#" + HexByte(r) + HexByte(g) + HexByte(b)
  }

  /** Formatting bytes as hex and converting back gives those bytes. */
  lemma HexToRgbOfHexOf(r: nat, g: nat, b: nat)
    requires r < 256 && g < 256 && b < 256
    ensures HexToRgb(HexOf(r, g, b)) == RgbText(r, g, b)
  {
    var s := HexOf(r, g, b);
    var d := Body(s);
    assert d == HexByte(r) + HexByte(g) + HexByte(b);
    assert IsFullHex(s) && !IsShorthand(s);
    assert Channel(d, 0) == r && Channel(d, 2) == g && Channel(d, 4) == b;
  }

  /** A decimal followed by `", "` can be split off in one way only. */
  lemma LeadingDecimalAgrees(n: nat, t: string, n': nat, t': string)
    requires Decimal(n) + (", " + t) == Decimal(n') + (", " + t')
    ensures n == n' && t == t'
  {
    DigitRunsAgree(Decimal(n), ", " + t, Decimal(n'), ", " + t');
    DecimalInjective(n, n');
    assert t == (", " + t)[2..];
    assert t' == (", " + t')[2..];
  }

  /** The success text determines the three numbers it was made from. */
  lemma RgbTextInjective(r: nat, g: nat, b: nat, r': nat, g': nat, b': nat)
    requires RgbText(r, g, b) == RgbText(r', g', b')
    ensures r == r' && g == g' && b == b'
  {
    var t, t' := Decimal(g) + (", " + Decimal(b)), Decimal(g') + (", " + Decimal(b'));
    assert RgbText(r, g, b) == Decimal(r) + (", " + t);
    assert RgbText(r', g', b') == Decimal(r') + (", " + t');
    LeadingDecimalAgrees(r, t, r', t');
    LeadingDecimalAgrees(g, Decimal(b), g', Decimal(b'));
    DecimalInjective(b, b');
  }

  /** Two six-digit colours convert to the same text only when they name
      the same colour, whatever the case of their digits. */
  lemma HexToRgbSeparatesColours(s: string, t: string)
    requires IsFullHex(s) && IsFullHex(t)
    requires HexToRgb(s) == HexToRgb(t)
    ensures forall i :: 0 <= i < 3 ==> Channel(Body(s), 2 * i) == Channel(Body(t), 2 * i)
  {
    assert !IsShorthand(s) && !IsShorthand(t);
    var d, e := Body(s), Body(t);
    RgbTextInjective(Channel(d, 0), Channel(d, 2), Channel(d, 4), Channel(e, 0), Channel(e, 2), Channel(e, 4));
  }

  function LowerChar(c: char): char {
    if 'A' <= c <= 'Z' then (c as int - 'A' as int + 'a' as int) as char else c
  }

  /** ASCII lower-casing, which is all the `i` flag folds for these patterns. */
  function Lower(s: string): (r: string)
    ensures |r| == |s| && forall i :: 0 <= i < |s| ==> r[i] == LowerChar(s[i])
  {
    seq(|s|, i requires 0 <= i < |s| => LowerChar(s[i]))
  }

  lemma LowerKeepsDigits(c: char)
    ensures IsHexDigit(LowerChar(c)) <==> IsHexDigit(c)
    ensures IsHexDigit(c) ==> HexValue(LowerChar(c)) == HexValue(c)
  {
  }

  lemma LowerBody(s: string)
    ensures Body(Lower(s)) == Lower(Body(s))
    ensures AllHex(Body(Lower(s))) <==> AllHex(Body(s))
  {
    var b := Body(s);
    if |s| > 0 && s[0] == '#' {
      assert Lower(s)[1..] == Lower(b);
    }
    forall i | 0 <= i < |b| ensures IsHexDigit(Lower(b)[i]) <==> IsHexDigit(b[i]) {
      LowerKeepsDigits(b[i]);
    }
  }

  /** The pattern's `i` flag: letter case does not change the result. */
  lemma HexToRgbIgnoresCase(s: string)
    ensures HexToRgb(Lower(s)) == HexToRgb(s)
  {
    LowerBody(s);
    var b, lb := Body(s), Body(Lower(s));
    forall i | 0 <= i < |b| && IsHexDigit(b[i]) ensures HexValue(lb[i]) == HexValue(b[i]) {
      LowerKeepsDigits(b[i]);
    }
    if IsShorthand(s) {
      assert IsShorthand(Lower(s));
      var d, ld := Doubled(b), Doubled(lb);
      assert Channel(ld, 0) == Channel(d, 0);
      assert Channel(ld, 2) == Channel(d, 2);
      assert Channel(ld, 4) == Channel(d, 4);
    } else if IsFullHex(s) {
      assert IsFullHex(Lower(s));
      assert Channel(lb, 0) == Channel(b, 0);
      assert Channel(lb, 2) == Channel(b, 2);
      assert Channel(lb, 4) == Channel(b, 4);
    }
  }
}
