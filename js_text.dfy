/** The JavaScript string and number primitives the application's logic is
    built from: `toLowerCase`, `trim`, `split`, `join`, `includes`,
    `padStart`, `Number.prototype.toString` on integers and the global
    `parseInt` with no radix argument. */
module JsText {

  /** A number as `parseInt` can produce it: NaN, or an integer. */
  datatype JsNumber = NaN | Num(value: int)

  /** The code points ECMAScript counts as WhiteSpace or LineTerminator:
      what `trim` strips and what `parseInt` skips before the digits. */
  predicate IsJsSpace(c: char) {
    ('\t' <= c <= '\r') || c == ' ' || c == '\U{A0}' || c == '\U{1680}' || ('\U{2000}' <= c <= '\U{200A}')
    || ('\U{2028}' <= c <= '\U{2029}') || c == '\U{202F}' || c == '\U{205F}' || c == '\U{3000}' || c == '\U{FEFF}'
  }

  function LowerChar(c: char): char {
    if 'A' <= c <= 'Z' then (c as int + 32) as char else c
  }

  /** `toLowerCase`, on the ASCII letters. */
  function Lower(s: string): (r: string)
    ensures |r| == |s|
    ensures forall i :: 0 <= i < |s| ==> r[i] == LowerChar(s[i])
  {
    seq(|s|, i requires 0 <= i < |s| => LowerChar(s[i]))
  }

  /** Lower-casing twice is lower-casing once. */
  lemma LowerIdempotent(s: string)
    ensures Lower(Lower(s)) == Lower(s)
  {
    assert forall i :: 0 <= i < |s| ==> LowerChar(LowerChar(s[i])) == LowerChar(s[i]);
  }

  /** The first index at or after `i` whose character is not white space,
      or `|s|` when there is none. */
  function SkipSpaceForward(s: string, i: nat): (j: nat)
    requires i <= |s|
    ensures i <= j <= |s|
    ensures forall k :: i <= k < j ==> IsJsSpace(s[k])
    ensures j == |s| || !IsJsSpace(s[j])
    decreases |s| - i
  {
    if i < |s| && IsJsSpace(s[i]) then SkipSpaceForward(s, i + 1) else i
  }

  /** Walking back from `j` but not below `lo`: the index just past the
      last character that is not white space, or `lo` when there is none. */
  function SkipSpaceBackward(s: string, lo: nat, j: nat): (i: nat)
    requires lo <= j <= |s|
    ensures lo <= i <= j
    ensures forall k :: i <= k < j ==> IsJsSpace(s[k])
    ensures i == lo || !IsJsSpace(s[i - 1])
  {
    if j > lo && IsJsSpace(s[j - 1]) then SkipSpaceBackward(s, lo, j - 1) else j
  }

  /** A forward scan stops at the only place it can: past a run of white
      space, on a character that is not. */
  lemma SkipSpaceForwardUnique(s: string, i: nat, j: nat)
    requires i <= j <= |s|
    requires forall k :: i <= k < j ==> IsJsSpace(s[k])
    requires j == |s| || !IsJsSpace(s[j])
    ensures SkipSpaceForward(s, i) == j
  {
  }

  /** `trimStart`: the longest suffix that does not start with white space. */
  function TrimStart(s: string): (r: string)
  {
    s[SkipSpaceForward(s, 0)..]
  }

  /** `trim`: the run of `s` that starts where `trimStart` starts, with only
      white space before and after it and none at either of its ends;
      empty exactly when the string held nothing but white space. */
  function Trim(s: string): (r: string)
    ensures var a := |s| - |TrimStart(s)|;
            0 <= a <= a + |r| <= |s| && r == s[a..a + |r|] &&
            (forall k :: 0 <= k < a ==> IsJsSpace(s[k])) &&
            (forall k :: a + |r| <= k < |s| ==> IsJsSpace(s[k]))
    ensures r == [] || (!IsJsSpace(r[0]) && !IsJsSpace(r[|r| - 1]))
    ensures r == [] <==> forall k :: 0 <= k < |s| ==> IsJsSpace(s[k])
    ensures forall c :: c in r ==> c in s
  {
    var a := SkipSpaceForward(s, 0);
    var b := SkipSpaceBackward(s, a, |s|);
    assert |TrimStart(s)| == |s| - a;
    RunBetweenSpace(s, a, b);
    s[a..b]
  }

  /** The run `s[a..b]`, fenced by white space and not starting or ending
      with it, is empty only when `s` is all white space. */
  lemma RunBetweenSpace(s: string, a: nat, b: nat)
    requires a <= b <= |s|
    requires forall k :: 0 <= k < a ==> IsJsSpace(s[k])
    requires forall k :: b <= k < |s| ==> IsJsSpace(s[k])
    requires a == |s| || !IsJsSpace(s[a])
    requires b == a || !IsJsSpace(s[b - 1])
    ensures var r := s[a..b]; r == [] || (!IsJsSpace(r[0]) && !IsJsSpace(r[|r| - 1]))
    ensures s[a..b] == [] <==> forall k :: 0 <= k < |s| ==> IsJsSpace(s[k])
    ensures forall c :: c in s[a..b] ==> c in s
  {
  }

  /** `Array.prototype.join(sep)` over strings. */
  function Join(parts: seq<string>, sep: char): string
  {
    if |parts| == 0 then ""
    else if |parts| == 1 then parts[0]
    else parts[0] + [sep] + Join(parts[1..], sep)
  }

  /** `String.prototype.split(sep)` with a one-character separator: at
      least one piece, no piece holds the separator, and joining the
      pieces back gives the original string. */
  function Split(s: string, sep: char): (r: seq<string>)
    ensures |r| >= 1
    ensures forall k :: 0 <= k < |r| ==> sep !in r[k]
    ensures Join(r, sep) == s
  {
    if s == [] then [""]
    else
      var rest := Split(s[1..], sep);
      if s[0] == sep then
        assert [sep] + s[1..] == s;
        [""] + rest
      else
        var r := [[s[0]] + rest[0]] + rest[1..];
        assert r[1..] == rest[1..];
        assert |rest| > 1 ==> Join(rest, sep) == rest[0] + [sep] + Join(rest[1..], sep);
        assert [s[0]] + s[1..] == s;
        r
  }

  lemma {:induction false} SplitNoSeparator(a: string, sep: char)
    requires sep !in a
    ensures Split(a, sep) == [a]
  {
    if a != [] {
      SplitNoSeparator(a[1..], sep);
      assert [a[0]] + a[1..] == a;
    }
  }

  lemma {:induction false} SplitCons(a: string, s: string, sep: char)
    requires sep !in a
    ensures Split(a + [sep] + s, sep) == [a] + Split(s, sep)
  {
    if a == [] {
      assert (a + [sep] + s)[1..] == s;
    } else {
      assert (a + [sep] + s)[1..] == a[1..] + [sep] + s;
      SplitCons(a[1..], s, sep);
      assert [a[0]] + a[1..] == a;
    }
  }

  /** Splitting undoes joining, provided no piece contains the separator. */
  lemma {:induction false} SplitJoin(parts: seq<string>, sep: char)
    requires |parts| >= 1
    requires forall k :: 0 <= k < |parts| ==> sep !in parts[k]
    ensures Split(Join(parts, sep), sep) == parts
  {
    if |parts| == 1 {
      SplitNoSeparator(parts[0], sep);
    } else {
      SplitJoin(parts[1..], sep);
      SplitCons(parts[0], Join(parts[1..], sep), sep);
      assert [parts[0]] + parts[1..] == parts;
    }
  }

  /** `needle` occurs in `hay` starting at position `i`. */
  ghost predicate OccursAt(hay: string, needle: string, i: int) {
    0 <= i && i + |needle| <= |hay| && hay[i..i + |needle|] == needle
  }

  /** `String.prototype.includes`: true exactly when `needle` occurs somewhere in `hay`. */
  function Includes(hay: string, needle: string): (r: bool)
    ensures r <==> exists i :: OccursAt(hay, needle, i)
    decreases |hay|
  {
    if |needle| > |hay| then false
    else if hay[..|needle|] == needle then
      assert OccursAt(hay, needle, 0);
      true
    else
      OccursShift(hay, needle);
      Includes(hay[1..], needle)
  }

  lemma OccursShift(hay: string, needle: string)
    requires |hay| > 0
    requires !OccursAt(hay, needle, 0)
    ensures (exists i :: OccursAt(hay, needle, i)) <==> (exists i :: OccursAt(hay[1..], needle, i))
  {
    forall i | OccursAt(hay, needle, i) ensures OccursAt(hay[1..], needle, i - 1) {
      assert hay[1..][i - 1..i - 1 + |needle|] == hay[i..i + |needle|];
    }
    forall i | OccursAt(hay[1..], needle, i) ensures OccursAt(hay, needle, i + 1) {
      assert hay[1..][i..i + |needle|] == hay[i + 1..i + 1 + |needle|];
    }
  }

  /** The empty string occurs in every string, so an empty search term keeps everything. */
  lemma IncludesEmpty(hay: string)
    ensures Includes(hay, "")
  {
    assert OccursAt(hay, "", 0);
  }

  predicate IsDecDigit(c: char) { '0' <= c <= '9' }

  /** The value of a digit character in bases up to 36; 36 for anything else. */
  function DigitVal(c: char): (v: int)
    ensures 0 <= v <= 36
    ensures v < 10 <==> IsDecDigit(c)
  {
    if '0' <= c <= '9' then c as int - '0' as int
    else if 'a' <= c <= 'z' then c as int - 'a' as int + 10
    else if 'A' <= c <= 'Z' then c as int - 'A' as int + 10
    else 36
  }

  function DigitChar(d: int): (c: char)
    requires 0 <= d < 10
    ensures IsDecDigit(c) && DigitVal(c) == d
  {
    ('0' as int + d) as char
  }

  /** The value of a string of digits, read most significant first. */
  function DigitsValue(z: string, radix: nat): nat
  {
    if z == [] then 0
    else DigitsValue(z[..|z| - 1], radix) * radix + DigitVal(z[|z| - 1])
  }

  /** The longest prefix of `s` made of digits of the given radix. */
  function DigitPrefix(s: string, radix: nat): (z: string)
    ensures |z| <= |s| && z == s[..|z|]
    ensures forall k :: 0 <= k < |z| ==> DigitVal(z[k]) < radix
    ensures |z| == |s| || DigitVal(s[|z|]) >= radix
  {
    if |s| > 0 && DigitVal(s[0]) < radix then [s[0]] + DigitPrefix(s[1..], radix) else []
  }

  /** The global `parseInt(s)` with no radix: skip leading white space, take
      an optional sign, switch to base 16 after a `0x`/`0X` prefix, read the
      longest run of digits, and give NaN when there is none. */
  function JsParseInt(s: string): (r: JsNumber)
    ensures (forall k :: 0 <= k < |s| ==> IsJsSpace(s[k])) ==> r == NaN
    ensures r.Num? ==> exists k :: 0 <= k < |s| && IsDecDigit(s[k])
  {
    var t := TrimStart(s);
    assert ParseSigned(t).Num? ==> exists k :: 0 <= k < |s| && IsDecDigit(s[k]) by {
      if ParseSigned(t).Num? {
        var u := if |t| > 0 && (t[0] == '-' || t[0] == '+') then t[1..] else t;
        var j := |s| - |u|;
        assert u[0] == s[j];
      }
    }
    ParseSigned(t)
  }

  /** `parseInt` gives NaN exactly when no digit of the radix in use follows
      the leading white space, the optional sign and, in base 16, the
      `0x` prefix. */
  lemma ParseIntNaNExactly(s: string)
    ensures var t := TrimStart(s);
            var u := if |t| > 0 && (t[0] == '-' || t[0] == '+') then t[1..] else t;
            var hex := |u| >= 2 && u[0] == '0' && (u[1] == 'x' || u[1] == 'X');
            var v := if hex then u[2..] else u;
            JsParseInt(s).NaN? <==> v == [] || DigitVal(v[0]) >= (if hex then 16 else 10)
  {
  }

  function ParseSigned(t: string): JsNumber
  {
    var signed := |t| > 0 && (t[0] == '-' || t[0] == '+');
    var magnitude := ParseUnsigned(if signed then t[1..] else t);
    if |t| > 0 && t[0] == '-' then Negate(magnitude) else magnitude
  }

  function Negate(x: JsNumber): JsNumber
  {
    match x
    case NaN => NaN
    case Num(v) => Num(-v)
  }

  function ParseUnsigned(u: string): JsNumber
  {
    var hex := |u| >= 2 && u[0] == '0' && (u[1] == 'x' || u[1] == 'X');
    var radix := if hex then 16 else 10;
    var z := DigitPrefix(if hex then u[2..] else u, radix);
    if z == [] then NaN else Num(DigitsValue(z, radix))
  }

  /** Decimal digits of a natural number, without leading zeros. */
  function NatToString(n: nat): (r: string)
    ensures |r| >= 1
    ensures forall k :: 0 <= k < |r| ==> IsDecDigit(r[k])
    ensures r[0] == '0' ==> r == "0"
    ensures DigitsValue(r, 10) == n
  {
    if n < 10 then [DigitChar(n)]
    else
      var front := NatToString(n / 10);
      var r := front + [DigitChar(n % 10)];
      assert r[..|r| - 1] == front;
      r
  }

  /** `String(n)` for an integer `n`. */
  function IntToString(n: int): string
  {
    if n < 0 then "-" + NatToString(-n) else NatToString(n)
  }

  /** `padStart(2, '0')`. */
  function PadStart2(s: string): string
  {
    if |s| >= 2 then s else seq(2 - |s|, _ => '0') + s
  }

  lemma {:induction false} DigitPrefixOfDigits(d: string, rest: string, radix: nat)
    requires forall k :: 0 <= k < |d| ==> DigitVal(d[k]) < radix
    requires rest == [] || DigitVal(rest[0]) >= radix
    ensures DigitPrefix(d + rest, radix) == d
  {
    if d == [] {
      assert d + rest == rest;
    } else {
      assert (d + rest)[1..] == d[1..] + rest;
      DigitPrefixOfDigits(d[1..], rest, radix);
      assert [d[0]] + d[1..] == d;
    }
  }

  /** `parseInt` reads back what `String(n)` wrote, whatever non-digit text
      follows it (a carriage return, a comma, a unit). */
  lemma {:induction false} ParseIntOfIntToString(n: int, rest: string)
    requires rest == [] || !(IsDecDigit(rest[0]) || rest[0] == 'x' || rest[0] == 'X')
    ensures JsParseInt(IntToString(n) + rest) == Num(n)
  {
    if n < 0 {
      ParseIntOfNegative(n, rest);
    } else {
      ParseIntOfNonNegative(n, rest);
    }
  }

  /** Different integers are written differently. */
  lemma IntToStringInjective(x: int, y: int)
    requires IntToString(x) == IntToString(y)
    ensures x == y
  {
    ParseIntOfIntToString(x, []);
    ParseIntOfIntToString(y, []);
    assert IntToString(x) + [] == IntToString(x);
    assert IntToString(y) + [] == IntToString(y);
  }

  lemma {:induction false} ParseIntOfNegative(n: int, rest: string)
    requires n < 0
    requires rest == [] || !(IsDecDigit(rest[0]) || rest[0] == 'x' || rest[0] == 'X')
    ensures JsParseInt(IntToString(n) + rest) == Num(n)
  {
    var d := NatToString(-n);
    var s := ['-'] + (d + rest);
    assert IntToString(n) + rest == s;
    assert TrimStart(s) == s;
    assert s[1..] == d + rest;
    ParseUnsignedOfDigits(d, rest);
  }

  lemma {:induction false} ParseIntOfNonNegative(n: nat, rest: string)
    requires rest == [] || !(IsDecDigit(rest[0]) || rest[0] == 'x' || rest[0] == 'X')
    ensures JsParseInt(IntToString(n) + rest) == Num(n)
  {
    ParseIntOfDigits(NatToString(n), rest);
  }

  lemma {:induction false} ParseIntOfDigits(d: string, rest: string)
    requires |d| >= 1 && forall k :: 0 <= k < |d| ==> IsDecDigit(d[k])
    requires d[0] == '0' ==> d == "0"
    requires rest == [] || !(IsDecDigit(rest[0]) || rest[0] == 'x' || rest[0] == 'X')
    ensures JsParseInt(d + rest) == Num(DigitsValue(d, 10))
  {
    assert (d + rest)[0] == d[0];
    ParseIntStartingWithDigit(d + rest);
    ParseUnsignedOfDigits(d, rest);
  }

  lemma {:induction false} ParseIntStartingWithDigit(t: string)
    requires |t| > 0 && IsDecDigit(t[0])
    ensures JsParseInt(t) == ParseUnsigned(t)
  {
    SkipSpaceForwardUnique(t, 0, 0);
    assert TrimStart(t) == t;
  }

  lemma {:induction false} ParseUnsignedOfDigits(d: string, rest: string)
    requires |d| >= 1 && forall k :: 0 <= k < |d| ==> IsDecDigit(d[k])
    requires d[0] == '0' ==> d == "0"
    requires rest == [] || !(IsDecDigit(rest[0]) || rest[0] == 'x' || rest[0] == 'X')
    ensures ParseUnsigned(d + rest) == Num(DigitsValue(d, 10))
  {
    var u := d + rest;
    assert u[0] == d[0];
    assert |u| >= 2 && u[0] == '0' ==> u[1] == rest[0];
    assert rest != [] ==> DigitVal(rest[0]) >= 10;
    DigitPrefixOfDigits(d, rest, 10);
  }

  /** White space in front of a number does not change what `parseInt` reads. */
  lemma {:induction false} ParseIntSkipsLeadingSpace(ws: string, s: string)
    requires forall k :: 0 <= k < |ws| ==> IsJsSpace(ws[k])
    ensures JsParseInt(ws + s) == JsParseInt(s)
  {
    TrimStartSkips(ws, s);
  }

  lemma TrimStartSkips(ws: string, s: string)
    requires forall k :: 0 <= k < |ws| ==> IsJsSpace(ws[k])
    ensures TrimStart(ws + s) == TrimStart(s)
  {
    var u, n := ws + s, SkipSpaceForward(s, 0);
    forall k | 0 <= k < |ws| + n ensures IsJsSpace(u[k]) {
      if k >= |ws| {
        assert u[k] == s[k - |ws|];
      }
    }
    assert |ws| + n < |u| ==> u[|ws| + n] == s[n];
    SkipSpaceForwardUnique(u, 0, |ws| + n);
    assert u[|ws| + n..] == s[n..];
  }
}
