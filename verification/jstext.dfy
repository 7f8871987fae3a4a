/** The JavaScript string primitives the controllers call (`trim`, `split`, `join`, `slice`,
    `toLowerCase`, `parseInt`), over strings taken as sequences of Unicode scalar values. */
module JsText {
  import opened Options

  /** The characters `String.prototype.trim` strips and the pattern class `\s` matches:
      the WhiteSpace and LineTerminator characters of ECMAScript. */
  predicate IsWhitespace(c: char) {
    InRanges(c, 10)
  }

  /** The bounds of the `k`-th white-space range: tab to carriage return, space, no-break
      space, ogham space mark, the en quad to hair space block, line and paragraph separators,
      narrow no-break space, medium mathematical space, ideographic space, byte order mark. */
  function WhitespaceRange(k: nat): (char, char) {
    match k
    case 0 => ('\t', '\r')
    case 1 => (' ', ' ')
    case 2 => ('\U{00A0}', '\U{00A0}')
    case 3 => ('\U{1680}', '\U{1680}')
    case 4 => ('\U{2000}', '\U{200A}')
    case 5 => ('\U{2028}', '\U{2029}')
    case 6 => ('\U{202F}', '\U{202F}')
    case 7 => ('\U{205F}', '\U{205F}')
    case 8 => ('\U{3000}', '\U{3000}')
    case _ => ('\U{FEFF}', '\U{FEFF}')
  }

  /** `c` lies in one of the first `k` white-space ranges. */
  predicate InRanges(c: char, k: nat) {
    k > 0 && (WhitespaceRange(k - 1).0 <= c <= WhitespaceRange(k - 1).1 || InRanges(c, k - 1))
  }

  /** A character in none of the first `k` ranges is not in their union. */
  lemma {:induction false} OutsideRanges(c: char, k: nat)
    requires forall j :: 0 <= j < k ==> !(WhitespaceRange(j).0 <= c <= WhitespaceRange(j).1)
    ensures !InRanges(c, k)
  {
    if k > 0 {
      OutsideRanges(c, k - 1);
    }
  }

  /** No ASCII letter, digit or visible ASCII symbol is white space. */
  lemma {:induction false} VisibleAsciiNotWhitespace(c: char)
    requires '!' <= c <= '~'
    ensures !IsWhitespace(c)
  {
    OutsideRanges(c, 10);
  }

  predicate IsAsciiUpper(c: char) { 'A' <= c <= 'Z' }
  predicate IsAsciiLower(c: char) { 'a' <= c <= 'z' }
  predicate IsAsciiDigit(c: char) { '0' <= c <= '9' }

  /** Every character of `s` is white space (vacuously true of the empty string). */
  predicate AllWhitespace(s: string) {
    forall i :: 0 <= i < |s| ==> IsWhitespace(s[i])
  }

  /** `s` with its leading white space removed. */
  function TrimStart(s: string): (r: string)
    ensures |r| <= |s| && r == s[|s| - |r|..]
    ensures r == [] || !IsWhitespace(r[0])
  {
    if s != [] && IsWhitespace(s[0]) then TrimStart(s[1..]) else s
  }

  /** `s` with its trailing white space removed. */
  function TrimEnd(s: string): (r: string)
    ensures |r| <= |s| && r == s[..|r|]
    ensures r == [] || !IsWhitespace(r[|r| - 1])
  {
    if s != [] && IsWhitespace(s[|s| - 1]) then TrimEnd(s[..|s| - 1]) else s
  }

  /** `String.prototype.trim`: the longest slice of `s` that neither starts nor ends with white
      space; TrimDropsOnlyWhitespace shows that only white space is cut off. */
  function Trim(s: string): (r: string)
    ensures |r| <= |s|
    ensures r == [] <==> AllWhitespace(s)
    ensures r != [] ==> !IsWhitespace(r[0]) && !IsWhitespace(r[|r| - 1])
  {
    TrimBlank(s);
    TrimEnd(TrimStart(s))
  }

  /** The trim of `s` is `s` without its leading and trailing white space: a slice of `s`
      with nothing but white space on either side of it. */
  lemma {:induction false} TrimDropsOnlyWhitespace(s: string)
    ensures exists i, j :: 0 <= i <= j <= |s| && Trim(s) == s[i..j] && AllWhitespace(s[..i]) && AllWhitespace(s[j..])
  {
    var t := TrimStart(s);
    var r := TrimEnd(t);
    var i := |s| - |t|;
    TrimStartDrops(s);
    TrimEndDrops(t);
    assert r == s[i..i + |r|];
    assert s[i + |r|..] == t[|r|..];
  }

  /** Leading trimming drops white space only. */
  lemma {:induction false} TrimStartDrops(s: string)
    ensures AllWhitespace(s[..|s| - |TrimStart(s)|])
  {
    if s != [] && IsWhitespace(s[0]) {
      TrimStartDrops(s[1..]);
      var k := |s| - |TrimStart(s)|;
      assert forall i :: 1 <= i < k ==> s[i] == s[1..][..k - 1][i - 1];
    }
  }

  /** Trailing trimming drops white space only. */
  lemma {:induction false} TrimEndDrops(s: string)
    ensures AllWhitespace(s[|TrimEnd(s)|..])
  {
    if s != [] && IsWhitespace(s[|s| - 1]) {
      TrimEndDrops(s[..|s| - 1]);
      var k := |TrimEnd(s)|;
      assert forall i :: k <= i < |s| - 1 ==> s[i] == s[..|s| - 1][k..][i - k];
    }
  }

  lemma {:induction false} TrimBlank(s: string)
    ensures TrimEnd(TrimStart(s)) == [] <==> AllWhitespace(s)
  {
    if AllWhitespace(s) {
      TrimStartOfBlank(s);
    } else {
      var i :| 0 <= i < |s| && !IsWhitespace(s[i]);
      TrimKeeps(s, i);
    }
  }

  /** A character that is not white space survives trimming. */
  lemma {:induction false} TrimKeeps(s: string, i: nat)
    requires i < |s| && !IsWhitespace(s[i])
    ensures TrimEnd(TrimStart(s)) != []
  {
    var t := TrimStart(s);
    TrimStartKeeps(s, i);
    var k := i - (|s| - |t|);
    assert t[k] == s[i];
    TrimEndKeeps(t, k);
  }

  /** Leading trimming stops at the first character that is not white space. */
  lemma {:induction false} TrimStartKeeps(s: string, i: nat)
    requires i < |s| && !IsWhitespace(s[i])
    ensures |TrimStart(s)| >= |s| - i
  {
    if IsWhitespace(s[0]) {
      assert s[1..][i - 1] == s[i];
      TrimStartKeeps(s[1..], i - 1);
    }
  }

  /** Trailing trimming stops at the last character that is not white space. */
  lemma {:induction false} TrimEndKeeps(s: string, i: nat)
    requires i < |s| && !IsWhitespace(s[i])
    ensures |TrimEnd(s)| > i
  {
    if IsWhitespace(s[|s| - 1]) {
      assert s[..|s| - 1][i] == s[i];
      TrimEndKeeps(s[..|s| - 1], i);
    }
  }

  lemma {:induction false} TrimStartOfBlank(s: string)
    requires AllWhitespace(s)
    ensures TrimStart(s) == []
  {
    if s != [] {
      assert IsWhitespace(s[0]);
      TrimStartOfBlank(s[1..]);
    }
  }

  /** A string that neither starts nor ends with white space is its own trim. */
  lemma {:induction false} TrimOfTrimmed(s: string)
    requires s != [] ==> !IsWhitespace(s[0]) && !IsWhitespace(s[|s| - 1])
    ensures Trim(s) == s
  {
  }

  /** Trimming an already trimmed string changes nothing. */
  lemma {:induction false} TrimIdempotent(s: string)
    ensures Trim(Trim(s)) == Trim(s)
  {
    TrimOfTrimmed(Trim(s));
  }

  /** Index of the first `c` in `s`, or -1 (`String.prototype.indexOf`). */
  function IndexOf(s: string, c: char): (k: int)
    ensures -1 <= k < |s|
    ensures k == -1 <==> c !in s
    ensures k >= 0 ==> s[k] == c && c !in s[..k]
  {
    if s == [] then -1
    else if s[0] == c then 0
    else
      var k := IndexOf(s[1..], c);
      if k == -1 then -1 else (assert s[..k + 1] == [s[0]] + s[1..][..k]; k + 1)
  }

  /** Index of the last `c` in `s`, or -1 (`String.prototype.lastIndexOf`). */
  function LastIndexOf(s: string, c: char): (k: int)
    ensures -1 <= k < |s|
    ensures k == -1 <==> c !in s
    ensures k >= 0 ==> s[k] == c && c !in s[k + 1..]
  {
    if s == [] then -1
    else if s[|s| - 1] == c then |s| - 1
    else
      var k := LastIndexOf(s[..|s| - 1], c);
      assert s == s[..|s| - 1] + [s[|s| - 1]];
      if k >= 0 then assert s[k + 1..] == s[..|s| - 1][k + 1..] + [s[|s| - 1]]; k else k
  }

  /** The pieces joined by `sep`, with nothing before the first piece or after the last
      (`Array.prototype.join`; the empty list joins to the empty string). */
  function Join(parts: seq<string>, sep: string): (r: string)
    ensures parts != [] ==> |r| == TotalLength(parts) + (|parts| - 1) * |sep|
    ensures parts == [] ==> r == []
  {
    if parts == [] then []
    else if |parts| == 1 then parts[0]
    else parts[0] + sep + Join(parts[1..], sep)
  }

  /** Joining one more piece appends the separator and the piece. */
  lemma {:induction false} JoinSnoc(parts: seq<string>, p: string, sep: string)
    requires parts != []
    ensures Join(parts + [p], sep) == Join(parts, sep) + sep + p
    decreases |parts|
  {
    var all := parts + [p];
    assert all[0] == parts[0];
    assert all[1..] == parts[1..] + [p];
    if |parts| == 1 {
      assert all[1..] == [p];
    } else {
      JoinSnoc(parts[1..], p, sep);
    }
  }

  /** Sum of the lengths of the pieces. */
  function TotalLength(parts: seq<string>): nat {
    if parts == [] then 0 else |parts[0]| + TotalLength(parts[1..])
  }

  /** `String.prototype.split` on a single-character separator: the pieces between the
      occurrences of `sep`, so an input with n separators gives n + 1 pieces. */
  function Split(s: string, sep: char): (r: seq<string>)
    ensures |r| >= 1
    ensures forall i :: 0 <= i < |r| ==> sep !in r[i]
    ensures Join(r, [sep]) == s
    decreases |s|
  {
    var k := IndexOf(s, sep);
    if k < 0 then [s]
    else
      var rest := Split(s[k + 1..], sep);
      assert s == s[..k] + [sep] + s[k + 1..];
      [s[..k]] + rest
  }

  /** Joining pieces that do not contain the separator and splitting again gives back the pieces. */
  lemma {:induction false} SplitJoin(parts: seq<string>, sep: char)
    requires parts != []
    requires forall i :: 0 <= i < |parts| ==> sep !in parts[i]
    ensures Split(Join(parts, [sep]), sep) == parts
    decreases |parts|
  {
    var s := Join(parts, [sep]);
    if |parts| == 1 {
      assert IndexOf(s, sep) == -1;
    } else {
      var tail := Join(parts[1..], [sep]);
      assert s == parts[0] + [sep] + tail;
      assert s[|parts[0]|] == sep;
      assert s[..|parts[0]|] == parts[0];
      var k := IndexOf(s, sep);
      assert k == |parts[0]| by {
        assert sep !in s[..|parts[0]|];
      }
      assert s[k + 1..] == tail;
      SplitJoin(parts[1..], sep);
    }
  }

  /** ASCII upper case mapped to lower case; every other character is kept. */
  function LowerAscii(c: char): (r: char)
    ensures IsAsciiUpper(c) ==> r as int == c as int + 32
    ensures !IsAsciiUpper(c) ==> r == c
  {
    if IsAsciiUpper(c) then (c as int + 32) as char else c
  }

  /** `toLowerCase` restricted to ASCII letters. */
  function ToLowerAscii(s: string): (r: string)
    ensures |r| == |s|
    ensures forall i :: 0 <= i < |s| ==> r[i] == LowerAscii(s[i])
  {
    if s == [] then [] else [LowerAscii(s[0])] + ToLowerAscii(s[1..])
  }

  /** `a` and `b` are equal once their ASCII letters are lower-cased. */
  predicate SameUpToCase(a: string, b: string) {
    if a == [] || b == [] then a == b
    else LowerAscii(a[0]) == LowerAscii(b[0]) && SameUpToCase(a[1..], b[1..])
  }

  lemma {:induction false} SameUpToCaseIff(a: string, b: string)
    ensures SameUpToCase(a, b) <==> ToLowerAscii(a) == ToLowerAscii(b)
  {
    if a != [] && b != [] {
      SameUpToCaseIff(a[1..], b[1..]);
      var la, lb := ToLowerAscii(a), ToLowerAscii(b);
      assert la == [LowerAscii(a[0])] + ToLowerAscii(a[1..]);
      assert lb == [LowerAscii(b[0])] + ToLowerAscii(b[1..]);
      if la == lb {
        assert la[1..] == ToLowerAscii(a[1..]) && lb[1..] == ToLowerAscii(b[1..]);
      }
    }
  }

  /** `s.slice(0, end)`: a non-negative `end` keeps the first `end` characters (all of them if
      `end` is past the end); a negative `end` counts from the end of `s`, dropping `-end`
      trailing characters, and keeps nothing when that would drop more than all of them. */
  function SlicePrefix(s: string, end: int): (r: string)
    ensures |r| <= |s| && r == s[..|r|]
    ensures end >= 0 ==> |r| == if end < |s| then end else |s|
    ensures end < 0 ==> |r| == if |s| + end > 0 then |s| + end else 0
  {
    var k := if end < 0 then (if |s| + end > 0 then |s| + end else 0) else (if end < |s| then end else |s|);
    s[..k]
  }

  /** The value of a character as a digit in bases up to 36 (`0`-`9`, then `a`-`z` in either case), or 36. */
  function DigitValue(c: char): (v: nat)
    ensures v <= 36
    ensures IsAsciiDigit(c) <==> v < 10
  {
    if IsAsciiDigit(c) then c as int - '0' as int
    else if 'a' <= c <= 'z' then c as int - 'a' as int + 10
    else if 'A' <= c <= 'Z' then c as int - 'A' as int + 10
    else 36
  }

  /** The longest prefix of `s` made of digits of the given base. */
  function DigitPrefix(s: string, radix: nat): (r: string)
    ensures |r| <= |s| && r == s[..|r|]
    ensures forall i :: 0 <= i < |r| ==> DigitValue(r[i]) < radix
    ensures |r| < |s| ==> DigitValue(s[|r|]) >= radix
  {
    if s != [] && DigitValue(s[0]) < radix then
      var rest := DigitPrefix(s[1..], radix);
      assert [s[0]] + rest == s[..|rest| + 1];
      [s[0]] + rest
    else []
  }

  /** The number the digits denote in the given base, most significant first. */
  function DigitsValue(d: string, radix: nat): nat
    requires forall i :: 0 <= i < |d| ==> DigitValue(d[i]) < radix
  {
    if d == [] then 0
    else
      var init := d[..|d| - 1];
      assert forall i :: 0 <= i < |init| ==> init[i] == d[i];
      var high: nat := DigitsValue(init, radix);
      var shifted: nat := high * radix;
      shifted + DigitValue(d[|d| - 1])
  }

  /** The global `parseInt` with no radix argument: leading white space is skipped, one sign is
      read, and the rest is read by `ParseUnsigned`. `None` stands for `NaN`. */
  function ParseInt(s: string): (r: Option<int>)
    ensures (forall i :: 0 <= i < |s| ==> !IsAsciiDigit(s[i])) ==> r.None?
  {
    var t := TrimStart(s);
    var signed := t != [] && (t[0] == '-' || t[0] == '+');
    var magnitude := ParseUnsigned(if signed then t[1..] else t);
    assert forall i :: 0 <= i < |t| ==> t[i] == s[|s| - |t| + i];
    match magnitude
    case None => None
    case Some(v) => Some(if signed && t[0] == '-' then 0 - v else v)
  }

  /** The digits after the sign: a `0x`/`0X` prefix switches to base 16, and the longest run of
      digits of the base is converted; `None` when that run is empty. */
  function ParseUnsigned(u: string): (r: Option<nat>)
    ensures (forall i :: 0 <= i < |u| ==> !IsAsciiDigit(u[i])) ==> r.None?
  {
    var hex := |u| >= 2 && u[0] == '0' && (u[1] == 'x' || u[1] == 'X');
    var radix := if hex then 16 else 10;
    var digits := DigitPrefix(if hex then u[2..] else u, radix);
    if digits == [] then None else Some(DigitsValue(digits, radix))
  }

  /** The decimal numeral of a natural number, as `Number.prototype.toString` writes it. */
  function DecimalString(n: nat): (r: string)
    ensures |r| >= 1
    ensures forall i :: 0 <= i < |r| ==> IsAsciiDigit(r[i])
    ensures r[0] == '0' ==> n == 0 && |r| == 1
  {
    if n < 10 then [('0' as int + n) as char]
    else DecimalString(n / 10) + [('0' as int + n % 10) as char]
  }

  /** Reading the decimal numeral of `n` gives back `n`. */
  lemma {:induction false} DecimalDigitsValue(n: nat)
    ensures DigitsValue(DecimalString(n), 10) == n
  {
    if n >= 10 {
      var d := DecimalString(n);
      assert d[..|d| - 1] == DecimalString(n / 10);
      DecimalDigitsValue(n / 10);
    }
  }

  /** `parseInt` of the numeral of a natural number is that number: every id the API prints
      is read back unchanged. */
  lemma {:induction false} ParseIntDecimal(n: nat)
    ensures ParseInt(DecimalString(n)) == Some(n)
  {
    var d := DecimalString(n);
    VisibleAsciiNotWhitespace(d[0]);
    assert TrimStart(d) == d;
    DigitPrefixOfDigits(d, 10);
    DecimalDigitsValue(n);
    assert ParseUnsigned(d) == Some(n);
  }

  /** A string made only of digits of the base is its own longest digit prefix. */
  lemma {:induction false} DigitPrefixOfDigits(d: string, radix: nat)
    requires forall i :: 0 <= i < |d| ==> DigitValue(d[i]) < radix
    ensures DigitPrefix(d, radix) == d
  {
    if d != [] {
      DigitPrefixOfDigits(d[1..], radix);
      assert d == [d[0]] + d[1..];
    }
  }
}
