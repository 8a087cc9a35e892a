/**
 * The string operations of Python the engines rely on, on ASCII text:
 * lower-casing, stripping, splitting and reading decimal numbers.
 */
module Text {
  import opened Wrappers

  /** `str.lower` on ASCII letters. */
  function LowerChar(c: char): char { if 'A' <= c <= 'Z' then (c as int + 32) as char else c }

  function Lower(s: string): (r: string)
    ensures |r| == |s|
  {
    seq(|s|, i requires 0 <= i < |s| => LowerChar(s[i]))
  }

  lemma LowerIdempotent(s: string)
    ensures Lower(Lower(s)) == Lower(s)
  {
  }

  /** The ASCII characters `str.strip` removes. */
  predicate IsSpace(c: char) {
    c == ' ' || 9 <= c as int <= 13 || 28 <= c as int <= 31
  }

  function TrimLeft(s: string): (r: string)
    ensures |r| <= |s|
    ensures r == [] || !IsSpace(r[0])
  {
    if s != [] && IsSpace(s[0]) then TrimLeft(s[1..]) else s
  }

  function TrimRight(s: string): (r: string)
    ensures |r| <= |s|
    ensures r == [] || !IsSpace(r[|r| - 1])
  {
    if s != [] && IsSpace(s[|s| - 1]) then TrimRight(s[..|s| - 1]) else s
  }

  /** What `TrimLeft` keeps is a suffix. */
  lemma {:induction false} TrimLeftSuffix(s: string)
    ensures TrimLeft(s) == s[|s| - |TrimLeft(s)|..]
  {
    if s != [] && IsSpace(s[0]) {
      TrimLeftSuffix(s[1..]);
    }
  }

  /** What `TrimRight` keeps is a prefix. */
  lemma {:induction false} TrimRightPrefix(s: string)
    ensures TrimRight(s) == s[..|TrimRight(s)|]
  {
    if s != [] && IsSpace(s[|s| - 1]) {
      TrimRightPrefix(s[..|s| - 1]);
    }
  }

  /** `str.strip()`. */
  function Strip(s: string): (r: string)
    ensures |r| <= |s|
    ensures r == [] || (!IsSpace(r[0]) && !IsSpace(r[|r| - 1]))
  {
    var t := TrimLeft(s);
    var u := TrimRight(t);
    TrimRightPrefix(t);
    assert u == [] || u[0] == t[0];
    u
  }

  function HexDigit(c: char): Option<int> {
    if '0' <= c <= '9' then Some(c as int - '0' as int)
    else if 'a' <= c <= 'f' then Some(c as int - 'a' as int + 10)
    else if 'A' <= c <= 'F' then Some(c as int - 'A' as int + 10)
    else None
  }

  function Digit(c: char): Option<int> {
    if '0' <= c <= '9' then Some(c as int - '0' as int) else None
  }

  predicate StartsWith(s: string, p: string) { |p| <= |s| && s[..|p|] == p }

  predicate AllDigits(s: string) { forall i :: 0 <= i < |s| ==> '0' <= s[i] <= '9' }

  /** The value of a string of decimal digits. */
  function DigitsValue(s: string): nat
    requires AllDigits(s)
  {
    if s == [] then 0 else 10 * DigitsValue(s[..|s| - 1]) + (s[|s| - 1] as int - '0' as int)
  }

  /** The position of the first occurrence of `c` in `s`, or |s|. */
  function IndexOf(s: string, c: char): (i: nat)
    ensures i <= |s| && (i < |s| ==> s[i] == c) && forall j :: 0 <= j < i ==> s[j] != c
  {
    if s == [] then 0 else if s[0] == c then 0 else 1 + IndexOf(s[1..], c)
  }

  /** `str.rfind(c)`: the last position of `c`, or -1. */
  function LastIndex(s: string, c: char): (r: int)
    ensures -1 <= r < |s|
    ensures r >= 0 ==> s[r] == c
    ensures forall j :: r < j < |s| ==> s[j] != c
  {
    if s == [] then -1
    else if s[|s| - 1] == c then |s| - 1
    else LastIndex(s[..|s| - 1], c)
  }

  /** The value of the fraction digits `s` in `0.s`. */
  function FracValue(s: string): (r: real)
    requires AllDigits(s)
    ensures 0.0 <= r <= 1.0
  {
    if s == [] then 0.0 else ((s[0] as int - '0' as int) as real + FracValue(s[1..])) / 10.0
  }

  /** `x * 10^n`. */
  function ScaleUp(x: real, n: nat): real {
    if n == 0 then x else 10.0 * ScaleUp(x, n - 1)
  }

  /** `x / 10^n`. */
  function ScaleDown(x: real, n: nat): real {
    if n == 0 then x else ScaleDown(x, n - 1) / 10.0
  }

  /** `digits[.digits]` or `.digits`, with at least one digit. */
  function ParseUnsignedDecimal(s: string): Option<real> {
    var dot := IndexOf(s, '.');
    var ip, fp := s[..dot], if dot < |s| then s[dot + 1..] else [];
    if (ip == [] && fp == []) || !AllDigits(ip) || !AllDigits(fp) then None
    else Some(DigitsValue(ip) as real + FracValue(fp))
  }

  function Sign(s: string): (int, string) {
    if s != [] && s[0] == '-' then (-1, s[1..]) else if s != [] && s[0] == '+' then (1, s[1..]) else (1, s)
  }

  /** The mantissa-and-exponent forms of `float()`: `[sign] decimal [(e|E) [sign] digits]`. */
  function ParseFloat(s: string): Option<real> {
    var (sign, rest) := Sign(s);
    var e := MinNat(IndexOf(rest, 'e'), IndexOf(rest, 'E'));
    var mant := ParseUnsignedDecimal(rest[..e]);
    if mant.None? then None
    else if e == |rest| then Some(if sign < 0 then -mant.value else mant.value)
    else
      var (esign, edigits) := Sign(rest[e + 1..]);
      if edigits == [] || !AllDigits(edigits) then None
      else
        var n := DigitsValue(edigits);
        var m := if esign > 0 then ScaleUp(mant.value, n) else ScaleDown(mant.value, n);
        Some(if sign < 0 then -m else m)
  }

  /** Without an exponent, `float` succeeds when the unsigned part is a decimal. */
  lemma ParseFloatMantissa(s: string)
    requires var rest := Sign(s).1;
             IndexOf(rest, 'e') == |rest| && IndexOf(rest, 'E') == |rest| && ParseUnsignedDecimal(rest).Some?
    ensures ParseFloat(s).Some?
  {
    var rest := Sign(s).1;
    assert rest[..|rest|] == rest;
  }

  function MinNat(a: nat, b: nat): nat { if a <= b then a else b }

  /** `str.split(sep)`: the pieces between separators; always at least one. */
  function Split(s: string, sep: char): (r: seq<string>)
    ensures |r| >= 1
    ensures forall i :: 0 <= i < |r| ==> sep !in r[i]
    decreases |s|
  {
    var i := IndexOf(s, sep);
    if i == |s| then [s] else [s[..i]] + Split(s[i + 1..], sep)
  }

  /** The first piece of a split ends at the first separator. */
  lemma SplitFirst(a: string, b: string, sep: char)
    requires sep !in a
    ensures Split(a + [sep] + b, sep) == [a] + Split(b, sep)
  {
    var s := a + [sep] + b;
    assert forall j :: 0 <= j < |a| ==> s[j] != sep;
    assert s[|a|] == sep;
    assert IndexOf(s, sep) == |a|;
    assert s[..|a|] == a && s[|a| + 1..] == b;
  }

  /** Text without the separator is one piece. */
  lemma SplitWhole(a: string, sep: char)
    requires sep !in a
    ensures Split(a, sep) == [a]
  {
    assert IndexOf(a, sep) == |a|;
  }

  /** `str.replace(a, b)` for single characters. */
  function ReplaceChar(s: string, a: char, b: char): (r: string)
    ensures |r| == |s|
    ensures forall i :: 0 <= i < |s| ==> r[i] == (if s[i] == a then b else s[i])
  {
    if s == [] then [] else [if s[0] == a then b else s[0]] + ReplaceChar(s[1..], a, b)
  }

  predicate IsHexDigit(c: char) { HexDigit(c).Some? }

  function HexValue(c: char): int requires IsHexDigit(c) { HexDigit(c).value }

  lemma StripNoSpace(s: string)
    requires s == [] || (!IsSpace(s[0]) && !IsSpace(s[|s| - 1]))
    ensures Strip(s) == s
  {
    assert TrimLeft(s) == s;
    assert TrimRight(s) == s;
  }

  /** A plain digit string is read as its decimal value. */
  lemma FloatOfDigits(d: string)
    requires d != [] && AllDigits(d)
    ensures ParseFloat(d) == Some(DigitsValue(d) as real)
  {
    assert d[0] != '-' && d[0] != '+';
    assert d[..|d|] == d;
  }

  /** `float(p.strip())` for every part; None when any part is not a float. */
  function ParseFloats(parts: seq<string>): (r: Option<seq<real>>)
    ensures r.Some? ==> |r.value| == |parts|
  {
    if parts == [] then Some([])
    else
      var head := ParseFloat(Strip(parts[0]));
      var tail := ParseFloats(parts[1..]);
      if head.None? || tail.None? then None else Some([head.value] + tail.value)
  }

  /** `int(s)` on decimal text: surrounding whitespace, an optional sign and at least one digit. */
  function ParseInt(s: string): (r: Option<int>)
    ensures r.Some? ==> var (sign, digits) := Sign(Strip(s)); digits != [] && AllDigits(digits)
  {
    var (sign, digits) := Sign(Strip(s));
    if digits == [] || !AllDigits(digits) then None
    else
      var v: int := DigitsValue(digits);
      Some(if sign < 0 then -v else v)
  }

  function DigitChar(d: int): char
    requires 0 <= d <= 9
  {
    ('0' as int + d) as char
  }

  /** `str(n)` for a natural number: its decimal digits without leading zeros. */
  function NatToString(n: nat): (s: string)
    ensures s != [] && AllDigits(s)
    ensures |s| > 1 ==> s[0] != '0'
  {
    if n < 10 then [DigitChar(n)] else NatToString(n / 10) + [DigitChar(n % 10)]
  }

  /** Reading back the printed digits gives the number. */
  lemma {:induction false} NatToStringValue(n: nat)
    ensures DigitsValue(NatToString(n)) == n
  {
    if n >= 10 {
      NatToStringValue(n / 10);
      var s := NatToString(n);
      assert s[..|s| - 1] == NatToString(n / 10);
    }
  }

  /** A plain digit string is read as its decimal value. */
  lemma ParseIntDigits(d: string)
    requires d != [] && AllDigits(d)
    ensures ParseInt(d) == Some(DigitsValue(d))
  {
    assert '0' <= d[0] <= '9' && '0' <= d[|d| - 1] <= '9';
    StripNoSpace(d);
    assert Sign(d) == (1, d);
  }

  /** `int(str(n)) == n`. */
  lemma ParseIntNat(n: nat)
    ensures ParseInt(NatToString(n)) == Some(n)
  {
    ParseIntDigits(NatToString(n));
    NatToStringValue(n);
  }

  /** Different numbers print differently. */
  lemma NatToStringInjective(a: nat, b: nat)
    requires NatToString(a) == NatToString(b)
    ensures a == b
  {
    NatToStringValue(a);
    NatToStringValue(b);
  }

  /** `str(n)` for any integer: a minus sign before the digits of a negative one. */
  function IntToString(n: int): (s: string)
    ensures s != [] && (n < 0 <==> s[0] == '-')
  {
    if n < 0 then "-" + NatToString(-n) else NatToString(n)
  }

  lemma IntToStringInjective(a: int, b: int)
    requires IntToString(a) == IntToString(b)
    ensures a == b
  {
    if a < 0 {
      assert NatToString(-a) == IntToString(a)[1..] == IntToString(b)[1..] == NatToString(-b);
      NatToStringInjective(-a, -b);
    } else {
      NatToStringInjective(a, b);
    }
  }

  /** No whitespace at all. */
  predicate NoSpace(w: string) { forall k :: 0 <= k < |w| ==> !IsSpace(w[k]) }

  /** A word: non-empty and without whitespace. */
  predicate IsWord(w: string) { w != [] && NoSpace(w) }

  /** The words of `s`, after the word `cur` already begun. */
  function WordsFrom(s: string, cur: string): seq<string>
    decreases |s|
  {
    if s == [] then (if cur == [] then [] else [cur])
    else if IsSpace(s[0]) then (if cur == [] then [] else [cur]) + WordsFrom(s[1..], [])
    else WordsFrom(s[1..], cur + [s[0]])
  }

  /** `str.split()` with no separator: the maximal runs of non-whitespace, in order. */
  function Words(s: string): seq<string> { WordsFrom(s, []) }

  lemma {:induction false} WordsFromAreWords(s: string, cur: string)
    requires NoSpace(cur)
    ensures forall i :: 0 <= i < |WordsFrom(s, cur)| ==> IsWord(WordsFrom(s, cur)[i])
    decreases |s|
  {
    if s != [] {
      if IsSpace(s[0]) {
        WordsFromAreWords(s[1..], []);
      } else {
        var c := cur + [s[0]];
        assert NoSpace(c) by {
          assert forall k :: 0 <= k < |cur| ==> c[k] == cur[k];
        }
        WordsFromAreWords(s[1..], c);
      }
    }
  }

  /** Every piece `str.split()` gives is a word. */
  lemma WordsAreWords(s: string)
    ensures forall i :: 0 <= i < |Words(s)| ==> IsWord(Words(s)[i])
  {
    WordsFromAreWords(s, []);
  }

  /** `sep.join(ws)`. */
  function Join(ws: seq<string>, sep: string): string {
    if ws == [] then "" else if |ws| == 1 then ws[0] else ws[0] + sep + Join(ws[1..], sep)
  }

  /** `"".join(ws)`. */
  function Concat(ws: seq<string>): string {
    if ws == [] then "" else Concat(ws[..|ws| - 1]) + ws[|ws| - 1]
  }

  /** No ASCII capital letters. */
  predicate NoUpper(s: string) { forall k :: 0 <= k < |s| ==> !('A' <= s[k] <= 'Z') }

  /**
   * Whitespace collapsed: the only whitespace is single spaces, and
   * there is none at either end.
   */
  predicate Collapsed(s: string) {
    (s == [] || (!IsSpace(s[0]) && !IsSpace(s[|s| - 1])))
    && (forall k :: 0 <= k < |s| && IsSpace(s[k]) ==> s[k] == ' ')
    && (forall k :: 0 <= k < |s| - 1 && s[k] == ' ' ==> s[k + 1] != ' ')
  }

  /** `" ".join(text.lower().strip().split())`. */
  function NormalizeText(text: string): string {
    Join(Words(Strip(Lower(text))), " ")
  }

  lemma {:induction false} JoinWordsCollapsed(ws: seq<string>)
    requires forall i :: 0 <= i < |ws| ==> IsWord(ws[i])
    ensures Collapsed(Join(ws, " "))
    ensures ws != [] ==> Join(ws, " ") != []
  {
    if |ws| > 1 {
      JoinWordsCollapsed(ws[1..]);
      var w, rest := ws[0], Join(ws[1..], " ");
      var r := w + " " + rest;
      assert r == Join(ws, " ");
      forall k | 0 <= k < |r| && IsSpace(r[k]) ensures r[k] == ' ' {
        if k > |w| {
          assert r[k] == rest[k - |w| - 1];
        }
      }
      forall k | 0 <= k < |r| - 1 && r[k] == ' ' ensures r[k + 1] != ' ' {
        if k > |w| {
          assert r[k] == rest[k - |w| - 1] && r[k + 1] == rest[k - |w|];
        } else if k == |w| {
          assert r[k + 1] == rest[0];
        }
      }
      assert r[|r| - 1] == rest[|rest| - 1];
    }
  }

  lemma {:induction false} WordsFromNoUpper(s: string, cur: string)
    requires NoUpper(s) && NoUpper(cur)
    ensures forall i :: 0 <= i < |WordsFrom(s, cur)| ==> NoUpper(WordsFrom(s, cur)[i])
    decreases |s|
  {
    if s != [] {
      assert NoUpper(s[1..]) by {
        assert forall k :: 0 <= k < |s| - 1 ==> s[1..][k] == s[k + 1];
      }
      if IsSpace(s[0]) {
        WordsFromNoUpper(s[1..], []);
      } else {
        var c := cur + [s[0]];
        assert NoUpper(c) by {
          assert forall k :: 0 <= k < |cur| ==> c[k] == cur[k];
        }
        WordsFromNoUpper(s[1..], c);
      }
    }
  }

  lemma {:induction false} JoinNoUpper(ws: seq<string>)
    requires forall i :: 0 <= i < |ws| ==> NoUpper(ws[i])
    ensures NoUpper(Join(ws, " "))
  {
    if |ws| > 1 {
      JoinNoUpper(ws[1..]);
      var w, rest := ws[0], Join(ws[1..], " ");
      forall k | 0 <= k < |w + " " + rest| ensures !('A' <= (w + " " + rest)[k] <= 'Z') {
        if k > |w| {
          assert (w + " " + rest)[k] == rest[k - |w| - 1];
        } else if k < |w| {
          assert (w + " " + rest)[k] == w[k];
        }
      }
    }
  }

  lemma NoUpperSlice(s: string, i: nat, j: nat)
    requires NoUpper(s) && i <= j <= |s|
    ensures NoUpper(s[i..j])
  {
    assert forall k :: 0 <= k < j - i ==> s[i..j][k] == s[i + k];
  }

  lemma StripNoUpper(s: string)
    requires NoUpper(s)
    ensures NoUpper(Strip(s))
  {
    var t := TrimLeft(s);
    TrimLeftSuffix(s);
    TrimRightPrefix(t);
    NoUpperSlice(s, |s| - |t|, |s|);
    NoUpperSlice(t, 0, |TrimRight(t)|);
  }

  /** Normalised text has no capitals and its whitespace is collapsed. */
  lemma NormalizeTextShape(text: string)
    ensures NoUpper(NormalizeText(text)) && Collapsed(NormalizeText(text))
  {
    var l := Strip(Lower(text));
    StripNoUpper(Lower(text));
    WordsFromNoUpper(l, []);
    WordsAreWords(l);
    JoinNoUpper(Words(l));
    JoinWordsCollapsed(Words(l));
  }
}
