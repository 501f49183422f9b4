/** Strings as the form handles them: ASCII character classes standing in for
    the regular-expression classes the source uses, `trim`, whitespace removal,
    `split`/`join` on one separator character, and the number <-> text
    conversions (`String(n)`, `Number(s)`, `parseInt(s) || 0`) restricted to
    integers. */
module Text {
  import opened JsValues

  /** The regular-expression class `\s`, restricted to ASCII: space, tab,
      line feed, vertical tab, form feed and carriage return. */
  predicate IsSpace(c: char) {
    c == ' ' || c == '\t' || c == '\n' || c == '\U{000B}' || c == '\U{000C}' || c == '\r'
  }

  /** `\d` and `[0-9]`. */
  predicate IsDigit(c: char) {
    '0' <= c <= '9'
  }

  /** `[A-Z]`. */
  predicate IsUpper(c: char) {
    'A' <= c <= 'Z'
  }

  /** `[a-z]`. */
  predicate IsLower(c: char) {
    'a' <= c <= 'z'
  }

  /** `[A-Za-z]`. */
  predicate IsLetter(c: char) {
    IsUpper(c) || IsLower(c)
  }

  predicate AllDigits(s: string) {
    forall i :: 0 <= i < |s| ==> IsDigit(s[i])
  }

  predicate NoSpace(s: string) {
    forall i :: 0 <= i < |s| ==> !IsSpace(s[i])
  }

  /** Every character is whitespace (the empty string included): exactly
      the strings whose `trim()` is empty, see `TrimEmptyIffBlank`. */
  predicate IsBlank(s: string) {
    forall i :: 0 <= i < |s| ==> IsSpace(s[i])
  }

  /** Some character is `c`. */
  predicate Contains(s: string, c: char) {
    exists i :: 0 <= i < |s| && s[i] == c
  }

  // ---------------------------------------------------------------- case

  /** `toUpperCase` of one character, on the ASCII letters only. */
  function UpperChar(c: char): (u: char)
    ensures IsLower(c) ==> IsUpper(u) && u as int == c as int - 32
    ensures !IsLower(c) ==> u == c
  {
    if IsLower(c) then (c as int - 32) as char else c
  }

  /** `toLowerCase` of one character, on the ASCII letters only. */
  function LowerChar(c: char): (l: char)
    ensures IsUpper(c) ==> IsLower(l) && l as int == c as int + 32
    ensures !IsUpper(c) ==> l == c
  {
    if IsUpper(c) then (c as int + 32) as char else c
  }

  /** Case mapping touches letters only, and mapping twice is mapping
      once with the outer direction. */
  lemma CaseMapping(c: char)
    ensures UpperChar(c) == ' ' <==> c == ' '
    ensures LowerChar(c) == ' ' <==> c == ' '
    ensures IsSpace(UpperChar(c)) <==> IsSpace(c)
    ensures IsSpace(LowerChar(c)) <==> IsSpace(c)
    ensures UpperChar(UpperChar(c)) == UpperChar(c) && UpperChar(LowerChar(c)) == UpperChar(c)
    ensures LowerChar(LowerChar(c)) == LowerChar(c) && LowerChar(UpperChar(c)) == LowerChar(c)
  {
  }

  /** `s.toLowerCase()` on ASCII. */
  function LowerCase(s: string): (r: string)
    ensures |r| == |s|
    ensures forall i :: 0 <= i < |s| ==> r[i] == LowerChar(s[i])
  {
    seq(|s|, i requires 0 <= i < |s| => LowerChar(s[i]))
  }

  // ---------------------------------------------------------------- trim

  /** The number of whitespace characters `s` starts with. */
  function LeadingSpaces(s: string): (k: nat)
    ensures k <= |s|
    ensures forall i :: 0 <= i < k ==> IsSpace(s[i])
    ensures k < |s| ==> !IsSpace(s[k])
  {
    if |s| > 0 && IsSpace(s[0]) then 1 + LeadingSpaces(s[1..]) else 0
  }

  function TrimStart(s: string): (r: string)
    ensures |r| <= |s| && r == s[|s| - |r|..]
    ensures IsBlank(s[..|s| - |r|])
    ensures r == [] || !IsSpace(r[0])
  {
    var k := LeadingSpaces(s);
    assert |s[k..]| == |s| - k;
    s[k..]
  }

  function TrimEnd(s: string): (r: string)
    ensures |r| <= |s| && r == s[..|r|]
    ensures IsBlank(s[|r|..])
    ensures r == [] || !IsSpace(r[|r| - 1])
  {
    if |s| > 0 && IsSpace(s[|s| - 1]) then TrimEnd(s[..|s| - 1]) else s
  }

  /** `s.trim()`: the longest infix that neither starts nor ends with whitespace. */
  function Trim(s: string): string {
    TrimEnd(TrimStart(s))
  }

  lemma TrimEmptyIffBlank(s: string)
    ensures Trim(s) == [] <==> IsBlank(s)
  {
    var t := TrimStart(s);
    if IsBlank(s) {
      TrimStartBlank(s);
    }
    if t == [] {
      assert s[..|s|] == s;
    } else {
      TrimEndKeepsNonSpace(t);
    }
  }

  lemma TrimStartBlank(s: string)
    requires IsBlank(s)
    ensures TrimStart(s) == []
  {
    assert LeadingSpaces(s) == |s|;
  }

  /** Trimming the end of a text that starts with a non-space keeps that character. */
  lemma {:induction false} TrimEndKeepsNonSpace(t: string)
    requires t != [] && !IsSpace(t[0])
    ensures TrimEnd(t) != []
  {
    if |t| > 1 && IsSpace(t[|t| - 1]) {
      TrimEndKeepsNonSpace(t[..|t| - 1]);
    }
  }

  /** A string without whitespace is its own `trim()`. */
  lemma TrimNoSpace(s: string)
    requires NoSpace(s)
    ensures Trim(s) == s
  {
    if |s| > 0 {
      assert !IsSpace(s[0]);
      assert TrimStart(s) == s;
      assert !IsSpace(s[|s| - 1]);
    }
  }

  // ---------------------------------------------------------------- strip

  /** `s.replace(/\s+/g, "")`: every whitespace character removed. */
  function StripSpaces(s: string): (r: string)
    ensures NoSpace(r)
    ensures |r| <= |s|
    ensures NoSpace(s) ==> r == s
    ensures forall c :: !IsSpace(c) ==> multiset(r)[c] == multiset(s)[c]
  {
    if s == [] then []
    else
      var rest := StripSpaces(s[1..]);
      assert s == [s[0]] + s[1..];
      if IsSpace(s[0]) then rest else [s[0]] + rest
  }

  /** Stripping whitespace twice is stripping it once. */
  lemma StripSpacesIdempotent(s: string)
    ensures StripSpaces(StripSpaces(s)) == StripSpaces(s)
  {
  }

  /** Whitespace removal keeps what it keeps in order: stripping a
      concatenation is concatenating the stripped parts. */
  lemma {:induction false} StripSpacesAppend(a: string, b: string)
    ensures StripSpaces(a + b) == StripSpaces(a) + StripSpaces(b)
    decreases |a|
  {
    if a == [] {
      assert a + b == b;
    } else {
      assert (a + b)[0] == a[0] && (a + b)[1..] == a[1..] + b;
      StripSpacesAppend(a[1..], b);
    }
  }

  /** Typing one more character appends it to the stripped text, unless it
      is whitespace. */
  lemma StripSpacesSnoc(s: string, c: char)
    ensures StripSpaces(s + [c]) == StripSpaces(s) + (if IsSpace(c) then [] else [c])
  {
    StripSpacesAppend(s, [c]);
  }

  // ---------------------------------------------------------------- split / join

  /** `s.split(sep)` for a one-character separator: the maximal
      separator-free pieces, in order; there is always at least one piece. */
  function Split(s: string, sep: char): (parts: seq<string>)
    ensures |parts| >= 1
    ensures forall k :: 0 <= k < |parts| ==> !Contains(parts[k], sep)
  {
    if s == [] then [[]]
    else if s[0] == sep then [[]] + Split(s[1..], sep)
    else
      var rest := Split(s[1..], sep);
      assert !Contains([s[0]] + rest[0], sep) by {
        assert forall i :: 0 < i < |rest[0]| + 1 ==> ([s[0]] + rest[0])[i] == rest[0][i - 1];
      }
      [[s[0]] + rest[0]] + rest[1..]
  }

  /** `parts.join(sep)`: the pieces with one separator between neighbours. */
  function Join(parts: seq<string>, sep: char): string {
    if |parts| == 0 then []
    else if |parts| == 1 then parts[0]
    else parts[0] + [sep] + Join(parts[1..], sep)
  }

  /** Joining a piece in front of a non-empty list puts one separator
      between it and the join of the list. */
  lemma JoinCons(first: string, rest: seq<string>, sep: char)
    requires rest != []
    ensures Join([first] + rest, sep) == first + ([sep] + Join(rest, sep))
  {
    var parts := [first] + rest;
    assert parts[0] == first && parts[1..] == rest;
  }

  /** A join whose first piece is non-empty is non-empty. */
  lemma JoinNonEmpty(parts: seq<string>, sep: char)
    requires parts != [] && parts[0] != []
    ensures Join(parts, sep) != []
  {
    assert Join(parts, sep)[..|parts[0]|] == parts[0];
  }

  /** Joining the pieces of a split gives the original text back. */
  lemma {:induction false} JoinSplit(s: string, sep: char)
    ensures Join(Split(s, sep), sep) == s
  {
    if s == [] {
    } else if s[0] == sep {
      JoinSplit(s[1..], sep);
      var rest := Split(s[1..], sep);
      assert Split(s, sep) == [[]] + rest;
      assert Join(Split(s, sep), sep) == [] + [sep] + Join(rest, sep);
    } else {
      JoinSplit(s[1..], sep);
      var rest := Split(s[1..], sep);
      var parts := Split(s, sep);
      assert parts == [[s[0]] + rest[0]] + rest[1..];
      if |rest| == 1 {
        assert Join(parts, sep) == [s[0]] + rest[0];
      } else {
        assert parts[1..] == rest[1..];
        assert Join(parts, sep) == [s[0]] + rest[0] + [sep] + Join(rest[1..], sep);
        assert Join(rest, sep) == rest[0] + [sep] + Join(rest[1..], sep);
      }
    }
  }

  /** Splitting a join of separator-free pieces gives the pieces back. */
  lemma {:induction false} SplitJoin(parts: seq<string>, sep: char)
    requires |parts| >= 1
    requires forall k :: 0 <= k < |parts| ==> !Contains(parts[k], sep)
    ensures Split(Join(parts, sep), sep) == parts
  {
    if |parts| == 1 {
      SplitSepFree(parts[0], [], sep);
      assert parts[0] + [] == parts[0];
    } else {
      SplitJoin(parts[1..], sep);
      var tail := [sep] + Join(parts[1..], sep);
      assert Join(parts, sep) == parts[0] + tail;
      SplitSepFree(parts[0], Join(parts[1..], sep), sep);
      assert Split(Join(parts, sep), sep) == [parts[0]] + Split(Join(parts[1..], sep), sep);
      assert parts == [parts[0]] + parts[1..];
    }
  }

  /** Splitting `w + [sep] + t` (or `w` alone) for a separator-free `w`. */
  lemma {:induction false} SplitSepFree(w: string, t: string, sep: char)
    requires !Contains(w, sep)
    ensures t == [] ==> Split(w, sep) == [w]
    ensures Split(w + [sep] + t, sep) == [w] + Split(t, sep)
  {
    if w == [] {
      assert [] + [sep] + t == [sep] + t;
      assert ([sep] + t)[1..] == t;
    } else {
      assert !Contains(w[1..], sep) by {
        assert forall i :: 0 <= i < |w[1..]| ==> w[1..][i] == w[i + 1];
      }
      SplitSepFree(w[1..], t, sep);
      assert (w + [sep] + t)[1..] == w[1..] + [sep] + t;
      assert (w + [sep] + t)[0] == w[0];
      assert w[0] != sep;
      assert [w[0]] + w[1..] == w;
      if t == [] {
        assert Split(w, sep) == [[w[0]] + w[1..]];
      }
    }
  }

  // ---------------------------------------------------------------- numbers

  function DigitChar(d: int): (c: char)
    requires 0 <= d < 10
    ensures IsDigit(c)
  {
    ('0' as int + d) as char
  }

  function DigitValue(c: char): (d: int)
    requires IsDigit(c)
    ensures 0 <= d < 10 && DigitChar(d) == c
  {
    c as int - '0' as int
  }

  /** The value of a decimal digit string, most significant digit first
      (the empty string counts 0). */
  function DigitsValue(s: string): (v: nat)
    requires AllDigits(s)
  {
    if s == [] then 0 else DigitsValue(s[..|s| - 1]) * 10 + DigitValue(s[|s| - 1])
  }

  /** `String(n)` for a natural number: shortest decimal form. */
  function NatToString(n: nat): (s: string)
    ensures |s| >= 1 && AllDigits(s)
    ensures s[0] == '0' ==> n == 0
    decreases n
  {
    if n < 10 then [DigitChar(n)] else NatToString(n / 10) + [DigitChar(n % 10)]
  }

  /** `String(n)` for an integer. */
  function IntToString(n: int): string {
    if n < 0 then "-" + NatToString(-n) else NatToString(n)
  }

  /** `String(n)` of a negative number: a minus sign, then the digits
      of its magnitude. */
  lemma IntToStringNegative(n: int)
    requires n < 0
    ensures |IntToString(n)| >= 2 && IntToString(n)[0] == '-'
    ensures IntToString(n)[1..] == NatToString(-n)
    ensures AllDigits(IntToString(n)[1..]) && DigitsValue(IntToString(n)[1..]) == -n
  {
    var d := NatToString(-n);
    assert ("-" + d)[1..] == d;
    NatToStringValue(-n);
  }

  lemma {:induction false} NatToStringValue(n: nat)
    ensures DigitsValue(NatToString(n)) == n
    decreases n
  {
    if n >= 10 {
      NatToStringValue(n / 10);
      var s := NatToString(n);
      assert s[..|s| - 1] == NatToString(n / 10);
    }
  }

  /** `Number(s)` restricted to integers: surrounding whitespace is ignored,
      blank text is `0`, an optionally signed digit string is its value,
      anything else is `NaN` (here `None`). */
  function NumberOf(s: string): Option<int> {
    var t := Trim(s);
    if t == [] then Some(0)
    else if (t[0] == '-' || t[0] == '+') && |t| > 1 && AllDigits(t[1..]) then
      var v: int := DigitsValue(t[1..]);
      Some(if t[0] == '-' then -v else v)
    else if AllDigits(t) then Some(DigitsValue(t))
    else None
  }

  /** `Number(String(n)) == n`. */
  lemma NumberOfIntToString(n: int)
    ensures NumberOf(IntToString(n)) == Some(n)
  {
    if n < 0 {
      var d := NatToString(-n);
      assert IntToString(n) == "-" + d;
      NumberOfNegative(d);
      NatToStringValue(-n);
      assert DigitsValue(d) == -n;
    } else {
      var d := NatToString(n);
      assert IntToString(n) == d;
      NumberOfDigits(d);
      NatToStringValue(n);
    }
  }

  /** A non-empty digit string denotes its own value: `Number(s)`. */
  lemma NumberOfDigits(s: string)
    requires s != [] && AllDigits(s)
    ensures NumberOf(s) == Some(DigitsValue(s))
  {
    assert NoSpace(s);
    TrimNoSpace(s);
  }

  /** A minus sign before a non-empty digit string negates its value. */
  lemma NumberOfNegative(d: string)
    requires d != [] && AllDigits(d)
    ensures NumberOf("-" + d) == Some(-(DigitsValue(d) as int))
  {
    var s := "-" + d;
    assert s[1..] == d;
    assert NoSpace(s) by {
      assert forall i :: 1 <= i < |s| ==> s[i] == d[i - 1];
    }
    TrimNoSpace(s);
    assert s[0] == '-' && |s| > 1;
  }

  function Pow10(k: nat): (p: nat)
    ensures p >= 1
  {
    if k == 0 then 1 else 10 * Pow10(k - 1)
  }

  /** `k` digits denote less than `10^k`. */
  lemma {:induction false} DigitsValueBound(s: string)
    requires AllDigits(s)
    ensures DigitsValue(s) < Pow10(|s|)
  {
    if s != [] {
      DigitsValueBound(s[..|s| - 1]);
    }
  }

  /** `k` digits without a leading zero denote at least `10^(k-1)`. */
  lemma {:induction false} DigitsValueLowerBound(s: string)
    requires AllDigits(s) && s != [] && s[0] != '0'
    ensures DigitsValue(s) >= Pow10(|s| - 1)
  {
    if |s| > 1 {
      DigitsValueLowerBound(s[..|s| - 1]);
    }
  }

  /** A digit string without a leading zero is at least 1. */
  lemma {:induction false} DigitsValuePositive(s: string)
    requires AllDigits(s) && s != [] && s[0] != '0'
    ensures DigitsValue(s) >= 1
  {
    if |s| > 1 {
      DigitsValuePositive(s[..|s| - 1]);
    }
  }

  /** A digit string without a leading zero is the `String` of its value. */
  lemma {:induction false} CanonicalDigits(s: string)
    requires AllDigits(s) && s != [] && s[0] != '0'
    ensures NatToString(DigitsValue(s)) == s
  {
    var n := DigitsValue(s);
    if |s| > 1 {
      var p := s[..|s| - 1];
      CanonicalDigits(p);
      DigitsValuePositive(p);
      var last := DigitValue(s[|s| - 1]);
      assert n == DigitsValue(p) * 10 + last;
      assert n / 10 == DigitsValue(p) && n % 10 == last;
      assert n >= 10;
      assert NatToString(n) == NatToString(n / 10) + [DigitChar(n % 10)];
      assert DigitChar(last) == s[|s| - 1];
      assert s == p + [s[|s| - 1]];
    }
  }

  /** Two digits are the two-digit padding of their value. */
  lemma Pad2Digits(s: string)
    requires |s| == 2 && AllDigits(s)
    ensures Pad2(DigitsValue(s)) == s
  {
    var n := DigitsValue(s);
    assert s[..1] == [s[0]] && s[..1][..0] == [];
    assert DigitsValue(s[..1]) == DigitValue(s[0]);
    assert n == DigitValue(s[0]) * 10 + DigitValue(s[1]);
    if s[0] == '0' {
      assert n < 10;
      assert NatToString(n) == [s[1]];
    } else {
      CanonicalDigits(s);
    }
  }

  /** A leading zero adds nothing to the value. */
  lemma {:induction false} LeadingZeroValue(s: string)
    requires AllDigits(s) && s != [] && s[0] == '0'
    ensures DigitsValue(s) == DigitsValue(s[1..])
  {
    if |s| > 1 {
      LeadingZeroValue(s[..|s| - 1]);
      assert s[..|s| - 1][1..] == s[1..][..|s[1..]| - 1];
    }
  }

  /** `String(n)` has fewer than four characters below 1000. */
  lemma NatToStringShort(n: nat)
    requires n < 1000
    ensures |NatToString(n)| <= 3
    ensures n >= 100 ==> |NatToString(n)| == 3
  {
    if n >= 10 {
      if n >= 100 {
        assert |NatToString(n / 10)| == 2 by {
          assert NatToString(n / 10) == NatToString(n / 100) + [DigitChar((n / 10) % 10)];
        }
      }
    }
  }

  /** Below `10^k`, `String(n)` has at most `k` characters. */
  lemma {:induction false} NatToStringLength(n: nat, k: nat)
    requires k >= 1 && n < Pow10(k)
    ensures |NatToString(n)| <= k
    decreases n
  {
    if n >= 10 {
      assert k >= 2;
      NatToStringLength(n / 10, k - 1);
    }
  }

  /** `String(n)` starts with `1` for n in 1000..1999. */
  lemma NatToStringLeadingOne(n: nat)
    requires 1000 <= n < 2000
    ensures NatToString(n)[0] == '1'
  {
    var a, b, c := n / 10, n / 100, n / 1000;
    assert a / 10 == b && b / 10 == c && c == 1;
    assert NatToString(b)[0] == NatToString(c)[0];
    assert NatToString(a)[0] == NatToString(b)[0];
    assert NatToString(n)[0] == NatToString(a)[0];
  }

  /** The longest prefix of decimal digits. */
  function DigitPrefix(s: string): (p: string)
    ensures |p| <= |s| && p == s[..|p|] && AllDigits(p)
    ensures |p| < |s| ==> !IsDigit(s[|p|])
  {
    if s != [] && IsDigit(s[0]) then [s[0]] + DigitPrefix(s[1..]) else []
  }

  /** The value of the longest digit prefix, or nothing without one. */
  function LeadingDigits(s: string): Option<nat> {
    var digits := DigitPrefix(s);
    if digits == [] then None else Some(DigitsValue(digits))
  }

  /** `parseInt(s, 10)` restricted to integers: leading whitespace skipped,
      an optional sign, then the longest digit prefix, whatever follows it
      ignored; no digits at all is `NaN` (here `None`). */
  function ParseInt(s: string): Option<int> {
    var t := TrimStart(s);
    var negative := t != [] && t[0] == '-';
    var body := if t != [] && (t[0] == '-' || t[0] == '+') then t[1..] else t;
    var magnitude := LeadingDigits(body);
    if magnitude.None? then None
    else
      var v: int := magnitude.value;
      Some(if negative then -v else v)
  }

  /** `parseInt(s) || 0`: `NaN` and zero both give `0`. */
  function ParseIntOrZero(s: string): int {
    ParseInt(s).GetOr(0)
  }

  /** `parseInt` reads a digit string followed by anything that is not a
      digit as the value of those digits. */
  lemma ParseIntDigitsThen(s: string, rest: string)
    requires s != [] && AllDigits(s) && !IsSpace(s[0])
    requires rest == [] || !IsDigit(rest[0])
    ensures ParseInt(s + rest) == Some(DigitsValue(s))
  {
    var t := s + rest;
    assert t[0] == s[0] && IsDigit(s[0]);
    DigitPrefixOf(s, rest);
    ParseIntUnsigned(t);
  }

  /** Text starting with a digit is read from its first character, with
      no sign. */
  lemma ParseIntUnsigned(t: string)
    requires t != [] && IsDigit(t[0])
    ensures DigitPrefix(t) != []
    ensures ParseInt(t) == Some(DigitsValue(DigitPrefix(t)))
  {
    assert !IsSpace(t[0]) && t[0] != '-' && t[0] != '+';
    assert LeadingSpaces(t) == 0;
    assert TrimStart(t) == t;
    var p := DigitPrefix(t);
    assert p != [] by {
      assert p == [t[0]] + DigitPrefix(t[1..]);
    }
    assert LeadingDigits(t) == Some(DigitsValue(p));
  }

  lemma {:induction false} DigitPrefixOf(s: string, rest: string)
    requires AllDigits(s)
    requires rest == [] || !IsDigit(rest[0])
    ensures DigitPrefix(s + rest) == s
  {
    if s != [] {
      assert (s + rest)[1..] == s[1..] + rest;
      DigitPrefixOf(s[1..], rest);
    } else {
      assert s + rest == rest;
    }
  }

  /** `parseInt(String(n)) == n`. */
  lemma ParseIntIntToString(n: int)
    ensures ParseInt(IntToString(n)) == Some(n)
  {
    var s := IntToString(n);
    if n < 0 {
      IntToStringNegative(n);
      ParseIntNegative(s);
    } else {
      var d := NatToString(n);
      assert s == d + [];
      ParseIntDigitsThen(d, []);
      NatToStringValue(n);
      assert DigitsValue(d) == n;
    }
  }

  /** `parseInt` of a minus sign before a non-empty digit string negates
      its value. */
  lemma ParseIntNegative(s: string)
    requires |s| >= 2 && s[0] == '-' && AllDigits(s[1..])
    ensures ParseInt(s) == Some(-(DigitsValue(s[1..]) as int))
  {
    ParseIntMinus(s);
    LeadingDigitsAll(s[1..]);
  }

  /** A whole digit string is its own leading digits. */
  lemma LeadingDigitsAll(d: string)
    requires d != [] && AllDigits(d)
    ensures LeadingDigits(d) == Some(DigitsValue(d))
  {
    assert d + [] == d;
    DigitPrefixOf(d, []);
  }

  /** Text starting with a minus sign is read as the negated digits after
      it. */
  lemma ParseIntMinus(t: string)
    requires t != [] && t[0] == '-'
    ensures ParseInt(t) == (if LeadingDigits(t[1..]).None? then None else Some(-(LeadingDigits(t[1..]).value as int)))
  {
    assert LeadingSpaces(t) == 0;
    assert TrimStart(t) == t;
  }

  /** `String(n).padStart(2, "0")` for a natural number. */
  function Pad2(n: nat): (s: string)
    ensures |s| >= 2 && AllDigits(s)
  {
    var t := NatToString(n);
    if |t| < 2 then "0" + t else t
  }
}
