/**
 * The string primitives the record actions use, with JavaScript's meaning:
 * `String.prototype.trim`, `split(",")`, the regular-expression class `\s`,
 * the global `parseInt` called without a radix, and the email pattern
 * `^[^\s@]+@[^\s@]+\.[^\s@]+$`.
 */
module Text {
  import opened Base

  /** JavaScript's WhiteSpace and LineTerminator code points: what `trim`, `\s` and `parseInt` skip. */
  const Whitespace: set<char> := {
    '\t', '\n', '\U{B}', '\U{C}', '\r', ' ', '\U{A0}', '\U{1680}',
    '\U{2000}', '\U{2001}', '\U{2002}', '\U{2003}', '\U{2004}', '\U{2005}',
    '\U{2006}', '\U{2007}', '\U{2008}', '\U{2009}', '\U{200A}',
    '\U{2028}', '\U{2029}', '\U{202F}', '\U{205F}', '\U{3000}', '\U{FEFF}'
  }

  predicate IsWhitespace(c: char) {
    c in Whitespace
  }

  predicate AllWhitespace(s: string) {
    forall k :: 0 <= k < |s| ==> IsWhitespace(s[k])
  }

  /** Neither end of `s` is whitespace. */
  predicate IsTrimmed(s: string) {
    s == [] || (!IsWhitespace(s[0]) && !IsWhitespace(s[|s| - 1]))
  }

  /** `s` without its leading whitespace. */
  function TrimStart(s: string): (r: string)
    ensures |r| <= |s|
    ensures r == [] || !IsWhitespace(r[0])
  {
    if s != [] && IsWhitespace(s[0]) then TrimStart(s[1..]) else s
  }

  /** What `TrimStart` keeps is a suffix of `s`, and what it cuts is whitespace. */
  lemma {:induction false} TrimStartShape(s: string)
    ensures TrimStart(s) == s[|s| - |TrimStart(s)|..]
    ensures AllWhitespace(s[..|s| - |TrimStart(s)|])
  {
    if s != [] && IsWhitespace(s[0]) {
      TrimStartShape(s[1..]);
      var n := |s| - |TrimStart(s)|;
      assert s[1..][n - 1..] == s[n..];
      forall k | 0 <= k < n ensures IsWhitespace(s[..n][k]) {
        if k > 0 {
          assert s[..n][k] == s[1..][..n - 1][k - 1];
        }
      }
    }
  }

  /** `s` without its trailing whitespace. */
  function TrimEnd(s: string): (r: string)
    ensures |r| <= |s|
    ensures r == [] || !IsWhitespace(r[|r| - 1])
  {
    if s != [] && IsWhitespace(s[|s| - 1]) then TrimEnd(s[..|s| - 1]) else s
  }

  /** What `TrimEnd` keeps is a prefix of `s`, and what it cuts is whitespace. */
  lemma {:induction false} TrimEndShape(s: string)
    ensures TrimEnd(s) == s[..|TrimEnd(s)|]
    ensures AllWhitespace(s[|TrimEnd(s)|..])
  {
    if s != [] && IsWhitespace(s[|s| - 1]) {
      var init := s[..|s| - 1];
      TrimEndShape(init);
      var n := |TrimEnd(s)|;
      assert init[..n] == s[..n];
      forall j | 0 <= j < |s| - n ensures IsWhitespace(s[n..][j]) {
        if n + j < |s| - 1 {
          assert s[n..][j] == init[n..][j];
        }
      }
    }
  }

  /** `String.prototype.trim`: `s` is whitespace, then `r`, then whitespace, and `r` has no whitespace at either end. */
  function Trim(s: string): (r: string)
    ensures IsTrimmed(r)
  {
    var t := TrimStart(s);
    TrimEndShape(t);
    TrimEnd(t)
  }

  /** What `trim` removes is whitespace: `s` is whitespace, then `Trim(s)`, then whitespace. */
  lemma TrimShape(s: string) returns (i: nat)
    ensures i + |Trim(s)| <= |s|
    ensures AllWhitespace(s[..i]) && s[i..i + |Trim(s)|] == Trim(s) && AllWhitespace(s[i + |Trim(s)|..])
  {
    var t := TrimStart(s);
    var r := TrimEnd(t);
    TrimStartShape(s);
    TrimEndShape(t);
    assert t == s[|s| - |t|..] && AllWhitespace(s[..|s| - |t|]);
    i := |s| - |t|;
    assert s[i..i + |r|] == t[..|r|] == r;
    assert s[i + |r|..] == t[|r|..];
    assert AllWhitespace(t[|r|..]);
  }

  /** Trimming adds no character. */
  lemma TrimAbsent(s: string, c: char)
    ensures c !in s ==> c !in Trim(s)
  {
    var i := TrimShape(s);
    if c in Trim(s) {
      var k :| 0 <= k < |Trim(s)| && Trim(s)[k] == c;
      assert s[i + k] == c;
    }
  }

  /** A trimmed string is its own trim, so trimming twice is trimming once. */
  lemma TrimTrimmed(s: string)
    requires IsTrimmed(s)
    ensures Trim(s) == s
  {
    assert TrimStart(s) == s;
    assert TrimEnd(s) == s;
  }

  /** `!s.trim()` holds exactly of the strings made of whitespace only. */
  lemma {:induction false} TrimBlank(s: string)
    ensures Trim(s) == [] <==> AllWhitespace(s)
  {
    var r := Trim(s);
    var i := TrimShape(s);
    if r == [] {
      forall k | 0 <= k < |s| ensures IsWhitespace(s[k]) {
        if k < i { assert s[k] == s[..i][k]; } else { assert s[k] == s[i..][k - i]; }
      }
    } else {
      assert s[i] == r[0];
    }
  }

  /** `s.split(sep)` for a one-character separator: never empty, and no piece holds the separator. */
  function Split(s: string, sep: char): (parts: seq<string>)
    ensures |parts| >= 1
    ensures forall i :: 0 <= i < |parts| ==> sep !in parts[i]
  {
    if s == [] then [""]
    else
      var rest := Split(s[1..], sep);
      if s[0] == sep then [""] + rest else [[s[0]] + rest[0]] + rest[1..]
  }

  /** `parts.join(sep)`: the inverse of `Split`. */
  function Join(parts: seq<string>, sep: char): string
    requires |parts| >= 1
  {
    if |parts| == 1 then parts[0] else parts[0] + [sep] + Join(parts[1..], sep)
  }

  lemma {:induction false} JoinSplit(s: string, sep: char)
    ensures Join(Split(s, sep), sep) == s
  {
    if s != [] {
      JoinSplit(s[1..], sep);
      var rest := Split(s[1..], sep);
      if s[0] == sep {
        assert ([""] + rest)[1..] == rest;
      } else if |rest| > 1 {
        assert ([[s[0]] + rest[0]] + rest[1..])[1..] == rest[1..];
        assert Join(rest, sep) == rest[0] + [sep] + Join(rest[1..], sep);
      }
    }
  }

  lemma {:induction false} SplitPrefix(a: string, rest: string, sep: char)
    requires sep !in a
    ensures Split(a + rest, sep) == [a + Split(rest, sep)[0]] + Split(rest, sep)[1..]
  {
    if a != [] {
      var ps := Split(rest, sep);
      assert (a + rest)[0] == a[0] != sep;
      assert (a + rest)[1..] == a[1..] + rest;
      SplitPrefix(a[1..], rest, sep);
      var r := Split(a[1..] + rest, sep);
      assert r[0] == a[1..] + ps[0] && r[1..] == ps[1..];
      assert Split(a + rest, sep) == [[a[0]] + r[0]] + r[1..];
      assert [a[0]] + (a[1..] + ps[0]) == a + ps[0];
    } else {
      var ps := Split(rest, sep);
      assert a + rest == rest;
      assert a + ps[0] == ps[0];
      assert ps == [ps[0]] + ps[1..];
    }
  }

  lemma {:induction false} SplitJoin(parts: seq<string>, sep: char)
    requires |parts| >= 1
    requires forall i :: 0 <= i < |parts| ==> sep !in parts[i]
    ensures Split(Join(parts, sep), sep) == parts
  {
    if |parts| == 1 {
      SplitPrefix(parts[0], [], sep);
      assert parts[0] + [] == parts[0];
    } else {
      var tail := Join(parts[1..], sep);
      SplitJoin(parts[1..], sep);
      assert ([sep] + tail)[1..] == tail;
      assert Split([sep] + tail, sep) == [""] + parts[1..];
      assert Join(parts, sep) == parts[0] + ([sep] + tail);
      SplitPrefix(parts[0], [sep] + tail, sep);
      assert parts[0] + "" == parts[0];
      assert parts == [parts[0]] + parts[1..];
    }
  }

  /** What `.map((s) => s.trim()).filter((s) => s)` keeps: a non-empty trimmed string. */
  predicate IsItem(x: string) {
    x != [] && IsTrimmed(x)
  }

  /** `parts.map((s) => s.trim()).filter((s) => s)`. */
  function TrimAndDropEmpty(parts: seq<string>): (items: seq<string>)
    ensures |items| <= |parts|
    ensures forall i :: 0 <= i < |items| ==> IsItem(items[i])
  {
    if parts == [] then []
    else
      var t := Trim(parts[0]);
      (if t == [] then [] else [t]) + TrimAndDropEmpty(parts[1..])
  }

  /** The pipeline runs piece by piece: a blank piece contributes nothing, any other its trim. */
  lemma TrimAndDropEmptyPiece(p: string)
    ensures TrimAndDropEmpty([p]) == if Trim(p) == [] then [] else [Trim(p)]
  {
    assert [p][1..] == [];
  }

  /** Trimming and dropping keeps the order of the pieces: it distributes over concatenation. */
  lemma {:induction false} TrimAndDropEmptyConcat(a: seq<string>, b: seq<string>)
    ensures TrimAndDropEmpty(a + b) == TrimAndDropEmpty(a) + TrimAndDropEmpty(b)
  {
    if a == [] {
      assert a + b == b;
    } else {
      assert (a + b)[0] == a[0];
      assert (a + b)[1..] == a[1..] + b;
      TrimAndDropEmptyConcat(a[1..], b);
    }
  }

  /** The items kept are exactly the non-empty trims of the pieces. */
  lemma {:induction false} TrimAndDropEmptyMembers(parts: seq<string>)
    ensures forall x :: x in TrimAndDropEmpty(parts) <==> x != [] && exists p :: p in parts && Trim(p) == x
  {
    if parts != [] {
      var rest := parts[1..];
      TrimAndDropEmptyMembers(rest);
      forall x | x != [] && exists p :: p in parts && Trim(p) == x
        ensures x in TrimAndDropEmpty(parts)
      {
        var p :| p in parts && Trim(p) == x;
        if p != parts[0] {
          assert p in rest;
        }
      }
    }
  }

  /** Trimming and dropping empty strings adds no character. */
  lemma {:induction false} TrimAndDropEmptyAbsent(parts: seq<string>, c: char)
    requires forall p :: p in parts ==> c !in p
    ensures forall x :: x in TrimAndDropEmpty(parts) ==> c !in x
  {
    if parts != [] {
      assert forall p :: p in parts[1..] ==> p in parts;
      TrimAndDropEmptyAbsent(parts[1..], c);
      TrimAbsent(parts[0], c);
    }
  }

  /**
   * `s.split(",").map((s) => s.trim()).filter((s) => s)`, the parsing of the
   * comma-separated `subjects` and `responsibilities` inputs.
   */
  function ParseList(s: string): (items: seq<string>)
    ensures items == TrimAndDropEmpty(Split(s, ','))
    ensures forall i :: 0 <= i < |items| ==> IsItem(items[i]) && ',' !in items[i]
  {
    var parts := Split(s, ',');
    TrimAndDropEmptyAbsent(parts, ',');
    var items := TrimAndDropEmpty(parts);
    assert forall i :: 0 <= i < |items| ==> items[i] in items;
    items
  }

  lemma {:induction false} TrimAndDropEmptyClean(items: seq<string>)
    requires forall i :: 0 <= i < |items| ==> IsItem(items[i])
    ensures TrimAndDropEmpty(items) == items
  {
    if items != [] {
      var rest := items[1..];
      assert forall i :: 0 <= i < |rest| ==> IsItem(rest[i]) by {
        forall i | 0 <= i < |rest| ensures IsItem(rest[i]) {
          assert rest[i] == items[i + 1];
        }
      }
      TrimAndDropEmptyClean(rest);
      assert IsItem(items[0]);
      TrimTrimmed(items[0]);
      assert TrimAndDropEmpty(items) == [items[0]] + rest;
      assert items == [items[0]] + rest;
    }
  }

  /** A list of non-empty, trimmed, comma-free items survives being joined with commas and parsed back. */
  lemma ParseListJoin(items: seq<string>)
    requires |items| >= 1
    requires forall i :: 0 <= i < |items| ==> IsItem(items[i]) && ',' !in items[i]
    ensures ParseList(Join(items, ',')) == items
  {
    SplitJoin(items, ',');
    TrimAndDropEmptyClean(items);
  }

  // ---------------------------------------------------------------- parseInt

  /** The value of a hexadecimal digit character, if it is one. */
  function DigitValue(c: char): (v: Option<nat>)
    ensures v.Some? ==> v.value < 16
  {
    if '0' <= c <= '9' then Some(c as int - '0' as int)
    else if 'a' <= c <= 'f' then Some(c as int - 'a' as int + 10)
    else if 'A' <= c <= 'F' then Some(c as int - 'A' as int + 10)
    else None
  }

  predicate IsDigit(c: char, radix: nat) {
    DigitValue(c).Some? && DigitValue(c).value < radix
  }

  /** The length of the longest prefix of `s` made of `radix` digits. */
  function DigitRun(s: string, radix: nat): (n: nat)
    ensures n <= |s|
    ensures n < |s| ==> !IsDigit(s[n], radix)
  {
    if s != [] && IsDigit(s[0], radix) then 1 + DigitRun(s[1..], radix) else 0
  }

  /** Every character of the run is a digit. */
  lemma {:induction false} DigitRunDigits(s: string, radix: nat)
    ensures forall c :: c in s[..DigitRun(s, radix)] ==> IsDigit(c, radix)
  {
    if s != [] && IsDigit(s[0], radix) {
      DigitRunDigits(s[1..], radix);
      var n := DigitRun(s, radix);
      forall c | c in s[..n] ensures IsDigit(c, radix) {
        if c != s[0] {
          assert s[..n] == [s[0]] + s[1..][..n - 1];
        }
      }
    }
  }

  /** The number the digit string `d` denotes in base `radix`, most significant digit first. */
  function DigitsValue(d: string, radix: nat): nat
    requires forall c :: c in d ==> IsDigit(c, radix)
  {
    if d == [] then 0
    else
      var init, last := d[..|d| - 1], d[|d| - 1];
      assert forall c :: c in init ==> c in d;
      assert last in d;
      assert IsDigit(last, radix);
      Place(DigitsValue(init, radix), radix, DigitValue(last).value)
  }

  /** Appending `digit` to a numeral worth `v` in base `radix`. */
  function Place(v: nat, radix: nat, digit: nat): nat {
    v * radix + digit
  }

  /** The value of the longest prefix of `v` made of `radix` digits; `None` when there is none. */
  function LeadingNumber(v: string, radix: nat): Option<nat> {
    var len := DigitRun(v, radix);
    DigitRunDigits(v, radix);
    if len == 0 then None else Some(DigitsValue(v[..len], radix))
  }

  /** An unsigned numeral: base 16 after a `0x`/`0X` prefix, base 10 otherwise. */
  function ParseMagnitude(u: string): Option<nat> {
    if |u| >= 2 && u[0] == '0' && (u[1] == 'x' || u[1] == 'X') then LeadingNumber(u[2..], 16)
    else LeadingNumber(u, 10)
  }

  /**
   * The global `parseInt(s)` without a radix: skip leading whitespace, take an
   * optional sign, read base 16 after a `0x`/`0X` prefix and base 10 otherwise,
   * and stop at the first non-digit. No digit at all gives `NaN`, here `None`.
   */
  function ParseInt(s: string): Option<int> {
    ParseSigned(TrimStart(s))
  }

  /** A numeral with an optional `+` or `-` in front. */
  function ParseSigned(t: string): Option<int> {
    if t != [] && (t[0] == '-' || t[0] == '+') then
      match ParseMagnitude(t[1..])
      case Some(m) => Some(if t[0] == '-' then -(m as int) else m)
      case None => None
    else
      match ParseMagnitude(t)
      case Some(m) => Some(m as int)
      case None => None
  }

  /** The decimal numeral of `n`, as `String(n)` writes it. */
  function Decimal(n: int): (s: string)
    ensures s != []
  {
    if n < 0 then "-" + Natural(-n) else Natural(n)
  }

  function Natural(n: nat): (s: string)
    ensures s != [] && forall k :: 0 <= k < |s| ==> '0' <= s[k] <= '9'
  {
    if n < 10 then [('0' as int + n) as char] else Natural(n / 10) + [('0' as int + n % 10) as char]
  }

  lemma {:induction false} NaturalValue(n: nat)
    ensures DigitRun(Natural(n), 10) == |Natural(n)|
    ensures DigitsValue(Natural(n), 10) == n
  {
    var s := Natural(n);
    if n >= 10 {
      NaturalValue(n / 10);
      assert s[..|s| - 1] == Natural(n / 10);
    }
    AllDigitsRun(s, 10);
  }

  lemma {:induction false} AllDigitsRun(s: string, radix: nat)
    requires forall k :: 0 <= k < |s| ==> IsDigit(s[k], radix)
    ensures DigitRun(s, radix) == |s|
  {
    if s != [] {
      AllDigitsRun(s[1..], radix);
    }
  }

  /** Leading whitespace is skipped up to the first other character. */
  lemma {:induction false} TrimStartWhitespace(w: string, s: string)
    requires AllWhitespace(w)
    requires s == [] || !IsWhitespace(s[0])
    ensures TrimStart(w + s) == s
  {
    if w == [] {
      assert w + s == s;
    } else {
      assert (w + s)[0] == w[0] && IsWhitespace(w[0]);
      assert (w + s)[1..] == w[1..] + s;
      TrimStartWhitespace(w[1..], s);
    }
  }

  /** The digit run of a numeral followed by a non-digit is the numeral. */
  lemma {:induction false} DigitRunPrefix(d: string, t: string, radix: nat)
    requires forall c :: c in d ==> IsDigit(c, radix)
    requires t == [] || !IsDigit(t[0], radix)
    ensures DigitRun(d + t, radix) == |d|
  {
    if d == [] {
      assert d + t == t;
    } else {
      assert (d + t)[0] == d[0];
      assert (d + t)[1..] == d[1..] + t;
      assert d[0] in d;
      assert forall c :: c in d[1..] ==> c in d;
      DigitRunPrefix(d[1..], t, radix);
    }
  }

  /** Reading stops at the first character that is not a digit. */
  lemma LeadingNumberPrefix(d: string, t: string, radix: nat)
    requires d != [] && forall c :: c in d ==> IsDigit(c, radix)
    requires t == [] || !IsDigit(t[0], radix)
    ensures LeadingNumber(d + t, radix) == Some(DigitsValue(d, radix))
  {
    DigitRunPrefix(d, t, radix);
    assert (d + t)[..|d|] == d;
  }

  /** Without a `0x`/`0X` prefix the magnitude is read in base 10. */
  lemma ParseMagnitudeDecimal(u: string)
    requires !(|u| >= 2 && u[0] == '0' && (u[1] == 'x' || u[1] == 'X'))
    ensures ParseMagnitude(u) == LeadingNumber(u, 10)
  {
  }

  /** After a `0x`/`0X` prefix the magnitude is read in base 16. */
  lemma ParseMagnitudeHex(x: char, v: string)
    requires x == 'x' || x == 'X'
    ensures ParseMagnitude(['0', x] + v) == LeadingNumber(v, 16)
  {
    assert (['0', x] + v)[2..] == v;
  }

  /** A decimal numeral followed by anything but a digit or an `x` is read as its value. */
  lemma NaturalPrefix(m: nat, t: string)
    requires t == [] || (!IsDigit(t[0], 10) && t[0] != 'x' && t[0] != 'X')
    ensures ParseMagnitude(Natural(m) + t) == Some(m)
  {
    var d := Natural(m);
    var u := d + t;
    NaturalNotHex(m, t);
    NaturalLeading(m, t);
    ParseMagnitudeDecimal(u);
  }

  lemma NaturalLeading(m: nat, t: string)
    requires t == [] || !IsDigit(t[0], 10)
    ensures LeadingNumber(Natural(m) + t, 10) == Some(m)
  {
    var d := Natural(m);
    NaturalValue(m);
    NaturalDigits(m);
    LeadingNumberPrefix(d, t, 10);
  }

  lemma NaturalDigits(m: nat)
    ensures forall c :: c in Natural(m) ==> IsDigit(c, 10)
  {
  }

  lemma NaturalNotHex(m: nat, t: string)
    requires t == [] || (!IsDigit(t[0], 10) && t[0] != 'x' && t[0] != 'X')
    ensures var u := Natural(m) + t; !(|u| >= 2 && u[0] == '0' && (u[1] == 'x' || u[1] == 'X'))
  {
    var d := Natural(m);
    var u := d + t;
    if |d| >= 2 {
      assert u[1] == d[1];
    } else if t != [] {
      assert u[1] == t[0];
    }
  }

  /** A `-` in front negates the magnitude; a `+` or no sign leaves it as it is. */
  lemma ParseSignedMagnitude(sign: string, u: string, v: nat)
    requires sign == "" || sign == "-" || sign == "+"
    requires u != [] && '0' <= u[0] <= '9'
    requires ParseMagnitude(u) == Some(v)
    ensures ParseSigned(sign + u) == Some(if sign == "-" then -(v as int) else v)
  {
    if sign == "" {
      assert sign + u == u;
    } else {
      assert (sign + u)[1..] == u;
    }
  }

  /** Leading whitespace does not change what `parseInt` reads. */
  lemma ParseIntAfterWhitespace(w: string, u: string)
    requires AllWhitespace(w)
    requires u != [] && (u[0] == '-' || u[0] == '+' || '0' <= u[0] <= '9')
    ensures ParseInt(w + u) == ParseSigned(u)
  {
    NumeralNotWhitespace(u[0]);
    TrimStartWhitespace(w, u);
  }

  /** After whitespace and an optional sign, `parseInt` reads the magnitude that follows. */
  lemma ParseIntSigned(w: string, sign: string, u: string, v: nat)
    requires AllWhitespace(w)
    requires sign == "" || sign == "-" || sign == "+"
    requires u != [] && '0' <= u[0] <= '9'
    requires ParseMagnitude(u) == Some(v)
    ensures ParseInt(w + (sign + u)) == Some(if sign == "-" then -(v as int) else v)
  {
    ParseSignedMagnitude(sign, u, v);
    assert (sign + u)[0] == if sign == "" then u[0] else sign[0];
    ParseIntAfterWhitespace(w, sign + u);
  }

  /**
   * `parseInt` skips leading whitespace, reads an optional sign and the decimal
   * digits after it, and ignores whatever follows the last digit.
   */
  lemma ParseIntNumeral(w: string, n: int, t: string)
    requires AllWhitespace(w)
    requires t == [] || (!IsDigit(t[0], 10) && t[0] != 'x' && t[0] != 'X')
    ensures ParseInt(w + Decimal(n) + t) == Some(n)
  {
    var m: nat := if n < 0 then -n else n;
    var d := Natural(m);
    var sign := if n < 0 then "-" else "";
    assert ParseInt(w + (sign + (d + t))) == Some(n) by {
      NaturalPrefix(m, t);
      assert (d + t)[0] == d[0];
      ParseIntSigned(w, sign, d + t, m);
    }
    DecimalParts(w, n, t);
  }

  lemma DecimalParts(w: string, n: int, t: string)
    ensures w + Decimal(n) + t == w + ((if n < 0 then "-" else "") + (Natural(if n < 0 then -n else n) + t))
  {
  }

  /** `parseInt` reads back every integer's decimal numeral. */
  lemma ParseIntDecimal(n: int)
    ensures ParseInt(Decimal(n)) == Some(n)
  {
    ParseIntNumeral("", n, "");
    assert "" + Decimal(n) + "" == Decimal(n);
  }

  /** After a `0x` or `0X` prefix the digits are read in base 16, up to the first non-hex character. */
  lemma ParseIntHex(w: string, sign: string, x: char, h: string, t: string)
    requires AllWhitespace(w)
    requires sign == "" || sign == "-" || sign == "+"
    requires x == 'x' || x == 'X'
    requires h != [] && forall c :: c in h ==> IsDigit(c, 16)
    requires t == [] || !IsDigit(t[0], 16)
    ensures ParseInt(w + sign + ['0', x] + h + t) == Some(if sign == "-" then -(DigitsValue(h, 16) as int) else DigitsValue(h, 16))
  {
    var u := ['0', x] + (h + t);
    assert ParseInt(w + (sign + u)) == Some(if sign == "-" then -(DigitsValue(h, 16) as int) else DigitsValue(h, 16)) by {
      LeadingNumberPrefix(h, t, 16);
      ParseMagnitudeHex(x, h + t);
      ParseIntSigned(w, sign, u, DigitsValue(h, 16));
    }
    HexNumeralParts(w, sign, x, h, t);
  }

  lemma HexNumeralParts(w: string, sign: string, x: char, h: string, t: string)
    ensures w + sign + ['0', x] + h + t == w + (sign + (['0', x] + (h + t)))
  {
  }

  /** Without a digit after the whitespace and the sign, `parseInt` gives `NaN`. */
  lemma ParseIntNoDigits(w: string, sign: string, t: string)
    requires AllWhitespace(w)
    requires sign == "" || sign == "-" || sign == "+"
    requires t == [] || !IsDigit(t[0], 10)
    requires sign == "" && t != [] ==> !IsWhitespace(t[0]) && t[0] != '-' && t[0] != '+'
    ensures ParseInt(w + sign + t) == None
  {
    assert w + sign + t == w + (sign + t);
    TrimStartWhitespace(w, sign + t);
    if sign != "" {
      assert (sign + t)[1..] == t;
    } else {
      assert sign + t == t;
    }
  }

  /** Instances of the rules above: leading whitespace, trailing text and a minus sign. */
  lemma ParseIntDecimalExamples()
    ensures ParseInt(" 12abc") == Some(12)
    ensures ParseInt("-7") == Some(-7)
  {
    assert ParseInt(" 12abc") == Some(12) by {
      assert Decimal(12) == "12";
      ParseIntNumeral(" ", 12, "abc");
      assert " " + "12" + "abc" == " 12abc";
    }
    assert ParseInt("-7") == Some(-7) by {
      ParseIntDecimal(-7);
      assert Decimal(-7) == "-7";
    }
  }

  /** Instances of the rules above: hexadecimal, and a sign with no digit after it. */
  lemma ParseIntOtherExamples()
    ensures ParseInt("0x1A") == Some(26)
    ensures ParseInt("+ 5") == None
  {
    assert ParseInt("0x1A") == Some(26) by {
      ParseIntHex("", "", 'x', "1A", "");
      assert "" + "" + ['0', 'x'] + "1A" + "" == "0x1A";
      assert DigitsValue("1A", 16) == 26 by {
        assert "1A"[..1] == "1";
        assert "1"[..0] == "";
      }
    }
    assert ParseInt("+ 5") == None by {
      ParseIntNoDigits("", "+", " 5");
      assert "" + "+" + " 5" == "+ 5";
    }
  }

  lemma NumeralNotWhitespace(c: char)
    requires c == '-' || c == '+' || '0' <= c <= '9'
    ensures !IsWhitespace(c)
  {
  }

  // ----------------------------------------------------------- email pattern

  /** A character of the class `[^\s@]`. */
  predicate PatternChar(c: char) {
    !IsWhitespace(c) && c != '@'
  }

  /** Every character of `s` from `lo` up to, not including, `hi` is of the class `[^\s@]`. */
  predicate PatternRun(s: string, lo: nat, hi: nat)
    requires lo <= hi <= |s|
  {
    forall k :: lo <= k < hi ==> PatternChar(s[k])
  }

  /**
   * What it means for `s` to match `^[^\s@]+@[^\s@]+\.[^\s@]+$`: three non-empty
   * runs of `[^\s@]`, the first two separated by `@` and the last two by a dot.
   */
  ghost predicate MatchesEmailPattern(s: string) {
    exists at: nat, dot: nat :: EmailSplit(s, at, dot)
  }

  /** The `@` of a match is at `at` and the dot before its last run at `dot`. */
  predicate EmailSplit(s: string, at: nat, dot: nat) {
    0 < at && at + 1 < dot && dot + 1 < |s| && s[at] == '@' && s[dot] == '.'
    && PatternRun(s, 0, at) && PatternRun(s, at + 1, dot) && PatternRun(s, dot + 1, |s|)
  }

  /** The position of the first `c` in `s`. */
  function IndexOf(s: string, c: char): (i: nat)
    requires c in s
    ensures i < |s| && s[i] == c && c !in s[..i]
  {
    if s[0] == c then 0 else 1 + IndexOf(s[1..], c)
  }

  /**
   * The email check as a scan: a non-empty local part before the first `@`,
   * then a domain of at least three characters, all of the class `[^\s@]`,
   * with a dot that is neither its first nor its last character.
   */
  predicate ValidEmail(s: string) {
    '@' in s &&
    var at := IndexOf(s, '@');
    0 < at && at + 4 <= |s| && PatternRun(s, 0, at) && PatternRun(s, at + 1, |s|) && '.' in s[at + 2..|s| - 1]
  }

  /** Every string the scan accepts matches the regular expression. */
  lemma ValidEmailMatches(s: string)
    requires ValidEmail(s)
    ensures MatchesEmailPattern(s)
  {
    var at := IndexOf(s, '@');
    var j :| 0 <= j < |s[at + 2..|s| - 1]| && s[at + 2..|s| - 1][j] == '.';
    var dot := at + 2 + j;
    assert s[dot] == '.';
    assert EmailSplit(s, at, dot);
  }

  /** The first `@` is at `at` when no character before it is an `@`. */
  lemma IndexOfOnly(s: string, at: nat)
    requires at < |s| && s[at] == '@'
    requires PatternRun(s, 0, at)
    ensures IndexOf(s, '@') == at
  {
  }

  /** Every string the regular expression matches passes the scan. */
  lemma MatchesValidEmail(s: string)
    requires MatchesEmailPattern(s)
    ensures ValidEmail(s)
  {
    var at: nat, dot: nat :| EmailSplit(s, at, dot);
    IndexOfOnly(s, at);
    DomainRun(s, at, dot);
  }

  /** Two runs of `[^\s@]` joined by a dot make one run with that dot inside it. */
  lemma DomainRun(s: string, at: nat, dot: nat)
    requires at + 1 < dot && dot + 1 < |s| && s[dot] == '.'
    requires PatternRun(s, at + 1, dot) && PatternRun(s, dot + 1, |s|)
    ensures PatternRun(s, at + 1, |s|) && '.' in s[at + 2..|s| - 1]
  {
    assert PatternChar('.') by {
      assert '.' !in Whitespace;
    }
    assert s[at + 2..|s| - 1][dot - at - 2] == '.';
  }

  /** The scan accepts exactly the strings the regular expression matches. */
  lemma EmailCheckMatchesPattern(s: string)
    ensures ValidEmail(s) <==> MatchesEmailPattern(s)
  {
    if ValidEmail(s) {
      ValidEmailMatches(s);
    }
    if MatchesEmailPattern(s) {
      MatchesValidEmail(s);
    }
  }
}
