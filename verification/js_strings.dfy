/**
 * The JavaScript string operations the emulator relies on, over `string` (a sequence of
 * characters): `split` and `join` with a one-character separator, `startsWith`, the
 * whitespace test behind `trim`, and the global `parseInt` with no radix argument.
 */
module JsStrings {
  import opened Wrappers

  /** `s.startsWith(prefix)` */
  predicate StartsWith(s: string, prefix: string)
  {
    |prefix| <= |s| && s[..|prefix|] == prefix
  }

  /** Position of the first `c` in `s`, or `|s|` when there is none. */
  function IndexOf(s: string, c: char): (i: nat)
    ensures i <= |s|
    ensures i < |s| ==> s[i] == c
    ensures forall j :: 0 <= j < i ==> s[j] != c
  {
    if |s| == 0 || s[0] == c then 0 else 1 + IndexOf(s[1..], c)
  }

  /** `s.split(sep)`: the pieces between separators; at least one piece, none holding `sep`. */
  function Split(s: string, sep: char): (parts: seq<string>)
    ensures |parts| >= 1
    decreases |s|
  {
    var i := IndexOf(s, sep);
    if i == |s| then [s] else [s[..i]] + Split(s[i + 1..], sep)
  }

  /** No piece of a split holds the separator. */
  lemma {:induction false} SplitPiecesFree(s: string, sep: char)
    ensures forall k :: 0 <= k < |Split(s, sep)| ==> sep !in Split(s, sep)[k]
    decreases |s|
  {
    var i := IndexOf(s, sep);
    if i < |s| {
      SplitPiecesFree(s[i + 1..], sep);
    }
  }

  /** `parts.join(sep)` */
  function Join(parts: seq<string>, sep: char): string
  {
    if |parts| == 0 then ""
    else if |parts| == 1 then parts[0]
    else parts[0] + [sep] + Join(parts[1..], sep)
  }

  /** Joining one more piece appends the separator and the piece. */
  lemma {:induction false} JoinSnoc(parts: seq<string>, x: string, sep: char)
    requires |parts| >= 1
    ensures Join(parts + [x], sep) == Join(parts, sep) + [sep] + x
    decreases |parts|
  {
    if |parts| == 1 {
      assert (parts + [x])[1..] == [x];
    } else {
      assert (parts + [x])[1..] == parts[1..] + [x];
      JoinSnoc(parts[1..], x, sep);
    }
  }

  /** A common beginning keeps one text a prefix of another. */
  lemma StartsWithAfter(head: string, s: string, prefix: string)
    requires StartsWith(s, prefix)
    ensures StartsWith(head + s, head + prefix)
  {
    assert (head + s)[..|head + prefix|] == head + s[..|prefix|];
  }

  /** A character in none of the pieces, other than the separator, is not in their join. */
  lemma {:induction false} JoinAvoids(parts: seq<string>, sep: char, c: char)
    requires c != sep
    requires forall k :: 0 <= k < |parts| ==> c !in parts[k]
    ensures c !in Join(parts, sep)
    decreases |parts|
  {
    if |parts| > 1 {
      JoinAvoids(parts[1..], sep, c);
    }
  }

  /** Joining the pieces of a split gives back the original text. */
  lemma {:induction false} JoinSplit(s: string, sep: char)
    ensures Join(Split(s, sep), sep) == s
    decreases |s|
  {
    var i := IndexOf(s, sep);
    if i < |s| {
      var rest := Split(s[i + 1..], sep);
      var parts := [s[..i]] + rest;
      assert Split(s, sep) == parts;
      assert parts[0] == s[..i] && parts[1..] == rest;
      assert Join(parts, sep) == s[..i] + [sep] + Join(rest, sep);
      JoinSplit(s[i + 1..], sep);
      assert s == s[..i] + [sep] + s[i + 1..];
    }
  }

  lemma IndexOfAbsent(s: string, c: char)
    requires c !in s
    ensures IndexOf(s, c) == |s|
  {
  }

  lemma IndexOfAfter(a: string, c: char, b: string)
    requires c !in a
    ensures IndexOf(a + [c] + b, c) == |a|
  {
    var s := a + [c] + b;
    assert forall j :: 0 <= j < |a| ==> s[j] == a[j];
    assert s[|a|] == c;
  }

  /** Splitting a join of separator-free pieces gives back the pieces. */
  lemma {:induction false} SplitJoin(parts: seq<string>, sep: char)
    requires |parts| >= 1
    requires forall k :: 0 <= k < |parts| ==> sep !in parts[k]
    ensures Split(Join(parts, sep), sep) == parts
    decreases |parts|
  {
    if |parts| == 1 {
      IndexOfAbsent(parts[0], sep);
    } else {
      var rest := Join(parts[1..], sep);
      assert Split(Join(parts, sep), sep) == [parts[0]] + Split(rest, sep) by {
        SplitAfterFree(parts[0], sep, rest);
      }
      assert Split(rest, sep) == parts[1..] by {
        SplitJoin(parts[1..], sep);
      }
      assert parts == [parts[0]] + parts[1..];
    }
  }

  /** A split cuts at the first separator. */
  lemma SplitAt(s: string, sep: char, i: nat)
    requires i < |s| && s[i] == sep
    requires forall j :: 0 <= j < i ==> s[j] != sep
    ensures Split(s, sep) == [s[..i]] + Split(s[i + 1..], sep)
  {
    var k := IndexOf(s, sep);
    assert k == i;
  }

  /** A separator-free text followed by a separator is the first piece. */
  lemma SplitAfterFree(a: string, sep: char, b: string)
    requires sep !in a
    ensures Split(a + [sep] + b, sep) == [a] + Split(b, sep)
    ensures Split(a, sep) == [a]
  {
    var s := a + [sep] + b;
    assert forall j :: 0 <= j < |a| ==> s[j] == a[j];
    SplitAt(s, sep, |a|);
    assert s[..|a|] == a;
    assert s[|a| + 1..] == b;
    IndexOfAbsent(a, sep);
  }

  /** An inner separator before the appended one is cut first. */
  lemma SplitBeforeAppend(a: string, sep: char, b: string, i: nat)
    requires i < |a| && a[i] == sep
    requires forall j :: 0 <= j < i ==> a[j] != sep
    ensures Split(a + [sep] + b, sep) == [a[..i]] + Split(a[i + 1..] + [sep] + b, sep)
    ensures Split(a, sep) == [a[..i]] + Split(a[i + 1..], sep)
  {
    var s := a + [sep] + b;
    assert forall j :: 0 <= j <= i ==> s[j] == a[j];
    SplitAt(s, sep, i);
    SplitAt(a, sep, i);
    assert s[..i] == a[..i];
    assert s[i + 1..] == a[i + 1..] + [sep] + b;
  }

  /** Splitting at an inner separator splits the two sides independently. */
  lemma {:induction false} SplitAppend(a: string, sep: char, b: string)
    ensures Split(a + [sep] + b, sep) == Split(a, sep) + Split(b, sep)
    decreases |a|
  {
    var i := IndexOf(a, sep);
    if i == |a| {
      SplitAfterFree(a, sep, b);
    } else {
      SplitBeforeAppend(a, sep, b, i);
      SplitAppend(a[i + 1..], sep, b);
    }
  }

  /** Number of occurrences of `c` in `s`. */
  function Count(s: string, c: char): nat
  {
    if |s| == 0 then 0 else (if s[0] == c then 1 else 0) + Count(s[1..], c)
  }

  /** `s.split(sep)` has one more piece than `s` has separators. */
  lemma {:induction false} SplitLength(s: string, sep: char)
    ensures |Split(s, sep)| == Count(s, sep) + 1
    decreases |s|
  {
    var i := IndexOf(s, sep);
    if i == |s| {
      CountAbsent(s, sep);
    } else {
      SplitLength(s[i + 1..], sep);
      CountSplit(s, i, sep);
    }
  }

  lemma {:induction false} CountAbsent(s: string, c: char)
    requires forall j :: 0 <= j < |s| ==> s[j] != c
    ensures Count(s, c) == 0
    decreases |s|
  {
    if |s| > 0 { CountAbsent(s[1..], c); }
  }

  lemma {:induction false} CountSplit(s: string, i: nat, c: char)
    requires i < |s| && s[i] == c
    requires forall j :: 0 <= j < i ==> s[j] != c
    ensures Count(s, c) == 1 + Count(s[i + 1..], c)
    decreases i
  {
    if i > 0 {
      CountSplit(s[1..], i - 1, c);
      assert s[1..][i..] == s[i + 1..];
    }
  }

  // ---------------------------------------------------------------------------
  // Whitespace and parseInt
  // ---------------------------------------------------------------------------

  /** The characters `String.prototype.trim` and `parseInt` treat as white space or line ends. */
  predicate IsJsWhitespace(c: char)
  {
    c == ' ' || c == '\t' || c == '\n' || c == '\r' || c == '\U{B}' || c == '\U{C}'
    || c == '\U{A0}' || c == '\U{1680}' || ('\U{2000}' <= c <= '\U{200A}')
    || c == '\U{2028}' || c == '\U{2029}' || c == '\U{202F}' || c == '\U{205F}'
    || c == '\U{3000}' || c == '\U{FEFF}'
  }

  /** `!line || line.trim() === ''`: the text is empty or white space only. */
  predicate IsBlank(line: string)
  {
    forall j :: 0 <= j < |line| ==> IsJsWhitespace(line[j])
  }

  /** `s` with its leading white space removed. */
  function TrimStart(s: string): string
  {
    if |s| > 0 && IsJsWhitespace(s[0]) then TrimStart(s[1..]) else s
  }

  predicate IsDecimalDigit(c: char)
  {
    '0' <= c <= '9'
  }

  predicate IsHexDigit(c: char)
  {
    IsDecimalDigit(c) || 'a' <= c <= 'f' || 'A' <= c <= 'F'
  }

  predicate IsDigitIn(c: char, hex: bool)
  {
    if hex then IsHexDigit(c) else IsDecimalDigit(c)
  }

  function DigitValue(c: char): (d: nat)
    requires IsHexDigit(c)
    ensures d < 16
    ensures IsDecimalDigit(c) ==> d < 10
  {
    if IsDecimalDigit(c) then c as int - '0' as int
    else if 'a' <= c <= 'f' then c as int - 'a' as int + 10
    else c as int - 'A' as int + 10
  }

  /** Length of the longest run of digits (decimal, or hexadecimal when `hex`) that starts `s`. */
  function DigitSpan(s: string, hex: bool): (n: nat)
    ensures n <= |s|
    ensures forall j :: 0 <= j < n ==> IsDigitIn(s[j], hex)
    ensures n < |s| ==> !IsDigitIn(s[n], hex)
  {
    if |s| > 0 && IsDigitIn(s[0], hex) then 1 + DigitSpan(s[1..], hex) else 0
  }

  /** The number a run of digits denotes in base 16 (when `hex`) or 10, most significant digit first. */
  function DigitsValue(ds: string, hex: bool): nat
    requires forall j :: 0 <= j < |ds| ==> IsHexDigit(ds[j])
  {
    if |ds| == 0 then 0
    else if hex then DigitsValue(ds[..|ds| - 1], hex) * 16 + DigitValue(ds[|ds| - 1])
    else DigitsValue(ds[..|ds| - 1], hex) * 10 + DigitValue(ds[|ds| - 1])
  }

  /**
   * The global `parseInt(s)` with no radix: leading white space is skipped, one optional sign
   * is read, a `0x`/`0X` prefix switches to base 16, and the longest run of digits that follows
   * is the value; without any digit the result is NaN (here `None`). Whatever follows the digits
   * is ignored.
   */
  function ParseInt(s: string): Option<int>
  {
    var t := TrimStart(s);
    if |t| > 0 && t[0] == '-' then
      match ParseUnsigned(t[1..])
      case Some(v) => Some(-v)
      case None => None
    else if |t| > 0 && t[0] == '+' then ParseUnsigned(t[1..])
    else ParseUnsigned(t)
  }

  /** The unsigned part of parseInt: an optional `0x`/`0X` prefix, then the leading digits. */
  function ParseUnsigned(u: string): Option<int>
  {
    var hex := |u| >= 2 && u[0] == '0' && (u[1] == 'x' || u[1] == 'X');
    var body := if hex then u[2..] else u;
    var n := DigitSpan(body, hex);
    if n == 0 then None else Some(DigitsValue(body[..n], hex))
  }

  function DecimalDigitChar(d: nat): (c: char)
    requires d < 10
    ensures IsDecimalDigit(c) && DigitValue(c) == d
  {
    ('0' as int + d) as char
  }

  /** The decimal numeral of `n`, without leading zeros. */
  function ToDecimal(n: nat): (s: string)
    ensures |s| >= 1
    ensures forall j :: 0 <= j < |s| ==> IsDecimalDigit(s[j])
    ensures |s| > 1 ==> s[0] != '0'
    decreases n
  {
    if n < 10 then [DecimalDigitChar(n)] else ToDecimal(n / 10) + [DecimalDigitChar(n % 10)]
  }

  lemma {:induction false} ToDecimalValue(n: nat)
    ensures DigitsValue(ToDecimal(n), false) == n
    decreases n
  {
    if n >= 10 {
      ToDecimalValue(n / 10);
      var s := ToDecimal(n);
      assert s[..|s| - 1] == ToDecimal(n / 10);
    }
  }

  lemma DigitSpanOfDigits(ds: string, tail: string)
    requires forall j :: 0 <= j < |ds| ==> IsDecimalDigit(ds[j])
    requires tail == [] || !IsDecimalDigit(tail[0])
    ensures DigitSpan(ds + tail, false) == |ds|
  {
    var s := ds + tail;
    var d := DigitSpan(s, false);
    assert forall j :: 0 <= j < |ds| ==> s[j] == ds[j];
    assert |tail| > 0 ==> s[|ds|] == tail[0];
  }

  /** parseInt's unsigned part reads a decimal numeral followed by non-digit text. */
  lemma ParseUnsignedDecimal(n: nat, tail: string)
    requires tail == [] || (!IsDecimalDigit(tail[0]) && tail[0] != 'x' && tail[0] != 'X')
    ensures ParseUnsigned(ToDecimal(n) + tail) == Some(n)
  {
    var ds := ToDecimal(n);
    var u := ds + tail;
    assert u[0] == ds[0];
    if |ds| > 1 {
      assert u[1] == ds[1];
    } else if |u| >= 2 {
      assert u[1] == tail[0];
    }
    DigitSpanOfDigits(ds, tail);
    assert u[..|ds|] == ds;
    ToDecimalValue(n);
  }

  lemma TrimStartNoSpace(s: string)
    requires |s| > 0 && !IsJsWhitespace(s[0])
    ensures TrimStart(s) == s
  {
  }

  /**
   * parseInt reads back a decimal numeral and ignores whatever non-digit text follows it
   * (so `"12abc"` gives 12), unless that text turns a lone `0` into a `0x` prefix.
   */
  lemma ParseIntDecimal(n: nat, tail: string)
    requires tail == [] || (!IsDecimalDigit(tail[0]) && tail[0] != 'x' && tail[0] != 'X')
    ensures ParseInt(ToDecimal(n) + tail) == Some(n as int)
  {
    var u := ToDecimal(n) + tail;
    ParseUnsignedDecimal(n, tail);
    assert IsDecimalDigit(u[0]);
    ParseIntPlain(u);
  }

  /** The same with a leading minus sign: negative times are read too. */
  lemma ParseIntNegativeDecimal(n: nat, tail: string)
    requires tail == [] || (!IsDecimalDigit(tail[0]) && tail[0] != 'x' && tail[0] != 'X')
    ensures ParseInt("-" + ToDecimal(n) + tail) == Some(-(n as int))
  {
    var u := ToDecimal(n) + tail;
    assert "-" + ToDecimal(n) + tail == ['-'] + u;
    ParseUnsignedDecimal(n, tail);
    ParseIntMinus(u, n);
  }

  lemma ParseIntMinus(u: string, v: nat)
    requires ParseUnsigned(u) == Some(v)
    ensures ParseInt(['-'] + u) == Some(-(v as int))
  {
    var s := ['-'] + u;
    assert !IsJsWhitespace(s[0]);
    assert TrimStart(s) == s;
    assert s[1..] == u;
  }

  lemma ParseIntPlain(u: string)
    requires |u| > 0 && IsDecimalDigit(u[0])
    ensures ParseInt(u) == ParseUnsigned(u)
  {
    assert !IsJsWhitespace(u[0]);
    assert TrimStart(u) == u;
  }
}
