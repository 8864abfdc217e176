/** The JavaScript string built-ins that the event display relies on, on Dafny
    strings: `trim`, `split` on one separator, `Number` on integer text,
    template-literal rendering of a non-negative integer, and `padStart`. */
module Strings {
  import opened Options

  // ---------------------------------------------------------------- trim

  /** The white space that `String.prototype.trim` removes: tab, the line
      terminators, vertical tab, form feed, the byte-order mark and every
      Unicode space separator. */
  predicate IsWhiteSpace(c: char) {
    c == ' ' || c == '\t' || c == '\n' || c == '\r' || c == '\U{B}' || c == '\U{C}'
    || c == '\U{A0}' || c == '\U{FEFF}' || c == '\U{2028}' || c == '\U{2029}'
    || c == '\U{1680}' || ('\U{2000}' <= c <= '\U{200A}') || c == '\U{202F}' || c == '\U{205F}'
    || c == '\U{3000}'
  }

  predicate Blank(s: string) {
    forall i :: 0 <= i < |s| ==> IsWhiteSpace(s[i])
  }

  function TrimStart(s: string): string
    decreases |s|
  {
    if s != [] && IsWhiteSpace(s[0]) then TrimStart(s[1..]) else s
  }

  function TrimEnd(s: string): string
    decreases |s|
  {
    if s != [] && IsWhiteSpace(s[|s| - 1]) then TrimEnd(s[..|s| - 1]) else s
  }

  /** `s.trim()` */
  function Trim(s: string): string {
    TrimEnd(TrimStart(s))
  }

  /** Removing leading white space leaves a blank string exactly when the
      string was blank. */
  lemma {:induction false} TrimStartBlank(s: string)
    ensures Blank(TrimStart(s)) <==> Blank(s)
    decreases |s|
  {
    if s != [] && IsWhiteSpace(s[0]) {
      TrimStartBlank(s[1..]);
      assert forall i :: 0 < i < |s| ==> s[i] == s[1..][i - 1];
    }
  }

  /** Removing trailing white space empties exactly the blank strings. */
  lemma {:induction false} TrimEndEmpty(s: string)
    ensures TrimEnd(s) == [] <==> Blank(s)
    decreases |s|
  {
    if s != [] && IsWhiteSpace(s[|s| - 1]) {
      TrimEndEmpty(s[..|s| - 1]);
      assert forall i :: 0 <= i < |s| - 1 ==> s[i] == s[..|s| - 1][i];
    }
  }

  /** A string trims to the empty string exactly when it is all white space. */
  lemma TrimEmptyIffBlank(s: string)
    ensures Trim(s) == [] <==> Blank(s)
  {
    TrimStartBlank(s);
    TrimEndEmpty(TrimStart(s));
  }

  /** Trimming leaves a string with no white space at either end unchanged. */
  lemma TrimUnchanged(s: string)
    requires s != [] ==> !IsWhiteSpace(s[0]) && !IsWhiteSpace(s[|s| - 1])
    ensures Trim(s) == s
  {
  }

  // ---------------------------------------------------------------- split

  /** Occurrences of `c` in `s`. */
  function Count(s: string, c: char): nat {
    if s == [] then 0 else (if s[0] == c then 1 else 0) + Count(s[1..], c)
  }

  /** `s.split(sep)` for a one-character separator: the pieces between the
      separators, including empty ones; the empty string gives `[""]`. */
  function Split(s: string, sep: char): (parts: seq<string>)
    ensures |parts| >= 1
  {
    if s == [] then [""]
    else
      var rest := Split(s[1..], sep);
      if s[0] == sep then [""] + rest
      else [[s[0]] + rest[0]] + rest[1..]
  }

  /** `parts.join(sep)`, the inverse of `Split`. */
  function Join(parts: seq<string>, sep: char): string
    requires |parts| >= 1
  {
    if |parts| == 1 then parts[0] else parts[0] + [sep] + Join(parts[1..], sep)
  }

  /** Splitting yields one more piece than there are separators. */
  lemma {:induction false} SplitCount(s: string, sep: char)
    ensures |Split(s, sep)| == Count(s, sep) + 1
  {
    if s != [] {
      SplitCount(s[1..], sep);
    }
  }

  /** No piece of a split contains the separator. */
  lemma {:induction false} SplitPiecesFree(s: string, sep: char)
    ensures forall p :: p in Split(s, sep) ==> sep !in p
  {
    if s != [] {
      SplitPiecesFree(s[1..], sep);
      var rest := Split(s[1..], sep);
      if s[0] != sep {
        assert rest[0] in rest;
        forall p | p in rest[1..] ensures p in rest { }
      }
    }
  }

  /** Joining the pieces of a split gives back the string. */
  lemma {:induction false} JoinSplit(s: string, sep: char)
    ensures Join(Split(s, sep), sep) == s
  {
    if s != [] {
      JoinSplit(s[1..], sep);
      var rest := Split(s[1..], sep);
      if s[0] == sep {
        assert ([""] + rest)[1..] == rest;
      } else if |rest| > 1 {
        var parts := [[s[0]] + rest[0]] + rest[1..];
        assert parts[1..] == rest[1..];
        assert s == [s[0]] + s[1..];
      } else {
        assert s == [s[0]] + s[1..];
      }
    }
  }

  lemma {:induction false} SplitFreePrefix(p: string, rest: string, sep: char)
    requires sep !in p
    ensures Split(p + rest, sep) == [p + Split(rest, sep)[0]] + Split(rest, sep)[1..]
  {
    if p != [] {
      SplitFreePrefix(p[1..], rest, sep);
      var S := Split(rest, sep);
      var R := Split(p[1..] + rest, sep);
      assert (p + rest)[1..] == p[1..] + rest;
      assert p[0] in p;
      assert R[0] == p[1..] + S[0];
      assert R[1..] == S[1..];
      assert p + rest != [] && (p + rest)[0] == p[0] != sep;
      assert Split(p + rest, sep) == [[p[0]] + R[0]] + R[1..];
      assert [p[0]] + R[0] == p + S[0] by {
        assert p == [p[0]] + p[1..];
      }
    } else {
      var S := Split(rest, sep);
      assert p + rest == rest;
      assert p + S[0] == S[0];
      assert S == [S[0]] + S[1..];
    }
  }

  /** Splitting a join of separator-free pieces gives back the pieces. */
  lemma {:induction false} SplitJoin(parts: seq<string>, sep: char)
    requires |parts| >= 1
    requires forall p :: p in parts ==> sep !in p
    ensures Split(Join(parts, sep), sep) == parts
  {
    assert parts[0] in parts;
    if |parts| == 1 {
      SplitFreePrefix(parts[0], [], sep);
      assert parts[0] + [] == parts[0];
      assert Split([], sep) == [""];
    } else {
      forall p | p in parts[1..] ensures sep !in p {
        assert p in parts;
      }
      SplitJoin(parts[1..], sep);
      var tail := [sep] + Join(parts[1..], sep);
      SplitFreePrefix(parts[0], tail, sep);
      assert tail[1..] == Join(parts[1..], sep);
      assert Split(tail, sep) == [""] + parts[1..];
      assert Join(parts, sep) == parts[0] + tail;
      assert parts[0] + "" == parts[0];
      assert parts == [parts[0]] + parts[1..];
    }
  }

  // ---------------------------------------------------------------- numbers

  predicate IsDigit(c: char) {
    '0' <= c <= '9'
  }

  predicate AllDigits(s: string) {
    forall i :: 0 <= i < |s| ==> IsDigit(s[i])
  }

  function DigitChar(d: nat): (c: char)
    requires d < 10
    ensures IsDigit(c) && c as int - '0' as int == d
  {
    ('0' as int + d) as char
  }

  /** The value of a run of decimal digits (leading zeros allowed). */
  function DigitsValue(s: string): nat
    requires AllDigits(s)
  {
    if s == [] then 0 else DigitsValue(s[..|s| - 1]) * 10 + (s[|s| - 1] as int - '0' as int)
  }

  /** `${n}` for a non-negative integer: its shortest decimal representation. */
  function Decimal(n: nat): (r: string)
    ensures |r| >= 1 && AllDigits(r)
    ensures |r| > 1 ==> r[0] != '0'
  {
    if n < 10 then [DigitChar(n)] else Decimal(n / 10) + [DigitChar(n % 10)]
  }

  /** Reading back the decimal text of a number gives the number. */
  lemma {:induction false} DecimalValue(n: nat)
    ensures DigitsValue(Decimal(n)) == n
  {
    var r := Decimal(n);
    if n < 10 {
      assert r[..0] == [];
    } else {
      DecimalValue(n / 10);
      assert r[..|r| - 1] == Decimal(n / 10);
    }
  }

  /** `c` repeated `k` times. */
  function Repeat(c: char, k: nat): (r: string)
    ensures |r| == k && forall i :: 0 <= i < k ==> r[i] == c
  {
    if k == 0 then [] else [c] + Repeat(c, k - 1)
  }

  /** `s.padStart(width, fill)` for a one-character fill. */
  function PadStart(s: string, width: nat, fill: char): (r: string)
    ensures |r| == if |s| >= width then |s| else width
    ensures r[|r| - |s|..] == s
    ensures forall i :: 0 <= i < |r| - |s| ==> r[i] == fill
  {
    if |s| >= width then s else Repeat(fill, width - |s|) + s
  }

  /** Zero-padding decimal text keeps it a non-empty run of digits. */
  lemma PaddedDecimalDigits(n: nat, width: nat)
    ensures var p := PadStart(Decimal(n), width, '0'); p != [] && AllDigits(p)
  {
  }

  /** Leading zeros do not change the value of a run of digits. */
  lemma {:induction false} LeadingZerosValue(k: nat, s: string)
    requires AllDigits(s)
    ensures AllDigits(Repeat('0', k) + s)
    ensures DigitsValue(Repeat('0', k) + s) == DigitsValue(s)
    decreases |s|, k
  {
    var z := Repeat('0', k);
    if s == [] {
      assert z + s == z;
      ZerosValue(k);
    } else {
      LeadingZerosValue(k, s[..|s| - 1]);
      assert (z + s)[..|z + s| - 1] == z + s[..|s| - 1];
    }
  }

  lemma {:induction false} ZerosValue(k: nat)
    ensures DigitsValue(Repeat('0', k)) == 0
  {
    if k > 0 {
      ZerosValue(k - 1);
      var z := Repeat('0', k);
      assert z[..k - 1] == Repeat('0', k - 1);
    }
  }

  /** `Number(s)` on the strings this model distinguishes: surrounding white
      space is ignored, a blank string is 0, an optionally signed run of
      decimal digits is its value, and anything else is NaN (`None`). */
  function ToNumber(s: string): (r: Option<int>)
    ensures Blank(s) ==> r == Some(0)
  {
    var t := Trim(s);
    TrimEmptyIffBlank(s);
    if t == [] then Some(0)
    else if AllDigits(t) then Some(DigitsValue(t))
    else if |t| >= 2 && (t[0] == '+' || t[0] == '-') && AllDigits(t[1..]) then
      Some(if t[0] == '-' then -(DigitsValue(t[1..]) as int) else DigitsValue(t[1..]))
    else None
  }

  /** `Number` reads back a zero-padded decimal rendering of `n` as `n`. */
  lemma {:induction false} PaddedDecimalToNumber(n: nat, width: nat)
    ensures ToNumber(PadStart(Decimal(n), width, '0')) == Some(n)
  {
    var d := Decimal(n);
    var p := PadStart(d, width, '0');
    DecimalValue(n);
    if |d| < width {
      LeadingZerosValue(width - |d|, d);
      assert p == Repeat('0', width - |d|) + d;
    }
    assert AllDigits(p) && DigitsValue(p) == n;
    assert p != [] && IsDigit(p[0]) && IsDigit(p[|p| - 1]);
    TrimUnchanged(p);
  }

  // ------------------------------------------------------- fixed-width digits

  function Pow10(w: nat): (p: nat)
    ensures p >= 1
  {
    if w == 0 then 1 else 10 * Pow10(w - 1)
  }

  /** The last `width` decimal digits of `n`, zero-padded. */
  function Digits(n: nat, width: nat): (r: string)
    ensures |r| == width && AllDigits(r)
  {
    if width == 0 then [] else Digits(n / 10, width - 1) + [DigitChar(n % 10)]
  }

  /** The shortest decimal rendering of an integer with exactly `w` digits is
      its `w`-digit fixed-width rendering. */
  lemma {:induction false} DecimalIsDigits(n: nat, w: nat)
    requires 1 <= w && Pow10(w - 1) <= n < Pow10(w)
    ensures Decimal(n) == Digits(n, w)
  {
    if w == 1 {
      assert Digits(n / 10, 0) == [];
    } else {
      DecimalIsDigits(n / 10, w - 1);
    }
  }

  /** Zero-padding a one- or two-digit number to width 2 gives its
      2-digit fixed-width rendering. */
  lemma PaddedTwoDigits(n: nat)
    requires n < 100
    ensures PadStart(Decimal(n), 2, '0') == Digits(n, 2)
  {
    if n < 10 {
      assert Digits(n, 2) == Digits(0, 1) + [DigitChar(n)];
      assert Digits(0, 1) == Digits(0, 0) + [DigitChar(0)];
    } else {
      DecimalIsDigits(n, 2);
    }
  }
}
