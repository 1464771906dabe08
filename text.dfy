/**
 * The JavaScript string operations the bot relies on: `startsWith`,
 * `substring`, `split` and `join` with a one-character separator, reading an
 * array element that may be past the end, and `parseInt` without a radix.
 */
module Text {

  /** A value that may be `undefined` (or `NaN`, for a parsed number). */
  datatype Option<T> = None | Some(value: T)

  /** `s.startsWith(prefix)`. */
  predicate StartsWith(s: string, prefix: string)
  {
    |prefix| <= |s| && s[..|prefix|] == prefix
  }

  /** `xs[i]` in JavaScript: reading past the end gives `undefined`. */
  function At(xs: seq<string>, i: nat): Option<string>
  {
    if i < |xs| then Some(xs[i]) else None
  }

  /**
   * `s.split(sep)` for a one-character separator: every separator closes a
   * token, so two separators in a row give an empty token, and the result
   * always holds at least one token.
   */
  function Split(s: string, sep: char): (parts: seq<string>)
    ensures |parts| >= 1
    ensures forall k :: 0 <= k < |parts| ==> sep !in parts[k]
  {
    if s == [] then [""]
    else
      var rest := Split(s[1..], sep);
      if s[0] == sep then [""] + rest
      else [[s[0]] + rest[0]] + rest[1..]
  }

  /** `parts.join(sep)`: the parts with one separator between neighbours. */
  function Join(parts: seq<string>, sep: char): string
  {
    if |parts| == 0 then ""
    else if |parts| == 1 then parts[0]
    else parts[0] + [sep] + Join(parts[1..], sep)
  }

  /** Joining the tokens of a split gives back the original text. */
  lemma {:induction false} JoinSplit(s: string, sep: char)
    ensures Join(Split(s, sep), sep) == s
  {
    if s == [] {
    } else {
      var rest := Split(s[1..], sep);
      JoinSplit(s[1..], sep);
      if s[0] == sep {
        assert Split(s, sep) == [""] + rest;
        assert ([""] + rest)[1..] == rest;
        assert Join([""] + rest, sep) == "" + [sep] + Join(rest, sep);
      } else {
        var parts := [[s[0]] + rest[0]] + rest[1..];
        assert Split(s, sep) == parts;
        if |rest| == 1 {
          assert Join(rest, sep) == rest[0];
          assert parts == [[s[0]] + rest[0]];
        } else {
          assert parts[1..] == rest[1..];
          assert Join(rest, sep) == rest[0] + [sep] + Join(rest[1..], sep);
          assert Join(parts, sep) == [s[0]] + rest[0] + [sep] + Join(rest[1..], sep);
        }
        assert s == [s[0]] + s[1..];
      }
    }
  }

  /** A text without the separator splits into itself alone, in front of whatever follows. */
  lemma {:induction false} SplitWord(w: string, t: string, sep: char)
    requires sep !in w
    ensures Split(w + t, sep) == [w + Split(t, sep)[0]] + Split(t, sep)[1..]
  {
    if w == [] {
      assert w + t == t;
      assert w + Split(t, sep)[0] == Split(t, sep)[0];
    } else {
      var u := w + t;
      assert u[0] == w[0] && u[1..] == w[1..] + t;
      SplitWord(w[1..], t, sep);
      var rest := Split(u[1..], sep);
      assert rest == [w[1..] + Split(t, sep)[0]] + Split(t, sep)[1..];
      assert Split(u, sep) == [[w[0]] + rest[0]] + rest[1..];
      assert [w[0]] + rest[0] == w + Split(t, sep)[0];
    }
  }

  /** Splitting a join of separator-free parts gives back the parts. */
  lemma {:induction false} SplitJoin(parts: seq<string>, sep: char)
    requires |parts| >= 1
    requires forall k :: 0 <= k < |parts| ==> sep !in parts[k]
    ensures Split(Join(parts, sep), sep) == parts
  {
    if |parts| == 1 {
      SplitWord(parts[0], "", sep);
      assert parts[0] + "" == parts[0];
    } else {
      var rest := Join(parts[1..], sep);
      SplitJoin(parts[1..], sep);
      assert Join(parts, sep) == parts[0] + ([sep] + rest);
      SplitWord(parts[0], [sep] + rest, sep);
      assert ([sep] + rest)[1..] == rest;
      assert Split([sep] + rest, sep) == [""] + parts[1..];
      assert parts[0] + "" == parts[0];
      assert parts == [parts[0]] + parts[1..];
    }
  }

  /** A split gives a single token exactly when the text holds no separator. */
  lemma {:induction false} SplitSingle(s: string, sep: char)
    ensures |Split(s, sep)| == 1 <==> sep !in s
  {
    if s != [] {
      SplitSingle(s[1..], sep);
      assert sep in s <==> s[0] == sep || sep in s[1..] by {
        assert s == [s[0]] + s[1..];
      }
    }
  }

  /**
   * The characters `parseInt` skips before the number: JavaScript's white
   * space (tab, vertical tab, form feed, space, no-break space, the byte order
   * mark and the Unicode space separators) and its line terminators.
   */
  predicate IsJsSpace(c: char)
  {
    c == '\t' || c == '\n' || c == '\U{000B}' || c == '\U{000C}' || c == '\r' || c == ' ' ||
    c == '\U{00A0}' || c == '\U{1680}' || ('\U{2000}' <= c <= '\U{200A}') ||
    c == '\U{2028}' || c == '\U{2029}' || c == '\U{202F}' || c == '\U{205F}' ||
    c == '\U{3000}' || c == '\U{FEFF}'
  }

  /** `s` without its leading white space. */
  function TrimStart(s: string): string
  {
    if s == [] || !IsJsSpace(s[0]) then s else TrimStart(s[1..])
  }

  /**
   * Trimming drops a run of white space from the front and nothing else, and
   * it drops all of it.
   */
  lemma {:induction false} TrimStartSpec(s: string)
    ensures var r := TrimStart(s);
      |r| <= |s| && r == s[|s| - |r|..] &&
      (forall k :: 0 <= k < |s| - |r| ==> IsJsSpace(s[k])) &&
      (r == [] || !IsJsSpace(r[0]))
  {
    if s != [] && IsJsSpace(s[0]) {
      var rest := s[1..];
      var r := TrimStart(rest);
      assert TrimStart(s) == r;
      TrimStartSpec(rest);
      assert rest[|rest| - |r|..] == s[|s| - |r|..];
      forall k | 0 <= k < |s| - |r|
        ensures IsJsSpace(s[k])
      {
        if k > 0 {
          assert s[k] == rest[k - 1];
        }
      }
    }
  }

  /** Leading white space makes no difference to what is left after trimming. */
  lemma {:induction false} TrimStartSpaces(w: string, t: string)
    requires forall k :: 0 <= k < |w| ==> IsJsSpace(w[k])
    ensures TrimStart(w + t) == TrimStart(t)
  {
    if w != [] {
      assert IsJsSpace((w + t)[0]) by { assert (w + t)[0] == w[0]; }
      assert TrimStart(w + t) == TrimStart((w + t)[1..]);
      assert (w + t)[1..] == w[1..] + t;
      TrimStartSpaces(w[1..], t);
    } else {
      assert w + t == t;
    }
  }

  /** A digit of base 16 when `hex`, of base 10 otherwise. */
  predicate IsDigit(c: char, hex: bool)
  {
    '0' <= c <= '9' || (hex && ('a' <= c <= 'f' || 'A' <= c <= 'F'))
  }

  /** The longest run of digits at the start of `s`. */
  function LeadingDigits(s: string, hex: bool): (d: string)
    ensures |d| <= |s| && d == s[..|d|]
    ensures forall k :: 0 <= k < |d| ==> IsDigit(d[k], hex)
    ensures |d| < |s| ==> !IsDigit(s[|d|], hex)
  {
    if s == [] || !IsDigit(s[0], hex) then ""
    else [s[0]] + LeadingDigits(s[1..], hex)
  }

  /** The value of one digit: below 16 for a hexadecimal digit, below 10 for a decimal one. */
  function DigitValue(c: char, hex: bool): (v: nat)
    requires IsDigit(c, hex)
    ensures v < (if hex then 16 else 10)
  {
    if '0' <= c <= '9' then c as int - '0' as int
    else if 'a' <= c <= 'f' then c as int - 'a' as int + 10
    else c as int - 'A' as int + 10
  }

  /** The number a string of digits stands for, read most significant digit first. */
  function DigitsValue(d: string, hex: bool): nat
    requires forall k :: 0 <= k < |d| ==> IsDigit(d[k], hex)
  {
    if d == [] then 0
    else (if hex then 16 else 10) * DigitsValue(d[..|d| - 1], hex) + DigitValue(d[|d| - 1], hex)
  }

  /** The text after an optional leading `+` or `-`. */
  function Unsigned(t: string): string
  {
    if |t| > 0 && (t[0] == '+' || t[0] == '-') then t[1..] else t
  }

  /** A text that starts with the `0x` or `0X` that makes `parseInt` read base 16. */
  predicate HasHexPrefix(u: string)
  {
    |u| >= 2 && u[0] == '0' && (u[1] == 'x' || u[1] == 'X')
  }

  /** Whether the digits after the sign are read in base 16. */
  function IsHexNumeral(trimmed: string): bool
  {
    HasHexPrefix(Unsigned(trimmed))
  }

  /** The digits `parseInt` reads from a text that starts after the white space. */
  function NumeralDigits(trimmed: string): (d: string)
    ensures forall k :: 0 <= k < |d| ==> IsDigit(d[k], IsHexNumeral(trimmed))
  {
    var u := Unsigned(trimmed);
    if HasHexPrefix(u) then LeadingDigits(u[2..], true) else LeadingDigits(u, false)
  }

  /** `parseInt` once the leading white space is gone. */
  function ParseNumeral(trimmed: string): (r: Option<int>)
    ensures r.Some? <==> NumeralDigits(trimmed) != ""
    ensures r.Some? && r.value < 0 ==> trimmed[0] == '-'
  {
    var digits := NumeralDigits(trimmed);
    if digits == "" then None
    else
      var magnitude: int := DigitsValue(digits, IsHexNumeral(trimmed));
      if |trimmed| > 0 && trimmed[0] == '-' then Some(-magnitude) else Some(magnitude)
  }

  /**
   * `parseInt(s)` without a radix. Leading white space is skipped, then an
   * optional sign; a `0x` or `0X` after it switches to base 16 and is dropped;
   * then the leading digits of that base are read and the rest is ignored.
   * `None` stands for `NaN`: no digit at all (`"0x"` alone included), and
   * `parseInt(undefined)`. JavaScript's `-0` is read as 0.
   */
  function ParseInt(s: Option<string>): (r: Option<int>)
    ensures s.None? ==> r.None?
    ensures s.Some? ==> (r.Some? <==> NumeralDigits(TrimStart(s.value)) != "")
    ensures r.Some? && r.value < 0 ==> |TrimStart(s.value)| > 0 && TrimStart(s.value)[0] == '-'
  {
    match s
    case None => None
    case Some(t) => ParseNumeral(TrimStart(t))
  }

  /** White space in front of a number does not change what `parseInt` reads. */
  lemma ParseIntSkipsSpace(w: string, t: string)
    requires forall k :: 0 <= k < |w| ==> IsJsSpace(w[k])
    ensures ParseInt(Some(w + t)) == ParseInt(Some(t))
  {
    TrimStartSpaces(w, t);
  }

  /** The decimal digit for `n < 10`. */
  function DigitChar(n: nat): char
    requires n < 10
  {
    ('0' as int + n) as char
  }

  /** The decimal rendering of a natural number, as `String(n)` writes it. */
  function ShowNat(n: nat): (s: string)
    ensures |s| >= 1
    ensures forall k :: 0 <= k < |s| ==> '0' <= s[k] <= '9'
  {
    if n < 10 then [DigitChar(n)] else ShowNat(n / 10) + [DigitChar(n % 10)]
  }

  /** The decimal rendering of an integer, with a `-` before negative ones. */
  function ShowInt(n: int): string
  {
    if n < 0 then "-" + ShowNat(-n) else ShowNat(n)
  }

  lemma {:induction false} DigitsValueShowNat(n: nat)
    ensures DigitsValue(ShowNat(n), false) == n
  {
    if n >= 10 {
      var s := ShowNat(n / 10) + [DigitChar(n % 10)];
      assert s[..|s| - 1] == ShowNat(n / 10);
      DigitsValueShowNat(n / 10);
    }
  }

  /** A string of digits is read whole. */
  lemma {:induction false} LeadingDigitsAll(d: string, hex: bool)
    requires forall k :: 0 <= k < |d| ==> IsDigit(d[k], hex)
    ensures LeadingDigits(d, hex) == d
  {
    if d != [] {
      LeadingDigitsAll(d[1..], hex);
    }
  }

  /** The decimal rendering of a natural number is read back whole and in base 10. */
  lemma ParseShowNat(m: nat)
    ensures ParseNumeral(ShowNat(m)) == Some(m as int)
  {
    var u := ShowNat(m);
    assert Unsigned(u) == u by { assert '0' <= u[0] <= '9'; }
    assert !HasHexPrefix(u) by {
      if |u| >= 2 { assert '0' <= u[1] <= '9'; }
    }
    LeadingDigitsAll(u, false);
    DigitsValueShowNat(m);
  }

  /** A `-` in front of an unsigned numeral negates what `parseInt` reads. */
  lemma ParseNegated(u: string)
    requires u != [] && u[0] != '+' && u[0] != '-'
    ensures ParseNumeral("-" + u) == match ParseNumeral(u) case None => None case Some(v) => Some(-v)
  {
    var t := "-" + u;
    assert Unsigned(t) == u && Unsigned(u) == u;
  }

  /** A text that starts with something other than white space is its own trim. */
  lemma TrimStartNone(t: string)
    requires t != [] && (t[0] == '-' || '0' <= t[0] <= '9')
    ensures TrimStart(t) == t
  {
    assert !IsJsSpace(t[0]);
  }

  /** A numeral that starts with a digit is read the same with or without a `-` in front, up to sign. */
  lemma ParseSigned(u: string, m: nat)
    requires u != [] && '0' <= u[0] <= '9' && ParseNumeral(u) == Some(m as int)
    ensures ParseInt(Some(u)) == Some(m as int)
    ensures ParseInt(Some("-" + u)) == Some(-(m as int))
  {
    TrimStartNone(u);
    TrimStartNone("-" + u);
    ParseNegated(u);
  }

  /** `parseInt` reads back every integer that `String` writes. */
  lemma ParseShowInt(n: int)
    ensures ParseInt(Some(ShowInt(n))) == Some(n)
  {
    var m: nat := if n < 0 then -n else n;
    var u := ShowNat(m);
    assert '0' <= u[0] <= '9';
    ParseShowNat(m);
    ParseSigned(u, m);
    assert ShowInt(n) == if n < 0 then "-" + u else u;
  }

  /** The hexadecimal digits in order of value, as `toString(16)` writes them. */
  const HexDigits: string := "0123456789abcdef"

  /** The same digits in upper case, which `parseInt` also accepts. */
  const UpperHexDigits: string := "0123456789ABCDEF"

  /** Each digit is worth its place in the digit table, in either case. */
  lemma DigitTable()
    ensures forall k :: 0 <= k < 16 ==> IsDigit(HexDigits[k], true) && DigitValue(HexDigits[k], true) == k
    ensures forall k :: 0 <= k < 16 ==> IsDigit(UpperHexDigits[k], true) && DigitValue(UpperHexDigits[k], true) == k
    ensures forall k :: 0 <= k < 10 ==> IsDigit(HexDigits[k], false) && DigitValue(HexDigits[k], false) == k
  {
    forall k | 0 <= k < 16
      ensures IsDigit(HexDigits[k], true) && DigitValue(HexDigits[k], true) == k
      ensures IsDigit(UpperHexDigits[k], true) && DigitValue(UpperHexDigits[k], true) == k
    {
      if k < 10 {
        assert HexDigits[k] == UpperHexDigits[k] == ('0' as int + k) as char;
      } else {
        assert HexDigits[k] == ('a' as int + k - 10) as char;
        assert UpperHexDigits[k] == ('A' as int + k - 10) as char;
      }
    }
  }

  /** The base-16 rendering of a natural number, in lower case, without the `0x`. */
  function ShowHex(n: nat): (s: string)
    ensures |s| >= 1
    ensures forall k :: 0 <= k < |s| ==> s[k] in HexDigits
  {
    if n < 16 then [HexDigits[n]] else ShowHex(n / 16) + [HexDigits[n % 16]]
  }

  lemma {:induction false} DigitsValueShowHex(n: nat)
    ensures forall k :: 0 <= k < |ShowHex(n)| ==> IsDigit(ShowHex(n)[k], true)
    ensures DigitsValue(ShowHex(n), true) == n
  {
    DigitTable();
    if n >= 16 {
      var s := ShowHex(n / 16) + [HexDigits[n % 16]];
      DigitsValueShowHex(n / 16);
      assert s[..|s| - 1] == ShowHex(n / 16);
    }
  }

  /** `parseInt` reads back every natural number written in base 16 after `0x`. */
  lemma ParseShowHex(n: nat)
    ensures ParseInt(Some("0x" + ShowHex(n))) == Some(n as int)
  {
    var u := ShowHex(n);
    var t := "0x" + u;
    TrimStartNone(t);
    assert Unsigned(t) == t;
    assert HasHexPrefix(t) && t[2..] == u;
    DigitsValueShowHex(n);
    LeadingDigitsAll(u, true);
  }
}
