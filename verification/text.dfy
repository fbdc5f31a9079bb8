/**
 * The string primitives the configuration reader is built from: the
 * `find`/`find_first_not_of`/`find_last_not_of` + `erase` idioms of
 * std::string, `::tolower` in the "C" locale, and `std::stoi`.
 */
module Text {

  datatype Option<T> = None | Some(value: T)

  /** Characters removed from the end of a line read with fgets. */
  const LineBreaks: set<char> := {'\r', '\n'}

  /** Characters trimmed around lines, keys and values. */
  const Blanks: set<char> := {' ', '\t'}

  /** The characters `isspace` accepts in the "C" locale (space, \t, \n, \v, \f, \r). */
  const Spaces: set<char> := {' ', '\t', '\n', 11 as char, 12 as char, '\r'}

  /** The range of a 32-bit `int`. */
  const IntMin: int := -0x8000_0000
  const IntMax: int := 0x7FFF_FFFF

  /**
   * `s` without its trailing characters from `cs`: what
   * `s.erase(s.find_last_not_of(cs) + 1)` leaves. When every character is
   * in `cs`, `find_last_not_of` yields npos, npos + 1 wraps to 0 and the
   * whole string is erased.
   */
  function TrimRight(s: string, cs: set<char>): (r: string)
    ensures r <= s
    ensures r == [] || r[|r| - 1] !in cs
    ensures forall i :: |r| <= i < |s| ==> s[i] in cs
    decreases |s|
  {
    if s == [] || s[|s| - 1] !in cs then s else TrimRight(s[..|s| - 1], cs)
  }

  /**
   * `s` without its leading characters from `cs`: what
   * `s.erase(0, s.find_first_not_of(cs))` leaves (npos erases everything).
   */
  function TrimLeft(s: string, cs: set<char>): (r: string)
    ensures |r| <= |s| && r == s[|s| - |r|..]
    ensures r == [] || r[0] !in cs
    ensures forall i :: 0 <= i < |s| - |r| ==> s[i] in cs
    decreases |s|
  {
    if s == [] || s[0] !in cs then s else TrimLeft(s[1..], cs)
  }

  /** Neither end of `s` is a character from `cs`. */
  predicate Trimmed(s: string, cs: set<char>) {
    s == [] || (s[0] !in cs && s[|s| - 1] !in cs)
  }

  /** Trimming on both sides, left first, as the key and value are trimmed. */
  function Trim(s: string, cs: set<char>): (r: string)
    ensures Trimmed(r, cs)
    ensures |r| <= |s|
    ensures Trimmed(s, cs) ==> r == s
  {
    TrimBothEnds(s, cs);
    TrimRight(TrimLeft(s, cs), cs)
  }

  /** Trimming the left end first keeps the right trim from uncovering a character of `cs`. */
  lemma TrimBothEnds(s: string, cs: set<char>)
    ensures Trimmed(TrimRight(TrimLeft(s, cs), cs), cs)
    ensures Trimmed(s, cs) ==> TrimRight(TrimLeft(s, cs), cs) == s
  {
    var l := TrimLeft(s, cs);
    var r := TrimRight(l, cs);
    assert r == [] || r[0] == l[0];
    if Trimmed(s, cs) {
      TrimLeftKeeps(s, cs, 0);
      TrimRightKeeps(s, cs, |s|);
    }
  }

  /**
   * Trimming a padded string removes exactly the padding; padding around
   * nothing trims to the empty string.
   */
  lemma TrimPadded(p: string, k: string, q: string, cs: set<char>)
    requires forall i :: 0 <= i < |p| ==> p[i] in cs
    requires forall i :: 0 <= i < |q| ==> q[i] in cs
    requires Trimmed(k, cs)
    ensures Trim(p + k + q, cs) == k
  {
    if k == [] {
      AllPadding(p, q, cs);
      assert p + k + q == p + q;
      TrimLeftKeeps(p + q, cs, |p + q|);
    } else {
      assert p + k + q == p + (k + q);
      PaddedLeft(p, k + q, cs);
      PaddedRight(k, q, cs);
    }
  }

  lemma AllPadding(p: string, q: string, cs: set<char>)
    requires forall i :: 0 <= i < |p| ==> p[i] in cs
    requires forall i :: 0 <= i < |q| ==> q[i] in cs
    ensures forall i :: 0 <= i < |p + q| ==> (p + q)[i] in cs
  {
    forall i | 0 <= i < |p + q|
      ensures (p + q)[i] in cs
    {
      if i >= |p| {
        assert (p + q)[i] == q[i - |p|];
      }
    }
  }

  lemma PaddedLeft(p: string, t: string, cs: set<char>)
    requires forall i :: 0 <= i < |p| ==> p[i] in cs
    requires t != [] && t[0] !in cs
    ensures TrimLeft(p + t, cs) == t
  {
    var s := p + t;
    assert s[|p|] == t[0];
    TrimLeftKeeps(s, cs, |p|);
    assert s[|p|..] == t;
  }

  lemma PaddedRight(k: string, q: string, cs: set<char>)
    requires forall i :: 0 <= i < |q| ==> q[i] in cs
    requires k != [] && k[|k| - 1] !in cs
    ensures TrimRight(k + q, cs) == k
  {
    TrimRightKeeps(k + q, cs, |k|);
    assert (k + q)[..|k|] == k;
  }

  /**
   * Position of the first `c` in `s`, or `|s|` when there is none (the
   * model's npos).
   */
  function FindChar(s: string, c: char): (k: nat)
    ensures k <= |s|
    ensures k < |s| ==> s[k] == c
    ensures forall i :: 0 <= i < k ==> s[i] != c
    decreases |s|
  {
    if s == [] || s[0] == c then 0 else 1 + FindChar(s[1..], c)
  }

  /** The first `c` is found wherever it is ... */
  lemma FindCharAt(s: string, c: char, n: nat)
    requires n < |s| && s[n] == c && c !in s[..n]
    ensures FindChar(s, c) == n
  {
  }

  /** `::tolower` in the "C" locale: only 'A'..'Z' change. */
  function LowerChar(c: char): (d: char)
    ensures !('A' <= d <= 'Z')
    ensures 'A' <= c <= 'Z' || d == c
  {
    if 'A' <= c <= 'Z' then (c as int + 32) as char else c
  }

  predicate NoUpper(s: string) {
    forall i :: 0 <= i < |s| ==> !('A' <= s[i] <= 'Z')
  }

  /** `transform(s.begin(), s.end(), s.begin(), ::tolower)`. */
  function ToLower(s: string): (r: string)
    ensures |r| == |s| && NoUpper(r)
    ensures forall i :: 0 <= i < |s| ==> r[i] == LowerChar(s[i])
    ensures NoUpper(s) ==> r == s
  {
    seq(|s|, i requires 0 <= i < |s| => LowerChar(s[i]))
  }

  /** Trimming only removes characters. */
  lemma TrimKeeps(s: string, cs: set<char>, c: char)
    ensures c in Trim(s, cs) ==> c in s
  {
    var l := TrimLeft(s, cs);
    var r := TrimRight(l, cs);
    if c in r {
      var i :| 0 <= i < |r| && r[i] == c;
      assert l[i] == c;
      assert s[|s| - |l| + i] == c;
    }
  }

  /** Lower-casing leaves a character that is not a letter where it was. */
  lemma ToLowerKeeps(s: string, c: char)
    requires !('A' <= c <= 'Z') && !('a' <= c <= 'z')
    ensures c in ToLower(s) <==> c in s
  {
    var r := ToLower(s);
    if c in r {
      var i :| 0 <= i < |r| && r[i] == c;
      assert s[i] == c;
    }
    if c in s {
      var i :| 0 <= i < |s| && s[i] == c;
      assert r[i] == c;
    }
  }

  /** Lower-casing neither adds nor removes blanks at the ends. */
  lemma ToLowerTrimmed(s: string)
    requires Trimmed(s, Blanks)
    ensures Trimmed(ToLower(s), Blanks)
  {
    var r := ToLower(s);
    if s != [] {
      assert r[0] == LowerChar(s[0]) && r[|r| - 1] == LowerChar(s[|s| - 1]);
    }
  }

  /** The cut TrimRight makes is the only one that fits its description. */
  lemma TrimRightKeeps(s: string, cs: set<char>, n: nat)
    requires n <= |s|
    requires n == 0 || s[n - 1] !in cs
    requires forall i :: n <= i < |s| ==> s[i] in cs
    ensures TrimRight(s, cs) == s[..n]
  {
  }

  /** The cut TrimLeft makes is the only one that fits its description. */
  lemma TrimLeftKeeps(s: string, cs: set<char>, n: nat)
    requires n <= |s|
    requires forall i :: 0 <= i < n ==> s[i] in cs
    requires n == |s| || s[n] !in cs
    ensures TrimLeft(s, cs) == s[n..]
  {
  }

  // ---------------------------------------------------------------- stoi

  predicate IsDigit(c: char) {
    '0' <= c <= '9'
  }

  predicate AllDigits(s: string) {
    forall i :: 0 <= i < |s| ==> IsDigit(s[i])
  }

  /** Length of the run of decimal digits that starts `s`. */
  function DigitRun(s: string): (n: nat)
    ensures n <= |s| && AllDigits(s[..n])
    ensures n < |s| ==> !IsDigit(s[n])
    decreases |s|
  {
    if s == [] || !IsDigit(s[0]) then 0 else 1 + DigitRun(s[1..])
  }

  /** The number a string of decimal digits denotes, read left to right. */
  function DigitsValue(d: string): nat
    requires AllDigits(d)
    decreases |d|
  {
    if d == [] then 0 else DigitsValue(d[..|d| - 1]) * 10 + (d[|d| - 1] as int - '0' as int)
  }

  /**
   * `std::stoi(s)` in base 10: leading white space, an optional sign, then
   * the longest run of digits; anything after it is ignored. `None` stands
   * for the two exceptions: invalid_argument when there is no digit and
   * out_of_range when the number does not fit an `int`.
   */
  function Stoi(s: string): (r: Option<int>)
    ensures r.Some? ==> IntMin <= r.value <= IntMax
  {
    var t := TrimLeft(s, Spaces);
    var negative := t != [] && t[0] == '-';
    var u := if t != [] && (t[0] == '-' || t[0] == '+') then t[1..] else t;
    var n := DigitRun(u);
    if n == 0 then None
    else
      var magnitude := DigitsValue(u[..n]);
      var v: int := if negative then -(magnitude as int) else magnitude;
      if IntMin <= v <= IntMax then Some(v) else None
  }

  /** The decimal spelling of `n`, without sign or leading zeros. */
  function DecimalString(n: nat): (s: string)
    ensures |s| > 0 && AllDigits(s)
    decreases n
  {
    if n < 10 then [('0' as int + n) as char]
    else DecimalString(n / 10) + [('0' as int + n % 10) as char]
  }

  lemma {:induction false} DecimalStringValue(n: nat)
    ensures DigitsValue(DecimalString(n)) == n
    decreases n
  {
    var s := DecimalString(n);
    if n >= 10 {
      assert s[..|s| - 1] == DecimalString(n / 10);
      DecimalStringValue(n / 10);
    }
  }

  /** What stoi makes of a run of digits followed by text that does not start with one. */
  lemma StoiDigits(d: string, rest: string)
    requires d != [] && AllDigits(d) && (rest == [] || !IsDigit(rest[0]))
    ensures Stoi(d + rest) == if DigitsValue(d) <= IntMax then Some(DigitsValue(d) as int) else None
  {
    DigitsFirst(d, rest);
  }

  lemma DigitsFirst(d: string, rest: string)
    requires d != [] && AllDigits(d) && (rest == [] || !IsDigit(rest[0]))
    ensures TrimLeft(d + rest, Spaces) == d + rest
    ensures (d + rest)[0] == d[0] && IsDigit(d[0])
    ensures DigitRun(d + rest) == |d| && (d + rest)[..|d|] == d
  {
    var s := d + rest;
    assert s[0] == d[0];
    TrimLeftKeeps(s, Spaces, 0);
    assert s[0..] == s;
    assert s[..|d|] == d;
    DigitRunAt(s, |d|);
  }

  /** stoi reads back every non-negative `int` written in decimal. */
  lemma StoiDecimal(n: nat)
    requires n <= IntMax
    ensures Stoi(DecimalString(n)) == Some(n)
  {
    var d := DecimalString(n);
    assert d + [] == d;
    StoiDigits(d, []);
    DecimalStringValue(n);
  }

  /** ... and every negative one, written with a leading minus sign. */
  lemma StoiNegativeDecimal(n: nat)
    requires 0 < n <= -IntMin
    ensures Stoi("-" + DecimalString(n)) == Some(-(n as int))
  {
    var d := DecimalString(n);
    var s := "-" + d;
    TrimLeftKeeps(s, Spaces, 0);
    assert s[1..] == d;
    DigitRunAt(d, |d|);
    assert d[..|d|] == d;
    DecimalStringValue(n);
  }

  /** A number whose digits are followed by other text is read up to the first non-digit. */
  lemma StoiStopsAtNonDigit(n: nat, rest: string)
    requires n <= IntMax && (rest == [] || !IsDigit(rest[0]))
    ensures Stoi(DecimalString(n) + rest) == Some(n)
  {
    StoiDigits(DecimalString(n), rest);
    DecimalStringValue(n);
  }

  /** Text with no digit after the blanks and the sign is invalid_argument. */
  lemma StoiWithoutDigits(s: string)
    requires s == [] || (s[0] !in Spaces && s[0] != '-' && s[0] != '+' && !IsDigit(s[0]))
    ensures Stoi(s).None?
  {
    TrimLeftKeeps(s, Spaces, 0);
  }

  /** A decimal number above the range of `int` is out_of_range. */
  lemma StoiOutOfRange(n: nat)
    requires n > IntMax
    ensures Stoi(DecimalString(n)).None?
  {
    var d := DecimalString(n);
    assert d + [] == d;
    StoiDigits(d, []);
    DecimalStringValue(n);
  }

  /** ... and so is a negative one below the range. */
  lemma StoiNegativeOutOfRange(n: nat)
    requires n > -IntMin
    ensures Stoi("-" + DecimalString(n)).None?
  {
    var d := DecimalString(n);
    var s := "-" + d;
    TrimLeftKeeps(s, Spaces, 0);
    assert s[1..] == d;
    DigitRunAt(d, |d|);
    assert d[..|d|] == d;
    DecimalStringValue(n);
  }

  /** Where the first non-digit is, there the digit run ends. */
  lemma {:induction false} DigitRunAt(s: string, n: nat)
    requires n <= |s| && AllDigits(s[..n]) && (n == |s| || !IsDigit(s[n]))
    ensures DigitRun(s) == n
    decreases n
  {
    if n > 0 {
      assert IsDigit(s[..n][0]);
      assert s[1..][..n - 1] == s[..n][1..];
      DigitRunAt(s[1..], n - 1);
    }
  }
}
