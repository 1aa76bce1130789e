/**
 * The pieces of Go's `strings` and `strconv` packages the retention-spec
 * parser relies on: splitting on white space (`strings.Fields`), the UTF-8
 * byte length `len` gives a string, and decimal integers (`strconv.Atoi`,
 * with `strconv.Itoa` as its inverse).  Go strings are UTF-8 bytes; here a
 * string is its sequence of Unicode scalar values.
 */
module Text {

  datatype Option<T> = None | Some(value: T)

  /** Go's `unicode.IsSpace`: the Latin-1 spaces and the other Unicode White_Space characters. */
  predicate IsSpace(c: char) {
    || c == ' ' || c == '\t' || c == '\n' || c == '\U{000B}' || c == '\U{000C}' || c == '\r'
    || c == '\U{0085}' || c == '\U{00A0}' || c == '\U{1680}'
    || ('\U{2000}' <= c <= '\U{200A}')
    || c == '\U{2028}' || c == '\U{2029}' || c == '\U{202F}' || c == '\U{205F}' || c == '\U{3000}'
  }

  /** Length of the run of non-space characters that s starts with. */
  function WordLength(s: string): (n: nat)
    ensures n <= |s|
    ensures forall i :: 0 <= i < n ==> !IsSpace(s[i])
    ensures n == |s| || IsSpace(s[n])
  {
    if s == [] || IsSpace(s[0]) then 0 else 1 + WordLength(s[1..])
  }

  /** `strings.Fields`: the maximal runs of non-space characters of s, in order. */
  function Fields(s: string): seq<string>
    decreases |s|
  {
    if s == [] then []
    else if IsSpace(s[0]) then Fields(s[1..])
    else
      var n := WordLength(s);
      [s[..n]] + Fields(s[n..])
  }

  /** A field as `Fields` produces it: not empty and free of white space. */
  predicate IsWord(f: string) {
    f != [] && forall i :: 0 <= i < |f| ==> !IsSpace(f[i])
  }

  /** s without its white space. */
  function Unspaced(s: string): string {
    if s == [] then [] else (if IsSpace(s[0]) then [] else [s[0]]) + Unspaced(s[1..])
  }

  function Concat(fs: seq<string>): string {
    if fs == [] then [] else fs[0] + Concat(fs[1..])
  }

  /** The fields joined with one space between neighbours. */
  function JoinFields(fs: seq<string>): string {
    if fs == [] then []
    else if |fs| == 1 then fs[0]
    else fs[0] + " " + JoinFields(fs[1..])
  }

  /**
   * Every field is a word, together the fields hold exactly the non-space
   * characters of s, in order, and each field is a maximal run: the first
   * one starts after white space alone and ends at white space or at the
   * end of s, where the remaining fields begin.
   */
  lemma {:induction false} FieldsAreTheWords(s: string)
    ensures forall i :: 0 <= i < |Fields(s)| ==> IsWord(Fields(s)[i])
    ensures Concat(Fields(s)) == Unspaced(s)
    ensures Fields(s) == [] <==> forall i :: 0 <= i < |s| ==> IsSpace(s[i])
    ensures Fields(s) != [] ==>
              var a, w := SpaceLength(s), |Fields(s)[0]|;
              && a + w <= |s|
              && (forall i :: 0 <= i < a ==> IsSpace(s[i]))
              && s[a..a + w] == Fields(s)[0]
              && (a + w == |s| || IsSpace(s[a + w]))
              && Fields(s)[1..] == Fields(s[a + w..])
    decreases |s|
  {
    FieldsSplitAtSpace(s);
    if s == [] {
    } else if IsSpace(s[0]) {
      FieldsAreTheWords(s[1..]);
    } else {
      var n := WordLength(s);
      FieldsAreTheWords(s[n..]);
      UnspacedSplit(s, n);
      UnspacedWord(s[..n]);
    }
  }

  /** Length of the run of white space that s starts with. */
  function SpaceLength(s: string): (n: nat)
    ensures n <= |s|
    ensures forall i :: 0 <= i < n ==> IsSpace(s[i])
    ensures n == |s| || !IsSpace(s[n])
  {
    if s == [] || !IsSpace(s[0]) then 0 else 1 + SpaceLength(s[1..])
  }

  /**
   * Where `Fields` splits s: nowhere when s is blank; else the first field
   * is the word after the leading white space, ending at white space or at
   * the end of s, and the other fields are those of the rest.
   */
  lemma {:induction false} FieldsSplitAtSpace(s: string)
    ensures Fields(s) == [] <==> SpaceLength(s) == |s|
    ensures Fields(s) != [] ==>
              var a, w := SpaceLength(s), |Fields(s)[0]|;
              && a + w <= |s|
              && s[a..a + w] == Fields(s)[0]
              && (a + w == |s| || IsSpace(s[a + w]))
              && Fields(s)[1..] == Fields(s[a + w..])
  {
    var a := SpaceLength(s);
    FieldsAfterSpace(s, a);
    var u := s[a..];
    if u != [] {
      var n := WordLength(u);
      assert Fields(u) == [u[..n]] + Fields(u[n..]);
      assert s[a..a + n] == u[..n];
      assert s[a + n..] == u[n..];
    }
  }

  /** Leading white space does not change the fields. */
  lemma {:induction false} FieldsAfterSpace(s: string, a: nat)
    requires a <= |s| && forall i :: 0 <= i < a ==> IsSpace(s[i])
    ensures Fields(s) == Fields(s[a..])
    decreases a
  {
    if a > 0 {
      FieldsAfterSpace(s[1..], a - 1);
      assert s[1..][a - 1..] == s[a..];
    }
  }

  lemma {:induction false} UnspacedSplit(s: string, n: nat)
    requires n <= |s|
    ensures Unspaced(s) == Unspaced(s[..n]) + Unspaced(s[n..])
    decreases n
  {
    if n > 0 {
      assert s[1..][..n - 1] == s[1..n];
      assert s[1..][n - 1..] == s[n..];
      UnspacedSplit(s[1..], n - 1);
      assert s[..n][1..] == s[1..n];
    }
  }

  lemma {:induction false} UnspacedWord(w: string)
    requires forall i :: 0 <= i < |w| ==> !IsSpace(w[i])
    ensures Unspaced(w) == w
  {
    if w != [] {
      UnspacedWord(w[1..]);
    }
  }

  /** A string of white space alone has no fields. */
  lemma {:induction false} BlankHasNoFields(s: string)
    requires forall i :: 0 <= i < |s| ==> IsSpace(s[i])
    ensures Fields(s) == []
  {
    if s != [] {
      BlankHasNoFields(s[1..]);
    }
  }

  /** A word followed by nothing or by white space is the first field. */
  lemma FieldsOfWordThen(w: string, rest: string)
    requires IsWord(w)
    requires rest == [] || IsSpace(rest[0])
    ensures Fields(w + rest) == [w] + Fields(rest)
  {
    var s := w + rest;
    WordRun(w, rest);
    assert s[..|w|] == w && s[|w|..] == rest;
  }

  lemma {:induction false} WordRun(w: string, rest: string)
    requires forall i :: 0 <= i < |w| ==> !IsSpace(w[i])
    requires rest == [] || IsSpace(rest[0])
    ensures WordLength(w + rest) == |w|
  {
    if w != [] {
      assert (w + rest)[1..] == w[1..] + rest;
      WordRun(w[1..], rest);
    }
  }

  /** Splitting words joined by single spaces gives the words back. */
  lemma {:induction false} FieldsOfJoin(fs: seq<string>)
    requires forall i :: 0 <= i < |fs| ==> IsWord(fs[i])
    ensures Fields(JoinFields(fs)) == fs
  {
    if |fs| == 1 {
      FieldsOfWordThen(fs[0], []);
      assert fs[0] + [] == fs[0];
    } else if |fs| > 1 {
      var rest := JoinFields(fs[1..]);
      FieldsOfJoin(fs[1..]);
      assert JoinFields(fs) == fs[0] + (" " + rest);
      FieldsOfWordThen(fs[0], " " + rest);
      assert (" " + rest)[1..] == rest;
    }
  }

  /** Number of bytes of c in UTF-8. */
  function Utf8Width(c: char): nat {
    if c as int < 0x80 then 1
    else if c as int < 0x800 then 2
    else if c as int < 0x10000 then 3
    else 4
  }

  /** Go's `len` of a string: its length in UTF-8 bytes. */
  function Utf8Length(s: string): (n: nat)
    ensures n >= |s|
    ensures s != [] ==> n >= Utf8Width(s[0])
  {
    if s == [] then 0 else Utf8Width(s[0]) + Utf8Length(s[1..])
  }

  /** Shortest and longest value of Go's 64-bit `int`. */
  const MinInt := -0x8000_0000_0000_0000
  const MaxInt := 0x7FFF_FFFF_FFFF_FFFF

  predicate IsDigit(c: char) {
    '0' <= c <= '9'
  }

  predicate AllDigits(s: string) {
    forall i :: 0 <= i < |s| ==> IsDigit(s[i])
  }

  /** The value of a string of decimal digits. */
  function DigitsValue(s: string): nat
    requires AllDigits(s)
  {
    if s == [] then 0 else DigitsValue(s[..|s| - 1]) * 10 + (s[|s| - 1] as int - '0' as int)
  }

  /**
   * `strconv.Atoi`: an optional sign and then one or more decimal digits,
   * nothing else, and a value that fits a 64-bit `int`; anything else is an
   * error (None).
   */
  function Atoi(s: string): Option<int> {
    var signed := s != [] && (s[0] == '+' || s[0] == '-');
    var digits := if signed then s[1..] else s;
    if digits == [] || !AllDigits(digits) then None
    else
      var magnitude: int := DigitsValue(digits);
      var v := if signed && s[0] == '-' then -magnitude else magnitude;
      if MinInt <= v <= MaxInt then Some(v) else None
  }

  function DigitChar(d: int): char
    requires 0 <= d < 10
  {
    ('0' as int + d) as char
  }

  /** The decimal digits of n, without leading zeros. */
  function Digits(n: nat): (s: string)
    ensures s != [] && AllDigits(s)
  {
    if n < 10 then [DigitChar(n)] else Digits(n / 10) + [DigitChar(n % 10)]
  }

  /** `strconv.Itoa`: n in decimal, with a leading '-' when negative. */
  function Itoa(n: int): string {
    if n < 0 then "-" + Digits(-n) else Digits(n)
  }

  lemma {:induction false} DigitsValueOfDigits(n: nat)
    ensures DigitsValue(Digits(n)) == n
  {
    if n >= 10 {
      DigitsValueOfDigits(n / 10);
      var s := Digits(n);
      assert s[..|s| - 1] == Digits(n / 10);
    }
  }

  /** `Atoi` reads back what `Itoa` writes, for every value of a 64-bit `int`. */
  lemma AtoiOfItoa(n: int)
    requires MinInt <= n <= MaxInt
    ensures Atoi(Itoa(n)) == Some(n)
  {
    var s := Itoa(n);
    if n < 0 {
      var d := Digits(-n);
      DigitsValueOfDigits(-n);
      assert s[0] == '-' && s[1..] == d;
      assert IsDigit(d[0]);
    } else {
      var d := Digits(n);
      DigitsValueOfDigits(n);
      assert IsDigit(d[0]) && s == d;
    }
  }

  /** Digits of a value beyond 64 bits are refused, however well written, with a minus sign or without. */
  lemma AtoiRefusesOverflow(n: nat)
    requires n > MaxInt
    ensures Atoi(Digits(n)) == None && Atoi("-" + Digits(n + 1)) == None
  {
    var d := Digits(n);
    DigitsValueOfDigits(n);
    assert IsDigit(d[0]);
    assert Atoi(d) == None;
    var e := Digits(n + 1);
    var m := "-" + e;
    DigitsValueOfDigits(n + 1);
    assert m[0] == '-' && m[1..] == e;
    assert DigitsValue(e) > -MinInt;
  }
}
