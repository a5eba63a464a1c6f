/** The ISBN codec of `src/utils/isbnUtil.js`: conversion between ISBN-10 and
    ISBN-13 with the check characters of ISO 2108. `Isbn10Of` and `Isbn13Of`
    say what `isbn13to10` and `isbn10to13` return; the methods `Isbn13To10` and
    `Isbn10To13` compute it the way the source does, with a summing loop. */
module Isbn {
  import opened Wrappers
  import opened Text

  /** The GS1 "Bookland" EAN-13 prefix, the only one ISBN-10 can represent. */
  const Bookland: string := "978"

  /** `s.replace(/[-\s]/g, "")`: hyphens and white space removed. */
  function Clean(s: string): (r: string)
    ensures |r| <= |s|
    ensures NoSeparators(r)
  {
    if s == [] then []
    else (if s[0] == '-' || IsJsSpace(s[0]) then [] else [s[0]]) + Clean(s[1..])
  }

  predicate NoSeparators(s: string) {
    forall i :: 0 <= i < |s| ==> s[i] != '-' && !IsJsSpace(s[i])
  }

  /** Cleaning leaves a string without hyphens or white space as it is. */
  lemma {:induction false} CleanKeepsPlain(s: string)
    requires NoSeparators(s)
    ensures Clean(s) == s
  {
    if s != [] {
      CleanKeepsPlain(s[1..]);
      assert s == [s[0]] + s[1..];
    }
  }

  /** What cleaning does to one character: a hyphen or white space goes, any
      other character stays. */
  lemma CleanChar(c: char)
    ensures Clean([c]) == if c == '-' || IsJsSpace(c) then [] else [c]
  {
    assert [c][1..] == [];
  }

  /** Cleaning works character by character: it keeps the remaining characters
      in their order. */
  lemma {:induction false} CleanConcat(a: string, b: string)
    ensures Clean(a + b) == Clean(a) + Clean(b)
  {
    if a == [] {
      assert a + b == b;
    } else {
      assert (a + b)[0] == a[0] && (a + b)[1..] == a[1..] + b;
      CleanConcat(a[1..], b);
    }
  }

  // ---------------------------------------------------------------- checksums

  /** Σ (10 − i)·dᵢ over the digits dᵢ of `d`: the ISBN-10 weighted sum. */
  function Isbn10Sum(d: string): int
    requires AllDigits(d)
  {
    if d == [] then 0
    else Isbn10Sum(d[..|d| - 1]) + (10 - (|d| - 1)) * DigitValue(d[|d| - 1])
  }

  /** The ISBN-10 check character for a weighted sum: 11 − (sum mod 11), where
      10 is written "X" and 11 is written "0". */
  function Isbn10Check(sum: int): char {
    var check := 11 - sum % 11;
    if check == 10 then 'X' else if check == 11 then '0' else DigitChar(check)
  }

  /** Value of an ISBN-10 check character: a digit, or X for 10. */
  function Isbn10CharValue(c: char): nat
    requires IsDigit(c) || c == 'X'
  {
    if c == 'X' then 10 else DigitValue(c)
  }

  /** An ISBN-10 as ISO 2108 defines it: nine digits and a check character
      (a digit or X) with Σ_{i<10} (10 − i)·vᵢ ≡ 0 (mod 11). */
  predicate ValidIsbn10(s: string) {
    && |s| == 10
    && AllDigits(s[..9])
    && (IsDigit(s[9]) || s[9] == 'X')
    && (Isbn10Sum(s[..9]) + Isbn10CharValue(s[9])) % 11 == 0
  }

  /** EAN-13 weights: 1 at even positions, 3 at odd ones. */
  function Ean13Weight(i: nat): nat {
    if i % 2 == 0 then 1 else 3
  }

  /** Σ wᵢ·dᵢ over the digits of `d` with the EAN-13 weights. */
  function Ean13Sum(d: string): nat
    requires AllDigits(d)
  {
    if d == [] then 0
    else Ean13Sum(d[..|d| - 1]) + Ean13Weight(|d| - 1) * DigitValue(d[|d| - 1])
  }

  /** The EAN-13 check digit for a weighted sum: (10 − sum mod 10) mod 10. */
  function Ean13Check(sum: nat): char {
    var remainder := sum % 10;
    DigitChar(if remainder == 0 then 0 else 10 - remainder)
  }

  /** An ISBN-13 as ISO 2108 defines it: thirteen digits whose EAN-13 weighted
      sum is a multiple of 10. */
  predicate ValidIsbn13(s: string) {
    |s| == 13 && AllDigits(s) && Ean13Sum(s) % 10 == 0
  }

  /** The one check character that makes an ISBN-10 sum vanish modulo 11 is
      the one `Isbn10Check` computes. */
  lemma Isbn10CheckUnique(sum: int, c: char)
    requires IsDigit(c) || c == 'X'
    ensures (sum + Isbn10CharValue(c)) % 11 == 0 <==> c == Isbn10Check(sum)
  {
    var check := 11 - sum % 11;
    var v := Isbn10CharValue(c);
    assert (sum + check % 11) % 11 == 0;
    if c != 'X' {
      DigitCharOfValue(c);
    }
  }

  /** Likewise for the EAN-13 check digit modulo 10. */
  lemma Ean13CheckUnique(sum: nat, c: char)
    requires IsDigit(c)
    ensures (sum + DigitValue(c)) % 10 == 0 <==> c == Ean13Check(sum)
  {
    DigitCharOfValue(c);
  }

  // ----------------------------------------------------------------- isbn13to10

  /** The input shape `isbn13to10` converts: 13 digits with the Bookland prefix. */
  predicate IsBooklandIsbn13(c: string) {
    |c| == 13 && AllDigits(c) && c[..3] == Bookland
  }

  /** What `isbn13to10(input)` returns. */
  function Isbn10Of(input: Option<string>): (r: Option<string>)
    ensures r.Some? ==> |r.value| == 10
  {
    if input.None? || input.value == "" then None
    else
      var c := Clean(input.value);
      if |c| == 10 then Some(c)
      else if !IsBooklandIsbn13(c) then None
      else Some(c[3..12] + [Isbn10Check(Isbn10Sum(c[3..12]))])
  }

  /** `isbn13to10`: strip separators, pass a 10-character string through, refuse
      anything but 13 digits starting 978, else append the ISBN-10 check
      character of digits 3..11. */
  method Isbn13To10(input: Option<string>) returns (r: Option<string>)
    ensures r == Isbn10Of(input)
  {
    if input.None? || input.value == "" {
      return None;
    }
    var isbn13 := Clean(input.value);
    if |isbn13| == 10 {
      return Some(isbn13);
    }
    if !IsBooklandIsbn13(isbn13) {
      return None;
    }
    var core := isbn13[3..12];
    var sum := SumIsbn10(core);
    var check := Isbn10Check(sum);
    return Some(core + [check]);
  }

  /** The summing loop of `isbn13to10`: digit i weighted 10 − i. */
  method SumIsbn10(core: string) returns (sum: int)
    requires AllDigits(core)
    ensures sum == Isbn10Sum(core)
  {
    sum := 0;
    for i := 0 to |core|
      invariant sum == Isbn10Sum(core[..i])
    {
      assert core[..i + 1][..i] == core[..i];
      sum := sum + (10 - i) * DigitValue(core[i]);
    }
    assert core[..|core|] == core;
  }

  // ----------------------------------------------------------------- isbn10to13

  /** The input shape `isbn10to13` converts: `/^\d{9}[\dX]$/i`. */
  predicate IsIsbn10Shape(c: string) {
    |c| == 10 && AllDigits(c[..9]) && (IsDigit(c[9]) || c[9] == 'X' || c[9] == 'x')
  }

  /** What `isbn10to13(input)` returns. */
  function Isbn13Of(input: Option<string>): (r: Option<string>)
    ensures r.Some? ==> |r.value| == 13 && AllDigits(r.value)
  {
    if input.None? || input.value == "" then None
    else
      var c := Clean(input.value);
      if |c| == 13 && AllDigits(c) then Some(c)
      else if !IsIsbn10Shape(c) then None
      else
        var body := Bookland + c[..9];
        Some(body + [Ean13Check(Ean13Sum(body))])
  }

  /** `isbn10to13`: strip separators, pass a 13-digit string through, refuse
      anything but nine digits and a digit or X, else prefix 978 to the nine
      digits (the input's own check character is dropped) and append the
      EAN-13 check digit. */
  method Isbn10To13(input: Option<string>) returns (r: Option<string>)
    ensures r == Isbn13Of(input)
  {
    if input.None? || input.value == "" {
      return None;
    }
    var cleanIsbn := Clean(input.value);
    if |cleanIsbn| == 13 && AllDigits(cleanIsbn) {
      return Some(cleanIsbn);
    }
    if !IsIsbn10Shape(cleanIsbn) {
      return None;
    }
    var body := Bookland + cleanIsbn[..9];
    var sum := SumEan13(body);
    return Some(body + [Ean13Check(sum)]);
  }

  /** The summing loop of `isbn10to13`: weight 1 at even positions, 3 at odd. */
  method SumEan13(body: string) returns (sum: nat)
    requires AllDigits(body)
    ensures sum == Ean13Sum(body)
  {
    sum := 0;
    for i := 0 to |body|
      invariant sum == Ean13Sum(body[..i])
    {
      assert body[..i + 1][..i] == body[..i];
      var digit := DigitValue(body[i]);
      sum := sum + if i % 2 == 0 then digit else digit * 3;
    }
    assert body[..|body|] == body;
  }

  // ----------------------------------------------------------------- properties

  /** Neither function accepts a missing, non-string or empty input. */
  lemma MissingOrEmptyIsNull()
    ensures Isbn10Of(None) == None && Isbn10Of(Some("")) == None
    ensures Isbn13Of(None) == None && Isbn13Of(Some("")) == None
  {
  }

  /** `isbn13to10` returns any cleaned 10-character string unchanged, whatever
      its characters. */
  lemma Isbn10OfPassesTenCharacters(s: string)
    requires |Clean(s)| == 10
    ensures Isbn10Of(Some(s)) == Some(Clean(s))
  {
  }

  /** `isbn10to13` returns any cleaned 13-digit string unchanged, whatever its
      prefix or check digit. */
  lemma Isbn13OfPassesThirteenDigits(s: string)
    requires |Clean(s)| == 13 && AllDigits(Clean(s))
    ensures Isbn13Of(Some(s)) == Some(Clean(s))
  {
  }

  /** A cleaned input that is neither 10 characters nor 13 digits with the 978
      prefix — a 979 ISBN-13 among them — gives null. */
  lemma Isbn10OfRejects(s: string)
    requires |Clean(s)| != 10 && !IsBooklandIsbn13(Clean(s))
    ensures Isbn10Of(Some(s)) == None
  {
  }

  /** A cleaned input that is neither 13 digits nor nine digits and a digit or
      X gives null. */
  lemma Isbn13OfRejects(s: string)
    requires !(|Clean(s)| == 13 && AllDigits(Clean(s))) && !IsIsbn10Shape(Clean(s))
    ensures Isbn13Of(Some(s)) == None
  {
  }

  /** `isbn13to10` of a converted ISBN-13: digits 3..11 followed by a check
      character, forming a valid ISBN-10. */
  lemma {:induction false} Isbn10OfConverts(s: string)
    requires IsBooklandIsbn13(Clean(s))
    ensures Isbn10Of(Some(s)).Some?
    ensures var r := Isbn10Of(Some(s)).value;
      r[..9] == Clean(s)[3..12] && ValidIsbn10(r)
  {
    var c := Clean(s);
    var r := Isbn10Of(Some(s)).value;
    assert r[..9] == c[3..12];
    var check := Isbn10Check(Isbn10Sum(c[3..12]));
    assert r[9] == check;
    Isbn10CheckUnique(Isbn10Sum(c[3..12]), check);
  }

  /** `isbn10to13` of a converted ISBN-10: 978, the first nine characters, and a
      check digit, forming a valid ISBN-13. */
  lemma {:induction false} Isbn13OfConverts(s: string)
    requires !(|Clean(s)| == 13 && AllDigits(Clean(s))) && IsIsbn10Shape(Clean(s))
    ensures Isbn13Of(Some(s)).Some?
    ensures var r := Isbn13Of(Some(s)).value;
      r[..12] == Bookland + Clean(s)[..9] && ValidIsbn13(r)
  {
    var c := Clean(s);
    var body := Bookland + c[..9];
    var r := Isbn13Of(Some(s)).value;
    assert r[..12] == body;
    var check := Ean13Check(Ean13Sum(body));
    Ean13CheckUnique(Ean13Sum(body), check);
    assert Ean13Sum(r) == Ean13Sum(body) + DigitValue(check);
  }

  /** `isbn10to13` ignores the input's check character: any two check
      characters it accepts give the same ISBN-13. */
  lemma {:induction false} CheckCharacterIgnored(core: string, a: char, b: char)
    requires |core| == 9 && AllDigits(core)
    requires IsDigit(a) || a == 'X' || a == 'x'
    requires IsDigit(b) || b == 'X' || b == 'x'
    ensures Isbn13Of(Some(core + [a])) == Isbn13Of(Some(core + [b]))
  {
    CleanKeepsPlain(core + [a]);
    CleanKeepsPlain(core + [b]);
    assert (core + [a])[..9] == core == (core + [b])[..9];
  }

  /** Two valid ISBN-10s with the same nine digits are equal: the check
      character is determined by them. */
  lemma SameIsbn10(a: string, b: string)
    requires ValidIsbn10(a) && ValidIsbn10(b) && a[..9] == b[..9]
    ensures a == b
  {
    Isbn10CheckUnique(Isbn10Sum(a[..9]), a[9]);
    Isbn10CheckUnique(Isbn10Sum(b[..9]), b[9]);
    assert a == a[..9] + [a[9]] && b == b[..9] + [b[9]];
  }

  /** Two valid ISBN-13s with the same first twelve digits are equal. */
  lemma SameIsbn13(a: string, b: string)
    requires ValidIsbn13(a) && ValidIsbn13(b) && a[..12] == b[..12]
    ensures a == b
  {
    assert Ean13Sum(a) == Ean13Sum(a[..12]) + DigitValue(a[12]);
    assert Ean13Sum(b) == Ean13Sum(b[..12]) + DigitValue(b[12]);
    Ean13CheckUnique(Ean13Sum(a[..12]), a[12]);
    Ean13CheckUnique(Ean13Sum(b[..12]), b[12]);
    assert a == a[..12] + [a[12]] && b == b[..12] + [b[12]];
  }

  /** ISBN-10 → ISBN-13 → ISBN-10 is the identity on valid, cleaned ISBN-10s
      (with an upper-case X). */
  lemma {:induction false} RoundTripFromIsbn10(x: string)
    requires ValidIsbn10(x)
    ensures Isbn13Of(Some(x)).Some?
    ensures Isbn10Of(Isbn13Of(Some(x))) == Some(x)
  {
    CleanKeepsPlain(x);
    Isbn13OfConverts(x);
    var y := Isbn13Of(Some(x)).value;
    CleanKeepsPlain(y);
    Isbn10OfConverts(y);
    var r := Isbn10Of(Some(y)).value;
    assert r[..9] == y[3..12] == x[..9];
    SameIsbn10(r, x);
  }

  /** ISBN-13 → ISBN-10 → ISBN-13 is the identity on valid ISBN-13s with the
      978 prefix. */
  lemma {:induction false} RoundTripFromIsbn13(y: string)
    requires ValidIsbn13(y) && y[..3] == Bookland
    ensures Isbn10Of(Some(y)).Some?
    ensures Isbn13Of(Isbn10Of(Some(y))) == Some(y)
  {
    CleanKeepsPlain(y);
    Isbn10OfConverts(y);
    var x := Isbn10Of(Some(y)).value;
    CleanKeepsPlain(x);
    Isbn13OfConverts(x);
    var z := Isbn13Of(Some(x)).value;
    assert z[..12] == Bookland + x[..9] == y[..12];
    SameIsbn13(z, y);
  }

  /** `isbn10to13` of a separator-free ISBN-10 shape, spelled out. */
  lemma Isbn13OfPlainIsbn10(x: string)
    requires IsIsbn10Shape(x) && NoSeparators(x)
    ensures Isbn13Of(Some(x)) == Some(Bookland + x[..9] + [Ean13Check(Ean13Sum(Bookland + x[..9]))])
  {
    CleanKeepsPlain(x);
  }
}
