/** String helpers that stand for the Python built-ins the extractor uses:
    `str(n)` for a natural number, `sep.join(parts)`, `str.strip()`,
    `str.strip(chars)` and `str.replace(old, new)`. */
module Strings {

  /** The digit character for `d`. */
  function DigitChar(d: nat): (c: char)
    requires d < 10
    ensures '0' <= c <= '9'
  {
    (48 + d) as char
  }

  predicate IsDigits(s: string) {
    forall i :: 0 <= i < |s| ==> '0' <= s[i] <= '9'
  }

  /** `str(n)`: the decimal rendering of a natural number, most significant digit first. */
  function Decimal(n: nat): (s: string)
    ensures |s| >= 1 && IsDigits(s)
    ensures s[0] == '0' ==> n == 0
  {
    if n < 10 then [DigitChar(n)] else Decimal(n / 10) + [DigitChar(n % 10)]
  }

  /** `int(s)` for a non-empty run of ASCII digits; the reference reading of `Decimal`. */
  function ParseDecimal(s: string): nat
    requires IsDigits(s)
  {
    if s == [] then 0 else ParseDecimal(s[..|s| - 1]) * 10 + (s[|s| - 1] as int - 48)
  }

  lemma {:induction false} ParseDecimalOfDecimal(n: nat)
    ensures ParseDecimal(Decimal(n)) == n
  {
    if n >= 10 {
      var s := Decimal(n);
      assert s[..|s| - 1] == Decimal(n / 10);
      ParseDecimalOfDecimal(n / 10);
    }
  }

  /** Distinct numbers are rendered as distinct strings. */
  lemma DecimalInjective(m: nat, n: nat)
    requires Decimal(m) == Decimal(n)
    ensures m == n
  {
    ParseDecimalOfDecimal(m);
    ParseDecimalOfDecimal(n);
  }

  /** `sep.join(parts)`. */
  function Join(sep: string, parts: seq<string>): string
  {
    if |parts| == 0 then ""
    else if |parts| == 1 then parts[0]
    else parts[0] + sep + Join(sep, parts[1..])
  }

  /** Joining keeps the parts in order: the join of a concatenation is the two
      joins separated by one separator. */
  lemma {:induction false} JoinConcat(sep: string, a: seq<string>, b: seq<string>)
    requires |a| > 0 && |b| > 0
    ensures Join(sep, a + b) == Join(sep, a) + sep + Join(sep, b)
  {
    if |a| == 1 {
      assert (a + b)[1..] == b;
    } else {
      assert (a + b)[1..] == a[1..] + b;
      JoinConcat(sep, a[1..], b);
    }
  }

  /** The characters Python's `str.isspace` accepts, which `str.strip()` removes. */
  predicate IsSpace(c: char) {
    || c == ' '
    || ('\t' <= c <= '\r')
    || ('\U{1C}' <= c <= '\U{1F}')
    || c == '\U{85}' || c == '\U{A0}' || c == '\U{1680}'
    || ('\U{2000}' <= c <= '\U{200A}')
    || c == '\U{2028}' || c == '\U{2029}' || c == '\U{202F}' || c == '\U{205F}' || c == '\U{3000}'
  }

  /** Removes the leading characters satisfying `drop`. */
  function TrimStart(s: string, drop: char -> bool): string
  {
    if s != [] && drop(s[0]) then TrimStart(s[1..], drop) else s
  }

  /** Removes the trailing characters satisfying `drop`. */
  function TrimEnd(s: string, drop: char -> bool): string
  {
    if s != [] && drop(s[|s| - 1]) then TrimEnd(s[..|s| - 1], drop) else s
  }

  /** `TrimStart` leaves a suffix whose first character is kept, after a
      prefix that is all dropped. */
  lemma {:induction false} TrimStartShape(s: string, drop: char -> bool)
    ensures |TrimStart(s, drop)| <= |s|
    ensures TrimStart(s, drop) == s[|s| - |TrimStart(s, drop)|..]
    ensures TrimStart(s, drop) == [] || !drop(TrimStart(s, drop)[0])
    ensures forall i :: 0 <= i < |s| - |TrimStart(s, drop)| ==> drop(s[i])
  {
    if s != [] && drop(s[0]) {
      var r := TrimStart(s[1..], drop);
      TrimStartShape(s[1..], drop);
      assert TrimStart(s, drop) == r;
      assert s[1..][|s| - 1 - |r|..] == s[|s| - |r|..];
      forall i | 0 <= i < |s| - |r|
        ensures drop(s[i])
      {
        if i > 0 {
          assert s[i] == s[1..][i - 1];
        }
      }
    }
  }

  /** `TrimEnd` leaves a prefix whose last character is kept, before a suffix
      that is all dropped. */
  lemma {:induction false} TrimEndShape(s: string, drop: char -> bool)
    ensures |TrimEnd(s, drop)| <= |s|
    ensures TrimEnd(s, drop) == s[..|TrimEnd(s, drop)|]
    ensures TrimEnd(s, drop) == [] || !drop(TrimEnd(s, drop)[|TrimEnd(s, drop)| - 1])
    ensures forall i :: |TrimEnd(s, drop)| <= i < |s| ==> drop(s[i])
  {
    if s != [] && drop(s[|s| - 1]) {
      var s' := s[..|s| - 1];
      var r := TrimEnd(s', drop);
      TrimEndShape(s', drop);
      assert TrimEnd(s, drop) == r;
      assert s'[..|r|] == s[..|r|];
      forall i | |r| <= i < |s|
        ensures drop(s[i])
      {
        if i < |s| - 1 {
          assert s[i] == s'[i];
        }
      }
    }
  }

  /** Both ends: `str.strip()` with `drop` the whitespace test, `str.strip(chars)`
      with `drop` membership in `chars`. */
  function Trim(s: string, drop: char -> bool): string
  {
    TrimEnd(TrimStart(s, drop), drop)
  }

  /** What `Trim` leaves is a slice of the input with no droppable character at
      either end, and every character it removed is droppable. */
  lemma TrimIsMaximalSlice(s: string, drop: char -> bool) returns (k: nat)
    ensures k + |Trim(s, drop)| <= |s|
    ensures Trim(s, drop) == s[k..k + |Trim(s, drop)|]
    ensures Trim(s, drop) == [] || !drop(Trim(s, drop)[0])
    ensures Trim(s, drop) == [] || !drop(Trim(s, drop)[|Trim(s, drop)| - 1])
    ensures forall i :: 0 <= i < k ==> drop(s[i])
    ensures forall i :: k + |Trim(s, drop)| <= i < |s| ==> drop(s[i])
  {
    var t := TrimStart(s, drop);
    var r := TrimEnd(t, drop);
    TrimStartShape(s, drop);
    TrimEndShape(t, drop);
    k := |s| - |t|;
    assert r == t[..|r|];
    forall i | k + |r| <= i < |s|
      ensures drop(s[i])
    {
      assert s[i] == t[i - k];
    }
    if r != [] {
      assert r[0] == t[0];
    }
  }

  /** Trimming twice removes nothing more. */
  lemma TrimIdempotent(s: string, drop: char -> bool)
    ensures Trim(Trim(s, drop), drop) == Trim(s, drop)
  {
    var r := Trim(s, drop);
    var _ := TrimIsMaximalSlice(s, drop);
    assert TrimStart(r, drop) == r;
    assert TrimEnd(r, drop) == r;
  }

  /** `s.replace(pat, rep)`: every non-overlapping occurrence of `pat`, scanning
      left to right, becomes `rep`. */
  function ReplaceAll(s: string, pat: string, rep: string): string
    requires |pat| > 0
    decreases |s|
  {
    if |s| < |pat| then s
    else if s[..|pat|] == pat then rep + ReplaceAll(s[|pat|..], pat, rep)
    else [s[0]] + ReplaceAll(s[1..], pat, rep)
  }

  /** Replacing one character by another acts position by position. */
  lemma {:induction false} ReplaceCharPointwise(s: string, a: char, b: char)
    ensures |ReplaceAll(s, [a], [b])| == |s|
    ensures forall i :: 0 <= i < |s| ==>
              ReplaceAll(s, [a], [b])[i] == if s[i] == a then b else s[i]
  {
    if s != [] {
      ReplaceCharPointwise(s[1..], a, b);
    }
  }

  predicate OccursAt(s: string, pat: string, i: nat) {
    i + |pat| <= |s| && s[i..i + |pat|] == pat
  }

  /** A pattern that never occurs leaves the string unchanged. */
  lemma {:induction false} ReplaceAbsent(s: string, pat: string, rep: string)
    requires |pat| > 0
    requires forall i: nat :: !OccursAt(s, pat, i)
    ensures ReplaceAll(s, pat, rep) == s
  {
    if |s| >= |pat| {
      assert !OccursAt(s, pat, 0);
      assert s[..|pat|] != pat;
      forall i: nat ensures !OccursAt(s[1..], pat, i) {
        assert !OccursAt(s, pat, i + 1);
        if i + |pat| <= |s[1..]| {
          assert s[1..][i..i + |pat|] == s[i + 1..i + 1 + |pat|];
        }
      }
      ReplaceAbsent(s[1..], pat, rep);
    }
  }

  /** A pattern holding a character the string lacks occurs nowhere in it. */
  lemma AbsentChar(s: string, pat: string, k: nat)
    requires k < |pat| && forall j :: 0 <= j < |s| ==> s[j] != pat[k]
    ensures forall i: nat :: !OccursAt(s, pat, i)
  {
    forall i: nat
      ensures !OccursAt(s, pat, i)
    {
      if i + |pat| <= |s| {
        assert s[i..i + |pat|][k] == s[i + k] != pat[k];
      }
    }
  }
}
