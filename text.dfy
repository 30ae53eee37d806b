/**
 * The string operations the detector uses: `str.lower()`, the substring
 * test `k in s`, `", ".join(...)` and the decimal spelling of an `int`.
 */
module Text {

  /** Case folding of one character, as `str.lower()` does for ASCII letters. */
  function LowerChar(c: char): char
  {
    if 'A' <= c <= 'Z' then (c as int + 32) as char else c
  }

  /**
   * `s.lower()`, folding ASCII letters only: no capital is left, each
   * capital becomes its small letter, every other character is kept.
   */
  function Lower(s: string): (r: string)
    ensures |r| == |s|
    ensures forall i :: 0 <= i < |r| ==> !('A' <= r[i] <= 'Z')
    ensures forall i :: 0 <= i < |s| && 'A' <= s[i] <= 'Z' ==> r[i] as int == s[i] as int + 32
    ensures forall i :: 0 <= i < |s| && !('A' <= s[i] <= 'Z') ==> r[i] == s[i]
  {
    seq(|s|, i requires 0 <= i < |s| => LowerChar(s[i]))
  }

  /** Lower-casing twice is lower-casing once. */
  lemma LowerIdempotent(s: string)
    ensures Lower(Lower(s)) == Lower(s)
  {
    var once := Lower(s);
    assert forall i :: 0 <= i < |once| ==> Lower(once)[i] == once[i];
  }

  /** Python's `k in s` on strings: `k` occurs in `s` as a contiguous block. */
  predicate Contains(s: string, k: string)
    decreases |s|
  {
    k <= s || (s != [] && Contains(s[1..], k))
  }

  /** A block longer than `s` does not occur in it. */
  lemma {:induction false} ContainsNeedsRoom(s: string, k: string)
    ensures Contains(s, k) ==> |k| <= |s|
    decreases |s|
  {
    if s != [] && !(k <= s) {
      ContainsNeedsRoom(s[1..], k);
    }
  }

  /** A block found inside a prefix of `s` is found inside `s`. */
  lemma {:induction false} PrefixContains(s: string, m: string, k: string)
    requires m <= s && Contains(m, k)
    ensures Contains(s, k)
    decreases |m|
  {
    if k <= m {
      assert k == s[..|k|];
    } else {
      PrefixContains(s[1..], m[1..], k);
    }
  }

  /** Containment is transitive: a block of a block of `s` is a block of `s`. */
  lemma {:induction false} ContainsTransitive(s: string, m: string, k: string)
    requires Contains(s, m) && Contains(m, k)
    ensures Contains(s, k)
    decreases |s|
  {
    if m <= s {
      PrefixContains(s, m, k);
    } else {
      ContainsTransitive(s[1..], m, k);
    }
  }

  /**
   * `s.replace(pat, rep)`: every occurrence of `pat`, scanning from the
   * left and never overlapping a replaced one, becomes `rep`.
   */
  function Replace(s: string, pat: string, rep: string): string
    requires pat != []
    decreases |s|
  {
    if s == [] then []
    else if pat <= s then rep + Replace(s[|pat|..], pat, rep)
    else [s[0]] + Replace(s[1..], pat, rep)
  }

  /** Replacing a block that does not occur changes nothing. */
  lemma {:induction false} ReplaceAbsent(s: string, pat: string, rep: string)
    requires pat != []
    ensures !Contains(s, pat) ==> Replace(s, pat, rep) == s
    decreases |s|
  {
    if s != [] && !Contains(s, pat) {
      ReplaceAbsent(s[1..], pat, rep);
      assert [s[0]] + s[1..] == s;
    }
  }

  /** A replacement no shorter than the block never shortens; a longer one that applies lengthens. */
  lemma {:induction false} ReplaceLonger(s: string, pat: string, rep: string)
    requires pat != [] && |rep| >= |pat|
    ensures |Replace(s, pat, rep)| >= |s|
    ensures Contains(s, pat) && |rep| > |pat| ==> |Replace(s, pat, rep)| > |s|
    decreases |s|
  {
    if s != [] {
      if pat <= s {
        ReplaceLonger(s[|pat|..], pat, rep);
      } else {
        ReplaceLonger(s[1..], pat, rep);
      }
    }
  }

  /** `sep.join(parts)`. */
  function Join(parts: seq<string>, sep: string): string
  {
    if |parts| == 0 then ""
    else if |parts| == 1 then parts[0]
    else parts[0] + sep + Join(parts[1..], sep)
  }

  predicate IsDigit(c: char)
  {
    '0' <= c <= '9'
  }

  function DigitChar(d: nat): (c: char)
    requires d < 10
    ensures IsDigit(c)
  {
    ('0' as int + d) as char
  }

  /** `str(n)` (or `f"{n}"`) for a non-negative integer. */
  function Decimal(n: nat): (s: string)
    ensures |s| >= 1
    ensures forall i :: 0 <= i < |s| ==> IsDigit(s[i])
    decreases n
  {
    if n < 10 then [DigitChar(n)] else Decimal(n / 10) + [DigitChar(n % 10)]
  }

  /** `int(s)` for a string of decimal digits. */
  function ParseDecimal(s: string): nat
    requires forall i :: 0 <= i < |s| ==> IsDigit(s[i])
    decreases |s|
  {
    if s == [] then 0
    else
      var last := s[|s| - 1];
      assert IsDigit(last);
      ParseDecimal(s[..|s| - 1]) * 10 + (last as int - '0' as int)
  }

  /** The decimal spelling of a count reads back as that count. */
  lemma {:induction false} DecimalRoundTrip(n: nat)
    ensures ParseDecimal(Decimal(n)) == n
    decreases n
  {
    if n >= 10 {
      var s := Decimal(n);
      assert s[..|s| - 1] == Decimal(n / 10);
      DecimalRoundTrip(n / 10);
    }
  }
}
