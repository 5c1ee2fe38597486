/**
  * The parts of java.lang that the pet owner relies on: 32-bit `int`
  * addition, `String.trim()`, `String.toLowerCase()` restricted to ASCII,
  * and the decimal form `Integer.toString` gives an `int` in a string
  * concatenation.
  */
module JavaLang {
  import opened Wrappers

  const INT_MIN: int := -0x8000_0000
  const INT_MAX: int := 0x7fff_ffff
  const TWO_POW_32: int := 0x1_0000_0000

  /** Java's `int`: a 32-bit two's-complement integer. */
  newtype Int32 = x: int | -0x8000_0000 <= x < 0x8000_0000

  /**
    * Java `int` addition: the exact sum reduced to 32 bits, so that it wraps
    * around from `Integer.MAX_VALUE` to `Integer.MIN_VALUE`.
    */
  function AddInt(a: Int32, b: Int32): (r: Int32)
    ensures (r as int - (a as int + b as int)) % TWO_POW_32 == 0
    ensures INT_MIN <= a as int + b as int <= INT_MAX ==> r as int == a as int + b as int
    ensures a as int + b as int > INT_MAX ==> r as int == a as int + b as int - TWO_POW_32
    ensures a as int + b as int < INT_MIN ==> r as int == a as int + b as int + TWO_POW_32
  {
    ((a as int + b as int - INT_MIN) % TWO_POW_32 + INT_MIN) as Int32
  }

  // ---------------------------------------------------------------------
  // String.trim()

  /** `trim()` strips every character whose code is at most U+0020. */
  predicate IsTrimmed(c: char) {
    c <= ' '
  }

  predicate AllTrimmed(s: string) {
    forall i :: 0 <= i < |s| ==> IsTrimmed(s[i])
  }

  /** True when `s` neither starts nor ends with a character `trim()` strips. */
  predicate HasNoTrimmedEnds(s: string) {
    s == [] || (!IsTrimmed(s[0]) && !IsTrimmed(s[|s| - 1]))
  }

  /**
    * `trim()`'s first scan: from `st` on, skips the characters it strips and
    * returns the index of the first one it keeps, or `|s|`.
    */
  function SkipLeading(s: string, st: nat): (r: nat)
    requires st <= |s|
    ensures st <= r <= |s|
    ensures forall i :: st <= i < r ==> IsTrimmed(s[i])
    ensures r < |s| ==> !IsTrimmed(s[r])
    decreases |s| - st
  {
    if st < |s| && IsTrimmed(s[st]) then SkipLeading(s, st + 1) else st
  }

  /**
    * `trim()`'s second scan: moves the end `len` back over the characters it
    * strips, never past `st`.
    */
  function SkipTrailing(s: string, st: nat, len: nat): (r: nat)
    requires st <= len <= |s|
    ensures st <= r <= len
    ensures forall i :: r <= i < len ==> IsTrimmed(s[i])
    ensures st < r ==> !IsTrimmed(s[r - 1])
    decreases len
  {
    if st < len && IsTrimmed(s[len - 1]) then SkipTrailing(s, st, len - 1) else len
  }

  /** `r` is the slice of `s` at `lo`, and all of `s` before and after it is stripped by `trim()`. */
  predicate PaddedSlice(s: string, r: string, lo: int) {
    0 <= lo <= |s| - |r| && r == s[lo..lo + |r|]
    && (forall i :: 0 <= i < lo ==> IsTrimmed(s[i]))
    && (forall i :: lo + |r| <= i < |s| ==> IsTrimmed(s[i]))
  }

  /** Java's `String.trim()`. */
  function Trim(s: string): (r: string)
    ensures HasNoTrimmedEnds(r)
    ensures PaddedSlice(s, r, SkipLeading(s, 0))
  {
    var st := SkipLeading(s, 0);
    s[st..SkipTrailing(s, st, |s|)]
  }

  /**
    * `trim()` is determined by what it keeps: whatever padding of stripped
    * characters surrounds a string without such ends, `trim()` returns it.
    */
  lemma TrimOfPadded(lead: string, w: string, trail: string)
    requires AllTrimmed(lead) && AllTrimmed(trail) && HasNoTrimmedEnds(w)
    ensures Trim(lead + w + trail) == w
  {
    var s := lead + w + trail;
    var hi := |lead| + |w|;
    assert forall i :: 0 <= i < |lead| ==> IsTrimmed(s[i]) by {
      assert forall i :: 0 <= i < |lead| ==> s[i] == lead[i];
    }
    assert forall i :: hi <= i < |s| ==> IsTrimmed(s[i]) by {
      assert forall i :: hi <= i < |s| ==> s[i] == trail[i - hi];
    }
    if w != [] {
      assert s[|lead|] == w[0] && s[hi - 1] == w[|w| - 1];
    }
    assert SkipLeading(s, 0) == |lead| || (w == [] && SkipLeading(s, 0) == |s|);
    assert s[SkipLeading(s, 0)..SkipTrailing(s, SkipLeading(s, 0), |s|)] == w;
  }

  /** Trimming a trimmed string changes nothing. */
  lemma TrimIdempotent(s: string)
    ensures Trim(Trim(s)) == Trim(s)
  {
    var w := Trim(s);
    assert [] + w + [] == w;
    TrimOfPadded([], w, []);
  }

  // ---------------------------------------------------------------------
  // String.toLowerCase(), on ASCII

  predicate IsAsciiUpper(c: char) {
    'A' <= c <= 'Z'
  }

  predicate IsAsciiLower(c: char) {
    'a' <= c <= 'z'
  }

  /** `Character.toLowerCase` on ASCII; every other character is kept. */
  function LowerChar(c: char): char {
    if IsAsciiUpper(c) then (c as int - 'A' as int + 'a' as int) as char else c
  }

  /** The upper-case partner of an ASCII lower-case letter. */
  function UpperChar(c: char): char
    requires IsAsciiLower(c)
  {
    (c as int - 'a' as int + 'A' as int) as char
  }

  /** `String.toLowerCase()`: lower-cases each character in place. */
  function ToLower(s: string): (r: string)
    ensures |r| == |s|
    ensures forall i :: 0 <= i < |s| ==> r[i] == LowerChar(s[i])
  {
    if s == [] then [] else [LowerChar(s[0])] + ToLower(s[1..])
  }

  /** No ASCII upper-case letter survives lower-casing, and lower-casing is idempotent. */
  lemma ToLowerIdempotent(s: string)
    ensures forall i :: 0 <= i < |s| ==> !IsAsciiUpper(ToLower(s)[i])
    ensures ToLower(ToLower(s)) == ToLower(s)
  {
  }

  /** Lower-casing neither creates nor removes a character that `trim()` strips. */
  lemma LowerCharKeepsTrimmed(c: char)
    ensures IsTrimmed(LowerChar(c)) <==> IsTrimmed(c)
  {
  }

  /** `a` and `b` have the same length and `trim()` strips the same places of both. */
  predicate SameTrimmed(a: string, b: string) {
    |a| == |b| && forall i :: 0 <= i < |a| ==> (IsTrimmed(a[i]) <==> IsTrimmed(b[i]))
  }

  lemma {:induction false} SkipLeadingAgrees(a: string, b: string, st: nat)
    requires SameTrimmed(a, b) && st <= |a|
    ensures SkipLeading(a, st) == SkipLeading(b, st)
    decreases |a| - st
  {
    if st < |a| && IsTrimmed(a[st]) {
      SkipLeadingAgrees(a, b, st + 1);
    }
  }

  lemma {:induction false} SkipTrailingAgrees(a: string, b: string, st: nat, len: nat)
    requires SameTrimmed(a, b) && st <= len <= |a|
    ensures SkipTrailing(a, st, len) == SkipTrailing(b, st, len)
    decreases len
  {
    if st < len && IsTrimmed(a[len - 1]) {
      SkipTrailingAgrees(a, b, st, len - 1);
    }
  }

  lemma LowerSameTrimmed(s: string)
    ensures SameTrimmed(s, ToLower(s))
  {
    forall i | 0 <= i < |s| ensures IsTrimmed(s[i]) <==> IsTrimmed(ToLower(s)[i]) {
      LowerCharKeepsTrimmed(s[i]);
    }
  }

  lemma LowerOfSlice(s: string, lo: nat, hi: nat)
    requires lo <= hi <= |s|
    ensures ToLower(s[lo..hi]) == ToLower(s)[lo..hi]
  {
  }

  /** Lower-casing and trimming commute. */
  lemma TrimOfLower(s: string)
    ensures Trim(ToLower(s)) == ToLower(Trim(s))
  {
    var l := ToLower(s);
    LowerSameTrimmed(s);
    SkipLeadingAgrees(s, l, 0);
    var st := SkipLeading(s, 0);
    SkipTrailingAgrees(s, l, st, |s|);
    var len := SkipTrailing(s, st, |s|);
    assert Trim(s) == s[st..len];
    assert Trim(l) == l[st..len];
    LowerOfSlice(s, st, len);
  }

  /**
    * `w` spells the lower-case ASCII word `p` in any mixture of cases: each of
    * its characters is the letter of `p` at that place or its capital.
    */
  predicate SpellsIgnoringCase(w: string, p: string)
    requires forall i :: 0 <= i < |p| ==> IsAsciiLower(p[i])
  {
    |w| == |p| && forall i :: 0 <= i < |p| ==> w[i] == p[i] || w[i] == UpperChar(p[i])
  }

  /** Lower-casing yields a lower-case ASCII word exactly when the input spells it in some case. */
  lemma LowerSpells(w: string, p: string)
    requires forall i :: 0 <= i < |p| ==> IsAsciiLower(p[i])
    ensures ToLower(w) == p <==> SpellsIgnoringCase(w, p)
  {
    if SpellsIgnoringCase(w, p) {
      assert forall i :: 0 <= i < |p| ==> ToLower(w)[i] == p[i];
    }
    if ToLower(w) == p {
      forall i | 0 <= i < |p| ensures w[i] == p[i] || w[i] == UpperChar(p[i]) {
        assert LowerChar(w[i]) == p[i];
      }
    }
  }

  // ---------------------------------------------------------------------
  // Integer.toString(int), as used by string concatenation

  predicate IsDigit(c: char) {
    '0' <= c <= '9'
  }

  predicate AllDigits(s: string) {
    forall i :: 0 <= i < |s| ==> IsDigit(s[i])
  }

  function DigitChar(d: nat): (c: char)
    requires d < 10
    ensures IsDigit(c)
  {
    ('0' as int + d) as char
  }

  /** The decimal digits of `n`, most significant first, without leading zeros. */
  function NatToDecimal(n: nat): (s: string)
    ensures |s| >= 1 && AllDigits(s)
    ensures |s| > 1 ==> s[0] != '0'
  {
    if n < 10 then [DigitChar(n)] else NatToDecimal(n / 10) + [DigitChar(n % 10)]
  }

  /** The number a string of decimal digits denotes. */
  function DecimalValue(s: string): nat
    requires AllDigits(s)
  {
    if s == [] then 0 else 10 * DecimalValue(s[..|s| - 1]) + (s[|s| - 1] as int - '0' as int)
  }

  lemma {:induction false} DecimalRoundTrip(n: nat)
    ensures DecimalValue(NatToDecimal(n)) == n
  {
    if n >= 10 {
      var s := NatToDecimal(n);
      assert s[..|s| - 1] == NatToDecimal(n / 10);
      DecimalRoundTrip(n / 10);
    }
  }

  /** `Integer.toString`: a minus sign for negative values, then the decimal digits. */
  function IntToString(n: int): (s: string)
    ensures |s| >= 1 && (IsDigit(s[0]) || s[0] == '-')
    ensures n < 0 <==> s[0] == '-'
  {
    if n < 0 then "-" + NatToDecimal(-n) else NatToDecimal(n)
  }

  /** Reads back an optionally signed string of decimal digits. */
  function ParseInt(s: string): Option<int> {
    if |s| >= 2 && s[0] == '-' && AllDigits(s[1..]) then Some(0 - DecimalValue(s[1..]) as int)
    else if |s| >= 1 && AllDigits(s) then Some(DecimalValue(s))
    else None
  }

  /** The decimal form of an integer reads back as that integer, so it is injective. */
  lemma IntToStringRoundTrip(n: int)
    ensures ParseInt(IntToString(n)) == Some(n)
  {
    if n < 0 {
      var s := IntToString(n);
      assert s[1..] == NatToDecimal(-n);
      DecimalRoundTrip(-n);
    } else {
      DecimalRoundTrip(n);
    }
  }
}
