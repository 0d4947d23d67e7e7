/**
 * The few C library string routines the modelled code relies on, stated for
 * the "C" locale: `strtol` in base 10, `%u` formatting, `strcasecmp`,
 * `strncmp` against a keyword, `strchr`, and the truncation `snprintf`
 * applies to a text that does not fit its buffer.
 */
module CText {
  import opened Base

  predicate IsSpace(c: char) {
    c == ' ' || c == '\t' || c == '\n' || c == '\U{B}' || c == '\U{C}' || c == '\r'
  }

  predicate IsDigit(c: char) {
    '0' <= c <= '9'
  }

  function DigitValue(c: char): nat
    requires IsDigit(c)
  {
    c as int - '0' as int
  }

  /** Number of consecutive characters of `s` starting at `i` that satisfy `IsSpace`. */
  function SpaceRun(s: string, i: nat): (k: nat)
    requires i <= |s|
    ensures i + k <= |s|
    ensures forall j :: i <= j < i + k ==> IsSpace(s[j])
    ensures i + k == |s| || !IsSpace(s[i + k])
    decreases |s| - i
  {
    if i < |s| && IsSpace(s[i]) then 1 + SpaceRun(s, i + 1) else 0
  }

  /** Number of consecutive decimal digits of `s` starting at `i`. */
  function DigitRun(s: string, i: nat): (k: nat)
    requires i <= |s|
    ensures i + k <= |s|
    ensures forall j :: i <= j < i + k ==> IsDigit(s[j])
    ensures i + k == |s| || !IsDigit(s[i + k])
    decreases |s| - i
  {
    if i < |s| && IsDigit(s[i]) then 1 + DigitRun(s, i + 1) else 0
  }

  /** The value of a string of decimal digits, most significant first. */
  function DigitsValue(d: string): nat
    requires forall j :: 0 <= j < |d| ==> IsDigit(d[j])
  {
    if d == [] then 0 else 10 * DigitsValue(d[..|d| - 1]) + DigitValue(d[|d| - 1])
  }

  function Clamp(v: int, lo: int, hi: int): int
    requires lo <= hi
  {
    if v < lo then lo else if v > hi then hi else v
  }

  /**
   * `strtol(s, &end, 10)`: leading white space, an optional sign, then the
   * longest run of digits; the result saturates at LONG_MIN/LONG_MAX.  The
   * second component is the offset `end` reaches, 0 when no digit was read.
   */
  function StrToL(s: string): (r: (int, nat))
    ensures r.1 <= |s|
    ensures LONG_MIN <= r.0 <= LONG_MAX
    ensures r.1 == 0 ==> r.0 == 0
  {
    var ws := SpaceRun(s, 0);
    var signed := ws < |s| && (s[ws] == '+' || s[ws] == '-');
    var start := if signed then ws + 1 else ws;
    var k := DigitRun(s, start);
    if k == 0 then (0, 0)
    else
      var magnitude: int := DigitsValue(s[start..start + k]);
      var v: int := if signed && s[ws] == '-' then -magnitude else magnitude;
      (Clamp(v, LONG_MIN, LONG_MAX), start + k)
  }

  function DigitChar(d: nat): (c: char)
    requires d < 10
    ensures IsDigit(c) && DigitValue(c) == d
  {
    ('0' as int + d) as char
  }

  /** `%u`-style decimal rendering of `n`. */
  function Dec(n: nat): (s: string)
    ensures |s| >= 1
    ensures forall j :: 0 <= j < |s| ==> IsDigit(s[j])
  {
    if n < 10 then [DigitChar(n)] else Dec(n / 10) + [DigitChar(n % 10)]
  }

  /** Reading back a rendered number gives the number: `Dec` and `DigitsValue` are inverse. */
  lemma {:induction false} DecValue(n: nat)
    ensures DigitsValue(Dec(n)) == n
  {
    if n >= 10 {
      var s := Dec(n);
      assert s[..|s| - 1] == Dec(n / 10);
      DecValue(n / 10);
    }
  }

  /** `strtol` consumes exactly the whole rendering of a number and returns the number. */
  lemma StrToLDec(n: nat)
    requires n <= LONG_MAX
    ensures StrToL(Dec(n)) == (n as int, |Dec(n)|)
  {
    StrToLDigits(Dec(n));
    DecValue(n);
  }

  /** A nonempty run of digits is read whole, as its value (saturated). */
  lemma StrToLDigits(s: string)
    requires |s| >= 1 && forall j :: 0 <= j < |s| ==> IsDigit(s[j])
    ensures StrToL(s) == (Clamp(DigitsValue(s), LONG_MIN, LONG_MAX), |s|)
  {
    assert IsDigit(s[0]);
    assert SpaceRun(s, 0) == 0;
    DigitRunAll(s, 0);
    assert s[0..0 + |s|] == s;
  }

  lemma {:induction false} DigitRunAll(s: string, i: nat)
    requires i <= |s|
    requires forall j :: i <= j < |s| ==> IsDigit(s[j])
    ensures DigitRun(s, i) == |s| - i
    decreases |s| - i
  {
    if i < |s| {
      DigitRunAll(s, i + 1);
    }
  }

  /** ASCII case folding, as `strcasecmp` does in the "C" locale. */
  function Lower(c: char): char {
    if 'A' <= c <= 'Z' then (c as int + 32) as char else c
  }

  /** `strcasecmp(a, b) == 0` */
  predicate EqualsIgnoreCase(a: string, b: string) {
    |a| == |b| && forall j :: 0 <= j < |a| ==> Lower(a[j]) == Lower(b[j])
  }

  /** `strncmp(name, keyword, strlen(name)) == 0` for a NUL-free `name`: `name` is a prefix of `keyword`. */
  predicate PrefixOf(name: string, keyword: string) {
    |name| <= |keyword| && name == keyword[..|name|]
  }

  /** `strchr`: the index of the first occurrence of `c` in `s`, if any. */
  function Find(s: string, c: char): (r: Option<nat>)
    ensures r.Some? ==> r.value < |s| && s[r.value] == c
  {
    if s == [] then None
    else if s[0] == c then Some(0)
    else match Find(s[1..], c)
      case None => None
      case Some(k) => Some(k + 1)
  }

  /** `strchr` finds the first occurrence, and finds nothing only when there is none. */
  lemma {:induction false} FindFirstOccurrence(s: string, c: char)
    ensures Find(s, c).Some? ==> c !in s[..Find(s, c).value]
    ensures Find(s, c).None? <==> c !in s
    decreases |s|
  {
    if s != [] && s[0] != c {
      FindFirstOccurrence(s[1..], c);
      assert s == [s[0]] + s[1..];
      if Find(s, c).Some? {
        assert s[..Find(s, c).value] == [s[0]] + s[1..][..Find(s[1..], c).value];
      }
    }
  }

  /** An occurrence with none before it is the one `strchr` finds. */
  lemma {:induction false} FindFirst(s: string, c: char, k: nat)
    requires k < |s| && s[k] == c && c !in s[..k]
    ensures Find(s, c) == Some(k)
    decreases k
  {
    if k > 0 {
      assert s[1..][..k - 1] == s[..k][1..];
      FindFirst(s[1..], c, k - 1);
    }
  }

  /** What snprintf leaves in a buffer of `size` characters: as much of the text as fits before a terminating NUL. */
  function Truncated(text: string, size: nat): (r: string)
    requires size >= 1
    ensures 1 <= |r| <= size && r[|r| - 1] == '\0'
  {
    (if |text| < size then text else text[..size - 1]) + ['\0']
  }

  /** The whole text is kept, terminator included, exactly when it is shorter than the buffer. */
  lemma TruncatedWhole(text: string, size: nat)
    requires size >= 1
    ensures Truncated(text, size) == text + ['\0'] <==> |text| < size
  {
    if |text| >= size {
      assert |Truncated(text, size)| < |text + ['\0']|;
    }
  }
}
