/**
 The helpers of src/utils.rs: `clamp`, and `parse_pair`, which splits a
 string such as "400x800" at the first separator and parses both halves. The
 half-parser is a parameter; `ParseUsize` is the decimal instance used for
 image sizes, following the rules of Rust's `usize::from_str`.
 */
module Utils {
  import opened Options

  /** `clamp(lo, hi, value)`: `max(lo, min(hi, value))`. */
  function Clamp(lo: real, hi: real, value: real): (r: real)
    ensures lo <= hi ==> lo <= r <= hi
    ensures lo <= value <= hi ==> r == value
    ensures value <= lo ==> r == lo
    ensures lo <= hi && hi <= value ==> r == hi
  {
    var m := if hi < value then hi else value;
    if lo < m then m else lo
  }

  lemma ClampIdempotent(lo: real, hi: real, value: real)
    requires lo <= hi
    ensures Clamp(lo, hi, Clamp(lo, hi, value)) == Clamp(lo, hi, value)
  {
  }

  /** The position of the first occurrence of `c` in `s`, if any. */
  function Find(s: string, c: char): (r: Option<nat>)
    ensures r.Some? ==> r.value < |s| && s[r.value] == c && forall i :: 0 <= i < r.value ==> s[i] != c
    ensures r.None? <==> forall i :: 0 <= i < |s| ==> s[i] != c
    decreases |s|
  {
    if |s| == 0 then None
    else if s[0] == c then Some(0)
    else match Find(s[1..], c)
         case None => None
         case Some(i) => Some(i + 1)
  }

  /**
   `parse_pair`: nothing when the separator is absent; otherwise the two
   halves around its first occurrence, each parsed, and nothing when either
   half fails to parse. The source finds a byte offset and cuts one byte
   after it, which is a character boundary only for a one-byte (ASCII)
   separator; any other separator that occurs makes it panic.
   */
  function ParsePair<T>(s: string, separator: char, parse: string -> Option<T>): (r: Option<(T, T)>)
    requires separator as int < 128
    ensures Find(s, separator).None? ==> r.None?
    ensures Find(s, separator).Some? ==>
              var i := Find(s, separator).value;
              r.Some? <==> parse(s[..i]).Some? && parse(s[i + 1..]).Some?
    ensures r.Some? ==>
              var i := Find(s, separator).value;
              r.value == (parse(s[..i]).value, parse(s[i + 1..]).value)
  {
    match Find(s, separator)
    case None => None
    case Some(index) =>
      match (parse(s[..index]), parse(s[index + 1..]))
      case (Some(l), Some(r)) => Some((l, r))
      case _ => None
  }

  /** The largest `usize` on a 64-bit target. */
  const UsizeMax: nat := 0xFFFF_FFFF_FFFF_FFFF

  predicate IsDigit(c: char) {
    '0' <= c <= '9'
  }

  predicate AllDigits(s: string) {
    forall i :: 0 <= i < |s| ==> IsDigit(s[i])
  }

  function DigitValue(c: char): nat
    requires IsDigit(c)
  {
    c as nat - '0' as nat
  }

  /** The value of a string of decimal digits, most significant first. */
  function DigitsValue(s: string): nat
    requires AllDigits(s)
    decreases |s|
  {
    if |s| == 0 then 0 else DigitsValue(s[..|s| - 1]) * 10 + DigitValue(s[|s| - 1])
  }

  /** The text after an optional leading `+`. */
  function Unsigned(s: string): (d: string)
    ensures s == d || s == ['+'] + d
    ensures 0 < |s| && s[0] == '+' ==> |d| == |s| - 1
  {
    if 0 < |s| && s[0] == '+' then s[1..] else s
  }

  /**
   `usize::from_str`: an optional leading `+` and then at least one decimal
   digit, with a value that fits in 64 bits; anything else is an error.
   */
  function ParseUsize(s: string): (r: Option<nat>)
    ensures r.Some? ==> r.value <= UsizeMax
    ensures r.Some? ==> 0 < |s| && (IsDigit(s[0]) || s[0] == '+')
    ensures r.Some? <==> var d := Unsigned(s); 0 < |d| && AllDigits(d) && DigitsValue(d) <= UsizeMax
    ensures r.Some? ==> r.value == DigitsValue(Unsigned(s))
  {
    var digits := Unsigned(s);
    if |digits| == 0 || !AllDigits(digits) then None
    else if DigitsValue(digits) <= UsizeMax then Some(DigitsValue(digits))
    else None
  }

  /** The decimal digits of `n`, without leading zeros (and "0" for zero). */
  function Dec(n: nat): (s: string)
    ensures 0 < |s|
    ensures AllDigits(s)
    decreases n
  {
    if n < 10 then [('0' as nat + n) as char]
    else Dec(n / 10) + [('0' as nat + n % 10) as char]
  }

  /** Printing then parsing gives back every `usize`. */
  lemma {:induction false} DigitsOfDec(n: nat)
    ensures DigitsValue(Dec(n)) == n
    decreases n
  {
    var s := Dec(n);
    if n >= 10 {
      DigitsOfDec(n / 10);
      assert s[..|s| - 1] == Dec(n / 10);
    }
  }

  lemma ParseUsizeRoundTrip(n: nat)
    requires n <= UsizeMax
    ensures ParseUsize(Dec(n)) == Some(n)
  {
    DigitsOfDec(n);
  }

  /** `k` zero digits. */
  function Zeros(k: nat): (z: string)
    ensures |z| == k && AllDigits(z)
  {
    seq(k, _ => '0')
  }

  /** The leading zeros of a digit string, not counting a final digit. */
  function LeadingZeros(d: string): (k: nat)
    requires 0 < |d|
    ensures k < |d|
    decreases |d|
  {
    if 1 < |d| && d[0] == '0' then 1 + LeadingZeros(d[1..]) else 0
  }

  /** A leading zero does not change the value of a digit string. */
  lemma {:induction false} LeadingZeroValue(t: string)
    requires AllDigits(t)
    ensures AllDigits(['0'] + t) && DigitsValue(['0'] + t) == DigitsValue(t)
    decreases |t|
  {
    var u := ['0'] + t;
    if 0 < |t| {
      assert u[..|u| - 1] == ['0'] + t[..|t| - 1];
      LeadingZeroValue(t[..|t| - 1]);
    } else {
      assert u[..0] == [];
    }
  }

  /** Any number of leading zeros leaves the value unchanged. */
  lemma {:induction false} ZerosValue(k: nat, t: string)
    requires AllDigits(t)
    ensures AllDigits(Zeros(k) + t) && DigitsValue(Zeros(k) + t) == DigitsValue(t)
    decreases k
  {
    if 0 < k {
      assert Zeros(k) + t == ['0'] + (Zeros(k - 1) + t);
      ZerosValue(k - 1, t);
      LeadingZeroValue(Zeros(k - 1) + t);
    } else {
      assert Zeros(0) + t == t;
    }
  }

  /** A digit string that starts with a non-zero digit has a positive value. */
  lemma {:induction false} NonZeroLeadPositive(d: string)
    requires 0 < |d| && AllDigits(d) && d[0] != '0'
    ensures 0 < DigitsValue(d)
    decreases |d|
  {
    if 1 < |d| {
      NonZeroLeadPositive(d[..|d| - 1]);
    }
  }

  /** A digit string without a redundant leading zero is the decimal text of its value. */
  lemma {:induction false} CanonicalIsDec(d: string)
    requires 0 < |d| && AllDigits(d)
    requires |d| == 1 || d[0] != '0'
    ensures d == Dec(DigitsValue(d))
    decreases |d|
  {
    if 1 < |d| {
      var init := d[..|d| - 1];
      CanonicalIsDec(init);
      NonZeroLeadPositive(init);
      var v, vi := DigitsValue(d), DigitsValue(init);
      assert v == vi * 10 + DigitValue(d[|d| - 1]);
      assert v / 10 == vi && v % 10 == DigitValue(d[|d| - 1]);
      assert d == init + [d[|d| - 1]];
    }
  }

  /** Every digit string is its leading zeros followed by the decimal text of its value. */
  lemma {:induction false} DigitsCanonical(d: string)
    requires 0 < |d| && AllDigits(d)
    ensures d == Zeros(LeadingZeros(d)) + Dec(DigitsValue(d))
    decreases |d|
  {
    if 1 < |d| && d[0] == '0' {
      var rest := d[1..];
      DigitsCanonical(rest);
      LeadingZeroValue(rest);
      assert d == ['0'] + rest;
      assert Zeros(LeadingZeros(d)) == ['0'] + Zeros(LeadingZeros(rest));
    } else {
      CanonicalIsDec(d);
      assert Zeros(0) + d == d;
    }
  }

  /** The optional sign: `+` or nothing. */
  function Sign(plus: bool): string {
    if plus then "+" else ""
  }

  /**
   What `usize::from_str` accepts, and nothing else: an optional `+`, any
   number of zeros, and the decimal text of the value.
   */
  lemma ParseUsizeShape(s: string)
    requires ParseUsize(s).Some?
    ensures var n := ParseUsize(s).value;
            s == Sign(s[0] == '+') + Zeros(LeadingZeros(Unsigned(s))) + Dec(n)
  {
    DigitsCanonical(Unsigned(s));
  }

  /** Conversely, every text of that shape parses to its value. */
  lemma ParseUsizeOfShape(plus: bool, k: nat, n: nat)
    requires n <= UsizeMax
    ensures ParseUsize(Sign(plus) + Zeros(k) + Dec(n)) == Some(n)
  {
    var d := Zeros(k) + Dec(n);
    var s := Sign(plus) + Zeros(k) + Dec(n);
    ZerosValue(k, Dec(n));
    DigitsOfDec(n);
    assert s == Sign(plus) + d;
    UnsignedOfDigits(plus, d);
    ParsesTo(s, d, n);
  }

  /** The sign is all that `Unsigned` removes from a sign followed by digits. */
  lemma UnsignedOfDigits(plus: bool, d: string)
    requires 0 < |d| && AllDigits(d)
    ensures Unsigned(Sign(plus) + d) == d
  {
    if plus {
      assert Sign(plus) + d == ['+'] + d;
    } else {
      assert Sign(plus) + d == d;
      assert IsDigit(d[0]);
    }
  }

  /** A text whose unsigned part is a run of digits with a value that fits parses to that value. */
  lemma ParsesTo(s: string, d: string, n: nat)
    requires Unsigned(s) == d && 0 < |d| && AllDigits(d)
    requires DigitsValue(d) == n && n <= UsizeMax
    ensures ParseUsize(s) == Some(n)
  {
  }

  /**
   A pair of sizes written with a separator that is not a digit parses back
   to the pair, as in "400x800".
   */
  lemma ParsePairRoundTrip(a: nat, b: nat, separator: char)
    requires a <= UsizeMax && b <= UsizeMax
    requires !IsDigit(separator) && separator as int < 128
    ensures ParsePair(Dec(a) + [separator] + Dec(b), separator, ParseUsize) == Some((a, b))
  {
    var s := Dec(a) + [separator] + Dec(b);
    FindAfterDigits(Dec(a), separator, Dec(b));
    assert s[..|Dec(a)|] == Dec(a);
    assert s[|Dec(a)| + 1..] == Dec(b);
    ParseUsizeRoundTrip(a);
    ParseUsizeRoundTrip(b);
  }

  lemma FindAfterDigits(prefix: string, separator: char, rest: string)
    requires AllDigits(prefix)
    requires !IsDigit(separator)
    ensures Find(prefix + [separator] + rest, separator) == Some(|prefix|)
  {
    var s := prefix + [separator] + rest;
    assert s[|prefix|] == separator;
    assert forall i :: 0 <= i < |prefix| ==> s[i] == prefix[i];
    var f := Find(s, separator);
    assert f.Some?;
    assert f.value == |prefix|;
  }

  /** A later separator stays inside the right half, so "1x2x3" is not a pair of sizes. */
  lemma SecondSeparatorFails()
    ensures ParsePair("1x2x3", 'x', ParseUsize) == None
  {
    var s := "1x2x3";
    assert Find(s, 'x') == Some(1);
    assert s[2..] == "2x3";
    var right := s[2..];
    assert right[0] != '+' && !IsDigit(right[1]);
    assert !AllDigits(right);
  }

  /** The separator must be present, and both halves must be non-empty numbers. */
  lemma ParsePairFailures()
    ensures ParsePair("", ',', ParseUsize) == None
    ensures ParsePair("12", ',', ParseUsize) == None
    ensures ParsePair(",", ',', ParseUsize) == None
    ensures ParsePair(",37", ',', ParseUsize) == None
  {
    assert Find(",", ',') == Some(0);
    assert Find(",37", ',') == Some(0);
    assert ","[..0] == "";
    assert ",37"[..0] == "";
  }

  lemma ParsePairExample()
    ensures ParsePair("400x800", 'x', ParseUsize) == Some((400, 800))
  {
    assert Dec(4) == "4";
    assert Dec(40) == "40";
    assert Dec(400) == "400";
    assert Dec(8) == "8";
    assert Dec(80) == "80";
    assert Dec(800) == "800";
    ParsePairRoundTrip(400, 800, 'x');
    assert Dec(400) + ['x'] + Dec(800) == "400x800";
  }
}
