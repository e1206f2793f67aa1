/**
 * Numbers kept as text: the "%23lld" that `cache_incr` prints and the strtoll that reads it
 * back, over 64-bit integers.
 */
module Decimal {
  import opened Bytes

  const MIN64: int := -0x8000_0000_0000_0000
  const MAX64: int := 0x7FFF_FFFF_FFFF_FFFF

  const NUL: Byte := 0
  const SPACE: Byte := 32
  const PLUS: Byte := 43
  const MINUS: Byte := 45
  const ZERO: Byte := 48

  predicate IsSpace(b: Byte) {
    b == SPACE || 9 <= b <= 13
  }

  predicate IsDigit(b: Byte) {
    ZERO <= b <= ZERO + 9
  }

  predicate InRange(n: int) {
    MIN64 <= n <= MAX64
  }

  // ----- Reading -----

  /** The value of the digits at the front, added to what has been read so far. */
  function ReadDigits(s: seq<Byte>, n: nat): nat {
    if s != [] && IsDigit(s[0]) then ReadDigits(s[1..], 10 * n + (s[0] - ZERO)) else n
  }

  function Clamp(n: int): int {
    if n < MIN64 then MIN64 else if n > MAX64 then MAX64 else n
  }

  /** strtoll in base ten: spaces, a sign, digits; out of range it sticks to the nearest bound. */
  function Strtoll(s: seq<Byte>): int {
    if s == [] then 0
    else if IsSpace(s[0]) then Strtoll(s[1..])
    else if s[0] == MINUS then Clamp(0 - ReadDigits(s[1..], 0))
    else if s[0] == PLUS then Clamp(ReadDigits(s[1..], 0))
    else Clamp(ReadDigits(s, 0))
  }

  // ----- Printing -----

  function Digits(n: nat): (r: seq<Byte>)
    ensures r != [] && IsDigit(r[0])
  {
    if n < 10 then [ZERO + n] else Digits(n / 10) + [ZERO + n % 10]
  }

  function Signed(n: int): seq<Byte> {
    if n < 0 then [MINUS] + Digits(-n) else Digits(n)
  }

  function Spaces(k: nat): (r: seq<Byte>)
    ensures |r| == k
  {
    if k == 0 then [] else [SPACE] + Spaces(k - 1)
  }

  const WIDTH: nat := 23

  /** snprintf with "%23lld". */
  function Padded(n: int): seq<Byte> {
    var s := Signed(n);
    if |s| < WIDTH then Spaces(WIDTH - |s|) + s else s
  }

  // ----- Reading undoes printing -----

  function Pow10(k: nat): (p: nat)
    ensures p > 0
  {
    if k == 0 then 1 else 10 * Pow10(k - 1)
  }

  lemma {:induction false} DigitsFit(n: nat, k: nat)
    requires k > 0 && n < Pow10(k)
    ensures |Digits(n)| <= k
    decreases k
  {
    if n < 10 {
    } else {
      assert k > 1 && n / 10 < Pow10(k - 1);
      DigitsFit(n / 10, k - 1);
    }
  }

  /** Any 64-bit number takes at most nineteen digits and a sign, so it is padded to full width. */
  lemma PaddedWidth(n: int)
    requires InRange(n)
    ensures |Padded(n)| == WIDTH
  {
    assert Pow10(6) == 1_000_000;
    assert Pow10(12) == 1_000_000_000_000;
    assert Pow10(19) == 10_000_000_000_000_000_000;
    DigitsFit(if n < 0 then -n else n, 19);
  }

  lemma {:induction false} DigitsReadBack(n: nat, rest: seq<Byte>)
    ensures ReadDigits(Digits(n) + rest, 0) == ReadDigits(rest, n)
  {
    if n < 10 {
      assert (Digits(n) + rest)[1..] == rest;
    } else {
      var d: Byte := ZERO + n % 10;
      assert Digits(n) + rest == Digits(n / 10) + ([d] + rest);
      DigitsReadBack(n / 10, [d] + rest);
      assert ([d] + rest)[1..] == rest;
    }
  }

  lemma {:induction false} SpacesAreSkipped(k: nat, s: seq<Byte>)
    ensures Strtoll(Spaces(k) + s) == Strtoll(s)
  {
    if k == 0 {
      assert Spaces(0) + s == s;
    } else {
      SpacesAreSkipped(k - 1, s);
      assert (Spaces(k) + s)[1..] == Spaces(k - 1) + s;
    }
  }

  lemma SignAndDigits(x: seq<Byte>)
    ensures Strtoll([MINUS] + x) == Clamp(0 - ReadDigits(x, 0))
    ensures x != [] && IsDigit(x[0]) ==> Strtoll(x) == Clamp(ReadDigits(x, 0))
  {
    assert ([MINUS] + x)[1..] == x;
  }

  lemma NoMoreDigits(rest: seq<Byte>, n: nat)
    requires rest == [] || !IsDigit(rest[0])
    ensures ReadDigits(rest, n) == n
  {}

  lemma SignedReadsBack(n: int, rest: seq<Byte>)
    requires InRange(n) && (rest == [] || !IsDigit(rest[0]))
    ensures Strtoll(Signed(n) + rest) == n
  {
    hide Strtoll, Digits, ReadDigits;
    var m := if n < 0 then -n else n;
    var x := Digits(m) + rest;
    DigitsReadBack(m, rest);
    NoMoreDigits(rest, m);
    SignAndDigits(x);
    assert Signed(n) + rest == if n < 0 then [MINUS] + x else x;
  }

  /** The padded text, ended by anything but a digit, reads back as the number. */
  lemma PaddedReadsBack(n: int, rest: seq<Byte>)
    requires InRange(n) && (rest == [] || !IsDigit(rest[0]))
    ensures Strtoll(Padded(n) + rest) == n
  {
    hide Strtoll, Signed;
    var s := Signed(n);
    SignedReadsBack(n, rest);
    if |s| < WIDTH {
      SpacesAreSkipped(WIDTH - |s|, s + rest);
      assert Padded(n) + rest == Spaces(WIDTH - |s|) + (s + rest);
    }
  }

  // ----- The counter of cache_incr -----

  const BUFFER: nat := 24

  /** The bytes of a counter after it has been set to n: a small buffer is replaced, a larger one overwritten. */
  function Rewritten(val: seq<Byte>, n: int): seq<Byte> {
    Padded(n) + [NUL] + if |val| < BUFFER then [] else val[BUFFER..]
  }

  predicate IsText(val: seq<Byte>) {
    val != [] && val[|val| - 1] == NUL
  }

  /** What the next increment finds is what the last one wrote. */
  lemma RewrittenReadsBack(val: seq<Byte>, n: int)
    requires IsText(val) && InRange(n)
    ensures var r := Rewritten(val, n);
            Strtoll(r) == n && IsText(r) && |r| == if |val| < BUFFER then BUFFER else |val|
  {
    hide Strtoll, Padded;
    var rest := if |val| < BUFFER then [] else val[BUFFER..];
    PaddedWidth(n);
    PaddedReadsBack(n, [NUL] + rest);
    assert Rewritten(val, n) == Padded(n) + ([NUL] + rest);
  }

  function Sum(incs: seq<int>): int {
    if incs == [] then 0 else Sum(incs[..|incs| - 1]) + incs[|incs| - 1]
  }

  /** The bytes after a run of increments, and whether every one of them stays in range. */
  function Increments(val: seq<Byte>, incs: seq<int>): seq<Byte> {
    if incs == [] then val
    else
      var before := Increments(val, incs[..|incs| - 1]);
      Rewritten(before, Strtoll(before) + incs[|incs| - 1])
  }

  predicate NoOverflow(start: int, incs: seq<int>) {
    forall k :: 0 <= k <= |incs| ==> InRange(start + Sum(incs[..k]))
  }

  /** After any run of increments without overflow the text reads as the first number plus their sum. */
  lemma {:induction false} IncrementsAdd(val: seq<Byte>, incs: seq<int>)
    requires IsText(val) && NoOverflow(Strtoll(val), incs)
    ensures IsText(Increments(val, incs)) && Strtoll(Increments(val, incs)) == Strtoll(val) + Sum(incs)
    decreases |incs|
  {
    hide Strtoll, Rewritten, IsText;
    if incs == [] {
    } else {
      var init := incs[..|incs| - 1];
      forall k | 0 <= k <= |init| ensures InRange(Strtoll(val) + Sum(init[..k])) {
        assert init[..k] == incs[..k];
      }
      IncrementsAdd(val, init);
      assert incs[..|incs|] == incs;
      RewrittenReadsBack(Increments(val, init), Strtoll(val) + Sum(incs));
    }
  }

  /** A number is written in decimal, highest digit first, behind spaces and a sign. */
  lemma Written()
    ensures Signed(-120) == [45, 49, 50, 48] && Padded(7) == Spaces(22) + [55]
    ensures Strtoll([32, 9, 43, 49, 50, 120]) == 12
  {
    assert Digits(120) == Digits(12) + [48] && Digits(12) == [49, 50];
    var s := [32, 9, 43, 49, 50, 120];
    assert s[1..] == [9, 43, 49, 50, 120] && s[1..][1..] == [43, 49, 50, 120] && s[1..][1..][1..] == [49, 50, 120];
    assert ReadDigits([49, 50, 120], 0) == 12 by {
      assert [49, 50, 120][1..] == [50, 120] && [50, 120][1..] == [120];
    }
  }

  /** A number of too many digits is read as the largest or the smallest of 64 bits. */
  lemma OutOfRange(n: nat, rest: seq<Byte>)
    requires rest == [] || !IsDigit(rest[0])
    ensures n > MAX64 ==> Strtoll(Digits(n) + rest) == 0x7FFF_FFFF_FFFF_FFFF
    ensures 0 - n < MIN64 ==> Strtoll([MINUS] + (Digits(n) + rest)) == -0x8000_0000_0000_0000
  {
    hide Strtoll, Digits, ReadDigits;
    DigitsReadBack(n, rest);
    NoMoreDigits(rest, n);
    SignAndDigits(Digits(n) + rest);
  }
}
