/** Bytes, 64-bit wrap-around, little-endian integers and the sixteen-digit hexadecimal address format. */
module Bytes {
  import opened Wrappers

  type byte = b: int | 0 <= b < 256

  const TWO_64: int := 0x1_0000_0000_0000_0000

  /** The value a `uint64_t` or `size_t` holds after unsigned arithmetic. */
  function Wrap64(x: int): (r: nat)
    ensures r < TWO_64
    ensures 0 <= x < TWO_64 ==> r == x
    ensures -TWO_64 <= x < 0 ==> r == x + TWO_64
    ensures TWO_64 <= x < 2 * TWO_64 ==> r == x - TWO_64
  {
    x % TWO_64
  }

  function Pow(base: nat, n: nat): (r: nat)
    requires base > 0
    ensures r > 0
  {
    if n == 0 then 1 else PowStep(base, Pow(base, n - 1))
  }

  function PowStep(base: nat, p: nat): (r: nat)
    requires base > 0 && p > 0
    ensures r > 0
  {
    base * p
  }

  lemma PowValues()
    ensures Pow(256, 1) == 0x100 && Pow(256, 2) == 0x1_0000 && Pow(256, 4) == 0x1_0000_0000 && Pow(256, 8) == TWO_64
    ensures Pow(16, 16) == TWO_64
  {
    assert Pow(256, 3) == 0x100_0000;
    assert Pow(256, 6) == 0x1_0000_0000_0000 by { assert Pow(256, 5) == 0x100_0000_0000; }
    assert Pow(256, 7) == 0x100_0000_0000_0000;
    assert Pow(16, 4) == 0x1_0000 by { assert Pow(16, 2) == 0x100; assert Pow(16, 3) == 0x1000; }
    assert Pow(16, 8) == 0x1_0000_0000 by { assert Pow(16, 6) == 0x100_0000; assert Pow(16, 7) == 0x1000_0000; }
    assert Pow(16, 12) == 0x1_0000_0000_0000 by { assert Pow(16, 10) == 0x100_0000_0000; }
    assert Pow(16, 14) == 0x100_0000_0000_0000;
  }

  /** The low `n` bytes of `v`, least significant first. */
  function LittleEndian(n: nat, v: nat): (s: seq<byte>)
    ensures |s| == n
  {
    if n == 0 then [] else [v % 256] + LittleEndian(n - 1, v / 256)
  }

  /** Byte `k` of the encoding is the digit of weight 256^k. */
  lemma {:induction false} LittleEndianDigit(n: nat, v: nat, k: nat)
    requires k < n
    ensures LittleEndian(n, v)[k] as int == v / Pow(256, k) % 256
  {
    if k > 0 {
      LittleEndianDigit(n - 1, v / 256, k - 1);
      DivideTwice(v, 256, Pow(256, k - 1));
    }
  }

  lemma ProductOfSum(a: nat, x: nat, y: nat)
    ensures a * (x + y) == a * x + a * y
  {
  }

  lemma ProductOfProduct(a: nat, b: nat, c: nat)
    ensures a * (b * c) == a * b * c
  {
  }

  lemma ProductOrder(a: nat, x: nat, y: nat)
    ensures x < y ==> a * x + a <= a * y
  {
    if x < y {
      ProductOfSum(a, x, 1);
      ProductOfSum(a, x + 1, y - x - 1);
    }
  }

  lemma QuotientOf(v: nat, m: nat, q: nat, r: nat)
    requires r < m && v == m * q + r
    ensures v / m == q
  {
    var e := v / m;
    assert v == m * e + v % m;
    ProductOrder(m, q, e);
    ProductOrder(m, e, q);
  }

  lemma DivideTwice(v: nat, a: nat, b: nat)
    requires a > 0 && b > 0
    ensures v / a / b == v / PowStep(a, b)
  {
    var q, r := v / a, v % a;
    var s, t := q / b, q % b;
    DivideParts(v, a, q, r, b, s, t);
  }

  lemma DivideParts(v: nat, a: nat, q: nat, r: nat, b: nat, s: nat, t: nat)
    requires r < a && t < b && v == a * q + r && q == b * s + t && PowStep(a, b) > 0
    ensures v / PowStep(a, b) == s
  {
    ProductOfSum(a, b * s, t);
    ProductOfProduct(a, b, s);
    ProductOrder(a, t, b);
    QuotientOf(v, PowStep(a, b), s, a * t + r);
  }

  function FromLittleEndian(s: seq<byte>): nat {
    if s == [] then 0 else s[0] + 256 * FromLittleEndian(s[1..])
  }

  lemma {:induction false} LittleEndianRoundTrip(n: nat, v: nat)
    requires v < Pow(256, n)
    ensures FromLittleEndian(LittleEndian(n, v)) == v
  {
    if n > 0 {
      assert v / 256 < Pow(256, n - 1);
      LittleEndianRoundTrip(n - 1, v / 256);
      assert LittleEndian(n, v)[1..] == LittleEndian(n - 1, v / 256);
    }
  }

  lemma {:induction false} LittleEndianOnto(s: seq<byte>)
    ensures FromLittleEndian(s) < Pow(256, |s|)
    ensures LittleEndian(|s|, FromLittleEndian(s)) == s
  {
    if s != [] {
      LittleEndianOnto(s[1..]);
      var rest := FromLittleEndian(s[1..]);
      assert rest < Pow(256, |s| - 1);
      assert FromLittleEndian(s) % 256 == s[0] && FromLittleEndian(s) / 256 == rest;
    }
  }

  /** The two's-complement reading of an `n`-byte unsigned value. */
  function Signed(n: nat, u: nat): int
  {
    if 2 * u < Pow(256, n) then u else u - Pow(256, n)
  }

  /** It is the value in the signed range that is equal to the unsigned one modulo 256^n. */
  lemma SignedIsCongruent(n: nat, u: nat)
    requires u < Pow(256, n)
    ensures -(Pow(256, n) as int) <= 2 * Signed(n, u) < Pow(256, n)
    ensures (u - Signed(n, u)) % Pow(256, n) == 0
  {
    hide Pow;
  }

  function HexDigit(d: nat): (c: char)
    requires d < 16
  {
    if d < 10 then '0' + d as char else 'A' + (d - 10) as char
  }

  /** `std::stoull(text, nullptr, 16)` accepts digits of either case. */
  function HexValue(c: char): (r: Option<nat>)
    ensures r.Some? ==> r.value < 16
  {
    if '0' <= c <= '9' then Some((c - '0') as nat)
    else if 'A' <= c <= 'F' then Some((c - 'A') as nat + 10)
    else if 'a' <= c <= 'f' then Some((c - 'a') as nat + 10)
    else None
  }

  /** `n` upper-case hexadecimal digits of `v`, most significant first; `{:016X}` for `n == 16` and `v` below 2^64. */
  function Hex(n: nat, v: nat): (s: string)
    ensures |s| == n
    ensures forall c <- s :: HexValue(c).Some?
  {
    if n == 0 then [] else Hex(n - 1, v / 16) + [HexDigit(v % 16)]
  }

  /** Digit `k` from the right is the one of weight 16^k, in upper case. */
  lemma {:induction false} HexDigitAt(n: nat, v: nat, k: nat)
    requires k < n
    ensures Hex(n, v)[n - 1 - k] == "0123456789ABCDEF"[v / Pow(16, k) % 16]
  {
    if k > 0 {
      HexDigitAt(n - 1, v / 16, k - 1);
      DivideTwice(v, 16, Pow(16, k - 1));
    }
  }

  function Hex16(v: nat): string { Hex(16, v) }

  /** The value of the longest hexadecimal prefix of `text`, which is what `stoull` returns when it does not throw. */
  function ParseHexFrom(text: string, acc: nat): nat
  {
    if text == "" || HexValue(text[0]).None? then acc
    else ParseHexFrom(text[1..], 16 * acc + HexValue(text[0]).value)
  }

  function ParseHex(text: string): (r: Result<nat>)
  {
    if text == "" || HexValue(text[0]).None? then Failure(RuntimeError)
    else var v := ParseHexFrom(text, 0); if v < TWO_64 then Success(v) else Failure(OutOfRange)
  }

  lemma {:induction false} ParseHexAppends(n: nat, v: nat, acc: nat)
    requires v < Pow(16, n)
    ensures ParseHexFrom(Hex(n, v), acc) == acc * Pow(16, n) + v
  {
    if n > 0 {
      var high, digit, p := v / 16, v % 16, Pow(16, n - 1);
      assert Pow(16, n) == 16 * p && high < p;
      ParseHexAppends(n - 1, high, acc);
      ParseHexLast(Hex(n - 1, high), HexDigit(digit), acc);
      TimesSixteen(acc, p);
    }
  }

  lemma TimesSixteen(a: nat, p: nat)
    ensures a * (16 * p) == 16 * (a * p)
  {
  }

  lemma {:induction false} ParseHexLast(text: string, c: char, acc: nat)
    requires (forall d <- text :: HexValue(d).Some?) && HexValue(c).Some?
    ensures ParseHexFrom(text + [c], acc) == 16 * ParseHexFrom(text, acc) + HexValue(c).value
  {
    if text == "" {
      assert text + [c] == [c];
    } else {
      assert (text + [c])[1..] == text[1..] + [c];
      ParseHexLast(text[1..], c, 16 * acc + HexValue(text[0]).value);
    }
  }

  /** The sixteen digits of an address. */
  lemma Hex16Digits(v: nat, k: nat)
    requires k < 16
    ensures |Hex16(v)| == 16 && Hex16(v)[15 - k] == "0123456789ABCDEF"[v / Pow(16, k) % 16]
  {
    HexDigitAt(16, v, k);
  }

  /** Digits of either case, and nothing else, have a value, which is the one that `HexDigit` writes. */
  lemma HexValueOf(c: char)
    ensures HexValue(c).Some? <==> '0' <= c <= '9' || 'A' <= c <= 'F' || 'a' <= c <= 'f'
    ensures HexValue(c).Some? ==>
      HexDigit(HexValue(c).value) == if 'a' <= c <= 'f' then 'A' + (c - 'a') else c
  {
  }

  /** The positional value of a digit string. */
  function HexNumber(digits: string): nat
    requires forall c <- digits :: HexValue(c).Some?
  {
    if digits == "" then 0 else 16 * HexNumber(digits[..|digits| - 1]) + HexValue(digits[|digits| - 1]).value
  }

  lemma {:induction false} ParseHexNumber(digits: string)
    requires forall c <- digits :: HexValue(c).Some?
    ensures ParseHexFrom(digits, 0) == HexNumber(digits)
  {
    if digits != "" {
      var n := |digits| - 1;
      assert digits == digits[..n] + [digits[n]];
      ParseHexLast(digits[..n], digits[n], 0);
      ParseHexNumber(digits[..n]);
    }
  }

  lemma {:induction false} ParseHexStops(digits: string, rest: string, acc: nat)
    requires forall c <- digits :: HexValue(c).Some?
    requires rest != "" ==> HexValue(rest[0]).None?
    ensures ParseHexFrom(digits + rest, acc) == ParseHexFrom(digits, acc)
  {
    if digits == "" {
      assert digits + rest == rest;
    } else {
      assert (digits + rest)[1..] == digits[1..] + rest;
      ParseHexStops(digits[1..], rest, 16 * acc + HexValue(digits[0]).value);
    }
  }

  /** A text is read as the number its leading digits write, if there are any and it is below 2^64. */
  lemma ParseHexReads(digits: string, rest: string)
    requires forall c <- digits :: HexValue(c).Some?
    requires rest != "" ==> HexValue(rest[0]).None?
    ensures ParseHex(digits + rest)
         == if digits == "" then Failure(RuntimeError)
            else if HexNumber(digits) < 0x1_0000_0000_0000_0000 then Success(HexNumber(digits)) else Failure(OutOfRange)
  {
    ParseHexStops(digits, rest, 0);
    ParseHexNumber(digits);
    if digits == "" { assert digits + rest == rest; } else { assert (digits + rest)[0] == digits[0]; }
  }

  /** Reading back a formatted address gives the address, so the format is injective. */
  lemma Hex16RoundTrip(v: nat)
    requires v < TWO_64
    ensures ParseHex(Hex16(v)) == Success(v)
  {
    PowValues();
    ParseHexAppends(16, v, 0);
  }

  lemma SliceOfSuffix<T>(s: seq<T>, from: nat, lo: nat, hi: nat)
    requires from + hi <= |s| && lo <= hi
    ensures s[from..][lo..hi] == s[from + lo..from + hi]
  {
    assert |s[from..]| == |s| - from;
    forall k | 0 <= k < hi - lo ensures s[from..][lo..hi][k] == s[from + lo..from + hi][k] {
      assert s[from..][lo + k] == s[from + lo + k];
    }
  }

  lemma SliceOfSlice<T>(s: seq<T>, from: nat, to: nat, lo: nat, hi: nat)
    requires from + hi <= to <= |s| && lo <= hi
    ensures s[from..to][lo..hi] == s[from + lo..from + hi]
  {
    assert |s[from..to]| == to - from;
    forall k | 0 <= k < hi - lo ensures s[from..to][lo..hi][k] == s[from + lo..from + hi][k] {
      assert s[from..to][lo + k] == s[from + lo + k];
    }
  }
}
