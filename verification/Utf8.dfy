/** decode_ucs: fixed-width code units to UTF-8, against the decoder of RFC 3629 section 3. */
module Utf8 {
  import opened Wrappers
  import opened Bytes

  const CODE_POINTS: nat := 0x110000

  /** The bytes the loop body pushes for one code point. */
  function EncodeChar(ch: nat): (s: seq<byte>)
    requires ch < CODE_POINTS
    ensures 1 <= |s| <= 4
  {
    if ch < 0x80 then [ch]
    else if ch < 0x800 then [0xC0 + ch / 64 % 0x20, 0x80 + ch % 64]
    else if ch < 0x10000 then [0xE0 + ch / 0x1000 % 0x10, 0x80 + ch / 64 % 64, 0x80 + ch % 64]
    else [0xF0 + ch / 0x40000 % 8, 0x80 + ch / 0x1000 % 64, 0x80 + ch / 64 % 64, 0x80 + ch % 64]
  }

  predicate ValidText(chars: seq<nat>) { forall i | 0 <= i < |chars| :: chars[i] < CODE_POINTS }

  function EncodeText(chars: seq<nat>): seq<byte>
    requires ValidText(chars)
  {
    if chars == [] then [] else EncodeText(chars[..|chars| - 1]) + EncodeChar(chars[|chars| - 1])
  }

  predicate IsTail(b: byte) { 0x80 <= b <= 0xBF }

  /** The payload of a leading or trailing byte. */
  function Payload(b: byte, marker: byte): (r: int) { (b as int) - marker }

  /** One character by the syntax of RFC 3629 section 4 with surrogates let through: the code point and its length. */
  function DecodeChar(s: seq<byte>): (r: Option<(nat, nat)>)
    ensures r.Some? ==> 1 <= r.value.1 <= |s|
  {
    if s == [] then None
    else if s[0] < 0x80 then Some((s[0], 1))
    else if 0xC2 <= s[0] <= 0xDF && |s| >= 2 && IsTail(s[1]) then
      Some((Payload(s[0], 0xC0) * 64 + Payload(s[1], 0x80), 2))
    else if 0xE0 <= s[0] <= 0xEF && |s| >= 3 && IsTail(s[1]) && IsTail(s[2]) && (s[0] == 0xE0 ==> s[1] >= 0xA0) then
      Some((Payload(s[0], 0xE0) * 0x1000 + Payload(s[1], 0x80) * 64 + Payload(s[2], 0x80), 3))
    else if 0xF0 <= s[0] <= 0xF4 && |s| >= 4 && IsTail(s[1]) && IsTail(s[2]) && IsTail(s[3])
         && (s[0] == 0xF0 ==> s[1] >= 0x90) && (s[0] == 0xF4 ==> s[1] <= 0x8F) then
      Some((Payload(s[0], 0xF0) * 0x40000 + Payload(s[1], 0x80) * 0x1000
            + Payload(s[2], 0x80) * 64 + Payload(s[3], 0x80), 4))
    else None
  }

  function DecodeText(s: seq<byte>): Option<seq<nat>>
    decreases |s|
  {
    if s == [] then Some([])
    else match DecodeChar(s)
      case None => None
      case Some((ch, n)) =>
        match DecodeText(s[n..])
        case None => None
        case Some(rest) => Some([ch] + rest)
  }

  lemma TwoByteSplit(ch: nat)
    requires 0x80 <= ch < 0x800
    ensures 2 <= ch / 64 < 0x20 && ch == ch / 64 * 64 + ch % 64
  {
  }

  lemma ThreeByteSplit(ch: nat)
    requires 0x800 <= ch < 0x10000
    ensures ch / 0x1000 < 0x10 && (ch / 0x1000 == 0 ==> ch / 64 % 64 >= 0x20)
    ensures ch == ch / 0x1000 * 0x1000 + ch / 64 % 64 * 64 + ch % 64
  {
    assert ch / 64 / 64 == ch / 0x1000;
  }

  lemma FourByteSplit(ch: nat)
    requires 0x10000 <= ch < CODE_POINTS
    ensures ch / 0x40000 <= 4
    ensures ch / 0x40000 == 0 ==> ch / 0x1000 % 64 >= 0x10
    ensures ch / 0x40000 == 4 ==> ch / 0x1000 % 64 <= 0x0F
    ensures ch == ch / 0x40000 * 0x40000 + ch / 0x1000 % 64 * 0x1000 + ch / 64 % 64 * 64 + ch % 64
  {
    assert ch / 64 / 64 == ch / 0x1000 && ch / 0x1000 / 64 == ch / 0x40000;
  }

  lemma FourByteRoundTrip(ch: nat, s: seq<byte>)
    requires 0x10000 <= ch < CODE_POINTS && |s| >= 4
    requires forall i | 0 <= i < 4 :: s[i] == EncodeChar(ch)[i]
    ensures DecodeChar(s) == Some((ch, 4))
  {
    FourByteSplit(ch);
    var c := EncodeChar(ch);
    assert s[0] == c[0] && s[1] == c[1] && s[2] == c[2] && s[3] == c[3];
  }

  lemma ThreeByteRoundTrip(ch: nat, s: seq<byte>)
    requires 0x800 <= ch < 0x10000 && |s| >= 3
    requires forall i | 0 <= i < 3 :: s[i] == EncodeChar(ch)[i]
    ensures DecodeChar(s) == Some((ch, 3))
  {
    ThreeByteSplit(ch);
    var c := EncodeChar(ch);
    assert s[0] == c[0] && s[1] == c[1] && s[2] == c[2];
  }

  lemma CharRoundTrip(ch: nat, rest: seq<byte>)
    requires ch < CODE_POINTS
    ensures DecodeChar(EncodeChar(ch) + rest) == Some((ch, |EncodeChar(ch)|))
  {
    var c := EncodeChar(ch);
    assert forall i | 0 <= i < |c| :: (c + rest)[i] == c[i];
    if ch >= 0x10000 {
      FourByteRoundTrip(ch, c + rest);
    } else if ch >= 0x800 {
      ThreeByteRoundTrip(ch, c + rest);
    } else if ch >= 0x80 {
      TwoByteSplit(ch);
    }
  }

  lemma EncodeTextLast(chars: seq<nat>)
    requires ValidText(chars) && chars != []
    ensures ValidText(chars[..|chars| - 1])
    ensures EncodeText(chars) == EncodeText(chars[..|chars| - 1]) + EncodeChar(chars[|chars| - 1])
  {
    hide EncodeChar;
  }

  lemma {:induction false} EncodeTextFront(chars: seq<nat>)
    requires ValidText(chars) && chars != []
    ensures ValidText(chars[1..]) && EncodeText(chars) == EncodeChar(chars[0]) + EncodeText(chars[1..])
  {
    hide EncodeChar, EncodeText;
    var n := |chars| - 1;
    EncodeTextLast(chars);
    if n == 0 {
      EmptyText();
      assert chars[..0] == [] && chars[1..] == [];
    } else {
      EncodeTextFront(chars[..n]);
      EncodeTextLast(chars[1..]);
      assert chars[..n][1..] == chars[1..][..n - 1] && chars[1..][n - 1] == chars[n];
    }
  }

  /** RFC 3629 decoding undoes the encoding of every text. */
  lemma {:induction false} TextRoundTrip(chars: seq<nat>)
    requires ValidText(chars)
    ensures DecodeText(EncodeText(chars)) == Some(chars)
  {
    hide EncodeChar, DecodeChar, EncodeText;
    if chars == [] {
      EmptyText();
    } else {
      EncodeTextFront(chars);
      var rest := EncodeText(chars[1..]);
      CharRoundTrip(chars[0], rest);
      TextRoundTrip(chars[1..]);
      assert (EncodeChar(chars[0]) + rest)[|EncodeChar(chars[0])|..] == rest;
      assert chars == [chars[0]] + chars[1..];
    }
  }

  lemma EmptyText()
    ensures EncodeText([]) == []
  {
  }

  /** The bitwise `&` of two natural numbers. */
  function BitAnd(a: nat, b: nat): nat {
    if a == 0 || b == 0 then 0 else a % 2 * (b % 2) + 2 * BitAnd(a / 2, b / 2)
  }

  /** Bit `i` of a number. */
  function Bit(a: nat, i: nat): bool { if i == 0 then a % 2 == 1 else Bit(a / 2, i - 1) }

  lemma {:induction false} BitOfAnd(a: nat, b: nat, i: nat)
    ensures Bit(BitAnd(a, b), i) <==> Bit(a, i) && Bit(b, i)
  {
    if a == 0 || b == 0 {
      NoBits(i);
    } else if i > 0 {
      BitOfAnd(a / 2, b / 2, i - 1);
      assert BitAnd(a, b) / 2 == BitAnd(a / 2, b / 2);
    } else {
      assert BitAnd(a, b) % 2 == a % 2 * (b % 2);
    }
  }

  lemma {:induction false} NoBits(i: nat)
    ensures !Bit(0, i)
  {
    if i > 0 { NoBits(i - 1); }
  }

  lemma {:induction false} SomeBit(a: nat) returns (i: nat)
    requires a > 0
    ensures Bit(a, i)
  {
    i := 0;
    if a % 2 == 0 {
      i := SomeBit(a / 2);
      i := i + 1;
    }
  }

  /** The test of a string's length: does `size` share a bit with `width - 1`, which for width 0 has all 64 bits? */
  predicate Misaligned(size: nat, width: nat) { BitAnd(size, Wrap64(width - 1)) != 0 }

  ghost predicate ShareBit(a: nat, b: nat) { exists i: nat :: Bit(a, i) && Bit(b, i) }

  lemma MisalignedIsSharedBit(size: nat, width: nat)
    ensures Misaligned(size, width) <==> ShareBit(size, Wrap64(width - 1))
  {
    hide Bit, BitAnd;
    var both := BitAnd(size, Wrap64(width - 1));
    if both > 0 {
      var i := SomeBit(both);
      BitOfAnd(size, Wrap64(width - 1), i);
    } else {
      forall i: nat ensures !(Bit(size, i) && Bit(Wrap64(width - 1), i)) {
        BitOfAnd(size, Wrap64(width - 1), i);
        NoBits(i);
      }
    }
  }

  /** A known width is a power of two, and the test asks whether it divides the length. */
  lemma MisalignedKnownWidth(size: nat, width: nat)
    requires width == 1 || width == 2 || width == 4
    ensures Misaligned(size, width) <==> size % width != 0
  {
    match width
    case 1 => assert Wrap64(0) == 0;
    case 2 =>
      assert Wrap64(1) == 1 && BitAnd(size / 2, 0) == 0;
    case 4 =>
      assert Wrap64(3) == 3 && BitAnd(size / 2 / 2, 0) == 0;
      assert size > 1 ==> BitAnd(size / 2, 1) == size / 2 % 2;
  }

  predicate KnownWidth(width: nat) { width == 1 || width == 2 || width == 4 }

  /** The code units of a byte string, for a width that divides its length. */
  function Units(data: seq<byte>, width: nat): (r: seq<nat>)
    requires width > 0
    decreases |data|
  {
    if |data| < width then [] else [FromLittleEndian(data[..width])] + Units(data[width..], width)
  }

  lemma {:induction false} UnitsAt(data: seq<byte>, width: nat, k: nat)
    requires KnownWidth(width) && width * k + width <= |data|
    ensures k < |Units(data, width)| && Units(data, width)[k] == FromLittleEndian(data[width * k..width * k + width])
    decreases k
  {
    hide FromLittleEndian;
    if k == 0 {
      assert data[width * 0..width * 0 + width] == data[..width];
    } else {
      var at := width * (k - 1);
      assert width * k == at + width;
      UnitsAt(data[width..], width, k - 1);
      SliceOfSuffix(data, width, at, at + width);
      assert data[width..][at..at + width] == data[width * k..width * k + width];
    }
  }

  lemma {:induction false} UnitsCount(data: seq<byte>, width: nat)
    requires KnownWidth(width)
    ensures width * |Units(data, width)| <= |data| < width * |Units(data, width)| + width
    decreases |data|
  {
    if |data| >= width {
      UnitsCount(data[width..], width);
    }
  }

  /** The length is no multiple of a known width; for another width it shares a bit with the width less one. */
  ghost predicate BadLength(size: nat, width: nat) {
    if width in {1, 2, 4} then size % width != 0 else ShareBit(size, Wrap64(width - 1))
  }

  lemma MisalignedIsBadLength(size: nat, width: nat)
    ensures Misaligned(size, width) <==> BadLength(size, width)
  {
    hide Misaligned, ShareBit;
    MisalignedIsSharedBit(size, width);
    if width in {1, 2, 4} { MisalignedKnownWidth(size, width); }
  }

  lemma UnitsWhole(data: seq<byte>, width: nat)
    requires KnownWidth(width) && !BadLength(|data|, width)
    ensures width * |Units(data, width)| == |data|
  {
    UnitsCount(data, width);
    var n := |Units(data, width)|;
    match width
    case 1 => assert |data| == n;
    case 2 => assert |data| == 2 * n;
    case 4 => assert |data| == 4 * n;
  }

  datatype DecodedString = DecodedString(data: seq<byte>, excessBytes: nat)

  /** The first `k` characters are valid and none of their proper prefixes reaches the limit. */
  predicate Reached(chars: seq<nat>, maxLen: nat, k: nat) {
    && k <= |chars| && ValidText(chars[..k])
    && (maxLen > 0 ==> forall j | 0 <= j < k :: Below(chars, maxLen, j))
  }

  predicate Below(chars: seq<nat>, maxLen: nat, j: nat) {
    j <= |chars| && ValidText(chars[..j]) && |EncodeText(chars[..j])| < maxLen
  }

  /** `k` characters are the shortest prefix whose encoding reaches the limit, or the whole text. */
  predicate IsStop(chars: seq<nat>, maxLen: nat, k: nat) {
    Reached(chars, maxLen, k) && (k == |chars| || (maxLen > 0 && |EncodeText(chars[..k])| >= maxLen))
  }

  /** The character after the first `k` is invalid and is read before the limit is reached. */
  predicate IsBadChar(chars: seq<nat>, maxLen: nat, k: nat) {
    && Reached(chars, maxLen, k) && k < |chars| && chars[k] >= CODE_POINTS
    && (maxLen > 0 ==> |EncodeText(chars[..k])| < maxLen)
  }

  /** decode_ucs; `maxLen == 0` means no limit. */
  method DecodeUcs(data: seq<byte>, width: nat, maxLen: nat) returns (r: Result<DecodedString>, ghost stop: nat)
    requires width < 256
    ensures r == Failure(RuntimeError) <==> BadLength(|data|, width)
    ensures r != Failure(RuntimeError) && width !in {1, 2, 4} ==>
      r == if data == [] then Success(DecodedString([], 0)) else Failure(LogicError)
    ensures r != Failure(RuntimeError) && width in {1, 2, 4} ==>
      var chars := Units(data, width);
      if r.Success? then
        && IsStop(chars, maxLen, stop) && width * stop <= |data|
        && r.value == DecodedString(EncodeText(chars[..stop]), |data| - width * stop)
        && (r.value.excessBytes > 0 ==> 0 < maxLen <= |r.value.data|)
      else r == Failure(OutOfRange) && IsBadChar(chars, maxLen, stop) && chars[stop] >= 0x11_0000
  {
    hide Units, FromLittleEndian, EncodeChar, EncodeText, Below, Misaligned, BadLength, Reached;
    MisalignedIsBadLength(|data|, width);
    stop := 0;
    if Misaligned(|data|, width) { return Failure(RuntimeError), stop; }
    if !KnownWidth(width) {
      if data == [] { return Success(DecodedString([], 0)), stop; }
      return Failure(LogicError), stop;
    }
    ghost var chars := Units(data, width);
    UnitsWhole(data, width);
    NothingReached(chars, maxLen);
    var out, pos := [], 0;
    while pos < |data| && (maxLen == 0 || |out| < maxLen)
      invariant pos == width * stop <= |data| && stop <= |chars|
      invariant width * |chars| == |data|
      invariant Reached(chars, maxLen, stop) && ValidText(chars[..stop]) && out == EncodeText(chars[..stop])
      decreases |data| - pos
    {
      NotAtEnd(width, stop, |chars|);
      UnitsAt(data, width, stop);
      var ch := FromLittleEndian(data[pos..pos + width]);
      if ch >= CODE_POINTS { return Failure(OutOfRange), stop; }
      AppendChar(chars, maxLen, stop);
      out := out + EncodeChar(ch);
      pos := pos + width;
      stop := stop + 1;
    }
    if pos == |data| { AllRead(width, stop, |chars|); }
    r := Success(DecodedString(out, |data| - pos));
  }

  lemma NothingReached(chars: seq<nat>, maxLen: nat)
    ensures Reached(chars, maxLen, 0) && EncodeText(chars[..0]) == []
  {
  }

  lemma NotAtEnd(width: nat, k: nat, n: nat)
    requires KnownWidth(width) && width * k < width * n
    ensures k < n && width * k + width <= width * n
  {
  }

  lemma AllRead(width: nat, k: nat, n: nat)
    requires KnownWidth(width) && width * k == width * n
    ensures k == n
  {
  }

  lemma AppendChar(chars: seq<nat>, maxLen: nat, k: nat)
    requires Reached(chars, maxLen, k) && k < |chars| && chars[k] < CODE_POINTS
    requires maxLen > 0 ==> |EncodeText(chars[..k])| < maxLen
    ensures Reached(chars, maxLen, k + 1) && ValidText(chars[..k + 1])
    ensures EncodeText(chars[..k + 1]) == EncodeText(chars[..k]) + EncodeChar(chars[k])
  {
    hide EncodeChar;
    assert chars[..k + 1][..k] == chars[..k];
    assert maxLen > 0 ==> Below(chars, maxLen, k);
  }

  /** Truncation never splits a character: the output decodes to a prefix of the text, or all of it without a limit. */
  lemma DecodedPrefix(chars: seq<nat>, maxLen: nat, stop: nat)
    requires IsStop(chars, maxLen, stop)
    ensures DecodeText(EncodeText(chars[..stop])) == Some(chars[..stop])
    ensures maxLen == 0 ==> DecodeText(EncodeText(chars[..stop])) == Some(chars)
    ensures maxLen > 0 ==> |EncodeText(chars[..stop])| < maxLen + 4
    ensures maxLen > 0 && stop > 0 ==> ValidText(chars[..stop - 1]) && |EncodeText(chars[..stop - 1])| < maxLen
    ensures stop < |chars| ==> 0 < maxLen <= |EncodeText(chars[..stop])|
  {
    hide DecodeText, EncodeChar;
    TextRoundTrip(chars[..stop]);
    assert chars[..|chars|] == chars;
    if maxLen > 0 && stop > 0 {
      assert Below(chars, maxLen, stop - 1);
      assert chars[..stop][..stop - 1] == chars[..stop - 1];
    }
  }

  /** The stop is determined by the text and the limit, and it excludes the error. */
  lemma StopIsUnique(chars: seq<nat>, maxLen: nat, j: nat, k: nat)
    requires IsStop(chars, maxLen, j) || IsBadChar(chars, maxLen, j)
    requires IsStop(chars, maxLen, k) || IsBadChar(chars, maxLen, k)
    ensures j == k && (IsStop(chars, maxLen, j) <==> IsStop(chars, maxLen, k))
    ensures !(IsStop(chars, maxLen, j) && IsBadChar(chars, maxLen, j))
  {
    hide EncodeText;
    if j < k { StopBefore(chars, maxLen, j, k); }
    if k < j { StopBefore(chars, maxLen, k, j); }
  }

  lemma StopBefore(chars: seq<nat>, maxLen: nat, j: nat, k: nat)
    requires j < k && Reached(chars, maxLen, k)
    ensures !IsStop(chars, maxLen, j) && !IsBadChar(chars, maxLen, j)
  {
    hide EncodeText;
    assert chars[..k][j] == chars[j];
    assert maxLen > 0 ==> Below(chars, maxLen, j);
  }
}
