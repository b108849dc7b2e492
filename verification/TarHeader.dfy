/** Numbers and checksums in tar headers (ustar Interchange Format of POSIX.1-2017 pax). */
module TarHeader {
  import opened Basics
  import opened Numerals

  const NUL: Byte := 0
  const SPACE: Byte := 32

  predicate IsPadding(b: Byte) { b == NUL || b == SPACE }

  function TrimLeft(s: seq<Byte>): seq<Byte> {
    if s != [] && IsPadding(s[0]) then TrimLeft(s[1..]) else s
  }

  function TrimRight(s: seq<Byte>): seq<Byte> {
    if s != [] && IsPadding(s[|s| - 1]) then TrimRight(s[..|s| - 1]) else s
  }

  /** A numeric field; none for base-256, bytes that are not ASCII, foreign digits and values above 64 bits. */
  function ParseTarNumber(field: seq<Byte>): Option<nat> {
    if exists i | 0 <= i < |field| :: field[i] >= 128 then None
    else
      var text := TrimRight(TrimLeft(field));
      if text == [] then Some(0) else Parse(text, 8)
  }

  /** The encoder: octal digits with leading zeros and a final NUL in a field of n bytes. */
  function WriteTarOctal(n: nat, value: nat): (field: seq<Byte>)
    requires n >= 1 && |Digits(value, 8)| <= n
    ensures |field| == n
  {
    var digits := Digits(value, 8);
    var start := if |digits| + 1 <= n then n - (|digits| + 1) else 0;
    (Zeros(start) + digits + Zeros(n - start - |digits|))[..n - 1] + [NUL]
  }

  lemma TrimField(digits: seq<Byte>)
    requires digits != [] && DigitsIn(digits, 8)
    ensures TrimRight(TrimLeft(digits + [NUL])) == digits
  {
    var s := digits + [NUL];
    assert IsDigitIn(digits[0], 8) && IsDigitIn(digits[|digits| - 1], 8);
    assert s[0] == digits[0] && TrimLeft(s) == s;
    assert s[..|s| - 1] == digits;
    assert TrimRight(digits) == digits;
  }

  /** A field of octal digits and a final NUL holds the value of the digits. */
  lemma ParseOctalField(digits: seq<Byte>)
    requires digits != [] && DigitsIn(digits, 8) && Value(digits, 8) <= U64_MAX
    ensures ParseTarNumber(digits + [NUL]) == Some(Value(digits, 8))
  {
    TrimField(digits);
    assert IsDigitIn(digits[0], 8);
    forall i | 0 <= i < |digits + [NUL]| ensures (digits + [NUL])[i] < 128 {
      if i < |digits| { assert IsDigitIn(digits[i], 8); }
    }
  }

  /** A value written to a field of n bytes is read back exactly when it has at most n - 1 octal digits;
      with n digits its last one is lost. */
  lemma OctalRoundTrip(n: nat, value: nat)
    requires n >= 2 && |Digits(value, 8)| <= n && value <= U64_MAX
    ensures ParseTarNumber(WriteTarOctal(n, value)) == Some(value) <==> value < Power(8, n - 1)
  {
    var digits := Digits(value, 8);
    DigitsFit(value, 8, n - 1);
    ValueOfDigits(value, 8);
    if |digits| < n {
      var start := n - (|digits| + 1);
      assert (Zeros(start) + digits + Zeros(1))[..n - 1] == Zeros(start) + digits;
      ValueWithZeros(start, digits, 8);
      ParseOctalField(Zeros(start) + digits);
    } else {
      assert (Zeros(0) + digits + Zeros(0))[..n - 1] == digits[..n - 1];
      assert Value(digits, 8) == Value(digits[..n - 1], 8) * 8 + (digits[n - 1] - 48);
      assert value >= 1;
      if Value(digits[..n - 1], 8) == value { assert false; }
      ParseOctalField(digits[..n - 1]);
    }
  }

  /** What is taken for a number: octal digits, perhaps after a plus, between blanks and NULs; nothing is zero. */
  lemma TarNumberIsOctal(field: seq<Byte>)
    requires ParseTarNumber(field).Some?
    ensures exists i, j :: 0 <= i <= j <= |field| && OctalBetween(field, i, j) &&
              ParseTarNumber(field).value == OctalOf(field[i..j])
  {
    var left := TrimLeft(field);
    var text := TrimRight(left);
    TrimLeftIs(field);
    TrimRightIs(left);
    var i := |field| - |left|;
    var j := i + |text|;
    assert field[i..j] == text;
    assert OctalBetween(field, i, j) by {
      forall k | j <= k < |field| ensures field[k] == 0 || field[k] == 32 { assert left[k - i] == field[k]; }
    }
  }

  /** field[i..j] holds digits, what is around it padding. */
  ghost predicate OctalBetween(field: seq<Byte>, i: nat, j: nat)
    requires i <= j <= |field|
  {
    && (forall k | 0 <= k < i || j <= k < |field| :: field[k] == 0 || field[k] == 32)
    && DigitsIn(WithoutPlus(field[i..j]), 8) && (i < j ==> WithoutPlus(field[i..j]) != [])
  }

  function WithoutPlus(text: seq<Byte>): seq<Byte> { if text != [] && text[0] == 43 then text[1..] else text }

  function OctalOf(text: seq<Byte>): nat
    requires DigitsIn(WithoutPlus(text), 8)
  {
    Value(WithoutPlus(text), 8)
  }

  lemma {:induction false} TrimLeftIs(s: seq<Byte>)
    ensures var t := TrimLeft(s); |t| <= |s| && t == s[|s| - |t|..] && forall k | 0 <= k < |s| - |t| :: s[k] == 0 || s[k] == 32
  {
    if s != [] && IsPadding(s[0]) { TrimLeftIs(s[1..]); }
  }

  lemma {:induction false} TrimRightIs(s: seq<Byte>)
    ensures var t := TrimRight(s); |t| <= |s| && t == s[..|t|] && forall k | |t| <= k < |s| :: s[k] == 0 || s[k] == 32
  {
    if s != [] && IsPadding(s[|s| - 1]) { TrimRightIs(s[..|s| - 1]); }
  }

  // ---- Checksums

  type Header = h: seq<Byte> | |h| == 512 witness seq(512, _ => 0)

  function Total(s: seq<Byte>): nat {
    if s == [] then 0 else Total(s[..|s| - 1]) + s[|s| - 1]
  }

  /** The sum of the bytes of a header, its checksum field counted as eight spaces. */
  function Checksum(h: Header): nat {
    Total(h[..148]) + 8 * SPACE as int + Total(h[156..])
  }

  predicate ChecksumValid(h: Header) {
    ParseTarNumber(h[148..156]) == Some(Checksum(h))
  }

  /** A header with its checksum field written. */
  function Sealed(h: Header): (s: Header)
    requires |Digits(Checksum(h), 8)| <= 7
  {
    h[..148] + WriteTarOctal(8, Checksum(h)) + h[156..]
  }

  lemma {:induction false} TotalBound(s: seq<Byte>)
    ensures Total(s) <= 255 * |s|
  {
    if s != [] { TotalBound(s[..|s| - 1]); }
  }

  lemma ChecksumFits(h: Header)
    ensures |Digits(Checksum(h), 8)| <= 7 && Checksum(h) < Power(8, 7)
  {
    TotalBound(h[..148]);
    TotalBound(h[156..]);
    EightToTheSeventh();
    DigitsFit(Checksum(h), 8, 7);
  }

  lemma EightToTheSeventh()
    ensures Power(8, 7) == 2097152
  {
    assert Power(8, 1) == 8 * Power(8, 0) == 8;
    assert Power(8, 2) == 8 * Power(8, 1) == 64;
    assert Power(8, 3) == 8 * Power(8, 2) == 512;
    assert Power(8, 4) == 8 * Power(8, 3) == 4096;
    assert Power(8, 5) == 8 * Power(8, 4) == 32768;
    assert Power(8, 6) == 8 * Power(8, 5) == 262144;
    assert Power(8, 7) == 8 * Power(8, 6) == 2097152;
  }

  /** A header sealed this way validates, and sealing changes nothing outside the field. */
  lemma SealedValidates(h: Header)
    ensures |Digits(Checksum(h), 8)| <= 7 && ChecksumValid(Sealed(h))
    ensures Sealed(h)[..148] == h[..148] && Sealed(h)[156..] == h[156..]
  {
    ChecksumFits(h);
    OctalRoundTrip(8, Checksum(h));
    var s := Sealed(h);
    assert s[..148] == h[..148] && s[148..156] == WriteTarOctal(8, Checksum(h)) && s[156..] == h[156..];
  }

  lemma {:induction false} TotalUpdate(s: seq<Byte>, i: nat, b: Byte)
    requires i < |s|
    ensures Total(s[i := b]) == Total(s) - s[i] + b
  {
    var n := |s| - 1;
    if i == n {
      assert s[i := b][..n] == s[..n];
    } else {
      assert s[i := b][..n] == s[..n][i := b];
      TotalUpdate(s[..n], i, b);
    }
  }

  /** Changing any one byte outside the checksum field of a valid header makes it invalid. */
  lemma OneByteChangeIsCaught(h: Header, i: nat, b: Byte)
    requires i < 512 && !(148 <= i < 156) && b != h[i] && ChecksumValid(h)
    ensures !ChecksumValid(h[i := b])
  {
    var g: Header := h[i := b];
    assert g[148..156] == h[148..156];
    if i < 148 {
      assert g[..148] == h[..148][i := b] && g[156..] == h[156..];
      TotalUpdate(h[..148], i, b);
    } else {
      assert g[..148] == h[..148] && g[156..] == h[156..][i - 156 := b];
      TotalUpdate(h[156..], i - 156, b);
    }
  }
}
