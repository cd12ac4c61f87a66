/** What the numbers of a packet mean: the texts that AsciiStrHexToUintn reads, by place value. */
module GdbNumbers {
  import opened Basics
  import opened GdbBytes

  // "0123456789ABCDEF" and "0123456789abcdef"
  const UPPER_DIGITS: seq<byte> :=
    [0x30, 0x31, 0x32, 0x33, 0x34, 0x35, 0x36, 0x37, 0x38, 0x39, 0x41, 0x42, 0x43, 0x44, 0x45, 0x46]
  const LOWER_DIGITS: seq<byte> :=
    [0x30, 0x31, 0x32, 0x33, 0x34, 0x35, 0x36, 0x37, 0x38, 0x39, 0x61, 0x62, 0x63, 0x64, 0x65, 0x66]

  /** The stub writes these digits. */
  lemma DigitTables(d: nat)
    requires d < 16
    ensures HexDigit(d) == UPPER_DIGITS[d] && LowerHexDigit(d) == LOWER_DIGITS[d]
  {
  }

  /** `c` is the digit `d`, in either case. */
  predicate IsDigit(c: byte, d: nat)
  {
    d < 16 && (c == UPPER_DIGITS[d] || c == LOWER_DIGITS[d])
  }

  lemma {:induction false} DigitIsRead(c: byte, d: nat)
    requires IsDigit(c, d)
    ensures d < 16 && HexCharToInt(c) == d && (c == 0x30 <==> d == 0)
  {
    DigitTables(d);
  }

  /** `t` writes the digits. */
  predicate Writes(t: seq<byte>, digits: seq<nat>)
  {
    |t| == |digits| && forall i :: 0 <= i < |t| ==> IsDigit(t[i], digits[i])
  }

  function Pow16(k: nat): (p: nat)
    ensures p > 0
  {
    if k == 0 then 1 else 16 * Pow16(k - 1)
  }

  /** The place value of a digit string. */
  function Value(digits: seq<nat>): (v: nat)
  {
    if digits == [] then 0 else digits[0] * Pow16(|digits| - 1) + Value(digits[1..])
  }

  /** The digits of a number, by division. */
  function DigitsOf(n: nat): (digits: seq<nat>)
    ensures digits != []
  {
    if n < 16 then [n] else DigitsOf(n / 16) + [n % 16]
  }

  /** The value of the digits behind a number that has been read already. */
  function Continued(acc: nat, digits: seq<nat>): int
  {
    acc * Pow16(|digits|) + Value(digits)
  }

  function AtMostUintn(v: int): int
  {
    if v <= MAX_UINTN then v else MAX_UINTN
  }

  // ----- the loop over the digits

  lemma {:induction false} WrittenDigit(t: seq<byte>, digits: seq<nat>)
    requires Writes(t, digits) && t != []
    ensures HexCharToInt(t[0]) == digits[0] && digits[0] < 16 && Writes(t[1..], digits[1..])
    ensures t[0] == 0x30 <==> digits[0] == 0
  {
    DigitIsRead(t[0], digits[0]);
    hide IsDigit;
  }

  lemma {:induction false} OnePlace(acc: nat, d: nat, p: nat, v: nat)
    ensures acc * (16 * p) + (d * p + v) == (acc * 16 + d) * p + v
  {
  }

  lemma {:induction false} AtLeast(n: nat, p: nat)
    requires p > 0
    ensures n * p >= n
  {
  }

  /** Reading digit after digit gives the place value, and the largest number once it is exceeded. */
  lemma {:induction false} DigitsAreRead(acc: nat, t: seq<byte>, digits: seq<nat>, rest: seq<byte>)
    requires acc <= MAX_UINTN && Writes(t, digits) && (rest == [] || HexCharToInt(rest[0]) < 0)
    ensures DigitsValue(acc, t + rest) == AtMostUintn(Continued(acc, digits))
    decreases |t|
  {
    if t == [] {
      assert t + rest == rest;
    } else {
      var n := acc * 16 + digits[0];
      hide DigitsValue, Writes, Continued, HexCharToInt;
      WrittenDigit(t, digits);
      DigitUnfolds(acc, t + rest);
      Tail(t, rest);
      OneMore(acc, digits);
      if n <= MAX_UINTN {
        DigitsAreRead(n, t[1..], digits[1..], rest);
      }
    }
  }

  lemma Tail(t: seq<byte>, rest: seq<byte>)
    requires t != []
    ensures (t + rest)[0] == t[0] && (t + rest)[1..] == t[1..] + rest
  {
  }

  lemma {:induction false} OneMore(acc: nat, digits: seq<nat>)
    requires digits != []
    ensures Continued(acc, digits) == Continued(acc * 16 + digits[0], digits[1..]) >= acc * 16 + digits[0]
  {
    var n, p := acc * 16 + digits[0], Pow16(|digits| - 1);
    OnePlace(acc, digits[0], p, Value(digits[1..]));
    assert Continued(acc, digits) == acc * (16 * p) + (digits[0] * p + Value(digits[1..]));
    assert Continued(n, digits[1..]) == n * p + Value(digits[1..]);
    hide Continued, Pow16, Value;
    AtLeast(n, p);
  }

  lemma {:induction false} NothingBefore(digits: seq<nat>)
    ensures Continued(0, digits) == Value(digits)
  {
  }

  lemma {:induction false} DigitUnfolds(acc: nat, s: seq<byte>)
    requires acc <= MAX_UINTN && s != [] && HexCharToInt(s[0]) >= 0
    ensures var n := acc * 16 + HexCharToInt(s[0]);
            DigitsValue(acc, s) == if n <= MAX_UINTN then DigitsValue(n, s[1..]) else MAX_UINTN
  {
  }

  // ----- what comes before the digits

  predicate AreBlanks(s: seq<byte>)
  {
    forall c <- s :: c == 0x20 || c == 0x09
  }

  lemma {:induction false} BlanksAreSkipped(blanks: seq<byte>, s: seq<byte>)
    requires AreBlanks(blanks) && (s == [] || (s[0] != 0x20 && s[0] != 0x09))
    ensures SkipBlanks(blanks + s) == s
  {
    if blanks == [] {
      assert blanks + s == s;
    } else {
      assert blanks[0] in blanks && (blanks + s)[1..] == blanks[1..] + s;
      assert forall c <- blanks[1..] :: c in blanks;
      BlanksAreSkipped(blanks[1..], s);
    }
  }

  lemma {:induction false} ZerosAreSkipped(zeros: nat, s: seq<byte>)
    requires s == [] || s[0] != 0x30
    ensures SkipZeros(Repeat(0x30, zeros) + s) == s
  {
    if zeros == 0 {
      assert Repeat(0x30, 0) + s == s;
    } else {
      assert (Repeat(0x30, zeros) + s)[1..] == Repeat(0x30, zeros - 1) + s;
      ZerosAreSkipped(zeros - 1, s);
    }
  }

  /** Leading zeros are zeros and have no value. */
  lemma {:induction false} LeadingZeros(t: seq<byte>, digits: seq<nat>) returns (zeros: nat)
    requires Writes(t, digits)
    ensures zeros <= |t| && t == Repeat(0x30, zeros) + t[zeros..]
    ensures Writes(t[zeros..], digits[zeros..]) && Value(digits[zeros..]) == Value(digits)
    ensures zeros < |t| ==> t[zeros] != 0x30
    decreases |t|
  {
    zeros := 0;
    if t != [] && t[0] == 0x30 {
      WrittenDigit(t, digits);
      var z := LeadingZeros(t[1..], digits[1..]);
      zeros := z + 1;
      assert t[1..][z..] == t[zeros..] && digits[1..][z..] == digits[zeros..];
      RepeatSnoc(0x30, z);
      assert t == [t[0]] + t[1..];
    }
  }

  /** A number without prefix, up to a character that is no digit. */
  lemma {:induction false} NumberIsRead(blanks: seq<byte>, t: seq<byte>, digits: seq<nat>, rest: seq<byte>)
    requires AreBlanks(blanks) && Writes(t, digits) && t != []
    requires rest == [] || (HexCharToInt(rest[0]) < 0 && rest[0] != 0x58 && rest[0] != 0x78)
    ensures StrHexToUintn(blanks + t + rest) == AtMostUintn(Value(digits))
  {
    WrittenDigit(t, digits);
    assert |t| == |digits|;
    hide Writes, Value, DigitsValue, SkipBlanks, SkipZeros, AtMostUintn, Continued;
    Assoc(blanks, t, rest);
    BlanksAreSkipped(blanks, t + rest);
    var z := LeadingZeros(t, digits);
    var u := t[z..] + rest;
    Assoc(Repeat(0x30, z), t[z..], rest);
    if z < |t| {
      WrittenDigit(t[z..], digits[z..]);
    }
    ZerosAreSkipped(z, u);
    assert u != [] ==> u[0] != 0x58 && u[0] != 0x78;
    DigitsAreRead(0, t[z..], digits[z..], rest);
    NothingBefore(digits[z..]);
  }

  /** A number with prefix: at least one zero, then an `x`. */
  lemma {:induction false} PrefixedNumberIsRead(blanks: seq<byte>, zeros: nat, x: byte, t: seq<byte>, digits: seq<nat>, rest: seq<byte>)
    requires AreBlanks(blanks) && zeros > 0 && (x == 0x58 || x == 0x78) && Writes(t, digits)
    requires rest == [] || HexCharToInt(rest[0]) < 0
    ensures StrHexToUintn(blanks + (Repeat(0x30, zeros) + ([x] + (t + rest)))) == AtMostUintn(Value(digits))
  {
    var u := [x] + (t + rest);
    BlanksAreSkipped(blanks, Repeat(0x30, zeros) + u);
    ZerosAreSkipped(zeros, u);
    assert u[1..] == t + rest;
    DigitsAreRead(0, t, digits, rest);
    NothingBefore(digits);
  }

  /** A text that begins neither with a digit nor with a prefix is 0: among them the sign of a
      negative number. */
  lemma {:induction false} NoNumberIsZero(blanks: seq<byte>, s: seq<byte>)
    requires AreBlanks(blanks) && (s == [] || (HexCharToInt(s[0]) < 0 && s[0] != 0x20 && s[0] != 0x09))
    ensures StrHexToUintn(blanks + s) == 0
  {
    BlanksAreSkipped(blanks, s);
  }

  lemma {:induction false} TwoDigits(a: byte, hi: nat, b: byte, lo: nat)
    requires IsDigit(a, hi) && IsDigit(b, lo)
    ensures StrHexToUintn([a, b]) == 16 * hi + lo
  {
    var t, digits := [a, b], [hi, lo];
    hide StrHexToUintn;
    NumberIsRead([], t, digits, []);
    assert [] + t + [] == t;
    ValueSnoc([hi], lo);
    assert [hi] + [lo] == digits;
    ValueSnoc([], hi);
    assert [] + [hi] == [hi];
  }

  // ----- numbers

  lemma {:induction false} ValueSnoc(digits: seq<nat>, d: nat)
    ensures Value(digits + [d]) == 16 * Value(digits) + d
  {
    var all := digits + [d];
    if digits == [] {
      assert all == [d] && all[1..] == [];
    } else {
      assert all[1..] == digits[1..] + [d];
      ValueSnoc(digits[1..], d);
    }
  }

  lemma {:induction false} DigitsHaveValue(n: nat)
    ensures Value(DigitsOf(n)) == n
  {
    if n < 16 {
      assert [n][1..] == [];
    } else {
      DigitsHaveValue(n / 16);
      ValueSnoc(DigitsOf(n / 16), n % 16);
    }
  }

  function ZeroDigits(zeros: nat): (z: seq<nat>)
    ensures |z| == zeros && forall i :: 0 <= i < zeros ==> z[i] == 0
  {
    seq(zeros, _ => 0)
  }

  lemma {:induction false} ZerosHaveNone(zeros: nat, digits: seq<nat>)
    ensures Value(ZeroDigits(zeros) + digits) == Value(digits)
  {
    var all := ZeroDigits(zeros) + digits;
    if zeros == 0 {
      assert all == digits;
    } else {
      assert all[0] == 0 && all[1..] == ZeroDigits(zeros - 1) + digits;
      ZerosHaveNone(zeros - 1, digits);
    }
  }

  /** `t` is a hexadecimal text of `n`: its digits in either case, behind any leading zeros. */
  ghost predicate IsHex(t: seq<byte>, n: nat)
  {
    exists zeros: nat :: Writes(t, ZeroDigits(zeros) + DigitsOf(n))
  }

  /** The text of a number is read as that number, and as the largest UINTN where it is larger; what
      follows it does not matter if it begins with no digit and no `x`. */
  lemma {:induction false} HexIsRead(t: seq<byte>, n: nat, rest: seq<byte>)
    requires IsHex(t, n)
    requires rest == [] || (HexCharToInt(rest[0]) < 0 && rest[0] != 0x58 && rest[0] != 0x78)
    ensures StrHexToUintn(t + rest) == AtMostUintn(n)
  {
    var zeros: nat :| Writes(t, ZeroDigits(zeros) + DigitsOf(n));
    DigitsHaveValue(n);
    ZerosHaveNone(zeros, DigitsOf(n));
    NumberIsRead([], t, ZeroDigits(zeros) + DigitsOf(n), rest);
    assert [] + t + rest == t + rest;
  }

  /** With the prefix `0x`. */
  lemma {:induction false} PrefixedHexIsRead(x: byte, t: seq<byte>, n: nat)
    requires IsHex(t, n) && (x == 0x58 || x == 0x78)
    ensures StrHexToUintn([0x30, x] + t) == AtMostUintn(n)
  {
    var zeros: nat :| Writes(t, ZeroDigits(zeros) + DigitsOf(n));
    DigitsHaveValue(n);
    ZerosHaveNone(zeros, DigitsOf(n));
    PrefixedNumberIsRead([], 1, x, t, ZeroDigits(zeros) + DigitsOf(n), []);
    assert [] + (Repeat(0x30, 1) + ([x] + (t + []))) == [0x30, x] + t;
  }

  /** A number has none of the characters that end it or that frame a packet. */
  lemma {:induction false} HexIsPlain(t: seq<byte>, n: nat)
    requires IsHex(t, n)
    ensures COMMA !in t && COLON !in t && DOLLAR !in t && HASH !in t && NUL !in t
  {
    var zeros: nat :| Writes(t, ZeroDigits(zeros) + DigitsOf(n));
    var digits := ZeroDigits(zeros) + DigitsOf(n);
    forall c | c in t
      ensures HexCharToInt(c) >= 0
    {
      var i :| 0 <= i < |t| && t[i] == c;
      DigitIsRead(t[i], digits[i]);
    }
  }
}
