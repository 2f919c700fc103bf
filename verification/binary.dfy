/**
  Binary digit strings as the air-conditioner driver handles them: every byte of
  an infrared frame is a string of the characters '0' and '1'.

  The driver builds and reads these strings with a handful of Python built-ins,
  modelled here one by one: `int(s, 2)` (ParseBinary), `bin(n)[2:]` (Bin),
  `str.zfill` (ZFill) and `s[::-1]` (Reverse). The wire protocol reads a byte
  with its FIRST character as the least-significant bit; LsbValue and LsbByte
  are that convention, written once, with their round trips proved.
 */
module Binary {

  /** A string made only of the characters '0' and '1'. */
  predicate IsBitString(s: seq<char>)
  {
    forall k :: 0 <= k < |s| ==> s[k] == '0' || s[k] == '1'
  }

  function Pow2(k: nat): (r: nat)
    ensures r >= 1
  {
    if k == 0 then 1 else 2 * Pow2(k - 1)
  }

  /** Bit i of v, counting from the least-significant bit 0. */
  function BitOf(v: nat, i: nat): nat
  {
    if i == 0 then v % 2 else BitOf(v / 2, i - 1)
  }

  function DigitValue(c: char): nat
  {
    if c == '1' then 1 else 0
  }

  function DigitChar(d: nat): char
  {
    if d == 1 then '1' else '0'
  }

  /** `int(s, 2)`: the value of a digit string read most-significant digit first. */
  function ParseBinary(s: seq<char>): nat
  {
    if s == [] then 0 else 2 * ParseBinary(s[..|s| - 1]) + DigitValue(s[|s| - 1])
  }

  /** `bin(n)[2:]`: the shortest most-significant-first digit string of n ("0" for zero). */
  function Bin(n: nat): (r: seq<char>)
    ensures |r| >= 1 && IsBitString(r)
  {
    if n < 2 then [DigitChar(n)] else Bin(n / 2) + [DigitChar(n % 2)]
  }

  function Zeros(k: nat): seq<char>
  {
    seq(k, _ => '0')
  }

  /** `s.zfill(width)` for an unsigned digit string: pad with '0' on the left up to width. */
  function ZFill(s: seq<char>, width: nat): seq<char>
  {
    if |s| >= width then s else Zeros(width - |s|) + s
  }

  /** `s[::-1]`. */
  function Reverse(s: seq<char>): (r: seq<char>)
    ensures |r| == |s|
    ensures forall k :: 0 <= k < |s| ==> r[k] == s[|s| - 1 - k]
  {
    if s == [] then [] else Reverse(s[1..]) + [s[0]]
  }

  /** `int(b[::-1], 2)`: the value of a byte string whose first character is the least-significant bit. */
  function LsbValue(b: seq<char>): nat
  {
    ParseBinary(Reverse(b))
  }

  /** `bin(n)[2:].zfill(8)[::-1]`: n written as eight characters, least-significant bit first. */
  function LsbByte(n: nat): seq<char>
  {
    Reverse(ZFill(Bin(n), 8))
  }

  lemma {:induction false} ParseBin(n: nat)
    ensures ParseBinary(Bin(n)) == n
  {
    if n >= 2 {
      var prefix := Bin(n / 2);
      assert Bin(n)[..|Bin(n)| - 1] == prefix;
      ParseBin(n / 2);
    }
  }

  lemma {:induction false} BinLength(n: nat, w: nat)
    requires 1 <= w && n < Pow2(w)
    ensures |Bin(n)| <= w
  {
    if n >= 2 {
      BinLength(n / 2, w - 1);
    }
  }

  lemma {:induction false} ParseBinaryBound(s: seq<char>)
    ensures ParseBinary(s) < Pow2(|s|)
  {
    if s != [] {
      ParseBinaryBound(s[..|s| - 1]);
    }
  }

  lemma DoubleProduct(x: nat, y: nat)
    ensures 2 * (x * y) == x * (2 * y)
  {
  }

  /** Reading a concatenation: the left part counts |b| binary places higher. */
  lemma {:induction false} ParseAppend(a: seq<char>, b: seq<char>)
    ensures ParseBinary(a + b) == ParseBinary(a) * Pow2(|b|) + ParseBinary(b)
  {
    if b == [] {
      assert a + b == a;
    } else {
      var b' := b[..|b| - 1];
      assert (a + b)[..|a + b| - 1] == a + b';
      assert (a + b)[|a + b| - 1] == b[|b| - 1];
      ParseAppend(a, b');
      var x, y, z, d := ParseBinary(a), Pow2(|b'|), ParseBinary(b'), DigitValue(b[|b| - 1]);
      assert ParseBinary(a + b) == 2 * (x * y + z) + d;
      assert Pow2(|b|) == 2 * y && ParseBinary(b) == 2 * z + d;
      DoubleProduct(x, y);
    }
  }

  lemma {:induction false} ParseZeros(k: nat)
    ensures ParseBinary(Zeros(k)) == 0
  {
    if k > 0 {
      assert Zeros(k)[..k - 1] == Zeros(k - 1);
      ParseZeros(k - 1);
    }
  }

  lemma ParseLeadingZeros(pad: seq<char>, digits: seq<char>)
    requires pad == Zeros(|pad|)
    ensures ParseBinary(pad + digits) == ParseBinary(digits)
  {
    ParseAppend(pad, digits);
    ParseZeros(|pad|);
    assert ParseBinary(pad) * Pow2(|digits|) == 0;
  }

  lemma ZFillIsPadding(digits: seq<char>, w: nat)
    requires |digits| <= w
    ensures ZFill(digits, w) == Zeros(w - |digits|) + digits
  {
    if |digits| == w {
      assert Zeros(0) == [];
    }
  }

  lemma PadBits(pad: seq<char>, digits: seq<char>)
    requires forall k :: 0 <= k < |pad| ==> pad[k] == '0'
    requires IsBitString(digits)
    ensures IsBitString(pad + digits)
  {
    var padded := pad + digits;
    forall k | 0 <= k < |padded|
      ensures padded[k] == '0' || padded[k] == '1'
    {
      if k >= |pad| {
        assert padded[k] == digits[k - |pad|];
      }
    }
  }

  /** `bin(n)[2:].zfill(w)` is exactly w digits and reads back as n, whenever n fits in w bits. */
  lemma ZFillBin(n: nat, w: nat)
    requires 1 <= w && n < Pow2(w)
    ensures |ZFill(Bin(n), w)| == w
    ensures IsBitString(ZFill(Bin(n), w))
    ensures ParseBinary(ZFill(Bin(n), w)) == n
  {
    var digits := Bin(n);
    BinLength(n, w);
    ParseBin(n);
    var pad := Zeros(w - |digits|);
    ZFillIsPadding(digits, w);
    ParseLeadingZeros(pad, digits);
    PadBits(pad, digits);
  }

  /** Two digit strings of the same length and the same value are the same string. */
  lemma {:induction false} BitStringsEqual(s: seq<char>, t: seq<char>)
    requires IsBitString(s) && IsBitString(t)
    requires |s| == |t| && ParseBinary(s) == ParseBinary(t)
    ensures s == t
  {
    if s != [] {
      var n := |s|;
      var s', t' := s[..n - 1], t[..n - 1];
      var x, y := ParseBinary(s'), ParseBinary(t');
      var d, e := DigitValue(s[n - 1]), DigitValue(t[n - 1]);
      assert 2 * x + d == 2 * y + e;
      assert d == e && x == y;
      assert s[n - 1] == t[n - 1];
      assert IsBitString(s') && IsBitString(t');
      BitStringsEqual(s', t');
      assert s == s' + [s[n - 1]];
      assert t == t' + [t[n - 1]];
    }
  }

  lemma ReverseBits(s: seq<char>)
    ensures Reverse(Reverse(s)) == s
    ensures IsBitString(s) ==> IsBitString(Reverse(s))
  {
  }

  /** The checksum encoding round trip: a value below 256 comes back from its eight-character string. */
  lemma LsbByteRoundTrip(n: nat)
    requires n < 256
    ensures |LsbByte(n)| == 8 && IsBitString(LsbByte(n))
    ensures LsbValue(LsbByte(n)) == n
  {
    assert Pow2(8) == 256;
    ZFillBin(n, 8);
    ReverseBits(ZFill(Bin(n), 8));
  }

  /** The other round trip: an eight-character byte string is rebuilt from its value. */
  lemma LsbValueRoundTrip(b: seq<char>)
    requires |b| == 8 && IsBitString(b)
    ensures LsbValue(b) < 256
    ensures LsbByte(LsbValue(b)) == b
  {
    var v := LsbValue(b);
    ReverseBits(b);
    ParseBinaryBound(Reverse(b));
    assert Pow2(8) == 256;
    ZFillBin(v, 8);
    BitStringsEqual(ZFill(Bin(v), 8), Reverse(b));
    ReverseBits(ZFill(Bin(v), 8));
  }

  /** Most-significant-first reading: character k is bit |s|-1-k of the value. */
  lemma {:induction false} MsbDigit(s: seq<char>, k: nat)
    requires IsBitString(s) && k < |s|
    ensures DigitValue(s[k]) == BitOf(ParseBinary(s), |s| - 1 - k)
  {
    var s' := s[..|s| - 1];
    if k < |s| - 1 {
      assert ParseBinary(s) / 2 == ParseBinary(s');
      MsbDigit(s', k);
    }
  }

  /** Least-significant-first reading: character k of a byte string carries the place value 2^k. */
  lemma LsbDigit(b: seq<char>, k: nat)
    requires IsBitString(b) && k < |b|
    ensures DigitValue(b[k]) == BitOf(LsbValue(b), k)
  {
    var r := Reverse(b);
    var j := |b| - 1 - k;
    assert IsBitString(r) && |r| == |b| by {
      ReverseBits(b);
    }
    assert DigitValue(r[j]) == BitOf(ParseBinary(r), k) by {
      MsbDigit(r, j);
      assert |r| - 1 - j == k;
    }
    assert r[j] == b[k];
  }
}
