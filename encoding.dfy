/**
 * The text and number conversions `onStdoutData` borrows from Node: hexadecimal
 * encoding and decoding of a `Buffer`, `Number.prototype.toString(16)`,
 * `Buffer.readInt8`, the `match(/.{1,2}/g).reverse().join('')` idiom that
 * reverses the byte order of a hex string, and `parseInt(s, 10)`.
 */
module Encoding {
  import opened Wrappers

  /** An octet, as `Buffer.readUInt8` returns it. */
  type byte = x: int | 0 <= x < 256

  // ---------------------------------------------------------------------------
  // Hexadecimal digits
  // ---------------------------------------------------------------------------

  /** The value of a hexadecimal digit of either case, or None for any other character. */
  function HexValue(c: char): (r: Option<int>)
    ensures r.Some? ==> 0 <= r.value < 16
    ensures r.Some? <==> ('0' <= c <= '9' || 'a' <= c <= 'f' || 'A' <= c <= 'F')
  {
    if '0' <= c <= '9' then Some(c as int - '0' as int)
    else if 'a' <= c <= 'f' then Some(c as int - 'a' as int + 10)
    else if 'A' <= c <= 'F' then Some(c as int - 'A' as int + 10)
    else None
  }

  /** The lower-case digit Node prints for a value below 16. */
  function HexChar(n: int): (c: char)
    requires 0 <= n < 16
    ensures HexValue(c) == Some(n)
    ensures !('A' <= c <= 'F')
  {
    if n < 10 then ('0' as int + n) as char else ('a' as int + n - 10) as char
  }

  /** One byte as two lower-case hex digits, high nibble first. */
  function Hex2(b: byte): (s: string)
    ensures |s| == 2
    ensures HexValue(s[0]) == Some(b / 16) && HexValue(s[1]) == Some(b % 16)
  {
    [HexChar(b / 16), HexChar(b % 16)]
  }

  /** `buf.toString('hex')`: every byte as two lower-case digits, in buffer order. */
  function HexEncode(bs: seq<byte>): (s: string)
    ensures |s| == 2 * |bs|
  {
    if bs == [] then [] else Hex2(bs[0]) + HexEncode(bs[1..])
  }

  /**
   * `new Buffer(s, 'hex')`, taken as a partial function: a string of odd
   * length or with a character that is not a hex digit has no decoding.
   */
  function HexDecode(s: string): (r: Option<seq<byte>>)
    ensures r.Some? ==> 2 * |r.value| == |s|
    ensures |s| % 2 == 1 ==> r.None?
  {
    if |s| == 0 then Some([])
    else if |s| == 1 then None
    else
      var hi := HexValue(s[0]);
      var lo := HexValue(s[1]);
      var rest := HexDecode(s[2..]);
      if hi.Some? && lo.Some? && rest.Some? then Some([hi.value * 16 + lo.value] + rest.value)
      else None
  }

  /** Every character of `toString('hex')` is a hex digit. */
  lemma HexEncodeDigits(bs: seq<byte>)
    ensures forall k | 0 <= k < |HexEncode(bs)| :: HexValue(HexEncode(bs)[k]).Some?
    decreases |bs|
  {
    if bs != [] {
      HexEncodeDigits(bs[1..]);
      var h := Hex2(bs[0]);
      var rest := HexEncode(bs[1..]);
      forall k | 0 <= k < |h + rest| ensures HexValue((h + rest)[k]).Some? {
        if k >= 2 {
          assert (h + rest)[k] == rest[k - 2];
        }
      }
    }
  }

  /** Decoding what Node encodes gives the bytes back. */
  lemma {:induction false} HexDecodeEncode(bs: seq<byte>)
    ensures HexDecode(HexEncode(bs)) == Some(bs)
  {
    if bs != [] {
      var s := HexEncode(bs);
      assert s[..2] == Hex2(bs[0]) && s[2..] == HexEncode(bs[1..]);
      HexDecodeEncode(bs[1..]);
      assert bs[0] == (bs[0] / 16) * 16 + bs[0] % 16;
      assert bs == [bs[0]] + bs[1..];
    }
  }

  // ---------------------------------------------------------------------------
  // Byte-reversed hex: `buf.toString('hex').match(/.{1,2}/g).reverse().join('')`
  // ---------------------------------------------------------------------------

  /** The groups `/.{1,2}/g` matches in a string without line terminators: pairs, the last one possibly single. */
  function Pairs(s: string): (ps: seq<string>)
    ensures s != [] ==> ps != []
    decreases |s|
  {
    if |s| == 0 then []
    else if |s| <= 2 then [s]
    else [s[..2]] + Pairs(s[2..])
  }

  /** `String.prototype.match` with a global pattern: null (None) when nothing matches. */
  function MatchPairs(s: string): (r: Option<seq<string>>)
    ensures r.None? <==> s == []
  {
    if s == [] then None else Some(Pairs(s))
  }

  function Reverse<T>(xs: seq<T>): (r: seq<T>)
    ensures |r| == |xs|
    ensures forall k | 0 <= k < |xs| :: r[k] == xs[|xs| - 1 - k]
  {
    seq(|xs|, k requires 0 <= k < |xs| => xs[|xs| - 1 - k])
  }

  /** `Array.prototype.join('')`. */
  function Concat(ss: seq<string>): string
  {
    if ss == [] then [] else ss[0] + Concat(ss[1..])
  }

  /** The hex pair of every byte, in buffer order. */
  function HexPairs(bs: seq<byte>): (ps: seq<string>)
    ensures |ps| == |bs|
  {
    seq(|bs|, k requires 0 <= k < |bs| => Hex2(bs[k]))
  }

  /**
   * The expression the source uses for 128-bit UUIDs and service-data UUIDs;
   * None where the source dereferences the null that `match` returns.
   */
  function LittleEndianHex(bs: seq<byte>): (r: Option<string>)
    ensures r.None? <==> bs == []
    ensures r.Some? ==> |r.value| == 2 * |bs|
  {
    HexEncodeLength(bs);
    match MatchPairs(HexEncode(bs))
    case None => None
    case Some(ps) => Some(Concat(Reverse(ps)))
  }

  lemma HexEncodeLength(bs: seq<byte>)
    ensures |HexEncode(bs)| == 2 * |bs|
    ensures MatchPairs(HexEncode(bs)).Some? ==> |Concat(Reverse(MatchPairs(HexEncode(bs)).value))| == 2 * |bs|
  {
    if bs != [] {
      PairsOfHex(bs);
      ConcatHexPairs(Reverse(bs));
      assert Reverse(HexPairs(bs)) == HexPairs(Reverse(bs));
    }
  }

  lemma {:induction false} PairsOfHex(bs: seq<byte>)
    ensures Pairs(HexEncode(bs)) == HexPairs(bs)
  {
    if bs != [] {
      var s := HexEncode(bs);
      if |bs| == 1 {
        assert s == Hex2(bs[0]);
      } else {
        assert s[..2] == Hex2(bs[0]) && s[2..] == HexEncode(bs[1..]);
        PairsOfHex(bs[1..]);
        assert HexPairs(bs) == [Hex2(bs[0])] + HexPairs(bs[1..]);
      }
    }
  }

  lemma {:induction false} ConcatHexPairs(bs: seq<byte>)
    ensures Concat(HexPairs(bs)) == HexEncode(bs)
  {
    if bs != [] {
      assert HexPairs(bs)[1..] == HexPairs(bs[1..]);
      ConcatHexPairs(bs[1..]);
    }
  }

  /** Splitting the hex text into pairs and joining them in reverse order is the hex of the reversed bytes. */
  lemma LittleEndianHexReversesBytes(bs: seq<byte>)
    requires bs != []
    ensures LittleEndianHex(bs) == Some(HexEncode(Reverse(bs)))
  {
    PairsOfHex(bs);
    assert Reverse(HexPairs(bs)) == HexPairs(Reverse(bs));
    ConcatHexPairs(Reverse(bs));
  }

  // ---------------------------------------------------------------------------
  // Numbers
  // ---------------------------------------------------------------------------

  /** `Number.prototype.toString(16)` of a natural number: lower case, no zero padding. */
  function HexDigits(n: nat): (s: string)
    ensures |s| >= 1
    ensures s[0] == '0' <==> n == 0
    ensures n < 0x10 ==> |s| == 1
    ensures n < 0x100 ==> |s| <= 2
    ensures n < 0x1000 ==> |s| <= 3
    ensures n < 0x10000 ==> |s| <= 4
    decreases n
  {
    if n < 16 then [HexChar(n)] else HexDigits(n / 16) + [HexChar(n % 16)]
  }

  /** The value of a string of hex digits, most significant first; None if a character is not a digit. */
  function HexNumber(s: string): Option<nat>
  {
    if s == [] then Some(0)
    else
      var hi := HexNumber(s[..|s| - 1]);
      var lo := HexValue(s[|s| - 1]);
      if hi.Some? && lo.Some? then Some(hi.value * 16 + lo.value) else None
  }

  /** Reading back what `toString(16)` printed gives the number. */
  lemma {:induction false} HexDigitsValue(n: nat)
    ensures HexNumber(HexDigits(n)) == Some(n)
    decreases n
  {
    var s := HexDigits(n);
    if n < 16 {
      assert s[..0] == [];
    } else {
      assert s[..|s| - 1] == HexDigits(n / 16);
      HexDigitsValue(n / 16);
    }
  }

  /** `Buffer.readInt8`: a byte read as a two's-complement signed 8-bit integer. */
  function Int8(b: byte): (v: int)
    ensures -128 <= v < 128
    ensures (v - b) % 256 == 0
  {
    if b < 128 then b else b - 256
  }

  predicate IsDigit(c: char)
  {
    '0' <= c <= '9'
  }

  predicate AllDigits(s: string)
  {
    forall k | 0 <= k < |s| :: IsDigit(s[k])
  }

  /** The length of the longest run of decimal digits at the start of a string. */
  function DigitRun(s: string): (n: nat)
    ensures n <= |s| && AllDigits(s[..n])
    ensures n < |s| ==> !IsDigit(s[n])
  {
    if s == [] || !IsDigit(s[0]) then 0 else 1 + DigitRun(s[1..])
  }

  function DecimalValue(ds: string): nat
    requires AllDigits(ds)
  {
    if ds == [] then 0 else DecimalValue(ds[..|ds| - 1]) * 10 + (ds[|ds| - 1] as int - '0' as int)
  }

  /** The text after an optional leading sign. */
  function Unsigned(s: string): string
  {
    if |s| > 0 && (s[0] == '-' || s[0] == '+') then s[1..] else s
  }

  /**
   * `parseInt(s, 10)`: an optional sign, then the longest run of decimal
   * digits, anything after it ignored; None stands for `NaN`, the result when
   * no digit follows the sign.
   */
  function ParseInt(s: string): (r: Option<int>)
    ensures r.None? <==> (Unsigned(s) == [] || !IsDigit(Unsigned(s)[0]))
  {
    var body := Unsigned(s);
    var n := DigitRun(body);
    if n == 0 then None
    else
      var v: int := DecimalValue(body[..n]);
      Some(if |s| > 0 && s[0] == '-' then -v else v)
  }

  /** Decimal digits of a natural number, as `String(n)` prints them. */
  function DecimalDigits(n: nat): (s: string)
    ensures |s| >= 1 && AllDigits(s)
    decreases n
  {
    if n < 10 then [('0' as int + n) as char] else DecimalDigits(n / 10) + [('0' as int + n % 10) as char]
  }

  /** An integer in decimal with a leading '-' when negative. */
  function Decimal(n: int): string
  {
    if n < 0 then "-" + DecimalDigits(-n) else DecimalDigits(n)
  }

  lemma {:induction false} DecimalDigitsValue(n: nat)
    ensures DecimalValue(DecimalDigits(n)) == n
    decreases n
  {
    var s := DecimalDigits(n);
    if n < 10 {
      assert s[..0] == [];
    } else {
      assert s[..|s| - 1] == DecimalDigits(n / 10);
      DecimalDigitsValue(n / 10);
    }
  }

  /** A printed integer is an optional minus sign followed by decimal digits. */
  lemma DecimalChars(n: int)
    ensures forall k | 0 <= k < |Decimal(n)| :: Decimal(n)[k] == '-' || IsDigit(Decimal(n)[k])
  {
    var ds := DecimalDigits(if n < 0 then -n else n);
    var s := Decimal(n);
    forall k | 0 <= k < |s| ensures s[k] == '-' || IsDigit(s[k]) {
      if n < 0 {
        assert s == "-" + ds;
        if k > 0 {
          assert s[k] == ds[k - 1];
        }
      }
    }
  }

  lemma {:induction false} DigitRunOfDigits(ds: string, tail: string)
    requires AllDigits(ds)
    requires tail == [] || !IsDigit(tail[0])
    ensures DigitRun(ds + tail) == |ds|
  {
    if ds != [] {
      assert (ds + tail)[1..] == ds[1..] + tail;
      DigitRunOfDigits(ds[1..], tail);
    } else {
      assert ds + tail == tail;
    }
  }

  /** `parseInt` of a sign, a run of digits and text that does not start with a digit. */
  lemma ParseIntOfDigits(s: string, ds: string, tail: string)
    requires AllDigits(ds) && ds != []
    requires tail == [] || !IsDigit(tail[0])
    requires Unsigned(s) == ds + tail
    ensures ParseInt(s) == Some(var v: int := DecimalValue(ds); if |s| > 0 && s[0] == '-' then -v else v)
  {
    DigitRunOfDigits(ds, tail);
    assert (ds + tail)[..|ds|] == ds;
  }

  /** `parseInt` reads back a printed integer, whatever non-digit text follows it. */
  lemma ParseIntDecimal(n: int, tail: string)
    requires tail == [] || !IsDigit(tail[0])
    ensures ParseInt(Decimal(n) + tail) == Some(n)
  {
    var m := if n < 0 then -n else n;
    var ds := DecimalDigits(m);
    DecimalDigitsValue(m);
    var s := Decimal(n) + tail;
    if n < 0 {
      assert s == "-" + (ds + tail);
      assert Unsigned(s) == ds + tail;
      ParseIntOfDigits(s, ds, tail);
    } else {
      assert s == ds + tail;
      assert IsDigit(s[0]);
      ParseIntOfDigits(s, ds, tail);
    }
  }
}
