/** Byte rendering and numeral decoding shared by both Mercury drivers
    (mercury/utils.py; the same three functions are repeated in
    mercury/mercury206.py and mercury/mercury236.py, which differ only in the
    default base of `digitize`). */
module Utils {

  /** An element of a Python `bytes` value. */
  type byte = x: int | 0 <= x < 256

  /** The Python exceptions raised by the core, one constructor per cause. */
  datatype Error =
    | ExpectedSingleByte  // ValueError('expected single byte') from upper_hex
    | NotAnInteger        // TypeError: '%02X' needs an integer
    | InvalidLiteral      // ValueError from int(s, base): s is not a numeral in that base
    | AddressTooLong      // ValueError('address length exceeds N bytes')
    | AddressType         // TypeError('address must be an integer or bytes')
    | AddressRange        // struct.error: the integer does not fit the address format
    | ByteRange           // ValueError from bytes(args): an argument outside 0..255
    | ShortMessage        // struct.error: fewer bytes than the address format unpacks
    | IndexOutOfRange     // IndexError: a payload too short for the fields read from it

  datatype Result<+T> = Success(value: T) | Failure(error: Error)

  datatype Option<+T> = None | Some(value: T)

  /** The address argument of pack_msg in both drivers: a Python int, a bytes
      value, or any other object. */
  datatype Address = IntAddress(n: int) | BytesAddress(b: seq<byte>) | OtherAddress

  // ---------------------------------------------------------------------
  // Hexadecimal rendering: '%02X' % n and upper_hex
  // ---------------------------------------------------------------------

  /** The uppercase hexadecimal digit for 0 <= d < 16: '0'..'9', then 'A'..'F'. */
  function HexChar(d: nat): char
    requires d < 16
  {
    if d < 10 then ('0' as int + d) as char else ('A' as int + d - 10) as char
  }

  /** '%X' % n: the shortest uppercase hexadecimal numeral of n. */
  function HexDigits(n: nat): (s: string)
    ensures |s| >= 1
    decreases n
  {
    if n < 16 then [HexChar(n)] else HexDigits(n / 16) + [HexChar(n % 16)]
  }

  /** '%02X' % n: at least two characters, zero-padded; a negative number is
      rendered as '-' followed by the digits of its magnitude. */
  function FormatHex2(n: int): (s: string)
    ensures |s| >= 2
    ensures 0 <= n < 256 ==> s == [HexChar(n / 16), HexChar(n % 16)]
    ensures n < 0 ==> s[0] == '-'
  {
    if n < 0 then "-" + HexDigits(-n)
    else if n < 16 then ['0', HexChar(n)]
    else
      assert n < 256 ==> n / 16 < 16 && HexDigits(n) == [HexChar(n / 16)] + [HexChar(n % 16)];
      HexDigits(n)
  }

  /** The argument kinds upper_hex accepts: an int, a str, a bytes value, or
      anything else (which the '%02X' formatting rejects). */
  datatype HexArg = IntArg(n: int) | StrArg(s: string) | BytesArg(b: seq<byte>) | OtherArg

  /** upper_hex (mercury/utils.py:14-48). */
  function UpperHex(x: HexArg): (r: Result<string>)
    ensures x.IntArg? && 0 <= x.n < 256 ==> r == Success([HexChar(x.n / 16), HexChar(x.n % 16)])
    ensures (x.StrArg? && |x.s| != 1) || (x.BytesArg? && |x.b| != 1) ==> r == Failure(ExpectedSingleByte)
    ensures r.Success? <==> (x.IntArg? || (x.StrArg? && |x.s| == 1) || (x.BytesArg? && |x.b| == 1))
  {
    match x
    case IntArg(n) => Success(FormatHex2(n))
    case StrArg(s) => if |s| != 1 then Failure(ExpectedSingleByte) else Success(FormatHex2(s[0] as int))
    case BytesArg(b) => if |b| != 1 then Failure(ExpectedSingleByte) else Success(FormatHex2(b[0]))
    case OtherArg => Failure(NotAnInteger)
  }

  /** A one-character str and a one-element bytes value are rendered as the
      integer they hold. */
  lemma UpperHexOfSingleton(c: char, b: byte)
    ensures UpperHex(StrArg([c])) == UpperHex(IntArg(c as int))
    ensures UpperHex(BytesArg([b])) == UpperHex(IntArg(b))
  {
  }

  /** The examples in the documentation of upper_hex (mercury/utils.py:16-39). */
  lemma UpperHexExamples()
    ensures UpperHex(StrArg([0 as char])) == Success("00")
    ensures UpperHex(IntArg(0)) == Success("00")
    ensures UpperHex(IntArg(5)) == Success("05")
    ensures UpperHex(BytesArg([1])) == Success("01")
    ensures UpperHex(StrArg("")) == Failure(ExpectedSingleByte)
    ensures UpperHex(BytesArg([])) == Failure(ExpectedSingleByte)
    ensures UpperHex(StrArg([0 as char, 1 as char])) == Failure(ExpectedSingleByte)
    ensures UpperHex(BytesArg([0, 1])) == Failure(ExpectedSingleByte)
  {
    UpperHexOfSingleton(0 as char, 1);
  }

  // ---------------------------------------------------------------------
  // pretty_hex
  // ---------------------------------------------------------------------

  /** The elements of a list or bytes value of integers, as upper_hex sees them. */
  function IntArgs(xs: seq<int>): (r: seq<HexArg>)
    ensures |r| == |xs| && forall i | 0 <= i < |xs| :: r[i] == IntArg(xs[i])
  {
    seq(|xs|, i requires 0 <= i < |xs| => IntArg(xs[i]))
  }

  /** The elements of a str value: one-character strings. */
  function CharArgs(s: string): (r: seq<HexArg>)
    ensures |r| == |s| && forall i | 0 <= i < |s| :: r[i] == StrArg([s[i]])
  {
    seq(|s|, i requires 0 <= i < |s| => StrArg([s[i]]))
  }

  /** pretty_hex (mercury/utils.py:51-60): ' '.join(upper_hex(c) for c in xs);
      the first element upper_hex rejects raises. */
  function PrettyHex(xs: seq<HexArg>): (r: Result<string>)
    ensures r.Success? <==> forall i | 0 <= i < |xs| :: UpperHex(xs[i]).Success?
    decreases |xs|
  {
    if xs == [] then Success("")
    else
      match PrettyHex(xs[..|xs| - 1])
      case Failure(e) => Failure(e)
      case Success(front) =>
        match UpperHex(xs[|xs| - 1])
        case Failure(e) => Failure(e)
        case Success(last) => Success(if |xs| == 1 then last else front + " " + last)
  }

  /** The failure pretty_hex reports is that of the first element upper_hex
      rejects, as the generator raises there. */
  lemma {:induction false} PrettyHexFirstError(xs: seq<HexArg>, i: nat)
    requires i < |xs| && UpperHex(xs[i]).Failure?
    requires forall j | 0 <= j < i :: UpperHex(xs[j]).Success?
    ensures PrettyHex(xs) == Failure(UpperHex(xs[i]).error)
    decreases |xs|
  {
    var n := |xs| - 1;
    if i < n {
      assert xs[..n][i] == xs[i];
      assert forall j | 0 <= j < i :: xs[..n][j] == xs[j];
      PrettyHexFirstError(xs[..n], i);
    } else {
      assert forall j | 0 <= j < n :: xs[..n][j] == xs[j];
    }
  }

  /** One more element adds a space and its token. */
  lemma PrettyHexSnoc(xs: seq<HexArg>, x: HexArg)
    requires xs != [] && PrettyHex(xs).Success? && UpperHex(x).Success?
    ensures PrettyHex(xs + [x]) == Success(PrettyHex(xs).value + " " + UpperHex(x).value)
  {
    assert (xs + [x])[..|xs|] == xs;
  }

  /** pretty_hex depends only on the tokens of the elements. */
  lemma {:induction false} PrettyHexSameTokens(xs: seq<HexArg>, ys: seq<HexArg>)
    requires |xs| == |ys| && forall i | 0 <= i < |xs| :: UpperHex(xs[i]) == UpperHex(ys[i])
    ensures PrettyHex(xs) == PrettyHex(ys)
    decreases |xs|
  {
    if xs != [] {
      PrettyHexSameTokens(xs[..|xs| - 1], ys[..|ys| - 1]);
    }
  }

  /** For n >= 1 bytes, pretty_hex is the n two-digit tokens separated by
      single spaces (length 3n - 1); no bytes give the empty string. */
  lemma {:induction false} PrettyHexOfBytes(bs: seq<byte>)
    ensures PrettyHex(IntArgs(bs)).Success?
    ensures bs == [] ==> PrettyHex(IntArgs(bs)).value == ""
    ensures bs != [] ==> |PrettyHex(IntArgs(bs)).value| == 3 * |bs| - 1
    ensures forall i | 0 <= i < |bs| ::
              PrettyHex(IntArgs(bs)).value[3 * i] == HexChar(bs[i] / 16) &&
              PrettyHex(IntArgs(bs)).value[3 * i + 1] == HexChar(bs[i] % 16)
    ensures forall i | 0 <= i < |bs| - 1 :: PrettyHex(IntArgs(bs)).value[3 * i + 2] == ' '
    decreases |bs|
  {
    if bs != [] {
      var n := |bs|;
      var init, b := bs[..n - 1], bs[n - 1];
      var xs := IntArgs(bs);
      assert xs[..n - 1] == IntArgs(init);
      PrettyHexOfBytes(init);
      var last := [HexChar(b / 16), HexChar(b % 16)];
      assert UpperHex(xs[n - 1]) == Success(last);
      var s := PrettyHex(xs).value;
      if n == 1 {
        assert s == last;
      } else {
        var front := PrettyHex(IntArgs(init)).value;
        assert s == front + " " + last;
        assert |front| == 3 * (n - 1) - 1;
        forall i | 0 <= i < n
          ensures s[3 * i] == HexChar(bs[i] / 16) && s[3 * i + 1] == HexChar(bs[i] % 16)
        {
          if i < n - 1 {
            assert s[3 * i] == front[3 * i] && s[3 * i + 1] == front[3 * i + 1];
            assert bs[i] == init[i];
          } else {
            assert s[3 * i] == last[0] && s[3 * i + 1] == last[1];
          }
        }
        forall i | 0 <= i < n - 1 ensures s[3 * i + 2] == ' ' {
          if i < n - 2 {
            assert s[3 * i + 2] == front[3 * i + 2];
          } else {
            assert s[3 * i + 2] == s[|front|];
          }
        }
      }
    }
  }

  /** The examples in the documentation of pretty_hex (mercury/utils.py:53-58). */
  lemma PrettyHexExamplePython()
    ensures PrettyHex(CharArgs("Python")) == Success("50 79 74 68 6F 6E")
  {
    var py := CharArgs("Python");
    var ints := [IntArg(0x50), IntArg(0x79), IntArg(0x74), IntArg(0x68), IntArg(0x6F), IntArg(0x6E)];
    var tokens := ["50", "79", "74", "68", "6F", "6E"];
    forall i | 0 <= i < 6 ensures UpperHex(py[i]) == UpperHex(ints[i]) {
      UpperHexOfSingleton("Python"[i], 0);
    }
    PrettyHexSameTokens(py, ints);
    assert UpperHex(IntArg(0x50)) == Success("50");
    assert UpperHex(IntArg(0x79)) == Success("79");
    assert UpperHex(IntArg(0x74)) == Success("74");
    assert UpperHex(IntArg(0x68)) == Success("68");
    assert UpperHex(IntArg(0x6F)) == Success("6F");
    assert UpperHex(IntArg(0x6E)) == Success("6E");
    PrettyHexTokens(ints, tokens);
    SpaceJoinSix("50", "79", "74", "68", "6F", "6E");
    assert "50" + " " + "79" + " " + "74" + " " + "68" + " " + "6F" + " " + "6E" == "50 79 74 68 6F 6E";
  }

  lemma PrettyHexExampleLatin1()
    ensures PrettyHex(CharArgs([0 as char, 0xA1 as char, 0xB2 as char])) == Success("00 A1 B2")
  {
    var chars := CharArgs([0 as char, 0xA1 as char, 0xB2 as char]);
    var ints := [IntArg(0x00), IntArg(0xA1), IntArg(0xB2)];
    var t := ["00", "A1", "B2"];
    forall i | 0 <= i < 3 ensures UpperHex(chars[i]) == UpperHex(ints[i]) {
      UpperHexOfSingleton([0 as char, 0xA1 as char, 0xB2 as char][i], 0);
    }
    PrettyHexSameTokens(chars, ints);
    assert UpperHex(IntArg(0x00)) == Success("00");
    assert UpperHex(IntArg(0xA1)) == Success("A1");
    assert UpperHex(IntArg(0xB2)) == Success("B2");
    PrettyHexTokens(ints, t);
    assert t[..2][..1] == ["00"] && t[..2] == ["00", "A1"];
    assert SpaceJoin(t) == "00" + " " + "A1" + " " + "B2" == "00 A1 B2";
  }

  lemma PrettyHexExampleList()
    ensures PrettyHex(IntArgs([1, 2, 3, 5, 8, 13])) == Success("01 02 03 05 08 0D")
  {
    var ints := [IntArg(1), IntArg(2), IntArg(3), IntArg(5), IntArg(8), IntArg(13)];
    var tokens := ["01", "02", "03", "05", "08", "0D"];
    assert IntArgs([1, 2, 3, 5, 8, 13]) == ints;
    assert UpperHex(IntArg(1)) == Success("01");
    assert UpperHex(IntArg(2)) == Success("02");
    assert UpperHex(IntArg(3)) == Success("03");
    assert UpperHex(IntArg(5)) == Success("05");
    assert UpperHex(IntArg(8)) == Success("08");
    assert UpperHex(IntArg(13)) == Success("0D");
    PrettyHexTokens(ints, tokens);
    SpaceJoinSix("01", "02", "03", "05", "08", "0D");
    assert "01" + " " + "02" + " " + "03" + " " + "05" + " " + "08" + " " + "0D" == "01 02 03 05 08 0D";
  }

  lemma SpaceJoinSix(a: string, b: string, c: string, d: string, e: string, f: string)
    ensures SpaceJoin([a, b, c, d, e, f]) == a + " " + b + " " + c + " " + d + " " + e + " " + f
  {
    var t := [a, b, c, d, e, f];
    assert t[..5] == [a, b, c, d, e];
    assert t[..5][..4] == [a, b, c, d];
    assert t[..5][..4][..3] == [a, b, c];
    assert t[..5][..4][..3][..2] == [a, b];
    assert t[..5][..4][..3][..2][..1] == [a];
    assert SpaceJoin([a]) == a;
    assert SpaceJoin([a, b]) == a + " " + b;
    assert SpaceJoin([a, b, c]) == a + " " + b + " " + c;
    assert SpaceJoin([a, b, c, d]) == a + " " + b + " " + c + " " + d;
    assert SpaceJoin([a, b, c, d, e]) == a + " " + b + " " + c + " " + d + " " + e;
  }

  /** ' '.join of the given tokens, written out: a helper for the examples. */
  function SpaceJoin(tokens: seq<string>): string
    decreases |tokens|
  {
    if tokens == [] then "" else if |tokens| == 1 then tokens[0]
    else SpaceJoin(tokens[..|tokens| - 1]) + " " + tokens[|tokens| - 1]
  }

  lemma {:induction false} PrettyHexTokens(xs: seq<HexArg>, tokens: seq<string>)
    requires |xs| == |tokens| && forall i | 0 <= i < |xs| :: UpperHex(xs[i]) == Success(tokens[i])
    ensures PrettyHex(xs) == Success(SpaceJoin(tokens))
    decreases |xs|
  {
    if xs != [] {
      PrettyHexTokens(xs[..|xs| - 1], tokens[..|tokens| - 1]);
    }
  }

  // ---------------------------------------------------------------------
  // Numerals: int(s, base)
  // ---------------------------------------------------------------------

  /** The digit value int() gives an ASCII digit or letter (either case). */
  function DigitValue(c: char): Option<nat>
  {
    if '0' <= c <= '9' then Some(c as nat - '0' as nat)
    else if 'A' <= c <= 'Z' then Some(c as nat - 'A' as nat + 10)
    else if 'a' <= c <= 'z' then Some(c as nat - 'a' as nat + 10)
    else None
  }

  predicate IsDigitIn(c: char, base: nat)
  {
    DigitValue(c).Some? && DigitValue(c).value < base
  }

  /** The value of the digits of s in the given base, most significant first;
      a character that is not a digit below the base makes it InvalidLiteral. */
  function ParseDigits(s: string, base: nat): (r: Result<nat>)
    ensures r.Success? <==> forall i | 0 <= i < |s| :: IsDigitIn(s[i], base)
    ensures r.Failure? ==> r.error == InvalidLiteral
    decreases |s|
  {
    if s == [] then Success(0)
    else
      match ParseDigits(s[..|s| - 1], base)
      case Failure(e) => Failure(e)
      case Success(v) =>
        if IsDigitIn(s[|s| - 1], base) then Success(v * base + DigitValue(s[|s| - 1]).value)
        else Failure(InvalidLiteral)
  }

  /** int(s, base) on strings of ASCII digits and letters: the empty string
      and any digit not below the base raise ValueError. */
  function ParseInt(s: string, base: nat): (r: Result<nat>)
    requires 2 <= base <= 36
    ensures r.Success? <==> s != [] && forall i | 0 <= i < |s| :: IsDigitIn(s[i], base)
    ensures r.Failure? ==> r.error == InvalidLiteral
  {
    if s == [] then Failure(InvalidLiteral) else ParseDigits(s, base)
  }

  /** int(c, 10) of a single character: its digit when it is '0'..'9'. */
  lemma ParseIntOfChar(c: char)
    ensures ParseInt([c], 10) == if '0' <= c <= '9' then Success(c as int - '0' as int) else Failure(InvalidLiteral)
  {
    assert [c][..0] == [];
    assert ParseDigits([], 10) == Success(0);
    assert IsDigitIn(c, 10) <==> '0' <= c <= '9';
  }

  /** Parsing two more digits. */
  lemma ParseDigitsPair(s: string, hi: char, lo: char, base: nat)
    ensures ParseDigits(s + [hi, lo], base)
            == if ParseDigits(s, base).Success? && IsDigitIn(hi, base) && IsDigitIn(lo, base)
               then Success((ParseDigits(s, base).value * base + DigitValue(hi).value) * base + DigitValue(lo).value)
               else Failure(InvalidLiteral)
  {
    var t := s + [hi, lo];
    assert t[..|t| - 1] == s + [hi];
    assert (s + [hi])[..|s|] == s;
  }

  // ---------------------------------------------------------------------
  // digitize
  // ---------------------------------------------------------------------

  /** The token upper_hex gives a byte: its two nibbles as uppercase hex digits. */
  function ByteHex(b: byte): string
  {
    [HexChar(b / 16), HexChar(b % 16)]
  }

  /** ByteHex is what upper_hex and '%02X' give a byte. */
  lemma ByteHexIsUpperHex(b: byte)
    ensures ByteHex(b) == FormatHex2(b) && UpperHex(IntArg(b)) == Success(ByteHex(b))
  {
  }

  /** ''.join(upper_hex(b) for b in bs). */
  function HexJoin(bs: seq<byte>): (s: string)
    ensures |s| == 2 * |bs|
    decreases |bs|
  {
    if bs == [] then "" else HexJoin(bs[..|bs| - 1]) + ByteHex(bs[|bs| - 1])
  }

  /** digitize (mercury/utils.py:5-11): render every byte as two uppercase hex
      digits, join them and parse the result in the given base. */
  function Digitize(bs: seq<byte>, base: nat): (r: Result<nat>)
    requires 2 <= base <= 36
    ensures bs == [] ==> r.Failure?
    ensures r.Failure? ==> r.error == InvalidLiteral
  {
    ParseInt(HexJoin(bs), base)
  }

  /** The big-endian unsigned value of a byte sequence (the reference for base 16). */
  function BigEndian(bs: seq<byte>): nat
    decreases |bs|
  {
    if bs == [] then 0 else 256 * BigEndian(bs[..|bs| - 1]) + bs[|bs| - 1]
  }

  lemma BigEndianSnoc(xs: seq<byte>, b: byte)
    ensures BigEndian(xs + [b]) == 256 * BigEndian(xs) + b
  {
    assert (xs + [b])[..|xs|] == xs;
  }

  /** Both nibbles of every byte are decimal digits. */
  predicate IsBcd(bs: seq<byte>)
  {
    forall i | 0 <= i < |bs| :: bs[i] / 16 < 10 && bs[i] % 16 < 10
  }

  /** The packed binary-coded-decimal value of a byte sequence (the reference for base 10). */
  function BcdValue(bs: seq<byte>): nat
    decreases |bs|
  {
    if bs == [] then 0 else 100 * BcdValue(bs[..|bs| - 1]) + 10 * (bs[|bs| - 1] / 16) + bs[|bs| - 1] % 16
  }

  lemma BcdSnoc(xs: seq<byte>, b: byte)
    ensures BcdValue(xs + [b]) == 100 * BcdValue(xs) + 10 * (b / 16) + b % 16
    ensures IsBcd(xs + [b]) <==> IsBcd(xs) && b / 16 < 10 && b % 16 < 10
  {
    var ys := xs + [b];
    assert ys[..|xs|] == xs;
    if IsBcd(ys) {
      forall i | 0 <= i < |xs| ensures xs[i] / 16 < 10 && xs[i] % 16 < 10 {
        assert ys[i] == xs[i];
      }
      assert ys[|xs|] == b;
    }
    if IsBcd(xs) && b / 16 < 10 && b % 16 < 10 {
      forall i | 0 <= i < |ys| ensures ys[i] / 16 < 10 && ys[i] % 16 < 10 {
        if i < |xs| {
          assert ys[i] == xs[i];
        }
      }
    }
  }

  lemma HexCharDigit(d: nat, base: nat)
    requires d < 16
    ensures DigitValue(HexChar(d)) == Some(d)
    ensures IsDigitIn(HexChar(d), base) <==> d < base
  {
  }

  /** Appending one byte appends its two hexadecimal digits. */
  lemma HexJoinSnoc(bs: seq<byte>, b: byte)
    ensures HexJoin(bs + [b]) == HexJoin(bs) + [HexChar(b / 16), HexChar(b % 16)]
  {
    assert (bs + [b])[..|bs|] == bs;
  }

  /** Parsing the rendering of bs followed by one more byte. */
  lemma HexJoinSnocParse(bs: seq<byte>, b: byte, base: nat)
    ensures ParseDigits(HexJoin(bs + [b]), base)
            == if ParseDigits(HexJoin(bs), base).Success? && b / 16 < base && b % 16 < base
               then Success((ParseDigits(HexJoin(bs), base).value * base + b / 16) * base + b % 16)
               else Failure(InvalidLiteral)
  {
    var s, hi, lo := HexJoin(bs), HexChar(b / 16), HexChar(b % 16);
    HexJoinSnoc(bs, b);
    assert HexJoin(bs + [b]) == s + [hi, lo];
    HexCharDigit(b / 16, base);
    HexCharDigit(b % 16, base);
    ParseDigitsPair(s, hi, lo, base);
  }

  /** In base 16 every rendering parses, to the big-endian value. */
  lemma {:induction false} HexJoinValue16(bs: seq<byte>)
    ensures ParseDigits(HexJoin(bs), 16) == Success(BigEndian(bs))
    decreases |bs|
  {
    if bs != [] {
      var init, b := bs[..|bs| - 1], bs[|bs| - 1];
      assert bs == init + [b];
      HexJoinValue16(init);
      HexJoinSnocParse(init, b, 16);
      BigEndianSnoc(init, b);
      var v := BigEndian(init);
      calc {
        (v * 16 + b / 16) * 16 + b % 16;
        256 * v + 16 * (b / 16) + b % 16;
        256 * v + b;
      }
    }
  }

  /** In base 10 the rendering parses exactly when every nibble is a decimal
      digit, and then to the BCD value. */
  lemma {:induction false} HexJoinValue10(bs: seq<byte>)
    ensures ParseDigits(HexJoin(bs), 10) == if IsBcd(bs) then Success(BcdValue(bs)) else Failure(InvalidLiteral)
    decreases |bs|
  {
    if bs != [] {
      var init, b := bs[..|bs| - 1], bs[|bs| - 1];
      assert bs == init + [b];
      HexJoinValue10(init);
      HexJoinSnocParse(init, b, 10);
      BcdSnoc(init, b);
    }
  }

  /** With base 16, digitize is the big-endian unsigned value; the empty
      sequence raises, because int('', 16) does. */
  lemma Digitize16IsBigEndian(bs: seq<byte>)
    ensures Digitize(bs, 16) == if bs == [] then Failure(InvalidLiteral) else Success(BigEndian(bs))
  {
    HexJoinValue16(bs);
  }

  /** With base 10, digitize is a BCD decode: it succeeds exactly on non-empty
      input whose every nibble is a decimal digit, and then gives the BCD value. */
  lemma Digitize10IsBcd(bs: seq<byte>)
    ensures Digitize(bs, 10) == if bs != [] && IsBcd(bs) then Success(BcdValue(bs)) else Failure(InvalidLiteral)
  {
    HexJoinValue10(bs);
  }

  /** Appending a byte in base 16 shifts the value by one byte. */
  lemma Digitize16Snoc(xs: seq<byte>, b: byte)
    requires xs != []
    ensures Digitize(xs, 16).Success?
    ensures Digitize(xs + [b], 16) == Success(256 * Digitize(xs, 16).value + b)
  {
    Digitize16IsBigEndian(xs);
    Digitize16IsBigEndian(xs + [b]);
    BigEndianSnoc(xs, b);
  }

  /** Appending a byte of two decimal nibbles in base 10 shifts the value by two digits. */
  lemma Digitize10Snoc(xs: seq<byte>, b: byte)
    requires xs != [] && IsBcd(xs + [b])
    ensures Digitize(xs, 10).Success?
    ensures Digitize(xs + [b], 10) == Success(100 * Digitize(xs, 10).value + 10 * (b / 16) + b % 16)
  {
    BcdSnoc(xs, b);
    Digitize10IsBcd(xs);
    Digitize10IsBcd(xs + [b]);
  }

  /** Digitize fails exactly on the empty input, or in base 10 when some nibble
      is 10 or more, and the failure is int()'s ValueError. */
  lemma DigitizeFailure(bs: seq<byte>, base: nat)
    requires base == 10 || base == 16
    ensures Digitize(bs, base).Failure? <==>
              bs == [] || (base == 10 && exists i | 0 <= i < |bs| :: bs[i] / 16 >= 10 || bs[i] % 16 >= 10)
    ensures Digitize(bs, base).Failure? ==> Digitize(bs, base).error == InvalidLiteral
  {
    Digitize10IsBcd(bs);
    Digitize16IsBigEndian(bs);
  }

  /** Two leading zero digits do not change the value of a numeral. */
  lemma {:induction false} ParseDigitsLeadingZeros(s: string, base: nat)
    requires base >= 2
    ensures ParseDigits("00" + s, base) == ParseDigits(s, base)
    decreases |s|
  {
    var t := "00" + s;
    if s == [] {
      assert t[..1] == "0" && t[..1][..0] == "";
    } else {
      var init := s[..|s| - 1];
      ParseDigitsLeadingZeros(init, base);
      assert t[..|t| - 1] == "00" + init;
      assert t[|t| - 1] == s[|s| - 1];
    }
  }

  lemma {:induction false} HexJoinLeadingZero(bs: seq<byte>)
    ensures HexJoin([0] + bs) == "00" + HexJoin(bs)
    decreases |bs|
  {
    if bs == [] {
      assert HexJoin([0]) == HexJoin([]) + ByteHex(0);
    } else {
      var init, b := bs[..|bs| - 1], bs[|bs| - 1];
      HexJoinLeadingZero(init);
      assert [0] + bs == ([0] + init) + [b] && bs == init + [b];
      HexJoinSnoc([0] + init, b);
      HexJoinSnoc(init, b);
    }
  }

  /** A leading 0x00 byte does not change digitize of a non-empty tail, in any base. */
  lemma DigitizeLeadingZero(bs: seq<byte>, base: nat)
    requires 2 <= base <= 36 && bs != []
    ensures Digitize([0] + bs, base) == Digitize(bs, base)
  {
    HexJoinLeadingZero(bs);
    ParseDigitsLeadingZeros(HexJoin(bs), base);
  }

  /** The example in the documentation of digitize (mercury/utils.py:7-8), and
      the same bytes in base 16. */
  lemma DigitizeExamples()
    ensures Digitize([0x00, 0x12, 0x34], 10) == Success(1234)
    ensures Digitize([0x00, 0x12, 0x34], 16) == Success(0x1234)
  {
    var bs: seq<byte> := [0x00, 0x12, 0x34];
    Digitize10IsBcd(bs);
    Digitize16IsBigEndian(bs);
    assert bs[..2] == [0x00, 0x12] && bs[..2][..1] == [0x00] && bs[..2][..1][..0] == [];
    assert BcdValue([0x00]) == 0 && BigEndian([0x00]) == 0;
    assert BcdValue([0x00, 0x12]) == 12 && BigEndian([0x00, 0x12]) == 0x12;
    assert IsBcd(bs);
  }

  // ---------------------------------------------------------------------
  // Fixed-width big-endian integers (struct formats '!I' and '!B') and slicing
  // ---------------------------------------------------------------------

  function Pow256(width: nat): (p: nat)
    ensures p >= 1
  {
    if width == 0 then 1 else 256 * Pow256(width - 1)
  }

  /** struct.pack of an unsigned integer in network byte order. */
  function ToBigEndian(n: nat, width: nat): (bs: seq<byte>)
    requires n < Pow256(width)
    ensures |bs| == width && BigEndian(bs) == n
    decreases width
  {
    if width == 0 then []
    else
      var front := ToBigEndian(n / 256, width - 1);
      var bs := front + [n % 256];
      assert bs[..|bs| - 1] == front;
      bs
  }

  /** A big-endian value of `width` bytes fits `width` bytes. */
  lemma {:induction false} BigEndianBound(bs: seq<byte>)
    ensures BigEndian(bs) < Pow256(|bs|)
    decreases |bs|
  {
    if bs != [] {
      BigEndianBound(bs[..|bs| - 1]);
    }
  }

  /** Decoding and re-encoding a big-endian field gives the same bytes. */
  lemma {:induction false} ToBigEndianOfBigEndian(bs: seq<byte>)
    ensures BigEndian(bs) < Pow256(|bs|)
    ensures ToBigEndian(BigEndian(bs), |bs|) == bs
    decreases |bs|
  {
    BigEndianBound(bs);
    if bs != [] {
      var init := bs[..|bs| - 1];
      ToBigEndianOfBigEndian(init);
      assert (256 * BigEndian(init) + bs[|bs| - 1]) / 256 == BigEndian(init);
    }
  }

  // ---------------------------------------------------------------------
  // bytes(args) and str(n)
  // ---------------------------------------------------------------------

  /** bytes(args): the arguments unchanged when each is in 0..255, else ValueError. */
  function ToBytes(args: seq<int>): (r: Result<seq<byte>>)
    ensures r.Success? <==> forall i | 0 <= i < |args| :: 0 <= args[i] < 256
    ensures r.Success? ==> r.value == args
    ensures r.Failure? ==> r.error == ByteRange
  {
    if forall i | 0 <= i < |args| :: 0 <= args[i] < 256 then Success(args) else Failure(ByteRange)
  }

  /** Appending bytes to a list of arguments does not change whether it packs. */
  lemma ToBytesAppendBytes(args: seq<int>, more: seq<byte>)
    ensures ToBytes(args + more).Success? <==> ToBytes(args).Success?
  {
    if !ToBytes(args).Success? {
      var i :| 0 <= i < |args| && !(0 <= args[i] < 256);
      assert (args + more)[i] == args[i];
    } else {
      forall i | 0 <= i < |args + more|
        ensures 0 <= (args + more)[i] < 256
      {
        if i < |args| {
          assert (args + more)[i] == args[i];
        } else {
          assert (args + more)[i] == more[i - |args|];
        }
      }
    }
  }

  function DecimalDigit(d: nat): char
    requires d < 10
  {
    ('0' as int + d) as char
  }

  /** str(n) for a natural number: its decimal digits, without leading zeros. */
  function DecimalString(n: nat): (s: string)
    ensures 1 <= |s|
    ensures forall i | 0 <= i < |s| :: '0' <= s[i] <= '9'
    decreases n
  {
    if n < 10 then [DecimalDigit(n)] else DecimalString(n / 10) + [DecimalDigit(n % 10)]
  }

  /** str and int(_, 10) are inverse on natural numbers. */
  lemma {:induction false} DecimalStringParses(n: nat)
    ensures ParseInt(DecimalString(n), 10) == Success(n)
    decreases n
  {
    var s := DecimalString(n);
    var d := n % 10;
    assert DigitValue(DecimalDigit(d)) == Some(d);
    if n < 10 {
      assert s[..|s| - 1] == [] && s[|s| - 1] == DecimalDigit(n);
      assert ParseDigits(s[..|s| - 1], 10) == Success(0);
    } else {
      DecimalStringParses(n / 10);
      assert s[..|s| - 1] == DecimalString(n / 10);
      assert ParseDigits(s[..|s| - 1], 10) == Success(n / 10);
      assert s[|s| - 1] == DecimalDigit(d);
    }
  }

  /** So str is injective: different numbers get different strings. */
  lemma DecimalStringInjective(m: nat, n: nat)
    ensures DecimalString(m) == DecimalString(n) <==> m == n
  {
    DecimalStringParses(m);
    DecimalStringParses(n);
  }

  /** Python's s[i:j] for 0 <= i <= j: both bounds are clipped to the length. */
  function PySlice<T>(s: seq<T>, i: nat, j: nat): (r: seq<T>)
    requires i <= j
    ensures |r| == if j <= |s| then j - i else if i <= |s| then |s| - i else 0
    ensures forall k | 0 <= k < |r| :: r[k] == s[i + k]
  {
    var hi := if j <= |s| then j else |s|;
    var lo := if i <= hi then i else hi;
    s[lo..hi]
  }
}
