/** The Mercury 236 driver (mercury/mercury236.py): requests carry a one-byte
    bus address, a command byte, its parameters and, when opening a channel,
    the password one digit per byte, then the Modbus CRC; answers echo the
    address, and readings are little groups of bytes in a scrambled order,
    decoded with digitize in base 16. The readings are taken after a channel
    has been opened with a user level and password. */
module Mercury236 {
  import opened Utils
  import Crc

  // ---------------------------------------------------------------------
  // Request frames: pack_msg (mercury/mercury236.py:170-216)
  // ---------------------------------------------------------------------

  /** The address field: an int is packed as '!B', so it must lie in 0..255;
      a bytes address of at most one byte is used as it is (never padded, so
      b'' gives no address byte at all); anything else is a TypeError. */
  function AddressField(address: Address): (r: Result<seq<byte>>)
    ensures r.Success? ==> |r.value| <= 1
    ensures address.IntAddress? ==> (r.Success? <==> 0 <= address.n < 256)
    ensures address.IntAddress? && r.Success? ==> r.value == [address.n]
    ensures address.BytesAddress? ==> (r.Success? <==> |address.b| <= 1)
    ensures address.BytesAddress? && r.Success? ==> r.value == address.b
    ensures r.Failure? ==> r.error == match address
                                       case IntAddress(_) => AddressRange
                                       case BytesAddress(_) => AddressTooLong
                                       case OtherAddress => AddressType
  {
    match address
    case IntAddress(n) => if 0 <= n < 256 then Success([n]) else Failure(AddressRange)
    case BytesAddress(b) => if |b| > 1 then Failure(AddressTooLong) else Success(b)
    case OtherAddress => Failure(AddressType)
  }

  /** bytes([int(c) for c in passwd]): each character becomes the byte of its
      digit; a character that is not a decimal digit makes int() raise. */
  function PasswordDigits(passwd: string): (r: Result<seq<byte>>)
    ensures r.Success? <==> forall i | 0 <= i < |passwd| :: '0' <= passwd[i] <= '9'
    ensures r.Success? ==> |r.value| == |passwd|
    ensures r.Success? ==> forall i | 0 <= i < |passwd| :: r.value[i] == passwd[i] as int - '0' as int
    ensures r.Failure? ==> r.error == InvalidLiteral
    decreases |passwd|
  {
    if passwd == [] then Success([])
    else
      var c := passwd[|passwd| - 1];
      ParseIntOfChar(c);
      match PasswordDigits(passwd[..|passwd| - 1])
      case Failure(e) => Failure(e)
      case Success(front) =>
        match ParseInt([c], 10)
        case Failure(e) => Failure(e)
        case Success(d) => Success(front + [d])
  }

  /** The message, followed by its CRC when crc is set. */
  function WithCrc(msg: seq<byte>, crc: bool): seq<byte>
  {
    if crc then msg + Crc.Crc16(msg) else msg
  }

  /** pack_msg: the address field, the argument bytes, the password digits when
      a non-empty password is given, and, when crc is set, the two CRC bytes of
      everything before them. The address is checked first, then the arguments,
      then the password. */
  function PackMsg(address: Address, args: seq<int>, passwd: string, crc: bool): (r: Result<seq<byte>>)
    ensures r.Success? <==> AddressField(address).Success? && ToBytes(args).Success?
                            && (passwd != [] ==> PasswordDigits(passwd).Success?)
    ensures r.Failure? ==> r.error == if AddressField(address).Failure? then AddressField(address).error
                                      else if ToBytes(args).Failure? then ByteRange
                                      else InvalidLiteral
    ensures r.Success? ==>
              var body := AddressField(address).value + args
                          + (if passwd == [] then [] else PasswordDigits(passwd).value);
              r.value == WithCrc(body, crc)
  {
    match AddressField(address)
    case Failure(e) => Failure(e)
    case Success(a) =>
      match ToBytes(args)
      case Failure(e) => Failure(e)
      case Success(params) =>
        if passwd == [] then
          assert a + params + [] == a + params;
          Success(WithCrc(a + params, crc))
        else
          match PasswordDigits(passwd)
          case Failure(e) => Failure(e)
          case Success(pw) => Success(WithCrc(a + params + pw, crc))
  }

  /** The password goes after the parameters, one byte per digit: packing with
      a password is packing with its digits appended to the arguments. */
  lemma PasswordAppendsDigits(address: Address, args: seq<int>, passwd: string, crc: bool)
    requires passwd != [] && PasswordDigits(passwd).Success?
    ensures PackMsg(address, args, passwd, crc) == PackMsg(address, args + PasswordDigits(passwd).value, "", crc)
  {
    var pw := PasswordDigits(passwd).value;
    ToBytesAppendBytes(args, pw);
    if AddressField(address).Success? && ToBytes(args).Success? {
      var a := AddressField(address).value;
      assert a + args + pw == a + (args + pw) + [];
    }
  }

  /** The error cases in the documentation of pack_msg (mercury/mercury236.py:185-192)
      still hold of this driver: a str address raises TypeError and b'12345'
      raises ValueError, whose message names one byte, not four. */
  lemma PackMsgExampleErrors()
    ensures PackMsg(OtherAddress, [], "", true) == Failure(AddressType)
    ensures PackMsg(BytesAddress([0x31, 0x32, 0x33, 0x34, 0x35]), [], "", true) == Failure(AddressTooLong)
  {
  }

  /** A frame with its CRC passes the receiver's check: the register ends at zero. */
  lemma PackedFrameChecks(address: Address, args: seq<int>, passwd: string)
    requires PackMsg(address, args, passwd, true).Success?
    ensures Crc.Register(PackMsg(address, args, passwd, true).value) == 0
  {
    var body := AddressField(address).value + args
                + (if passwd == [] then [] else PasswordDigits(passwd).value);
    Crc.CrcResidue(body);
  }

  // ---------------------------------------------------------------------
  // Answers: unpack_msg and the gate in send_tcp_command
  // ---------------------------------------------------------------------

  /** unpack_msg (mercury/mercury236.py:219-232): the first byte is the address
      as '!B', the rest is the payload; an empty message is a struct.error. */
  function UnpackMsg(message: seq<byte>): (r: Result<(byte, seq<byte>)>)
    ensures r.Success? <==> |message| >= 1
    ensures r.Success? ==> message == [r.value.0] + r.value.1
    ensures r.Failure? ==> r.error == ShortMessage
  {
    if message == [] then Failure(ShortMessage) else Success((message[0], message[1..]))
  }

  /** Unpacking a request packed without CRC or password gives back its
      address and arguments, and packing what unpack_msg returns rebuilds the
      message. */
  lemma UnpackPackedMsg(n: byte, args: seq<byte>)
    ensures PackMsg(IntAddress(n), args, "", false) == Success([n] + args)
    ensures UnpackMsg([n] + args) == Success((n, args))
  {
    assert [n] + args + [] == [n] + args;
  }

  lemma PackUnpackedMsg(message: seq<byte>)
    requires |message| >= 1
    ensures UnpackMsg(message).Success?
    ensures PackMsg(IntAddress(UnpackMsg(message).value.0), UnpackMsg(message).value.1, "", false) == Success(message)
  {
    UnpackPackedMsg(message[0], message[1..]);
  }

  /** The result of send_tcp_command once the request has gone out
      (mercury/mercury236.py:163-166): an answer of at most one byte gives
      None; otherwise the payload is returned only when the echoed byte equals
      the requested address. A bytes address never equals the unpacked int. */
  function Reply(address: Address, answer: seq<byte>): (r: Option<seq<byte>>)
    ensures r.Some? <==> |answer| >= 2 && address == IntAddress(answer[0])
    ensures r.Some? ==> [answer[0]] + r.value == answer
  {
    if |answer| <= 1 then None
    else
      var (received, data) := UnpackMsg(answer).value;
      if IntAddress(received) == address then Some(data) else None
  }

  /** A meter that answers with its own address and a payload has that payload
      returned; one that answers with another address is ignored; an answer
      of one byte carries nothing. */
  lemma ReplyFromMeter(n: byte, echoed: byte, payload: seq<byte>)
    ensures Reply(IntAddress(n), [echoed] + payload)
            == if payload != [] && echoed == n then Some(payload) else None
  {
    var answer := [echoed] + payload;
    assert answer[1..] == payload;
  }

  // ---------------------------------------------------------------------
  // The requests each operation sends (mercury/mercury236.py:10-135)
  // ---------------------------------------------------------------------

  /** A request: command byte, parameters and password (empty for no password). */
  datatype Request = Request(command: byte, params: seq<int>, passwd: string)

  /** check_connect: command 0x00. */
  const CheckConnect: Request := Request(0x00, [], "")

  /** open_channel: command 0x01 with the access level, then the password. */
  function OpenChannel(level: int, passwd: string): Request
  {
    Request(0x01, [level], passwd)
  }

  /** The password open_channel uses when its caller gives none
      (mercury/mercury236.py:123). */
  const DefaultOpenPassword: string := "1111111"

  /** close_channel: command 0x02. */
  const CloseChannel: Request := Request(0x02, [], "")

  /** read_vap's three requests: command 0x08 with 0x16 and 0x11 (voltages),
      0x00 (powers) and 0x21 (currents). */
  const VoltageRequest: Request := Request(0x08, [0x16, 0x11], "")
  const PowerRequest: Request := Request(0x08, [0x16, 0x00], "")
  const CurrentRequest: Request := Request(0x08, [0x16, 0x21], "")

  /** read_freq: command 0x08 with 0x16 and 0x40. */
  const FreqRequest: Request := Request(0x08, [0x16, 0x40], "")

  /** read_energy: command 0x05 with the energy array and the tariff. */
  function EnergyRequest(param: int, tarif: int): Request
  {
    Request(0x05, [param, tarif], "")
  }

  /** The frame send_tcp_command writes for a request (mercury/mercury236.py:156). */
  function Frame(address: Address, request: Request): Result<seq<byte>>
  {
    PackMsg(address, [request.command] + request.params, request.passwd, true)
  }

  /** One request and its answer: the frame sent and the reply returned. */
  datatype Exchange = Exchange(request: seq<byte>, reply: Option<seq<byte>>)

  /** send_tcp_command (mercury/mercury236.py:154-166): a request that cannot be
      packed raises before anything is sent; otherwise the answer is gated. */
  function SendCommand(address: Address, request: Request, answer: seq<byte>): (r: Result<Exchange>)
    ensures r.Success? <==> Frame(address, request).Success?
    ensures r.Success? ==> r.value.request == Frame(address, request).value
    ensures r.Success? ==> r.value.reply == Reply(address, answer)
  {
    match Frame(address, request)
    case Failure(e) => Failure(e)
    case Success(frame) => Success(Exchange(frame, Reply(address, answer)))
  }

  /** The session frames for a bus address a: check_connect sends a 00,
      close_channel sends a 02, open_channel sends a 01 and the level followed
      by the password digits; each is followed by its CRC. */
  lemma CheckConnectFrame(a: byte)
    ensures Frame(IntAddress(a), CheckConnect) == Success(WithCrc([a, 0x00], true))
  {
    var args: seq<int> := [0x00];
    assert [CheckConnect.command as int] + CheckConnect.params == args;
    assert ToBytes(args) == Success(args);
    assert PackMsg(IntAddress(a), args, "", true).Success?;
    assert [a] + args + [] == [a, 0x00];
    assert PackMsg(IntAddress(a), args, "", true).value == WithCrc([a] + args + [], true);
  }

  lemma CloseChannelFrame(a: byte)
    ensures Frame(IntAddress(a), CloseChannel) == Success(WithCrc([a, 0x02], true))
  {
    var args: seq<int> := [0x02];
    assert [CloseChannel.command as int] + CloseChannel.params == args;
    assert ToBytes(args) == Success(args);
    assert PackMsg(IntAddress(a), args, "", true).Success?;
    assert [a] + args + [] == [a, 0x02];
    assert PackMsg(IntAddress(a), args, "", true).value == WithCrc([a] + args + [], true);
  }

  lemma OpenChannelFrame(a: byte, level: byte, passwd: string)
    requires passwd != [] && PasswordDigits(passwd).Success?
    ensures Frame(IntAddress(a), OpenChannel(level, passwd))
            == Success(WithCrc([a, 0x01, level] + PasswordDigits(passwd).value, true))
  {
    var request := OpenChannel(level, passwd);
    var args: seq<int> := [0x01, level as int];
    assert [request.command as int] + request.params == args;
    assert ToBytes(args) == Success(args);
    var pw := PasswordDigits(passwd).value;
    assert PackMsg(IntAddress(a), args, passwd, true).Success?;
    assert [a] + args == [a, 0x01, level];
    assert PackMsg(IntAddress(a), args, passwd, true).value == WithCrc([a] + args + pw, true);
  }

  /** open_channel's own default password is seven digits 1, sent as seven
      bytes 0x01. */
  lemma DefaultOpenPasswordDigits()
    ensures PasswordDigits(DefaultOpenPassword) == Success([1, 1, 1, 1, 1, 1, 1])
  {
    var p := DefaultOpenPassword;
    assert forall i | 0 <= i < |p| :: p[i] == '1';
    var d := PasswordDigits(p).value;
    assert forall i | 0 <= i < 7 :: d[i] == 1;
    assert d == [1, 1, 1, 1, 1, 1, 1];
  }

  // ---------------------------------------------------------------------
  // Readings: groups of bytes in a scrambled order, digitize in base 16
  // ---------------------------------------------------------------------

  /** The byte orders the readers pick out of each group of the payload:
      [data[0], data[2], data[1]] for voltages, currents and the frequency,
      [data[2], data[1]] for powers (each still three bytes wide), and
      [data[1], data[0], data[3], data[2]] for energies. */
  datatype Order = Swapped3 | Low2 | Swapped4

  /** How far the payload advances after each group: data = data[3:] or data[4:]. */
  function Width(order: Order): nat
  {
    if order == Swapped4 then 4 else 3
  }

  /** The bytes picked from the front of a group, in the order given. */
  function Picked(order: Order, g: seq<byte>): (p: seq<byte>)
    requires |g| >= Width(order)
    ensures p != []
  {
    match order
    case Swapped3 => [g[0], g[2], g[1]]
    case Low2 => [g[2], g[1]]
    case Swapped4 => [g[1], g[0], g[3], g[2]]
  }

  /** The integer a group encodes, as arithmetic on its bytes. */
  function Reading(order: Order, g: seq<byte>): nat
    requires |g| >= Width(order)
  {
    match order
    case Swapped3 => 65536 * (g[0] as int) + 256 * (g[2] as int) + g[1] as int
    case Low2 => 256 * (g[2] as int) + g[1] as int
    case Swapped4 => 16777216 * (g[1] as int) + 65536 * (g[0] as int) + 256 * (g[3] as int) + g[2] as int
  }

  /** The reading is what the source computes: digitize of the picked bytes in
      base 16, that is, the picked bytes read as one big-endian number. */
  lemma ReadingIsDigitize(order: Order, g: seq<byte>)
    requires |g| >= Width(order)
    ensures Digitize(Picked(order, g), 16) == Success(Reading(order, g))
  {
    var p := Picked(order, g);
    Digitize16IsBigEndian(p);
    BigEndianSnoc([], p[0]);
    assert [] + [p[0]] == [p[0]];
    BigEndianSnoc([p[0]], p[1]);
    assert [p[0]] + [p[1]] == p[..2];
    if |p| >= 3 {
      BigEndianSnoc(p[..2], p[2]);
      assert p[..2] + [p[2]] == p[..3];
    }
    if |p| == 4 {
      BigEndianSnoc(p[..3], p[3]);
      assert p[..3] + [p[3]] == p;
    }
  }

  /** The divisor a reading is scaled by: /100 or /1000. */
  datatype Scale = Hundredths | Thousandths

  /** The value stored for a group: its reading divided by the scale. */
  function Value(order: Order, scale: Scale, g: seq<byte>): real
    requires |g| >= Width(order)
  {
    var n := Reading(order, g) as real;
    if scale == Hundredths then n / 100.0 else n / 1000.0
  }

  /** Where the group of header i starts: i whole groups into the payload. */
  function Offset(order: Order, i: nat): nat
  {
    if order == Swapped4 then 4 * i else 3 * i
  }

  /** The readings of the first |headers| groups of data, one per header, as
      the loop body `result[r] = digitize(...) / scale; data = data[w:]`
      leaves them (a later header overwrites an equal earlier one). */
  function Decoded<K>(headers: seq<K>, order: Order, scale: Scale, data: seq<byte>): (r: map<K, real>)
    requires |data| >= Offset(order, |headers|)
    decreases |headers|
  {
    if headers == [] then map[]
    else
      var n := |headers| - 1;
      Decoded(headers[..n], order, scale, data)[headers[n] := Value(order, scale, data[Offset(order, n)..])]
  }

  /** Group i ends where group i + 1 starts, no later than the last group ends. */
  lemma OffsetStep(order: Order, i: nat, n: nat)
    requires i < n
    ensures Offset(order, i + 1) == Offset(order, i) + Width(order)
    ensures Offset(order, i + 1) <= Offset(order, n)
  {
  }

  /** One more header adds one more reading. */
  lemma DecodedSnoc<K>(headers: seq<K>, order: Order, scale: Scale, data: seq<byte>, i: nat)
    requires i < |headers|
    requires |data| >= Offset(order, i + 1)
    ensures Decoded(headers[..i + 1], order, scale, data)
            == Decoded(headers[..i], order, scale, data)[headers[i] := Value(order, scale, data[Offset(order, i)..])]
  {
    assert headers[..i + 1][..i] == headers[..i];
  }

  /** Updating a union at a key updates its right-hand side. */
  lemma UnionUpdate<K>(acc: map<K, real>, m: map<K, real>, k: K, v: real)
    ensures (acc + m)[k := v] == acc + m[k := v]
  {
  }

  /** The loop over headers shared by read_vap and read_energy
      (mercury/mercury236.py:24-27, 32-35, 40-43, 70-72): each header gets
      the reading of the next group, and a payload that runs out raises
      IndexError before the loop ends. */
  method ReadGroups<K(==)>(headers: seq<K>, order: Order, scale: Scale, data: seq<byte>, acc: map<K, real>)
    returns (r: Result<map<K, real>>)
    ensures r == if |data| >= Offset(order, |headers|) then Success(acc + Decoded(headers, order, scale, data))
                 else Failure(IndexOutOfRange)
  {
    var w := Width(order);
    var rest := data;
    var result := acc;
    for i := 0 to |headers|
      invariant Offset(order, i) <= |data|
      invariant rest == data[Offset(order, i)..]
      invariant result == acc + Decoded(headers[..i], order, scale, data)
    {
      OffsetStep(order, i, |headers|);
      if |rest| < w {
        return Failure(IndexOutOfRange);
      }
      DecodedSnoc(headers, order, scale, data, i);
      UnionUpdate(acc, Decoded(headers[..i], order, scale, data), headers[i], Value(order, scale, rest));
      result := result[headers[i] := Value(order, scale, rest)];
      rest := rest[w..];
      assert rest == data[Offset(order, i + 1)..];
    }
    assert headers[..|headers|] == headers;
    return Success(result);
  }

  /** The headers of a decoded map are exactly its keys. */
  lemma {:induction false} DecodedKeys<K>(headers: seq<K>, order: Order, scale: Scale, data: seq<byte>)
    requires |data| >= Offset(order, |headers|)
    ensures forall k :: k in Decoded(headers, order, scale, data) <==> k in headers
    decreases |headers|
  {
    if headers != [] {
      var n := |headers| - 1;
      DecodedKeys(headers[..n], order, scale, data);
      assert headers == headers[..n] + [headers[n]];
    }
  }

  /** With distinct headers, the j-th header holds the reading of the j-th group. */
  lemma {:induction false} DecodedAt<K>(headers: seq<K>, order: Order, scale: Scale, data: seq<byte>, j: nat)
    requires |data| >= Offset(order, |headers|)
    requires j < |headers|
    requires forall a, b | 0 <= a < b < |headers| :: headers[a] != headers[b]
    ensures Offset(order, j + 1) <= |data|
    ensures headers[j] in Decoded(headers, order, scale, data)
    ensures Decoded(headers, order, scale, data)[headers[j]]
            == Value(order, scale, data[Offset(order, j)..])
    decreases |headers|
  {
    var n := |headers| - 1;
    if j < n {
      DecodedAt(headers[..n], order, scale, data, j);
      assert headers[n] != headers[j];
    }
  }

  // ---------------------------------------------------------------------
  // read_vap and read_freq (mercury/mercury236.py:10-45, 110-112)
  // ---------------------------------------------------------------------

  /** The keys of the dictionary read_vap returns, with 'freq' that the
      command-line program adds to it. */
  datatype InfoKey = Voltage(phase: nat) | PowerSum | Power(phase: nat) | Current(phase: nat) | Frequency

  /** The key as the source spells it. */
  function InfoName(k: InfoKey): string
  {
    match k
    case Voltage(f) => "V_F" + DecimalString(f)
    case PowerSum => "Psum"
    case Power(f) => "P_F" + DecimalString(f)
    case Current(f) => "A_F" + DecimalString(f)
    case Frequency => "freq"
  }

  /** Different keys are different strings, so the dictionary keyed by names
      holds exactly what the map keyed by InfoKey holds. */
  lemma InfoNameInjective(j: InfoKey, k: InfoKey)
    ensures InfoName(j) == InfoName(k) <==> j == k
  {
    if InfoName(j) == InfoName(k) {
      var s := InfoName(j);
      if !j.PowerSum? && !j.Frequency? {
        assert s[3..] == DecimalString(j.phase);
      }
      if !k.PowerSum? && !k.Frequency? {
        assert s[3..] == DecimalString(k.phase);
      }
      if (!j.PowerSum? && !j.Frequency?) && (!k.PowerSum? && !k.Frequency?) {
        DecimalStringInjective(j.phase, k.phase);
      }
    }
  }

  const VoltageHeaders: seq<InfoKey> := [Voltage(1), Voltage(2), Voltage(3)]
  const PowerHeaders: seq<InfoKey> := [PowerSum, Power(1), Power(2), Power(3)]
  const CurrentHeaders: seq<InfoKey> := [Current(1), Current(2), Current(3)]

  /** The header lists spell the names the source writes. */
  lemma HeaderNames()
    ensures InfoName(Voltage(1)) == "V_F1" && InfoName(Voltage(2)) == "V_F2" && InfoName(Voltage(3)) == "V_F3"
    ensures InfoName(PowerSum) == "Psum" && InfoName(Power(1)) == "P_F1"
    ensures InfoName(Power(2)) == "P_F2" && InfoName(Power(3)) == "P_F3"
    ensures InfoName(Current(1)) == "A_F1" && InfoName(Current(2)) == "A_F2" && InfoName(Current(3)) == "A_F3"
  {
  }

  /** What read_vap returns for the payloads of its three requests: three
      voltages (/100), four powers (/100) and three currents (/1000), the
      groups three bytes wide. A payload too short for its headers raises
      IndexError, and later requests are then never made. */
  function VapReport(voltages: seq<byte>, powers: seq<byte>, currents: seq<byte>): (r: Result<map<InfoKey, real>>)
    ensures r.Success? <==> |voltages| >= 9 && |powers| >= 12 && |currents| >= 9
    ensures r.Failure? ==> r.error == IndexOutOfRange
  {
    if |voltages| >= 9 && |powers| >= 12 && |currents| >= 9 then
      Success(Decoded(VoltageHeaders, Swapped3, Hundredths, voltages)
              + Decoded(PowerHeaders, Low2, Hundredths, powers)
              + Decoded(CurrentHeaders, Swapped3, Thousandths, currents))
    else Failure(IndexOutOfRange)
  }

  /** read_vap on the payloads of its three requests, in the order they are
      made: the three loops fill one dictionary. */
  method ReadVap(voltages: seq<byte>, powers: seq<byte>, currents: seq<byte>) returns (r: Result<map<InfoKey, real>>)
    ensures r == VapReport(voltages, powers, currents)
  {
    var v := ReadGroups(VoltageHeaders, Swapped3, Hundredths, voltages, map[]);
    if v.Failure? {
      return Failure(v.error);
    }
    assert v.value == Decoded(VoltageHeaders, Swapped3, Hundredths, voltages);
    var p := ReadGroups(PowerHeaders, Low2, Hundredths, powers, v.value);
    if p.Failure? {
      return Failure(p.error);
    }
    r := ReadGroups(CurrentHeaders, Swapped3, Thousandths, currents, p.value);
  }

  /** The report has exactly the ten keys of the three header lists. */
  lemma VapReportKeys(voltages: seq<byte>, powers: seq<byte>, currents: seq<byte>)
    requires VapReport(voltages, powers, currents).Success?
    ensures VapReport(voltages, powers, currents).value.Keys
            == {Voltage(1), Voltage(2), Voltage(3), PowerSum, Power(1), Power(2), Power(3),
                Current(1), Current(2), Current(3)}
  {
    DecodedKeys(VoltageHeaders, Swapped3, Hundredths, voltages);
    DecodedKeys(PowerHeaders, Low2, Hundredths, powers);
    DecodedKeys(CurrentHeaders, Swapped3, Thousandths, currents);
  }

  /** Voltage of phase f: bytes 3(f-1) .. 3(f-1)+2 of the first payload, the
      first of them most significant and the last two swapped, in hundredths. */
  lemma VapVoltage(voltages: seq<byte>, powers: seq<byte>, currents: seq<byte>, f: nat)
    requires VapReport(voltages, powers, currents).Success?
    requires 1 <= f <= 3
    ensures Voltage(f) in VapReport(voltages, powers, currents).value
    ensures var i := 3 * (f - 1);
            VapReport(voltages, powers, currents).value[Voltage(f)]
            == (65536 * (voltages[i] as int) + 256 * (voltages[i + 2] as int) + voltages[i + 1] as int) as real / 100.0
  {
    var m1 := Decoded(VoltageHeaders, Swapped3, Hundredths, voltages);
    var m2 := Decoded(PowerHeaders, Low2, Hundredths, powers);
    var m3 := Decoded(CurrentHeaders, Swapped3, Thousandths, currents);
    assert VapReport(voltages, powers, currents).value == m1 + m2 + m3;
    DecodedAt(VoltageHeaders, Swapped3, Hundredths, voltages, f - 1);
    DecodedKeys(PowerHeaders, Low2, Hundredths, powers);
    DecodedKeys(CurrentHeaders, Swapped3, Thousandths, currents);
    assert Voltage(f) !in m2 && Voltage(f) !in m3;
    assert (m1 + m2 + m3)[Voltage(f)] == m1[Voltage(f)];
    ReadingAt(Swapped3, voltages, 3 * (f - 1));
  }

  /** Power: Psum is group 0 and phase f is group f of the second payload;
      only the last two bytes of a group count, swapped, in hundredths. */
  lemma VapPower(voltages: seq<byte>, powers: seq<byte>, currents: seq<byte>, j: nat)
    requires VapReport(voltages, powers, currents).Success?
    requires j <= 3
    ensures PowerHeaders[j] in VapReport(voltages, powers, currents).value
    ensures var i := 3 * j;
            VapReport(voltages, powers, currents).value[PowerHeaders[j]]
            == (256 * (powers[i + 2] as int) + powers[i + 1] as int) as real / 100.0
  {
    DecodedAt(PowerHeaders, Low2, Hundredths, powers, j);
    ReadingAt(Low2, powers, 3 * j);
    DecodedKeys(CurrentHeaders, Swapped3, Thousandths, currents);
  }

  /** Current of phase f: as a voltage, from the third payload, in thousandths. */
  lemma VapCurrent(voltages: seq<byte>, powers: seq<byte>, currents: seq<byte>, f: nat)
    requires VapReport(voltages, powers, currents).Success?
    requires 1 <= f <= 3
    ensures Current(f) in VapReport(voltages, powers, currents).value
    ensures var i := 3 * (f - 1);
            VapReport(voltages, powers, currents).value[Current(f)]
            == (65536 * (currents[i] as int) + 256 * (currents[i + 2] as int) + currents[i + 1] as int) as real / 1000.0
  {
    DecodedAt(CurrentHeaders, Swapped3, Thousandths, currents, f - 1);
    ReadingAt(Swapped3, currents, 3 * (f - 1));
  }

  /** The reading of the group starting at byte i, in terms of the payload's own bytes. */
  lemma ReadingAt(order: Order, data: seq<byte>, i: nat)
    requires i + Width(order) <= |data|
    ensures Reading(order, data[i..]) == match order
              case Swapped3 => 65536 * (data[i] as int) + 256 * (data[i + 2] as int) + data[i + 1] as int
              case Low2 => 256 * (data[i + 2] as int) + data[i + 1] as int
              case Swapped4 => 16777216 * (data[i + 1] as int) + 65536 * (data[i] as int)
                               + 256 * (data[i + 3] as int) + data[i + 2] as int
  {
    var g := data[i..];
    assert g[0] == data[i] && g[1] == data[i + 1] && g[2] == data[i + 2];
    if order == Swapped4 {
      assert g[3] == data[i + 3];
    }
  }

  /** read_freq: the first group of the payload, as a voltage, in hundredths. */
  function ReadFreq(data: seq<byte>): (r: Result<real>)
    ensures r.Success? <==> |data| >= 3
    ensures r.Success? ==> r.value == (65536 * (data[0] as int) + 256 * (data[2] as int) + data[1] as int) as real / 100.0
    ensures r.Failure? ==> r.error == IndexOutOfRange
  {
    if |data| < 3 then Failure(IndexOutOfRange) else Success(Value(Swapped3, Hundredths, data))
  }

  // ---------------------------------------------------------------------
  // read_energy and its four callers (mercury/mercury236.py:57-105)
  // ---------------------------------------------------------------------

  /** The energy headers: A+, A-, R+, R- by default, A+_F1..A+_F3 for the
      per-phase array 0x60. */
  datatype EnergyHeader = APlus | AMinus | RPlus | RMinus | APlusF1 | APlusF2 | APlusF3

  /** The suffix: "sum" for tarif 0, otherwise "_T" and the tariff number. */
  datatype Suffix = Sum | Tariff(t: nat)

  /** A key of the dictionary read_energy returns: header + suffix. */
  datatype EnergyKey = EnergyKey(header: EnergyHeader, suffix: Suffix)

  function HeaderName(h: EnergyHeader): string
  {
    match h
    case APlus => "A+"
    case AMinus => "A-"
    case RPlus => "R+"
    case RMinus => "R-"
    case APlusF1 => "A+_F1"
    case APlusF2 => "A+_F2"
    case APlusF3 => "A+_F3"
  }

  function SuffixName(x: Suffix): string
  {
    match x
    case Sum => "sum"
    case Tariff(t) => "_T" + DecimalString(t)
  }

  /** The key as the source spells it: r + suffix. */
  function EnergyName(k: EnergyKey): string
  {
    HeaderName(k.header) + SuffixName(k.suffix)
  }

  /** Different keys are different strings. */
  lemma EnergyNameInjective(j: EnergyKey, k: EnergyKey)
    ensures EnergyName(j) == EnergyName(k) <==> j == k
  {
    if EnergyName(j) == EnergyName(k) {
      var s := EnergyName(j);
      var hj, hk := HeaderName(j.header), HeaderName(k.header);
      var xj, xk := SuffixName(j.suffix), SuffixName(k.suffix);
      assert s[..|hj|] == hj && s[|hj|..] == xj;
      assert s[..|hk|] == hk && s[|hk|..] == xk;
      assert xj[0] == 's' || (xj[0] == '_' && xj[1] == 'T');
      assert xk[0] == 's' || (xk[0] == '_' && xk[1] == 'T');
      assert hj == hk;
      assert xj == xk;
      if j.suffix.Tariff? && k.suffix.Tariff? {
        assert xj[2..] == DecimalString(j.suffix.t);
        assert xk[2..] == DecimalString(k.suffix.t);
        DecimalStringInjective(j.suffix.t, k.suffix.t);
      }
    }
  }

  /** suffix = "sum" if tarif == 0 else '_T' + str(tarif). */
  function SuffixOf(tarif: byte): Suffix
  {
    if tarif == 0 then Sum else Tariff(tarif)
  }

  /** The keys read_energy fills, in the order of its headers. */
  function EnergyKeys(param: byte, tarif: byte): (keys: seq<EnergyKey>)
    ensures |keys| == if param == 0x60 then 3 else 4
  {
    var x := SuffixOf(tarif);
    if param == 0x60 then [EnergyKey(APlusF1, x), EnergyKey(APlusF2, x), EnergyKey(APlusF3, x)]
    else [EnergyKey(APlus, x), EnergyKey(AMinus, x), EnergyKey(RPlus, x), EnergyKey(RMinus, x)]
  }

  /** What read_energy returns for the payload of its request: each header
      gets the next four-byte group read as [b1, b0, b3, b2] in thousandths,
      and then the A- value, when there is one, is replaced by 0. */
  function EnergyReport(param: byte, tarif: byte, data: seq<byte>): (r: Result<map<EnergyKey, real>>)
    ensures r.Success? <==> |data| >= if param == 0x60 then 12 else 16
    ensures r.Failure? ==> r.error == IndexOutOfRange
  {
    var keys := EnergyKeys(param, tarif);
    if |data| >= Offset(Swapped4, |keys|) then
      var m := Decoded(keys, Swapped4, Thousandths, data);
      var minus := EnergyKey(AMinus, SuffixOf(tarif));
      Success(if minus in m then m[minus := 0.0] else m)
    else Failure(IndexOutOfRange)
  }

  /** read_energy (mercury/mercury236.py:57-77) on the payload of its request. */
  method ReadEnergy(param: byte, tarif: byte, data: seq<byte>) returns (r: Result<map<EnergyKey, real>>)
    ensures r == EnergyReport(param, tarif, data)
  {
    var keys := EnergyKeys(param, tarif);
    var groups := ReadGroups(keys, Swapped4, Thousandths, data, map[]);
    if groups.Failure? {
      return Failure(groups.error);
    }
    var result := groups.value;
    assert result == Decoded(keys, Swapped4, Thousandths, data);
    var minus := EnergyKey(AMinus, SuffixOf(tarif));
    if minus in result {
      result := result[minus := 0.0];
    }
    return Success(result);
  }

  /** The report holds exactly the headers with the tariff's suffix. */
  lemma EnergyReportKeys(param: byte, tarif: byte, data: seq<byte>)
    requires EnergyReport(param, tarif, data).Success?
    ensures forall k :: k in EnergyReport(param, tarif, data).value <==> k in EnergyKeys(param, tarif)
  {
    DecodedKeys(EnergyKeys(param, tarif), Swapped4, Thousandths, data);
  }

  /** Every value but A-: group j of the payload, bytes [b1, b0, b3, b2], in
      thousandths. */
  lemma EnergyReportValue(param: byte, tarif: byte, data: seq<byte>, j: nat)
    requires EnergyReport(param, tarif, data).Success?
    requires j < |EnergyKeys(param, tarif)| && EnergyKeys(param, tarif)[j].header != AMinus
    ensures EnergyKeys(param, tarif)[j] in EnergyReport(param, tarif, data).value
    ensures var i := 4 * j;
            EnergyReport(param, tarif, data).value[EnergyKeys(param, tarif)[j]]
            == (16777216 * (data[i + 1] as int) + 65536 * (data[i] as int)
                + 256 * (data[i + 3] as int) + data[i + 2] as int) as real / 1000.0
  {
    EnergyReportGroup(param, tarif, data, j);
    ReadingAt(Swapped4, data, 4 * j);
  }

  /** Every value but A- is the reading of its own group. */
  lemma EnergyReportGroup(param: byte, tarif: byte, data: seq<byte>, j: nat)
    requires EnergyReport(param, tarif, data).Success?
    requires j < |EnergyKeys(param, tarif)| && EnergyKeys(param, tarif)[j].header != AMinus
    ensures 4 * j + 4 <= |data|
    ensures EnergyKeys(param, tarif)[j] in EnergyReport(param, tarif, data).value
    ensures EnergyReport(param, tarif, data).value[EnergyKeys(param, tarif)[j]]
            == Value(Swapped4, Thousandths, data[4 * j..])
  {
    var keys := EnergyKeys(param, tarif);
    EnergyKeysDistinct(param, tarif);
    DecodedAt(keys, Swapped4, Thousandths, data, j);
    var m := Decoded(keys, Swapped4, Thousandths, data);
    var minus := EnergyKey(AMinus, SuffixOf(tarif));
    assert EnergyReport(param, tarif, data).value == if minus in m then m[minus := 0.0] else m;
    assert keys[j] != minus;
  }

  /** The headers of an energy request are distinct. */
  lemma EnergyKeysDistinct(param: byte, tarif: byte)
    ensures var keys := EnergyKeys(param, tarif);
            forall a, b | 0 <= a < b < |keys| :: keys[a] != keys[b]
  {
  }

  /** A- is always reported as 0, whatever the meter sent; the per-phase array
      has no A- at all. */
  lemma EnergyReportAMinus(param: byte, tarif: byte, data: seq<byte>)
    requires EnergyReport(param, tarif, data).Success?
    ensures var minus := EnergyKey(AMinus, SuffixOf(tarif));
            if param == 0x60 then minus !in EnergyReport(param, tarif, data).value
            else minus in EnergyReport(param, tarif, data).value
                 && EnergyReport(param, tarif, data).value[minus] == 0.0
  {
    DecodedKeys(EnergyKeys(param, tarif), Swapped4, Thousandths, data);
  }

  /** read_energy_sum_act_react (mercury/mercury236.py:80-82): read_energy of
      array 0x00, tarif 0; its own param argument is ignored. */
  method ReadEnergySumActReact(param: int, data: seq<byte>) returns (r: Result<map<EnergyKey, real>>)
    ensures r == EnergyReport(0x00, 0, data)
  {
    r := ReadEnergy(0x00, 0, data);
  }

  /** read_energy_sum_by_phases (mercury/mercury236.py:94-96): read_energy of
      array 0x60, tarif 0; its own param and tarif arguments are ignored. */
  method ReadEnergySumByPhases(param: int, tarif: int, data: seq<byte>) returns (r: Result<map<EnergyKey, real>>)
    ensures r == EnergyReport(0x60, 0, data)
  {
    r := ReadEnergy(0x60, 0, data);
  }

  /** The dictionary {**result, **r} builds after the first n tariffs, from the
      payloads of the requests for tariffs 1..n. */
  function Merged(param: byte, payloads: seq<seq<byte>>, n: nat): (r: Result<map<EnergyKey, real>>)
    requires n <= |payloads| && n <= 255
    ensures r.Failure? ==> r.error == IndexOutOfRange
  {
    if n == 0 then Success(map[])
    else
      match Merged(param, payloads, n - 1)
      case Failure(e) => Failure(e)
      case Success(m) =>
        match EnergyReport(param, n, payloads[n - 1])
        case Failure(e) => Failure(e)
        case Success(x) => Success(m + x)
  }

  /** The loop of read_energy_tarif_act_react and read_energy_tarif_by_phases
      (mercury/mercury236.py:86-91, 100-105): tariffs 1 to 4, one request
      each, merged into one dictionary. */
  method MergeTariffs(param: byte, payloads: seq<seq<byte>>) returns (r: Result<map<EnergyKey, real>>)
    requires |payloads| == 4
    ensures r == Merged(param, payloads, 4)
  {
    var result: map<EnergyKey, real> := map[];
    for i := 1 to 5
      invariant Merged(param, payloads, i - 1) == Success(result)
    {
      var e := ReadEnergy(param, i, payloads[i - 1]);
      if e.Failure? {
        MergedSucceeds(param, payloads, 4);
        return Failure(e.error);
      }
      result := result + e.value;
    }
    return Success(result);
  }

  /** read_energy_tarif_act_react: array 0x00 for tariffs 1..4; param is ignored. */
  method ReadEnergyTarifActReact(param: int, payloads: seq<seq<byte>>) returns (r: Result<map<EnergyKey, real>>)
    requires |payloads| == 4
    ensures r == Merged(0x00, payloads, 4)
  {
    r := MergeTariffs(0x00, payloads);
  }

  /** read_energy_tarif_by_phases: array 0x60 for tariffs 1..4; param and tarif
      are ignored. */
  method ReadEnergyTarifByPhases(param: int, tarif: int, payloads: seq<seq<byte>>) returns (r: Result<map<EnergyKey, real>>)
    requires |payloads| == 4
    ensures r == Merged(0x60, payloads, 4)
  {
    r := MergeTariffs(0x60, payloads);
  }

  /** Whether a header belongs to the array param selects. */
  predicate InArray(param: byte, h: EnergyHeader)
  {
    if param == 0x60 then h == APlusF1 || h == APlusF2 || h == APlusF3
    else h == APlus || h == AMinus || h == RPlus || h == RMinus
  }

  /** The keys of one request: the array's headers with the tariff's suffix. */
  lemma EnergyKeysMembers(param: byte, tarif: byte, k: EnergyKey)
    ensures k in EnergyKeys(param, tarif) <==> InArray(param, k.header) && k.suffix == SuffixOf(tarif)
  {
  }

  /** The merge succeeds exactly when every payload is long enough. */
  lemma {:induction false} MergedSucceeds(param: byte, payloads: seq<seq<byte>>, n: nat)
    requires n <= |payloads| && n <= 255
    ensures Merged(param, payloads, n).Success?
            <==> forall i | 0 <= i < n :: |payloads[i]| >= if param == 0x60 then 12 else 16
    ensures Merged(param, payloads, n).Failure? ==> Merged(param, payloads, n).error == IndexOutOfRange
  {
    if n > 0 {
      MergedSucceeds(param, payloads, n - 1);
    }
  }

  /** The keys of the merge are those of tariffs 1..n, each with the array's headers. */
  lemma {:induction false} MergedKeys(param: byte, payloads: seq<seq<byte>>, n: nat, k: EnergyKey)
    requires n <= |payloads| && n <= 255
    requires Merged(param, payloads, n).Success?
    ensures k in Merged(param, payloads, n).value
            <==> k.suffix.Tariff? && 1 <= k.suffix.t <= n && InArray(param, k.header)
  {
    if n > 0 {
      MergedKeys(param, payloads, n - 1, k);
      EnergyReportKeys(param, n, payloads[n - 1]);
      EnergyKeysMembers(param, n, k);
    }
  }

  /** No tariff overwrites another: each value in the merge is the one its own
      tariff's request reported. */
  lemma {:induction false} MergedValue(param: byte, payloads: seq<seq<byte>>, n: nat, k: EnergyKey)
    requires n <= |payloads| && n <= 255
    requires Merged(param, payloads, n).Success?
    requires k.suffix.Tariff? && 1 <= k.suffix.t <= n && InArray(param, k.header)
    ensures EnergyReport(param, k.suffix.t, payloads[k.suffix.t - 1]).Success?
    ensures k in EnergyReport(param, k.suffix.t, payloads[k.suffix.t - 1]).value
    ensures k in Merged(param, payloads, n).value
    ensures Merged(param, payloads, n).value[k] == EnergyReport(param, k.suffix.t, payloads[k.suffix.t - 1]).value[k]
  {
    var t := k.suffix.t;
    MergedKeys(param, payloads, n, k);
    EnergyReportKeys(param, n, payloads[n - 1]);
    EnergyKeysMembers(param, n, k);
    if t < n {
      MergedValue(param, payloads, n - 1, k);
    }
  }

  /** The keys one tariff's request of an array reports. */
  function TariffRow(param: byte, t: nat): set<EnergyKey>
  {
    if param == 0x60 then {EnergyKey(APlusF1, Tariff(t)), EnergyKey(APlusF2, Tariff(t)), EnergyKey(APlusF3, Tariff(t))}
    else {EnergyKey(APlus, Tariff(t)), EnergyKey(AMinus, Tariff(t)), EnergyKey(RPlus, Tariff(t)), EnergyKey(RMinus, Tariff(t))}
  }

  /** The keys of tariffs 1..n of an array. */
  function RowsUpTo(param: byte, n: nat): set<EnergyKey>
  {
    if n == 0 then {} else RowsUpTo(param, n - 1) + TariffRow(param, n)
  }

  /** How many headers an array has. */
  function RowWidth(param: byte): nat
  {
    if param == 0x60 then 3 else 4
  }

  /** A row has one key per header. */
  lemma TariffRowSize(param: byte, t: nat)
    ensures |TariffRow(param, t)| == RowWidth(param)
  {
    var x := Tariff(t);
    if param == 0x60 {
      assert EnergyKey(APlusF3, x) !in {EnergyKey(APlusF1, x), EnergyKey(APlusF2, x)};
    } else {
      assert EnergyKey(RMinus, x) !in {EnergyKey(APlus, x), EnergyKey(AMinus, x), EnergyKey(RPlus, x)};
      assert EnergyKey(RPlus, x) !in {EnergyKey(APlus, x), EnergyKey(AMinus, x)};
    }
  }

  lemma {:induction false} RowsUpToMembers(param: byte, n: nat, k: EnergyKey)
    ensures k in RowsUpTo(param, n) <==> k.suffix.Tariff? && 1 <= k.suffix.t <= n && InArray(param, k.header)
  {
    if n > 0 {
      RowsUpToMembers(param, n - 1, k);
    }
  }

  /** Rows of different tariffs never share a key, so n rows hold n times as
      many keys as one. */
  lemma {:induction false} RowsUpToSize(param: byte, n: nat)
    ensures |RowsUpTo(param, n)| == n * RowWidth(param)
  {
    if n > 0 {
      RowsUpToSize(param, n - 1);
      TariffRowSize(param, n);
      RowDisjoint(param, n - 1);
      var before, row := RowsUpTo(param, n - 1), TariffRow(param, n);
      assert before * row == {};
      assert RowsUpTo(param, n) == before + row;
      assert |before + row| == |before| + |row|;
      assert n * RowWidth(param) == (n - 1) * RowWidth(param) + RowWidth(param);
    }
  }

  /** Tariff m + 1 shares no key with the tariffs before it. */
  lemma RowDisjoint(param: byte, m: nat)
    ensures forall k | k in TariffRow(param, m + 1) :: k !in RowsUpTo(param, m)
  {
    forall k | k in TariffRow(param, m + 1) ensures k !in RowsUpTo(param, m) {
      TariffRowMembers(param, m + 1, k);
      RowsUpToMembers(param, m, k);
    }
  }

  /** The keys of a row: the array's headers with that tariff's suffix. */
  lemma TariffRowMembers(param: byte, t: nat, k: EnergyKey)
    ensures k in TariffRow(param, t) <==> k.suffix == Tariff(t) && InArray(param, k.header)
  {
  }

  /** The tariff merges report, for each of tariffs 1..4, every header of the
      array: sixteen values for the default array and twelve for the
      per-phase one, as no merge overwrites a key. */
  lemma MergedKeySet(param: byte, payloads: seq<seq<byte>>)
    requires |payloads| == 4 && Merged(param, payloads, 4).Success?
    ensures Merged(param, payloads, 4).value.Keys == RowsUpTo(param, 4)
    ensures |Merged(param, payloads, 4).value| == if param == 0x60 then 12 else 16
  {
    forall k ensures k in Merged(param, payloads, 4).value <==> k in RowsUpTo(param, 4) {
      MergedKeys(param, payloads, 4, k);
      RowsUpToMembers(param, 4, k);
    }
    RowsUpToSize(param, 4);
  }
}
