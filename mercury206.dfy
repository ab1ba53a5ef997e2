/** The Mercury 206 driver (mercury/mercury206.py): requests carry the meter's
    32-bit serial number as a four-byte address, then a command byte and its
    parameters, then the Modbus CRC; answers echo the address, and the readings
    inside them are packed decimal (BCD) digits, decoded with digitize in base 10. */
module Mercury206 {
  import opened Utils
  import Crc

  // ---------------------------------------------------------------------
  // Request frames: pack_msg
  // ---------------------------------------------------------------------

  /** k zero bytes, b'\x00' * k. */
  function Zeros(k: nat): (z: seq<byte>)
    ensures |z| == k && forall i | 0 <= i < k :: z[i] == 0
  {
    seq(k, _ => 0)
  }

  /** The address field of a request (mercury/mercury206.py:100-108): an int is
      packed as '!I', so it must lie in 0 .. 2^32 - 1 and gives its big-endian
      bytes; a bytes address of at most four bytes is left-padded with zeros;
      anything else is a TypeError. */
  function AddressField(address: Address): (r: Result<seq<byte>>)
    ensures r.Success? ==> |r.value| == 4
    ensures address.IntAddress? ==> (r.Success? <==> 0 <= address.n < 0x1_0000_0000)
    ensures address.IntAddress? && r.Success? ==> BigEndian(r.value) == address.n
    ensures address.BytesAddress? ==> (r.Success? <==> |address.b| <= 4)
    ensures address.BytesAddress? && r.Success? ==> r.value[4 - |address.b|..] == address.b
    ensures address.BytesAddress? && r.Success? ==> forall i | 0 <= i < 4 - |address.b| :: r.value[i] == 0
    ensures r.Failure? ==> r.error == match address
                                       case IntAddress(_) => AddressRange
                                       case BytesAddress(_) => AddressTooLong
                                       case OtherAddress => AddressType
  {
    match address
    case IntAddress(n) =>
      if 0 <= n < 0x1_0000_0000 then
        assert Pow256(4) == 0x1_0000_0000;
        Success(ToBigEndian(n, 4))
      else Failure(AddressRange)
    case BytesAddress(b) =>
      if |b| > 4 then Failure(AddressTooLong) else Success(Zeros(4 - |b|) + b)
    case OtherAddress => Failure(AddressType)
  }

  /** pack_msg (mercury/mercury206.py:76-115): the address field, the argument
      bytes and, when crc is set, the two CRC bytes of everything before them.
      The address is checked before the arguments. */
  function PackMsg(address: Address, args: seq<int>, crc: bool): (r: Result<seq<byte>>)
    ensures r.Success? <==> AddressField(address).Success? && ToBytes(args).Success?
    ensures r.Failure? ==> r.error == if AddressField(address).Failure? then AddressField(address).error else ByteRange
    ensures r.Success? ==> |r.value| == 4 + |args| + (if crc then 2 else 0)
    ensures r.Success? ==> r.value[..4] == AddressField(address).value && r.value[4..4 + |args|] == args
    ensures r.Success? && crc ==> r.value[4 + |args|..] == Crc.Crc16(r.value[..4 + |args|])
  {
    match AddressField(address)
    case Failure(e) => Failure(e)
    case Success(a) =>
      match ToBytes(args)
      case Failure(e) => Failure(e)
      case Success(params) =>
        var msg := a + params;
        Success(if crc then msg + Crc.Crc16(msg) else msg)
  }

  /** Zero bytes in front do not change a big-endian value. */
  lemma {:induction false} BigEndianZeros(k: nat, b: seq<byte>)
    ensures BigEndian(Zeros(k) + b) == BigEndian(b)
    decreases |b|, k
  {
    if b == [] {
      if k > 0 {
        BigEndianZeros(k - 1, []);
        assert Zeros(k) + [] == Zeros(k - 1) + [0];
        BigEndianSnoc(Zeros(k - 1), 0);
        assert Zeros(k - 1) + [] == Zeros(k - 1);
      }
      assert Zeros(k) + b == Zeros(k);
    } else {
      var init := b[..|b| - 1];
      BigEndianZeros(k, init);
      assert Zeros(k) + b == (Zeros(k) + init) + [b[|b| - 1]];
      BigEndianSnoc(Zeros(k) + init, b[|b| - 1]);
      assert b == init + [b[|b| - 1]];
      BigEndianSnoc(init, b[|b| - 1]);
    }
  }

  /** A bytes address is the integer address it spells in big-endian order:
      padding b'123' to 00 31 32 33 sends the same frame as the int 0x313233. */
  lemma PackBytesAddressIsIntAddress(b: seq<byte>, args: seq<int>, crc: bool)
    requires |b| <= 4
    ensures BigEndian(b) < 0x1_0000_0000
    ensures PackMsg(BytesAddress(b), args, crc) == PackMsg(IntAddress(BigEndian(b)), args, crc)
  {
    AddressFieldOfBytes(b);
  }

  /** The padded bytes are the four-byte big-endian form of the value they spell. */
  lemma AddressFieldOfBytes(b: seq<byte>)
    requires |b| <= 4
    ensures BigEndian(b) < 0x1_0000_0000
    ensures AddressField(BytesAddress(b)) == AddressField(IntAddress(BigEndian(b)))
  {
    var padded := Zeros(4 - |b|) + b;
    BigEndianZeros(4 - |b|, b);
    AddressFieldOfField(padded);
    calc {
      AddressField(IntAddress(BigEndian(b)));
      AddressField(IntAddress(BigEndian(padded)));
      Success(padded);
      AddressField(BytesAddress(b));
    }
  }

  /** Four bytes are the address field of the integer they spell. */
  lemma AddressFieldOfField(field: seq<byte>)
    requires |field| == 4
    ensures BigEndian(field) < 0x1_0000_0000
    ensures AddressField(IntAddress(BigEndian(field))) == Success(field)
  {
    ToBigEndianOfBigEndian(field);
    assert Pow256(4) == 0x1_0000_0000;
  }

  /** A frame with its CRC passes the receiver's check: the register ends at zero. */
  lemma PackedFrameChecks(address: Address, args: seq<int>)
    requires PackMsg(address, args, true).Success?
    ensures Crc.Register(PackMsg(address, args, true).value) == 0
  {
    var frame := PackMsg(address, args, true).value;
    var body := frame[..4 + |args|];
    assert frame == body + Crc.Crc16(body);
    Crc.CrcResidue(body);
  }

  /** The examples in the documentation of pack_msg (mercury/mercury206.py:83-98),
      one lemma each. */
  lemma PackMsgExample28()
    ensures PackMsg(IntAddress(10925856), [0x28], true) == Success([0x00, 0xA6, 0xB7, 0x20, 0x28, 0xAF, 0x70])
    ensures PackMsg(IntAddress(10925856), [0x28], false) == Success([0x00, 0xA6, 0xB7, 0x20, 0x28])
  {
    AddressExample();
    Crc.CrcExample28();
    assert [0x00, 0xA6, 0xB7, 0x20] + [0x28] == [0x00, 0xA6, 0xB7, 0x20, 0x28];
    assert [0x00, 0xA6, 0xB7, 0x20, 0x28] + [0xAF, 0x70] == [0x00, 0xA6, 0xB7, 0x20, 0x28, 0xAF, 0x70];
  }

  lemma PackMsgExample2B()
    ensures PackMsg(IntAddress(10925856), [0x2B], true) == Success([0x00, 0xA6, 0xB7, 0x20, 0x2B, 0xEF, 0x71])
  {
    AddressExample();
    Crc.CrcExample2B();
    assert [0x00, 0xA6, 0xB7, 0x20] + [0x2B] == [0x00, 0xA6, 0xB7, 0x20, 0x2B];
    assert [0x00, 0xA6, 0xB7, 0x20, 0x2B] + [0xEF, 0x71] == [0x00, 0xA6, 0xB7, 0x20, 0x2B, 0xEF, 0x71];
  }

  lemma PackMsgExampleBytes()
    ensures PackMsg(BytesAddress([0x31, 0x32, 0x33]), [], true) == Success([0x00, 0x31, 0x32, 0x33, 0x04, 0x9E])
  {
    var msg: seq<byte> := [0x00, 0x31, 0x32, 0x33];
    assert Zeros(1) + [0x31, 0x32, 0x33] == msg;
    Crc.CrcExampleBytes123();
    assert AddressField(BytesAddress([0x31, 0x32, 0x33])) == Success(msg);
    assert msg + [] == msg;
    assert msg + [0x04, 0x9E] == [0x00, 0x31, 0x32, 0x33, 0x04, 0x9E];
  }

  lemma PackMsgExampleErrors()
    ensures PackMsg(OtherAddress, [], true) == Failure(AddressType)
    ensures PackMsg(BytesAddress([0x31, 0x32, 0x33, 0x34, 0x35]), [], true) == Failure(AddressTooLong)
  {
  }

  /** The address 10925856 packs to 00 A6 B7 20. */
  lemma AddressExample()
    ensures AddressField(IntAddress(10925856)) == Success([0x00, 0xA6, 0xB7, 0x20])
  {
    var a: seq<byte> := [0x00, 0xA6, 0xB7, 0x20];
    BigEndianSnoc([], 0x00);
    BigEndianSnoc([0x00], 0xA6);
    BigEndianSnoc([0x00, 0xA6], 0xB7);
    BigEndianSnoc([0x00, 0xA6, 0xB7], 0x20);
    assert [] + [0x00] == [0x00];
    assert [0x00] + [0xA6] == [0x00, 0xA6];
    assert [0x00, 0xA6] + [0xB7] == [0x00, 0xA6, 0xB7];
    assert [0x00, 0xA6, 0xB7] + [0x20] == a;
    ToBigEndianOfBigEndian(a);
    assert Pow256(4) == 0x1_0000_0000;
  }

  // ---------------------------------------------------------------------
  // Answers: unpack_msg and the gate in send_tcp_command
  // ---------------------------------------------------------------------

  /** unpack_msg (mercury/mercury206.py:118-131): the first four bytes are the
      address as '!I', the rest is the payload; fewer than four bytes is a
      struct.error. */
  function UnpackMsg(message: seq<byte>): (r: Result<(nat, seq<byte>)>)
    ensures r.Success? <==> |message| >= 4
    ensures r.Success? ==> r.value.0 < 0x1_0000_0000 && r.value.1 == message[4..]
    ensures r.Success? ==> message == ToBigEndian(r.value.0, 4) + r.value.1
    ensures r.Failure? ==> r.error == ShortMessage
  {
    if |message| < 4 then Failure(ShortMessage)
    else
      var address := message[..4];
      BigEndianBound(address);
      ToBigEndianOfBigEndian(address);
      assert Pow256(4) == 0x1_0000_0000;
      Success((BigEndian(address), message[4..]))
  }

  /** Unpacking a request packed without CRC gives back its address and arguments. */
  lemma UnpackPackedMsg(n: int, args: seq<byte>)
    requires 0 <= n < 0x1_0000_0000
    ensures PackMsg(IntAddress(n), args, false).Success?
    ensures UnpackMsg(PackMsg(IntAddress(n), args, false).value) == Success((n, args))
  {
    var m := PackMsg(IntAddress(n), args, false).value;
    assert m[..4] == AddressField(IntAddress(n)).value;
    assert m == m[..4] + m[4..];
  }

  /** Packing what unpack_msg returns rebuilds the message. */
  lemma PackUnpackedMsg(message: seq<byte>)
    requires |message| >= 4
    ensures UnpackMsg(message).Success?
    ensures PackMsg(IntAddress(UnpackMsg(message).value.0), UnpackMsg(message).value.1, false) == Success(message)
  {
    var (a, data) := UnpackMsg(message).value;
    var m := PackMsg(IntAddress(a), data, false).value;
    assert m[..4] == ToBigEndian(a, 4) by {
      ToBigEndianOfBigEndian(m[..4]);
    }
    assert m == m[..4] + m[4..];
  }

  /** The examples in the documentation of unpack_msg (mercury/mercury206.py:122-127). */
  lemma UnpackMsgExamples()
    ensures UnpackMsg([0x00, 0xA6, 0xB7, 0x20, 0x28]) == Success((10925856, [40]))
    ensures UnpackMsg([0x00, 0xA6, 0xB7, 0x20]) == Success((10925856, []))
    ensures UnpackMsg(EnergyAnswerExample()) == Success((10925856, EnergyPayloadExample()))
  {
    AddressExample();
    var a: seq<byte> := [0x00, 0xA6, 0xB7, 0x20];
    UnpackPackedMsg(10925856, [40]);
    UnpackPackedMsg(10925856, []);
    UnpackPackedMsg(10925856, EnergyPayloadExample());
    assert EnergyAnswerExample() == a + EnergyPayloadExample();
  }

  /** The read_energy answer in the documentation of unpack_msg
      (mercury/mercury206.py:124-125). */
  function EnergyAnswerExample(): seq<byte>
  {
    [0x00, 0xA6, 0xB7, 0x20] + EnergyPayloadExample()
  }

  function EnergyPayloadExample(): seq<byte>
  {
    [39, 0, 38, 86, 22, 0, 19, 112, 145, 0, 0, 0, 0, 0, 0, 0, 0, 71, 120]
  }

  /** The result of send_tcp_command once the request has gone out
      (mercury/mercury206.py:69-72): an answer of at most one byte gives None;
      otherwise it is unpacked (2 or 3 bytes raise struct.error), and the payload
      is returned only when the echoed address equals the requested one. A bytes
      address never equals the unpacked int, so it always gives None. */
  function Reply(address: Address, answer: seq<byte>): (r: Result<Option<seq<byte>>>)
    ensures r.Failure? <==> 2 <= |answer| < 4
    ensures r.Failure? ==> r.error == ShortMessage
    ensures (r.Success? && r.value.Some?) <==> |answer| >= 4 && address == IntAddress(BigEndian(answer[..4]))
    ensures r.Success? && r.value.Some? ==> r.value.value == answer[4..]
  {
    if |answer| <= 1 then Success(None)
    else
      match UnpackMsg(answer)
      case Failure(e) => Failure(e)
      case Success((received, data)) =>
        assert received == BigEndian(answer[..4]) by {
          ToBigEndianOfBigEndian(answer[..4]);
          assert answer[..4] == ToBigEndian(received, 4);
        }
        if IntAddress(received) == address then Success(Some(data)) else Success(None)
  }

  /** One request and its answer through send_tcp_command
      (mercury/mercury206.py:60-72): the packed request and the reply; a request
      that cannot be packed raises before anything is sent. */
  datatype Exchange = Exchange(request: seq<byte>, reply: Option<seq<byte>>)

  function SendCommand(address: Address, command: int, params: seq<int>, answer: seq<byte>): (r: Result<Exchange>)
    ensures r.Success? <==> PackMsg(address, [command] + params, true).Success? && Reply(address, answer).Success?
    ensures r.Success? ==> r.value.request == PackMsg(address, [command] + params, true).value
    ensures r.Success? ==> r.value.reply == Reply(address, answer).value
  {
    match PackMsg(address, [command] + params, true)
    case Failure(e) => Failure(e)
    case Success(request) =>
      match Reply(address, answer)
      case Failure(e) => Failure(e)
      case Success(reply) => Success(Exchange(request, reply))
  }

  /** A meter that answers with its own address and a payload has that payload
      returned; one that answers with another address is ignored. */
  lemma ReplyFromMeter(n: nat, echoed: nat, payload: seq<byte>)
    requires n < 0x1_0000_0000 && echoed < 0x1_0000_0000
    ensures Reply(IntAddress(n), ToBigEndian(echoed, 4) + payload)
            == Success(if echoed == n then Some(payload) else None)
  {
    var answer := ToBigEndian(echoed, 4) + payload;
    assert answer[..4] == ToBigEndian(echoed, 4);
    assert answer[4..] == payload;
  }

  // ---------------------------------------------------------------------
  // Readings (mercury/mercury206.py:10-39); data is the payload of a reply
  // ---------------------------------------------------------------------

  /** The command bytes of the three readings: read_vap 0x63, read_energy
      0x27, read_freq 0x81, each sent without parameters. */
  const VapCommand: int := 0x63
  const EnergyCommand: int := 0x27
  const FreqCommand: int := 0x81

  /** Voltage in volts, current in amperes, power as the meter reports it. */
  datatype Vap = Vap(voltage: real, current: real, power: nat)

  /** read_vap (mercury/mercury206.py:10-19): data[1:3] / 10, data[3:5] / 100
      and data[5:8], each decoded with digitize in base 10. It succeeds exactly
      when the three slices are non-empty packed decimal digits. */
  function ReadVap(data: seq<byte>): (r: Result<Vap>)
    ensures r.Success? <==> |data| >= 6 && IsBcd(data[1..3]) && IsBcd(data[3..5]) && IsBcd(PySlice(data, 5, 8))
    ensures r.Success? ==> r.value == Vap(BcdValue(data[1..3]) as real / 10.0,
                                          BcdValue(data[3..5]) as real / 100.0,
                                          BcdValue(PySlice(data, 5, 8)))
    ensures r.Failure? ==> r.error == InvalidLiteral
  {
    var v, a, p := Digitize(PySlice(data, 1, 3), 10), Digitize(PySlice(data, 3, 5), 10), Digitize(PySlice(data, 5, 8), 10);
    Digitize10IsBcd(PySlice(data, 1, 3));
    Digitize10IsBcd(PySlice(data, 3, 5));
    Digitize10IsBcd(PySlice(data, 5, 8));
    if v.Failure? then Failure(v.error)
    else if a.Failure? then Failure(a.error)
    else if p.Failure? then Failure(p.error)
    else Success(Vap(v.value as real / 10.0, a.value as real / 100.0, p.value))
  }

  /** read_freq (mercury/mercury206.py:35-39): data[1:3] in base 10, in hundredths of a hertz. */
  function ReadFreq(data: seq<byte>): (r: Result<real>)
    ensures r.Success? <==> |data| >= 2 && IsBcd(PySlice(data, 1, 3))
    ensures r.Success? ==> r.value == BcdValue(PySlice(data, 1, 3)) as real / 100.0
    ensures r.Failure? ==> r.error == InvalidLiteral
  {
    Digitize10IsBcd(PySlice(data, 1, 3));
    match Digitize(PySlice(data, 1, 3), 10)
    case Failure(e) => Failure(e)
    case Success(f) => Success(f as real / 100.0)
  }

  // ---------------------------------------------------------------------
  // read_energy (mercury/mercury206.py:22-32)
  // ---------------------------------------------------------------------

  /** The keys of the dictionary read_energy returns, and their names:
      'A+_T' + str(t) for tariff t, and 'A+sum' for the total. */
  datatype EnergyKey = TariffEnergy(t: nat) | TotalEnergy

  function KeyName(k: EnergyKey): string
  {
    match k
    case TariffEnergy(t) => "A+_T" + DecimalString(t)
    case TotalEnergy => "A+sum"
  }

  /** Different keys have different names, so a dictionary keyed by the names
      holds the same entries as one keyed by EnergyKey. */
  lemma KeyNameInjective(j: EnergyKey, k: EnergyKey)
    ensures KeyName(j) == KeyName(k) <==> j == k
  {
    if j.TariffEnergy? && k.TariffEnergy? {
      DecimalStringInjective(j.t, k.t);
      if KeyName(j) == KeyName(k) {
        assert KeyName(j)[4..] == DecimalString(j.t) && KeyName(k)[4..] == DecimalString(k.t);
      }
    } else if j != k {
      assert KeyName(j)[2] != KeyName(k)[2];
    }
  }

  /** The four bytes of tariff i (0-based): data[4i+1 : 4i+5]. */
  function TariffField(data: seq<byte>, i: nat): seq<byte>
  {
    PySlice(data, 4 * i + 1, 4 * i + 5)
  }

  /** digitize(data[4i+1 : 4i+5]) / 100, tariff i's energy in kWh. */
  function TariffValue(data: seq<byte>, i: nat): Result<real>
  {
    match Digitize(TariffField(data, i), 10)
    case Failure(e) => Failure(e)
    case Success(v) => Success(v as real / 100.0)
  }

  /** A tariff decodes exactly when its field is non-empty packed decimal, and
      then its reading is the field's BCD value in hundredths. */
  lemma TariffValueMeaning(data: seq<byte>, i: nat)
    ensures TariffValue(data, i).Success? <==> TariffField(data, i) != [] && IsBcd(TariffField(data, i))
    ensures TariffValue(data, i).Success? ==> TariffValue(data, i).value == BcdValue(TariffField(data, i)) as real / 100.0
    ensures TariffValue(data, i).Failure? ==> TariffValue(data, i).error == InvalidLiteral
  {
    Digitize10IsBcd(TariffField(data, i));
  }

  predicate TariffsDecode(data: seq<byte>, n: nat)
  {
    forall i | 0 <= i < n :: TariffValue(data, i).Success?
  }

  /** The report read_energy returns: the four tariffs and their total. */
  function EnergyReport(data: seq<byte>): (r: Result<map<EnergyKey, real>>)
    ensures r.Failure? ==> r.error == InvalidLiteral
  {
    if TariffsDecode(data, 4) then
      var t1, t2, t3, t4 := TariffValue(data, 0).value, TariffValue(data, 1).value,
                            TariffValue(data, 2).value, TariffValue(data, 3).value;
      Success(map[TariffEnergy(1) := t1, TariffEnergy(2) := t2, TariffEnergy(3) := t3, TariffEnergy(4) := t4,
                  TotalEnergy := t1 + t2 + t3 + t4])
    else Failure(InvalidLiteral)
  }

  /** The report after the first n tariffs of the loop. */
  function PartialReport(data: seq<byte>, n: nat): map<EnergyKey, real>
    requires TariffsDecode(data, n)
  {
    if n == 0 then map[] else PartialReport(data, n - 1)[TariffEnergy(n) := TariffValue(data, n - 1).value]
  }

  function PartialTotal(data: seq<byte>, n: nat): real
    requires TariffsDecode(data, n)
  {
    if n == 0 then 0.0 else PartialTotal(data, n - 1) + TariffValue(data, n - 1).value
  }

  /** read_energy: fill the dictionary tariff by tariff, then add the total.
      The total is accumulated in the loop, in the order sum(result.values())
      adds the values. A tariff that is not packed decimal raises ValueError. */
  method ReadEnergy(data: seq<byte>) returns (r: Result<map<EnergyKey, real>>)
    ensures r == EnergyReport(data)
  {
    var result: map<EnergyKey, real> := map[];
    var total := 0.0;
    for i := 0 to 4
      invariant TariffsDecode(data, i)
      invariant result == PartialReport(data, i)
      invariant total == PartialTotal(data, i)
    {
      var value := TariffValue(data, i);
      if value.Failure? {
        TariffValueMeaning(data, i);
        return Failure(value.error);
      }
      var reading := value.value;
      result := result[TariffEnergy(i + 1) := reading];
      total := total + reading;
    }
    result := result[TotalEnergy := total];
    ReportComplete(data);
    return Success(result);
  }

  /** The loop's report after all four tariffs, with the total added, is the report. */
  lemma ReportComplete(data: seq<byte>)
    requires TariffsDecode(data, 4)
    ensures EnergyReport(data) == Success(PartialReport(data, 4)[TotalEnergy := PartialTotal(data, 4)])
  {
    assert PartialReport(data, 1) == map[TariffEnergy(1) := TariffValue(data, 0).value];
    assert PartialReport(data, 2) == PartialReport(data, 1)[TariffEnergy(2) := TariffValue(data, 1).value];
    assert PartialReport(data, 3) == PartialReport(data, 2)[TariffEnergy(3) := TariffValue(data, 2).value];
    assert PartialReport(data, 4) == PartialReport(data, 3)[TariffEnergy(4) := TariffValue(data, 3).value];
    assert PartialTotal(data, 1) == TariffValue(data, 0).value;
    assert PartialTotal(data, 2) == PartialTotal(data, 1) + TariffValue(data, 1).value;
    assert PartialTotal(data, 3) == PartialTotal(data, 2) + TariffValue(data, 2).value;
    assert PartialTotal(data, 4) == PartialTotal(data, 3) + TariffValue(data, 3).value;
  }

  /** read_energy succeeds exactly when the payload reaches the fourth tariff
      (at least 14 bytes) and all four tariffs are packed decimal. */
  lemma EnergyReportSucceeds(data: seq<byte>)
    ensures EnergyReport(data).Success? <==>
              |data| >= 14 && forall i | 0 <= i < 4 :: IsBcd(TariffField(data, i))
    ensures EnergyReport(data).Failure? ==> EnergyReport(data).error == InvalidLiteral
  {
    forall i | 0 <= i < 4
      ensures TariffValue(data, i).Success? <==> TariffField(data, i) != [] && IsBcd(TariffField(data, i))
    {
      TariffValueMeaning(data, i);
    }
    if |data| >= 14 {
      forall i | 0 <= i < 4
        ensures TariffField(data, i) != []
      {
        assert |TariffField(data, i)| > 0;
      }
    } else {
      assert TariffField(data, 3) == [];
    }
  }

  /** A report holds exactly the keys A+_T1 .. A+_T4 and A+sum. */
  lemma EnergyReportKeys(data: seq<byte>)
    requires EnergyReport(data).Success?
    ensures EnergyReport(data).value.Keys == {TariffEnergy(1), TariffEnergy(2), TariffEnergy(3), TariffEnergy(4), TotalEnergy}
    ensures |EnergyReport(data).value.Keys| == 5
  {
  }

  /** In a report, tariff t is its field's BCD value in hundredths. */
  lemma EnergyReportTariff(data: seq<byte>, t: nat)
    requires EnergyReport(data).Success? && 1 <= t <= 4
    ensures EnergyReport(data).value[TariffEnergy(t)] == BcdValue(TariffField(data, t - 1)) as real / 100.0
  {
    assert EnergyReport(data).value[TariffEnergy(t)] == TariffValue(data, t - 1).value;
    TariffValueMeaning(data, t - 1);
  }

  /** In a report, A+sum is the sum of the four tariffs. */
  lemma EnergyReportTotal(data: seq<byte>)
    requires EnergyReport(data).Success?
    ensures var m := EnergyReport(data).value;
              m[TotalEnergy] == m[TariffEnergy(1)] + m[TariffEnergy(2)] + m[TariffEnergy(3)] + m[TariffEnergy(4)]
  {
  }
}
