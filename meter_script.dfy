/** The command-line program (mercury-em.py:47-92): which requests it makes
    for each protocol, in which order, with which bus address and
    credentials, and the report it assembles from the replies. The replies
    are parameters: each is the payload send_tcp_command returned for the
    corresponding request. */
module MeterScript {
  import opened Utils
  import Mercury206
  import Mercury236

  // ---------------------------------------------------------------------
  // Mercury 206: the serial number is the address
  // ---------------------------------------------------------------------

  /** result['info'] (V, A, P and freq) and result['energy'] for the 206. */
  datatype Report206 = Report206(info: Mercury206.Vap, freq: real, energy: map<Mercury206.EnergyKey, real>)

  /** The report the 206 branch (mercury-em.py:47-55) builds from the payloads
      of its three requests; the serial must fit the four-byte address. */
  function Report206Of(serial: int, vap: seq<byte>, freq: seq<byte>, energy: seq<byte>): (r: Result<Report206>)
    ensures !(0 <= serial < 0x1_0000_0000) ==> r == Failure(AddressRange)
    ensures 0 <= serial < 0x1_0000_0000 ==>
              (r.Success? <==> Mercury206.ReadVap(vap).Success? && Mercury206.ReadFreq(freq).Success?
                               && Mercury206.EnergyReport(energy).Success?)
  {
    CommandFrame206(serial, Mercury206.VapCommand);
    match Mercury206.PackMsg(IntAddress(serial), [Mercury206.VapCommand], true)
    case Failure(e) => Failure(e)
    case Success(_) =>
      match Mercury206.ReadVap(vap)
      case Failure(e) => Failure(e)
      case Success(v) =>
        match Mercury206.ReadFreq(freq)
        case Failure(e) => Failure(e)
        case Success(f) =>
          match Mercury206.EnergyReport(energy)
          case Failure(e) => Failure(e)
          case Success(m) => Success(Report206(v, f, m))
  }

  /** The 206 requests, in order, when every reply decodes: read_vap, read_freq,
      read_energy. */
  const Plan206: seq<int> := [Mercury206.VapCommand, Mercury206.FreqCommand, Mercury206.EnergyCommand]

  /** The 206 branch: each request is sent, and its payload decoded, before the
      next; sent lists the command of every request that went out. */
  method Run206(serial: int, vap: seq<byte>, freq: seq<byte>, energy: seq<byte>)
    returns (r: Result<Report206>, sent: seq<int>)
    ensures r == Report206Of(serial, vap, freq, energy)
    ensures r.Success? ==> sent == Plan206
    ensures sent <= Plan206
  {
    sent := [];
    var address := IntAddress(serial);
    var frame := Mercury206.PackMsg(address, [Mercury206.VapCommand], true);
    if frame.Failure? {
      return Failure(frame.error), sent;
    }
    sent := sent + [Mercury206.VapCommand];
    var v := Mercury206.ReadVap(vap);
    if v.Failure? {
      return Failure(v.error), sent;
    }
    sent := sent + [Mercury206.FreqCommand];
    var f := Mercury206.ReadFreq(freq);
    if f.Failure? {
      return Failure(f.error), sent;
    }
    sent := sent + [Mercury206.EnergyCommand];
    var e := Mercury206.ReadEnergy(energy);
    if e.Failure? {
      return Failure(e.error), sent;
    }
    r := Success(Report206(v.value, f.value, e.value));
  }

  /** The first request, and so the run, fails exactly when the serial does
      not fit the four-byte address. */
  lemma CommandFrame206(serial: int, command: byte)
    ensures Mercury206.PackMsg(IntAddress(serial), [command], true).Success? <==> 0 <= serial < 0x1_0000_0000
    ensures Mercury206.PackMsg(IntAddress(serial), [command], true).Failure? ==>
              Mercury206.PackMsg(IntAddress(serial), [command], true).error == AddressRange
  {
    assert ToBytes([command]).Success?;
  }

  /** Every 206 request frame carries the serial as its four address bytes. */
  lemma Plan206Frames(serial: int, i: nat)
    requires 0 <= serial < 0x1_0000_0000 && i < |Plan206|
    ensures Mercury206.PackMsg(IntAddress(serial), [Plan206[i]], true).Success?
    ensures Mercury206.PackMsg(IntAddress(serial), [Plan206[i]], true).value[..4] == ToBigEndian(serial, 4)
    ensures Mercury206.PackMsg(IntAddress(serial), [Plan206[i]], true).value[4] == Plan206[i]
  {
    assert ToBytes([Plan206[i]]).Success?;
  }

  // ---------------------------------------------------------------------
  // Mercury 236: bus address, credentials, session
  // ---------------------------------------------------------------------

  /** The bus address the 236 branch derives from the serial number
      (mercury-em.py:65-70): its last three digits, 1 when those are 000, and
      its last two digits when the three form a number above 240. Python's %
      and Dafny's agree for a positive divisor, also on negative serials. */
  function BusAddress(serial: int): (a: nat)
    ensures a <= 240
  {
    var a := serial % 1000;
    if a == 0 then 1 else if a > 240 then a % 100 else a
  }

  /** The address is the serial's last three digits when they lie in 1..240,
      and otherwise its last two digits (or 1 for 000). */
  lemma BusAddressDigits(serial: int)
    ensures serial % 1000 == 0 ==> BusAddress(serial) == 1
    ensures 0 < serial % 1000 <= 240 ==> BusAddress(serial) == serial % 1000
    ensures serial % 1000 > 240 ==> BusAddress(serial) == serial % 100
  {
    var q := serial / 1000;
    assert serial == 1000 * q + serial % 1000;
    assert serial == 100 * (10 * q + (serial % 1000) / 100) + (serial % 1000) % 100;
  }

  /** The derived address is 0 exactly when the last three digits are 300,
      400, ..., 900; the program does not guard against it. */
  lemma BusAddressZero(serial: int)
    ensures BusAddress(serial) == 0 <==> serial % 1000 in {300, 400, 500, 600, 700, 800, 900}
  {
    var m := serial % 1000;
    if m > 240 && m % 100 == 0 {
      var h := m / 100;
      assert m == 100 * h;
      assert 3 <= h <= 9;
    }
  }

  /** The access level and password (mercury-em.py:76-78): level 2 for "admin"
      and 1 otherwise; no password, or an empty one, means "222222" for
      level 2 and "111111" otherwise. */
  function Credentials(user: string, passwd: Option<string>): (c: (int, string))
    ensures c.0 == 1 || c.0 == 2
    ensures c.1 != []
  {
    var level := if user == "admin" then 0x02 else 0x01;
    if passwd == None || passwd == Some("") then (level, if level == 2 then "222222" else "111111")
    else (level, passwd.value)
  }

  /** The level is 2 exactly for "admin"; a missing password is replaced by six
      copies of the level's digit, which packs as six bytes of that value. */
  lemma CredentialsMeaning(user: string, passwd: Option<string>)
    ensures Credentials(user, passwd).0 == if user == "admin" then 2 else 1
    ensures passwd == None || passwd == Some("") ==>
              Mercury236.PasswordDigits(Credentials(user, passwd).1)
              == Success(seq(6, _ => Credentials(user, passwd).0))
    ensures passwd.Some? && passwd.value != [] ==> Credentials(user, passwd).1 == passwd.value
  {
    var (level, pw) := Credentials(user, passwd);
    if passwd == None || passwd == Some("") {
      var d := Mercury236.PasswordDigits(pw).value;
      assert forall i | 0 <= i < 6 :: d[i] == level;
      assert d == seq(6, _ => level);
    }
  }

  /** The session can open exactly when no password, or an all-digit one, is given. */
  lemma CredentialsPack(user: string, passwd: Option<string>)
    ensures Mercury236.PasswordDigits(Credentials(user, passwd).1).Success?
            <==> passwd == None || passwd == Some("") || Mercury236.PasswordDigits(passwd.value).Success?
  {
    CredentialsMeaning(user, passwd);
  }

  /** The four tariff requests of one energy array. */
  function TariffRequests(param: int): seq<Mercury236.Request>
  {
    [Mercury236.EnergyRequest(param, 1), Mercury236.EnergyRequest(param, 2),
     Mercury236.EnergyRequest(param, 3), Mercury236.EnergyRequest(param, 4)]
  }

  /** The reading requests of the 236 session, in order: the sum and the four
      tariffs of the default array, the sum and the four tariffs of the
      per-phase array, the three read_vap requests, read_freq. */
  function ReadingPlan(): seq<Mercury236.Request>
  {
    [Mercury236.EnergyRequest(0x00, 0)] + TariffRequests(0x00)
    + [Mercury236.EnergyRequest(0x60, 0)] + TariffRequests(0x60)
    + VapRequests + [Mercury236.FreqRequest]
  }

  /** The three requests of read_vap. */
  const VapRequests: seq<Mercury236.Request> :=
    [Mercury236.VoltageRequest, Mercury236.PowerRequest, Mercury236.CurrentRequest]

  /** The requests made up to the end of each reading are a prefix of the plan. */
  lemma ReadingPlanPrefixes()
    ensures var a, b, c, d := [Mercury236.EnergyRequest(0x00, 0)], TariffRequests(0x00),
                              [Mercury236.EnergyRequest(0x60, 0)], TariffRequests(0x60);
            a <= ReadingPlan() && a + b <= ReadingPlan() && a + b + c <= ReadingPlan()
            && a + b + c + d <= ReadingPlan() && a + b + c + d + VapRequests <= ReadingPlan()
  {
  }

  /** The 236 requests, in order, when every reply decodes (mercury-em.py:80-92):
      check_connect, open_channel, the readings, close_channel. */
  function Plan236(level: int, passwd: string): (plan: seq<Mercury236.Request>)
    ensures |plan| == 17
  {
    [Mercury236.CheckConnect, Mercury236.OpenChannel(level, passwd)] + ReadingPlan() + [Mercury236.CloseChannel]
  }

  /** The state of the meter's channel, as the commands 0x01 and 0x02 move it. */
  datatype Channel = Closed | Open

  /** Replaying requests from a state: None once a reading (command 0x05 or
      0x08) is made while the channel is closed. */
  function Replay(state: Channel, requests: seq<Mercury236.Request>): Option<Channel>
    decreases |requests|
  {
    if requests == [] then Some(state)
    else
      var command := requests[0].command;
      if (command == 0x05 || command == 0x08) && state == Closed then None
      else
        var next := if command == 0x01 then Open else if command == 0x02 then Closed else state;
        Replay(next, requests[1..])
  }

  /** Every reading of the 236 session is made while the channel is open, and
      the session leaves it closed. */
  lemma Plan236Session(level: int, passwd: string)
    ensures Replay(Closed, Plan236(level, passwd)) == Some(Closed)
  {
    var plan := Plan236(level, passwd);
    assert plan[2..] == ReadingPlan() + [Mercury236.CloseChannel];
    ReadsWhileOpen(plan[2..]);
  }

  /** Readings followed by a single close leave an open channel closed. */
  lemma {:induction false} ReadsWhileOpen(requests: seq<Mercury236.Request>)
    requires requests != [] && requests[|requests| - 1].command == 0x02
    requires forall i | 0 <= i < |requests| - 1 :: requests[i].command == 0x05 || requests[i].command == 0x08
    ensures Replay(Open, requests) == Some(Closed)
    decreases |requests|
  {
    if |requests| > 1 {
      ReadsWhileOpen(requests[1..]);
    } else {
      assert requests[1..] == [];
    }
  }

  /** The replies the 236 branch decodes, one payload per reading request. */
  datatype Replies236 = Replies236(
    sumActReact: seq<byte>, tarifActReact: seq<seq<byte>>,
    sumByPhases: seq<byte>, tarifByPhases: seq<seq<byte>>,
    voltages: seq<byte>, powers: seq<byte>, currents: seq<byte>, freq: seq<byte>)

  /** result for the 236: 'energy_phases_AR', 'energy_tarif_AR',
      'energy_phases', 'energy_tarif' and 'info' (read_vap with 'freq' added). */
  datatype Report236 = Report236(
    energyPhasesAR: map<Mercury236.EnergyKey, real>, energyTarifAR: map<Mercury236.EnergyKey, real>,
    energyPhases: map<Mercury236.EnergyKey, real>, energyTarif: map<Mercury236.EnergyKey, real>,
    info: map<Mercury236.InfoKey, real>)

  /** The report the readings build, from their payloads. */
  function SessionReport(replies: Replies236): Result<Report236>
    requires |replies.tarifActReact| == 4 && |replies.tarifByPhases| == 4
  {
    match Mercury236.EnergyReport(0x00, 0, replies.sumActReact)
    case Failure(e) => Failure(e)
    case Success(sumAR) =>
      match Mercury236.Merged(0x00, replies.tarifActReact, 4)
      case Failure(e) => Failure(e)
      case Success(tarifAR) =>
        match Mercury236.EnergyReport(0x60, 0, replies.sumByPhases)
        case Failure(e) => Failure(e)
        case Success(sumPh) =>
          match Mercury236.Merged(0x60, replies.tarifByPhases, 4)
          case Failure(e) => Failure(e)
          case Success(tarifPh) =>
            match Mercury236.VapReport(replies.voltages, replies.powers, replies.currents)
            case Failure(e) => Failure(e)
            case Success(info) =>
              match Mercury236.ReadFreq(replies.freq)
              case Failure(e) => Failure(e)
              case Success(f) => Success(Report236(sumAR, tarifAR, sumPh, tarifPh, info[Mercury236.Frequency := f]))
  }

  /** The report the 236 branch builds: a password that is not all digits
      makes open_channel raise before any reading (OpenChannelPacks). */
  function Report236Of(user: string, passwd: Option<string>, replies: Replies236): (r: Result<Report236>)
    requires |replies.tarifActReact| == 4 && |replies.tarifByPhases| == 4
    ensures passwd == None || passwd == Some("") ==> r == SessionReport(replies)
  {
    LoginReport(Credentials(user, passwd).1, replies)
  }

  /** The report of a session opened with the password pw. */
  function LoginReport(pw: string, replies: Replies236): Result<Report236>
    requires |replies.tarifActReact| == 4 && |replies.tarifByPhases| == 4
  {
    if Mercury236.PasswordDigits(pw).Failure? then Failure(InvalidLiteral) else SessionReport(replies)
  }

  /** open_channel's frame packs exactly when the password is all digits: the
      bus address and the level always fit a byte. */
  lemma OpenChannelPacks(serial: int, user: string, passwd: Option<string>)
    ensures var (level, pw) := Credentials(user, passwd);
            var frame := Mercury236.Frame(IntAddress(BusAddress(serial)), Mercury236.OpenChannel(level, pw));
            (frame.Success? <==> Mercury236.PasswordDigits(pw).Success?)
            && (frame.Failure? ==> frame.error == InvalidLiteral)
  {
    var (level, pw) := Credentials(user, passwd);
    assert ToBytes([0x01, level]).Success?;
  }

  /** The readings of mercury-em.py:83-90, each request made and its payload
      decoded before the next; sent lists the requests made. A failing
      tariff merge or read_vap is counted with all its requests. */
  method ReadSession(replies: Replies236) returns (r: Result<Report236>, sent: seq<Mercury236.Request>)
    requires |replies.tarifActReact| == 4 && |replies.tarifByPhases| == 4
    ensures r == SessionReport(replies)
    ensures r.Success? ==> sent == ReadingPlan()
    ensures sent <= ReadingPlan()
  {
    ReadingPlanPrefixes();
    sent := [Mercury236.EnergyRequest(0x00, 0)];
    var sumAR := Mercury236.ReadEnergySumActReact(0x00, replies.sumActReact);
    if sumAR.Failure? {
      return Failure(sumAR.error), sent;
    }
    sent := sent + TariffRequests(0x00);
    var tarifAR := Mercury236.ReadEnergyTarifActReact(0x00, replies.tarifActReact);
    if tarifAR.Failure? {
      return Failure(tarifAR.error), sent;
    }
    sent := sent + [Mercury236.EnergyRequest(0x60, 0)];
    var sumPh := Mercury236.ReadEnergySumByPhases(0x60, 0x0, replies.sumByPhases);
    if sumPh.Failure? {
      return Failure(sumPh.error), sent;
    }
    sent := sent + TariffRequests(0x60);
    var tarifPh := Mercury236.ReadEnergyTarifByPhases(0x60, 0x0, replies.tarifByPhases);
    if tarifPh.Failure? {
      return Failure(tarifPh.error), sent;
    }
    sent := sent + VapRequests;
    var info := Mercury236.ReadVap(replies.voltages, replies.powers, replies.currents);
    if info.Failure? {
      return Failure(info.error), sent;
    }
    sent := sent + [Mercury236.FreqRequest];
    var f := Mercury236.ReadFreq(replies.freq);
    if f.Failure? {
      return Failure(f.error), sent;
    }
    var result := info.value[Mercury236.Frequency := f.value];
    r := Success(Report236(sumAR.value, tarifAR.value, sumPh.value, tarifPh.value, result));
  }

  /** Every request in sent packs into a frame whose first byte is address. */
  predicate SentTo(address: byte, sent: seq<Mercury236.Request>)
  {
    forall i | 0 <= i < |sent| ::
      Mercury236.Frame(IntAddress(address), sent[i]).Success?
      && Mercury236.Frame(IntAddress(address), sent[i]).value[0] == address
  }

  /** Every frame of the 236 plan goes to the bus address derived from the
      serial: it packs, its first byte is that address and its second the
      request's command. open_channel (index 1) packs only for an all-digit
      password. */
  lemma Plan236Frames(serial: int, user: string, passwd: Option<string>, i: nat)
    requires i < 17
    requires i == 1 ==> Mercury236.PasswordDigits(Credentials(user, passwd).1).Success?
    ensures var (level, pw) := Credentials(user, passwd);
            var frame := Mercury236.Frame(IntAddress(BusAddress(serial)), Plan236(level, pw)[i]);
            frame.Success? && frame.value[0] == BusAddress(serial) && frame.value[1] == Plan236(level, pw)[i].command
  {
    var (level, pw) := Credentials(user, passwd);
    var request := Plan236(level, pw)[i];
    assert ToBytes([request.command as int] + request.params).Success?;
  }

  /** The 236 branch (mercury-em.py:58-92): the bus address and credentials
      first, then check_connect, open_channel, the readings and close_channel;
      sent lists the requests made, each packed for the bus address derived
      from the serial. The replies to check_connect, open_channel and
      close_channel are not read. */
  method Run236(serial: int, user: string, passwd: Option<string>, replies: Replies236)
    returns (r: Result<Report236>, sent: seq<Mercury236.Request>)
    requires |replies.tarifActReact| == 4 && |replies.tarifByPhases| == 4
    ensures r == Report236Of(user, passwd, replies)
    ensures r.Success? ==> sent == Plan236(Credentials(user, passwd).0, Credentials(user, passwd).1)
    ensures sent <= Plan236(Credentials(user, passwd).0, Credentials(user, passwd).1)
    ensures SentTo(BusAddress(serial), sent)
  {
    var (level, pw) := Credentials(user, passwd);
    r, sent := Login236(level, pw, replies);
    forall i | 0 <= i < |sent|
      ensures Mercury236.Frame(IntAddress(BusAddress(serial)), sent[i]).Success?
      ensures Mercury236.Frame(IntAddress(BusAddress(serial)), sent[i]).value[0] == BusAddress(serial)
    {
      Plan236Frames(serial, user, passwd, i);
    }
  }

  /** check_connect, open_channel with the given credentials, the readings and
      close_channel (mercury-em.py:80-92). */
  method Login236(level: byte, pw: string, replies: Replies236)
    returns (r: Result<Report236>, sent: seq<Mercury236.Request>)
    requires |replies.tarifActReact| == 4 && |replies.tarifByPhases| == 4
    ensures r == LoginReport(pw, replies)
    ensures r.Success? ==> sent == Plan236(level, pw)
    ensures sent <= Plan236(level, pw)
    ensures |sent| > 1 ==> Mercury236.PasswordDigits(pw).Success?
  {
    sent := [Mercury236.CheckConnect];
    var open := Mercury236.OpenChannel(level, pw);
    if Mercury236.PasswordDigits(pw).Failure? {
      return Failure(InvalidLiteral), sent;
    }
    sent := sent + [open];
    var readings;
    r, readings := ReadSession(replies);
    PlanPrefix(level, pw, readings);
    sent := sent + readings;
    if r.Success? {
      sent := sent + [Mercury236.CloseChannel];
    }
  }

  /** The requests of a session that stops during the readings are a prefix of the plan. */
  lemma PlanPrefix(level: int, pw: string, readings: seq<Mercury236.Request>)
    requires readings <= ReadingPlan()
    ensures [Mercury236.CheckConnect] <= Plan236(level, pw)
    ensures [Mercury236.CheckConnect, Mercury236.OpenChannel(level, pw)] + readings <= Plan236(level, pw)
    ensures readings == ReadingPlan() ==>
              [Mercury236.CheckConnect, Mercury236.OpenChannel(level, pw)] + readings + [Mercury236.CloseChannel]
              == Plan236(level, pw)
  {
    var head := [Mercury236.CheckConnect, Mercury236.OpenChannel(level, pw)];
    var plan := Plan236(level, pw);
    assert plan == head + ReadingPlan() + [Mercury236.CloseChannel];
    assert (head + readings) == plan[..|head + readings|];
  }

  /** The 236 info section holds the ten read_vap values and the frequency. */
  lemma Report236Info(user: string, passwd: Option<string>, replies: Replies236)
    requires |replies.tarifActReact| == 4 && |replies.tarifByPhases| == 4
    requires Report236Of(user, passwd, replies).Success?
    ensures Report236Of(user, passwd, replies).value.info.Keys
            == {Mercury236.Voltage(1), Mercury236.Voltage(2), Mercury236.Voltage(3), Mercury236.PowerSum,
                Mercury236.Power(1), Mercury236.Power(2), Mercury236.Power(3),
                Mercury236.Current(1), Mercury236.Current(2), Mercury236.Current(3), Mercury236.Frequency}
    ensures Report236Of(user, passwd, replies).value.info[Mercury236.Frequency]
            == Mercury236.ReadFreq(replies.freq).value
  {
    Mercury236.VapReportKeys(replies.voltages, replies.powers, replies.currents);
  }

}
