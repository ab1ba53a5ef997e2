# mercury-em in Dafny

A model of the core of mercury-em. This is a Python client that reads
Mercury 206 and Mercury 236 electricity meters over an RS-485-to-TCP
converter. The model covers three things:

- the request frames each driver packs (address, command, parameters, the
  236 password digits, the Modbus CRC) and how answers are unpacked;
- how readings are decoded from answer payloads: packed decimal in the 206,
  scrambled base-16 byte groups in the 236;
- what the command-line program does with both drivers: the 236 bus
  address taken from the serial number, the access level and default
  password, the order of requests, and the report it assembles.

Modules, one per file:

- `Utils` (utils.dfy): `upper_hex`, `pretty_hex`, `digitize`, and the
  Python primitives they rest on (`'%02X'`, `int(s, base)`, `bytes(args)`,
  `struct.pack('!I')`, slicing).
- `Crc` (crc.dfy): the Modbus CRC-16, written from section 6.2.2 of the
  MODBUS over Serial Line Specification and Implementation Guide V1.02. The
  documented trailers AF 70, EF 71 and 04 9E are proved.
- `Mercury206` (mercury206.dfy): the four-byte-address driver.
- `Mercury236` (mercury236.dfy): the one-byte-address driver. Its decoding
  loops are methods, proved against the functions that specify them.
- `MeterScript` (meter_script.dfy): lines 47-92 of mercury-em.py.

Python exceptions are the constructors of `Utils.Error`, returned in a
`Result`. Values are exact `real`s. A meter's answer is a parameter: the
payload `send_tcp_command` returned for that request.

## Model

| member | source | states |
|---|---|---|
| Utils.FormatHex2 | mercury/utils.py:48 | `'%02X'` of 0..255 is the uppercase hex digits of its high and low nibble, at least two characters; a negative number starts with '-' |
| Utils.UpperHex | mercury/utils.py:14-48 | succeeds exactly for an int or a str/bytes of length 1; other lengths raise 'expected single byte'; an int 0..255 gives its two uppercase nibble digits |
| Utils.UpperHexOfSingleton | mercury/utils.py:41-47 | a one-character str gives upper_hex of its code point, a one-byte bytes gives upper_hex of its value |
| Utils.UpperHexExamples | mercury/utils.py:15-39 | the eight documented upper_hex results, including the four ValueErrors |
| Utils.PrettyHex | mercury/utils.py:51-60 | succeeds exactly when upper_hex succeeds on every item |
| Utils.PrettyHexSnoc | mercury/utils.py:60 | one more item appends a single space and its token |
| Utils.PrettyHexFirstError | mercury/utils.py:60 | when some item fails, pretty_hex raises the error of the first failing item |
| Utils.PrettyHexTokens | mercury/utils.py:60 | pretty_hex is the items' tokens joined by single spaces |
| Utils.PrettyHexOfBytes | mercury/utils.py:51-60 | for bytes it always succeeds: "" for none, else 3n-1 characters, byte i at 3i and 3i+1 as nibble digits, a space at every 3i+2 |
| Utils.PrettyHexExamplePython | mercury/utils.py:53-54 | pretty_hex('Python') is '50 79 74 68 6F 6E' |
| Utils.PrettyHexExampleLatin1 | mercury/utils.py:55-56 | pretty_hex('\x00\xa1\xb2') is '00 A1 B2' |
| Utils.PrettyHexExampleList | mercury/utils.py:57-58 | pretty_hex([1, 2, 3, 5, 8, 13]) is '01 02 03 05 08 0D' |
| Utils.ParseIntOfChar | mercury/mercury236.py:208 | int(c) of one character is its digit for '0'..'9', else ValueError |
| Utils.ParseInt | mercury/utils.py:11 | int(s, base) succeeds exactly when s is non-empty and every character is a digit below the base; otherwise ValueError |
| Utils.HexJoin | mercury/utils.py:10 | the joined upper_hex string has two characters per byte |
| Utils.HexJoinValue16 | mercury/utils.py:10-11 | the joined hex string of any bytes parses in base 16 to their big-endian value |
| Utils.HexJoinValue10 | mercury/utils.py:10-11 | it parses in base 10 exactly when every nibble is a decimal digit, giving the packed-decimal value |
| Utils.Digitize | mercury/utils.py:5-11 | the empty byte string raises ValueError, and ValueError is the only error; its values are stated by Digitize16IsBigEndian and Digitize10IsBcd |
| Utils.Digitize16IsBigEndian | mercury/utils.py:5-11 | digitize(bs, 16) is the big-endian value of bs; empty bs raises ValueError |
| Utils.Digitize16Snoc | mercury/utils.py:10-11 | for non-empty xs, digitize(xs+[b], 16) == 256*digitize(xs, 16) + b |
| Utils.Digitize10IsBcd | mercury/utils.py:5-11 | digitize(bs, 10) is the packed-decimal value when bs is non-empty and every nibble is at most 9, else ValueError |
| Utils.Digitize10Snoc | mercury/utils.py:10-11 | for packed-decimal xs+[b], digitize(xs+[b], 10) == 100*digitize(xs, 10) + 10*(b/16) + b%16 |
| Utils.BcdSnoc | mercury/utils.py:10-11 | the packed-decimal value and validity of xs+[b] in terms of those of xs |
| Utils.DigitizeFailure | mercury/utils.py:10-11 | in base 10 or 16, digitize fails exactly on empty input, or in base 10 on a nibble of 10 or more; the error is ValueError |
| Utils.DigitizeLeadingZero | mercury/utils.py:10-11 | a leading 0x00 byte does not change digitize of a non-empty tail, in any base |
| Utils.DigitizeExamples | mercury/utils.py:7-8 | digitize(b'\x00\x12\x34') is 1234 in base 10 and 0x1234 in base 16 |
| Utils.ToBigEndian | mercury/mercury206.py:101 | struct.pack('!I') gives width bytes whose big-endian value is n |
| Utils.ToBigEndianOfBigEndian | mercury/mercury206.py:129 | unpacking four bytes and packing the number again gives the same bytes |
| Utils.ToBytes | mercury/mercury206.py:110 | bytes(args) succeeds exactly when every argument is in 0..255, and keeps them unchanged; otherwise ValueError |
| Utils.DecimalStringParses | mercury/mercury236.py:67 | str(n), modelled by DecimalString, is a decimal numeral that int() reads back as n |
| Utils.DecimalStringInjective | mercury/mercury236.py:67 | different numbers have different str() (DecimalString) |
| Utils.PySlice | mercury/mercury206.py:15-17 | data[i:j] clips both bounds to the length and keeps the elements in order |
| Crc.LowHigh | mercury/mercury206.py:113 | two bytes, low byte first, whose value is the register |
| Crc.Crc16 | mercury/mercury206.py:113 | the two CRC bytes of a message, low first, whose value is the final register (Register, the byte-by-byte CRC loop) |
| Crc.RegisterSnoc | mercury/mercury206.py:113 | Register after one more byte is the previous register updated by that byte (AddByte) |
| Crc.CrcResidue | mercury/mercury206.py:112-113 | a message followed by its own CRC leaves the register at zero |
| Crc.CrcExample28 | mercury/mercury206.py:83-84 | the CRC of 00 A6 B7 20 28 is AF 70 |
| Crc.CrcExample2B | mercury/mercury206.py:87-88 | the CRC of 00 A6 B7 20 2B is EF 71 |
| Crc.CrcExampleBytes123 | mercury/mercury206.py:89-90 | the CRC of 00 31 32 33 is 04 9E |
| Mercury206.Zeros | mercury/mercury206.py:105-106 | b'\x00' * k is k zero bytes |
| Mercury206.AddressField | mercury/mercury206.py:100-108 | an int packs as four big-endian bytes when it lies in 0..2^32-1, else struct.error; bytes of at most four are left-padded with zeros, else ValueError; any other type raises TypeError |
| Mercury206.PackMsg | mercury/mercury206.py:76-115 | succeeds exactly when the address and bytes(args) do: the address field, then the args in order, then, when crc is set, the CRC of all of that; the first error raised is reported |
| Mercury206.BigEndianZeros | mercury/mercury206.py:105-106 | zero padding in front does not change the number the bytes spell |
| Mercury206.AddressFieldOfBytes | mercury/mercury206.py:100-106 | a padded bytes address is the field of the integer it spells |
| Mercury206.AddressFieldOfField | mercury/mercury206.py:101 | any four bytes are the field of the integer they spell |
| Mercury206.PackBytesAddressIsIntAddress | mercury/mercury206.py:100-106 | a bytes address of at most four bytes packs exactly like the integer it spells |
| Mercury206.PackedFrameChecks | mercury/mercury206.py:112-113 | every packed frame with a CRC passes the receiver's CRC check |
| Mercury206.PackMsgExample28 | mercury/mercury206.py:83-86 | pack_msg(10925856, 0x28) is 00 A6 B7 20 28 AF 70, and 00 A6 B7 20 28 with crc=False |
| Mercury206.PackMsgExample2B | mercury/mercury206.py:87-88 | pack_msg(10925856, 0x2b) is 00 A6 B7 20 2B EF 71 |
| Mercury206.PackMsgExampleBytes | mercury/mercury206.py:89-90 | pack_msg(b'123') is 00 31 32 33 04 9E |
| Mercury206.PackMsgExampleErrors | mercury/mercury206.py:91-98 | a str address raises TypeError and b'12345' raises ValueError |
| Mercury206.AddressExample | mercury/mercury206.py:83-84 | 10925856 packs as 00 A6 B7 20 |
| Mercury206.UnpackMsg | mercury/mercury206.py:118-131 | succeeds exactly for four or more bytes: the first four as a big-endian number, the rest as the data; fewer raise struct.error |
| Mercury206.UnpackPackedMsg | mercury/mercury206.py:118-131 | unpack_msg inverts pack_msg(a, xs, crc=False) for every address in 0..2^32-1 |
| Mercury206.PackUnpackedMsg | mercury/mercury206.py:76-131 | pack_msg without CRC rebuilds any message of four or more bytes from what unpack_msg returns |
| Mercury206.UnpackMsgExamples | mercury/mercury206.py:122-127 | the three documented unpack_msg results |
| Mercury206.Reply | mercury/mercury206.py:69-72 | an answer of 2..3 bytes raises struct.error; otherwise the payload is returned exactly when the answer has four or more bytes and echoes the requested address |
| Mercury206.SendCommand | mercury/mercury206.py:60-72 | the request is pack_msg(address, command, *params) with CRC, and the result is the gate applied to the answer |
| Mercury206.ReplyFromMeter | mercury/mercury206.py:69-72 | an answer echoing address e gives its payload when e is the requested address, None otherwise |
| Mercury206.ReadVap | mercury/mercury206.py:10-19 | V = data[1:3] in packed decimal /10, A = data[3:5] /100, P = data[5:8] unscaled; ValueError exactly when a field is empty or not packed decimal |
| Mercury206.ReadFreq | mercury/mercury206.py:35-39 | data[1:3] in packed decimal /100; ValueError exactly when that field is empty or not packed decimal |
| Mercury206.KeyNameInjective | mercury/mercury206.py:29-31 | KeyName spells the keys 'A+_T' + str(i+1) and 'A+sum', and they are different strings |
| Mercury206.TariffValueMeaning | mercury/mercury206.py:29 | tariff i is data[4i+1:4i+5] in packed decimal /100, or ValueError |
| Mercury206.EnergyReport | mercury/mercury206.py:22-32 | read_energy's report; the only error is ValueError. EnergyReportSucceeds, EnergyReportKeys, EnergyReportTariff and EnergyReportTotal state when it exists and what it holds |
| Mercury206.ReadEnergy | mercury/mercury206.py:22-32 | the loop and the final sum give exactly the report function |
| Mercury206.ReportComplete | mercury/mercury206.py:27-31 | once four tariffs decode, the report is their values plus A+sum |
| Mercury206.EnergyReportSucceeds | mercury/mercury206.py:28-29 | the report exists exactly when the payload has 14 or more bytes and all four fields are packed decimal; otherwise ValueError |
| Mercury206.EnergyReportKeys | mercury/mercury206.py:28-31 | the report has exactly the five keys A+_T1..A+_T4 and A+sum |
| Mercury206.EnergyReportTariff | mercury/mercury206.py:29 | A+_Tt is field t-1 in packed decimal /100 |
| Mercury206.EnergyReportTotal | mercury/mercury206.py:31 | A+sum is the sum of the four tariffs |
| Mercury236.AddressField | mercury/mercury236.py:194-200 | an int packs as one byte when it lies in 0..255, else struct.error; bytes of at most one are used unpadded, else ValueError; any other type raises TypeError |
| Mercury236.PasswordDigits | mercury/mercury236.py:208 | one byte per character, that digit's value; ValueError exactly when some character is not '0'..'9' |
| Mercury236.PackMsg | mercury/mercury236.py:170-216 | succeeds exactly when the address, bytes(args) and a non-empty password's digits do; the frame is address, args, password digits, then the CRC when crc is set; an empty password adds nothing |
| Mercury236.PackMsgExampleErrors | mercury/mercury236.py:185-192 | a str address raises TypeError and b'12345' raises ValueError, as documented |
| Mercury236.PasswordAppendsDigits | mercury/mercury236.py:207-211 | a password is sent exactly as its digits would be if given as more args |
| Mercury236.PackedFrameChecks | mercury/mercury236.py:213-214 | every packed frame with a CRC passes the receiver's CRC check |
| Mercury236.UnpackMsg | mercury/mercury236.py:219-232 | succeeds exactly for a non-empty message: the first byte as the address, the rest as the data; an empty one raises struct.error |
| Mercury236.UnpackPackedMsg | mercury/mercury236.py:219-232 | unpack_msg inverts pack_msg(a, xs, crc=False) for every address in 0..255 |
| Mercury236.PackUnpackedMsg | mercury/mercury236.py:170-232 | pack_msg without CRC rebuilds any non-empty message from what unpack_msg returns |
| Mercury236.Reply | mercury/mercury236.py:163-166 | the payload is returned exactly when the answer has two or more bytes and its first byte is the requested address |
| Mercury236.ReplyFromMeter | mercury/mercury236.py:163-166 | an answer echoing e gives its non-empty payload when e is the requested address, None otherwise |
| Mercury236.SendCommand | mercury/mercury236.py:154-166 | the request is Frame, the pack_msg call of line 156 on the command and its params with the keyword password and CRC; the result is the gate applied to the answer |
| Mercury236.CheckConnectFrame | mercury/mercury236.py:117-119 | check_connect sends the address, 0x00 and the CRC |
| Mercury236.OpenChannelFrame | mercury/mercury236.py:123-126 | open_channel sends the address, 0x01, the level, the password digits and the CRC |
| Mercury236.DefaultOpenPasswordDigits | mercury/mercury236.py:123 | open_channel's own default password "1111111" is seven digit bytes of 1 |
| Mercury236.CloseChannelFrame | mercury/mercury236.py:130-133 | close_channel sends the address, 0x02 and the CRC |
| Mercury236.ReadingIsDigitize | mercury/mercury236.py:235-241 | digitize in base 16 of each picked group, [b0,b2,b1], [b2,b1] or [b1,b0,b3,b2], is the reading written out in bytes |
| Mercury236.ReadGroups | mercury/mercury236.py:24-27 | the header loop that reads a group and drops it adds exactly the decoded groups to the dictionary; IndexError exactly when the payload is shorter than the groups read |
| Mercury236.Decoded | mercury/mercury236.py:24-27 | the dictionary one header loop leaves; DecodedKeys and DecodedAt state its keys and values, and ReadGroups is the loop proved equal to it |
| Mercury236.DecodedKeys | mercury/mercury236.py:24-27 | the decoded dictionary has exactly the headers as keys |
| Mercury236.DecodedAt | mercury/mercury236.py:24-27 | with distinct headers, header j holds the reading of group j |
| Mercury236.InfoNameInjective | mercury/mercury236.py:20-39 | the read_vap keys are different strings |
| Mercury236.HeaderNames | mercury/mercury236.py:20-39 | the keys spell 'V_F1'..'V_F3', 'Psum', 'P_F1'..'P_F3', 'A_F1'..'A_F3' |
| Mercury236.ReadVap | mercury/mercury236.py:10-45 | the three loops give exactly the report function: IndexError unless the payloads have 9, 12 and 9 bytes or more |
| Mercury236.VapReport | mercury/mercury236.py:19-45 | read_vap's dictionary exists exactly when the payloads reach 9, 12 and 9 bytes, else IndexError; VapReportKeys, VapVoltage, VapPower and VapCurrent state its keys and values |
| Mercury236.VapReportKeys | mercury/mercury236.py:20-45 | a read_vap report has exactly the ten keys |
| Mercury236.VapVoltage | mercury/mercury236.py:19-27 | V_Ff is (b0 b2 b1 of group f) in base 16 /100 |
| Mercury236.VapPower | mercury/mercury236.py:29-35 | Psum and P_Ff are (b2 b1 of their group) in base 16 /100, with b0 dropped |
| Mercury236.VapCurrent | mercury/mercury236.py:37-43 | A_Ff is (b0 b2 b1 of group f) in base 16 /1000 |
| Mercury236.ReadFreq | mercury/mercury236.py:110-112 | (b0 b2 b1) in base 16 /100; IndexError exactly when the payload has fewer than three bytes |
| Mercury236.EnergyNameInjective | mercury/mercury236.py:66-67 | header plus suffix names are different strings for different keys |
| Mercury236.EnergyKeys | mercury/mercury236.py:66 | three headers for param 0x60, four otherwise |
| Mercury236.EnergyKeysMembers | mercury/mercury236.py:66-67 | a key is requested exactly when its header belongs to the array and its suffix is the tariff's |
| Mercury236.EnergyReport | mercury/mercury236.py:57-77 | exists exactly when the payload has 12 (param 0x60) or 16 bytes or more, else IndexError |
| Mercury236.ReadEnergy | mercury/mercury236.py:57-77 | the loop and the A- override give exactly the report function |
| Mercury236.EnergyReportKeys | mercury/mercury236.py:66-72 | the report has exactly the array's headers with the tariff's suffix |
| Mercury236.EnergyReportValue | mercury/mercury236.py:70-72 | every header but A- holds (b1 b0 b3 b2 of its group) in base 16 /1000 |
| Mercury236.EnergyReportAMinus | mercury/mercury236.py:74-75 | A- is always 0 whatever the meter sent; the per-phase array has no A- |
| Mercury236.ReadEnergySumActReact | mercury/mercury236.py:80-82 | read_energy of array 0x00, tariff sum, whatever param it is given |
| Mercury236.ReadEnergySumByPhases | mercury/mercury236.py:94-96 | read_energy of array 0x60, tariff sum, whatever param and tarif it is given |
| Mercury236.MergeTariffs | mercury/mercury236.py:85-91 | the loop over tariffs 1..4 merging each read gives exactly the merge function |
| Mercury236.Merged | mercury/mercury236.py:86-89 | the {**result, **r} merge of tariffs 1..n; its only error is IndexError. MergedSucceeds, MergedKeys, MergedValue and MergedKeySet state when it exists and what it holds |
| Mercury236.ReadEnergyTarifActReact | mercury/mercury236.py:85-91 | the four tariff reads of array 0x00 merged, whatever param it is given |
| Mercury236.ReadEnergyTarifByPhases | mercury/mercury236.py:99-105 | the four tariff reads of array 0x60 merged, whatever param and tarif it is given |
| Mercury236.MergedSucceeds | mercury/mercury236.py:85-91 | the merge succeeds exactly when every tariff payload is long enough, else IndexError |
| Mercury236.MergedKeys | mercury/mercury236.py:87-89 | the merged keys are the array's headers with suffixes _T1.._Tn |
| Mercury236.MergedValue | mercury/mercury236.py:87-89 | each merged value is the one its own tariff's read gave: no merge overwrites another tariff |
| Mercury236.TariffRowSize | mercury/mercury236.py:66-67 | each tariff adds as many keys as the array has headers |
| Mercury236.RowDisjoint | mercury/mercury236.py:85-91 | tariff m+1 shares no key with tariffs 1..m |
| Mercury236.RowsUpToSize | mercury/mercury236.py:85-91 | n tariffs give n times that many distinct keys |
| Mercury236.MergedKeySet | mercury/mercury236.py:85-105 | the four tariff key sets are disjoint: 16 keys for array 0x00, 12 for 0x60 |
| MeterScript.Run206 | mercury-em.py:47-55 | read_vap, read_freq and read_energy requested in that order, with the serial as the address; the report is the three decodings, and sent is a prefix of that plan, all of it on success |
| MeterScript.Report206Of | mercury-em.py:47-55 | a serial outside 32 bits raises struct.error; otherwise the report exists exactly when all three payloads decode |
| MeterScript.CommandFrame206 | mercury-em.py:52-55 | a 206 request packs exactly when the serial fits 32 bits, else struct.error |
| MeterScript.Plan206Frames | mercury-em.py:52-55 | the 206 requests carry the serial itself as their address, with no derivation |
| MeterScript.BusAddress | mercury-em.py:65-70 | the derived address is at most 240, so it fits the one-byte field |
| MeterScript.BusAddressDigits | mercury-em.py:65-70 | serial % 1000; 1 when that is 0; % 100 of it when it exceeds 240 |
| MeterScript.BusAddressZero | mercury-em.py:65-70 | the address is 0 exactly when the last three digits are 300, 400, ..., 900 |
| MeterScript.Credentials | mercury-em.py:76-78 | the level is 1 or 2 and the password is never empty, so open_channel always sends one; CredentialsMeaning states which |
| MeterScript.CredentialsMeaning | mercury-em.py:76-78 | level 2 for "admin", else 1; a missing or empty password becomes six digits of the level; a given one is kept |
| MeterScript.CredentialsPack | mercury-em.py:76-78 | the password packs exactly when it was missing or empty, or is all digits |
| MeterScript.Plan236 | mercury-em.py:80-92 | the 236 run makes seventeen requests |
| MeterScript.Plan236Session | mercury-em.py:80-92 | replaying the plan, every reading falls while the channel is open, and the channel ends closed |
| MeterScript.OpenChannelPacks | mercury-em.py:81 | open_channel's frame packs exactly when the password is all digits, else ValueError |
| MeterScript.Report236Of | mercury-em.py:58-92 | with no password, or an empty one, the default packs and the report is the session's; LoginReport gives the rest |
| MeterScript.LoginReport | mercury-em.py:80-92 | the report of a session opened with a given password: ValueError for a password that is not all digits; Login236 is the run proved to compute it |
| MeterScript.Plan236Frames | mercury-em.py:65-92 | every request of the 236 plan packs for the bus address derived from the serial: its first byte is that address and its second the command; open_channel only for an all-digit password |
| MeterScript.ReadSession | mercury-em.py:83-90 | the readings in order and the report built from them (the frequency added to info); sent is a prefix of the reading plan, all of it on success |
| MeterScript.SessionReport | mercury-em.py:83-90 | the report the readings build; ReadSession is the sequence of reads proved to compute it, and Report236Info states its info section |
| MeterScript.Login236 | mercury-em.py:80-92 | check_connect, open_channel, the readings, close_channel; a password that is not all digits stops the run after check_connect. The level is a byte, as bytes() requires for the frame |
| MeterScript.Run236 | mercury-em.py:58-92 | the bus address and credentials first, then the session; the report is Report236Of, sent is a prefix of the plan (all of it on success), and every request sent packs for BusAddress(serial) as its first byte |
| MeterScript.Report236Info | mercury-em.py:89-90 | the info section has the ten read_vap keys plus the frequency, which is read_freq's value |

## Left out

- Socket I/O is not modelled: `read_data_from_socket`, `sendall` and `connect` (mercury/mercury206.py:47-58, mercury/mercury236.py:141-152, mercury-em.py:40-41). An answer is a parameter.
- Argument parsing (mercury-em.py:16-30) and `output_text`/`output_json` are presentation only.
- minimalmodbus is not part of this model. The CRC is written from the Modbus standard, not from that library.
- Python float rounding of `/10`, `/100`, `/1000` and of `sum` is not modelled; values are exact reals. The A- override stores the integer 0 in the source and 0.0 here.
- The `None` payload that a failed gate returns, and the TypeError it causes later in the `read_*` functions, are not modelled. The decoders take the payload that was received.
- The doctests in mercury/mercury236.py at 177-184, 223-228 and 237-238 are copies from the four-byte driver that its own code does not satisfy, and the 236 codec follows the code. The error doctests at 185-192 still hold (Mercury236.PackMsgExampleErrors), except that the ValueError message says 1 byte where the doctest says 4.
- Utils.ParseInt: models `int(s, base)` only on strings of ASCII digits and letters. Signs, whitespace, underscores and non-ASCII digits are not modelled; upper_hex never produces them, and a password containing one is treated as invalid.
- Mercury236.ReadEnergy: takes `param` and `tarif` as bytes, since any other value raises in `bytes(args)` when the request is packed.
- Mercury236.Reading: written as arithmetic on the group's bytes; ReadingIsDigitize proves it equal to the source's `digitize(bytes([...]), 16)`.
- MeterScript.ReadSession: when a tariff merge or read_vap fails part way, `sent` lists all of that call's requests. Those after the failing one are never made by the source.
- MeterScript.Login236: the replies to check_connect, open_channel and close_channel are not read, since the source discards them.
- MeterScript.Run236: checks the password digits instead of packing the open_channel frame; OpenChannelPacks proves the two agree.
- MeterScript.Credentials: the program's defaults are six digits ("222222", "111111"). open_channel's own default "1111111" (mercury/mercury236.py:123) has seven and is never used by the program.
- MeterScript.BusAddress: a serial ending in 300, 400, ..., 900 gives bus address 0, which the source does not guard against. BusAddressZero states exactly when this happens.
