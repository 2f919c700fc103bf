/**
  The air-conditioner infrared encoder, first half: the settings (power, mode,
  temperature, fan speed, fan direction) become an 18-byte frame of '0'/'1'
  strings (ConvertInfoToBits), whose last byte is the checksum of the other
  seventeen (ComputeChecksum). IsFrameFor collects what the frame promises.
 */
module AirconDriver {
  import opened Binary

  /** The frame template; 'X' and 'Y' mark the characters the settings overwrite. */
  const BaseSignal: seq<seq<char>> := [
    "11000100",
    "11010011",
    "01100100",
    "10000000",
    "00000000",
    "00000X00",  // power
    "000XX000",  // mode
    "XXXX0000",  // temperature
    "0XX01100",  // mode, second copy
    "XX0YYY10",  // X: fan speed, Y: fan direction
    "00000000",
    "00000000",
    "00000000",
    "00000000",
    "00000000",
    "00000000",
    "00000000",
    "XXXXXXXX"   // checksum
  ]

  // ---------------------------------------------------------------------------
  // Checksum
  // ---------------------------------------------------------------------------

  /** Byte strings as compute_checksum accepts them: `int(b[::-1], 2)` fails on anything else. */
  predicate AreDataBytes(bytes: seq<seq<char>>)
  {
    forall i :: 0 <= i < |bytes| ==> |bytes[i]| > 0 && IsBitString(bytes[i])
  }

  /** The sum of the least-significant-bit-first values of the bytes. */
  function SumOfValues(bytes: seq<seq<char>>): nat
  {
    if bytes == [] then 0 else SumOfValues(bytes[..|bytes| - 1]) + LsbValue(bytes[|bytes| - 1])
  }

  /** The checksum byte: eight characters whose value, least-significant bit first, is the sum modulo 256. */
  method ComputeChecksum(allDataBytes: seq<seq<char>>) returns (checksum: seq<char>)
    requires AreDataBytes(allDataBytes)
    ensures |checksum| == 8 && IsBitString(checksum)
    ensures LsbValue(checksum) == SumOfValues(allDataBytes) % 256
  {
    var allBytesSum := 0;
    for i := 0 to |allDataBytes|
      invariant allBytesSum == SumOfValues(allDataBytes[..i])
    {
      var reverseByte := Reverse(allDataBytes[i]);
      allBytesSum := allBytesSum + ParseBinary(reverseByte);
      assert allDataBytes[..i + 1][..i] == allDataBytes[..i];
    }
    assert allDataBytes[..|allDataBytes|] == allDataBytes;
    allBytesSum := allBytesSum % 256;
    var digits := ZFill(Bin(allBytesSum), 8);
    checksum := Reverse(digits);
    LsbByteRoundTrip(allBytesSum);
  }

  // ---------------------------------------------------------------------------
  // The frame and its fields
  // ---------------------------------------------------------------------------

  /** Eight characters, each '0' or '1': no placeholder is left. */
  ghost predicate IsByte(b: seq<char>)
  {
    |b| == 8 && IsBitString(b)
  }

  ghost predicate WellFormed(frame: seq<seq<char>>)
  {
    |frame| == 18 && forall i :: 0 <= i < 18 ==> IsByte(frame[i])
  }

  /** Bytes 0 to 4 and 10 to 16 are the template's. */
  ghost predicate FixedBytesKept(frame: seq<seq<char>>)
    requires |frame| == 18
  {
    forall i :: 0 <= i < 5 || 10 <= i < 17 ==> frame[i] == BaseSignal[i]
  }

  /** Character 5 of byte 5 is '1' exactly when the power setting is "on"; the rest is the template's. */
  ghost predicate PowerByte(b5: seq<char>, isTurnedOn: string)
  {
    |b5| == 8
    && b5[5] == (if isTurnedOn == "on" then '1' else '0')
    && forall j :: 0 <= j < 8 && j != 5 ==> b5[j] == BaseSignal[5][j]
  }

  /** The mode is written twice, with two different tables, into byte 6 [3..5] and byte 8 [1..3]. */
  ghost predicate ModeBytes(b6: seq<char>, b8: seq<char>, mode: string)
  {
    |b6| == 8 && |b8| == 8
    && b6[3..5] == (if mode == "heat" then "10" else if mode == "dry" then "01" else "11")
    && b8[1..3] == (if mode == "heat" then "00" else if mode == "dry" then "10" else "11")
    && (forall j :: 0 <= j < 8 && !(3 <= j < 5) ==> b6[j] == BaseSignal[6][j])
    && (forall j :: 0 <= j < 8 && !(1 <= j < 3) ==> b8[j] == BaseSignal[8][j])
  }

  /** Byte 7 [0..4] reads, most-significant bit first, as temperature - 16 for 16..31, and is "0110" otherwise. */
  ghost predicate TemperatureByte(b7: seq<char>, temperature: int)
  {
    |b7| == 8
    && (if 15 < temperature < 32
        then ParseBinary(b7[..4]) == temperature - 16
        else b7[..4] == "0110")
    && b7[4..] == BaseSignal[7][4..]
  }

  /** The fan speed table; anything unknown counts as auto. */
  function WindSpeedCode(windSpeed: string): string
  {
    if windSpeed == "low" then "10"
    else if windSpeed == "middle" then "01"
    else if windSpeed == "high" then "11"
    else "00"
  }

  /** The fan direction table; anything unknown counts as auto. */
  function WindDirectionCode(windDirection: string): string
  {
    if windDirection == "lowest" then "100"
    else if windDirection == "low" then "010"
    else if windDirection == "middle" then "110"
    else if windDirection == "high" then "001"
    else if windDirection == "highest" then "011"
    else if windDirection == "loop" then "111"
    else "000"
  }

  /** Byte 9: fan speed in [0..2], fan direction in [3..6], the template's characters at 2, 6 and 7. */
  ghost predicate WindByte(b9: seq<char>, windSpeed: string, windDirection: string)
  {
    |b9| == 8
    && b9[..2] == WindSpeedCode(windSpeed)
    && b9[3..6] == WindDirectionCode(windDirection)
    && b9[2] == BaseSignal[9][2]
    && b9[6..] == BaseSignal[9][6..]
  }

  /** Byte 17 is the checksum of bytes 0 to 16. */
  ghost predicate ChecksumByte(frame: seq<seq<char>>)
    requires |frame| == 18
  {
    LsbValue(frame[17]) == SumOfValues(frame[..17]) % 256
  }

  /** Everything the encoder promises about the frame for one choice of settings. */
  ghost predicate IsFrameFor(frame: seq<seq<char>>, isTurnedOn: string, mode: string, temperature: int,
                             windSpeed: string, windDirection: string)
  {
    WellFormed(frame)
    && FixedBytesKept(frame)
    && PowerByte(frame[5], isTurnedOn)
    && ModeBytes(frame[6], frame[8], mode)
    && TemperatureByte(frame[7], temperature)
    && WindByte(frame[9], windSpeed, windDirection)
    && ChecksumByte(frame)
  }

  /** Overwriting b[lo..hi] with field changes those characters and no others. */
  lemma Splice(b: seq<char>, lo: nat, field: seq<char>, hi: nat)
    requires lo <= hi <= |b| && |field| == hi - lo
    ensures |b[..lo] + field + b[hi..]| == |b|
    ensures (b[..lo] + field + b[hi..])[lo..hi] == field
    ensures forall j :: 0 <= j < |b| && !(lo <= j < hi) ==> (b[..lo] + field + b[hi..])[j] == b[j]
    ensures IsBitString(b[..lo]) && IsBitString(field) && IsBitString(b[hi..]) ==>
              IsBitString(b[..lo] + field + b[hi..])
  {
    var r := b[..lo] + field + b[hi..];
    assert forall j :: 0 <= j < |r| ==> r[j] == (if j < lo then b[..lo][j] else if j < hi then field[j - lo] else b[hi..][j - hi]);
  }

  lemma TemplateFixedBytes()
    ensures forall i :: 0 <= i < 5 || 10 <= i < 17 ==> IsByte(BaseSignal[i])
  {
    assert IsByte(BaseSignal[0]);
    assert IsByte(BaseSignal[1]);
    assert IsByte(BaseSignal[2]);
    assert IsByte(BaseSignal[3]);
    assert IsByte(BaseSignal[4]);
    assert IsByte(BaseSignal[10]);
  }

  /** Lines up the power bit: byte 5, character 5. */
  method EncodePower(bytes: seq<seq<char>>, isTurnedOn: string) returns (r: seq<seq<char>>)
    requires |bytes| == 18 && bytes[5] == BaseSignal[5]
    ensures |r| == 18 && r == bytes[5 := r[5]]
    ensures IsByte(r[5]) && PowerByte(r[5], isTurnedOn)
  {
    var value := "0";
    if isTurnedOn == "on" {
      value := "1";
    }
    Splice(bytes[5], 5, value, 6);
    r := bytes[5 := bytes[5][..5] + value + bytes[5][6..]];
  }

  /** Writes the mode into its two places, byte 6 [3..5] and byte 8 [1..3]. */
  method EncodeMode(bytes: seq<seq<char>>, mode: string) returns (r: seq<seq<char>>)
    requires |bytes| == 18 && bytes[6] == BaseSignal[6] && bytes[8] == BaseSignal[8]
    ensures |r| == 18 && r == bytes[6 := r[6]][8 := r[8]]
    ensures IsByte(r[6]) && IsByte(r[8]) && ModeBytes(r[6], r[8], mode)
  {
    var value := ["11", "11"];
    if mode == "heat" {
      value := ["10", "00"];
    } else if mode == "dry" {
      value := ["01", "10"];
    }
    Splice(bytes[6], 3, value[0], 5);
    Splice(bytes[8], 1, value[1], 3);
    r := bytes[6 := bytes[6][..3] + value[0] + bytes[6][5..]];
    r := r[8 := r[8][..1] + value[1] + r[8][3..]];
  }

  /** Writes the temperature field, byte 7 [0..4]. */
  method EncodeTemperature(bytes: seq<seq<char>>, temperature: int) returns (r: seq<seq<char>>)
    requires |bytes| == 18 && bytes[7] == BaseSignal[7]
    ensures |r| == 18 && r == bytes[7 := r[7]]
    ensures IsByte(r[7]) && TemperatureByte(r[7], temperature)
  {
    var value := "0110";
    if 15 < temperature < 32 {
      assert Pow2(4) == 16;
      ZFillBin(temperature - 16, 4);
      value := ZFill(Bin(temperature - 16), 4);
    }
    TemperatureSplice(value, temperature);
    r := bytes[7 := value + bytes[7][4..]];
  }

  lemma TemperatureSplice(value: seq<char>, temperature: int)
    requires |value| == 4 && IsBitString(value)
    requires if 15 < temperature < 32 then ParseBinary(value) == temperature - 16 else value == "0110"
    ensures IsByte(value + BaseSignal[7][4..]) && TemperatureByte(value + BaseSignal[7][4..], temperature)
  {
    var b7 := value + BaseSignal[7][4..];
    assert b7[..4] == value && b7[4..] == BaseSignal[7][4..];
    assert IsBitString(BaseSignal[7][4..]);
    Splice(BaseSignal[7], 0, value, 4);
    assert BaseSignal[7][..0] + value + BaseSignal[7][4..] == b7;
  }

  /** Writes fan speed, byte 9 [0..2], then fan direction, byte 9 [3..6]. */
  method EncodeWind(bytes: seq<seq<char>>, windSpeed: string, windDirection: string)
    returns (r: seq<seq<char>>)
    requires |bytes| == 18 && bytes[9] == BaseSignal[9]
    ensures |r| == 18 && r == bytes[9 := r[9]]
    ensures IsByte(r[9]) && WindByte(r[9], windSpeed, windDirection)
  {
    var value := "00";
    if windSpeed == "low" {
      value := "10";
    } else if windSpeed == "middle" {
      value := "01";
    } else if windSpeed == "high" {
      value := "11";
    }
    assert value == WindSpeedCode(windSpeed);
    r := bytes[9 := value + bytes[9][2..]];

    var direction := "000";
    if windDirection == "lowest" {
      direction := "100";
    } else if windDirection == "low" {
      direction := "010";
    } else if windDirection == "middle" {
      direction := "110";
    } else if windDirection == "high" {
      direction := "001";
    } else if windDirection == "highest" {
      direction := "011";
    } else if windDirection == "loop" {
      direction := "111";
    }
    assert direction == WindDirectionCode(windDirection);
    r := r[9 := r[9][..3] + direction + r[9][6..]];
    WindSplice(windSpeed, windDirection);
  }

  /** The two splices into byte 9, one after the other, leave a full byte with both fields in place. */
  lemma WindSplice(windSpeed: string, windDirection: string)
    ensures var b := WindSpeedCode(windSpeed) + BaseSignal[9][2..];
            var b' := b[..3] + WindDirectionCode(windDirection) + b[6..];
            IsByte(b') && WindByte(b', windSpeed, windDirection)
  {
    var speed, direction := WindSpeedCode(windSpeed), WindDirectionCode(windDirection);
    var b := speed + BaseSignal[9][2..];
    assert b[..3] == speed + "0" && b[6..] == "10";
    var b' := b[..3] + direction + b[6..];
    assert b' == speed + "0" + direction + "10";
    assert b'[..2] == speed && b'[3..6] == direction && b'[2] == '0' && b'[6..] == "10";
    assert IsBitString(speed) && IsBitString(direction);
    assert forall k :: 0 <= k < 8 ==> b'[k] == (if k < 2 then speed[k] else if k == 2 then '0'
                                                else if k < 6 then direction[k - 3] else "10"[k - 6]);
  }

  /** Builds the frame: a copy of the template, the five settings spliced in, the checksum last. */
  method ConvertInfoToBits(isTurnedOn: string, mode: string, temperature: int,
                           windSpeed: string, windDirection: string)
    returns (finalBytes: seq<seq<char>>)
    ensures WellFormed(finalBytes)
    ensures FixedBytesKept(finalBytes)
    ensures PowerByte(finalBytes[5], isTurnedOn)
    ensures ModeBytes(finalBytes[6], finalBytes[8], mode)
    ensures TemperatureByte(finalBytes[7], temperature)
    ensures WindByte(finalBytes[9], windSpeed, windDirection)
    ensures ChecksumByte(finalBytes)
  {
    var powered := EncodePower(BaseSignal, isTurnedOn);
    var moded := EncodeMode(powered, mode);
    var tempered := EncodeTemperature(moded, temperature);
    var winded := EncodeWind(tempered, windSpeed, windDirection);
    SplicesKeepTemplate(powered, moded, tempered, winded);

    var dataBytes := winded[..17];
    DataBytesOfFrame(winded);
    var checksum := ComputeChecksum(dataBytes);
    finalBytes := winded[17 := checksum];
    assert finalBytes[..17] == dataBytes;
  }

  /** The four field splices, one after the other: each field byte is the one its splice wrote, the rest is the template. */
  lemma SplicesKeepTemplate(powered: seq<seq<char>>, moded: seq<seq<char>>, tempered: seq<seq<char>>,
                            winded: seq<seq<char>>)
    requires |powered| == 18 && powered == BaseSignal[5 := powered[5]]
    requires |moded| == 18 && moded == powered[6 := moded[6]][8 := moded[8]]
    requires |tempered| == 18 && tempered == moded[7 := tempered[7]]
    requires |winded| == 18 && winded == tempered[9 := winded[9]]
    ensures FixedBytesKept(winded) && winded[17] == BaseSignal[17]
    ensures winded[5] == powered[5] && winded[6] == moded[6] && winded[8] == moded[8] && winded[7] == tempered[7]
  {
  }

  /** Bytes 0 to 16 of a frame whose field bytes are full bytes are what compute_checksum accepts. */
  lemma DataBytesOfFrame(frame: seq<seq<char>>)
    requires |frame| == 18 && FixedBytesKept(frame)
    requires forall i :: 5 <= i < 10 ==> IsByte(frame[i])
    ensures AreDataBytes(frame[..17])
    ensures forall i :: 0 <= i < 17 ==> IsByte(frame[i])
  {
    TemplateFixedBytes();
    forall i | 0 <= i < 17
      ensures IsByte(frame[i])
    {
      if i < 5 || 10 <= i {
        assert frame[i] == BaseSignal[i];
      }
    }
  }

  // ---------------------------------------------------------------------------
  // What the frame promises
  // ---------------------------------------------------------------------------

  /** Re-deriving the checksum from bytes 0 to 16, as compute_checksum does, gives back byte 17. */
  lemma ChecksumRecomputes(frame: seq<seq<char>>)
    requires WellFormed(frame) && ChecksumByte(frame)
    ensures frame[17] == LsbByte(SumOfValues(frame[..17]) % 256)
  {
    assert IsByte(frame[17]);
    LsbValueRoundTrip(frame[17]);
  }

  /** Checksum character k is bit k of the sum modulo 256: the first character is the least-significant bit. */
  lemma ChecksumDigits(frame: seq<seq<char>>)
    requires WellFormed(frame) && ChecksumByte(frame)
    ensures forall k :: 0 <= k < 8 ==> DigitValue(frame[17][k]) == BitOf(SumOfValues(frame[..17]) % 256, k)
  {
    assert IsByte(frame[17]);
    forall k | 0 <= k < 8
      ensures DigitValue(frame[17][k]) == BitOf(SumOfValues(frame[..17]) % 256, k)
    {
      LsbDigit(frame[17], k);
    }
  }

  /** The temperature field is written most-significant bit first: character k is bit 3 - k of temperature - 16. */
  lemma TemperatureDigits(b7: seq<char>, temperature: int)
    requires IsByte(b7) && TemperatureByte(b7, temperature)
    requires 15 < temperature < 32
    ensures forall k :: 0 <= k < 4 ==> DigitValue(b7[k]) == BitOf(temperature - 16, 3 - k)
  {
    var field := b7[..4];
    assert IsBitString(field);
    forall k | 0 <= k < 4
      ensures DigitValue(b7[k]) == BitOf(temperature - 16, 3 - k)
    {
      MsbDigit(field, k);
      assert field[k] == b7[k];
    }
  }

  /** The boundaries of the temperature range and the fallback just outside it. */
  lemma TemperatureBoundaries(b7: seq<char>, temperature: int)
    requires IsByte(b7) && TemperatureByte(b7, temperature)
    ensures temperature == 16 ==> b7[..4] == "0000"
    ensures temperature == 31 ==> b7[..4] == "1111"
    ensures temperature == 15 || temperature == 32 ==> b7[..4] == "0110"
  {
    var field := b7[..4];
    assert IsBitString(field);
    if temperature == 16 {
      assert "0000"[..3] == "000" && "000"[..2] == "00" && "00"[..1] == "0" && "0"[..0] == [];
      assert ParseBinary("0000") == 0;
      BitStringsEqual(field, "0000");
    } else if temperature == 31 {
      assert "1111"[..3] == "111" && "111"[..2] == "11" && "11"[..1] == "1" && "1"[..0] == [];
      assert ParseBinary("1111") == 15;
      BitStringsEqual(field, "1111");
    }
  }

  /** Two byte strings that agree at every position are equal. */
  lemma SameByte(a: seq<char>, b: seq<char>)
    requires |a| == 8 && |b| == 8
    requires forall j :: 0 <= j < 8 ==> a[j] == b[j]
    ensures a == b
  {
  }

  lemma SamePowerByte(a: seq<char>, b: seq<char>, isTurnedOn: string)
    requires PowerByte(a, isTurnedOn) && PowerByte(b, isTurnedOn)
    ensures a == b
  {
    SameByte(a, b);
  }

  lemma SameModeBytes(a6: seq<char>, a8: seq<char>, b6: seq<char>, b8: seq<char>, mode: string)
    requires ModeBytes(a6, a8, mode) && ModeBytes(b6, b8, mode)
    ensures a6 == b6 && a8 == b8
  {
    forall j | 3 <= j < 5
      ensures a6[j] == b6[j]
    {
      assert a6[j] == a6[3..5][j - 3] && b6[j] == b6[3..5][j - 3];
    }
    SameByte(a6, b6);
    forall j | 1 <= j < 3
      ensures a8[j] == b8[j]
    {
      assert a8[j] == a8[1..3][j - 1] && b8[j] == b8[1..3][j - 1];
    }
    SameByte(a8, b8);
  }

  lemma SameTemperatureByte(a: seq<char>, b: seq<char>, temperature: int)
    requires IsByte(a) && IsByte(b)
    requires TemperatureByte(a, temperature) && TemperatureByte(b, temperature)
    ensures a == b
  {
    assert a[..4] == b[..4] by {
      if 15 < temperature < 32 {
        assert IsBitString(a[..4]) && IsBitString(b[..4]);
        BitStringsEqual(a[..4], b[..4]);
      }
    }
    assert a == a[..4] + a[4..] && b == b[..4] + b[4..];
  }

  lemma SameWindByte(a: seq<char>, b: seq<char>, windSpeed: string, windDirection: string)
    requires WindByte(a, windSpeed, windDirection) && WindByte(b, windSpeed, windDirection)
    ensures a == b
  {
    assert a == a[..2] + [a[2]] + a[3..6] + a[6..];
    assert b == b[..2] + [b[2]] + b[3..6] + b[6..];
  }

  lemma SameDataBytes(f: seq<seq<char>>, g: seq<seq<char>>)
    requires |f| == 18 && |g| == 18 && FixedBytesKept(f) && FixedBytesKept(g)
    requires f[5] == g[5] && f[6] == g[6] && f[7] == g[7] && f[8] == g[8] && f[9] == g[9]
    ensures f[..17] == g[..17]
  {
    forall i | 0 <= i < 17
      ensures f[i] == g[i]
    {
      if i < 5 || 10 <= i {
        assert f[i] == BaseSignal[i] == g[i];
      }
    }
  }

  lemma SameFrame(f: seq<seq<char>>, g: seq<seq<char>>)
    requires |f| == 18 && |g| == 18 && f[..17] == g[..17] && f[17] == g[17]
    ensures f == g
  {
    assert f == f[..17] + [f[17]] && g == g[..17] + [g[17]];
  }

  lemma SameFieldBytes(f: seq<seq<char>>, g: seq<seq<char>>, isTurnedOn: string, mode: string,
                       temperature: int, windSpeed: string, windDirection: string)
    requires IsFrameFor(f, isTurnedOn, mode, temperature, windSpeed, windDirection)
    requires IsFrameFor(g, isTurnedOn, mode, temperature, windSpeed, windDirection)
    ensures f[5] == g[5] && f[6] == g[6] && f[7] == g[7] && f[8] == g[8] && f[9] == g[9]
  {
    SamePowerByte(f[5], g[5], isTurnedOn);
    SameModeBytes(f[6], f[8], g[6], g[8], mode);
    SameTemperatureByte(f[7], g[7], temperature);
    SameWindByte(f[9], g[9], windSpeed, windDirection);
  }

  /** The settings fix the frame completely: encoding the same settings twice gives the same 18 bytes. */
  lemma FrameDeterminedBySettings(f: seq<seq<char>>, g: seq<seq<char>>, isTurnedOn: string, mode: string,
                                  temperature: int, windSpeed: string, windDirection: string)
    requires IsFrameFor(f, isTurnedOn, mode, temperature, windSpeed, windDirection)
    requires IsFrameFor(g, isTurnedOn, mode, temperature, windSpeed, windDirection)
    ensures f == g
  {
    SameFieldBytes(f, g, isTurnedOn, mode, temperature, windSpeed, windDirection);
    SameDataBytes(f, g);
    ChecksumRecomputes(f);
    ChecksumRecomputes(g);
    SameFrame(f, g);
  }
}
