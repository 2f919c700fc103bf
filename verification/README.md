# Air-conditioner infrared encoder

This project models the encoder of the home air-conditioner remote, found in
`python/infrared_remote/aircon_driver.py`. The encoder has three steps:

1. **Frame.** The settings are power, mode, temperature, fan speed and fan
   direction. They are spliced into a fixed 18-byte template. Each byte is a
   string of eight `'0'`/`'1'` characters in the order they are sent.
   `ConvertInfoToBits` does this splicing. Its field-by-field steps are the
   four `Encode*` methods.
2. **Checksum.** Byte 17 is the checksum of bytes 0 to 16, made by
   `ComputeChecksum`. The protocol reads a byte with its FIRST character as the
   least-significant bit. So every byte is reversed before it is summed, and
   the sum modulo 256 is reversed again when it is written back.
3. **Pulses.** `ConvertBitsToLength` turns every bit into an (On, Off) pair of
   pulse lengths: a fixed separator, then a short or a long gap. It returns the
   four segments (header, data, repeat spacer, trailer) and the order in which
   they are sent. Header and data go out `nRepeat + 1` times, with a spacer
   between repetitions, and one trailer ends the transmission.

The project has three files:

- `binary.dfy` (module `Binary`) models the Python built-ins the driver uses:
  `int(s, 2)`, `bin(n)[2:]`, `str.zfill` and `s[::-1]`. It also holds the
  least-significant-bit-first reading of a byte, with both round trips proved.
- `aircon_driver.dfy` (module `AirconDriver`) has the template, the checksum,
  the field encoders and the frame properties.
- `aircon_signal.dfy` (module `AirconSignal`) has the timing constants, the
  pulse translation and the send order.

The Python `n_repeat` is a module global. Here it is the parameter `nRepeat`
of `ConvertBitsToLength`. The timing constants are Dafny constants with the
source's values.

The model follows the code where the code and its comments disagree:

- The module comment says the temperature is least-significant bit first. The
  code writes `bin(t - 16)` most-significant bit first, and so does the model
  (`TemperatureDigits`).
- The comment gives `highest = 101`. The code writes `011`.
- The docstring lists the mode `'heater'`. The code tests `'heat'`, so
  `'heater'` falls back to the default `11`/`11`.
- A negative repeat count is not rejected. The loop never runs and the order is
  just `[3]` (`SendOrderShape`, `SendOrderExamples`).
- The zero-bit gap (420) is shorter than the bit separator (450). The model
  keeps the source's constants as they are.

## Model

| member | source | states |
|---|---|---|
| `Binary.Bin` | python/infrared_remote/aircon_driver.py:100 | `bin(n)[2:]` is a non-empty string of `'0'`/`'1'` |
| `Binary.Reverse` | python/infrared_remote/aircon_driver.py:92 | `s[::-1]` has the same length and holds, at position k, the character that s holds k places from its end |
| `Binary.ParseBin` | python/infrared_remote/aircon_driver.py:100 | `int(bin(n)[2:], 2) == n` |
| `Binary.ParseBinaryBound` | python/infrared_remote/aircon_driver.py:94 | a k-digit string reads as less than 2^k |
| `Binary.ZFillBin` | python/infrared_remote/aircon_driver.py:161 | for n < 2^w, `bin(n)[2:].zfill(w)` has exactly w characters, all bits, and reads back as n |
| `Binary.BitStringsEqual` | python/infrared_remote/aircon_driver.py:100-103 | two bit strings of equal length and equal value are the same string |
| `Binary.LsbByteRoundTrip` | python/infrared_remote/aircon_driver.py:97-103 | for n < 256 the written checksum string has 8 bits and reads back, least-significant bit first, as n |
| `Binary.LsbValueRoundTrip` | python/infrared_remote/aircon_driver.py:91-94 | an 8-character byte string has a value below 256 and is rebuilt exactly from that value |
| `Binary.MsbDigit` | python/infrared_remote/aircon_driver.py:161 | in `int(s, 2)`, character k of s is bit (length of s) − 1 − k of the value |
| `Binary.LsbDigit` | python/infrared_remote/aircon_driver.py:91-94 | in the reversed reading, character k of a byte is bit k of its value |
| `AirconDriver.ComputeChecksum` | python/infrared_remote/aircon_driver.py:76-103 | the result is 8 bits whose least-significant-first value is the sum of the bytes' values modulo 256 |
| `AirconDriver.TemplateFixedBytes` | python/infrared_remote/aircon_driver.py:48-67 | the twelve constant template bytes are 8-bit strings |
| `AirconDriver.EncodePower` | python/infrared_remote/aircon_driver.py:137-142 | byte 5 char 5 is `'1'` exactly for `"on"`, otherwise `'0'`; the rest of byte 5 and every other byte are unchanged |
| `AirconDriver.EncodeMode` | python/infrared_remote/aircon_driver.py:145-155 | heat gives `10`/`00`, dry `01`/`10`, anything else `11`/`11` in byte 6 [3..5] and byte 8 [1..3]; nothing else changes |
| `AirconDriver.EncodeTemperature` | python/infrared_remote/aircon_driver.py:158-163 | byte 7 [0..4] reads as t−16 for 15 < t < 32, else is `0110`; byte 7 [4..8] stays `0000`; nothing else changes |
| `AirconDriver.EncodeWind` | python/infrared_remote/aircon_driver.py:166-207 | byte 9 [0..2] and [3..6] follow the fan speed and direction tables, with `00`/`000` as defaults; characters 2, 6, 7 keep the template's |
| `AirconDriver.ConvertInfoToBits` | python/infrared_remote/aircon_driver.py:117-212 | 18 bytes of 8 bits, no placeholder left; bytes 0–4 and 10–16 are the template's; every field is encoded as above; byte 17 is the checksum of bytes 0–16 |
| `AirconDriver.ChecksumRecomputes` | python/infrared_remote/aircon_driver.py:209 | recomputing the checksum from bytes 0–16 of a produced frame gives byte 17 back |
| `AirconDriver.ChecksumDigits` | python/infrared_remote/aircon_driver.py:96-103 | checksum character k is bit k of the sum modulo 256 |
| `AirconDriver.TemperatureDigits` | python/infrared_remote/aircon_driver.py:158-163 | for 16..31, temperature character k is bit 3−k of t−16 (most-significant bit first) |
| `AirconDriver.TemperatureBoundaries` | python/infrared_remote/aircon_driver.py:158-163 | 16 gives `0000`, 31 gives `1111`, 15 and 32 give the fallback `0110` |
| `AirconDriver.FrameDeterminedBySettings` | python/infrared_remote/aircon_driver.py:134-212 | two frames that meet the encoder's contract for the same settings are equal, so encoding is deterministic |
| `AirconSignal.ConvertBitsToLength` | python/infrared_remote/aircon_driver.py:227-283 | segments are exactly `[header, data, repeat, trail]`; data is the pulse train of the joined bits; the order is `SendOrder(nRepeat)` |
| `AirconSignal.SendOrderShape` | python/infrared_remote/aircon_driver.py:262-280 | for R ≥ 0 the order has 3R+3 entries and starts with a header; every entry is a segment index; one trailer, at the end; for R < 0 the order is `[3]` |
| `AirconSignal.SendOrderCounts` | python/infrared_remote/aircon_driver.py:262-280 | header and data appear R+1 times, the spacer R times, the trailer once |
| `AirconSignal.SpacersBetweenRepetitions` | python/infrared_remote/aircon_driver.py:264-277 | a spacer always follows a data segment and precedes a header, so it is never first or last; a header is always followed by data |
| `AirconSignal.SendOrderExamples` | python/infrared_remote/aircon_driver.py:262-280 | R=0 gives `[0,1,3]`, R=1 gives `[0,1,2,0,1,3]`, R=−1 gives `[3]` |
| `AirconSignal.JoinBytes` | python/infrared_remote/aircon_driver.py:240 | joining 8-character bytes puts byte i, character j at 8i+j |
| `AirconSignal.FrameDataSegment` | python/infrared_remote/aircon_driver.py:240-256 | a frame's data segment has 288 lengths; bit j of byte i gives the separator at 2(8i+j) and its own gap at 2(8i+j)+1 |
| `AirconSignal.DecodeDataSegment` | python/infrared_remote/aircon_driver.py:244-256 | reading the gaps of a bit string's data segment gives back the bit string, so no bit is lost |

## Left out

- `send_signal` is not modelled. It drives the pigpio infrared interface (GPIO pin 21, a 38 kHz carrier, duty cycle 0.5, `clear_waves`, `make_wave`, `send_code`). That is hardware I/O through a library that is not part of this model. Its habit of calling `make_wave` twice per segment is left out with it.
- The module-level call `send_signal('on', 'heat', 25, 'auto', 'auto')` is an import-time I/O side effect and is not modelled.
- `python/rabbitmq_instructions/master_config/master_files.py` is not part of this model. It is argument parsing, help text and a message-queue client with no encoding logic.
- ComputeChecksum: its precondition asks for non-empty `'0'`/`'1'` strings, which is what the docstring promises its callers. On other strings Python's `int(..., 2)` raises `ValueError`, and that error path is not modelled. The model also ignores the whitespace, underscores and signs that `int` would accept.
- ConvertInfoToBits: the source's one function is split into four field methods (`EncodePower`, `EncodeMode`, `EncodeTemperature`, `EncodeWind`). Each one does the source's splices in the source's order. The Python list is modelled as a sequence value, which is what the deep copy of the template gives.
- ConvertInfoToBits: the temperature is an `int`. The dynamic typing of Python (a float temperature reaching `bin`) is not modelled.
