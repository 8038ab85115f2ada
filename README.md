# Zephyr HxM reading decoder and device selection, in Dafny

This project models two pieces of the hxmDemo Android activity, which reads
telemetry from a Zephyr HxM Bluetooth heart-rate monitor:

- the `HrmReading(byte[])` constructor. It turns one 60-byte HxM message into
  a reading: start byte, message id, data length, firmware/hardware ids and
  versions, battery charge, heart rate, heart beat number, fifteen beat
  timestamps, reserved words, distance, speed, strides, crc and the end byte;
- `getFirstConnectedHxm()`. It picks the first bonded Bluetooth device whose
  name starts with `"HXM"` and remembers its name and address.

Files:

- `java_int.dfy` (module `JavaInt`): Java's signed `byte`, and the 32-bit
  `int` operations the decoder uses: `&`, `|` and `<<`. They are defined on
  two's complement bit patterns. Bitwise and/or are recursive functions on
  naturals. Lemmas reduce them to arithmetic: masking with `0xFF` is `mod 256`,
  and or-ing bits that do not overlap is addition.
- `hrm_reading.dfy` (module `HxmFrame`): the protocol constants, the reading
  record, the decoder and an encoder used as its partner. `Decode` follows the
  Java cursor. It reads field after field, each read advancing `bufferIndex`.
  The segment methods `ReadHeader` … `ReadTrailer` group those steps in source
  order. The Java `try`/`catch` around the walk is a labelled block: the first
  read past the end of the buffer leaves it. `Decode` is proved equal to
  `Decoded`, which says where each field sits in the buffer. The lemmas are
  about `Decoded`: round trips with `Encode`, short buffers (`DecodePrefix`),
  and trailing bytes.
- `device_selection.dfy` (module `DeviceSelection`): the bonded devices as a
  sequence in enumeration order; `FirstHxm`, the reference definition of the
  choice; and class `HxmLocator`, which holds the activity fields `mHxMName`
  and `mHxMAddress` (null is `None`). Its method `GetFirstConnectedHxm` is the
  source's loop, with `break`.

Behaviour modelled as the code has it:

- The reading is a datatype, not a class. The Java object only gets its fields
  assigned in its constructor and is never changed afterwards.
- Java's default field value 0 is `Unset`. It is what a short buffer leaves in
  every field it does not reach.
- Everything is read by the cursor, so the layout is 60 bytes. `distance` is
  read as two bytes, at offsets 50-51 (hxmDemo.java:510). The end byte `etx`
  is byte 59 and is read without advancing the cursor (516), so the logged
  count of consumed bytes is 59 for a complete message.
- On a short buffer of `n < 59` bytes, the failing read has already advanced
  the cursor. The count logged is then `n + 1`, and `Decode` returns that.
- A 16-bit field straddling the end is not assigned: its low byte was read,
  but the assignment never happens.
- A wrong `etx` is only flagged (`wellFormed`); the reading is still returned.
- The bonded devices are visited in the order the adapter's `Set` enumerates
  them; the model takes that enumeration as a sequence.
- The datatype `HrmReading` has one field per field of the Java class
  (hxmDemo.java:439-474) except `serial`, in declaration order. `byte` fields
  stay signed; `int` and `long` fields become unbounded `int`. `Unset` is the
  object before any assignment.

## Model

| member | source | states |
|---|---|---|
| JavaInt.And | hxmDemo/src/com/pyebrook/hxmDemo/hxmDemo.java:485-491 | Java's int `&`: the result is again an int, and a non-negative mask bounds it (`m & v` lies in 0..m) |
| JavaInt.Or | hxmDemo/src/com/pyebrook/hxmDemo/hxmDemo.java:485-488 | Java's int `\|`: the result is again an int, and 0 is its identity on either side |
| JavaInt.ShiftLeft | hxmDemo/src/com/pyebrook/hxmDemo/hxmDemo.java:485-488 | Java's int `<<`: the result wraps to 32-bit two's complement, and only the low five bits of the distance count, so a shift by a multiple of 32 changes nothing |
| JavaInt.BitAndLowMask | hxmDemo/src/com/pyebrook/hxmDemo/hxmDemo.java:485 | and-ing a bit pattern with 2^k - 1 keeps exactly its low k bits (the pattern mod 2^k) |
| JavaInt.AndLowByte | hxmDemo/src/com/pyebrook/hxmDemo/hxmDemo.java:489-491 | for every Java int v, negative ones included, `0xFF & v` is v mod 256 |
| JavaInt.ShiftLeftByte | hxmDemo/src/com/pyebrook/hxmDemo/hxmDemo.java:485-488 | shifting a value below 256 left by 8 in 32-bit Java arithmetic multiplies it by 256; no bit reaches the sign |
| JavaInt.OrLowByte | hxmDemo/src/com/pyebrook/hxmDemo/hxmDemo.java:485-488 | or-ing a value in 0..255 with 256 times a value in 0..255 equals their sum, because the bits do not overlap |
| HxmFrame.MaskByte | hxmDemo/src/com/pyebrook/hxmDemo/hxmDemo.java:489-491 | `0xFF & b` on a sign-extended byte always lies in 0..255 |
| HxmFrame.CombineLe16 | hxmDemo/src/com/pyebrook/hxmDemo/hxmDemo.java:485-514 | the combine `(0xFF & lo) \| ((0xFF & hi) << 8)` used for every 16-bit field equals masked low + 256 * masked high, in 0..65535: the two operands share no bit |
| HxmFrame.MaskByteValue | hxmDemo/src/com/pyebrook/hxmDemo/hxmDemo.java:489-491 | widening a signed byte to int and masking it with 0xFF gives the byte's unsigned value; a byte of 0x80 or more is not sign-extended |
| HxmFrame.CombineLe16Value | hxmDemo/src/com/pyebrook/hxmDemo/hxmDemo.java:485-488 | the two-byte combine equals unsigned(low) + 256 * unsigned(high), with the earlier byte low, and lies in 0..65535 |
| HxmFrame.CombineExamples | hxmDemo/src/com/pyebrook/hxmDemo/hxmDemo.java:485 | bytes 0x34,0x12 combine to 0x1234; 0xFF,0x00 to 0x00FF; 0x00,0x80 to 0x8000; 0xFF,0xFF to 0xFFFF |
| HxmFrame.ReadByte | hxmDemo/src/com/pyebrook/hxmDemo/hxmDemo.java:482 | one cursor read: it succeeds iff the index is inside the buffer, returns that byte, and advances the cursor by one in either case |
| HxmFrame.ReadMasked | hxmDemo/src/com/pyebrook/hxmDemo/hxmDemo.java:489 | a masked read returns the unsigned value of the byte at the cursor, succeeds iff the byte exists, and advances by one |
| HxmFrame.ReadLe16 | hxmDemo/src/com/pyebrook/hxmDemo/hxmDemo.java:485 | a 16-bit read succeeds iff both bytes exist and returns unsigned(b[k]) + 256*unsigned(b[k+1]); the cursor advances by 2, or by 1 when the low byte is already missing |
| HxmFrame.ReadHeader | hxmDemo/src/com/pyebrook/hxmDemo/hxmDemo.java:482-484 | stx, msgId and dlc become bytes 0, 1, 2 copied verbatim, or stay 0 when missing; the cursor ends at 3, or at n+1 on failure |
| HxmFrame.ReadDeviceIds | hxmDemo/src/com/pyebrook/hxmDemo/hxmDemo.java:485-488 | the firmware/hardware ids and versions become the 16-bit little-endian values at offsets 3, 5, 7, 9, or stay 0 when their high byte is missing |
| HxmFrame.ReadStatus | hxmDemo/src/com/pyebrook/hxmDemo/hxmDemo.java:489-491 | battery, heart rate and heart beat number become the unsigned values of bytes 11, 12, 13, or stay 0 |
| HxmFrame.ReadBeatTimes | hxmDemo/src/com/pyebrook/hxmDemo/hxmDemo.java:492-506 | hbTime1..hbTime15 become the 16-bit little-endian values at offsets 14, 16, ..., 42, or stay 0 from the first one that does not fit |
| HxmFrame.ReadMotion | hxmDemo/src/com/pyebrook/hxmDemo/hxmDemo.java:507-511 | reserved1..3, distance and speed become the 16-bit values at offsets 44, 46, 48, 50, 52; distance is two bytes |
| HxmFrame.ReadTrailer | hxmDemo/src/com/pyebrook/hxmDemo/hxmDemo.java:512-516 | strides, reserved4 are bytes 54, 55; reserved5 is the 16-bit value at 56; crc and etx are bytes 58, 59; etx does not advance the cursor, which ends at 59 |
| HxmFrame.Decode | hxmDemo/src/com/pyebrook/hxmDemo/hxmDemo.java:476-542 | never fails; the reading equals the offset-based decode of the buffer; the consumed count is n+1 for n < 59 and 59 otherwise; complete iff n >= 60; well-formed iff n >= 60 and byte 59 is ETX (0x03) |
| HxmFrame.Decoded | hxmDemo/src/com/pyebrook/hxmDemo/hxmDemo.java:481-524 | every decoded 16-bit field is in 0..65535 and every masked byte field in 0..255; a buffer shorter than 60 bytes leaves etx at 0 |
| HxmFrame.DecodeEncode | hxmDemo/src/com/pyebrook/hxmDemo/hxmDemo.java:482-516 | a reading whose fields are in range, written as 60 bytes with 16-bit values low byte first, decodes back to itself |
| HxmFrame.EncodeDecode | hxmDemo/src/com/pyebrook/hxmDemo/hxmDemo.java:482-516 | re-encoding what a buffer of at least 60 bytes decodes to gives back its first 60 bytes, so the layout uses every byte 0..59 exactly once |
| HxmFrame.DecodePrefix | hxmDemo/src/com/pyebrook/hxmDemo/hxmDemo.java:481-524 | decoding the first n bytes of a buffer keeps exactly the fields whose last byte index is below n; the straddling field and all later ones are 0 |
| HxmFrame.TrailingBytesIgnored | hxmDemo/src/com/pyebrook/hxmDemo/hxmDemo.java:482-516 | bytes appended after the first 60 do not change the reading |
| HxmFrame.WellFormedDecoded | hxmDemo/src/com/pyebrook/hxmDemo/hxmDemo.java:535-536 | the end-byte test `etx != ETX` (the predicate `WellFormed`) passes on a decoded reading iff the buffer has at least 60 bytes and byte 59 is 0x03; a short buffer always fails it |
| HxmFrame.UnsetIsDefault | hxmDemo/src/com/pyebrook/hxmDemo/hxmDemo.java:439-474 | `Unset`, every field at Java's default 0, is what the empty buffer decodes to and what a reading cut to no bytes becomes; it is in range and fails the end-byte test |
| DeviceSelection.StartsWith | hxmDemo/src/com/pyebrook/hxmDemo/hxmDemo.java:152 | Java `startsWith`: true iff the name is the prefix followed by some rest, compared character by character (so case-sensitive) |
| DeviceSelection.FirstHxm | hxmDemo/src/com/pyebrook/hxmDemo/hxmDemo.java:149-163 | the chosen index names a device whose name starts with "HXM" and no earlier device's does; there is no choice iff no device's name starts with "HXM" |
| DeviceSelection.FirstHxmAppend | hxmDemo/src/com/pyebrook/hxmDemo/hxmDemo.java:150-161 | once a match exists, devices enumerated after it never change the choice (the loop breaks) |
| DeviceSelection.FirstHxmSkip | hxmDemo/src/com/pyebrook/hxmDemo/hxmDemo.java:150-161 | devices without the prefix, enumerated first, only shift the chosen index by their number |
| DeviceSelection.SelectionExamples | hxmDemo/src/com/pyebrook/hxmDemo/hxmDemo.java:152 | no devices: no choice; "HXM-123" is chosen before or after "OtherDevice"; "hxm-7" and "HX" do not match (case-sensitive prefix) |
| DeviceSelection.HxmLocator.constructor | hxmDemo/src/com/pyebrook/hxmDemo/hxmDemo.java:71-72 | the remembered name and address start out null |
| DeviceSelection.HxmLocator.GetFirstConnectedHxm | hxmDemo/src/com/pyebrook/hxmDemo/hxmDemo.java:124-169 | returns true iff some bonded device's name starts with "HXM"; then name and address are both those of the first such device; otherwise both are null, whatever an earlier call found |

## Left out

- Android activity lifecycle, options menu and activity results (hxmDemo.java:177-322, 373-415): user-interface plumbing.
- The `Handler` message dispatch and the status texts (hxmDemo.java:329-371): Android message passing and rendering.
- `displayRaw()`, the `display` overloads and `dump()` (hxmDemo.java:548-680), and every `Log` call: output only, treated as no-ops.
- `HxmService` (connect, read loop, start/stop, state constants) and `connectToHxm()` (hxmDemo.java:91-114): Bluetooth sockets and a background thread. The service's source is not part of this model.
- `WelcomeMessage.java`: it only loads an HTML page into a view.
- CRC validation, and checks of STX, MSGID and DLC: the code declares these constants but never compares them. Only ETX is compared, and a mismatch is only logged.
- The adapter lookup (`BluetoothAdapter.getDefaultAdapter()`, `getBondedDevices()`) is a parameter: the bonded devices in enumeration order. The order itself is up to the platform.
- Null device names, on which `startsWith` would throw uncaught, and a null `buffer`, whose NullPointerException the decoder's handler would swallow: names and buffers are plain values here.
- The `serial` field of HrmReading: it is never assigned and stays 0.
- The Java `int`-to-`long` casts are not modelled separately. The fields are unbounded integers, and every value the decoder produces fits both types.
