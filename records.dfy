/** What a decrypted frame means: the marker and checksum checks of
    Co2meter::ReadDataRaw, the big-endian payload, the two record codes, and
    the temperature scale. Also the feature report that carries the key. */
module Records {
  import opened Wrappers
  import opened Cipher
  import opened NumericText

  /** Record code of a CO2 frame (Co2meter::CODE_CO2). */
  const CodeCo2: bv8 := 0x50

  /** Record code of a temperature frame (Co2meter::CODE_TEMP). */
  const CodeTemp: bv8 := 0x42

  /** The fixed value of decrypted byte 4. */
  const Marker: bv8 := 0x0d

  /** Why a decrypted frame was rejected; each carries the decrypted bytes,
      as the two exception messages do. */
  datatype FrameError =
    | MarkerMismatch(marker: bv8, data: Frame)
    | ChecksumMismatch(checksum: bv8, sum: bv8, data: Frame)

  /** The byte dump both error messages carry: the decrypted bytes in
      hexadecimal, separated by single spaces, as join_numeric writes them. */
  function Dump(e: FrameError): string
  {
    Join(e.data, " ", Hex)
  }

  /** The dump names all eight decrypted bytes, in order, and loses none. */
  lemma DumpReadsBack(e: FrameError)
    ensures var parts := SplitOn(Dump(e), ' ');
      |parts| == 8 && forall k :: 0 <= k < 8 ==> ParseDigits(parts[k], 16) == e.data[k] as nat
  {
    assert " " == [' '];
    JoinReadsBack(e.data, ' ', Hex);
  }

  /** Three bytes added in an `unsigned char` accumulator that starts at 0:
      every addition wraps modulo 256. */
  function Sum3(a: bv8, b: bv8, c: bv8): bv8
  {
    a + b + c
  }

  /** The wrapped sum is the low byte of the true sum, which a 16-bit word
      holds without overflow. */
  lemma Sum3IsLowByte(a: bv8, b: bv8, c: bv8)
    ensures Sum3(a, b, c) as bv16 == (a as bv16 + b as bv16 + c as bv16) & 0xFF
  {
  }

  /** `std::reduce` over bytes 0..2. Byte addition is associative and
      commutative, so the order in which reduce combines them is immaterial. */
  function Checksum(d: Frame): bv8
  {
    Sum3(d[0], d[1], d[2])
  }

  /** The checksum is the sum of bytes 0..2 modulo 256. */
  lemma ChecksumIsLowByte(d: Frame)
    ensures Checksum(d) as bv16 == (d[0] as bv16 + d[1] as bv16 + d[2] as bv16) & 0xFF
  {
    Sum3IsLowByte(d[0], d[1], d[2]);
  }

  /** `decrypted[1] << 8 | decrypted[2]`: the big-endian 16-bit payload. */
  function Payload(d: Frame): (value: int)
    ensures 0 <= value < 0x1_0000
    ensures value == d[1] as int * 256 + d[2] as int
  {
    ((d[1] as bv16 << 8) | d[2] as bv16) as int
  }

  /** The checks of ReadDataRaw: the marker first, then the checksum; an
      accepted frame yields its record code. */
  function Validate(d: Frame): (r: Result<bv8, FrameError>)
    ensures r.Ok? <==> d[4] == Marker && d[3] == Checksum(d)
    ensures r.Ok? ==> r.value == d[0]
    ensures d[4] != Marker ==> r == Err(MarkerMismatch(d[4], d))
    ensures d[4] == Marker && d[3] != Checksum(d) ==> r == Err(ChecksumMismatch(d[3], Checksum(d), d))
  {
    if d[4] != Marker then Err(MarkerMismatch(d[4], d))
    else if d[3] != Checksum(d) then Err(ChecksumMismatch(d[3], Checksum(d), d))
    else Ok(d[0])
  }

  /** A wrong marker is reported as such whatever byte 3 holds: the marker is
      checked before the checksum. */
  lemma MarkerCheckedFirst(d: Frame, checksum: bv8)
    requires d[4] != Marker
    ensures Validate(d[3 := checksum]) == Err(MarkerMismatch(d[4], d[3 := checksum]))
  {
  }

  /** The checksum reads bytes 0..2 only. */
  lemma ChecksumIgnoresByte3(d: Frame, checksum: bv8)
    ensures Checksum(d[3 := checksum]) == Checksum(d)
  {
  }

  /** With the marker in place, exactly one value of byte 3 is accepted; every
      other value is a checksum error naming the byte and the true sum. */
  lemma ChecksumDecides(d: Frame, checksum: bv8)
    requires d[4] == Marker
    ensures Validate(d[3 := checksum]).Ok? <==> checksum == Checksum(d)
    ensures checksum != Checksum(d) ==>
      Validate(d[3 := checksum]) == Err(ChecksumMismatch(checksum, Checksum(d), d[3 := checksum]))
  {
    var e := d[3 := checksum];
    ChecksumIgnoresByte3(d, checksum);
    assert e[3] == checksum && e[4] == Marker;
  }

  /** `(double)value * 0.0625 - 273.15`, in exact rational arithmetic. */
  function Celsius(raw: int): (c: real)
    ensures (c + 273.15) * 16.0 == raw as real
  {
    raw as real * 0.0625 - 273.15
  }

  /** The temperature scale is strictly increasing, and a 16-bit payload
      covers -273.15 up to (not including) 3822.85 degrees. */
  lemma CelsiusOrder(a: int, b: int)
    requires a < b
    ensures Celsius(a) < Celsius(b)
  {
  }

  lemma CelsiusRange(raw: int)
    requires 0 <= raw < 0x1_0000
    ensures -273.15 <= Celsius(raw) < 3822.85
  {
  }

  /** The 9-byte feature report of SendKey: report id 0, then the key. */
  function KeyReport(): (report: seq<bv8>)
    ensures |report| == 9 && report[0] == 0 && report[1..] == Key
  {
    [0] + Key
  }

  /** The USB ids Open looks for. */
  const VendorId: int := 0x4d9
  const ProductId: int := 0xa052

  /** Why opening the device failed. */
  datatype OpenError =
    | DeviceNotFound(vendorId: int, productId: int)
    | KeyNotSent(response: int, sendSize: int)

  /** SendKey's check of hid_send_feature_report's return value: anything but
      the report's full length is a failure. */
  function SendKeyStatus(response: int): (r: Result<(), OpenError>)
    ensures r.Ok? <==> response == 9
    ensures r.Err? ==> r.error == KeyNotSent(response, 9)
  {
    if response != |KeyReport()| then Err(KeyNotSent(response, |KeyReport()|)) else Ok(())
  }

  /** Co2meter::Open: `found` says whether hid_open returned a device and
      `response` is what sending the key then returned. The key is only sent
      to a device that was found. */
  function OpenStatus(found: bool, response: int): (r: Result<(), OpenError>)
    ensures r.Ok? <==> found && response == 9
    ensures !found ==> r == Err(DeviceNotFound(0x4d9, 0xa052))
    ensures found && response != 9 ==> r == Err(KeyNotSent(response, 9))
  {
    if !found then Err(DeviceNotFound(VendorId, ProductId)) else SendKeyStatus(response)
  }

  /** The worked examples: a temperature frame of raw value 0x1234 with its
      checksum 0x88, and a CO2 frame of 1000 ppm. */
  lemma TemperatureExample()
    ensures Validate([0x42, 0x12, 0x34, 0x88, 0x0d, 0, 0, 0]) == Ok(CodeTemp)
    ensures Payload([0x42, 0x12, 0x34, 0x88, 0x0d, 0, 0, 0]) == 0x1234
    ensures Celsius(0x1234) == 18.1
  {
  }

  lemma Co2Example()
    ensures Validate([0x50, 0x03, 0xE8, 0x3B, 0x0d, 0, 0, 0]) == Ok(CodeCo2)
    ensures Payload([0x50, 0x03, 0xE8, 0x3B, 0x0d, 0, 0, 0]) == 1000
  {
  }
}
