/** Decoding of the temperature byte that the vendor drive command returns. */
module HitachiTemp {
  import opened Wrappers

  newtype byte = x: int | 0 <= x < 256

  /** The value every temperature reader returns for "no temperature". */
  const Unavailable: int := -128

  /** Lowest and highest temperature a valid byte can decode to. */
  const MinTemp: int := -19
  const MaxTemp: int := 107

  /** Byte 0x00 (underflow), 0xFF (overflow) and 0x01 (read not supported)
      carry no temperature; any other byte b means b / 2 - 20 degrees Celsius. */
  function DecodeTemperature(b: byte): (t: int)
    ensures t == Unavailable <==> b == 0x00 || b == 0xFF || b == 0x01
    ensures t != Unavailable ==> MinTemp <= t <= MaxTemp
    ensures t != Unavailable ==> 2 * (t + 20) <= b as int <= 2 * (t + 20) + 1
  {
    if b == 0x00 || b == 0xFF then Unavailable
    else if b == 0x01 then Unavailable
    else b as int / 2 - 20
  }

  /** The reading of one drive: None when the device cannot be opened or the
      ioctl fails, otherwise the byte the drive put in the response. */
  function ReadHitachiTemp(response: Option<byte>): (t: int)
    ensures t == Unavailable || MinTemp <= t <= MaxTemp
    ensures t != Unavailable <==> response.Some? && response.value !in {0x00, 0x01, 0xFF}
  {
    match response
    case None => Unavailable
    case Some(b) => DecodeTemperature(b)
  }

  /** Every temperature in the valid range is reported by some byte: the even
      byte 2 * (t + 20), and below the top of the range also the odd byte after
      it (at the top the odd byte is 0xFF, the overflow marker). */
  lemma DecodeOnto(t: int)
    requires MinTemp <= t <= MaxTemp
    ensures DecodeTemperature((2 * (t + 20)) as byte) == t
    ensures t < MaxTemp ==> DecodeTemperature((2 * (t + 20) + 1) as byte) == t
  {
  }

  /** A hotter reading never decodes to a lower temperature. */
  lemma DecodeMonotone(a: byte, b: byte)
    requires DecodeTemperature(a) != Unavailable && DecodeTemperature(b) != Unavailable
    requires a <= b
    ensures DecodeTemperature(a) <= DecodeTemperature(b)
  {
  }

  /** Concrete cases: 0x5A is 25 degrees, 0x02 the lowest and 0xFE the highest. */
  lemma DecodeExamples()
    ensures DecodeTemperature(0x5A) == 25
    ensures DecodeTemperature(0x02) == MinTemp
    ensures DecodeTemperature(0xFE) == MaxTemp
    ensures DecodeTemperature(0x01) == Unavailable
  {
  }
}
