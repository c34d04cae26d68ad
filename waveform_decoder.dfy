/** `decode_waveform`: a base 64 blob of signed 16-bit little-endian samples,
    scaled by a calibration factor into microvolts. */
module WaveformDecoder {
  import opened Results
  import Base64

  type Byte = Base64.Byte

  /** `struct`'s `<h`: two bytes, low byte first, read as a two's-complement
      16-bit integer. The result is the unique value in the int16 range that is
      congruent to the unsigned reading modulo 65536. */
  function Int16LE(lo: Byte, hi: Byte): (v: int)
    ensures -32768 <= v <= 32767
    ensures (v + 65536) % 65536 == lo + 256 * hi
  {
    var u := lo + 256 * hi;
    if u >= 32768 then u - 65536 else u
  }

  /** `struct.unpack('<' + 'h' * n, data[:2 * n])` with `n = len(data) // 2`:
      one sample per whole pair of bytes; a trailing odd byte is ignored. */
  function UnpackInt16LE(data: seq<Byte>): (samples: seq<int>)
    ensures |samples| == |data| / 2
    ensures forall k :: 0 <= k < |samples| ==> samples[k] == Int16LE(data[2 * k], data[2 * k + 1])
    decreases |data|
  {
    if |data| < 2 then [] else [Int16LE(data[0], data[1])] + UnpackInt16LE(data[2..])
  }

  /** One raw sample times the calibration factor. */
  function Calibrate(raw: int, scale: real): real {
    raw as real * scale
  }

  /** `np.array(samples) * scale`, over exact reals. */
  function Scale(samples: seq<int>, scale: real): (r: seq<real>)
    ensures |r| == |samples|
    ensures forall k :: 0 <= k < |r| ==> r[k] == Calibrate(samples[k], scale)
  {
    seq(|samples|, k requires 0 <= k < |samples| => Calibrate(samples[k], scale))
  }

  /** `decode_waveform(b64_data, scale)`. The source returns an error string
      in place of the samples when decoding raises; here that is `Err`. */
  function DecodeWaveform(b64: string, scale: real): (r: Result<seq<real>, Base64.DecodeError>)
    ensures r.Err? <==> Base64.Decode(b64).Err?
    ensures r.Ok? ==>
      var data := Base64.Decode(b64).value;
      |r.value| == |data| / 2 &&
      forall k :: 0 <= k < |r.value| ==>
        r.value[k] == Calibrate(Int16LE(data[2 * k], data[2 * k + 1]), scale)
  {
    match Base64.Decode(b64)
    case Err(e) => Err(e)
    case Ok(data) => Ok(Scale(UnpackInt16LE(data), scale))
  }

  /** The two bytes `struct.pack('<h', v)` writes for an int16 value. */
  function PackInt16LE(v: int): (b: seq<Byte>)
    requires -32768 <= v <= 32767
    ensures |b| == 2 && Int16LE(b[0], b[1]) == v
  {
    var u := if v < 0 then v + 65536 else v;
    [u % 256, u / 256]
  }

  predicate InInt16Range(vs: seq<int>) {
    forall k :: 0 <= k < |vs| ==> -32768 <= vs[k] <= 32767
  }

  /** `struct.pack('<' + 'h' * len(vs), *vs)`. */
  function PackAll(vs: seq<int>): (b: seq<Byte>)
    requires InInt16Range(vs)
    ensures |b| == 2 * |vs|
  {
    if vs == [] then [] else PackInt16LE(vs[0]) + PackAll(vs[1..])
  }

  /** Unpacking what was packed gives the samples back. */
  lemma {:induction false} UnpackPack(vs: seq<int>)
    requires InInt16Range(vs)
    ensures UnpackInt16LE(PackAll(vs)) == vs
  {
    if vs != [] {
      var b := PackAll(vs);
      assert b[2..] == PackAll(vs[1..]);
      UnpackPack(vs[1..]);
      assert b[0..2] == PackInt16LE(vs[0]);
    }
  }

  /** A trailing odd byte never adds a sample and never causes an error. */
  lemma TrailingByteIgnored(data: seq<Byte>, extra: Byte)
    requires |data| % 2 == 0
    ensures UnpackInt16LE(data + [extra]) == UnpackInt16LE(data)
  {
    var a, b := UnpackInt16LE(data + [extra]), UnpackInt16LE(data);
    assert |a| == |b|;
    forall k | 0 <= k < |a| ensures a[k] == b[k] {
      assert (data + [extra])[2 * k] == data[2 * k];
      assert (data + [extra])[2 * k + 1] == data[2 * k + 1];
    }
  }

  /** Round trip: int16 samples packed little-endian, encoded in base 64 and
      decoded with scale 1 come back unchanged. */
  lemma DecodeWaveformRoundTrip(vs: seq<int>)
    requires InInt16Range(vs)
    ensures DecodeWaveform(Base64.Encode(PackAll(vs)), 1.0) ==
            Ok(seq(|vs|, k requires 0 <= k < |vs| => vs[k] as real))
  {
    var data := PackAll(vs);
    Base64.DecodeEncode(data);
    UnpackPack(vs);
    ScaleByOne(vs);
  }

  lemma ScaleByOne(raw: seq<int>)
    ensures Scale(raw, 1.0) == seq(|raw|, k requires 0 <= k < |raw| => raw[k] as real)
  {
  }

  /** An empty blob is an empty series, whatever the scale. */
  lemma DecodeEmptyBlob(scale: real)
    ensures DecodeWaveform("", scale) == Ok([])
  {
  }

  /** The bytes 01 00 FF FF (text "AQD//w==") at scale 2.0 are the samples
      2.0 and -2.0. */
  lemma DecodeExample()
    ensures DecodeWaveform("AQD//w==", 2.0) == Ok([2.0, -2.0])
  {
    var data: seq<Byte> := [1, 0, 255, 255];
    ExampleBytes(data);
    var raw := UnpackInt16LE(data);
    assert raw[0] == Int16LE(1, 0) == 1 && raw[1] == Int16LE(255, 255) == -1;
    assert Scale(raw, 2.0) == [2.0, -2.0];
  }

  lemma ExampleBytes(data: seq<Byte>)
    requires data == [1, 0, 255, 255]
    ensures Base64.Decode("AQD//w==") == Ok(data)
  {
    assert data[..3] == [1, 0, 255] && data[3..] == [255];
    assert Base64.EncodeGroup([1, 0, 255]) == "AQD/";
    assert Base64.EncodeGroup([255]) == "/w==";
    assert Base64.Encode(data) == "AQD//w==";
    Base64.DecodeEncode(data);
  }
}
