/**
  The audio side of `src/narrator/gemini_narrator.py`: `parse_audio_mime_type`
  reads the sample width and rate from a media type such as
  `audio/L16;rate=24000` (the linear PCM types of RFC 2586), and
  `convert_to_wav` puts the canonical 44-byte header of a one-channel PCM
  WAVE file (a `RIFF` form of type `WAVE` holding a 16-byte `fmt ` chunk
  with format tag 1, WAVE_FORMAT_PCM, and a `data` chunk) in front of the
  raw samples, every number little-endian as `struct.pack("<4sI4s4sIHHIIHH4sI", ...)`
  lays it out.
 */
module Wav {
  import opened Wrappers
  import opened Text
  import opened Seqs

  // ================================================================ the media type

  /** The two parameters `parse_audio_mime_type` returns. */
  datatype AudioParams = AudioParams(bitsPerSample: int, rate: int)

  /** What `parse_audio_mime_type` returns when the media type sets nothing. */
  const Defaults := AudioParams(16, 24000)

  /** `s.split(c, 1)[1]`: what follows the first `c`, or None (the `IndexError`) when there is no `c`. */
  function AfterFirst(s: string, c: char): (r: Option<string>)
    ensures r.Some? <==> c in s
    ensures r.Some? ==> |r.value| < |s| && r.value == s[|s| - |r.value|..] && s[|s| - |r.value| - 1] == c
  {
    if s == [] then None
    else if s[0] == c then Some(s[1..])
    else AfterFirst(s[1..], c)
  }

  /** `int(param.split(c, 1)[1])`, None when either step raises. */
  function ValueAfter(param: string, c: char): Option<int> {
    match AfterFirst(param, c)
    case None => None
    case Some(t) => ParseInt(t)
  }

  /**
    One turn of the loop of `parse_audio_mime_type` on a `;`-separated
    piece: once stripped, a piece that starts with `rate=` in any case sets
    the rate, and otherwise one that starts with `audio/L` sets the sample
    width; a value that does not parse leaves the parameter as it was. So
    a piece sets the rate it holds and the sample width it holds, never
    both, and changes nothing else.
   */
  function Apply(p: AudioParams, piece: string): (r: AudioParams)
    ensures r.rate == if RateIn(piece).Some? then RateIn(piece).value else p.rate
    ensures r.bitsPerSample == if BitsIn(piece).Some? then BitsIn(piece).value else p.bitsPerSample
    ensures RateIn(piece).None? || BitsIn(piece).None?
  {
    var param := Strip(piece);
    if StartsWith(Lower(param), "rate=") then
      match ValueAfter(param, '=')
      case Some(v) => p.(rate := v)
      case None => p
    else if StartsWith(param, "audio/L") then
      match ValueAfter(param, 'L')
      case Some(v) => p.(bitsPerSample := v)
      case None => p
    else p
  }

  /** The rate a piece sets, if it sets one. */
  function RateIn(piece: string): Option<int> {
    var param := Strip(piece);
    if StartsWith(Lower(param), "rate=") then ValueAfter(param, '=') else None
  }

  /** The sample width a piece sets, if it sets one. */
  function BitsIn(piece: string): Option<int> {
    var param := Strip(piece);
    if !StartsWith(Lower(param), "rate=") && StartsWith(param, "audio/L") then ValueAfter(param, 'L') else None
  }

  /** The parameters after the loop has gone over `pieces`, from the defaults. */
  function ParamsOf(pieces: seq<string>): AudioParams {
    if pieces == [] then Defaults else Apply(ParamsOf(pieces[..|pieces| - 1]), pieces[|pieces| - 1])
  }

  /** What `parse_audio_mime_type(mime)` returns. */
  function MimeParams(mime: string): AudioParams {
    ParamsOf(SplitOn(mime, ';'))
  }

  /** The loop keeps for each parameter the value of the last piece that sets it, or the default. */
  lemma {:induction false} ParamsOfLast(pieces: seq<string>)
    ensures ParamsOf(pieces).rate == LastSome(pieces, RateIn, 24000)
    ensures ParamsOf(pieces).bitsPerSample == LastSome(pieces, BitsIn, 16)
  {
    if pieces != [] {
      ParamsOfLast(pieces[..|pieces| - 1]);
    }
  }

  /**
    The last piece that sets the rate decides it: the rate is the value of
    the last such piece, or 24000 when no piece sets one.
   */
  lemma RateIsLastSetting(pieces: seq<string>)
    ensures (forall i :: 0 <= i < |pieces| ==> RateIn(pieces[i]).None?) ==> ParamsOf(pieces).rate == 24000
    ensures forall i :: 0 <= i < |pieces| && RateIn(pieces[i]).Some?
                        && (forall j :: i < j < |pieces| ==> RateIn(pieces[j]).None?) ==>
                        ParamsOf(pieces).rate == RateIn(pieces[i]).value
  {
    ParamsOfLast(pieces);
    LastSomeSpec(pieces, RateIn, 24000);
  }

  /**
    The last piece that sets the sample width decides it: the width is the
    value of the last such piece, or 16 when no piece sets one.
   */
  lemma BitsIsLastSetting(pieces: seq<string>)
    ensures (forall i :: 0 <= i < |pieces| ==> BitsIn(pieces[i]).None?) ==> ParamsOf(pieces).bitsPerSample == 16
    ensures forall i :: 0 <= i < |pieces| && BitsIn(pieces[i]).Some?
                        && (forall j :: i < j < |pieces| ==> BitsIn(pieces[j]).None?) ==>
                        ParamsOf(pieces).bitsPerSample == BitsIn(pieces[i]).value
  {
    ParamsOfLast(pieces);
    LastSomeSpec(pieces, BitsIn, 16);
  }

  /** What follows the first `c` of `pre + [c] + rest`, when `pre` holds no `c`, is `rest`. */
  lemma {:induction false} AfterFirstAt(pre: string, c: char, rest: string)
    requires c !in pre
    ensures AfterFirst(pre + [c] + rest, c) == Some(rest)
    decreases |pre|
  {
    if pre != [] {
      assert pre[0] in pre;
      assert c !in pre[1..] by { forall x | x in pre[1..] ensures x != c { assert x in pre; } }
      AfterFirstAt(pre[1..], c, rest);
      assert (pre + [c] + rest)[1..] == pre[1..] + [c] + rest;
    }
  }

  /** The decimal text of a number: no `;`, no white space at either end, and at least one character. */
  lemma IntTextPlain(v: int)
    ensures IntToString(v) != [] && ';' !in IntToString(v)
    ensures !IsSpace(IntToString(v)[|IntToString(v)| - 1])
  {
    var n := if v < 0 then -v else v;
    NatToStringDigits(n);
    var d := NatToString(n);
    assert IntToString(v) == if v < 0 then "-" + d else d;
    assert IntToString(v)[|IntToString(v)| - 1] == d[|d| - 1];
    assert ';' !in d by { forall x | x in d ensures x != ';' { var k :| 0 <= k < |d| && d[k] == x; } }
  }

  /** The piece `audio/L<bits>` sets the sample width to `bits` and not the rate. */
  lemma WidthPiece(bits: int)
    ensures RateIn("audio/L" + IntToString(bits)) == None
    ensures BitsIn("audio/L" + IntToString(bits)) == Some(bits)
  {
    var t := IntToString(bits);
    var piece := "audio/L" + t;
    IntTextPlain(bits);
    assert piece[|piece| - 1] == t[|t| - 1];
    StripNoEdgeSpace(piece);
    assert !StartsWith(Lower(piece), "rate=") by {
      assert |Lower(piece)| == |piece| && Lower(piece)[0] == 'a';
      assert |"rate="| <= |Lower(piece)| ==> Lower(piece)[..5][0] == 'a';
    }
    assert piece[..7] == "audio/L";
    assert piece == "audio/" + ['L'] + t;
    AfterFirstAt("audio/", 'L', t);
    ParseIntOfIntToString(bits);
  }

  /** The piece `rate=<rate>` sets the rate to `rate` and not the sample width. */
  lemma RatePiece(rate: int)
    ensures RateIn("rate=" + IntToString(rate)) == Some(rate)
    ensures BitsIn("rate=" + IntToString(rate)) == None
  {
    var t := IntToString(rate);
    var piece := "rate=" + t;
    IntTextPlain(rate);
    assert piece[|piece| - 1] == t[|t| - 1];
    StripNoEdgeSpace(piece);
    assert Lower(piece)[..5] == "rate=";
    assert piece == "rate" + ['='] + t;
    AfterFirstAt("rate", '=', t);
    ParseIntOfIntToString(rate);
  }

  /** Writing a width and a rate into a media type and parsing it gives them back. */
  lemma MimeRoundTrip(bits: int, rate: int)
    ensures MimeParams("audio/L" + IntToString(bits) + ";rate=" + IntToString(rate)) == AudioParams(bits, rate)
  {
    var w, r := "audio/L" + IntToString(bits), "rate=" + IntToString(rate);
    var mime := "audio/L" + IntToString(bits) + ";rate=" + IntToString(rate);
    IntTextPlain(bits);
    IntTextPlain(rate);
    assert ';' !in w && ';' !in r;
    assert mime == w + ";" + r by {
      AppendAssoc(w, ";", r);
      assert ";rate=" == ";" + "rate=";
    }
    assert JoinWith([w, r], ";") == w + ";" + r;
    SplitOfJoin([w, r], ';');
    WidthPiece(bits);
    RatePiece(rate);
    assert [w, r][..1] == [w] && [w][..0] == [];
    var first := Apply(Defaults, w);
    assert first == AudioParams(bits, 24000);
    assert ParamsOf([w, r]) == Apply(first, r);
  }

  /** `parse_audio_mime_type`: the loop over the `;`-separated pieces of the media type. */
  method ParseAudioMimeType(mime: string) returns (p: AudioParams)
    ensures p == MimeParams(mime)
  {
    var bitsPerSample := 16;
    var rate := 24000;
    var parts := SplitOn(mime, ';');
    var i := 0;
    while i < |parts|
      invariant 0 <= i <= |parts|
      invariant AudioParams(bitsPerSample, rate) == ParamsOf(parts[..i])
    {
      var param := Strip(parts[i]);
      if StartsWith(Lower(param), "rate=") {
        var v := ValueAfter(param, '=');
        if v.Some? {
          rate := v.value;
        }
      } else if StartsWith(param, "audio/L") {
        var v := ValueAfter(param, 'L');
        if v.Some? {
          bitsPerSample := v.value;
        }
      }
      TakePrefix(parts, i);
      i := i + 1;
    }
    assert parts[..i] == parts;
    return AudioParams(bitsPerSample, rate);
  }

  // ================================================================ little-endian fields

  newtype byte = x: int | 0 <= x < 256

  const U16Limit := 0x1_0000
  const U32Limit := 0x1_0000_0000

  /** An unsigned 16-bit number, low byte first (`H` with `<`). */
  function U16LE(v: int): (r: seq<byte>)
    requires 0 <= v < U16Limit
    ensures |r| == 2
  {
    [(v % 256) as byte, (v / 256) as byte]
  }

  /** An unsigned 32-bit number, low byte first (`I` with `<`). */
  function U32LE(v: int): (r: seq<byte>)
    requires 0 <= v < U32Limit
    ensures |r| == 4
  {
    [(v % 256) as byte, (v / 0x100 % 256) as byte, (v / 0x1_0000 % 256) as byte, (v / 0x100_0000) as byte]
  }

  /** The 16-bit number stored low byte first at `off`. */
  function U16At(b: seq<byte>, off: nat): int
    requires off + 2 <= |b|
  {
    b[off] as int + 0x100 * b[off + 1] as int
  }

  /** The 32-bit number stored low byte first at `off`. */
  function U32At(b: seq<byte>, off: nat): int
    requires off + 4 <= |b|
  {
    b[off] as int + 0x100 * b[off + 1] as int + 0x1_0000 * b[off + 2] as int + 0x100_0000 * b[off + 3] as int
  }

  /** Reading a written 16-bit field gives the number back. */
  lemma U16RoundTrip(v: int)
    requires 0 <= v < U16Limit
    ensures U16At(U16LE(v), 0) == v
  {
    assert v == v / 256 * 256 + v % 256;
  }

  /** Reading a written 32-bit field gives the number back. */
  lemma U32RoundTrip(v: int)
    requires 0 <= v < U32Limit
    ensures U32At(U32LE(v), 0) == v
  {
    var a, b := v / 0x100, v / 0x1_0000;
    assert v == a * 0x100 + v % 256;
    assert a == a / 256 * 256 + a % 256;
    assert a / 256 == b;
    assert b == b / 256 * 256 + b % 256;
    assert b / 256 == v / 0x100_0000;
  }

  /** The four bytes of a chunk identifier such as `RIFF`. */
  function Tag(s: string): (r: seq<byte>)
    requires |s| == 4 && forall i :: 0 <= i < 4 ==> s[i] as int < 256
    ensures |r| == 4
  {
    [s[0] as int as byte, s[1] as int as byte, s[2] as int as byte, s[3] as int as byte]
  }

  // ================================================================ the header

  datatype WavError = FieldOutOfRange  // `struct.error`: a number does not fit its field

  /** The numbers of a one-channel PCM header, as `convert_to_wav` computes them. */
  datatype Fields = Fields(
    chunkSize: int, fmtSize: int, format: int, channels: int, sampleRate: int,
    byteRate: int, blockAlign: int, bitsPerSample: int, dataSize: int)

  /**
    The fields for `dataSize` bytes of samples: `block_align` is one
    channel times `bits_per_sample // 8` (Python's floor division, which
    `/` by a positive number is as well) and `byte_rate` is the rate times
    `block_align`. The RIFF size counts the `WAVE` tag, the `fmt ` chunk
    and the `data` chunk, each chunk with its eight-byte head.
   */
  function HeaderFields(dataSize: nat, p: AudioParams): (r: Fields)
    ensures r.chunkSize == 4 + (8 + r.fmtSize) + (8 + r.dataSize)
    ensures r.fmtSize == 16 && r.format == 1 && r.channels == 1
    ensures r.sampleRate == p.rate && r.bitsPerSample == p.bitsPerSample && r.dataSize == dataSize
    ensures r.blockAlign == r.channels * (r.bitsPerSample / 8)
    ensures r.byteRate == r.sampleRate * r.blockAlign
  {
    var blockAlign := 1 * (p.bitsPerSample / 8);
    Fields(36 + dataSize, 16, 1, 1, p.rate, p.rate * blockAlign, blockAlign, p.bitsPerSample, dataSize)
  }

  /** Whether every field fits the width `struct.pack` gives it. */
  predicate Packable(f: Fields) {
    && 0 <= f.chunkSize < U32Limit && 0 <= f.fmtSize < U32Limit
    && 0 <= f.format < U16Limit && 0 <= f.channels < U16Limit
    && 0 <= f.sampleRate < U32Limit && 0 <= f.byteRate < U32Limit
    && 0 <= f.blockAlign < U16Limit && 0 <= f.bitsPerSample < U16Limit
    && 0 <= f.dataSize < U32Limit
  }

  /** `struct.pack("<4sI4s4sIHHIIHH4sI", ...)`: the 44 header bytes. */
  function Pack(f: Fields): (r: seq<byte>)
    requires Packable(f)
    ensures |r| == 44
  {
    var riff := Tag("RIFF") + U32LE(f.chunkSize) + Tag("WAVE");
    var fmt := Tag("fmt ") + U32LE(f.fmtSize) + U16LE(f.format) + U16LE(f.channels)
               + U32LE(f.sampleRate) + U32LE(f.byteRate) + U16LE(f.blockAlign) + U16LE(f.bitsPerSample);
    var data := Tag("data") + U32LE(f.dataSize);
    riff + fmt + data
  }

  /** `convert_to_wav` with the parameters already read from the media type. */
  function WavOf(audio: seq<byte>, p: AudioParams): Result<seq<byte>, WavError> {
    var f := HeaderFields(|audio|, p);
    if Packable(f) then Ok(Pack(f) + audio) else Err(FieldOutOfRange)
  }

  /** `convert_to_wav(audio_data, mime_type)`. */
  method ConvertToWav(audio: seq<byte>, mime: string) returns (r: Result<seq<byte>, WavError>)
    ensures r == WavOf(audio, MimeParams(mime))
  {
    var p := ParseAudioMimeType(mime);
    r := WavOf(audio, p);
  }

  /** Reads a header: the tags at their places and the numbers between them, or None when a tag is wrong. */
  function ReadHeader(b: seq<byte>): Option<Fields> {
    if |b| < 44 || b[0..4] != Tag("RIFF") || b[8..12] != Tag("WAVE") || b[12..16] != Tag("fmt ") || b[36..40] != Tag("data")
    then None
    else Some(Fields(U32At(b, 4), U32At(b, 16), U16At(b, 20), U16At(b, 22), U32At(b, 24),
                     U32At(b, 28), U16At(b, 32), U16At(b, 34), U32At(b, 40)))
  }

  /** A 32-bit field written at `off` reads back as the number written. */
  lemma U32Inside(b: seq<byte>, off: nat, v: int)
    requires 0 <= v < U32Limit && off + 4 <= |b| && b[off..off + 4] == U32LE(v)
    ensures U32At(b, off) == v
  {
    U32RoundTrip(v);
    assert forall k :: 0 <= k < 4 ==> b[off + k] == U32LE(v)[k];
  }

  /** A 16-bit field written at `off` reads back as the number written. */
  lemma U16Inside(b: seq<byte>, off: nat, v: int)
    requires 0 <= v < U16Limit && off + 2 <= |b| && b[off..off + 2] == U16LE(v)
    ensures U16At(b, off) == v
  {
    U16RoundTrip(v);
    assert forall k :: 0 <= k < 2 ==> b[off + k] == U16LE(v)[k];
  }

  /** Reading a packed header gives back every field. */
  lemma ReadPack(f: Fields, audio: seq<byte>)
    requires Packable(f)
    ensures ReadHeader(Pack(f) + audio) == Some(f)
  {
    var b := Pack(f) + audio;
    assert b[0..4] == Tag("RIFF") && b[8..12] == Tag("WAVE") && b[12..16] == Tag("fmt ") && b[36..40] == Tag("data");
    assert b[4..8] == U32LE(f.chunkSize);
    U32Inside(b, 4, f.chunkSize);
    assert b[16..20] == U32LE(f.fmtSize);
    U32Inside(b, 16, f.fmtSize);
    assert b[20..22] == U16LE(f.format);
    U16Inside(b, 20, f.format);
    assert b[22..24] == U16LE(f.channels);
    U16Inside(b, 22, f.channels);
    assert b[24..28] == U32LE(f.sampleRate);
    U32Inside(b, 24, f.sampleRate);
    assert b[28..32] == U32LE(f.byteRate);
    U32Inside(b, 28, f.byteRate);
    assert b[32..34] == U16LE(f.blockAlign);
    U16Inside(b, 32, f.blockAlign);
    assert b[34..36] == U16LE(f.bitsPerSample);
    U16Inside(b, 34, f.bitsPerSample);
    assert b[40..44] == U32LE(f.dataSize);
    U32Inside(b, 40, f.dataSize);
  }

  /**
    `convert_to_wav` writes the 44-byte header and then the samples
    unchanged; the header reads back as a one-channel PCM `fmt ` chunk of
    16 bytes with the rate and width of the media type, `block_align`
    and `byte_rate` derived from them, and the sizes of the samples and of
    the whole `RIFF` form. It fails exactly when one of those numbers does
    not fit its field.
   */
  lemma WavLayout(audio: seq<byte>, p: AudioParams)
    ensures WavOf(audio, p).Err? <==> !Packable(HeaderFields(|audio|, p))
    ensures WavOf(audio, p).Ok? ==>
              && |WavOf(audio, p).value| == 44 + |audio|
              && WavOf(audio, p).value[44..] == audio
              && ReadHeader(WavOf(audio, p).value) == Some(HeaderFields(|audio|, p))
  {
    var f := HeaderFields(|audio|, p);
    if Packable(f) {
      ReadPack(f, audio);
      assert (Pack(f) + audio)[44..] == audio;
    }
  }

  /**
    The header fits exactly when the samples and form sizes fit 32 bits and
    the rate, width and byte rate are in range: the data stays below
    4 GiB less 36 bytes, the rate and byte rate below 2^32, and the width
    between 0 and 65535.
   */
  lemma PackableExactly(dataSize: nat, p: AudioParams)
    ensures Packable(HeaderFields(dataSize, p)) <==>
              && 36 + dataSize < U32Limit
              && 0 <= p.rate < U32Limit
              && 0 <= p.bitsPerSample < U16Limit
              && 0 <= p.rate * (p.bitsPerSample / 8) < U32Limit
  {
  }
}
