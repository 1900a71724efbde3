/** Conversion of a raw capture buffer of interleaved unsigned 8-bit I/Q
    samples into signed in-phase and quadrature channels and complex pairs
    (tdoa-c/lib/ReadIQ.cpp, the three loops after the file has been read).
    Opening and reading the file and the console output are not modelled:
    the buffer is a parameter. */
module ReadIQ {

  /** One byte of the capture file, as `unsigned char`. */
  type Byte = x: int | 0 <= x < 256

  /** `std::complex<int>`: real part from the in-phase channel,
      imaginary part from the quadrature channel. */
  datatype Complex = Complex(re: int, im: int)

  /** The offset that centres an unsigned sample on zero. */
  const Offset: int := 128

  /** In-phase channel: the bytes at even positions, re-centred. */
  function Inphase(buffer: seq<Byte>): (s: seq<int>)
    ensures |s| == (|buffer| + 1) / 2
    ensures forall i :: 0 <= i < |s| ==> 2 * i < |buffer| && s[i] == buffer[2 * i] - Offset
  {
    seq((|buffer| + 1) / 2, i requires 0 <= i < (|buffer| + 1) / 2 => buffer[2 * i] - Offset)
  }

  /** Quadrature channel: the bytes at odd positions, re-centred. */
  function Quadrature(buffer: seq<Byte>): (s: seq<int>)
    ensures |s| == |buffer| / 2
    ensures forall i :: 0 <= i < |s| ==> 2 * i + 1 < |buffer| && s[i] == buffer[2 * i + 1] - Offset
  {
    seq(|buffer| / 2, i requires 0 <= i < |buffer| / 2 => buffer[2 * i + 1] - Offset)
  }

  /** Turns complex samples back into the unsigned bytes they were read from,
      in file order: the inverse of the conversion. */
  function Interleave(samples: seq<Complex>): seq<int>
  {
    if samples == [] then []
    else [samples[0].re + Offset, samples[0].im + Offset] + Interleave(samples[1..])
  }

  /** The three conversion loops of ReadIQ: split the buffer into the two
      channels by pushing onto growing vectors, then fill a complex vector,
      sized by the shorter channel, element by element. */
  method ConvertBuffer(buffer: seq<Byte>)
    returns (inphase: seq<int>, quadrature: seq<int>, complexArray: seq<Complex>)
    ensures inphase == Inphase(buffer)
    ensures quadrature == Quadrature(buffer)
    ensures complexArray == Pairs(buffer)
    ensures forall i :: 0 <= i < |complexArray| ==>
      -128 <= complexArray[i].re <= 127 && -128 <= complexArray[i].im <= 127
  {
    inphase := [];
    var i := 0;
    while i < |buffer|
      invariant 0 <= i <= |buffer| + 1 && i % 2 == 0
      invariant |inphase| == i / 2
      invariant forall m :: 0 <= m < |inphase| ==> inphase[m] == buffer[2 * m] - Offset
    {
      inphase := inphase + [buffer[i] - Offset];
      i := i + 2;
    }

    quadrature := [];
    i := 1;
    while i < |buffer|
      invariant 1 <= i <= |buffer| + 1 && i % 2 == 1
      invariant |quadrature| == i / 2
      invariant forall m :: 0 <= m < |quadrature| ==> quadrature[m] == buffer[2 * m + 1] - Offset
    {
      quadrature := quadrature + [buffer[i] - Offset];
      i := i + 2;
    }

    var complexArraySize := if |inphase| < |quadrature| then |inphase| else |quadrature|;
    var pairs := new Complex[complexArraySize](_ => Complex(0, 0));
    i := 0;
    while i < complexArraySize
      invariant 0 <= i <= complexArraySize
      invariant forall m :: 0 <= m < i ==> pairs[m] == Complex(inphase[m], quadrature[m])
    {
      pairs[i] := Complex(inphase[i], quadrature[i]);
      i := i + 1;
    }
    complexArray := pairs[..];
    assert inphase == Inphase(buffer);
    assert quadrature == Quadrature(buffer);
    PairsShorter(buffer);
  }

  /** A trailing unpaired byte is dropped: the complex samples give back
      exactly the longest even-length prefix of the buffer. */
  lemma {:induction false} InterleaveRecoversBuffer(buffer: seq<Byte>)
    ensures Interleave(Pairs(buffer)) == buffer[..|buffer| / 2 * 2]
    decreases |buffer|
  {
    if |buffer| >= 2 {
      var rest := buffer[2..];
      InterleaveRecoversBuffer(rest);
      assert Pairs(buffer)[1..] == Pairs(rest);
      assert buffer[..|buffer| / 2 * 2] == buffer[..2] + rest[..|rest| / 2 * 2];
    } else {
      assert Pairs(buffer) == [];
    }
  }

  /** The complex samples as a function of the buffer: the zip of the two
      channels, truncated to the shorter. */
  function Pairs(buffer: seq<Byte>): (s: seq<Complex>)
    ensures |s| == |buffer| / 2
    ensures forall i :: 0 <= i < |s| ==> s[i] == Complex(Inphase(buffer)[i], Quadrature(buffer)[i])
  {
    var inph, quad := Inphase(buffer), Quadrature(buffer);
    seq(|buffer| / 2, i requires 0 <= i < |buffer| / 2 => Complex(inph[i], quad[i]))
  }

  /** The source sizes the complex vector by the shorter of the two channels
      (`std::min`): that is the number of complete byte pairs, and the
      in-phase channel is longer by one exactly when a byte is left over. */
  lemma PairsShorter(buffer: seq<Byte>)
    ensures var n, q := |Inphase(buffer)|, |Quadrature(buffer)|;
      |Pairs(buffer)| == (if n < q then n else q) &&
      (n == q + 1 <==> |buffer| % 2 == 1) && (n == q <==> |buffer| % 2 == 0)
  {
  }

  /** Every channel sample, and so every part of a complex sample, lies in
      `[-128, 127]`. */
  lemma ChannelRange(buffer: seq<Byte>)
    ensures forall i :: 0 <= i < |Inphase(buffer)| ==> -128 <= Inphase(buffer)[i] <= 127
    ensures forall i :: 0 <= i < |Quadrature(buffer)| ==> -128 <= Quadrature(buffer)[i] <= 127
  {
  }
}
