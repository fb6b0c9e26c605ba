/**
 The layout of GC-ADPCM data, from the writing side: frames of fourteen signed values, packed two to a byte behind a
 header, and what the decoder of src/audio_core/codec.cpp makes of them.
 */
module AdpcmFrames {
  import opened Adpcm

  /** One frame: its coefficient pair, its scale as a power of two, and its values; `spare` is the unused bit. */
  datatype Frame = Frame(spare: bool, pair: nat, exponent: nat, values: seq<int>)

  ghost predicate IsFrame(f: Frame) {
    f.pair < 8 && f.exponent < 16 && |f.values| == 14 && forall k :: 0 <= k < 14 ==> -8 <= f.values[k] < 8
  }

  ghost predicate AreFrames(frames: seq<Frame>) {
    forall i :: 0 <= i < |frames| ==> IsFrame(frames[i])
  }

  // ----- writing -----

  function TwoTo(e: nat): nat {
    if e == 0 then 1 else 2 * TwoTo(e - 1)
  }

  /** Two values in a byte, the first one in the upper half, each in two's complement. */
  function PackPair(first: int, second: int): Byte {
    first % 16 * 16 + second % 16
  }

  function PackHeader(f: Frame): Byte
    requires IsFrame(f)
  {
    (if f.spare then 128 else 0) + f.pair * 16 + f.exponent
  }

  function PackFrame(f: Frame): (b: seq<Byte>)
    requires IsFrame(f)
    ensures |b| == 8
  {
    [PackHeader(f)] + seq(7, j requires 0 <= j < 7 => PackPair(f.values[2 * j], f.values[2 * j + 1]))
  }

  function Pack(frames: seq<Frame>): (b: seq<Byte>)
    requires AreFrames(frames)
    ensures |b| == 8 * |frames|
  {
    if frames == [] then [] else Pack(frames[..|frames| - 1]) + PackFrame(frames[|frames| - 1])
  }

  // ----- what it should sound like -----

  /** What the filter gets: a scaled value and two coefficients. */
  datatype Input = Input(x: int, c1: int, c2: int)

  /** The inputs of all frames, in order. */
  function Inputs(frames: seq<Frame>, coeff: seq<int>): (s: seq<Input>)
    requires AreFrames(frames) && |coeff| == 16
    ensures |s| == 14 * |frames|
  {
    if frames == [] then [] else
      var f := frames[|frames| - 1];
      Inputs(frames[..|frames| - 1], coeff) +
      seq(14, k requires 0 <= k < 14 =>
        Input(f.values[k] * TwoTo(f.exponent), coeff[2 * f.pair], coeff[2 * f.pair + 1]))
  }

  /** The filter run over the inputs: the history it leaves. */
  function HistoryOf(inputs: seq<Input>, h: History): History {
    if inputs == [] then h else
      var before := HistoryOf(inputs[..|inputs| - 1], h);
      var i := inputs[|inputs| - 1];
      History(Filter(i.x, i.c1, i.c2, before), before.yn1)
  }

  /** ... and the samples it makes, the same in both channels. */
  function SoundOf(inputs: seq<Input>, h: History): seq<Stereo> {
    if inputs == [] then [] else
      var y := HistoryOf(inputs, h).yn1;
      SoundOf(inputs[..|inputs| - 1], h) + [Stereo(y, y)]
  }

  // ----- reading back the fields -----

  lemma {:induction false} PowersAgree(e: nat)
    requires e < 16
    ensures Power2(e) == TwoTo(e)
  {
    if e > 0 { PowersAgree(e - 1); }
  }

  lemma NibbleBack(x: int)
    requires -8 <= x < 8
    ensures x % 16 < 16 && Signed(x % 16) == x
  {
  }

  lemma PairBack(first: int, second: int)
    requires -8 <= first < 8 && -8 <= second < 8
    ensures Signed(High(PackPair(first, second))) == first && Signed(Low(PackPair(first, second))) == second
  {
    NibbleBack(first);
    NibbleBack(second);
    var (a, b) := (first % 16, second % 16);
    assert (a * 16 + b) / 16 == a && (a * 16 + b) % 16 == b;
  }

  lemma HeaderBack(f: Frame)
    requires IsFrame(f)
    ensures PairOf(PackHeader(f)) == f.pair && Low(PackHeader(f)) == f.exponent
  {
    var q := (if f.spare then 8 else 0) + f.pair;
    assert (PackHeader(f) as int) == q * 16 + f.exponent;
  }

  // ----- where a sample is -----

  lemma {:induction false} PackedAt(frames: seq<Frame>, i: nat, j: nat)
    requires AreFrames(frames) && i < |frames| && j < 8
    ensures Pack(frames)[8 * i + j] == PackFrame(frames[i])[j]
    decreases |frames|
  {
    var n := |frames| - 1;
    if i < n {
      PackedAt(frames[..n], i, j);
    }
  }

  lemma {:induction false} InputAt(frames: seq<Frame>, coeff: seq<int>, i: nat, k: nat)
    requires AreFrames(frames) && |coeff| == 16 && i < |frames| && k < 14
    ensures var f := frames[i];
      Inputs(frames, coeff)[14 * i + k]
      == Input(f.values[k] * TwoTo(f.exponent), coeff[2 * f.pair], coeff[2 * f.pair + 1])
    decreases |frames|
  {
    var n := |frames| - 1;
    if i < n {
      InputAt(frames[..n], coeff, i, k);
    }
  }

  /** The byte of a sample's frame that holds it. */
  lemma FrameByte(f: Frame, j: nat)
    requires IsFrame(f) && j < 7
    ensures PackFrame(f)[0] == PackHeader(f) && PackFrame(f)[1 + j] == PackPair(f.values[2 * j], f.values[2 * j + 1])
  {
  }

  /** Value k of a frame with the frame's scale and coefficients. */
  function Written(f: Frame, coeff: seq<int>, k: nat): Tap
    requires IsFrame(f) && |coeff| == 16 && k < 14
  {
    Tap(f.values[k], TwoTo(f.exponent), coeff[2 * f.pair], coeff[2 * f.pair + 1])
  }

  /** What the decoder feeds to the filter for a sample is what was written. */
  lemma {:induction false} TapBack(frames: seq<Frame>, coeff: seq<int>, i: nat, j: nat)
    requires AreFrames(frames) && |coeff| == 16 && i < |frames| && j < 7
    ensures var n := i * SAMPLES_PER_FRAME + 2 * j;
      && ByteOf(n) < |Pack(frames)| && ByteOf(n + 1) < |Pack(frames)|
      && TapOf(Pack(frames), coeff, n) == Written(frames[i], coeff, 2 * j)
      && TapOf(Pack(frames), coeff, n + 1) == Written(frames[i], coeff, 2 * j + 1)
  {
    hide Pack, PackFrame, PackHeader, PackPair, ByteOf, TapOf, Power2, TwoTo, High, Low, PairOf, Signed;
    var f, data := frames[i], Pack(frames);
    PackedAt(frames, i, 0);
    PackedAt(frames, i, 1 + j);
    FrameByte(f, j);
    PairOfSamples(data, coeff, i, j);
    PairBack(f.values[2 * j], f.values[2 * j + 1]);
    HeaderBack(f);
    PowersAgree(f.exponent);
  }

  /** The same for any sample. */
  lemma {:induction false} TapIs(frames: seq<Frame>, coeff: seq<int>, n: nat)
    requires AreFrames(frames) && |coeff| == 16 && n < 14 * |frames|
    ensures ByteOf(n) < |Pack(frames)|
    ensures var (t, i) := (TapOf(Pack(frames), coeff, n), Inputs(frames, coeff)[n]);
      t.nibble * t.scale == i.x && t.c1 == i.c1 && t.c2 == i.c2
  {
    hide Pack, Inputs, ByteOf, TapOf, TwoTo;
    var i, k := n / 14, n % 14;
    assert n == 14 * i + k;
    InputAt(frames, coeff, i, k);
    TapBack(frames, coeff, i, k / 2);
    assert k == 2 * (k / 2) || k == 2 * (k / 2) + 1;
  }

  lemma SampleByte(k: nat, count: nat)
    requires k < 14 * count
    ensures ByteOf(k) < 8 * count
  {
    hide ByteOf;
    var i, j := k / 14, k % 14;
    assert k == 14 * i + j;
    InFrame(i, j);
    assert i < count && j / 2 < 7;
  }

  lemma {:induction false} PackedHolds(frames: seq<Frame>, n: nat)
    requires AreFrames(frames) && n <= 14 * |frames|
    ensures Holds(Pack(frames), n)
  {
    hide Pack, ByteOf, AreFrames;
    forall k: nat | k < n ensures ByteOf(k) < |Pack(frames)| {
      SampleByte(k, |frames|);
    }
  }

  /**
   For every list of frames, and as many of their samples as one likes: decoding the packed bytes runs the filter over
   the written values, scaled, with the frame's coefficients, in the order they were written.
   */
  lemma {:induction false} DecodesWhatWasPacked(frames: seq<Frame>, coeff: seq<int>, h: History, n: nat)
    requires AreFrames(frames) && |coeff| == 16 && n <= 14 * |frames|
    ensures Holds(Pack(frames), n)
    ensures Decoded(Pack(frames), coeff, h, n) == SoundOf(Inputs(frames, coeff)[..n], h)
    ensures After(Pack(frames), coeff, h, n) == HistoryOf(Inputs(frames, coeff)[..n], h)
    decreases n
  {
    hide Pack, Inputs, ByteOf, TapOf, Filter, Holds;
    PackedHolds(frames, n);
    if n > 0 {
      PackedHolds(frames, n - 1);
      DecodesWhatWasPacked(frames, coeff, h, n - 1);
      TapIs(frames, coeff, n - 1);
      assert Inputs(frames, coeff)[..n][..n - 1] == Inputs(frames, coeff)[..n - 1];
    }
  }

  // ----- nothing else can be decoded -----

  function SignedHalf(half: int): int {
    if half < 8 then half else half - 16
  }

  function ValueIn(b: seq<Byte>, k: nat): int
    requires |b| == 8 && k < 14
  {
    SignedHalf(if k % 2 == 0 then b[1 + k / 2] / 16 else b[1 + k / 2] % 16)
  }

  function UnpackFrame(b: seq<Byte>): Frame
    requires |b| == 8
  {
    Frame(b[0] >= 128, b[0] / 16 % 8, b[0] % 16, seq(14, k requires 0 <= k < 14 => ValueIn(b, k)))
  }

  lemma UnpackedByte(b: Byte)
    ensures var (x, y) := (SignedHalf(b / 16), SignedHalf(b % 16));
      -8 <= x < 8 && -8 <= y < 8 && PackPair(x, y) == b
  {
  }

  lemma UnpackedPair(b: seq<Byte>, j: nat)
    requires |b| == 8 && j < 7
    ensures ValueIn(b, 2 * j) == SignedHalf(b[1 + j] / 16) && ValueIn(b, 2 * j + 1) == SignedHalf(b[1 + j] % 16)
  {
    HalfOf(j);
  }

  lemma UnpackedHeader(b: Byte)
    ensures (if b >= 128 then 128 else 0) + b / 16 % 8 * 16 + b % 16 == b
  {
  }

  lemma UnpackIsFrame(b: seq<Byte>)
    requires |b| == 8
    ensures IsFrame(UnpackFrame(b))
  {
    hide SignedHalf, ValueIn;
    forall k | 0 <= k < 14 ensures -8 <= UnpackFrame(b).values[k] < 8 {
      UnpackedPair(b, k / 2);
      UnpackedByte(b[1 + k / 2]);
      assert k == 2 * (k / 2) || k == 2 * (k / 2) + 1;
    }
  }

  /** Every eight bytes are a frame, so every whole number of frames has been covered. */
  lemma PackUnpack(b: seq<Byte>)
    requires |b| == 8
    ensures IsFrame(UnpackFrame(b)) && PackFrame(UnpackFrame(b)) == b
  {
    hide PackPair, SignedHalf, ValueIn;
    UnpackIsFrame(b);
    UnpackedHeader(b[0]);
    var f := UnpackFrame(b);
    var p := PackFrame(f);
    forall i | 0 <= i < 8 ensures p[i] == b[i] {
      if i > 0 {
        FrameByte(f, i - 1);
        UnpackedPair(b, i - 1);
        UnpackedByte(b[i]);
      }
    }
  }
}
