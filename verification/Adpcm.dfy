/** The GC-ADPCM decoder of src/audio_core/codec.cpp. */
module Adpcm {

  const FRAME_LEN := 8
  const SAMPLES_PER_FRAME := 14

  type Byte = b: int | 0 <= b < 256

  datatype Stereo = Stereo(left: int, right: int)

  /** The two samples before the next one. */
  datatype History = History(yn1: int, yn2: int)

  predicate IsS16(v: int) {
    -0x8000 <= v <= 0x7FFF
  }

  ghost predicate IsCoefficients(coeff: seq<int>) {
    |coeff| == 16 && forall i :: 0 <= i < 16 ==> IsS16(coeff[i])
  }

  // ----- the filter -----

  /** 1 << n for the exponents a frame header can hold. */
  function Power2(n: nat): nat
    requires n < 16
  {
    [1, 2, 4, 8, 16, 32, 64, 128, 256, 512, 1024, 2048, 4096, 8192, 16384, 32768][n]
  }

  function Clamp(v: int): (r: int)
    ensures IsS16(r)
  {
    if v < -0x8000 then -0x8000 else if v > 0x7FFF then 0x7FFF else v
  }

  /** y[n] = clamp(x[n] + 0.5 + c1 * y[n-1] + c2 * y[n-2]) with 11 fractional bits, rounded down. */
  function Filter(x: int, c1: int, c2: int, h: History): (y: int)
    ensures IsS16(y)
  {
    Clamp((x * 2048 + 0x400 + c1 * h.yn1 + c2 * h.yn2) / 2048)
  }

  function Abs(v: int): nat {
    if v < 0 then -v else v
  }

  /**
   What that means: the s16 value nearest to v / 2048, the greater one of two equally near, where v is the input
   and the weighted history with 11 fractional bits.
   */
  lemma FilterIsNearest(x: int, c1: int, c2: int, h: History, z: int)
    requires -32768 <= z <= 32767
    ensures -32768 <= Filter(x, c1, c2, h) <= 32767
    ensures var v := x * 2048 + c1 * h.yn1 + c2 * h.yn2;
      var y := Filter(x, c1, c2, h);
      Abs(2048 * y - v) < Abs(2048 * z - v) || (Abs(2048 * y - v) == Abs(2048 * z - v) && z <= y)
  {
    var v := x * 2048 + c1 * h.yn1 + c2 * h.yn2;
    ClampIsNearest(v, z);
    assert x * 2048 + 0x400 + c1 * h.yn1 + c2 * h.yn2 == v + 0x400;
  }

  lemma ClampIsNearest(v: int, z: int)
    requires IsS16(z)
    ensures var y := Clamp((v + 0x400) / 2048);
      Abs(2048 * y - v) < Abs(2048 * z - v) || (Abs(2048 * y - v) == Abs(2048 * z - v) && z <= y)
  {
    var q := (v + 0x400) / 2048;
    assert 2048 * q <= v + 0x400 < 2048 * q + 2048;
  }

  // ----- the frames -----

  function Rounded(count: nat): nat {
    if count % 2 == 0 then count else count + 1
  }

  /** Index of the header of the frame that holds sample n. */
  function HeaderOf(n: nat): nat {
    FRAME_LEN * (n / SAMPLES_PER_FRAME)
  }

  /** Index of the byte that holds sample n. */
  function ByteOf(n: nat): nat {
    HeaderOf(n) + 1 + n % SAMPLES_PER_FRAME / 2
  }

  function High(b: Byte): (x: nat)
    ensures x < 16
  {
    b / 16
  }

  function Low(b: Byte): (x: nat)
    ensures x < 16
  {
    b % 16
  }

  /** Which of the eight coefficient pairs a frame uses. */
  function PairOf(header: Byte): (i: nat)
    ensures i < 8
  {
    header / 16 % 8
  }

  /** The data is long enough for n samples. */
  ghost predicate Holds(data: seq<Byte>, n: nat) {
    forall k: nat {:trigger ByteOf(k)} :: k < n ==> ByteOf(k) < |data|
  }

  function Signed(nibble: nat): int
    requires nibble < 16
  {
    if nibble < 8 then nibble else nibble - 16
  }

  /** What the filter gets for one sample: its signed nibble, and its frame's scale and coefficients. */
  datatype Tap = Tap(nibble: int, scale: nat, c1: int, c2: int) {
    function Next(h: History): History {
      History(Filter(nibble * scale, c1, c2, h), h.yn1)
    }
  }

  function TapAt(nibble: nat, header: Byte, coeff: seq<int>): Tap
    requires |coeff| == 16 && nibble < 16
  {
    Tap(Signed(nibble), Power2(Low(header)), coeff[PairOf(header) * 2], coeff[PairOf(header) * 2 + 1])
  }

  function TapOf(data: seq<Byte>, coeff: seq<int>, n: nat): Tap
    requires |coeff| == 16 && ByteOf(n) < |data|
  {
    var b := data[ByteOf(n)];
    TapAt(if n % 2 == 0 then High(b) else Low(b), data[HeaderOf(n)], coeff)
  }

  /** The history after n samples. */
  function After(data: seq<Byte>, coeff: seq<int>, h: History, n: nat): History
    requires |coeff| == 16 && Holds(data, n)
  {
    if n == 0 then h else TapOf(data, coeff, n - 1).Next(After(data, coeff, h, n - 1))
  }

  /** The first n samples: the recursive filter run over the data. */
  function Decoded(data: seq<Byte>, coeff: seq<int>, h: History, n: nat): (s: seq<Stereo>)
    requires |coeff| == 16 && Holds(data, n)
    ensures |s| == n
  {
    if n == 0 then [] else
      var y := After(data, coeff, h, n).yn1;
      Decoded(data, coeff, h, n - 1) + [Stereo(y, y)]
  }

  // ----- decoding in two goes -----

  lemma FrameShift(m: nat, k: nat)
    requires m % SAMPLES_PER_FRAME == 0
    ensures (m + k) / SAMPLES_PER_FRAME == m / SAMPLES_PER_FRAME + k / SAMPLES_PER_FRAME
    ensures (m + k) % SAMPLES_PER_FRAME == k % SAMPLES_PER_FRAME && (m + k) % 2 == k % 2
    ensures HeaderOf(m + k) == HeaderOf(m) + HeaderOf(k) && ByteOf(m + k) == HeaderOf(m) + ByteOf(k)
  {
    var f, g, j := m / SAMPLES_PER_FRAME, k / SAMPLES_PER_FRAME, k % SAMPLES_PER_FRAME;
    assert m == 14 * f && k == 14 * g + j;
    InWholeFrames(f + g, j);
    EvenShift(7 * f, k);
    assert m + k == 14 * (f + g) + j && m + k == 2 * (7 * f) + k;
  }

  lemma EvenShift(e: nat, k: nat)
    ensures (2 * e + k) % 2 == k % 2
  {
  }

  lemma InWholeFrames(f: nat, j: nat)
    requires j < 14
    ensures (14 * f + j) / 14 == f && (14 * f + j) % 14 == j
  {
  }

  /** The data from the frame of sample m on. */
  function From(data: seq<Byte>, m: nat): seq<Byte> {
    if HeaderOf(m) <= |data| then data[HeaderOf(m)..] else []
  }

  lemma TapShift(data: seq<Byte>, coeff: seq<int>, m: nat, k: nat)
    requires |coeff| == 16 && m % SAMPLES_PER_FRAME == 0 && ByteOf(m + k) < |data|
    ensures ByteOf(k) < |From(data, m)| && TapOf(data, coeff, m + k) == TapOf(From(data, m), coeff, k)
  {
    hide TapAt, HeaderOf, ByteOf, High, Low;
    FrameShift(m, k);
    ByteOfFrame(k);
  }

  lemma ByteOfFrame(k: nat)
    ensures ByteOf(k) > HeaderOf(k)
  {
  }

  lemma HoldsShift(data: seq<Byte>, m: nat, n: nat)
    requires m % SAMPLES_PER_FRAME == 0 && Holds(data, m + n)
    ensures Holds(From(data, m), n)
  {
    hide HeaderOf, ByteOf;
    forall k: nat | k < n ensures ByteOf(k) < |From(data, m)| {
      FrameShift(m, k);
      assert ByteOf(m + k) < |data|;
    }
  }

  lemma {:induction false} AfterShift(data: seq<Byte>, coeff: seq<int>, h: History, m: nat, k: nat)
    requires |coeff| == 16 && m % SAMPLES_PER_FRAME == 0 && Holds(data, m + k)
    ensures Holds(From(data, m), k)
    ensures After(data, coeff, h, m + k) == After(From(data, m), coeff, After(data, coeff, h, m), k)
    decreases k
  {
    hide ByteOf, Filter, TapOf, From;
    HoldsShift(data, m, k);
    if k > 0 {
      assert ByteOf(m + (k - 1)) < |data|;
      TapShift(data, coeff, m, k - 1);
      AfterShift(data, coeff, h, m, k - 1);
    }
  }

  /** Decoding m + n samples is decoding m of them, a whole number of frames, and then n with the state carried over. */
  lemma {:induction false} DecodeInTwo(data: seq<Byte>, coeff: seq<int>, h: History, m: nat, n: nat)
    requires |coeff| == 16 && m % SAMPLES_PER_FRAME == 0 && Holds(data, m + n)
    ensures Holds(From(data, m), n)
    ensures Decoded(data, coeff, h, m + n)
         == Decoded(data, coeff, h, m) + Decoded(From(data, m), coeff, After(data, coeff, h, m), n)
    ensures After(data, coeff, h, m + n) == After(From(data, m), coeff, After(data, coeff, h, m), n)
    decreases n
  {
    hide After, ByteOf, From;
    AfterShift(data, coeff, h, m, n);
    if n > 0 {
      DecodeInTwo(data, coeff, h, m, n - 1);
    }
  }

  // ----- the code -----

  class ADPCMState {
    var yn1: int
    var yn2: int

    constructor (yn1: int, yn2: int)
      ensures this.yn1 == yn1 && this.yn2 == yn2
    {
      this.yn1, this.yn2 := yn1, yn2;
    }

    function View(): History
      reads this
    {
      History(yn1, yn2)
    }
  }

  /** decode_sample: one nibble through the filter, which moves the feedback on. */
  method DecodeSample(nibble: int, scale: int, coef1: int, coef2: int, h: History) returns (r: History)
    ensures r == History(Filter(nibble * scale, coef1, coef2, h), h.yn1)
  {
    var xn := nibble * scale;
    var val := (xn * 2048 + 0x400 + coef1 * h.yn1 + coef2 * h.yn2) / 2048;
    val := if val < -32768 then -32768 else if val > 32767 then 32767 else val;
    r := History(val, h.yn1);
  }

  lemma InFrame(framei: nat, i: nat)
    requires i < SAMPLES_PER_FRAME
    ensures var n := framei * SAMPLES_PER_FRAME + i;
      HeaderOf(n) == framei * FRAME_LEN && n % 2 == i % 2 && ByteOf(n) == framei * FRAME_LEN + 1 + i / 2
  {
    InWholeFrames(framei, i);
    EvenShift(7 * framei, i);
    assert framei * SAMPLES_PER_FRAME + i == 14 * framei + i == 2 * (7 * framei) + i;
  }

  lemma PairOfSamples(data: seq<Byte>, coeff: seq<int>, framei: nat, j: nat)
    requires |coeff| == 16 && j < 7 && framei * FRAME_LEN + 1 + j < |data|
    ensures var n := framei * SAMPLES_PER_FRAME + 2 * j;
      var header, b := data[framei * FRAME_LEN], data[framei * FRAME_LEN + 1 + j];
      && ByteOf(n) == ByteOf(n + 1) == framei * FRAME_LEN + 1 + j
      && TapOf(data, coeff, n) == TapAt(High(b), header, coeff)
      && TapOf(data, coeff, n + 1) == TapAt(Low(b), header, coeff)
  {
    hide TapAt, ByteOf, HeaderOf, High, Low;
    InFrame(framei, 2 * j);
    InFrame(framei, 2 * j + 1);
    HalfOf(j);
  }

  lemma HalfOf(j: nat)
    ensures 2 * j / 2 == j == (2 * j + 1) / 2 && 2 * j % 2 == 0 && (2 * j + 1) % 2 == 1
  {
  }

  function FrameEnd(sampleCount: nat, framei: nat): nat {
    if Rounded(sampleCount) < (framei + 1) * SAMPLES_PER_FRAME then Rounded(sampleCount)
    else (framei + 1) * SAMPLES_PER_FRAME
  }

  /** Both samples of one byte. */
  method DecodePair(data: seq<Byte>, ghost coeff: seq<int>, framei: nat, outputi: nat, datai: nat,
                    scale: nat, coef1: int, coef2: int, ret: array<Stereo>, h0: History, ghost start: History)
    returns (h: History)
    requires |coeff| == 16 && framei * FRAME_LEN < datai < (framei + 1) * FRAME_LEN && datai < |data|
    requires outputi == framei * SAMPLES_PER_FRAME + 2 * (datai - framei * FRAME_LEN - 1)
    requires outputi + 2 <= ret.Length && Holds(data, outputi + 2)
    requires var header := data[framei * FRAME_LEN];
      scale == Power2(Low(header)) && coef1 == coeff[PairOf(header) * 2] && coef2 == coeff[PairOf(header) * 2 + 1]
    requires h0 == After(data, coeff, start, outputi) && ret[..outputi] == Decoded(data, coeff, start, outputi)
    modifies ret
    ensures h == After(data, coeff, start, outputi + 2)
    ensures ret[..outputi + 2] == Decoded(data, coeff, start, outputi + 2)
  {
    hide Filter, TapOf, Power2, ByteOf, After, Decoded, Signed, Low, High, PairOf;
    PairOfSamples(data, coeff, framei, datai - framei * FRAME_LEN - 1);
    h := DecodeSample(Signed(High(data[datai])), scale, coef1, coef2, h0);
    PutSample(data, coeff, start, ret, outputi, h);
    h := DecodeSample(Signed(Low(data[datai])), scale, coef1, coef2, h);
    PutSample(data, coeff, start, ret, outputi + 1, h);
  }

  /** Decodes one frame, two samples at a time, stopping at sampleCount. */
  method DecodeFrame(data: seq<Byte>, sampleCount: nat, coeff: seq<int>, ret: array<Stereo>, framei: nat,
                     h0: History, ghost start: History)
    returns (h: History)
    requires |coeff| == 16 && Holds(data, Rounded(sampleCount)) && ret.Length == Rounded(sampleCount)
    requires framei * SAMPLES_PER_FRAME < sampleCount
    requires h0 == After(data, coeff, start, framei * SAMPLES_PER_FRAME)
    requires ret[..framei * SAMPLES_PER_FRAME] == Decoded(data, coeff, start, framei * SAMPLES_PER_FRAME)
    modifies ret
    ensures var end := FrameEnd(sampleCount, framei);
      h == After(data, coeff, start, end) && ret[..end] == Decoded(data, coeff, start, end)
  {
    hide Filter, TapOf, Power2, ByteOf, After, Decoded, FrameEnd, Rounded, Holds, Low, PairOf;
    ghost var first := framei * SAMPLES_PER_FRAME;
    h := h0;
    EvenRoom(sampleCount, 7 * framei);
    FrameStarts(data, Rounded(sampleCount), framei);
    HoldsLess(data, Rounded(sampleCount), first);
    var header := data[framei * FRAME_LEN];
    var scale := Power2(Low(header));
    var idx := PairOf(header);
    var coef1, coef2 := coeff[idx * 2], coeff[idx * 2 + 1];
    var outputi, datai := framei * SAMPLES_PER_FRAME, framei * FRAME_LEN + 1;
    var i := 0;
    while i < SAMPLES_PER_FRAME && outputi < sampleCount
      invariant 0 <= i <= SAMPLES_PER_FRAME && i == 2 * (datai - framei * FRAME_LEN - 1) && outputi == first + i
      invariant outputi <= Rounded(sampleCount) && Holds(data, outputi)
      invariant h == After(data, coeff, start, outputi) && ret[..outputi] == Decoded(data, coeff, start, outputi)
    {
      EvenRoom(sampleCount, 7 * framei + (datai - framei * FRAME_LEN - 1));
      HoldsLess(data, Rounded(sampleCount), outputi + 2);
      ByteHeld(data, framei, datai - framei * FRAME_LEN - 1);
      h := DecodePair(data, coeff, framei, outputi, datai, scale, coef1, coef2, ret, h, start);
      outputi := outputi + 2;
      datai := datai + 1;
      i := i + 2;
    }
    FrameEndIs(sampleCount, framei, 7 * framei + (datai - framei * FRAME_LEN - 1));
  }

  lemma HoldsLess(data: seq<Byte>, n: nat, m: nat)
    requires Holds(data, n) && m <= n
    ensures Holds(data, m)
  {
  }

  lemma FrameStarts(data: seq<Byte>, n: nat, framei: nat)
    requires Holds(data, n) && framei * SAMPLES_PER_FRAME < n
    ensures framei * FRAME_LEN < |data|
  {
    hide ByteOf;
    InFrame(framei, 0);
    assert ByteOf(framei * SAMPLES_PER_FRAME) < |data|;
  }

  lemma ByteHeld(data: seq<Byte>, framei: nat, j: nat)
    requires j < 7 && Holds(data, framei * SAMPLES_PER_FRAME + 2 * j + 2)
    ensures framei * FRAME_LEN + 1 + j < |data|
  {
    hide ByteOf, HeaderOf;
    InFrame(framei, 2 * j);
    HalfOf(j);
    assert ByteOf(framei * SAMPLES_PER_FRAME + 2 * j) < |data|;
  }

  lemma EvenRoom(sampleCount: nat, half: nat)
    requires 2 * half < sampleCount
    ensures 2 * half + 2 <= Rounded(sampleCount)
  {
  }

  lemma FrameEndIs(sampleCount: nat, framei: nat, half: nat)
    requires 2 * half <= Rounded(sampleCount) && half <= 7 * (framei + 1)
    requires half == 7 * (framei + 1) || 2 * half >= sampleCount
    ensures 2 * half == FrameEnd(sampleCount, framei)
  {
    HalfOf(half);
  }

  /** Fills the next slot, in both channels. */
  method PutSample(ghost data: seq<Byte>, ghost coeff: seq<int>, ghost start: History, ret: array<Stereo>, n: nat,
                   h: History)
    requires n < ret.Length && |coeff| == 16 && Holds(data, n + 1)
    requires ByteOf(n) < |data| && h == TapOf(data, coeff, n).Next(After(data, coeff, start, n))
    requires ret[..n] == Decoded(data, coeff, start, n)
    modifies ret
    ensures h == After(data, coeff, start, n + 1) && ret[..n + 1] == Decoded(data, coeff, start, n + 1)
  {
    hide TapOf, ByteOf;
    ret[n] := Stereo(h.yn1, h.yn1);
    assert ret[..n + 1] == ret[..n] + [ret[n]];
  }

  method DecodeADPCM(data: seq<Byte>, sampleCount: nat, coeff: seq<int>, state: ADPCMState) returns (ret: array<Stereo>)
    requires |coeff| == 16 && Holds(data, Rounded(sampleCount))
    modifies state
    ensures fresh(ret) && ret[..] == Decoded(data, coeff, old(state.View()), Rounded(sampleCount))
    ensures state.View() == After(data, coeff, old(state.View()), Rounded(sampleCount))
    ensures ret.Length == sampleCount <==> sampleCount % 2 == 0
  {
    hide After, Decoded, ByteOf;
    ghost var start := state.View();
    var retSize := if sampleCount % 2 == 0 then sampleCount else sampleCount + 1;
    ret := new Stereo[retSize](_ => Stereo(0, 0));
    var h := History(state.yn1, state.yn2);
    var numFrames := (sampleCount + (SAMPLES_PER_FRAME - 1)) / SAMPLES_PER_FRAME;
    ghost var end := 0;
    NothingYet(data, coeff, start);
    for framei := 0 to numFrames
      invariant end == if framei == 0 then 0 else FrameEnd(sampleCount, framei - 1)
      invariant h == After(data, coeff, start, end) && ret[..end] == Decoded(data, coeff, start, end)
    {
      assert end == framei * SAMPLES_PER_FRAME < sampleCount;
      h := DecodeFrame(data, sampleCount, coeff, ret, framei, h, start);
      end := FrameEnd(sampleCount, framei);
    }
    assert end == Rounded(sampleCount) && ret[..end] == ret[..];
    state.yn1 := h.yn1;
    state.yn2 := h.yn2;
  }

  lemma {:induction false} NothingYet(data: seq<Byte>, coeff: seq<int>, h: History)
    requires |coeff| == 16
    ensures After(data, coeff, h, 0) == h && Decoded(data, coeff, h, 0) == []
  {
  }

  // ----- 32-bit arithmetic -----

  predicate Fits32(v: int) {
    -0x8000_0000 <= v <= 0x7FFF_FFFF
  }

  /** Every intermediate value of the filter fits a signed 32-bit integer. */
  predicate StepFits(nibble: int, scale: int, c1: int, c2: int, h: History) {
    var xn := nibble * scale;
    && Fits32(xn) && Fits32(xn * 2048) && Fits32(xn * 2048 + 0x400)
    && Fits32(c1 * h.yn1) && Fits32(c2 * h.yn2)
    && Fits32(xn * 2048 + 0x400 + c1 * h.yn1)
    && Fits32(xn * 2048 + 0x400 + c1 * h.yn1 + c2 * h.yn2)
  }

  /** ... for every nibble, scale and history. */
  ghost predicate AlwaysFits(c1: int, c2: int) {
    forall nibble: int, e: nat, h: History {:trigger StepFits(nibble, Power2(e), c1, c2, h)} ::
      -8 <= nibble < 8 && e < 16 && IsS16(h.yn1) && IsS16(h.yn2) ==> StepFits(nibble, Power2(e), c1, c2, h)
  }

  /** The least and the greatest c * y over all s16 values y. */
  function Least(c: int): int {
    if c >= 0 then -32768 * c else 32767 * c
  }

  function Greatest(c: int): int {
    if c >= 0 then 32767 * c else -32768 * c
  }

  /** The lower extreme stays inside; the upper one then does too. */
  predicate PairFits(c1: int, c2: int) {
    -8 * 32768 * 2048 + 0x400 + Least(c1) + Least(c2) >= -0x8000_0000
  }

  lemma Monotone(c: nat, a: int, b: int)
    requires a <= b
    ensures c * a <= c * b
  {
  }

  lemma ProductBounds(c: int, y: int)
    requires IsS16(c) && IsS16(y)
    ensures Least(c) <= c * y <= Greatest(c)
    ensures -0x4000_0000 <= c * y <= 0x4000_0000
  {
    if c >= 0 {
      Monotone(c, -32768, y);
      Monotone(c, y, 32767);
    } else {
      Monotone(-c, -32768, y);
      Monotone(-c, y, 32767);
      assert c * y == -(-c * y);
    }
  }

  lemma InputBounds(nibble: int, e: nat)
    requires -8 <= nibble < 8 && e < 16
    ensures -8 * 32768 <= nibble * Power2(e) <= 7 * 32768
  {
    var s := Power2(e);
    assert 1 <= s <= 32768;
    if nibble >= 0 {
      assert nibble * s <= 7 * s;
    } else {
      assert -8 * s <= nibble * s;
    }
  }

  /** The filter never leaves the 32-bit range exactly when the coefficient pair keeps its extremes inside. */
  lemma FitsExactly(c1: int, c2: int)
    requires IsS16(c1) && IsS16(c2)
    ensures AlwaysFits(c1, c2) <==> PairFits(c1, c2)
  {
    if PairFits(c1, c2) {
      forall nibble: int, e: nat, h: History | -8 <= nibble < 8 && e < 16 && IsS16(h.yn1) && IsS16(h.yn2)
        ensures StepFits(nibble, Power2(e), c1, c2, h)
      {
        ProductBounds(c1, h.yn1);
        ProductBounds(c2, h.yn2);
        InputBounds(nibble, e);
      }
    } else {
      var low := History(if c1 >= 0 then -32768 else 32767, if c2 >= 0 then -32768 else 32767);
      assert Power2(15) == 32768;
      assert !StepFits(-8, Power2(15), c1, c2, low);
    }
  }

  /** A simple sufficient condition. */
  lemma SmallCoefficientsFit(c1: int, c2: int)
    requires Abs(c1) + Abs(c2) <= 49151
    ensures PairFits(c1, c2)
  {
  }

  lemma {:induction false} AfterInRange(data: seq<Byte>, coeff: seq<int>, h: History, n: nat)
    requires |coeff| == 16 && Holds(data, n) && IsS16(h.yn1) && IsS16(h.yn2)
    ensures IsS16(After(data, coeff, h, n).yn1) && IsS16(After(data, coeff, h, n).yn2)
  {
    if n > 0 { AfterInRange(data, coeff, h, n - 1); }
  }

  /** With small coefficients no sample of any input overflows, and the saved state fits s16. */
  lemma {:induction false} DecodingFits(data: seq<Byte>, coeff: seq<int>, h: History, count: nat, n: nat)
    requires IsCoefficients(coeff) && Holds(data, count) && n < count && IsS16(h.yn1) && IsS16(h.yn2)
    requires forall i :: 0 <= i < 8 ==> PairFits(coeff[2 * i], coeff[2 * i + 1])
    ensures Holds(data, n) && ByteOf(n) < |data|
    ensures var t := TapOf(data, coeff, n); StepFits(t.nibble, t.scale, t.c1, t.c2, After(data, coeff, h, n))
  {
    hide After, TapOf, ByteOf, PairFits, StepFits, Power2, AlwaysFits;
    assert ByteOf(n) < |data|;
    var t := TapOf(data, coeff, n);
    AfterInRange(data, coeff, h, n);
    var i, e := TapFields(data, coeff, n);
    FitsExactly(t.c1, t.c2);
    AlwaysFitsAt(t.nibble, e, t.c1, t.c2, After(data, coeff, h, n));
  }

  lemma AlwaysFitsAt(nibble: int, e: nat, c1: int, c2: int, h: History)
    requires AlwaysFits(c1, c2) && -8 <= nibble < 8 && e < 16 && IsS16(h.yn1) && IsS16(h.yn2)
    ensures StepFits(nibble, Power2(e), c1, c2, h)
  {
    hide StepFits, Power2;
  }

  lemma TapFields(data: seq<Byte>, coeff: seq<int>, n: nat) returns (i: nat, e: nat)
    requires |coeff| == 16 && ByteOf(n) < |data|
    ensures i < 8 && e < 16
    ensures var t := TapOf(data, coeff, n);
      -8 <= t.nibble < 8 && t.scale == Power2(e) && t.c1 == coeff[2 * i] && t.c2 == coeff[2 * i + 1]
  {
    hide Power2, ByteOf, HeaderOf, Low, High, PairOf;
    ByteOfFrame(n);
    var header := data[HeaderOf(n)];
    i, e := PairOf(header), Low(header);
  }
}
