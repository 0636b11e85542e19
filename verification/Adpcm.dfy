/** The ADPCM coder and decoder: 16-bit samples to 4-bit codes, two to a byte, and back. */
module Adpcm {

  type Sample = x: int | -32768 <= x <= 32767
  type Index = i: int | 0 <= i <= 88
  type Code = c: int | 0 <= c <= 15

  /** A signed char. */
  type Byte = b: int | -128 <= b <= 127

  const INDEX_TABLE: seq<int> := [-1, -1, -1, -1, 2, 4, 6, 8, -1, -1, -1, -1, 2, 4, 6, 8]

  type StepSize = s: int | 7 <= s <= 32767 witness 7

  const STEPS_0: seq<StepSize> := [7, 8, 9, 10, 11, 12, 13, 14, 16, 17]
  const STEPS_10: seq<StepSize> := [19, 21, 23, 25, 28, 31, 34, 37, 41, 45]
  const STEPS_20: seq<StepSize> := [50, 55, 60, 66, 73, 80, 88, 97, 107, 118]
  const STEPS_30: seq<StepSize> := [130, 143, 157, 173, 190, 209, 230, 253, 279, 307]
  const STEPS_40: seq<StepSize> := [337, 371, 408, 449, 494, 544, 598, 658, 724, 796]
  const STEPS_50: seq<StepSize> := [876, 963, 1060, 1166, 1282, 1411, 1552, 1707, 1878, 2066]
  const STEPS_60: seq<StepSize> := [2272, 2499, 2749, 3024, 3327, 3660, 4026, 4428, 4871, 5358]
  const STEPS_70: seq<StepSize> := [5894, 6484, 7132, 7845, 8630, 9493, 10442, 11487, 12635, 13899]
  const STEPS_80: seq<StepSize> := [15289, 16818, 18500, 20350, 22385, 24623, 27086, 29794, 32767]

  const STEPSIZE_TABLE: seq<StepSize> :=
    ((STEPS_0 + STEPS_10) + (STEPS_20 + STEPS_30)) + (((STEPS_40 + STEPS_50) + (STEPS_60 + STEPS_70)) + STEPS_80)

  /** What coder and decoder each keep: the last output value and the place in the table of step sizes. */
  datatype State = State(valprev: Sample, index: Index)

  // ---------- One sample ----------

  function StepOf(index: Index): (step: nat)
    ensures 7 <= step <= 32767
  {
    STEPSIZE_TABLE[index]
  }

  function ClampIndex(i: int): (r: Index) {
    if i < 0 then 0 else if i > 88 then 88 else i
  }

  function ClampSample(v: int): (r: Sample) {
    if v > 32767 then 32767 else if v < -32768 then -32768 else v
  }

  /** By how much a code of this magnitude moves the output value. */
  function VpDiff(step: nat, magnitude: nat): (d: nat) {
    step / 8
    + (if magnitude / 4 % 2 == 1 then step else 0)
    + (if magnitude / 2 % 2 == 1 then step / 2 else 0)
    + (if magnitude % 2 == 1 then step / 4 else 0)
  }

  /** What a code does to the state. */
  function Next(s: State, code: Code): (t: State) {
    var d := VpDiff(StepOf(s.index), code % 8);
    State(ClampSample(if code >= 8 then s.valprev - d else s.valprev + d), ClampIndex(s.index + INDEX_TABLE[code]))
  }

  /** The step size in three binary places: what of the difference each bit of the magnitude takes. */
  function Magnitude(diff: nat, step: nat): (m: nat)
    ensures m < 8
  {
    var (b4, d4) := if diff >= step then (4, diff - step) else (0, diff);
    var (b2, d2) := if d4 >= step / 2 then (2, d4 - step / 2) else (0, d4);
    b4 + b2 + if d2 >= step / 4 then 1 else 0
  }

  /** The code for a sample. */
  function CodeOf(s: State, val: Sample): (c: Code) {
    if val < s.valprev then 8 + Magnitude(s.valprev - val, StepOf(s.index))
    else Magnitude(val - s.valprev, StepOf(s.index))
  }

  function Abs(x: int): (a: nat) {
    if x < 0 then -x else x
  }

  lemma {:induction false} MagnitudeCloses(diff: nat, step: nat)
    requires step > 0
    ensures var d := VpDiff(step, Magnitude(diff, step));
            if diff < 2 * step then diff - (step / 8 + 2) <= d <= diff + step / 8
            else d == step + step / 2 + step / 4 + step / 8 < diff
  {
    var (h, q, e) := (step / 2, step / 4, step / 8);
    assert 2 * h <= step <= 2 * h + 1 && 2 * q <= h <= 2 * q + 1 && 2 * e <= q <= 2 * e + 1;
    var x := diff >= step;
    var d4 := if x then diff - step else diff;
    var y := d4 >= h;
    var d2 := if y then d4 - h else d4;
    BitsOfMagnitude(step, x, y, d2 >= q);
    if diff < 2 * step {
      assert 0 <= d4 < step && 0 <= d2 <= h + 1;
    }
  }

  lemma {:induction false} BitsOfMagnitude(step: nat, x: bool, y: bool, z: bool)
    ensures VpDiff(step, (if x then 4 else 0) + (if y then 2 else 0) + (if z then 1 else 0))
            == step / 8 + (if x then step else 0) + (if y then step / 2 else 0) + (if z then step / 4 else 0)
  {
  }

  /**
   Within twice the step the new output value is as near the sample as an eighth of the step and two more; from
   farther away it comes nearer by almost twice the step, and does not pass the sample.
   */
  lemma {:induction false} Accuracy(s: State, val: Sample)
    ensures var (v, step) := (Next(s, CodeOf(s, val)).valprev, StepOf(s.index));
            if Abs(val - s.valprev) < 2 * step then Abs(val - v) <= step / 8 + 2
            else Abs(val - v) == Abs(val - s.valprev) - (step + step / 2 + step / 4 + step / 8)
  {
    var (diff, step) := (Abs(val - s.valprev), StepOf(s.index));
    MagnitudeCloses(diff, step);
    CodeParts(s, val);
    Moves(s.valprev, val, VpDiff(step, Magnitude(diff, step)));
  }

  lemma {:induction false} SignAndMagnitude(m: nat, sign: nat)
    requires m < 8 && (sign == 0 || sign == 8)
    ensures (m + sign) % 8 == m && (m + sign >= 8 <==> sign == 8)
  {
  }

  lemma {:induction false} CodeParts(s: State, val: Sample)
    ensures var (c, m) := (CodeOf(s, val), Magnitude(Abs(val - s.valprev), StepOf(s.index)));
            c % 8 == m && (c >= 8 <==> val < s.valprev)
  {
    SignAndMagnitude(Magnitude(Abs(val - s.valprev), StepOf(s.index)), if val < s.valprev then 8 else 0);
  }

  /** Clamping never takes the output value farther from a sample. */
  lemma {:induction false} Moves(from: Sample, val: Sample, d: nat)
    ensures var (v, e) := (ClampSample(if val < from then from - d else from + d), Abs(val - from) - d);
            if e >= 0 then Abs(val - v) == e else Abs(val - v) <= -e
  {
  }

  // ---------- What the tables and the bits of a code mean ----------

  /** From where on a difference gets the magnitude m: m quarters of the step, cut to whole numbers bit by bit. */
  function Threshold(step: nat, m: nat): (d: nat)
    requires m < 8
  {
    var (h, q) := (step / 2, step / 4);
    [0, q, h, h + q, step, step + q, step + h, step + h + q][m]
  }

  /** The thresholds rise, about a quarter of the step each. */
  lemma {:induction false} ThresholdsRise(step: nat, m: nat)
    requires step >= 7 && m < 8
    ensures 4 * Threshold(step, m) <= m * step <= 4 * Threshold(step, m) + 5
    ensures m < 7 ==> Threshold(step, m) < Threshold(step, m + 1)
  {
    var (h, q) := (step / 2, step / 4);
    assert 2 * h <= step <= 2 * h + 1 && 4 * q <= step <= 4 * q + 3 && 2 * q <= h <= 2 * q + 1;
    if m <= 3 {
      assert m == 0 || m == 1 || m == 2 || m == 3;
    } else {
      assert m == 4 || m == 5 || m == 6 || m == 7;
    }
  }

  /** The magnitude is that of the last threshold not above the difference. */
  lemma {:induction false} MagnitudeMeans(diff: nat, step: nat)
    ensures var m := Magnitude(diff, step);
            Threshold(step, m) <= diff && (m < 7 ==> diff < Threshold(step, m + 1))
  {
    var (h, q) := (step / 2, step / 4);
    assert 2 * h <= step <= 2 * h + 1 && 2 * q <= h <= 2 * q + 1;
  }

  /**
   The code for a sample: its sign says on which side of the output value the sample is, its magnitude how many quarters
   of the step it is away, 7 for all that is farther.
   */
  lemma {:induction false} CodeMeans(s: State, val: Sample)
    ensures var (c, step, d) := (CodeOf(s, val), StepOf(s.index), Abs(val - s.valprev));
            && (c >= 8 <==> val < s.valprev)
            && Threshold(step, c % 8) <= d && (c % 8 < 7 ==> d < Threshold(step, c % 8 + 1))
  {
    CodeParts(s, val);
    MagnitudeMeans(Abs(val - s.valprev), StepOf(s.index));
  }

  /** A code of magnitude m moves the output value by m and a half quarters of the step, but for what is cut off. */
  lemma {:induction false} MoveMeans(step: nat, m: nat)
    requires m < 8
    ensures VpDiff(step, m) == Threshold(step, m) + step / 8
    ensures 8 * VpDiff(step, m) <= (2 * m + 1) * step <= 8 * VpDiff(step, m) + 17
  {
    var (h, q, e) := (step / 2, step / 4, step / 8);
    assert 2 * h <= step <= 2 * h + 1 && 4 * q <= step <= 4 * q + 3 && 8 * e <= step <= 8 * e + 7;
    if m <= 3 {
      assert m == 0 || m == 1 || m == 2 || m == 3;
    } else {
      assert m == 4 || m == 5 || m == 6 || m == 7;
    }
  }

  /**
   What a code does.  The output value moves by its threshold and an eighth of the step, and stops at the ends of its
   range; magnitudes below 4 take the step down by one place, 4 to 7 take it up by 2, 4, 6 and 8, within the table.
   */
  lemma {:induction false} NextMeans(s: State, code: Code)
    ensures var (t, m, step) := (Next(s, code), code % 8, StepOf(s.index));
            var d := Threshold(step, m) + step / 8;
            var v: int := if code >= 8 then s.valprev - d else s.valprev + d;
            && t.valprev == (if v > 32767 then 32767 else if v < -32768 then -32768 else v)
            && t.index == if m < 4 then (if s.index == 0 then 0 else s.index - 1)
                          else if s.index + 2 * m - 6 > 88 then 88 else s.index + 2 * m - 6
  {
    IndexChange(code);
    MoveMeans(StepOf(s.index), code % 8);
  }

  lemma {:induction false} IndexChange(code: Code)
    ensures INDEX_TABLE[code] == if code % 8 < 4 then -1 else 2 * (code % 8) - 6
  {
  }

  /** How the step adapts to the sample, said without codes. */
  lemma {:induction false} StepAdapts(s: State, val: Sample)
    ensures var (i, step, d) := (Next(s, CodeOf(s, val)).index, StepOf(s.index), Abs(val - s.valprev));
            if d < step then i == if s.index == 0 then 0 else s.index - 1
            else
              var up := 2 + (if d - step >= step / 2 then 4 else 0)
                        + if d - step - (if d - step >= step / 2 then step / 2 else 0) >= step / 4 then 2 else 0;
              i == if s.index + up > 88 then 88 else s.index + up
  {
    CodeMeans(s, val);
    NextMeans(s, CodeOf(s, val));
    var step := StepOf(s.index);
    forall m: nat | m < 7
      ensures Threshold(step, m) < Threshold(step, m + 1)
    {
      ThresholdsRise(step, m);
    }
  }

  /** The step after place i is larger, by about a tenth; the last one is cut short. */
  predicate GrowsAt(i: nat)
    requires i < 88
  {
    StepOf(i) < StepOf(i + 1) && (i < 87 ==> -8 <= 10 * StepOf(i + 1) - 11 * StepOf(i) <= 8)
  }

  lemma {:induction false} Steps0(i: nat)
    requires 0 <= i < 10
    ensures GrowsAt(i)
  {
  }

  lemma {:induction false} Steps10(i: nat)
    requires 10 <= i < 20
    ensures GrowsAt(i)
  {
  }

  lemma {:induction false} Steps20(i: nat)
    requires 20 <= i < 30
    ensures GrowsAt(i)
  {
  }

  lemma {:induction false} Steps30(i: nat)
    requires 30 <= i < 40
    ensures GrowsAt(i)
  {
  }

  lemma {:induction false} Steps40(i: nat)
    requires 40 <= i < 50
    ensures GrowsAt(i)
  {
  }

  lemma {:induction false} Steps50(i: nat)
    requires 50 <= i < 60
    ensures GrowsAt(i)
  {
  }

  lemma {:induction false} Steps60(i: nat)
    requires 60 <= i < 70
    ensures GrowsAt(i)
  {
  }

  lemma {:induction false} Steps70(i: nat)
    requires 70 <= i < 80
    ensures GrowsAt(i)
  {
  }

  lemma {:induction false} Steps80(i: nat)
    requires 80 <= i < 88
    ensures GrowsAt(i)
  {
  }

  /** The steps go from 7 to 32767, each about a tenth above the one before; only the last is cut short. */
  lemma {:induction false} StepsGrow(i: nat)
    requires i < 88
    ensures StepOf(0) == 7 && StepOf(88) == 32767 && StepOf(i) < StepOf(i + 1)
    ensures i < 87 ==> -8 <= 10 * StepOf(i + 1) - 11 * StepOf(i) <= 8
  {
    if i < 10 {
      Steps0(i);
    } else if i < 20 {
      Steps10(i);
    } else if i < 30 {
      Steps20(i);
    } else if i < 40 {
      Steps30(i);
    } else if i < 50 {
      Steps40(i);
    } else if i < 60 {
      Steps50(i);
    } else if i < 70 {
      Steps60(i);
    } else if i < 80 {
      Steps70(i);
    } else {
      Steps80(i);
    }
  }

  // ---------- Many samples ----------

  /** The state after some codes. */
  function Run(s: State, codes: seq<Code>): (t: State) {
    if codes == [] then s else Next(Run(s, codes[..|codes| - 1]), codes[|codes| - 1])
  }

  /** The output values on the way. */
  function Outputs(s: State, codes: seq<Code>): (out: seq<Sample>)
    ensures |out| == |codes|
  {
    if codes == [] then [] else Outputs(s, codes[..|codes| - 1]) + [Run(s, codes).valprev]
  }

  /** The codes of some samples: each depends on the state that the codes before it lead to. */
  function Codes(s: State, vals: seq<Sample>): (codes: seq<Code>)
    ensures |codes| == |vals|
  {
    if vals == [] then []
    else var before := Codes(s, vals[..|vals| - 1]); before + [CodeOf(Run(s, before), vals[|vals| - 1])]
  }

  /** Each code is that of its sample in the state that the codes before it lead to. */
  lemma {:induction false} CodeAt(s: State, vals: seq<Sample>, i: nat)
    requires i < |vals|
    ensures Codes(s, vals)[i] == CodeOf(Run(s, Codes(s, vals)[..i]), vals[i])
  {
    var before := Codes(s, vals[..|vals| - 1]);
    if i < |vals| - 1 {
      CodeAt(s, vals[..|vals| - 1], i);
      assert Codes(s, vals)[..i] == before[..i];
    } else {
      assert Codes(s, vals)[..i] == before;
    }
  }

  /** Each output value is that of the state its code leads to, one after the other from s. */
  lemma {:induction false} OutputAt(s: State, codes: seq<Code>, i: nat)
    requires i < |codes|
    ensures Outputs(s, codes)[i] == Run(s, codes[..i + 1]).valprev
    ensures Run(s, codes[..i + 1]) == Next(Run(s, codes[..i]), codes[i]) && Run(s, []) == s
  {
    assert codes[..i + 1][..i] == codes[..i];
    var before := codes[..|codes| - 1];
    if i < |before| {
      OutputAt(s, before, i);
      assert before[..i + 1] == codes[..i + 1];
    } else {
      assert codes[..i + 1] == codes;
    }
  }

  lemma {:induction false} RunOn(s: State, c: seq<Code>, d: seq<Code>)
    ensures Run(s, c + d) == Run(Run(s, c), d) && Outputs(s, c + d) == Outputs(s, c) + Outputs(Run(s, c), d)
  {
    if d == [] {
      assert c + d == c;
    } else {
      var d' := d[..|d| - 1];
      assert (c + d)[..|c + d| - 1] == c + d';
      RunOn(s, c, d');
    }
  }

  lemma {:induction false} CodesOn(s: State, v: seq<Sample>, w: seq<Sample>)
    ensures Codes(s, v + w) == Codes(s, v) + Codes(Run(s, Codes(s, v)), w)
  {
    if w == [] {
      assert v + w == v;
    } else {
      var w' := w[..|w| - 1];
      assert (v + w)[..|v + w| - 1] == v + w';
      CodesOn(s, v, w');
      RunOn(s, Codes(s, v), Codes(Run(s, Codes(s, v)), w'));
    }
  }

  // ---------- Two codes to a byte ----------

  function ToChar(b: int): (c: Byte)
    requires 0 <= b <= 255
  {
    if b > 127 then b - 256 else b
  }

  /** The byte of two codes. */
  function Both(upper: int, lower: int): (b: Byte)
    requires 0 <= upper <= 15 && 0 <= lower <= 15
    ensures Upper(b) == upper && Lower(b) == lower
  {
    ToChar(16 * upper + lower)
  }

  function At(codes: seq<Code>, i: nat): (c: Code) {
    if i < |codes| then codes[i] else 0
  }

  function PairAt(codes: seq<Code>, j: nat): (b: Byte) {
    Both(At(codes, 2 * j), At(codes, 2 * j + 1))
  }

  /** The earlier code is in the upper half; a last one without a partner leaves the lower half 0. */
  function Pack(codes: seq<Code>): (bytes: seq<Byte>)
    ensures |bytes| == (|codes| + 1) / 2
  {
    seq((|codes| + 1) / 2, j requires 0 <= j < (|codes| + 1) / 2 => PairAt(codes, j))
  }

  function Upper(b: Byte): (c: Code) {
    b / 16 % 16
  }

  function Lower(b: Byte): (c: Code) {
    b % 16
  }

  /** The first n codes of some bytes. */
  function Unpack(bytes: seq<Byte>, n: nat): (codes: seq<Code>)
    requires n <= 2 * |bytes|
    ensures |codes| == n
  {
    seq(n, i requires 0 <= i < n => if i % 2 == 0 then Upper(bytes[i / 2]) else Lower(bytes[i / 2]))
  }

  lemma {:induction false} UnpackPack(codes: seq<Code>)
    ensures Unpack(Pack(codes), |codes|) == codes
  {
    forall i: nat | i < |codes|
      ensures Unpack(Pack(codes), |codes|)[i] == codes[i]
    {
      assert Pack(codes)[i / 2] == PairAt(codes, i / 2);
    }
  }

  /** A byte is, modulo 256, 16 times the earlier of its codes and the later one. */
  lemma {:induction false} PackedByte(codes: seq<Code>, j: nat)
    requires 2 * j < |codes|
    ensures Pack(codes)[j] as int % 256 == 16 * (codes[2 * j] as int) + At(codes, 2 * j + 1) as int
  {
    assert Pack(codes)[j] == PairAt(codes, j);
    Modulo(16 * (codes[2 * j] as int) + At(codes, 2 * j + 1) as int);
  }

  lemma {:induction false} Modulo(b: int)
    requires 0 <= b <= 255
    ensures ToChar(b) as int % 256 == b
  {
  }

  /** Any bytes are those of the codes in them. */
  lemma {:induction false} PackUnpack(bytes: seq<Byte>)
    ensures Pack(Unpack(bytes, 2 * |bytes|)) == bytes
  {
    var codes := Unpack(bytes, 2 * |bytes|);
    forall j: nat | j < |bytes|
      ensures Pack(codes)[j] == bytes[j]
    {
      assert Pack(codes)[j] == PairAt(codes, j);
      assert codes[2 * j] == Upper(bytes[j]) && codes[2 * j + 1] == Lower(bytes[j]);
      HalvesMakeByte(bytes[j]);
    }
  }

  lemma {:induction false} HalvesMakeByte(b: Byte)
    ensures Both(Upper(b), Lower(b)) == b
  {
    var n, l: int := b / 16, b % 16;
    assert b as int == 16 * n + l && 0 <= l <= 15 && -8 <= n <= 7;
    assert n % 16 == if n >= 0 then n else n + 16;
  }

  // ---------- Coding in parts ----------

  lemma {:induction false} AtJoin(c: seq<Code>, d: seq<Code>, i: nat)
    ensures i < |c| ==> At(c + d, i) == At(c, i)
    ensures At(c + d, |c| + i) == At(d, i)
  {
  }

  /** The bytes of two parts are those of all codes if they agree pair by pair. */
  lemma {:induction false} PackJoin(c: seq<Code>, d: seq<Code>, n: nat, m: nat)
    requires |Pack(c)| == n && |Pack(d)| == m && |Pack(c + d)| == n + m
    ensures Pack(c + d) == Pack(c) + Pack(d) <==>
              && (forall j: nat :: j < n ==> PairAt(c + d, j) == PairAt(c, j))
              && (forall j: nat {:trigger PairAt(d, j)} :: j < m ==> PairAt(c + d, n + j) == PairAt(d, j))
  {
    var (x, y) := (Pack(c + d), Pack(c) + Pack(d));
    forall j: nat | j < n
      ensures x[j] == PairAt(c + d, j) && y[j] == PairAt(c, j)
    {
    }
    forall j: nat | j < m
      ensures x[n + j] == PairAt(c + d, n + j) && y[n + j] == PairAt(d, j)
    {
    }
  }

  lemma {:induction false} PackOn(c: seq<Code>, d: seq<Code>, p: nat)
    requires |c| == 2 * p
    ensures Pack(c + d) == Pack(c) + Pack(d)
  {
    forall j: nat | j < p
      ensures PairAt(c + d, j) == PairAt(c, j)
    {
      AtJoin(c, d, 2 * j);
      AtJoin(c, d, 2 * j + 1);
    }
    forall j: nat
      ensures PairAt(c + d, p + j) == PairAt(d, j)
    {
      AtJoin(c, d, 2 * j);
      AtJoin(c, d, 2 * j + 1);
    }
    PackJoin(c, d, p, |Pack(d)|);
  }

  ghost predicate AllZero(codes: seq<Code>) {
    forall i :: 0 <= i < |codes| ==> codes[i] == 0
  }

  lemma {:induction false} SamePair(a: Code, b: Code, c: Code, d: Code)
    requires Both(a, b) == Both(c, d)
    ensures a == c && b == d
  {
  }

  /** After an odd number of codes, the bytes of two parts are those of all codes only if the rest is zero. */
  lemma {:induction false} OddPartsZero(c: seq<Code>, d: seq<Code>, p: nat, q: nat, i: nat)
    requires |c| == 2 * p + 1 && |d| == 2 * q && i < |d|
    requires PairAt(c + d, p) == PairAt(c, p)
    requires forall j: nat {:trigger PairAt(d, j)} :: j < q ==> PairAt(c + d, p + 1 + j) == PairAt(d, j)
    ensures d[i] == 0
  {
    AtJoin(c, d, i);
    if i == 0 {
      SamePair(At(c + d, 2 * p), At(c + d, 2 * p + 1), At(c, 2 * p), At(c, 2 * p + 1));
    } else {
      OddPartsZero(c, d, p, q, i - 1);
      var j := (i - 1) / 2;
      assert PairAt(c + d, p + 1 + j) == PairAt(d, j);
      SamePair(At(c + d, 2 * (p + 1 + j)), At(c + d, 2 * (p + 1 + j) + 1), At(d, 2 * j), At(d, 2 * j + 1));
      if i == 2 * j + 1 {
        assert 2 * (p + 1 + j) == |c| + i;
      } else {
        assert i == 2 * j + 2 && 2 * (p + 1 + j) + 1 == |c| + i;
      }
    }
  }

  lemma {:induction false} ZeroAt(d: seq<Code>, i: nat)
    requires AllZero(d)
    ensures At(d, i) == 0
  {
  }

  lemma {:induction false} OddPairBefore(c: seq<Code>, d: seq<Code>, p: nat, j: nat)
    requires |c| == 2 * p + 1 && AllZero(d) && j <= p
    ensures PairAt(c + d, j) == PairAt(c, j)
  {
    AtJoin(c, d, 2 * j);
    if j < p {
      AtJoin(c, d, 2 * j + 1);
    } else {
      AtJoin(c, d, 0);
      ZeroAt(d, 0);
    }
  }

  lemma {:induction false} OddPairAfter(c: seq<Code>, d: seq<Code>, p: nat, j: nat)
    requires |c| == 2 * p + 1 && AllZero(d)
    ensures PairAt(c + d, p + 1 + j) == PairAt(d, j)
  {
    AtJoin(c, d, 2 * j + 1);
    AtJoin(c, d, 2 * j + 2);
    ZeroAt(d, 2 * j);
    ZeroAt(d, 2 * j + 1);
    ZeroAt(d, 2 * j + 2);
  }

  lemma {:induction false} PartsOn(c: seq<Code>, d: seq<Code>)
    ensures Pack(c + d) == Pack(c) + Pack(d) <==> |c| % 2 == 0 || (|d| % 2 == 0 && AllZero(d))
  {
    var (p, q) := (|c| / 2, |d| / 2);
    if |c| == 2 * p {
      PackOn(c, d, p);
    } else if |d| == 2 * q {
      PackJoin(c, d, p + 1, q);
      if AllZero(d) {
        forall j: nat | j < p + 1
          ensures PairAt(c + d, j) == PairAt(c, j)
        {
          OddPairBefore(c, d, p, j);
        }
        forall j: nat
          ensures PairAt(c + d, p + 1 + j) == PairAt(d, j)
        {
          OddPairAfter(c, d, p, j);
        }
      } else if Pack(c + d) == Pack(c) + Pack(d) {
        forall i: nat | i < |d|
          ensures d[i] == 0
        {
          OddPartsZero(c, d, p, q, i);
        }
      }
    } else {
      assert |Pack(c + d)| != |Pack(c) + Pack(d)|;
    }
  }

  /**
   Coding in two calls through the saved state gives the bytes of one call exactly when the first part has even
   length, or what follows is an even number of zero codes.
   */
  lemma {:induction false} CodedInParts(s: State, v: seq<Sample>, w: seq<Sample>)
    ensures var (c, d) := (Codes(s, v), Codes(Run(s, Codes(s, v)), w));
            && Run(s, Codes(s, v + w)) == Run(Run(s, c), d)
            && (Pack(Codes(s, v + w)) == Pack(c) + Pack(d) <==> |v| % 2 == 0 || (|w| % 2 == 0 && AllZero(d)))
  {
    var (c, d) := (Codes(s, v), Codes(Run(s, Codes(s, v)), w));
    CodesOn(s, v, w);
    RunOn(s, c, d);
    PartsOn(c, d);
  }

  /** From every state some sample has another code than 0. */
  lemma {:induction false} NonzeroCode(s: State) returns (val: Sample)
    ensures CodeOf(s, val) != 0
  {
    val := if s.valprev > -32768 then -32768 else 32767;
    if s.valprev == -32768 {
      FarAway(65535, StepOf(s.index));
    }
  }

  lemma {:induction false} FarAway(diff: nat, step: nat)
    requires diff >= step
    ensures Magnitude(diff, step) >= 4
  {
  }

  /** Do two calls give the bytes of one, for these samples? */
  ghost predicate PartsAgree(s: State, v: seq<Sample>, w: seq<Sample>) {
    Pack(Codes(s, v + w)) == Pack(Codes(s, v)) + Pack(Codes(Run(s, Codes(s, v)), w))
  }

  /** Two calls give the bytes of one, whatever m samples follow, exactly if the first part is even or none follow. */
  lemma {:induction false} PartsByLength(s: State, v: seq<Sample>, m: nat)
    ensures (forall w {:trigger PartsAgree(s, v, w)} :: |w| == m ==> PartsAgree(s, v, w)) <==> |v| % 2 == 0 || m == 0
  {
    forall w {:trigger PartsAgree(s, v, w)} | |w| == m
      ensures |v| % 2 == 0 || m == 0 ==> PartsAgree(s, v, w)
    {
      CodedInParts(s, v, w);
    }
    if |v| % 2 == 1 && m > 0 {
      var val := NonzeroCode(Run(s, Codes(s, v)));
      OddPartsDiffer(s, v, seq(m, _ => val));
    }
  }

  /** After an odd first part a first code other than 0 makes the difference. */
  lemma {:induction false} OddPartsDiffer(s: State, v: seq<Sample>, w: seq<Sample>)
    requires |v| % 2 == 1 && w != [] && CodeOf(Run(s, Codes(s, v)), w[0]) != 0
    ensures !PartsAgree(s, v, w)
  {
    CodedInParts(s, v, w);
    FirstCode(Run(s, Codes(s, v)), w);
  }

  lemma {:induction false} FirstCode(s: State, w: seq<Sample>)
    requires w != []
    ensures Codes(s, w)[0] == CodeOf(s, w[0])
  {
    if |w| > 1 {
      FirstCode(s, w[..|w| - 1]);
    } else {
      assert w[..0] == [] && Codes(s, []) == [] && Run(s, []) == s;
    }
  }

  // ---------- The coder ----------

  class AdpcmState {
    var valprev: Sample
    var index: Index

    constructor (valprev: Sample, index: Index)
      ensures Value() == State(valprev, index)
    {
      this.valprev, this.index := valprev, index;
    }

    function Value(): (s: State)
      reads this
    {
      State(valprev, index)
    }
  }

  /** Step 2 of the coder: the magnitude, bit by bit, and what it makes the output value move by. */
  method Quantize(difference: nat, stepsize: nat) returns (delta: nat, vpdiff: nat)
    ensures delta == Magnitude(difference, stepsize) && vpdiff == VpDiff(stepsize, delta)
  {
    var diff, step := difference, stepsize;
    delta := 0;
    vpdiff := step / 8;
    ghost var x, y, z := false, false, false;
    if diff >= step {
      x := true;
      delta := 4;
      diff := diff - step;
      vpdiff := vpdiff + step;
    }
    step := step / 2;
    if diff >= step {
      y := true;
      delta := delta + 2;
      diff := diff - step;
      vpdiff := vpdiff + step;
    }
    step := step / 2;
    if diff >= step {
      z := true;
      delta := delta + 1;
      vpdiff := vpdiff + step;
    }
    BitsOfMagnitude(stepsize, x, y, z);
  }

  /** What coder and decoder both do to the index and the step. */
  method UpdateIndex(code: Code, oldindex: Index) returns (index: Index, step: nat)
    ensures index == ClampIndex(oldindex + INDEX_TABLE[code]) && step == StepOf(index)
  {
    var i: int := oldindex + INDEX_TABLE[code];
    if i < 0 {
      i := 0;
    }
    if i > 88 {
      i := 88;
    }
    index, step := i, STEPSIZE_TABLE[i];
  }

  /** Steps 1 to 5 of the coder. */
  method CodeOne(val: Sample, valprev: Sample, oldindex: Index, stepsize: nat)
    returns (code: Code, valpred: Sample, index: Index, step: nat)
    requires stepsize == StepOf(oldindex)
    ensures code == CodeOf(State(valprev, oldindex), val)
    ensures State(valpred, index) == Next(State(valprev, oldindex), code) && step == StepOf(index)
  {
    var diff: int := val - valprev;
    var sign := if diff < 0 then 8 else 0;
    if sign != 0 {
      diff := -diff;
    }
    var delta, vpdiff := Quantize(diff, stepsize);
    var v: int := if sign != 0 then valprev - vpdiff else valprev + vpdiff;
    if v > 32767 {
      v := 32767;
    } else if v < -32768 {
      v := -32768;
    }
    assert v == ClampSample(if val < valprev then valprev - vpdiff else valprev + vpdiff);
    SignAndMagnitude(delta, sign);
    delta := delta + sign;
    code, valpred := delta, v;
    index, step := UpdateIndex(code, oldindex);
  }

  /** What the coder knows after the samples vals. */
  ghost predicate Coded(s: State, vals: seq<Sample>, codes: seq<Code>, preds: seq<Sample>, t: State) {
    codes == Codes(s, vals) && preds == Outputs(s, codes) && t == Run(s, codes)
  }

  lemma {:induction false} OneCodeMore(s: State, vals: seq<Sample>, i: nat, codes: seq<Code>, preds: seq<Sample>,
                                       t: State)
    requires i < |vals| && Coded(s, vals[..i], codes, preds, t)
    ensures var (c, u) := (CodeOf(t, vals[i]), Next(t, CodeOf(t, vals[i])));
            Coded(s, vals[..i + 1], codes + [c], preds + [u.valprev], u)
  {
    var c := CodeOf(t, vals[i]);
    assert vals[..i + 1][..i] == vals[..i] && (codes + [c])[..|codes|] == codes;
  }

  lemma {:induction false} PackMore(c: seq<Code>, x: Code)
    ensures |c| % 2 == 1 ==> Pack(c + [x]) == Pack(c)[..|c| / 2] + [Both(c[|c| - 1], x)]
    ensures |c| % 2 == 1 ==> Pack(c) == Pack(c)[..|c| / 2] + [Both(c[|c| - 1], 0)]
    ensures |c| % 2 == 0 ==> Pack(c + [x])[..|c| / 2] == Pack(c)
  {
    var e := c + [x];
    forall j: nat | j < |c| / 2
      ensures PairAt(e, j) == PairAt(c, j)
    {
      AtJoin(c, [x], 2 * j);
      AtJoin(c, [x], 2 * j + 1);
    }
    if |c| % 2 == 1 {
      assert PairAt(e, |c| / 2) == Both(c[|c| - 1], x);
      assert PairAt(c, |c| / 2) == Both(c[|c| - 1], 0);
    }
  }

  function Count(len: int): (n: nat) {
    if len > 0 then len else 0
  }

  /** The bytes written, and the code kept back, are those of the codes so far. */
  ghost predicate Written(out: seq<Byte>, rest: seq<Byte>, codes: seq<Code>, bufferstep: bool, outputbuffer: int) {
    var n := |codes| / 2;
    && |out| == |rest| && n <= |out| && bufferstep == (|codes| % 2 == 0)
    && out[..n] == Pack(codes)[..n] && out[n..] == rest[n..]
    && (!bufferstep ==> outputbuffer == 16 * (codes[|codes| - 1] as int))
  }

  lemma {:induction false} AllWritten(out: seq<Byte>, rest: seq<Byte>, codes: seq<Code>, outputbuffer: int)
    requires Written(out, rest, codes, true, outputbuffer)
    ensures out == Pack(codes) + rest[|Pack(codes)|..]
  {
    assert Pack(codes)[..|codes| / 2] == Pack(codes);
    assert out == out[..|codes| / 2] + out[|codes| / 2..];
  }

  /** Step 6 of the coder. */
  method OutputOne(outdata: array<Byte>, bufferstep: bool, oldbuffer: int, outp: nat, delta: Code,
                   ghost rest: seq<Byte>, ghost codes: seq<Code>) returns (outputbuffer: int, next: nat)
    requires Written(outdata[..], rest, codes, bufferstep, oldbuffer) && outp == |codes| / 2 < outdata.Length
    modifies outdata
    ensures Written(outdata[..], rest, codes + [delta], !bufferstep, outputbuffer) && next == |codes + [delta]| / 2
  {
    PackMore(codes, delta);
    outputbuffer, next := oldbuffer, outp;
    if bufferstep {
      outputbuffer := 16 * (delta as int);
    } else {
      outdata[next] := ToChar(delta + outputbuffer);
      next := next + 1;
    }
  }

  method OutputLast(outdata: array<Byte>, outputbuffer: int, outp: nat, ghost rest: seq<Byte>, ghost codes: seq<Code>)
    requires Written(outdata[..], rest, codes, false, outputbuffer) && outp == |codes| / 2 < outdata.Length
    modifies outdata
    ensures outdata[..] == Pack(codes) + rest[|Pack(codes)|..]
  {
    PackMore(codes, 0);
    outdata[outp] := ToChar(outputbuffer);
  }

  /** The coder's loop; a code without a partner is kept back. */
  method CodeLoop(indata: array<Sample>, outdata: array<Byte>, len: int, start: State)
    returns (valpred: Sample, index: Index, bufferstep: bool, outputbuffer: int, outp: nat,
             ghost codes: seq<Code>, ghost preds: seq<Sample>)
    requires len <= indata.Length && (Count(len) + 1) / 2 <= outdata.Length
    modifies outdata
    ensures Coded(start, old(indata[..Count(len)]), codes, preds, State(valpred, index)) && outp == |codes| / 2
    ensures Written(outdata[..], old(outdata[..]), codes, bufferstep, outputbuffer)
  {
    ghost var (n, rest) := (Count(len), outdata[..]);
    valpred, index := start.valprev, start.index;
    var step := STEPSIZE_TABLE[index];
    bufferstep, outputbuffer, outp := true, 0, 0;
    codes, preds := [], [];
    var inp: nat := 0;
    while inp < len
      invariant inp <= n && |codes| == inp && outp == inp / 2 && step == StepOf(index)
      invariant Coded(start, indata[..inp], codes, preds, State(valpred, index))
      invariant Written(outdata[..], rest, codes, bufferstep, outputbuffer)
    {
      OneCodeMore(start, indata[..], inp, codes, preds, State(valpred, index));
      assert indata[..][..inp] == indata[..inp] && indata[..][..inp + 1] == indata[..inp + 1];
      var delta;
      delta, valpred, index, step := CodeOne(indata[inp], valpred, index, step);
      outputbuffer, outp := OutputOne(outdata, bufferstep, outputbuffer, outp, delta, rest, codes);
      bufferstep := !bufferstep;
      codes, preds := codes + [delta], preds + [valpred];
      inp := inp + 1;
    }
  }

  /** The bytes of all samples; the predicted values are those that the codes lead to. */
  method Coder(indata: array<Sample>, outdata: array<Byte>, len: int, state: AdpcmState)
    returns (ghost codes: seq<Code>, ghost preds: seq<Sample>)
    requires len <= indata.Length && (Count(len) + 1) / 2 <= outdata.Length
    modifies outdata, state
    ensures Coded(old(state.Value()), old(indata[..Count(len)]), codes, preds, state.Value())
    ensures outdata[..] == Pack(codes) + old(outdata[..])[|Pack(codes)|..]
  {
    ghost var rest := outdata[..];
    var valpred, index, bufferstep, outputbuffer, outp;
    valpred, index, bufferstep, outputbuffer, outp, codes, preds := CodeLoop(indata, outdata, len, state.Value());
    if bufferstep {
      AllWritten(outdata[..], rest, codes, outputbuffer);
    } else {
      OutputLast(outdata, outputbuffer, outp, rest, codes);
    }
    state.valprev, state.index := valpred, index;
  }

  // ---------- The decoder ----------

  /** Steps 2 to 6 of the decoder. */
  method DecodeOne(code: Code, valprev: Sample, oldindex: Index, stepsize: nat)
    returns (valpred: Sample, index: Index, step: nat)
    requires stepsize == StepOf(oldindex)
    ensures State(valpred, index) == Next(State(valprev, oldindex), code) && step == StepOf(index)
  {
    index, step := UpdateIndex(code, oldindex);
    var sign, delta: nat := code / 8, code % 8;
    var vpdiff := stepsize / 8;
    if delta / 4 % 2 == 1 {
      vpdiff := vpdiff + stepsize;
    }
    if delta / 2 % 2 == 1 {
      vpdiff := vpdiff + stepsize / 2;
    }
    if delta % 2 == 1 {
      vpdiff := vpdiff + stepsize / 4;
    }
    assert vpdiff == VpDiff(stepsize, delta);
    var v: int := if sign != 0 then valprev - vpdiff else valprev + vpdiff;
    if v > 32767 {
      v := 32767;
    } else if v < -32768 {
      v := -32768;
    }
    assert v == ClampSample(if code >= 8 then valprev - vpdiff else valprev + vpdiff);
    valpred := v;
  }

  /** What the decoder knows after the codes. */
  ghost predicate Decoded(s: State, codes: seq<Code>, out: seq<Sample>, t: State) {
    out == Outputs(s, codes) && t == Run(s, codes)
  }

  lemma {:induction false} OneOutputMore(s: State, codes: seq<Code>, i: nat, out: seq<Sample>, t: State)
    requires i < |codes| && Decoded(s, codes[..i], out, t)
    ensures Decoded(s, codes[..i + 1], out + [Next(t, codes[i]).valprev], Next(t, codes[i]))
  {
    assert codes[..i + 1][..i] == codes[..i];
  }

  /** Step 1 of the decoder: code i of the bytes. */
  method GetDelta(indata: array<Byte>, bufferstep: bool, oldbuffer: Byte, inp: nat, ghost i: nat, ghost n: nat)
    returns (delta: Code, inputbuffer: Byte, next: nat)
    requires i < n <= 2 * indata.Length && inp == (i + 1) / 2 && bufferstep == (i % 2 == 1)
    requires bufferstep ==> oldbuffer == indata[i / 2]
    ensures delta == Unpack(indata[..], n)[i] && next == (i + 2) / 2
    ensures !bufferstep == ((i + 1) % 2 == 1) && (!bufferstep ==> inputbuffer == indata[(i + 1) / 2])
  {
    inputbuffer, next := oldbuffer, inp;
    if bufferstep {
      delta := Lower(inputbuffer);
    } else {
      inputbuffer := indata[next];
      next := next + 1;
      delta := Upper(inputbuffer);
    }
  }

  /** Step 7 of the decoder. */
  method OutputValue(outdata: array<Sample>, valpred: Sample, i: nat, ghost s: State, ghost codes: seq<Code>,
                     ghost t: State, ghost rest: seq<Sample>)
    requires i < |codes| && i < outdata.Length == |rest| && valpred == Next(t, codes[i]).valprev
    requires Decoded(s, codes[..i], outdata[..i], t) && outdata[i..] == rest[i..]
    modifies outdata
    ensures Decoded(s, codes[..i + 1], outdata[..i + 1], Next(t, codes[i])) && outdata[i + 1..] == rest[i + 1..]
  {
    OneOutputMore(s, codes, i, outdata[..i], t);
    outdata[i] := valpred;
    assert outdata[..i + 1] == old(outdata[..i]) + [valpred];
  }

  /** The decoder's loop writes an output value for each code. */
  method DecodeLoop(indata: array<Byte>, outdata: array<Sample>, len: int, start: State)
    returns (valpred: Sample, index: Index)
    requires Count(len) <= 2 * indata.Length && len <= outdata.Length
    modifies outdata
    ensures Decoded(start, Unpack(old(indata[..]), Count(len)), outdata[..Count(len)], State(valpred, index))
    ensures outdata[Count(len)..] == old(outdata[Count(len)..])
  {
    ghost var (n, rest) := (Count(len), outdata[..]);
    ghost var codes := Unpack(indata[..], n);
    valpred, index := start.valprev, start.index;
    var step := STEPSIZE_TABLE[index];
    var bufferstep, inputbuffer: Byte := false, 0;
    var inp: nat, outp: nat := 0, 0;
    while outp < len
      invariant outp <= n && inp == (outp + 1) / 2 && bufferstep == (outp % 2 == 1) && step == StepOf(index)
      invariant bufferstep ==> inputbuffer == indata[outp / 2]
      invariant Decoded(start, codes[..outp], outdata[..outp], State(valpred, index)) && outdata[outp..] == rest[outp..]
    {
      var delta;
      delta, inputbuffer, inp := GetDelta(indata, bufferstep, inputbuffer, inp, outp, n);
      bufferstep := !bufferstep;
      ghost var t := State(valpred, index);
      valpred, index, step := DecodeOne(delta, valpred, index, step);
      OutputValue(outdata, valpred, outp, start, codes, t, rest);
      outp := outp + 1;
    }
    assert outp == n && codes[..n] == codes;
  }

  /** The output values of all codes. */
  method Decoder(indata: array<Byte>, outdata: array<Sample>, len: int, state: AdpcmState)
    requires Count(len) <= 2 * indata.Length && len <= outdata.Length
    modifies outdata, state
    ensures Decoded(old(state.Value()), Unpack(old(indata[..]), Count(len)), outdata[..Count(len)], state.Value())
    ensures outdata[Count(len)..] == old(outdata[Count(len)..])
  {
    var valpred, index := DecodeLoop(indata, outdata, len, state.Value());
    state.valprev, state.index := valpred, index;
  }

  // ---------- There and back ----------

  lemma {:induction false} UnpackPrefix(codes: seq<Code>, bytes: seq<Byte>)
    requires |Pack(codes)| <= |bytes| && bytes[..|Pack(codes)|] == Pack(codes)
    ensures Unpack(bytes, |codes|) == codes
  {
    UnpackPack(codes);
    forall i: nat | i < |codes|
      ensures Unpack(bytes, |codes|)[i] == codes[i]
    {
      assert bytes[i / 2] == bytes[..|Pack(codes)|][i / 2];
      assert Unpack(Pack(codes), |codes|)[i] == codes[i];
    }
  }

  /**
   From the same state the decoder gives exactly the values that the coder predicted, for any number of samples, odd
   ones included, and both end in the same state.
   */
  method CodeAndDecode(indata: array<Sample>, bytes: array<Byte>, outdata: array<Sample>, len: int,
                       coder: AdpcmState, decoder: AdpcmState) returns (ghost preds: seq<Sample>)
    requires len <= indata.Length && (Count(len) + 1) / 2 <= bytes.Length && len <= outdata.Length
    requires coder != decoder && coder.Value() == decoder.Value()
    modifies bytes, outdata, coder, decoder
    ensures coder.Value() == decoder.Value() && outdata[..Count(len)] == preds
    ensures preds == Outputs(old(coder.Value()), Codes(old(coder.Value()), old(indata[..Count(len)])))
  {
    ghost var codes;
    codes, preds := Coder(indata, bytes, len, coder);
    UnpackPrefix(codes, bytes[..]);
    Decoder(bytes, outdata, len, decoder);
  }
}
