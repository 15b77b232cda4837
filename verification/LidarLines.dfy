/** A byte stream cut into lines: complete lines end in a newline, what follows the last newline is the rest. */
module ByteLines {
  import opened Sequences

  const NEWLINE: Byte := 10

  function LinesOf(stream: Bytes): (lines: seq<Bytes>) {
    if NEWLINE in stream then [stream[..FirstNewline(stream)]] + LinesOf(stream[FirstNewline(stream) + 1..]) else []
  }

  function RestOf(stream: Bytes): (rest: Bytes)
    ensures NEWLINE !in rest
  {
    if NEWLINE in stream then RestOf(stream[FirstNewline(stream) + 1..]) else stream
  }

  function FirstNewline(stream: Bytes): (i: nat)
    requires NEWLINE in stream
    ensures i < |stream| && stream[i] == NEWLINE && NEWLINE !in stream[..i]
    ensures forall j :: 0 <= j < i ==> stream[j] != NEWLINE
  {
    if stream[0] == NEWLINE then 0 else 1 + FirstNewline(stream[1..])
  }

  function Joined(lines: seq<Bytes>): Bytes {
    if lines == [] then [] else lines[0] + [NEWLINE] + Joined(lines[1..])
  }

  /** The first line of a stream, and what is left. */
  lemma LinesStep(line: Bytes, tail: Bytes)
    requires NEWLINE !in line
    ensures LinesOf(line + [NEWLINE] + tail) == [line] + LinesOf(tail)
    ensures RestOf(line + [NEWLINE] + tail) == RestOf(tail)
  {
    var stream, i := line + [NEWLINE] + tail, |line|;
    assert stream[i] == NEWLINE && forall j :: 0 <= j < i ==> stream[j] == line[j] != NEWLINE;
    assert FirstNewline(stream) == i;
    assert stream[..i] == line && stream[i + 1..] == tail;
  }

  lemma CutAtNewline(stream: Bytes) returns (line: Bytes, tail: Bytes)
    requires NEWLINE in stream
    ensures NEWLINE !in line && stream == line + [NEWLINE] + tail && |tail| < |stream|
  {
    var i := FirstNewline(stream);
    line, tail := stream[..i], stream[i + 1..];
  }

  /** The cut loses nothing and leaves no newline in a line. */
  lemma {:induction false} LinesMakeStream(stream: Bytes)
    ensures Joined(LinesOf(stream)) + RestOf(stream) == stream
    ensures forall line :: line in LinesOf(stream) ==> 10 !in line
    decreases |stream|
  {
    if NEWLINE in stream {
      var line, tail := CutAtNewline(stream);
      LinesMakeStream(tail);
      LinesStep(line, tail);
      var later := LinesOf(tail);
      assert Joined([line] + later) == line + [NEWLINE] + Joined(later) by {
        assert ([line] + later)[1..] == later;
      }
    } else {
      assert LinesOf(stream) == [];
    }
  }

  /** And it is the only such cut. */
  lemma {:induction false} CutIsUnique(lines: seq<Bytes>, rest: Bytes)
    requires NEWLINE !in rest && forall line :: line in lines ==> NEWLINE !in line
    ensures LinesOf(Joined(lines) + rest) == lines && RestOf(Joined(lines) + rest) == rest
    decreases |lines|
  {
    if lines == [] {
      assert Joined(lines) + rest == rest;
    } else {
      var tail := Joined(lines[1..]) + rest;
      assert Joined(lines) + rest == lines[0] + [NEWLINE] + tail;
      LinesStep(lines[0], tail);
      CutIsUnique(lines[1..], rest);
    }
  }

  /** More bytes add the lines that they complete, beginning with the rest. */
  lemma {:induction false} LinesOfMore(stream: Bytes, more: Bytes)
    ensures LinesOf(stream + more) == LinesOf(stream) + LinesOf(RestOf(stream) + more)
    ensures RestOf(stream + more) == RestOf(RestOf(stream) + more)
    decreases |stream|
  {
    if NEWLINE in stream {
      var line, tail := CutAtNewline(stream);
      LinesOfMore(tail, more);
      MoreAfterLine(line, tail, more, LinesOf(RestOf(tail) + more));
    } else {
      assert LinesOf(stream) == [] && RestOf(stream) == stream;
    }
  }

  lemma MoreAfterLine(line: Bytes, tail: Bytes, more: Bytes, added: seq<Bytes>)
    requires NEWLINE !in line && LinesOf(tail + more) == LinesOf(tail) + added
    ensures var stream := line + [NEWLINE] + tail;
            && LinesOf(stream + more) == LinesOf(stream) + added
            && RestOf(stream + more) == RestOf(tail + more) && RestOf(stream) == RestOf(tail)
  {
    Reassociated(line + [NEWLINE], tail, more);
    Reassociated([line], LinesOf(tail), added);
    LinesStep(line, tail);
    LinesStep(line, tail + more);
  }

  function Concat(chunks: seq<Bytes>): Bytes {
    if chunks == [] then [] else Concat(chunks[..|chunks| - 1]) + chunks[|chunks| - 1]
  }

  /** The lines that a reader gets which appends each chunk to its buffer and takes the complete lines out of it, and
      what it keeps. */
  function ReadChunks(chunks: seq<Bytes>): (r: (seq<Bytes>, Bytes))
    ensures NEWLINE !in r.1
  {
    if chunks == [] then ([], []) else
      var (lines, buffer) := ReadChunks(chunks[..|chunks| - 1]);
      var more := buffer + chunks[|chunks| - 1];
      (lines + LinesOf(more), RestOf(more))
  }

  /** However the stream is chopped into reads, the lines and the leftover are those of the whole stream. */
  lemma {:induction false} ChoppingDoesNotMatter(chunks: seq<Bytes>)
    ensures ReadChunks(chunks) == (LinesOf(Concat(chunks)), RestOf(Concat(chunks)))
    decreases |chunks|
  {
    if chunks == [] {
    } else {
      ChoppingDoesNotMatter(chunks[..|chunks| - 1]);
      LinesOfMore(Concat(chunks[..|chunks| - 1]), chunks[|chunks| - 1]);
    }
  }
}

/** The text of one line: words, substrings and numbers. */
module LineText {
  datatype Option<T> = None | Some(value: T)

  /** A float: a number, or one of the three values that are not. */
  datatype Float = Finite(x: real) | PosInf | NegInf | NaN

  /** The library calls the parser relies on: decoding of bytes, white space, and reading a float. */
  datatype Library = Library(decode: seq<int> -> string, isSpace: char -> bool, toFloat: string -> Option<Float>)

  function Stripped(lib: Library, s: string): (r: string)
    ensures r != [] ==> !lib.isSpace(r[0]) && !lib.isSpace(r[|r| - 1])
  {
    if s == [] then s
    else if lib.isSpace(s[0]) then Stripped(lib, s[1..])
    else if lib.isSpace(s[|s| - 1]) then Stripped(lib, s[..|s| - 1])
    else s
  }

  /** The first word of s and what follows it; s begins with the word. */
  function WordLength(lib: Library, s: string): (n: nat)
    ensures n <= |s| && (n < |s| ==> lib.isSpace(s[n])) && forall i :: 0 <= i < n ==> !lib.isSpace(s[i])
  {
    if s == [] || lib.isSpace(s[0]) then 0 else 1 + WordLength(lib, s[1..])
  }

  /** The words between white space. */
  function Fields(lib: Library, s: string): (words: seq<string>)
    ensures forall w :: w in words ==> w != [] && forall i :: 0 <= i < |w| ==> !lib.isSpace(w[i])
    decreases |s|
  {
    if s == [] then []
    else if lib.isSpace(s[0]) then Fields(lib, s[1..])
    else
      var n := WordLength(lib, s);
      [s[..n]] + Fields(lib, s[n..])
  }

  ghost predicate IsWord(lib: Library, w: string) { w != [] && forall i :: 0 <= i < |w| ==> !lib.isSpace(w[i]) }

  lemma {:induction false} WordLengthIs(lib: Library, w: string, rest: string)
    requires forall i :: 0 <= i < |w| ==> !lib.isSpace(w[i])
    requires rest == [] || lib.isSpace(rest[0])
    ensures WordLength(lib, w + rest) == |w|
  {
    if w == [] {
      assert w + rest == rest;
    } else {
      WordLengthIs(lib, w[1..], rest);
      assert (w + rest)[1..] == w[1..] + rest;
    }
  }

  /** The fields of a word and what follows it, which is nothing or begins with white space. */
  lemma FirstField(lib: Library, w: string, rest: string)
    requires IsWord(lib, w) && (rest == [] || lib.isSpace(rest[0]))
    ensures Fields(lib, w + rest) == [w] + Fields(lib, rest)
  {
    WordLengthIs(lib, w, rest);
    assert (w + rest)[..|w|] == w && (w + rest)[|w|..] == rest;
  }

  lemma SpacedField(lib: Library, w: string, rest: string)
    requires IsWord(lib, w) && lib.isSpace(' ')
    ensures Fields(lib, w + ([' '] + rest)) == [w] + Fields(lib, rest)
  {
    FirstField(lib, w, [' '] + rest);
    assert ([' '] + rest)[1..] == rest;
  }

  predicate AllSpace(lib: Library, s: string) { forall i :: 0 <= i < |s| ==> lib.isSpace(s[i]) }

  /** s is the middle with white space around it. */
  ghost predicate Surrounds(lib: Library, s: string, middle: string) {
    exists before: string, after: string ::
      AllSpace(lib, before) && AllSpace(lib, after) && s == before + middle + after
  }

  /** Stripping takes white space off both ends and nothing else. */
  lemma {:induction false} StrippedIsMiddle(lib: Library, s: string)
    ensures Surrounds(lib, s, Stripped(lib, s))
    decreases |s|
  {
    var n := |s| - 1;
    if s != [] && lib.isSpace(s[0]) {
      StrippedIsMiddle(lib, s[1..]);
      SpaceBefore(lib, s, s[1..], Stripped(lib, s));
    } else if s != [] && lib.isSpace(s[n]) {
      StrippedIsMiddle(lib, s[..n]);
      SpaceAfter(lib, s, s[..n], Stripped(lib, s));
    } else {
      assert s == [] + Stripped(lib, s) + [] && AllSpace(lib, []);
    }
  }

  lemma SpaceBefore(lib: Library, s: string, tail: string, middle: string)
    requires s != [] && lib.isSpace(s[0]) && tail == s[1..] && Surrounds(lib, tail, middle)
    ensures Surrounds(lib, s, middle)
  {
    var before: string, after: string :|
      AllSpace(lib, before) && AllSpace(lib, after) && tail == before + middle + after;
    assert s == ([s[0]] + before) + middle + after && AllSpace(lib, [s[0]] + before);
  }

  lemma SpaceAfter(lib: Library, s: string, front: string, middle: string)
    requires s != [] && lib.isSpace(s[|s| - 1]) && front == s[..|s| - 1] && Surrounds(lib, front, middle)
    ensures Surrounds(lib, s, middle)
  {
    var c := s[|s| - 1];
    var before: string, after: string :|
      AllSpace(lib, before) && AllSpace(lib, after) && front == before + middle + after;
    assert s == before + middle + (after + [c]) && AllSpace(lib, after + [c]);
  }

  /** What is not white space. */
  function Solid(lib: Library, s: string): string {
    if s == [] then [] else (if lib.isSpace(s[0]) then [] else [s[0]]) + Solid(lib, s[1..])
  }

  function Run(words: seq<string>): string { if words == [] then [] else words[0] + Run(words[1..]) }

  /** The fields hold all of it, in order. */
  lemma {:induction false} FieldsKeepText(lib: Library, s: string)
    ensures Run(Fields(lib, s)) == Solid(lib, s)
    decreases |s|
  {
    if s == [] {
    } else if lib.isSpace(s[0]) {
      FieldsKeepText(lib, s[1..]);
    } else {
      var n := WordLength(lib, s);
      FieldsKeepText(lib, s[n..]);
      assert s == s[..n] + s[n..];
      SolidWord(lib, s[..n], s[n..]);
    }
  }

  lemma {:induction false} SolidWord(lib: Library, w: string, rest: string)
    requires forall i :: 0 <= i < |w| ==> !lib.isSpace(w[i])
    ensures Solid(lib, w + rest) == w + Solid(lib, rest)
  {
    if w == [] {
      assert w + rest == rest;
    } else {
      SolidWord(lib, w[1..], rest);
      assert (w + rest)[1..] == w[1..] + rest;
    }
  }

  /** The first place of part in s, or |s| + 1. */
  function Find(s: string, part: string): (i: nat)
    ensures i <= |s| ==> part <= s[i..]
    ensures i <= |s| + 1 && forall j :: 0 <= j < i && j <= |s| ==> !(part <= s[j..])
  {
    if part <= s then 0 else if s == [] then 1 else
      var i := 1 + Find(s[1..], part);
      assert forall j :: 1 <= j <= |s| ==> s[j..] == s[1..][j - 1..];
      i
  }

  predicate Contains(s: string, part: string) { Find(s, part) <= |s| }

  lemma ThreeFields(lib: Library, a: string, b: string, c: string, rest: string)
    requires IsWord(lib, a) && IsWord(lib, b) && IsWord(lib, c) && lib.isSpace(' ')
    requires rest == [] || lib.isSpace(rest[0])
    ensures Fields(lib, a + ([' '] + (b + ([' '] + (c + rest))))) == [a, b, c] + Fields(lib, rest)
  {
    var third := c + rest;
    FirstField(lib, c, rest);
    NextFields(lib, a, b, third);
    ThreeBefore(a, b, c, Fields(lib, rest));
  }

  lemma ThreeBefore(a: string, b: string, c: string, more: seq<string>)
    ensures [a] + ([b] + ([c] + more)) == [a, b, c] + more
  {}

  lemma NextFields(lib: Library, a: string, b: string, rest: string)
    requires IsWord(lib, a) && IsWord(lib, b) && lib.isSpace(' ')
    ensures Fields(lib, a + ([' '] + (b + ([' '] + rest)))) == [a] + ([b] + Fields(lib, rest))
  {
    SpacedField(lib, b, rest);
    SpacedField(lib, a, b + ([' '] + rest));
  }

  lemma ContainsPart(s: string, before: string, part: string, after: string)
    requires s == before + part + after
    ensures Contains(s, part)
  {
    assert s[|before|..] == part + after;
  }

  ghost predicate HasPart(s: string, part: string) { exists before, after :: IsPart(s, before, part, after) }

  predicate IsPart(s: string, before: string, part: string, after: string) { s == before + part + after }

  lemma PartAt(s: string, part: string, i: nat)
    requires i <= |s| && part <= s[i..]
    ensures HasPart(s, part)
  {
    var after := s[i..][|part|..];
    assert s[i..] == part + after;
    assert IsPart(s, s[..i], part, after);
  }

  /** `in`. */
  lemma ContainsIsPart(s: string, part: string)
    ensures Contains(s, part) <==> HasPart(s, part)
  {
    if Contains(s, part) { PartAt(s, part, Find(s, part)); }
    forall before, after | IsPart(s, before, part, after)
      ensures Contains(s, part)
    {
      ContainsPart(s, before, part, after);
    }
  }

  /** A part whose first character does not occur before it. */
  lemma FindsPart(s: string, before: string, part: string, after: string)
    requires s == before + part + after && part != [] && part[0] !in before
    ensures Find(s, part) == |before|
    ensures Contains(s, part) && UpTo(s, part) == before && s[|before| + |part|..] == after
  {
    assert s[|before|..] == part + after;
    forall j | 0 <= j < |before|
      ensures !(part <= s[j..])
    {
      assert s[j..][0] == before[j];
    }
  }

  lemma NoPart(s: string, part: string)
    requires part != [] && part[0] !in s
    ensures UpTo(s, part) == s
  {
    forall j | 0 <= j <= |s|
      ensures !(part <= s[j..])
    {
      if j < |s| { assert s[j..][0] == s[j]; }
    }
  }

  /** s up to the first occurrence of part, all of s when there is none. */
  function UpTo(s: string, part: string): string {
    if Contains(s, part) then s[..Find(s, part)] else s
  }
}

/** The lidar driver: `_read_cb`, `_process_lines` and `_parse_line`. */
module LidarLines {
  import opened ByteLines
  import opened LineText
  import opened Sequences

  const TOTAL_SAMPLES := 360

  /** Python's round: to the nearest integer, halves to even. */
  function Rounded(x: real): (n: int)
    ensures -0.5 <= x - n as real <= 0.5
    ensures x - n as real == 0.5 || n as real - x == 0.5 ==> n % 2 == 0
  {
    var f := x.Floor;
    var d := x - f as real;
    if d < 0.5 || (d == 0.5 && f % 2 == 0) then f else f + 1
  }

  /** The sample an angle in degrees is stored at. */
  function IndexOf(angle: real): (i: nat)
    ensures i < TOTAL_SAMPLES
  {
    Rounded(180.0 - angle) % TOTAL_SAMPLES
  }

  /** The sample is the one nearest to 180 degrees less the angle, up to whole turns. */
  lemma IndexIsNearest(angle: real) returns (turns: int)
    ensures -0.5 <= 180.0 - angle - (IndexOf(angle) + 360 * turns) as real <= 0.5
  {
    turns := Rounded(180.0 - angle) / TOTAL_SAMPLES;
  }

  lemma RoundedShift(x: real, k: int)
    ensures Rounded(x + (2 * k) as real) == Rounded(x) + 2 * k
  {
    assert (x + (2 * k) as real).Floor == x.Floor + 2 * k;
  }

  /** A full turn changes nothing. */
  lemma FullTurnIsNone(angle: real)
    ensures IndexOf(angle + 360.0) == IndexOf(angle)
  {
    var x := 180.0 - angle;
    RoundedShift(x, -180);
    assert 180.0 - (angle + 360.0) == x + (2 * -180) as real;
    TurnAway(Rounded(x));
  }

  lemma TurnAway(n: int)
    ensures (n - 360) % TOTAL_SAMPLES == n % TOTAL_SAMPLES
  {}

  /** The whole degrees of a turn have a sample each. */
  lemma WholeDegreesFillScan(a: nat, b: nat)
    requires a < b < TOTAL_SAMPLES
    ensures IndexOf(a as real) != IndexOf(b as real)
  {
    WholeDegree(a);
    WholeDegree(b);
  }

  lemma WholeDegree(a: nat)
    requires a < TOTAL_SAMPLES
    ensures IndexOf(a as real) == if a <= 180 then 180 - a else 540 - a
  {
    var x := 180.0 - a as real;
    assert x == (180 - a) as real;
    assert x.Floor == 180 - a;
  }

  /** 1 / f, unless that divides by 0. */
  function Inverse(f: Float): (r: Float)
    requires f != Finite(0.0)
    ensures f.Finite? ==> r.Finite? && r.x * f.x == 1.0
  {
    match f
    case Finite(x) => Finite(1.0 / x)
    case NaN => NaN
    case _ => Finite(0.0)
  }

  function Over(f: Float, n: int): Float
    requires n > 0
  {
    if f.Finite? then Finite(f.x / n as real) else f
  }

  /** A scan as it is published, but for the stamp and the frame of its header. */
  datatype Message = Message(angleMin: real, angleMax: real, angleIncrement: real, timeIncrement: Float,
                             scanTime: Float, rangeMin: real, rangeMax: real,
                             ranges: seq<Float>, intensities: seq<Float>)

  /** What the driver holds. An exception that escapes the callback ends it. */
  datatype Scan = Scan(ranges: seq<Float>, intensities: seq<Float>, freq: Float, published: seq<Message>, dead: bool)

  datatype Limits = Limits(min: real, max: real, angleOffset: real, turn: real)  // turn is two pi

  /** One turn in as many steps as there are samples, and the time of one turn in as many. */
  function MessageOf(limits: Limits, s: Scan): Message
    requires s.freq != Finite(0.0)
  {
    Message(limits.angleOffset, limits.angleOffset + limits.turn, limits.turn / TOTAL_SAMPLES as real,
            Over(Inverse(s.freq), TOTAL_SAMPLES), Inverse(s.freq), limits.min, limits.max, s.ranges, s.intensities)
  }

  /** What a published scan says: the samples as they are, limits, one turn in 360 steps from the offset on, and the
      time of a turn and of a step from the frequency. */
  lemma MessageIsScan(limits: Limits, s: Scan)
    requires s.freq != Finite(0.0)
    ensures var m := MessageOf(limits, s);
            && m.ranges == s.ranges && m.intensities == s.intensities
            && m.rangeMin == limits.min && m.rangeMax == limits.max
            && m.angleMin == limits.angleOffset && m.angleMax - m.angleMin == limits.turn
            && 360.0 * m.angleIncrement == limits.turn
            && (s.freq.Finite? ==> && m.scanTime.Finite? && m.scanTime.x * s.freq.x == 1.0
                                   && m.timeIncrement.Finite? && 360.0 * m.timeIncrement.x == m.scanTime.x)
            && (s.freq == NaN ==> m.scanTime == m.timeIncrement == NaN)
            && (s.freq == PosInf || s.freq == NegInf ==> m.scanTime == m.timeIncrement == Finite(0.0))
  {}

  /** `[x] * n`. */
  function Repeated(x: Float, n: nat): (s: seq<Float>)
    ensures |s| == n && forall i :: 0 <= i < n ==> s[i] == x
  {
    if n == 0 then [] else [x] + Repeated(x, n - 1)
  }

  const EMPTY := Scan(Repeated(PosInf, TOTAL_SAMPLES), Repeated(Finite(0.0), TOTAL_SAMPLES), Finite(5.0), [], false)

  predicate WellFormed(s: Scan) { |s.ranges| == TOTAL_SAMPLES && |s.intensities| == TOTAL_SAMPLES }

  /** Metres for millimetres, infinity for what is out of range. The comparisons are false of NaN, which passes. */
  function RangeOf(limits: Limits, mm: Float): Float {
    match mm
    case Finite(x) =>
      var m := x / 1000.0;
      if x <= 0.0 || m < limits.min || m > limits.max then PosInf else Finite(m)
    case PosInf => PosInf
    case NegInf => PosInf
    case NaN => NaN
  }

  /** r is what is stored of a distance in millimetres. */
  predicate StoredAs(limits: Limits, mm: Float, r: Float) {
    match mm
    case Finite(x) =>
      var inside := x > 0.0 && 1000.0 * limits.min <= x <= 1000.0 * limits.max;
      if inside then r.Finite? && 1000.0 * r.x == x else r == PosInf
    case NaN => r == NaN
    case _ => r == PosInf
  }

  lemma MillimetresToMetres(limits: Limits, mm: Float)
    ensures StoredAs(limits, mm, RangeOf(limits, mm))
  {}

  predicate IsEndOfScan(line: string) { "#" <= line && Contains(line, "scan") && Contains(line, "complete") }

  lemma EndOfScanSaysSo(line: string)
    ensures IsEndOfScan(line) <==> "#" <= line && HasPart(line, "scan") && HasPart(line, "complete")
  {
    ContainsIsPart(line, "scan");
    ContainsIsPart(line, "complete");
  }

  /** The frequency in an end-of-scan line, if it has one that reads as a float. */
  function FreqIn(lib: Library, line: string): Option<Float> {
    if Contains(line, "freq=") then
      var after := UpTo(line[Find(line, "freq=") + 5..], "freq=");
      lib.toFloat(Stripped(lib, UpTo(after, "Hz")))
    else None
  }

  datatype Sample = Sample(angle: Float, mm: Float, quality: Float)

  /** The sample of a data line, if it is one. */
  function SampleIn(lib: Library, line: string): Option<Sample> {
    var parts := Fields(lib, line);
    if "#" <= line || |parts| < 3 then None else
      match (lib.toFloat(parts[0]), lib.toFloat(parts[1]), lib.toFloat(parts[2]))
      case (Some(a), Some(d), Some(q)) => Some(Sample(a, d, q))
      case _ => None
  }

  /** The lines whose handling raises: a sample at an angle that is not a number cannot be indexed, and a scan at
      frequency 0 has no duration. */
  predicate Fatal(lib: Library, line: string) {
    || (IsEndOfScan(line) && FreqIn(lib, line) == Some(Finite(0.0)))
    || (SampleIn(lib, line).Some? && !SampleIn(lib, line).value.angle.Finite?)
  }

  /** The end of a scan whose line gives a frequency, or none. */
  function ScanEnded(limits: Limits, s: Scan, number: Option<Float>): Scan {
    var t := if number.Some? then s.(freq := number.value) else s;
    if t.freq == Finite(0.0) then t.(dead := true) else t.(published := t.published + [MessageOf(limits, t)])
  }

  function Parse(lib: Library, limits: Limits, s: Scan, line: string): (r: Scan)
    requires WellFormed(s)
    ensures WellFormed(r)
  {
    if s.dead || line == [] then s
    else if IsEndOfScan(line) then ScanEnded(limits, s, FreqIn(lib, line))
    else if SampleIn(lib, line).Some? then
      var sample := SampleIn(lib, line).value;
      if !sample.angle.Finite? then s.(dead := true) else
        var i := IndexOf(sample.angle.x);
        s.(ranges := s.ranges[i := RangeOf(limits, sample.mm)], intensities := s.intensities[i := sample.quality])
    else s
  }

  function TextOf(lib: Library, line: Bytes): string { Stripped(lib, lib.decode(line)) }

  /** The text of a line is what it decodes to, without the white space around it. */
  lemma TextIsBare(lib: Library, line: Bytes)
    ensures var text := TextOf(lib, line);
            && Surrounds(lib, lib.decode(line), text)
            && (text != [] ==> !lib.isSpace(text[0]) && !lib.isSpace(text[|text| - 1]))
  {
    StrippedIsMiddle(lib, lib.decode(line));
  }

  /** The driver's state after a sequence of lines. */
  function ParseAll(lib: Library, limits: Limits, lines: seq<Bytes>): (r: Scan)
    ensures WellFormed(r)
  {
    if lines == [] then EMPTY else
      Parse(lib, limits, ParseAll(lib, limits, lines[..|lines| - 1]), TextOf(lib, lines[|lines| - 1]))
  }

  ghost predicate SomeLine(p: Bytes -> bool, lines: seq<Bytes>) {
    exists k :: 0 <= k < |lines| && p(lines[k])
  }

  lemma SomeLineSplits(p: Bytes -> bool, lines: seq<Bytes>)
    requires lines != []
    ensures SomeLine(p, lines) <==> SomeLine(p, lines[..|lines| - 1]) || p(lines[|lines| - 1])
  {
    assert forall k :: 0 <= k < |lines| - 1 ==> lines[..|lines| - 1][k] == lines[k];
  }

  function FatalLine(lib: Library): Bytes -> bool { line => Fatal(lib, TextOf(lib, line)) }

  lemma FatalKills(lib: Library, limits: Limits, s: Scan, line: string)
    requires WellFormed(s) && (s.dead || s.freq != Finite(0.0))
    ensures var r := Parse(lib, limits, s, line);
            (r.dead <==> s.dead || Fatal(lib, line)) && (r.dead || r.freq != Finite(0.0))
  {
    BlankIsHarmless(lib);
  }

  /** The driver dies exactly when a line of the stream is fatal; until then its frequency is never 0. */
  lemma {:induction false} DiesExactly(lib: Library, limits: Limits, lines: seq<Bytes>)
    ensures ParseAll(lib, limits, lines).dead <==> SomeLine(FatalLine(lib), lines)
    ensures !ParseAll(lib, limits, lines).dead ==> ParseAll(lib, limits, lines).freq != Finite(0.0)
    decreases |lines|
  {
    if lines == [] {
    } else {
      var n := |lines| - 1;
      DiesExactly(lib, limits, lines[..n]);
      FatalKills(lib, limits, ParseAll(lib, limits, lines[..n]), TextOf(lib, lines[n]));
      SomeLineSplits(FatalLine(lib), lines);
    }
  }

  lemma BlankIsHarmless(lib: Library)
    ensures !Fatal(lib, [])
  {
    assert Fields(lib, []) == [];
  }

  /** What Python reads in a few words, and its white space. */
  predicate ReadsAsPython(lib: Library) {
    && lib.toFloat("nan") == Some(NaN) && lib.toFloat("1") == Some(Finite(1.0)) && lib.toFloat("0") == Some(Finite(0.0))
    && lib.isSpace(' ') && forall c :: c in "nan10" ==> !lib.isSpace(c)
  }

  /** There is such a line: a sample whose angle is NaN. */
  lemma NaNKills(lib: Library, limits: Limits, s: Scan, line: string)
    requires WellFormed(s) && ReadsAsPython(lib) && line == "nan 1 1"
    ensures Fatal(lib, line) && Parse(lib, limits, s, line).dead
  {
    var nan, one := "nan", "1";
    assert line == nan + ([' '] + (one + ([' '] + (one + []))));
    SampleOf(lib, line, nan, one, one, []);
    SampleKills(lib, limits, s, line);
  }

  /** A data line is three numbers, whatever follows them: angle, distance and quality. */
  lemma SampleOf(lib: Library, line: string, angle: string, mm: string, quality: string, rest: string)
    requires IsWord(lib, angle) && IsWord(lib, mm) && IsWord(lib, quality) && lib.isSpace(' ') && angle[0] != '#'
    requires line == angle + ([' '] + (mm + ([' '] + (quality + rest)))) && (rest == [] || lib.isSpace(rest[0]))
    requires lib.toFloat(angle).Some? && lib.toFloat(mm).Some? && lib.toFloat(quality).Some?
    ensures SampleIn(lib, line)
            == Some(Sample(lib.toFloat(angle).value, lib.toFloat(mm).value, lib.toFloat(quality).value))
    ensures line != [] && !("#" <= line)
  {
    ThreeFields(lib, angle, mm, quality, rest);
    assert line[0] == angle[0];
  }

  lemma SampleKills(lib: Library, limits: Limits, s: Scan, line: string)
    requires WellFormed(s) && line != [] && !("#" <= line)
    requires SampleIn(lib, line).Some? && !SampleIn(lib, line).value.angle.Finite?
    ensures Fatal(lib, line) && Parse(lib, limits, s, line).dead
  {}

  /** And another: the end of a scan at frequency 0. */
  lemma ZeroFrequencyKills(lib: Library, limits: Limits, s: Scan, line: string)
    requires WellFormed(s) && ReadsAsPython(lib) && line == "# scan complete, freq=0Hz"
    ensures Fatal(lib, line) && Parse(lib, limits, s, line).dead
  {
    var space, head, number, rest := " ", "# scan complete, ", "0", ", freq=0Hz";
    assert line == head + "freq=" + (number + "Hz") && line == "#" + space + "scan" + space + "complete" + rest;
    FrequencyOf(lib, line, head, number, "Hz");
    assert Stripped(lib, number) == number;
    EndsScan(line, space, space, rest);
    FrequencyKills(lib, limits, s, line);
  }

  lemma FrequencyKills(lib: Library, limits: Limits, s: Scan, line: string)
    requires WellFormed(s) && line != [] && IsEndOfScan(line) && FreqIn(lib, line) == Some(Finite(0.0))
    ensures Fatal(lib, line) && Parse(lib, limits, s, line).dead
  {}

  lemma EndsScan(line: string, a: string, b: string, c: string)
    requires line == "#" + a + "scan" + b + "complete" + c
    ensures IsEndOfScan(line)
  {
    assert line == "#" + a + "scan" + (b + "complete" + c);
    ContainsPart(line, "#" + a, "scan", b + "complete" + c);
    ContainsPart(line, "#" + a + "scan" + b, "complete", c);
  }

  /** In an end-of-scan line the frequency stands after the first freq=, up to the next freq=, Hz or the end. */
  lemma FrequencyOf(lib: Library, line: string, head: string, number: string, rest: string)
    requires line == head + "freq=" + (number + rest) && 'f' !in head && 'f' !in number && 'H' !in number
    requires rest == [] || "Hz" <= rest || "freq=" <= rest
    ensures FreqIn(lib, line) == lib.toFloat(Stripped(lib, number))
  {
    FindsPart(line, head, "freq=", number + rest);
    NumberFirst(number, rest);
  }

  lemma NumberFirst(number: string, rest: string)
    requires 'f' !in number && 'H' !in number && (rest == [] || "Hz" <= rest || "freq=" <= rest)
    ensures UpTo(UpTo(number + rest, "freq="), "Hz") == number
  {
    if rest == [] {
      assert number + rest == number;
      NoPart(number, "freq=");
      NoPart(number, "Hz");
    } else if "freq=" <= rest {
      assert number + rest == number + "freq=" + rest[5..];
      FindsPart(number + rest, number, "freq=", rest[5..]);
      NoPart(number, "Hz");
    } else {
      UpToKeeps(number, rest);
    }
  }

  /** Cutting at a later freq= leaves number and unit. */
  lemma UpToKeeps(number: string, rest: string)
    requires 'f' !in number && 'H' !in number && "Hz" <= rest
    ensures UpTo(UpTo(number + rest, "freq="), "Hz") == number
  {
    var s, i := number + rest, Find(number + rest, "freq=");
    if i <= |s| {
      assert s[i] == s[i..][0] == 'f';
      assert forall j :: 0 <= j < |number| ==> s[j] == number[j];
      assert s[|number|] == 'H' && s[|number| + 1] == 'z';
    }
    var cut := UpTo(s, "freq=");
    assert cut == number + "Hz" + cut[|number| + 2..];
    FindsPart(cut, number, "Hz", cut[|number| + 2..]);
  }

  /** The line writes sample i. */
  predicate Writes(lib: Library, line: string, i: nat) {
    var sample := SampleIn(lib, line);
    sample.Some? && sample.value.angle.Finite? && IndexOf(sample.value.angle.x) == i
  }

  /** One line's effect on sample i. */
  lemma WritesOne(lib: Library, limits: Limits, s: Scan, line: string, i: nat)
    requires WellFormed(s) && i < TOTAL_SAMPLES
    ensures var r := Parse(lib, limits, s, line);
            if !s.dead && Writes(lib, line, i) then
              var sample := SampleIn(lib, line).value;
              r.ranges[i] == RangeOf(limits, sample.mm) && r.intensities[i] == sample.quality
            else r.ranges[i] == s.ranges[i] && r.intensities[i] == s.intensities[i]
    ensures s.dead ==> Parse(lib, limits, s, line).dead
  {
    DataIsNoComment(lib, line);
  }

  /** Line k is the last to write sample i; with k = -1, none does. */
  ghost predicate LastWriter(lib: Library, lines: seq<Bytes>, i: nat, k: int)
    requires -1 <= k < |lines|
  {
    && (k >= 0 ==> Writes(lib, TextOf(lib, lines[k]), i))
    && forall j :: k < j < |lines| ==> !Writes(lib, TextOf(lib, lines[j]), i)
  }

  lemma FrontIsLast(lib: Library, lines: seq<Bytes>, i: nat, k: int)
    requires -1 <= k < |lines| - 1 && LastWriter(lib, lines, i, k)
    ensures LastWriter(lib, lines[..|lines| - 1], i, k)
  {
    assert forall j :: 0 <= j < |lines| - 1 ==> lines[..|lines| - 1][j] == lines[j];
  }

  /** While the driver lives each sample holds what the last line for it said, or what it began with. */
  lemma LastLineWins(lib: Library, limits: Limits, lines: seq<Bytes>, i: nat, k: int)
    requires i < TOTAL_SAMPLES && -1 <= k < |lines| && !ParseAll(lib, limits, lines).dead
    requires LastWriter(lib, lines, i, k)
    ensures var s := ParseAll(lib, limits, lines);
            if k < 0 then s.ranges[i] == PosInf && s.intensities[i] == Finite(0.0)
            else var sample := SampleIn(lib, TextOf(lib, lines[k])).value;
                 StoredAs(limits, sample.mm, s.ranges[i]) && s.intensities[i] == sample.quality
  {
    LastLineStays(lib, limits, lines, i, k);
    if k >= 0 { MillimetresToMetres(limits, SampleIn(lib, TextOf(lib, lines[k])).value.mm); }
  }

  lemma {:induction false} LastLineStays(lib: Library, limits: Limits, lines: seq<Bytes>, i: nat, k: int)
    requires i < TOTAL_SAMPLES && -1 <= k < |lines| && !ParseAll(lib, limits, lines).dead
    requires LastWriter(lib, lines, i, k)
    ensures var s := ParseAll(lib, limits, lines);
            if k < 0 then s.ranges[i] == PosInf && s.intensities[i] == Finite(0.0)
            else var sample := SampleIn(lib, TextOf(lib, lines[k])).value;
                 s.ranges[i] == RangeOf(limits, sample.mm) && s.intensities[i] == sample.quality
    decreases |lines|
  {
    if lines == [] {
    } else {
      var n := |lines| - 1;
      var front, last := lines[..n], TextOf(lib, lines[n]);
      WritesOne(lib, limits, ParseAll(lib, limits, front), last, i);
      if k < n {
        FrontIsLast(lib, lines, i, k);
        LastLineStays(lib, limits, front, i, k);
      }
    }
  }

  lemma DataIsNoComment(lib: Library, line: string)
    ensures SampleIn(lib, line).Some? ==> !IsEndOfScan(line) && line != []
  {
    assert Fields(lib, []) == [];
  }

  /** Each end of a scan publishes one message, with the samples that the lines before it left, and nothing else does;
      the scan goes on from them. The frequency is that of the line, if it has one. */
  lemma ScanIsPublished(lib: Library, limits: Limits, lines: seq<Bytes>)
    requires lines != [] && !ParseAll(lib, limits, lines).dead
    ensures var before, after := ParseAll(lib, limits, lines[..|lines| - 1]), ParseAll(lib, limits, lines);
            var line := TextOf(lib, lines[|lines| - 1]);
            if IsEndOfScan(line) then
              && after.ranges == before.ranges && after.intensities == before.intensities
              && after.freq == (if FreqIn(lib, line).Some? then FreqIn(lib, line).value else before.freq)
              && after.freq != Finite(0.0) && after.published == before.published + [MessageOf(limits, after)]
            else after.published == before.published && after.freq == before.freq
  {
    DiesExactly(lib, limits, lines);
    var line := TextOf(lib, lines[|lines| - 1]);
    if IsEndOfScan(line) { assert line != []; }
  }

  /** Line k is the last to give a frequency; with k = -1, none does. */
  ghost predicate LastFrequency(lib: Library, lines: seq<Bytes>, k: int)
    requires -1 <= k < |lines|
  {
    && (k >= 0 ==> GivesFrequency(lib, TextOf(lib, lines[k])))
    && forall j :: k < j < |lines| ==> !GivesFrequency(lib, TextOf(lib, lines[j]))
  }

  predicate GivesFrequency(lib: Library, line: string) { IsEndOfScan(line) && FreqIn(lib, line).Some? }

  lemma FrequencyAfter(lib: Library, limits: Limits, lines: seq<Bytes>)
    requires lines != [] && !ParseAll(lib, limits, lines).dead
    ensures var line, before := TextOf(lib, lines[|lines| - 1]), ParseAll(lib, limits, lines[..|lines| - 1]);
            && !before.dead
            && ParseAll(lib, limits, lines).freq
               == if GivesFrequency(lib, line) then FreqIn(lib, line).value else before.freq
  {
    ScanIsPublished(lib, limits, lines);
  }

  function FrequencyOfLine(lib: Library, lines: seq<Bytes>, k: int): Float
    requires -1 <= k < |lines| && (k >= 0 ==> GivesFrequency(lib, TextOf(lib, lines[k])))
  {
    if k < 0 then Finite(5.0) else FreqIn(lib, TextOf(lib, lines[k])).value
  }

  /** While the driver lives the frequency is the last one given, 5 Hz before any is. */
  lemma {:induction false} LastFrequencyHolds(lib: Library, limits: Limits, lines: seq<Bytes>, k: int)
    requires -1 <= k < |lines| && LastFrequency(lib, lines, k) && !ParseAll(lib, limits, lines).dead
    ensures ParseAll(lib, limits, lines).freq == FrequencyOfLine(lib, lines, k)
    decreases |lines|
  {
    if lines == [] {
    } else {
      var front := lines[..|lines| - 1];
      FrequencyAfter(lib, limits, lines);
      if k < |front| {
        FrontFrequency(lib, lines, front, k);
        LastFrequencyHolds(lib, limits, front, k);
      } else {
        LineGives(lib, lines, k);
      }
    }
  }

  lemma LineGives(lib: Library, lines: seq<Bytes>, k: int)
    requires 0 <= k < |lines| && LastFrequency(lib, lines, k)
    ensures GivesFrequency(lib, TextOf(lib, lines[k]))
    ensures FrequencyOfLine(lib, lines, k) == FreqIn(lib, TextOf(lib, lines[k])).value
  {}

  lemma FrontFrequency(lib: Library, lines: seq<Bytes>, front: seq<Bytes>, k: int)
    requires -1 <= k < |lines| - 1 && front == lines[..|lines| - 1] && LastFrequency(lib, lines, k)
    ensures LastFrequency(lib, front, k) && FrequencyOfLine(lib, front, k) == FrequencyOfLine(lib, lines, k)
    ensures !GivesFrequency(lib, TextOf(lib, lines[|lines| - 1]))
  {
    assert forall j :: 0 <= j < |front| ==> front[j] == lines[j];
  }

  function EndsIn(lib: Library, lines: seq<Bytes>): nat {
    if lines == [] then 0 else
      EndsIn(lib, lines[..|lines| - 1]) + (if IsEndOfScan(TextOf(lib, lines[|lines| - 1])) then 1 else 0)
  }

  /** While the driver lives there are as many messages as ends of scans. */
  lemma {:induction false} EveryScanIsPublished(lib: Library, limits: Limits, lines: seq<Bytes>)
    requires !ParseAll(lib, limits, lines).dead
    ensures |ParseAll(lib, limits, lines).published| == EndsIn(lib, lines)
  {
    if lines == [] {
    } else {
      ScanIsPublished(lib, limits, lines);
      EveryScanIsPublished(lib, limits, lines[..|lines| - 1]);
    }
  }

  predicate InRange(limits: Limits, f: Float) {
    f == PosInf || f == NaN || (f.Finite? && f.x > 0.0 && limits.min <= f.x <= limits.max)
  }

  /** The line writes sample i with a distance that is not a number. */
  predicate WritesNaN(lib: Library, line: string, i: nat) {
    Writes(lib, line, i) && SampleIn(lib, line).value.mm == NaN
  }

  /** Each sample is empty or within the limits, unless a line gave its distance as NaN. */
  lemma {:induction false} RangesAreFiltered(lib: Library, limits: Limits, lines: seq<Bytes>, i: nat)
    requires i < TOTAL_SAMPLES
    ensures InRange(limits, ParseAll(lib, limits, lines).ranges[i])
    ensures ParseAll(lib, limits, lines).ranges[i].NaN? ==>
      exists k :: 0 <= k < |lines| && WritesNaN(lib, TextOf(lib, lines[k]), i)
    decreases |lines|
  {
    if lines == [] {
    } else {
      var n := |lines| - 1;
      RangesAreFiltered(lib, limits, lines[..n], i);
      var s := ParseAll(lib, limits, lines[..n]);
      WritesOne(lib, limits, s, TextOf(lib, lines[n]), i);
      if s.ranges[i].NaN? {
        var k :| 0 <= k < n && WritesNaN(lib, TextOf(lib, lines[..n][k]), i);
        assert lines[..n][k] == lines[k];
      }
    }
  }

  /** What a read of the serial port gives: bytes (none if there are none waiting), or an error. */
  datatype Read = Got(bytes: Bytes) | Failed

  class LidarDriver {
    const lib: Library
    const limits: Limits
    var lineBuf: Bytes
    var ranges: seq<Float>
    var intensities: seq<Float>
    var freq: Float
    var published: seq<Message>
    var dead: bool
    ghost var stream: Bytes  // all the bytes received

    ghost function State(): Scan
      reads this
    {
      Scan(ranges, intensities, freq, published, dead)
    }

    /** The state is that of the stream's complete lines, and the buffer holds its rest. */
    ghost predicate Valid()
      reads this
    {
      && State() == ParseAll(lib, limits, LinesOf(stream))
      && (!dead ==> lineBuf == RestOf(stream))
    }

    constructor (lib: Library, limits: Limits)
      ensures Valid() && stream == [] && !dead
      ensures this.lib == lib && this.limits == limits
    {
      this.lib, this.limits := lib, limits;
      lineBuf, stream := [], [];
      ranges, intensities := Repeated(PosInf, TOTAL_SAMPLES), Repeated(Finite(0.0), TOTAL_SAMPLES);
      freq, published, dead := Finite(5.0), [], false;
    }

    /** `_read_cb`: after every read the state depends on the bytes received, not on how they were chopped. */
    method ReadCb(read: Read)
      requires Valid() && !dead
      modifies this
      ensures Valid() && stream == old(stream) + (if read.Got? then read.bytes else [])
      ensures !dead ==> NEWLINE !in lineBuf
    {
      if read.Failed? {
        assert stream + [] == stream;
        return;
      }
      if read.bytes != [] {
        lineBuf := lineBuf + read.bytes;
      }
      LinesOfMore(stream, read.bytes);
      assert RestOf(stream) + read.bytes == lineBuf;
      ghost var seen := LinesOf(stream);
      stream := stream + read.bytes;
      ProcessLines(seen);
    }

    /** `_process_lines`: the complete lines of the buffer are parsed in order and its rest stays, unless a line is
        fatal. */
    method ProcessLines(ghost seen: seq<Bytes>)
      requires State() == ParseAll(lib, limits, seen) && !dead
      modifies `lineBuf, `ranges, `intensities, `freq, `published, `dead
      ensures State() == ParseAll(lib, limits, seen + LinesOf(old(lineBuf)))
      ensures !dead ==> lineBuf == RestOf(old(lineBuf))
    {
      ghost var parsed := seen;
      assert seen + LinesOf(lineBuf) == parsed + LinesOf(lineBuf);
      while NEWLINE in lineBuf
        invariant State() == ParseAll(lib, limits, parsed) && !dead
        invariant parsed + LinesOf(lineBuf) == seen + LinesOf(old(lineBuf))
        invariant RestOf(lineBuf) == RestOf(old(lineBuf))
        decreases |lineBuf|
      {
        var i := FirstNewline(lineBuf);
        var lineBytes := lineBuf[..i];
        ghost var later := LinesOf(lineBuf[i + 1..]);
        lineBuf := lineBuf[i + 1..];
        Reassociated(parsed, [lineBytes], later);
        ParsedOneMore(lib, limits, parsed, lineBytes);
        parsed := parsed + [lineBytes];
        var line := Stripped(lib, lib.decode(lineBytes));
        if line != [] {
          ParseLine(line);
        }
        if dead {
          DeadStays(lib, limits, parsed, later);
          return;
        }
      }
      assert parsed + [] == parsed;
    }

    /** `_parse_line`. */
    method ParseLine(line: string)
      requires WellFormed(State()) && !dead && line != []
      modifies `ranges, `intensities, `freq, `published, `dead
      ensures State() == Parse(lib, limits, old(State()), line)
    {
      if "#" <= line {
        if Contains(line, "scan") && Contains(line, "complete") {
          EndScan(line);
        }
        return;
      }
      ParseSample(line);
    }

    /** An end-of-scan line: its frequency, if it has one, and the scan. */
    method EndScan(line: string)
      requires !dead
      modifies `freq, `published, `dead
      ensures State() == ScanEnded(limits, old(State()), FreqIn(lib, line))
    {
      var number := FreqIn(lib, line);
      if number.Some? {
        freq := number.value;
      }
      PublishScan();
    }

    /** A data line: angle, distance and quality. */
    method ParseSample(line: string)
      requires WellFormed(State()) && !dead && line != [] && !("#" <= line)
      modifies `ranges, `intensities, `dead
      ensures State() == Parse(lib, limits, old(State()), line)
    {
      var parts := Fields(lib, line);
      if |parts| < 3 {
        return;
      }
      var angle, distance, quality := lib.toFloat(parts[0]), lib.toFloat(parts[1]), lib.toFloat(parts[2]);
      if angle.None? || distance.None? || quality.None? {
        return;
      }
      if !angle.value.Finite? {
        dead := true;
        return;
      }
      var i := IndexOf(angle.value.x);
      ranges := ranges[i := RangeOf(limits, distance.value)];
      intensities := intensities[i := quality.value];
    }

    /** `_publish_scan`, which divides by the frequency. */
    method PublishScan()
      requires !dead
      modifies `published, `dead
      ensures if freq == Finite(0.0) then dead && published == old(published)
              else !dead && published == old(published) + [MessageOf(limits, State())]
    {
      if freq == Finite(0.0) {
        dead := true;
        return;
      }
      var scanTime := Inverse(freq);
      published := published + [Message(limits.angleOffset, limits.angleOffset + limits.turn,
                                        limits.turn / TOTAL_SAMPLES as real, Over(scanTime, TOTAL_SAMPLES), scanTime,
                                        limits.min, limits.max, ranges, intensities)];
    }
  }

  lemma ParsedOneMore(lib: Library, limits: Limits, lines: seq<Bytes>, line: Bytes)
    ensures ParseAll(lib, limits, lines + [line])
            == Parse(lib, limits, ParseAll(lib, limits, lines), TextOf(lib, line))
  {
    assert (lines + [line])[..|lines|] == lines;
  }

  /** A driver that died parses nothing more. */
  lemma {:induction false} DeadStays(lib: Library, limits: Limits, lines: seq<Bytes>, later: seq<Bytes>)
    requires ParseAll(lib, limits, lines).dead
    ensures ParseAll(lib, limits, lines + later) == ParseAll(lib, limits, lines)
    decreases |later|
  {
    if later == [] {
      assert lines + [] == lines;
    } else {
      var n := |later| - 1;
      DeadStays(lib, limits, lines, later[..n]);
      assert (lines + later)[..|lines + later| - 1] == lines + later[..n];
    }
  }
}
