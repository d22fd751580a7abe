/**
 * The line-oriented wire format. A block is a header line `M N`, then
 * lines of three tokens `i j value`, then one blank line. Input lines
 * arrive already split into whitespace-free tokens; a blank line is the
 * empty token list. Each reader returns, besides its block, the lines it
 * left unread, because the vector block follows the matrix block on the
 * same stream.
 */
module Codec {
  import opened Wrappers
  import opened Numerals
  import opened Matrices

  /** One input line, split into tokens by `str.split()`. */
  type Line = seq<string>

  /** The exceptions the two readers raise. */
  datatype ParseError =
    | BadHeader                   // the header line is missing or does not hold two tokens
    | HeaderMismatch              // the vector header's two tokens differ as text
    | NotAnInteger(token: string) // `int(token)` raised
    | NotANumber(token: string)   // the value token is not a float
    | NegativeLength(m: int)      // `np.zeros` of a negative length
    | UnexpectedLine(line: Line)  // a line of neither 0 nor 3 tokens
    | EndOfInput                  // the stream ended before the blank line
    | ValueNotTrue                // the value assertion of the vector reader
    | OffDiagonal(i: int, j: int) // a vector entry neither on the diagonal nor in column 0
    | IndexOutOfRange(i: int)     // `v[i]` with i outside the vector

  /** `str.split()` never yields an empty token. */
  predicate SplitLines(lines: seq<Line>) {
    forall k, t :: 0 <= k < |lines| && 0 <= t < |lines[k]| ==> |lines[k][t]| > 0
  }

  /** What `read_matrix` builds: the declared shape and the coordinate lists I, J, V. */
  datatype Coo = Coo(rows: int, cols: int, row: seq<int>, col: seq<int>, val: seq<real>)

  // ---------------------------------------------------------------------
  // read_matrix

  /**
   * One entry line of a matrix block: `int(i)`, `int(j)` and the float
   * conversion of the value, in that order; `parseReal` stands for
   * `np.float64`.
   */
  function ParseMatrixEntry(line: Line, parseReal: string -> Option<real>): Result<(int, int, real), ParseError>
    requires |line| == 3
  {
    match (ParseInt(line[0]), ParseInt(line[1]), parseReal(line[2]))
    case (None, _, _) => Failure(NotAnInteger(line[0]))
    case (Some(_), None, _) => Failure(NotAnInteger(line[1]))
    case (Some(_), Some(_), None) => Failure(NotANumber(line[2]))
    case (Some(i), Some(j), Some(a)) => Success((i, j, a))
  }

  /**
   * The entry loop of `read_matrix` from some line on, with I, J and V as
   * built so far: the result is the final lists and the unread lines.
   */
  function MatrixEntries(body: seq<Line>, parseReal: string -> Option<real>,
                         row: seq<int>, col: seq<int>, val: seq<real>)
    : Result<(seq<int>, seq<int>, seq<real>, seq<Line>), ParseError>
    decreases |body|
  {
    if body == [] then Failure(EndOfInput)
    else if |body[0]| == 0 then Success((row, col, val, body[1..]))
    else if |body[0]| == 3 then
      match ParseMatrixEntry(body[0], parseReal)
      case Failure(e) => Failure(e)
      case Success((i, j, a)) => MatrixEntries(body[1..], parseReal, row + [i], col + [j], val + [a])
    else Failure(UnexpectedLine(body[0]))
  }

  /** `read_matrix`: the header, then the entry loop. */
  function MatrixBlock(input: seq<Line>, parseReal: string -> Option<real>): Result<(Coo, seq<Line>), ParseError> {
    if input == [] || |input[0]| != 2 then Failure(BadHeader)
    else
      match (ParseInt(input[0][0]), ParseInt(input[0][1]))
      case (None, _) => Failure(NotAnInteger(input[0][0]))
      case (Some(_), None) => Failure(NotAnInteger(input[0][1]))
      case (Some(m), Some(n)) =>
        match MatrixEntries(input[1..], parseReal, [], [], [])
        case Failure(e) => Failure(e)
        case Success((row, col, val, rest)) => Success((Coo(m, n, row, col, val), rest))
  }

  /** `read_matrix`, appending to I, J and V line by line. */
  method ReadMatrix(input: seq<Line>, parseReal: string -> Option<real>) returns (r: Result<(Coo, seq<Line>), ParseError>)
    ensures r == MatrixBlock(input, parseReal)
  {
    if input == [] || |input[0]| != 2 {
      return Failure(BadHeader);
    }
    var m := ParseInt(input[0][0]);
    if m.None? {
      return Failure(NotAnInteger(input[0][0]));
    }
    var n := ParseInt(input[0][1]);
    if n.None? {
      return Failure(NotAnInteger(input[0][1]));
    }
    var rowIdx, colIdx, vals := [], [], [];
    var k := 1;
    while k < |input|
      invariant 1 <= k <= |input|
      invariant MatrixEntries(input[1..], parseReal, [], [], []) == MatrixEntries(input[k..], parseReal, rowIdx, colIdx, vals)
    {
      var parts := input[k];
      assert input[k..] == [parts] + input[k + 1..];
      if |parts| == 0 {
        return Success((Coo(m.value, n.value, rowIdx, colIdx, vals), input[k + 1..]));
      } else if |parts| == 3 {
        var i := ParseInt(parts[0]);
        if i.None? {
          return Failure(NotAnInteger(parts[0]));
        }
        var j := ParseInt(parts[1]);
        if j.None? {
          return Failure(NotAnInteger(parts[1]));
        }
        var a := parseReal(parts[2]);
        if a.None? {
          return Failure(NotANumber(parts[2]));
        }
        rowIdx, colIdx, vals := rowIdx + [i.value], colIdx + [j.value], vals + [a.value];
      } else {
        return Failure(UnexpectedLine(parts));
      }
      k := k + 1;
    }
    return Failure(EndOfInput);
  }

  /** Every line is one the matrix loop takes as an entry. */
  predicate MatrixEntryLines(entries: seq<Line>, parseReal: string -> Option<real>) {
    forall k :: 0 <= k < |entries| ==> |entries[k]| == 3 && ParseMatrixEntry(entries[k], parseReal).Success?
  }

  /** The triples a run of entry lines stands for. */
  function Decode(entries: seq<Line>, parseReal: string -> Option<real>): (d: seq<(int, int, real)>)
    requires MatrixEntryLines(entries, parseReal)
    ensures |d| == |entries|
    ensures forall k :: 0 <= k < |d| ==> d[k] == ParseMatrixEntry(entries[k], parseReal).value
    decreases |entries|
  {
    if entries == [] then []
    else
      assert forall k :: 0 <= k < |entries| - 1 ==> entries[1..][k] == entries[k + 1];
      [ParseMatrixEntry(entries[0], parseReal).value] + Decode(entries[1..], parseReal)
  }

  function Firsts(d: seq<(int, int, real)>): (s: seq<int>)
    ensures |s| == |d| && forall k :: 0 <= k < |d| ==> s[k] == d[k].0
  {
    seq(|d|, k requires 0 <= k < |d| => d[k].0)
  }

  function Seconds(d: seq<(int, int, real)>): (s: seq<int>)
    ensures |s| == |d| && forall k :: 0 <= k < |d| ==> s[k] == d[k].1
  {
    seq(|d|, k requires 0 <= k < |d| => d[k].1)
  }

  function Thirds(d: seq<(int, int, real)>): (s: seq<real>)
    ensures |s| == |d| && forall k :: 0 <= k < |d| ==> s[k] == d[k].2
  {
    seq(|d|, k requires 0 <= k < |d| => d[k].2)
  }

  /** One entry line read: its triple is appended and the loop goes on. */
  lemma MatrixEntriesStep(body: seq<Line>, parseReal: string -> Option<real>,
                          row: seq<int>, col: seq<int>, val: seq<real>)
    requires body != [] && |body[0]| == 3 && ParseMatrixEntry(body[0], parseReal).Success?
    ensures var e := ParseMatrixEntry(body[0], parseReal).value;
      MatrixEntries(body, parseReal, row, col, val)
      == MatrixEntries(body[1..], parseReal, row + [e.0], col + [e.1], val + [e.2])
  {
  }

  /** What the matrix loop returns on `entries + [stop] + rest`, for a stop line that is not an entry. */
  function FramedEntries(entries: seq<Line>, stop: Line, rest: seq<Line>, parseReal: string -> Option<real>,
                         row: seq<int>, col: seq<int>, val: seq<real>)
    : Result<(seq<int>, seq<int>, seq<real>, seq<Line>), ParseError>
    requires MatrixEntryLines(entries, parseReal)
  {
    var d := Decode(entries, parseReal);
    if |stop| == 0 then Success((row + Firsts(d), col + Seconds(d), val + Thirds(d), rest))
    else Failure(UnexpectedLine(stop))
  }

  /** The framing with no entry line before the stop line. */
  lemma FramingEmpty(stop: Line, rest: seq<Line>, parseReal: string -> Option<real>,
                     row: seq<int>, col: seq<int>, val: seq<real>)
    requires |stop| != 3
    ensures MatrixEntries([stop] + rest, parseReal, row, col, val) == FramedEntries([], stop, rest, parseReal, row, col, val)
  {
    assert ([stop] + rest)[1..] == rest;
    var d := Decode([], parseReal);
    assert Firsts(d) == [] && Seconds(d) == [] && Thirds(d) == [];
    assert row + [] == row && col + [] == col && val + [] == val;
  }

  /** Splitting the triples at their head splits the column of first fields the same way. */
  lemma FirstsStep(d: seq<(int, int, real)>, row: seq<int>)
    requires d != []
    ensures row + Firsts(d) == (row + [d[0].0]) + Firsts(d[1..])
  {
  }

  /** Splitting the triples at their head splits the column of second fields the same way. */
  lemma SecondsStep(d: seq<(int, int, real)>, col: seq<int>)
    requires d != []
    ensures col + Seconds(d) == (col + [d[0].1]) + Seconds(d[1..])
  {
  }

  /** Splitting the triples at their head splits the column of values the same way. */
  lemma ThirdsStep(d: seq<(int, int, real)>, val: seq<real>)
    requires d != []
    ensures val + Thirds(d) == (val + [d[0].2]) + Thirds(d[1..])
  {
  }

  /** The expected result for `entries` is that for its tail, read with the head's triple appended. */
  lemma FramedStep(entries: seq<Line>, stop: Line, rest: seq<Line>, parseReal: string -> Option<real>,
                   row: seq<int>, col: seq<int>, val: seq<real>)
    requires entries != [] && MatrixEntryLines(entries, parseReal)
    ensures var e := ParseMatrixEntry(entries[0], parseReal).value;
      FramedEntries(entries, stop, rest, parseReal, row, col, val)
      == FramedEntries(entries[1..], stop, rest, parseReal, row + [e.0], col + [e.1], val + [e.2])
  {
    var d := Decode(entries, parseReal);
    assert d[1..] == Decode(entries[1..], parseReal);
    FirstsStep(d, row);
    SecondsStep(d, col);
    ThirdsStep(d, val);
  }

  /** The framing of `entries` follows from that of its tail, read with the head's triple appended. */
  lemma FramingStep(entries: seq<Line>, stop: Line, rest: seq<Line>, parseReal: string -> Option<real>,
                    row: seq<int>, col: seq<int>, val: seq<real>)
    requires entries != [] && MatrixEntryLines(entries, parseReal)
    requires var e := ParseMatrixEntry(entries[0], parseReal).value;
      MatrixEntries(entries[1..] + [stop] + rest, parseReal, row + [e.0], col + [e.1], val + [e.2])
      == FramedEntries(entries[1..], stop, rest, parseReal, row + [e.0], col + [e.1], val + [e.2])
    ensures MatrixEntries(entries + [stop] + rest, parseReal, row, col, val)
      == FramedEntries(entries, stop, rest, parseReal, row, col, val)
  {
    var body := entries + [stop] + rest;
    assert body[0] == entries[0];
    assert body[1..] == entries[1..] + [stop] + rest;
    MatrixEntriesStep(body, parseReal, row, col, val);
    FramedStep(entries, stop, rest, parseReal, row, col, val);
  }

  /**
   * Framing of a matrix block: after well-formed entry lines, a blank line
   * ends the block with every entry appended to I, J and V and the lines
   * after it unread; a line of any count other than 0 or 3 is an error.
   */
  lemma {:induction false} MatrixEntriesFraming(entries: seq<Line>, stop: Line, rest: seq<Line>,
                                               parseReal: string -> Option<real>,
                                               row: seq<int>, col: seq<int>, val: seq<real>)
    requires MatrixEntryLines(entries, parseReal)
    requires |stop| != 3
    ensures MatrixEntries(entries + [stop] + rest, parseReal, row, col, val)
      == FramedEntries(entries, stop, rest, parseReal, row, col, val)
    decreases |entries|
  {
    if entries == [] {
      assert entries + [stop] + rest == [stop] + rest;
      FramingEmpty(stop, rest, parseReal, row, col, val);
    } else {
      var e := ParseMatrixEntry(entries[0], parseReal).value;
      MatrixEntriesFraming(entries[1..], stop, rest, parseReal, row + [e.0], col + [e.1], val + [e.2]);
      FramingStep(entries, stop, rest, parseReal, row, col, val);
    }
  }

  /** Well-formed entry lines with no blank line after them: the stream ends too early. */
  lemma {:induction false} MatrixEntriesEndOfInput(entries: seq<Line>, parseReal: string -> Option<real>,
                                                  row: seq<int>, col: seq<int>, val: seq<real>)
    requires MatrixEntryLines(entries, parseReal)
    ensures MatrixEntries(entries, parseReal, row, col, val) == Failure(EndOfInput)
    decreases |entries|
  {
    if entries != [] {
      var e := ParseMatrixEntry(entries[0], parseReal).value;
      MatrixEntriesEndOfInput(entries[1..], parseReal, row + [e.0], col + [e.1], val + [e.2]);
    }
  }

  /**
   * A matrix block that is read successfully ends at a blank line k; every
   * line before it is a three-token entry, and the unread lines are those
   * after it.
   */
  lemma {:induction false} MatrixEntriesSuccess(body: seq<Line>, parseReal: string -> Option<real>,
                                               row: seq<int>, col: seq<int>, val: seq<real>)
    returns (k: nat)
    requires MatrixEntries(body, parseReal, row, col, val).Success?
    ensures k < |body| && |body[k]| == 0
    ensures MatrixEntryLines(body[..k], parseReal)
    ensures MatrixEntries(body, parseReal, row, col, val).value.3 == body[k + 1..]
    decreases |body|
  {
    if |body[0]| == 0 {
      k := 0;
    } else {
      var e := ParseMatrixEntry(body[0], parseReal).value;
      var k' := MatrixEntriesSuccess(body[1..], parseReal, row + [e.0], col + [e.1], val + [e.2]);
      k := k' + 1;
      assert body[1..][k'..] == body[k..];
    }
  }

  // ---------------------------------------------------------------------
  // read_vector

  /** Python's `bool(s)` on a string: true when it is non-empty. */
  predicate Truthy(s: string) {
    |s| > 0
  }

  /** numpy's `v[i]` position for -n <= i < n: negative indices count from the end. */
  function Wrap(i: int, n: nat): (x: nat)
    requires -(n as int) <= i < n
    ensures x < n && (x == i || x == i + n)
  {
    if i < 0 then i + n else i
  }

  /** The line is a diagonal entry that names position x of a vector of length n. */
  predicate SetsFlag(line: Line, n: nat, x: nat) {
    |line| == 3 && ParseInt(line[0]).Some? && ParseInt(line[1]) == ParseInt(line[0])
    && -(n as int) <= ParseInt(line[0]).value < n && Wrap(ParseInt(line[0]).value, n) == x
  }

  /**
   * The line is accepted by the vector loop: both indices are integers, the
   * value token is truthy, and the entry is on the diagonal within range or
   * off the diagonal in column 0.
   */
  predicate AcceptsVectorEntry(line: Line, n: nat) {
    |line| == 3 && ParseInt(line[0]).Some? && ParseInt(line[1]).Some? && Truthy(line[2])
    && var i, j := ParseInt(line[0]).value, ParseInt(line[1]).value;
       (j == i && -(n as int) <= i < n) || (j != i && j == 0)
  }

  /**
   * One entry line of a vector block applied to the flags so far: a
   * diagonal entry sets the flag it names, a column-0 entry changes
   * nothing, and anything else is an error.
   */
  function ApplyVectorEntry(v: seq<bool>, line: Line): (r: Result<seq<bool>, ParseError>)
    requires |line| == 3
    ensures r.Success? <==> AcceptsVectorEntry(line, |v|)
    ensures r.Success? ==> |r.value| == |v| && forall x :: 0 <= x < |v| ==> r.value[x] == (v[x] || SetsFlag(line, |v|, x))
    ensures r == Failure(ValueNotTrue) ==> |line[2]| == 0
  {
    match (ParseInt(line[0]), ParseInt(line[1]))
    case (None, _) => Failure(NotAnInteger(line[0]))
    case (Some(_), None) => Failure(NotAnInteger(line[1]))
    case (Some(i), Some(j)) =>
      if !Truthy(line[2]) then Failure(ValueNotTrue)
      else if j == i then
        if -|v| <= i < |v| then Success(v[Wrap(i, |v|) := true]) else Failure(IndexOutOfRange(i))
      else if j == 0 then Success(v)
      else Failure(OffDiagonal(i, j))
  }

  /** The entry loop of `read_vector` from some line on, with the flags set so far. */
  function VectorEntries(body: seq<Line>, v: seq<bool>): Result<(seq<bool>, seq<Line>), ParseError>
    decreases |body|
  {
    if body == [] then Failure(EndOfInput)
    else if |body[0]| == 0 then Success((v, body[1..]))
    else if |body[0]| == 3 then
      match ApplyVectorEntry(v, body[0])
      case Failure(e) => Failure(e)
      case Success(v') => VectorEntries(body[1..], v')
    else Failure(UnexpectedLine(body[0]))
  }

  /** The all-false vector `np.zeros(m, dtype='bool_')`. */
  function NoFlags(m: nat): (v: seq<bool>)
    ensures |v| == m && forall x :: 0 <= x < m ==> !v[x]
  {
    seq(m, _ => false)
  }

  /**
   * `read_vector`: the header's two tokens must be equal as text, the first
   * gives the length, then the entry loop: the flags, the length and the
   * unread lines.
   */
  function VectorBlock(input: seq<Line>): Result<(seq<bool>, nat, seq<Line>), ParseError> {
    if input == [] || |input[0]| != 2 then Failure(BadHeader)
    else if input[0][0] != input[0][1] then Failure(HeaderMismatch)
    else
      match ParseInt(input[0][0])
      case None => Failure(NotAnInteger(input[0][0]))
      case Some(m) =>
        if m < 0 then Failure(NegativeLength(m))
        else
          match VectorEntries(input[1..], NoFlags(m))
          case Failure(e) => Failure(e)
          case Success((v, rest)) => Success((v, m, rest))
  }

  /** `read_vector`, writing into the Boolean array v line by line. */
  method ReadVector(input: seq<Line>) returns (r: Result<(seq<bool>, nat, seq<Line>), ParseError>)
    ensures r == VectorBlock(input)
  {
    if input == [] || |input[0]| != 2 {
      return Failure(BadHeader);
    }
    if input[0][0] != input[0][1] {
      return Failure(HeaderMismatch);
    }
    var shape := ParseInt(input[0][0]);
    if shape.None? {
      return Failure(NotAnInteger(input[0][0]));
    }
    if shape.value < 0 {
      return Failure(NegativeLength(shape.value));
    }
    var m: nat := shape.value;
    var v := new bool[m](_ => false);
    assert v[..] == NoFlags(m);
    var k := 1;
    while k < |input|
      invariant 1 <= k <= |input|
      invariant VectorEntries(input[1..], NoFlags(m)) == VectorEntries(input[k..], v[..])
    {
      var parts := input[k];
      assert input[k..] == [parts] + input[k + 1..];
      if |parts| == 0 {
        return Success((v[..], m, input[k + 1..]));
      } else if |parts| == 3 {
        var i := ParseInt(parts[0]);
        if i.None? {
          return Failure(NotAnInteger(parts[0]));
        }
        var j := ParseInt(parts[1]);
        if j.None? {
          return Failure(NotAnInteger(parts[1]));
        }
        var a := Truthy(parts[2]);
        if !a {
          return Failure(ValueNotTrue);
        }
        if j.value == i.value {
          if !(-(m as int) <= i.value < m) {
            return Failure(IndexOutOfRange(i.value));
          }
          v[Wrap(i.value, m)] := a;
        } else if j.value != 0 {
          return Failure(OffDiagonal(i.value, j.value));
        }
      } else {
        return Failure(UnexpectedLine(parts));
      }
      k := k + 1;
    }
    return Failure(EndOfInput);
  }

  /** Every line is one the vector loop accepts for flags of length n. */
  predicate VectorEntryLines(entries: seq<Line>, n: nat) {
    forall k :: 0 <= k < |entries| ==> AcceptsVectorEntry(entries[k], n)
  }

  /** Some line of `entries` is a diagonal entry naming position x. */
  predicate Flagged(entries: seq<Line>, n: nat, x: nat) {
    exists k :: 0 <= k < |entries| && SetsFlag(entries[k], n, x)
  }

  /**
   * The flags after a run of accepted entry lines, stated position by
   * position: a flag is set when it was set before or some line names it.
   */
  function FlagsAfter(entries: seq<Line>, v: seq<bool>): (w: seq<bool>)
    ensures |w| == |v|
    ensures forall x :: 0 <= x < |v| ==> w[x] == (v[x] || Flagged(entries, |v|, x))
  {
    seq(|v|, x requires 0 <= x < |v| => v[x] || Flagged(entries, |v|, x))
  }

  /** One accepted line folded into the flags, then the others. */
  lemma FlagsAfterCons(entries: seq<Line>, v: seq<bool>, v': seq<bool>)
    requires entries != [] && |v'| == |v|
    requires forall x :: 0 <= x < |v| ==> v'[x] == (v[x] || SetsFlag(entries[0], |v|, x))
    ensures FlagsAfter(entries, v) == FlagsAfter(entries[1..], v')
  {
  }

  /** With no line, no flag changes. */
  lemma FlagsAfterNone(v: seq<bool>)
    ensures FlagsAfter([], v) == v
  {
  }

  /**
   * Framing of a vector block: after accepted entry lines, a blank line
   * ends the block with the flags the lines name set and the lines after it
   * unread; a line of any count other than 0 or 3 is an error.
   */
  lemma {:induction false} VectorEntriesFraming(entries: seq<Line>, stop: Line, rest: seq<Line>, v: seq<bool>)
    requires VectorEntryLines(entries, |v|)
    requires |stop| != 3
    ensures VectorEntries(entries + [stop] + rest, v)
      == if |stop| == 0 then Success((FlagsAfter(entries, v), rest)) else Failure(UnexpectedLine(stop))
    decreases |entries|
  {
    var body := entries + [stop] + rest;
    if entries == [] {
      assert body[0] == stop && body[1..] == rest;
      FlagsAfterNone(v);
    } else {
      assert body[0] == entries[0];
      assert body[1..] == entries[1..] + [stop] + rest;
      var v' := ApplyVectorEntry(v, entries[0]).value;
      VectorEntriesFraming(entries[1..], stop, rest, v');
      FlagsAfterCons(entries, v, v');
    }
  }

  /** Accepted entry lines with no blank line after them: the stream ends too early. */
  lemma {:induction false} VectorEntriesEndOfInput(entries: seq<Line>, v: seq<bool>)
    requires VectorEntryLines(entries, |v|)
    ensures VectorEntries(entries, v) == Failure(EndOfInput)
    decreases |entries|
  {
    if entries != [] {
      VectorEntriesEndOfInput(entries[1..], ApplyVectorEntry(v, entries[0]).value);
    }
  }

  /**
   * A vector block that is read successfully ends at a blank line k; every
   * line before it is an accepted entry, and the unread lines are those
   * after it.
   */
  lemma {:induction false} VectorEntriesSuccess(body: seq<Line>, v: seq<bool>) returns (k: nat)
    requires VectorEntries(body, v).Success?
    ensures k < |body| && |body[k]| == 0
    ensures VectorEntryLines(body[..k], |v|)
    ensures VectorEntries(body, v).value.1 == body[k + 1..]
    decreases |body|
  {
    if |body[0]| == 0 {
      k := 0;
    } else {
      var k' := VectorEntriesSuccess(body[1..], ApplyVectorEntry(v, body[0]).value);
      k := k' + 1;
      assert body[1..][k'..] == body[k..];
      assert forall t :: 0 <= t < k' ==> body[1..][..k'][t] == body[..k][t + 1];
    }
  }

  /** Under well-split input the vector loop never fails on a line's value token. */
  lemma {:induction false} VectorEntriesKeepValues(body: seq<Line>, v: seq<bool>)
    requires SplitLines(body)
    ensures VectorEntries(body, v) != Failure(ValueNotTrue)
    decreases |body|
  {
    if body != [] && |body[0]| == 3 {
      assert |body[0][2]| > 0;
      var r := ApplyVectorEntry(v, body[0]);
      if r.Success? {
        assert SplitLines(body[1..]) by {
          forall k, t | 0 <= k < |body[1..]| && 0 <= t < |body[1..][k]|
            ensures |body[1..][k][t]| > 0
          {
            assert body[1..][k] == body[k + 1];
          }
        }
        VectorEntriesKeepValues(body[1..], r.value);
      }
    }
  }

  /**
   * `bool(a)` of a token produced by `split()` is always true, so the value
   * assertion of `read_vector` never rejects an input.
   */
  lemma ValueNeverRejected(input: seq<Line>)
    requires SplitLines(input)
    ensures VectorBlock(input) != Failure(ValueNotTrue)
  {
    if input != [] && |input[0]| == 2 && input[0][0] == input[0][1] && ParseInt(input[0][0]).Some? {
      var m := ParseInt(input[0][0]).value;
      if m >= 0 {
        assert SplitLines(input[1..]) by {
          forall k, t | 0 <= k < |input[1..]| && 0 <= t < |input[1..][k]|
            ensures |input[1..][k][t]| > 0
          {
            assert input[1..][k] == input[k + 1];
          }
        }
        VectorEntriesKeepValues(input[1..], NoFlags(m));
      }
    }
  }

  /**
   * A successful `read_vector`: the header's two tokens are the same text
   * naming the length m >= 0, the flags have length m, and a flag is set
   * exactly when a diagonal entry line before the terminating blank line
   * names it; the lines after that blank line are left unread.
   */
  lemma VectorBlockSuccess(input: seq<Line>) returns (k: nat)
    requires VectorBlock(input).Success?
    ensures var (v, m, rest) := VectorBlock(input).value;
      |input[0]| == 2 && input[0][0] == input[0][1] && ParseInt(input[0][0]) == Some(m as int)
      && 1 <= k < |input| && |input[k]| == 0 && rest == input[k + 1..]
      && |v| == m && forall x :: 0 <= x < m ==> (v[x] <==> Flagged(input[1..k], m, x))
  {
    var m: nat := ParseInt(input[0][0]).value;
    var k' := VectorEntriesSuccess(input[1..], NoFlags(m));
    k := k' + 1;
    var body := input[1..];
    assert body == body[..k'] + [body[k']] + body[k' + 1..];
    assert body[..k'] == input[1..k];
    VectorEntriesFraming(body[..k'], body[k'], body[k' + 1..], NoFlags(m));
    assert body[k' + 1..] == input[k + 1..];
  }

  /** The header is compared as text: "2" and "02" name the same length and are still refused. */
  lemma HeaderComparedAsText()
    ensures ParseInt("2") == ParseInt("02") == Some(2)
    ensures VectorBlock([["2", "02"], []]) == Failure(HeaderMismatch)
  {
  }

  /** A value token "0" still sets the diagonal flag it names. */
  lemma ZeroValueSetsFlag()
    ensures VectorBlock([["1", "1"], ["0", "0", "0"], []]) == Success(([true], 1, []))
  {
    var body: seq<Line> := [["0", "0", "0"], []];
    assert ParseInt("0") == Some(0) && ParseInt("1") == Some(1);
    assert Truthy("0") && Wrap(0, 1) == 0;
    assert [false][0 := true] == [true];
    assert NoFlags(1) == [false];
    assert ApplyVectorEntry([false], body[0]) == Success([true]);
    var tail: seq<Line> := [[]];
    assert body[1..] == tail && tail[1..] == [] && |tail[0]| == 0;
    assert VectorEntries(tail, [true]) == Success(([true], []));
    assert VectorEntries(body, NoFlags(1)) == Success(([true], []));
  }

  /**
   * A successful `read_matrix`: the shape is the header's two integers,
   * the block ends at a blank line k, every line before it is an entry
   * line, I, J and V hold those lines' fields in order, and the lines
   * after the blank line are left unread.
   */
  lemma MatrixBlockSuccess(input: seq<Line>, parseReal: string -> Option<real>) returns (k: nat)
    requires MatrixBlock(input, parseReal).Success?
    ensures var (c, rest) := MatrixBlock(input, parseReal).value;
      |input[0]| == 2 && ParseInt(input[0][0]) == Some(c.rows) && ParseInt(input[0][1]) == Some(c.cols)
      && 1 <= k < |input| && |input[k]| == 0 && rest == input[k + 1..]
      && MatrixEntryLines(input[1..k], parseReal)
      && var d := Decode(input[1..k], parseReal);
         c.row == Firsts(d) && c.col == Seconds(d) && c.val == Thirds(d)
  {
    var k' := MatrixEntriesResult(input[1..], parseReal);
    k := k' + 1;
    assert input[1..][..k'] == input[1..k];
    assert input[1..][k' + 1..] == input[k + 1..];
  }

  /** The entry loop of a successful block, started with empty lists, in terms of its terminating blank line. */
  lemma MatrixEntriesResult(body: seq<Line>, parseReal: string -> Option<real>) returns (k: nat)
    requires MatrixEntries(body, parseReal, [], [], []).Success?
    ensures k < |body| && |body[k]| == 0 && MatrixEntryLines(body[..k], parseReal)
    ensures var d := Decode(body[..k], parseReal);
      MatrixEntries(body, parseReal, [], [], []).value == (Firsts(d), Seconds(d), Thirds(d), body[k + 1..])
  {
    k := MatrixEntriesSuccess(body, parseReal, [], [], []);
    assert body == body[..k] + [body[k]] + body[k + 1..];
    MatrixEntriesFraming(body[..k], body[k], body[k + 1..], parseReal, [], [], []);
    var d := Decode(body[..k], parseReal);
    assert [] + Firsts(d) == Firsts(d) && [] + Seconds(d) == Seconds(d) && [] + Thirds(d) == Thirds(d);
  }

  // ---------------------------------------------------------------------
  // write_matrix

  /** The line `'%d %d %s' % (i, j, repr(v))` of a stored entry; `showReal` stands for `repr`. */
  function EntryLine(m: Matrix, pos: (nat, nat), showReal: real -> string): (line: Line)
    requires pos.0 < |m| && pos.1 < |m[pos.0]|
    ensures |line| == 3
  {
    [NatToString(pos.0), NatToString(pos.1), showReal(m[pos.0][pos.1])]
  }

  /**
   * `write_matrix`: the header line `M N`, then one line per stored
   * (non-zero) entry in the row-major order of `tocoo()`, and no
   * terminating blank line.
   */
  function WriteMatrix(m: Matrix, rows: nat, cols: nat, showReal: real -> string): (out: seq<Line>)
    requires IsMatrix(m, rows, cols)
    ensures |out| == 1 + |Support(m, 0)| && out[0] == [NatToString(rows), NatToString(cols)]
    ensures forall k :: 1 <= k < |out| ==> |out[k]| == 3
  {
    var s := Support(m, 0);
    [[NatToString(rows), NatToString(cols)]]
      + seq(|s|, k requires 0 <= k < |s| => EntryLine(m, s[k], showReal))
  }

  /**
   * `parseReal` reads back what `showReal` prints for every value
   * `write_matrix` prints: the non-zero entries of m.
   */
  predicate ReadsBackEntries(m: Matrix, rows: nat, cols: nat, showReal: real -> string,
                             parseReal: string -> Option<real>)
    requires IsMatrix(m, rows, cols)
  {
    forall i, j :: 0 <= i < rows && 0 <= j < cols && m[i][j] != 0.0 ==> parseReal(showReal(m[i][j])) == Some(m[i][j])
  }

  /** `parseReal` accepts what `showReal` prints for every non-zero entry of m. */
  predicate ParsesEntries(m: Matrix, rows: nat, cols: nat, showReal: real -> string,
                          parseReal: string -> Option<real>)
    requires IsMatrix(m, rows, cols)
  {
    forall i, j :: 0 <= i < rows && 0 <= j < cols && m[i][j] != 0.0 ==> parseReal(showReal(m[i][j])).Some?
  }

  /** The triples (i, j, m[i][j]) of the stored entries, in the order `write_matrix` prints them. */
  function Stored(m: Matrix): (d: seq<(int, int, real)>)
    ensures |d| == |Support(m, 0)|
    ensures forall k :: 0 <= k < |d| ==>
      var pos := Support(m, 0)[k]; d[k] == (pos.0 as int, pos.1 as int, m[pos.0][pos.1])
  {
    var s := Support(m, 0);
    seq(|s|, k requires 0 <= k < |s| => (s[k].0 as int, s[k].1 as int, m[s[k].0][s[k].1]))
  }

  /** The entry lines `write_matrix` prints decode to the stored triples. */
  lemma DecodeWritten(m: Matrix, rows: nat, cols: nat, showReal: real -> string,
                      parseReal: string -> Option<real>)
    requires IsMatrix(m, rows, cols)
    requires ReadsBackEntries(m, rows, cols, showReal, parseReal)
    ensures var entries := WriteMatrix(m, rows, cols, showReal)[1..];
      MatrixEntryLines(entries, parseReal) && Decode(entries, parseReal) == Stored(m)
  {
    var s := Support(m, 0);
    var entries := WriteMatrix(m, rows, cols, showReal)[1..];
    forall k | 0 <= k < |entries|
      ensures |entries[k]| == 3
      ensures ParseMatrixEntry(entries[k], parseReal) == Success(Stored(m)[k])
    {
      assert entries[k] == EntryLine(m, s[k], showReal);
      assert m[s[k].0][s[k].1] != 0.0;
      ParseNatToString(s[k].0);
      ParseNatToString(s[k].1);
    }
  }

  /**
   * A whole matrix block: a header of two integers, entry lines and a
   * blank line are read as the header's shape and the entries' fields,
   * with the lines after the blank line unread.
   */
  lemma MatrixBlockFraming(header: Line, entries: seq<Line>, rest: seq<Line>, parseReal: string -> Option<real>)
    requires |header| == 2 && ParseInt(header[0]).Some? && ParseInt(header[1]).Some?
    requires MatrixEntryLines(entries, parseReal)
    ensures var d := Decode(entries, parseReal);
      MatrixBlock([header] + entries + [[]] + rest, parseReal)
      == Success((Coo(ParseInt(header[0]).value, ParseInt(header[1]).value, Firsts(d), Seconds(d), Thirds(d)), rest))
  {
    var input := [header] + entries + [[]] + rest;
    assert input[0] == header;
    assert input[1..] == entries + [[]] + rest;
    EntriesFromEmpty(entries, rest, parseReal);
  }

  /** The entry loop started with empty lists, on entry lines and a blank line: the entries' fields. */
  lemma EntriesFromEmpty(entries: seq<Line>, rest: seq<Line>, parseReal: string -> Option<real>)
    requires MatrixEntryLines(entries, parseReal)
    ensures var d := Decode(entries, parseReal);
      MatrixEntries(entries + [[]] + rest, parseReal, [], [], []) == Success((Firsts(d), Seconds(d), Thirds(d), rest))
  {
    MatrixEntriesFraming(entries, [], rest, parseReal, [], [], []);
    var d := Decode(entries, parseReal);
    assert [] + Firsts(d) == Firsts(d);
    assert [] + Seconds(d) == Seconds(d);
    assert [] + Thirds(d) == Thirds(d);
  }

  /** `read_matrix` on what `write_matrix` prints, then a blank line: the header's shape and the stored triples. */
  lemma ReadWritten(m: Matrix, rows: nat, cols: nat, showReal: real -> string,
                    parseReal: string -> Option<real>, rest: seq<Line>)
    requires IsMatrix(m, rows, cols)
    requires ReadsBackEntries(m, rows, cols, showReal, parseReal)
    ensures var d := Stored(m);
      MatrixBlock(WriteMatrix(m, rows, cols, showReal) + [[]] + rest, parseReal)
      == Success((Coo(rows, cols, Firsts(d), Seconds(d), Thirds(d)), rest))
  {
    var out := WriteMatrix(m, rows, cols, showReal);
    ParseNatToString(rows);
    ParseNatToString(cols);
    DecodeWritten(m, rows, cols, showReal, parseReal);
    assert out == [out[0]] + out[1..];
    MatrixBlockFraming(out[0], out[1..], rest, parseReal);
  }

  /** Every triple is an in-range non-zero entry of m with its value. */
  ghost predicate ListsOnlyEntries(c: Coo, m: Matrix, rows: nat, cols: nat)
    requires IsMatrix(m, rows, cols) && |c.row| == |c.col| == |c.val|
  {
    forall k :: 0 <= k < |c.val| ==>
      0 <= c.row[k] < rows && 0 <= c.col[k] < cols && c.val[k] == m[c.row[k]][c.col[k]] && c.val[k] != 0.0
  }

  /** Every non-zero entry of m has a triple. */
  ghost predicate ListsEveryEntry(c: Coo, m: Matrix, rows: nat, cols: nat)
    requires IsMatrix(m, rows, cols) && |c.row| == |c.col| == |c.val|
  {
    forall i, j :: 0 <= i < rows && 0 <= j < cols && m[i][j] != 0.0 ==>
      exists k :: 0 <= k < |c.val| && c.row[k] == i && c.col[k] == j
  }

  /** The triples are in row-major order, so no position appears twice. */
  ghost predicate ListedInOrder(c: Coo)
    requires |c.row| == |c.col|
  {
    forall a, b :: 0 <= a < b < |c.row| ==> c.row[a] < c.row[b] || (c.row[a] == c.row[b] && c.col[a] < c.col[b])
  }

  /** The coordinate lists describe the rows-by-cols matrix m exactly. */
  ghost predicate ListsMatrix(c: Coo, m: Matrix, rows: nat, cols: nat)
    requires IsMatrix(m, rows, cols)
  {
    c.rows == rows && c.cols == cols && |c.row| == |c.col| == |c.val|
    && ListsOnlyEntries(c, m, rows, cols) && ListsEveryEntry(c, m, rows, cols) && ListedInOrder(c)
  }

  /** The stored triples, split into columns. */
  function StoredCoo(m: Matrix, rows: nat, cols: nat): (c: Coo)
    ensures |c.row| == |c.col| == |c.val| == |Support(m, 0)|
  {
    var d := Stored(m);
    Coo(rows, cols, Firsts(d), Seconds(d), Thirds(d))
  }

  /** Every stored triple is a non-zero entry with its value. */
  lemma StoredOnlyEntries(m: Matrix, rows: nat, cols: nat)
    requires IsMatrix(m, rows, cols)
    ensures ListsOnlyEntries(StoredCoo(m, rows, cols), m, rows, cols)
  {
  }

  /** Every non-zero entry is stored. */
  lemma StoredEveryEntry(m: Matrix, rows: nat, cols: nat)
    requires IsMatrix(m, rows, cols)
    ensures ListsEveryEntry(StoredCoo(m, rows, cols), m, rows, cols)
  {
  }

  /** The stored triples come in row-major order. */
  lemma StoredInOrder(m: Matrix, rows: nat, cols: nat)
    ensures ListedInOrder(StoredCoo(m, rows, cols))
  {
  }

  /**
   * Reading back what `write_matrix` prints, followed by a blank line,
   * gives the header's shape and exactly the non-zero entries of the
   * matrix, each with its value, in row-major order: the triples from
   * which `csr_matrix((V, (I, J)), shape)` rebuilds the matrix. This needs
   * the float conversion to read back what `repr` prints for those entries.
   */
  lemma WriteThenRead(m: Matrix, rows: nat, cols: nat, showReal: real -> string,
                      parseReal: string -> Option<real>, rest: seq<Line>)
    requires IsMatrix(m, rows, cols)
    requires ReadsBackEntries(m, rows, cols, showReal, parseReal)
    ensures var r := MatrixBlock(WriteMatrix(m, rows, cols, showReal) + [[]] + rest, parseReal);
      r.Success? && r.value.1 == rest && ListsMatrix(r.value.0, m, rows, cols)
  {
    ReadWritten(m, rows, cols, showReal, parseReal, rest);
    StoredOnlyEntries(m, rows, cols);
    StoredEveryEntry(m, rows, cols);
    StoredInOrder(m, rows, cols);
  }

  /**
   * What `write_matrix` prints is not a complete block for `read_matrix`
   * on its own: it lacks the terminating blank line.
   */
  lemma WrittenMatrixLacksTerminator(m: Matrix, rows: nat, cols: nat, showReal: real -> string,
                                     parseReal: string -> Option<real>)
    requires IsMatrix(m, rows, cols)
    requires ParsesEntries(m, rows, cols, showReal, parseReal)
    ensures MatrixBlock(WriteMatrix(m, rows, cols, showReal), parseReal) == Failure(EndOfInput)
  {
    var s := Support(m, 0);
    var out := WriteMatrix(m, rows, cols, showReal);
    ParseNatToString(rows);
    ParseNatToString(cols);
    forall k | 0 <= k < |out[1..]|
      ensures |out[1..][k]| == 3 && ParseMatrixEntry(out[1..][k], parseReal).Success?
    {
      assert m[s[k].0][s[k].1] != 0.0;
      ParseNatToString(s[k].0);
      ParseNatToString(s[k].1);
    }
    MatrixEntriesEndOfInput(out[1..], parseReal, [], [], []);
  }
}
