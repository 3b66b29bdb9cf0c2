/**
  The SVG path reader of `examples/logo.cpp`: a path such as
  `M3260 3933 c-168 -179 ...z` is split at single spaces into tokens; a
  token may carry a command letter (`M` move, `m` relative move, `c`
  relative cubic curve) in front of its x coordinate, and the y token that
  ends a contour carries a trailing `z`.

  The caller's `string_view` that `get_next_token` and
  `parse_svg_path_contour` consume is passed in and handed back; the global
  `last` is the one field of `PathParser`. The float curve sampler
  `point_on_cubic_bezier` is a parameter (`Bezier`), called with the quarter
  `1`, `2` or `3` for `t = 0.25, 0.5, 0.75`.

  A y token that is empty (the path ran out in the middle of a pair) makes
  `check_for_close_path` read before the start of the view; the model
  reports that as `None`.
*/
module LogoCpp {
  import opened ScanMath

  datatype Command = NoCommand | Move | MoveRelative | CubicBezierRelative

  /** `command_map`: the supported command letters. */
  const CommandMap: map<char, Command> := map['M' := Move, 'm' := MoveRelative, 'c' := CubicBezierRelative]

  /** `point_on_cubic_bezier(k / 4, start, c1, c2, end)`. */
  type Bezier = (int, Point, Point, Point, Point) -> Point

  /** `check_for_command`: the command a token's first character names. */
  function CheckForCommand(token: string): (c: Command)
    requires |token| > 0
    ensures c == Move <==> token[0] == 'M'
    ensures c == MoveRelative <==> token[0] == 'm'
    ensures c == CubicBezierRelative <==> token[0] == 'c'
    ensures c == NoCommand <==> token[0] != 'M' && token[0] != 'm' && token[0] != 'c'
  {
    if token[0] in CommandMap then CommandMap[token[0]] else NoCommand
  }

  /** `check_for_close_path`: whether the token ends in the close command. */
  function CheckForClosePath(token: string): bool
    requires |token| > 0
  {
    token[|token| - 1] == 'z'
  }

  /** `string_view::find(" ")`, with `npos` written as the length. */
  function FindSpace(s: string): (i: nat)
    ensures i <= |s|
    ensures forall k :: 0 <= k < i ==> s[k] != ' '
    ensures i < |s| ==> s[i] == ' '
  {
    if |s| == 0 || s[0] == ' ' then 0 else 1 + FindSpace(s[1..])
  }

  /** `get_next_token`: the token before the first space, and the path
      after that space (or the empty path when there is none). Written
      character by character; `NextTokenIsFind` shows it is the
      `find`/`substr` split. */
  function NextToken(path: string): (r: (string, string))
    ensures |r.1| <= |path| && (|path| > 0 ==> |r.1| < |path|)
  {
    if |path| == 0 then ([], [])
    else if path[0] == ' ' then ([], path[1..])
    else var r := NextToken(path[1..]); ([path[0]] + r.0, r.1)
  }

  /** `get_next_token` as written: `substr(0, find(" "))` is the token;
      the path becomes `substr(size())` (empty) without a space, and
      `substr(split_at + 1)` with one. */
  lemma {:induction false} NextTokenIsFind(path: string)
    ensures var i := FindSpace(path);
      NextToken(path) == if i == |path| then (path, path[|path|..]) else (path[..i], path[i + 1..])
  {
    if |path| > 0 && path[0] != ' ' {
      NextTokenIsFind(path[1..]);
      var i := FindSpace(path[1..]);
      assert FindSpace(path) == i + 1;
      if i < |path| - 1 {
        assert [path[0]] + path[1..][..i] == path[..i + 1];
        assert path[1..][i + 1..] == path[i + 2..];
      } else {
        assert [path[0]] + path[1..] == path;
      }
    }
  }

  /** The token and the new path put together give back the old path. */
  lemma NextTokenSplits(path: string)
    ensures var r := NextToken(path);
      (' ' in path ==> r.0 + " " + r.1 == path && ' ' !in r.0) &&
      (' ' !in path ==> r.0 == path && r.1 == [])
  {
    NextTokenIsFind(path);
    var i := FindSpace(path);
    if i < |path| {
      assert path == path[..i] + " " + path[i + 1..];
      assert ' ' !in path[..i] by {
        forall k | 0 <= k < i ensures path[..i][k] != ' ' {}
      }
    } else {
      assert ' ' !in path by {
        forall k | 0 <= k < |path| ensures path[k] != ' ' {}
      }
    }
  }

  /** A token without spaces, then a space and more: the token comes off. */
  lemma {:induction false} NextTokenSplit(a: string, b: string)
    requires ' ' !in a
    ensures NextToken(a + " " + b) == (a, b)
  {
    if |a| > 0 {
      assert (a + " " + b)[1..] == a[1..] + " " + b;
      NextTokenSplit(a[1..], b);
      assert [a[0]] + a[1..] == a;
    }
  }

  /** A path without spaces is one last token. */
  lemma {:induction false} NextTokenWhole(a: string)
    requires ' ' !in a
    ensures NextToken(a) == (a, [])
  {
    if |a| > 0 {
      NextTokenWhole(a[1..]);
      assert [a[0]] + a[1..] == a;
    }
  }

  predicate IsDigit(c: char)
  {
    '0' <= c <= '9'
  }

  /** The number of leading decimal digits. */
  function DigitRun(s: string): (n: nat)
    ensures n <= |s|
    ensures forall k :: 0 <= k < n ==> IsDigit(s[k])
    ensures n < |s| ==> !IsDigit(s[n])
  {
    if |s| == 0 || !IsDigit(s[0]) then 0 else 1 + DigitRun(s[1..])
  }

  function DigitValue(c: char): nat
    requires IsDigit(c)
  {
    c as int - '0' as int
  }

  /** The value of a run of decimal digits. */
  function DigitsValue(s: string): nat
    requires forall k :: 0 <= k < |s| ==> IsDigit(s[k])
  {
    if |s| == 0 then 0 else DigitsValue(s[..|s| - 1]) * 10 + DigitValue(s[|s| - 1])
  }

  /** What `std::from_chars` for a signed integer reads from the front of
      `t` (an optional `-`, then at least one digit), before its range
      check; `None` when the pattern does not match. */
  function FromChars(t: string): Option<int>
  {
    if |t| > 0 && t[0] == '-' then
      var n := DigitRun(t[1..]);
      if n == 0 then None else Some(-(DigitsValue(t[1..][..n]) as int))
    else
      var n := DigitRun(t);
      if n == 0 then None else Some(DigitsValue(t[..n]))
  }

  /** `token_to_int`: `from_chars` into an `int` that starts at 0; when
      nothing matches or the value does not fit, `r` is left at 0. */
  function TokenToInt(t: string): (r: int)
    ensures -0x8000_0000 <= r < 0x8000_0000
    ensures FromChars(t) == None ==> r == 0
    ensures FromChars(t).Some? && -0x8000_0000 <= FromChars(t).value < 0x8000_0000 ==> r == FromChars(t).value
  {
    match FromChars(t)
    case None => 0
    case Some(v) => if -0x8000_0000 <= v < 0x8000_0000 then v else 0
  }

  /** Decimal digits of a natural number. */
  function NatString(n: nat): (s: string)
    ensures |s| > 0
    ensures forall k :: 0 <= k < |s| ==> IsDigit(s[k])
  {
    if n < 10 then [('0' as int + n) as char]
    else NatString(n / 10) + [('0' as int + n % 10) as char]
  }

  /** An integer as the path writes it: an optional `-`, then digits. */
  function IntString(n: int): string
  {
    if n < 0 then "-" + NatString(-n) else NatString(n)
  }

  lemma {:induction false} NatStringValue(n: nat)
    ensures DigitsValue(NatString(n)) == n
  {
    if n >= 10 {
      NatStringValue(n / 10);
      var s := NatString(n);
      assert s[..|s| - 1] == NatString(n / 10);
    }
  }

  lemma {:induction false} DigitRunAppend(a: string, rest: string)
    requires forall k :: 0 <= k < |a| ==> IsDigit(a[k])
    requires rest == [] || !IsDigit(rest[0])
    ensures DigitRun(a + rest) == |a|
  {
    if |a| > 0 {
      assert (a + rest)[1..] == a[1..] + rest;
      DigitRunAppend(a[1..], rest);
    } else {
      assert a + rest == rest;
    }
  }

  lemma FromCharsUnsigned(d: string, rest: string)
    requires |d| > 0 && forall k :: 0 <= k < |d| ==> IsDigit(d[k])
    requires rest == [] || !IsDigit(rest[0])
    ensures FromChars(d + rest) == Some(DigitsValue(d) as int)
  {
    DigitRunAppend(d, rest);
    assert (d + rest)[0] == d[0];
    assert (d + rest)[..|d|] == d;
  }

  lemma FromCharsNegative(t: string, d: string, rest: string)
    requires |d| > 0 && forall k :: 0 <= k < |d| ==> IsDigit(d[k])
    requires rest == [] || !IsDigit(rest[0])
    requires |t| > 0 && t[0] == '-' && t[1..] == d + rest
    ensures FromChars(t) == Some(-(DigitsValue(d) as int))
  {
    DigitRunAppend(d, rest);
    assert (d + rest)[..|d|] == d;
  }

  /** A `-`, a run of digits and what follows them parse to the negated
      value of the digits. */
  lemma NegativeToken(d: string, rest: string)
    requires |d| > 0 && forall k :: 0 <= k < |d| ==> IsDigit(d[k])
    requires rest == [] || !IsDigit(rest[0])
    ensures FromChars("-" + d + rest) == Some(-(DigitsValue(d) as int))
  {
    var t := "-" + d + rest;
    SignedTail(t, d, rest);
    FromCharsNegative(t, d, rest);
  }

  /** The sign of a signed token and the digits that follow it. */
  lemma SignedTail(t: string, d: string, rest: string)
    requires t == "-" + d + rest
    ensures |t| > 0 && t[0] == '-' && t[1..] == d + rest
  {
  }

  /** `token_to_int` reads back what `IntString` writes, whatever follows
      that is not a digit (such as the `z` of a closing y token). */
  lemma TokenToIntRoundTrip(n: int, rest: string)
    requires -0x8000_0000 <= n < 0x8000_0000
    requires rest == [] || !IsDigit(rest[0])
    ensures TokenToInt(IntString(n) + rest) == n
  {
    assert FromChars(IntString(n) + rest) == Some(n) by {
      if n < 0 {
        ReadNegative(n, rest);
      } else {
        ReadUnsigned(n, rest);
      }
    }
  }

  lemma ReadNegative(n: int, rest: string)
    requires n < 0
    requires rest == [] || !IsDigit(rest[0])
    ensures FromChars(IntString(n) + rest) == Some(n)
  {
    NegativeToken(NatString(-n), rest);
    NatStringValue(-n);
  }

  lemma ReadUnsigned(n: nat, rest: string)
    requires rest == [] || !IsDigit(rest[0])
    ensures FromChars(IntString(n) + rest) == Some(n)
  {
    NatStringValue(n);
    FromCharsUnsigned(NatString(n), rest);
  }

  /** Integers as written contain no space, no `z`, and start with neither
      a command letter nor a digit run that could be empty. */
  lemma IntStringShape(n: int)
    ensures |IntString(n)| > 0
    ensures ' ' !in IntString(n) && 'z' !in IntString(n)
    ensures IntString(n)[0] != 'M' && IntString(n)[0] != 'm' && IntString(n)[0] != 'c'
    ensures IsDigit(IntString(n)[|IntString(n)| - 1])
  {
    var d := NatString(if n < 0 then -n else n);
    assert d[|d| - 1] == IntString(n)[|IntString(n)| - 1];
    assert IntString(n)[0] == '-' || IntString(n)[0] == d[0];
    forall k | 0 <= k < |IntString(n)|
      ensures IntString(n)[k] == '-' || IsDigit(IntString(n)[k])
    {
      if n < 0 && k > 0 {
        assert IntString(n)[k] == d[k - 1];
      }
    }
  }

  function Add(p: Point, q: Point): Point
  {
    Point(p.x + q.x, p.y + q.y)
  }

  /** One pass of the `parse_svg_path_contour` loop. */
  datatype Step =
    | Ended(rest: string)
    | Fault
    | Segment(rest: string, cmd: Command, last: Point, added: seq<Point>, closed: bool)

  /** The points one segment adds under each command. */
  function Width(cmd: Command): nat
  {
    match cmd
    case NoCommand => 0
    case Move => 1
    case MoveRelative => 1
    case CubicBezierRelative => 4
  }

  /** One pass of the contour loop from `path`, with the global `last` and
      the current command: the x token, with a leading command letter
      switching the command and then chopped off, and the rest of the
      pass. */
  function ContourStep(path: string, last: Point, cmd: Command, bez: Bezier): (st: Step)
    ensures st.Segment? ==> |st.rest| < |path|
    ensures st.Segment? ==> |st.added| == Width(st.cmd)
    ensures st.Segment? && st.cmd != NoCommand ==> st.added[|st.added| - 1] == st.last
    ensures st.Segment? && cmd != NoCommand ==> st.cmd != NoCommand
  {
    var t := NextToken(path);
    if |t.0| == 0 then Ended(t.1)
    else if CheckForCommand(t.0) != NoCommand then
      PairOrCurve(t.0[1..], t.1, last, CheckForCommand(t.0), bez)
    else PairOrCurve(t.0, t.1, last, cmd, bez)
  }

  /** The pass after the x token `x` under command `cmd`: a relative curve
      takes five more tokens (c1's y, c2's x and y, the end point's x and
      y), every other command one (the y). */
  function PairOrCurve(x: string, path: string, last: Point, cmd: Command, bez: Bezier): (st: Step)
    ensures st.Segment? ==> |st.rest| <= |path| && st.cmd == cmd
    ensures st.Segment? ==> |st.added| == Width(st.cmd)
    ensures st.Segment? && st.cmd != NoCommand ==> st.added[|st.added| - 1] == st.last
  {
    var y := NextToken(path);
    if cmd == CubicBezierRelative then
      var c1 := Add(Point(TokenToInt(x), TokenToInt(y.0)), last);
      var c2x := NextToken(y.1);
      var c2y := NextToken(c2x.1);
      var c2 := Add(Point(TokenToInt(c2x.0), TokenToInt(c2y.0)), last);
      var ex := NextToken(c2y.1);
      var ey := NextToken(ex.1);
      EndPoint(ex.0, ey.0, ey.1, last, cmd, c1, c2, bez)
    else EndPoint(x, y.0, y.1, last, cmd, Point(0, 0), Point(0, 0), bez)
  }

  /** The end of a pass: the y token may close the contour with `z`; the
      point is absolute under `M`, relative to `last` under `m` and `c`, and
      a curve adds three sampled points before its end point. */
  function EndPoint(x: string, y: string, rest: string, last: Point, cmd: Command, c1: Point, c2: Point, bez: Bezier): (st: Step)
    ensures st.Segment? ==> st.rest == rest && st.cmd == cmd
    ensures st.Segment? ==> |st.added| == Width(st.cmd)
    ensures st.Segment? && st.cmd != NoCommand ==> st.added[|st.added| - 1] == st.last
    ensures st.Segment? ==> |y| > 0 && (st.closed <==> y[|y| - 1] == 'z')
    ensures st.Ended? ==> false
    ensures st.Fault? <==> |y| == 0
  {
    if |y| == 0 then Fault
    else
      var closed := CheckForClosePath(y);
      var point := Point(TokenToInt(x), TokenToInt(if closed then y[..|y| - 1] else y));
      match cmd
      case NoCommand => Segment(rest, cmd, point, [], closed)
      case Move => Segment(rest, cmd, point, [point], closed)
      case MoveRelative => Segment(rest, cmd, Add(point, last), [Add(point, last)], closed)
      case CubicBezierRelative =>
        var p := Add(point, last);
        Segment(rest, cmd, p, [bez(1, last, c1, c2, p), bez(2, last, c1, c2, p), bez(3, last, c1, c2, p), p], closed)
  }

  /** A parsed contour: its points, the path left over, and `last` after it. */
  datatype Parsed = Parsed(points: seq<Point>, rest: string, last: Point)

  function Prepend(added: seq<Point>, r: Option<Parsed>): Option<Parsed>
  {
    match r
    case None => None
    case Some(p) => Some(Parsed(added + p.points, p.rest, p.last))
  }

  /** `parse_svg_path_contour` from a loop state: passes until the tokens
      run out or a y token ends in `z`. */
  function ParseContour(path: string, last: Point, cmd: Command, bez: Bezier): (r: Option<Parsed>)
    ensures r.Some? && cmd != NoCommand ==>
      if |r.value.points| == 0 then r.value.last == last else r.value.points[|r.value.points| - 1] == r.value.last
    decreases |path|
  {
    match ContourStep(path, last, cmd, bez)
    case Ended(rest) => Some(Parsed([], rest, last))
    case Fault => None
    case Segment(rest, cmd1, last1, added, closed) =>
      if closed then Some(Parsed(added, rest, last1))
      else Prepend(added, ParseContour(rest, last1, cmd1, bez))
  }

  /** A contour never leaves more path than it found, and it consumes at
      least one character of a non-empty path; so `parse_svg_path` ends. */
  lemma {:induction false} ParseContourShortens(path: string, last: Point, cmd: Command, bez: Bezier)
    requires ParseContour(path, last, cmd, bez).Some?
    ensures |ParseContour(path, last, cmd, bez).value.rest| <= |path|
    ensures |path| > 0 ==> |ParseContour(path, last, cmd, bez).value.rest| < |path|
    decreases |path|
  {
    var st := ContourStep(path, last, cmd, bez);
    if st.Segment? && !st.closed {
      ParseContourShortens(st.rest, st.last, st.cmd, bez);
    }
  }

  /** The coordinates of `ps` as the path writes them after a move
      command: `x y` pairs separated by spaces, the last y closed by `z`. */
  function Coords(ps: seq<Point>): string
    requires |ps| > 0
  {
    if |ps| == 1 then PairText(ps[0], true) else PairText(ps[0], false) + Coords(ps[1..])
  }

  /** One `x y` pair and what follows it: `z` when it closes the contour,
      a space otherwise. */
  function PairText(p: Point, closing: bool): string
  {
    IntString(p.x) + " " + IntString(p.y) + if closing then "z" else " "
  }

  lemma PairSplit(lead: string, p: Point, closing: bool, tail: string)
    ensures lead + PairText(p, closing) + tail
         == lead + IntString(p.x) + " " + (IntString(p.y) + (if closing then "z" else " ") + tail)
  {
  }

  lemma CoordsSplit(lead: string, ps: seq<Point>, tail: string)
    requires |ps| > 1
    ensures lead + Coords(ps) + tail == lead + PairText(ps[0], false) + (Coords(ps[1..]) + tail)
  {
  }

  /** The letter that selects a move command. */
  function MoveLetter(c: Command): char
  {
    if c == Move then 'M' else 'm'
  }

  /** Which lead a pair may carry under the move command `c`: its letter,
      or none once `c` is the current command. */
  predicate MoveLead(lead: string, cmd: Command, c: Command)
  {
    (c == Move || c == MoveRelative) &&
    ((|lead| == 1 && lead[0] == MoveLetter(c)) || (|lead| == 0 && cmd == c))
  }

  predicate Int32Point(p: Point)
  {
    -0x8000_0000 <= p.x < 0x8000_0000 && -0x8000_0000 <= p.y < 0x8000_0000
  }

  /** What follows a closed contour: nothing, or a space and the rest. */
  function After(tail: string): string
  {
    if tail == [] then [] else tail[1..]
  }

  /** Where a move pair `p` lands: at `p` under `M`, `p` away from `last`
      under `m`. */
  function Target(c: Command, p: Point, last: Point): Point
  {
    if c == Move then p else Add(p, last)
  }

  /** The x token of a pair, after the command letter or under the
      command. */
  lemma XToken(n: int, lead: string, cmd: Command, c: Command, rest: string, last: Point, bez: Bezier)
    requires MoveLead(lead, cmd, c)
    ensures ContourStep(lead + IntString(n) + " " + rest, last, cmd, bez) == PairOrCurve(IntString(n), rest, last, c, bez)
  {
    var xs := IntString(n);
    IntStringShape(n);
    assert ' ' !in lead + xs;
    NextTokenSplit(lead + xs, rest);
    if |lead| == 1 {
      assert (lead + xs)[0] == MoveLetter(c) && (lead + xs)[1..] == xs;
    } else {
      assert lead + xs == xs;
    }
  }

  /** The y token `y z` that closes a contour. */
  lemma ClosingY(p: Point, c: Command, tail: string, last: Point, bez: Bezier)
    requires Int32Point(p) && (c == Move || c == MoveRelative)
    requires tail == [] || tail[0] == ' '
    ensures PairOrCurve(IntString(p.x), IntString(p.y) + "z" + tail, last, c, bez)
         == Segment(After(tail), c, Target(c, p, last), [Target(c, p, last)], true)
  {
    var ys := IntString(p.y);
    IntStringShape(p.y);
    var yz := ys + "z";
    assert ' ' !in yz;
    if tail == [] {
      assert ys + "z" + tail == yz;
      NextTokenWhole(yz);
    } else {
      assert ys + "z" + tail == yz + " " + tail[1..];
      NextTokenSplit(yz, tail[1..]);
    }
    assert yz[..|yz| - 1] == ys + [];
    TokenToIntRoundTrip(p.y, []);
    TokenToIntRoundTrip(p.x, []);
    assert IntString(p.x) + [] == IntString(p.x);
  }

  /** A y token followed by more pairs. */
  lemma OpenY(p: Point, c: Command, more: string, last: Point, bez: Bezier)
    requires Int32Point(p) && (c == Move || c == MoveRelative)
    ensures PairOrCurve(IntString(p.x), IntString(p.y) + " " + more, last, c, bez)
         == Segment(more, c, Target(c, p, last), [Target(c, p, last)], false)
  {
    var ys := IntString(p.y);
    IntStringShape(p.y);
    NextTokenSplit(ys, more);
    TokenToIntRoundTrip(p.y, []);
    TokenToIntRoundTrip(p.x, []);
    assert IntString(p.x) + [] == IntString(p.x);
    assert ys + [] == ys;
  }

  /** The last pair of a contour: its y token ends in `z`. */
  lemma LastPair(p: Point, lead: string, last: Point, cmd: Command, c: Command, tail: string, bez: Bezier)
    requires Int32Point(p)
    requires MoveLead(lead, cmd, c)
    requires tail == [] || tail[0] == ' '
    ensures ContourStep(lead + PairText(p, true) + tail, last, cmd, bez)
         == Segment(After(tail), c, Target(c, p, last), [Target(c, p, last)], true)
  {
    var rest := IntString(p.y) + "z" + tail;
    PairSplit(lead, p, true, tail);
    XToken(p.x, lead, cmd, c, rest, last, bez);
    ClosingY(p, c, tail, last, bez);
  }

  /** A pair that is not the last of its contour. */
  lemma InnerPair(p: Point, lead: string, last: Point, cmd: Command, c: Command, more: string, bez: Bezier)
    requires Int32Point(p)
    requires MoveLead(lead, cmd, c)
    ensures ContourStep(lead + PairText(p, false) + more, last, cmd, bez)
         == Segment(more, c, Target(c, p, last), [Target(c, p, last)], false)
  {
    var rest := IntString(p.y) + " " + more;
    PairSplit(lead, p, false, more);
    XToken(p.x, lead, cmd, c, rest, last, bez);
    OpenY(p, c, more, last, bez);
  }

  /** A relative cubic segment as the path writes it: the two control
      points and the end point, each an `x y` pair relative to `last`; the
      end point's y is closed by `z` when the contour ends there. */
  function CurveText(d1: Point, d2: Point, e: Point, closing: bool): string
  {
    PairText(d1, false) + PairText(d2, false) + PairText(e, closing)
  }

  /** The four points a cubic segment adds: three samples of the curve
      from `start` to `end`, then `end`. */
  function CurvePoints(start: Point, c1: Point, c2: Point, end: Point, bez: Bezier): seq<Point>
  {
    [bez(1, start, c1, c2, end), bez(2, start, c1, c2, end), bez(3, start, c1, c2, end), end]
  }

  /** Which lead a cubic segment may carry: the letter `c`, or none once
      `c` is the current command. */
  predicate CurveLead(lead: string, cmd: Command)
  {
    (|lead| == 1 && lead[0] == 'c') || (|lead| == 0 && cmd == CubicBezierRelative)
  }

  lemma CurveSplit(lead: string, a: string, b: string, c: string, tail: string)
    ensures lead + (a + b + c) + tail == lead + a + (b + (c + tail))
  {
  }

  lemma PairTail(p: Point, closing: bool, tail: string)
    ensures PairText(p, closing) + tail == IntString(p.x) + " " + (IntString(p.y) + (if closing then "z" else " ") + tail)
  {
  }

  /** A written integer reads back as itself. */
  lemma ReadsBack(n: int)
    requires -0x8000_0000 <= n < 0x8000_0000
    ensures TokenToInt(IntString(n)) == n
  {
    TokenToIntRoundTrip(n, []);
    assert IntString(n) + [] == IntString(n);
  }

  /** The x token of a cubic segment, after the `c` or under the command. */
  lemma CurveXToken(x1: string, lead: string, cmd: Command, rest: string, last: Point, bez: Bezier)
    requires CurveLead(lead, cmd)
    requires |x1| > 0 && ' ' !in x1 && x1[0] != 'M' && x1[0] != 'm' && x1[0] != 'c'
    ensures ContourStep(lead + x1 + " " + rest, last, cmd, bez)
         == PairOrCurve(x1, rest, last, CubicBezierRelative, bez)
  {
    assert ' ' !in lead + x1;
    NextTokenSplit(lead + x1, rest);
    if |lead| == 1 {
      assert (lead + x1)[0] == 'c' && (lead + x1)[1..] == x1;
    } else {
      assert lead + x1 == x1;
    }
  }

  /** After the x token `x1`, a curve reads c1's y token, c2's two tokens
      and the end point's x token, and offsets both control points by
      `last`. */
  lemma CurveTokens(x1: string, p1: string, y1: string, p2: string, x2: string, p3: string, y2: string, p4: string,
                    xe: string, more: string, last: Point, bez: Bezier)
    requires NextToken(p1) == (y1, p2) && NextToken(p2) == (x2, p3) && NextToken(p3) == (y2, p4) && NextToken(p4) == (xe, more)
    ensures PairOrCurve(x1, p1, last, CubicBezierRelative, bez)
         == EndPoint(xe, NextToken(more).0, NextToken(more).1, last, CubicBezierRelative,
                     Add(Point(TokenToInt(x1), TokenToInt(y1)), last), Add(Point(TokenToInt(x2), TokenToInt(y2)), last), bez)
  {
  }

  /** The y token of a cubic segment's end point, with or without the `z`
      that closes the contour. */
  lemma CurveYToken(ye: string, closing: bool, tail: string)
    requires |ye| > 0 && ' ' !in ye && 'z' !in ye
    requires closing ==> tail == [] || tail[0] == ' '
    ensures var y := NextToken(ye + (if closing then "z" else " ") + tail);
      |y.0| > 0 && (CheckForClosePath(y.0) <==> closing) &&
      (if closing then y.0[..|y.0| - 1] else y.0) == ye &&
      y.1 == (if closing then After(tail) else tail)
  {
    if closing {
      var yz := ye + "z";
      assert ' ' !in yz;
      if tail == [] {
        assert ye + "z" + tail == yz;
        NextTokenWhole(yz);
      } else {
        assert ye + "z" + tail == yz + " " + tail[1..];
        NextTokenSplit(yz, tail[1..]);
      }
      assert yz[..|yz| - 1] == ye;
    } else {
      NextTokenSplit(ye, tail);
      assert ye[|ye| - 1] in ye;
    }
  }

  /** The end point of a cubic segment lands `e` away from `last`, after
      the three curve samples; a `z` on its y closes the contour. */
  lemma CurveEnd(xe: string, y: string, rest: string, e: Point, c1: Point, c2: Point, last: Point, closing: bool, bez: Bezier)
    requires |y| > 0 && (CheckForClosePath(y) <==> closing)
    requires TokenToInt(xe) == e.x && TokenToInt(if closing then y[..|y| - 1] else y) == e.y
    ensures EndPoint(xe, y, rest, last, CubicBezierRelative, c1, c2, bez)
         == Segment(rest, CubicBezierRelative, Add(e, last), CurvePoints(last, c1, c2, Add(e, last), bez), closing)
  {
  }

  /** One pass over the tokens of a cubic segment whose pairs read as
      `d1`, `d2` and `e`: c1, c2 and the end point are offset by `last`. */
  lemma CurvePass(s: string, lead: string, x1: string, y1: string, x2: string, y2: string, xe: string, ye: string,
                  d1: Point, d2: Point, e: Point, closing: bool, tail: string, last: Point, cmd: Command, bez: Bezier)
    requires CurveLead(lead, cmd)
    requires |x1| > 0 && x1[0] != 'M' && x1[0] != 'm' && x1[0] != 'c'
    requires ' ' !in x1 && ' ' !in y1 && ' ' !in x2 && ' ' !in y2 && ' ' !in xe
    requires |ye| > 0 && ' ' !in ye && 'z' !in ye
    requires TokenToInt(x1) == d1.x && TokenToInt(y1) == d1.y && TokenToInt(x2) == d2.x && TokenToInt(y2) == d2.y
    requires TokenToInt(xe) == e.x && TokenToInt(ye) == e.y
    requires closing ==> tail == [] || tail[0] == ' '
    requires s == lead + x1 + " " + (y1 + " " + (x2 + " " + (y2 + " " + (xe + " " + (ye + (if closing then "z" else " ") + tail)))))
    ensures ContourStep(s, last, cmd, bez)
         == Segment(if closing then After(tail) else tail, CubicBezierRelative, Add(e, last),
                    CurvePoints(last, Add(d1, last), Add(d2, last), Add(e, last), bez), closing)
  {
    var more := ye + (if closing then "z" else " ") + tail;
    var p4 := xe + " " + more;
    var p3 := y2 + " " + p4;
    var p2 := x2 + " " + p3;
    var p1 := y1 + " " + p2;
    CurveXToken(x1, lead, cmd, p1, last, bez);
    NextTokenSplit(y1, p2);
    NextTokenSplit(x2, p3);
    NextTokenSplit(y2, p4);
    NextTokenSplit(xe, more);
    CurveTokens(x1, p1, y1, p2, x2, p3, y2, p4, xe, more, last, bez);
    assert Point(TokenToInt(x1), TokenToInt(y1)) == d1;
    assert Point(TokenToInt(x2), TokenToInt(y2)) == d2;
    CurveYToken(ye, closing, tail);
    var y := NextToken(more);
    CurveEnd(xe, y.0, y.1, e, Add(d1, last), Add(d2, last), last, closing, bez);
  }

  /** A written relative cubic segment reads back: c1, c2 and the end
      point are its pairs offset by `last`, the contour gains the three
      curve samples and then the end point, and `last` moves to the end
      point. */
  lemma CubicSegment(d1: Point, d2: Point, e: Point, lead: string, last: Point, cmd: Command, closing: bool, tail: string, bez: Bezier)
    requires Int32Point(d1) && Int32Point(d2) && Int32Point(e)
    requires CurveLead(lead, cmd)
    requires closing ==> tail == [] || tail[0] == ' '
    ensures ContourStep(lead + CurveText(d1, d2, e, closing) + tail, last, cmd, bez)
         == Segment(if closing then After(tail) else tail, CubicBezierRelative, Add(e, last),
                    CurvePoints(last, Add(d1, last), Add(d2, last), Add(e, last), bez), closing)
  {
    var t3 := PairText(e, closing) + tail;
    var t2 := PairText(d2, false) + t3;
    CurveSplit(lead, PairText(d1, false), PairText(d2, false), PairText(e, closing), tail);
    PairSplit(lead, d1, false, t2);
    PairTail(d2, false, t3);
    PairTail(e, closing, tail);
    IntStringShape(d1.x);
    IntStringShape(d1.y);
    IntStringShape(d2.x);
    IntStringShape(d2.y);
    IntStringShape(e.x);
    IntStringShape(e.y);
    ReadsBack(d1.x);
    ReadsBack(d1.y);
    ReadsBack(d2.x);
    ReadsBack(d2.y);
    ReadsBack(e.x);
    ReadsBack(e.y);
    CurvePass(lead + CurveText(d1, d2, e, closing) + tail, lead, IntString(d1.x), IntString(d1.y), IntString(d2.x), IntString(d2.y),
              IntString(e.x), IntString(e.y), d1, d2, e, closing, tail, last, cmd, bez);
  }

  lemma EmptyLead(none: string, a: string, b: string)
    requires none == []
    ensures none + a + b == a + b
  {
  }

  /** The points a move contour visits: the pairs themselves under `M`,
      their running sums from `last` under `m`. */
  function Visited(c: Command, ps: seq<Point>, last: Point): (vs: seq<Point>)
    ensures |vs| == |ps|
  {
    if |ps| == 0 then []
    else [Target(c, ps[0], last)] + Visited(c, ps[1..], Target(c, ps[0], last))
  }

  lemma VisitedFirst(c: Command, ps: seq<Point>, last: Point)
    requires |ps| > 1
    ensures var t := Target(c, ps[0], last);
      Visited(c, ps, last) == [t] + Visited(c, ps[1..], t) &&
      Visited(c, ps, last)[|ps| - 1] == Visited(c, ps[1..], t)[|ps| - 2]
  {
  }

  /** A contour of one pair. */
  lemma OnePairContour(p: Point, lead: string, last: Point, cmd: Command, c: Command, tail: string, bez: Bezier)
    requires Int32Point(p)
    requires MoveLead(lead, cmd, c)
    requires tail == [] || tail[0] == ' '
    ensures ParseContour(lead + Coords([p]) + tail, last, cmd, bez)
         == Some(Parsed([Target(c, p, last)], After(tail), Target(c, p, last)))
  {
    LastPair(p, lead, last, cmd, c, tail, bez);
  }

  /** The first pair of a longer contour, then the rest under the same
      command. */
  lemma FirstPairContour(ps: seq<Point>, lead: string, last: Point, cmd: Command, c: Command, tail: string, bez: Bezier)
    requires |ps| > 1 && Int32Point(ps[0])
    requires MoveLead(lead, cmd, c)
    ensures ParseContour(lead + Coords(ps) + tail, last, cmd, bez)
         == Prepend([Target(c, ps[0], last)], ParseContour(Coords(ps[1..]) + tail, Target(c, ps[0], last), c, bez))
  {
    var more := Coords(ps[1..]) + tail;
    CoordsSplit(lead, ps, tail);
    InnerPair(ps[0], lead, last, cmd, c, more, bez);
  }

  /** A contour whose first pass adds `h` and whose rest parses to `ws`
      parses to `h + ws`, ending where the rest ends. */
  lemma PrependParsed(r: Option<Parsed>, h: seq<Point>, q: Option<Parsed>, ws: seq<Point>, vs: seq<Point>, rest: string)
    requires |ws| > 0 && vs == h + ws
    requires r == Prepend(h, q) && q == Some(Parsed(ws, rest, ws[|ws| - 1]))
    ensures r == Some(Parsed(vs, rest, vs[|vs| - 1]))
  {
  }

  /** Reading back a written move contour: every pair comes back (as is
      under `M`, added to the previous point under `m`), the contour stops
      at the `z`, and `last` is the final point. */
  lemma {:induction false} MoveContourRoundTrip(ps: seq<Point>, lead: string, last: Point, cmd: Command, c: Command, tail: string, bez: Bezier)
    requires |ps| > 0 && forall k :: 0 <= k < |ps| ==> Int32Point(ps[k])
    requires MoveLead(lead, cmd, c)
    requires tail == [] || tail[0] == ' '
    ensures ParseContour(lead + Coords(ps) + tail, last, cmd, bez)
         == Some(Parsed(Visited(c, ps, last), After(tail), Visited(c, ps, last)[|ps| - 1]))
    decreases |ps|, 1
  {
    if |ps| == 1 {
      OnePairContour(ps[0], lead, last, cmd, c, tail, bez);
      assert Visited(c, ps, last) == [Target(c, ps[0], last)];
    } else {
      ManyPairContour(ps, lead, last, cmd, c, tail, bez);
    }
  }

  /** A contour of several pairs: the first pass, then the rest. */
  lemma {:induction false} ManyPairContour(ps: seq<Point>, lead: string, last: Point, cmd: Command, c: Command, tail: string, bez: Bezier)
    requires |ps| > 1 && forall k :: 0 <= k < |ps| ==> Int32Point(ps[k])
    requires MoveLead(lead, cmd, c)
    requires tail == [] || tail[0] == ' '
    ensures ParseContour(lead + Coords(ps) + tail, last, cmd, bez)
         == Some(Parsed(Visited(c, ps, last), After(tail), Visited(c, ps, last)[|ps| - 1]))
    decreases |ps|, 0
  {
    var t := Target(c, ps[0], last);
    var vs := Visited(c, ps, last);
    var ws := Visited(c, ps[1..], t);
    var q := ParseContour(Coords(ps[1..]) + tail, t, c, bez);
    assert q == Some(Parsed(ws, After(tail), ws[|ws| - 1])) by {
      RestRoundTrip(ps[1..], t, c, tail, bez);
    }
    assert vs == [t] + ws && vs[|ps| - 1] == ws[|ws| - 1] by {
      VisitedFirst(c, ps, last);
    }
    FirstPairContour(ps, lead, last, cmd, c, tail, bez);
    PrependParsed(ParseContour(lead + Coords(ps) + tail, last, cmd, bez), [t], q, ws, vs, After(tail));
  }

  /** The recursive case of the round trip: the remaining pairs with no
      letter in front. */
  lemma {:induction false} RestRoundTrip(ps: seq<Point>, last: Point, c: Command, tail: string, bez: Bezier)
    requires |ps| > 0 && forall k :: 0 <= k < |ps| ==> Int32Point(ps[k])
    requires c == Move || c == MoveRelative
    requires tail == [] || tail[0] == ' '
    ensures ParseContour(Coords(ps) + tail, last, c, bez)
         == Some(Parsed(Visited(c, ps, last), After(tail), Visited(c, ps, last)[|ps| - 1]))
    decreases |ps|, 2
  {
    var none: string := [];
    MoveContourRoundTrip(ps, none, last, c, c, tail, bez);
    EmptyLead(none, Coords(ps), tail);
  }

  /** `parse_svg_path` from a given `last`: contours until the path is
      empty. */
  function ParsePath(path: string, last: Point, bez: Bezier): Option<seq<seq<Point>>>
    decreases |path|
  {
    if |path| == 0 then Some([])
    else match ParseContour(path, last, NoCommand, bez)
      case None => None
      case Some(c) =>
        ParseContourShortens(path, last, NoCommand, bez);
        match ParsePath(c.rest, c.last, bez)
        case None => None
        case Some(cs) => Some([c.points] + cs)
  }

  lemma PrependNothing(r: Option<Parsed>)
    ensures Prepend([], r) == r
  {
    if r.Some? {
      assert [] + r.value.points == r.value.points;
    }
  }

  lemma PrependTwice(a: seq<Point>, b: seq<Point>, r: Option<Parsed>)
    ensures Prepend(a, Prepend(b, r)) == Prepend(a + b, r)
  {
    if r.Some? {
      assert a + (b + r.value.points) == (a + b) + r.value.points;
    }
  }

  /** The global `last` of the reader. */
  class PathParser {
    var last: Point

    /** `point_t<int> last(0, 0)`. */
    constructor()
      ensures last == Point(0, 0)
    {
      last := Point(0, 0);
    }

    /** `parse_svg_path_contour`: consumes one contour's tokens from
        `path`, returns its points and the path left over, and leaves
        `last` at the contour's final point. */
    method ParseSvgPathContour(path: string, bez: Bezier) returns (r: Option<seq<Point>>, rest: string)
      modifies this`last
      ensures ParseContour(path, old(last), NoCommand, bez).None? ==> r.None?
      ensures ParseContour(path, old(last), NoCommand, bez).Some? ==>
        var p := ParseContour(path, old(last), NoCommand, bez).value;
        r == Some(p.points) && rest == p.rest && last == p.last
    {
      ghost var want := ParseContour(path, last, NoCommand, bez);
      var points: seq<Point> := [];
      PrependNothing(want);
      var command := NoCommand;
      rest := path;
      while true
        invariant want == Prepend(points, ParseContour(rest, last, command, bez))
        decreases |rest|
      {
        ghost var st := ContourStep(rest, last, command, bez);
        var x_token;
        x_token, rest := NextToken(rest).0, NextToken(rest).1;
        if |x_token| == 0 {
          assert points + [] == points;
          return Some(points), rest;
        }
        if CheckForCommand(x_token) != NoCommand {
          command := CheckForCommand(x_token);
          x_token := x_token[1..];
        }
        assert st == PairOrCurve(x_token, rest, last, command, bez);
        // The y token, the curve's further tokens, and the points they give.
        var pass := PairOrCurve(x_token, rest, last, command, bez);
        if pass.Fault? {
          return None, rest;
        }
        rest := pass.rest;
        var added, point, close_path := pass.added, pass.last, pass.closed;
        PrependTwice(points, added, ParseContour(rest, point, command, bez));
        points := points + added;
        last := point;
        if close_path {
          return Some(points), rest;
        }
      }
    }

    /** `parse_svg_path`: resets `last`, then reads contours until the
        path is empty. */
    method ParseSvgPath(path: string, bez: Bezier) returns (r: Option<seq<seq<Point>>>)
      modifies this`last
      ensures r == ParsePath(path, Point(0, 0), bez)
    {
      last := Point(0, 0);
      var contours: seq<seq<Point>> := [];
      var p := path;
      if ParsePath(path, last, bez).Some? {
        assert [] + ParsePath(path, last, bez).value == ParsePath(path, last, bez).value;
      }
      while |p| > 0
        invariant ParsePath(path, Point(0, 0), bez) == Append(contours, ParsePath(p, last, bez))
        decreases |p|
      {
        ghost var before, lastBefore := p, last;
        var c;
        c, p := ParseSvgPathContour(p, bez);
        if c.None? {
          return None;
        }
        ParseContourShortens(before, lastBefore, NoCommand, bez);
        if ParsePath(p, last, bez).Some? {
          var tailCs := ParsePath(p, last, bez).value;
          assert contours + [c.value] + tailCs == contours + ([c.value] + tailCs);
        }
        contours := contours + [c.value];
      }
      assert contours + [] == contours;
      r := Some(contours);
    }
  }

  function Append(done: seq<seq<Point>>, r: Option<seq<seq<Point>>>): Option<seq<seq<Point>>>
  {
    match r
    case None => None
    case Some(cs) => Some(done + cs)
  }
}
