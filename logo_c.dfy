/**
  The SVG path reader of `examples/logo.c`: a caret walks a NUL-terminated
  path, `get_next_token` copies one token into a 16-byte buffer, a first
  pass (`get_svg_path_point_count`) counts the points of a contour so that
  the second (`parse_svg_path_contour`) can fill an allocation of exactly
  that size, and `parse_svg_path` allocates one contour per `z`.

  The path is a `string` without NUL characters; the caret is an index
  into it, and index `|path|` reads the terminator. What the C code leaves
  undefined or aborts on (an unsupported command letter trips an `assert`,
  a number token that runs into the terminator copies it and reads on past
  the end of the string, a token of 16 or more characters overflows the
  buffer, a read after the caret has passed the terminator) is a fault
  here: `Fault` for a token, `None` for everything built from tokens.

  `atof(token) + offset`, stored in a point coordinate, is the parameter
  `conv`; the float curve sampler `point_on_cubic_bezier` is the parameter
  `bez`, as in `LogoCpp`.
*/
module LogoC {
  import opened ScanMath
  import LogoCpp

  type Command = LogoCpp.Command

  /** `atof(token) + offset`, converted to a coordinate. */
  type Atof = (string, int) -> int

  /** The path text before its terminator. */
  predicate CString(s: string)
  {
    forall k :: 0 <= k < |s| ==> s[k] != '\0'
  }

  /** The character under the caret, the terminator at `|s|`. */
  function At(s: string, i: nat): char
    requires i <= |s|
  {
    if i < |s| then s[i] else '\0'
  }

  /** `isspace` in the C locale. */
  predicate IsSpace(c: char)
  {
    c == ' ' || c == '\t' || c == '\n' || c == '\U{000B}' || c == '\U{000C}' || c == '\r'
  }

  /** The supported command letters, `"mMcCzZ"`. */
  predicate IsCommandChar(c: char)
  {
    c == 'm' || c == 'M' || c == 'c' || c == 'C' || c == 'z' || c == 'Z'
  }

  /** The command letters that trip the assertion, `"lLhHvVsSqQtTaA"`. */
  predicate IsUnsupported(c: char)
  {
    c == 'l' || c == 'L' || c == 'h' || c == 'H' || c == 'v' || c == 'V' || c == 's' ||
    c == 'S' || c == 'q' || c == 'Q' || c == 't' || c == 'T' || c == 'a' || c == 'A'
  }

  /** The characters that end a number token. */
  predicate IsStop(c: char)
  {
    c == ' ' || c == 'z' || c == '\n'
  }

  /** The first stop character at or after `j`, or `|s|` when there is none. */
  function StopAt(s: string, j: nat): (k: nat)
    requires j <= |s|
    ensures j <= k <= |s|
    ensures k < |s| ==> IsStop(s[k])
    ensures forall m :: j <= m < k ==> !IsStop(s[m])
    decreases |s| - j
  {
    if j == |s| || IsStop(s[j]) then j else StopAt(s, j + 1)
  }

  /** A token and the caret after it, or a fault. */
  datatype Token = Token(text: string, next: nat) | Fault

  /** `get_next_token` from caret `i`: skip white space; the terminator
      gives the empty token and steps past itself; a supported command
      letter is a token of its own; otherwise the token runs up to the next
      space, `z` or newline, which stays under the caret. */
  function NextToken(s: string, i: nat): (t: Token)
    ensures t.Token? ==> i < t.next <= |s| + 1 && |t.text| < 16
    ensures t.Token? ==> (t.text == [] <==> t.next == |s| + 1)
    decreases |s| - i
  {
    if i > |s| then Fault
    else if i < |s| && IsSpace(s[i]) then NextToken(s, i + 1)
    else if i == |s| then Token([], i + 1)
    else if IsCommandChar(s[i]) then Token([s[i]], i + 1)
    else if IsUnsupported(s[i]) then Fault
    else
      var k := StopAt(s, i);
      if k == |s| || k - i > 15 then Fault else Token(s[i..k], k)
  }

  /** A token read from `i` whose first non-blank character is at `j`:
      empty at the end of the string, a single command letter, or a
      non-empty run of non-stop characters followed by a stop. */
  predicate TokenAt(s: string, i: nat, j: nat, t: Token)
  {
    t.Token? && i <= j <= |s| && (forall m :: i <= m < j ==> IsSpace(s[m])) &&
    ((t.text == [] && j == |s| && t.next == j + 1) ||
     (j < |s| && IsCommandChar(s[j]) && t.text == [s[j]] && t.next == j + 1) ||
     (j < t.next < |s| && t.text == s[j..t.next] && IsStop(s[t.next]) &&
      !IsCommandChar(s[j]) && !IsUnsupported(s[j])))
  }

  /** What a token is, stated without the scan. */
  lemma {:induction false} NextTokenShape(s: string, i: nat)
    requires NextToken(s, i).Token?
    ensures exists j :: TokenAt(s, i, j, NextToken(s, i))
    decreases |s| - i
  {
    var t := NextToken(s, i);
    if i < |s| && IsSpace(s[i]) {
      NextTokenShape(s, i + 1);
      var j :| TokenAt(s, i + 1, j, t);
      assert TokenAt(s, i, j, t);
    } else {
      assert TokenAt(s, i, i, t);
    }
  }

  /** Writing a token into the buffer: its characters, then the terminator. */
  predicate Held(token: array<char>, t: string)
    reads token
  {
    |t| < token.Length && token[..|t|] == t && token[|t|] == '\0'
  }

  /** The C string a buffer holds: the characters before the first NUL. */
  function CStr(a: seq<char>): (t: string)
    ensures |t| <= |a| && t == a[..|t|]
    ensures |t| < |a| ==> a[|t|] == '\0'
    ensures forall k :: 0 <= k < |t| ==> t[k] != '\0'
  {
    if |a| == 0 || a[0] == '\0' then [] else [a[0]] + CStr(a[1..])
  }

  /** A buffer holding a token reads back as that token. */
  lemma {:induction false} HeldCStr(a: seq<char>, t: string)
    requires |t| < |a| && a[..|t|] == t && a[|t|] == '\0'
    requires forall k :: 0 <= k < |t| ==> t[k] != '\0'
    ensures CStr(a) == t
  {
    if t != [] {
      assert a[0] == t[0];
      HeldCStr(a[1..], t[1..]);
      assert a[1..][..|t[1..]|] == t[1..];
    }
  }

  /** `get_next_token(caret, token)`: `ok` is false exactly where the C
      code faults; otherwise the buffer holds the token and `next` is the
      new caret. */
  method GetNextToken(path: string, caret: nat, token: array<char>) returns (next: nat, ok: bool)
    requires CString(path) && token.Length == 16
    modifies token
    ensures ok <==> NextToken(path, caret).Token?
    ensures ok ==> next == NextToken(path, caret).next && Held(token, NextToken(path, caret).text)
  {
    if caret > |path| {
      return 0, false;
    }
    var c := SkipSpace(path, caret);
    if c == |path| || IsCommandChar(path[c]) {
      token[0] := At(path, c);
      token[1] := '\0';
      return c + 1, true;
    }
    if IsUnsupported(path[c]) {
      return 0, false;
    }
    next, ok := CopyToken(path, c, token);
  }

  /** The white space skipped at the start of `get_next_token`. */
  method SkipSpace(path: string, caret: nat) returns (c: nat)
    requires caret <= |path|
    ensures caret <= c <= |path| && (c == |path| || !IsSpace(path[c]))
    ensures NextToken(path, c) == NextToken(path, caret)
  {
    c := caret;
    while c < |path| && IsSpace(path[c])
      invariant caret <= c <= |path|
      invariant NextToken(path, c) == NextToken(path, caret)
      decreases |path| - c
    {
      c := c + 1;
    }
  }

  /** The copy loop of `get_next_token` from a character that starts a
      number: up to the next stop, faulting at the terminator or after 15
      characters. */
  method CopyToken(path: string, c: nat, token: array<char>) returns (next: nat, ok: bool)
    requires c < |path| && token.Length == 16
    requires !IsSpace(path[c]) && !IsCommandChar(path[c]) && !IsUnsupported(path[c])
    modifies token
    ensures ok <==> NextToken(path, c).Token?
    ensures ok ==> next == NextToken(path, c).next && Held(token, NextToken(path, c).text)
  {
    var k := c;
    while true
      invariant c <= k <= |path| && k - c <= 15
      invariant StopAt(path, k) == StopAt(path, c)
      invariant token[..k - c] == path[c..k]
      decreases |path| - k
    {
      if k == |path| {
        return 0, false;
      }
      if IsStop(path[k]) {
        token[k - c] := '\0';
        assert token[..k - c] == path[c..k];
        return k, true;
      }
      if k - c == 15 {
        return 0, false;
      }
      token[k - c] := path[k];
      assert token[..k - c + 1] == path[c..k + 1];
      k := k + 1;
    }
  }

  /** `is_numeric(token)`: every character before the terminator is a
      digit or `-` (so the empty token is numeric). */
  method IsNumeric(token: array<char>) returns (b: bool)
    requires exists k :: 0 <= k < token.Length && token[k] == '\0'
    ensures b <==> forall k :: 0 <= k < |CStr(token[..])| ==>
      LogoCpp.IsDigit(CStr(token[..])[k]) || CStr(token[..])[k] == '-'
  {
    ghost var t := CStr(token[..]);
    assert |t| < token.Length;
    var i := 0;
    while token[i] != '\0'
      invariant 0 <= i <= |t|
      invariant forall k :: 0 <= k < i ==> LogoCpp.IsDigit(t[k]) || t[k] == '-'
      decreases |t| - i
    {
      if i == |t| {
        assert false;
      }
      if !LogoCpp.IsDigit(token[i]) && token[i] != '-' {
        assert t[i] == token[i];
        assert !(LogoCpp.IsDigit(t[i]) || t[i] == '-');
        assert t == CStr(token[..]);
        return false;
      }
      i := i + 1;
    }
    return true;
  }

  /** `strchr(s + i, c)` for a character other than NUL. */
  function StrChr(s: string, i: nat, c: char): (r: Option<nat>)
    requires i <= |s|
    ensures r.Some? ==> i <= r.value < |s| && s[r.value] == c && c !in s[i..r.value]
    ensures r.None? ==> c !in s[i..]
    decreases |s| - i
  {
    if i == |s| then None
    else if s[i] == c then Some(i)
    else StrChr(s, i + 1, c)
  }

  /** `get_svg_path_count`: the number of `z` characters in the path. */
  method GetSvgPathCount(path: string) returns (count: nat)
    ensures count == multiset(path)['z']
  {
    count := 0;
    var caret := 0;
    var found := StrChr(path, caret, 'z');
    while found.Some?
      invariant caret <= |path|
      invariant found == StrChr(path, caret, 'z')
      invariant count == multiset(path[..caret])['z']
      decreases |path| - caret
    {
      var f := found.value;
      assert path[..f + 1] == path[..caret] + path[caret..f] + [path[f]];
      caret := f + 1;
      count := count + 1;
      found := StrChr(path, caret, 'z');
    }
    assert path == path[..caret] + path[caret..];
  }

  /** What a non-empty token starts with: a command letter only when it
      is that letter alone, just before the new caret; never a NUL. */
  lemma TokenFirst(s: string, i: nat)
    requires CString(s)
    requires NextToken(s, i).Token?
    ensures var t := NextToken(s, i);
      (forall k :: 0 <= k < |t.text| ==> t.text[k] != '\0') &&
      (t.text != [] && IsCommandChar(t.text[0]) ==> t.text == [s[t.next - 1]])
  {
    NextTokenShape(s, i);
  }

  /** A command letter is read as itself, just before the new caret. */
  lemma {:induction false} CommandFirst(s: string, i: nat)
    requires NextToken(s, i).Token? && NextToken(s, i).text != []
    requires IsCommandChar(NextToken(s, i).text[0])
    ensures NextToken(s, i).next <= |s| && NextToken(s, i).text == [s[NextToken(s, i).next - 1]]
    decreases |s| - i
  {
    if i < |s| && IsSpace(s[i]) {
      CommandFirst(s, i + 1);
    }
  }

  /** How many tokens a segment reads after its x token. */
  function Extra(cmd: Command): nat
  {
    match cmd
    case NoCommand => 0
    case Move => 1
    case MoveRelative => 1
    case CubicBezierRelative => 5
  }

  /** `k` successive `get_next_token` calls from caret `i`: their texts and
      the caret after the last. */
  function ReadTokens(s: string, i: nat, k: nat): (r: Option<(seq<string>, nat)>)
    ensures r.Some? ==> |r.value.0| == k && i <= r.value.1
    ensures r.Some? && k > 0 ==> i < r.value.1 <= |s| + 1
    decreases k
  {
    if k == 0 then Some(([], i))
    else match NextToken(s, i)
      case Fault => None
      case Token(t, n) =>
        match ReadTokens(s, n, k - 1)
        case None => None
        case Some(r) => Some(([t] + r.0, r.1))
  }

  function Plus(n: nat, r: Option<nat>): Option<nat>
  {
    match r
    case None => None
    case Some(m) => Some(n + m)
  }

  /** The command a command letter selects. */
  function CommandOf(ch: char): (c: Command)
    ensures ch == 'M' ==> c == LogoCpp.Move
    ensures ch == 'm' ==> c == LogoCpp.MoveRelative
    ensures ch == 'c' ==> c == LogoCpp.CubicBezierRelative
  {
    if ch == 'M' then LogoCpp.Move
    else if ch == 'm' then LogoCpp.MoveRelative
    else LogoCpp.CubicBezierRelative
  }

  /** `get_svg_path_point_count` from caret `i` under command `cmd`: `None`
      where the token reader faults. */
  function PointCount(s: string, i: nat, cmd: Command): Option<nat>
    decreases |s| + 1 - i
  {
    match NextToken(s, i)
    case Fault => None
    case Token(t, n) =>
      if t == [] || t[0] == 'z' then Some(0)
      else if t[0] in {'M', 'm', 'c'} then PointCount(s, n, CommandOf(t[0]))
      else match ReadTokens(s, n, Extra(cmd))
        case None => None
        case Some(r) => Plus(LogoCpp.Width(cmd), PointCount(s, r.1, cmd))
  }

  /** The points one pass adds from its x token `x` and the further tokens
      `ts`: under `c` the two control points and the end, all relative to
      `last`, give three curve samples and the end; under `M` the pair
      itself; under `m` the pair added to `last`; with no command yet,
      nothing. The second component is the new `last`. */
  function Segment(cmd: Command, x: string, ts: seq<string>, last: Point, conv: Atof, bez: LogoCpp.Bezier): (r: (seq<Point>, Point))
    requires |ts| == Extra(cmd)
    ensures |r.0| == LogoCpp.Width(cmd)
    ensures |r.0| > 0 ==> r.0[|r.0| - 1] == r.1
    ensures cmd == LogoCpp.NoCommand ==> r.1 == last
  {
    match cmd
    case CubicBezierRelative =>
      var c1 := Point(conv(x, last.x), conv(ts[0], last.y));
      var c2 := Point(conv(ts[1], last.x), conv(ts[2], last.y));
      var p := Point(conv(ts[3], last.x), conv(ts[4], last.y));
      ([bez(1, last, c1, c2, p), bez(2, last, c1, c2, p), bez(3, last, c1, c2, p), p], p)
    case Move =>
      var p := Point(conv(x, 0), conv(ts[0], 0));
      ([p], p)
    case MoveRelative =>
      var p := Point(conv(x, last.x), conv(ts[0], last.y));
      ([p], p)
    case NoCommand => ([], last)
  }

  /** A contour: its points, the caret after it and the final `last`. */
  datatype Contour = Contour(points: seq<Point>, next: nat, last: Point)

  function Prepend(added: seq<Point>, r: Option<Contour>): Option<Contour>
  {
    match r
    case None => None
    case Some(c) => Some(Contour(added + c.points, c.next, c.last))
  }

  /** `parse_svg_path_contour` from caret `i` under command `cmd`: it reads
      the same tokens as `PointCount`, and stops after a `z` token or at
      the end of the path. */
  function ParseContour(s: string, i: nat, cmd: Command, last: Point, conv: Atof, bez: LogoCpp.Bezier): (r: Option<Contour>)
    ensures r.Some? ==> i < r.value.next <= |s| + 1
    decreases |s| + 1 - i
  {
    match NextToken(s, i)
    case Fault => None
    case Token(t, n) =>
      if t == [] || t[0] == 'z' then Some(Contour([], n, last))
      else if t[0] in {'M', 'm', 'c'} then ParseContour(s, n, CommandOf(t[0]), last, conv, bez)
      else match ReadTokens(s, n, Extra(cmd))
        case None => None
        case Some(r) =>
          var seg := Segment(cmd, t, r.0, last, conv, bez);
          Prepend(seg.0, ParseContour(s, r.1, cmd, seg.1, conv, bez))
  }

  /** The counting pass and the parsing pass agree: one faults exactly
      when the other does, and otherwise the contour has exactly as many
      points as were counted, so the allocation is filled and never
      overrun. */
  lemma {:induction false} ContourCount(s: string, i: nat, cmd: Command, last: Point, conv: Atof, bez: LogoCpp.Bezier)
    ensures ParseContour(s, i, cmd, last, conv, bez).Some? <==> PointCount(s, i, cmd).Some?
    ensures ParseContour(s, i, cmd, last, conv, bez).Some? ==>
      |ParseContour(s, i, cmd, last, conv, bez).value.points| == PointCount(s, i, cmd).value
    decreases |s| + 1 - i
  {
    match NextToken(s, i)
    case Fault =>
    case Token(t, n) =>
      if t == [] || t[0] == 'z' {
      } else if t[0] in {'M', 'm', 'c'} {
        ContourCount(s, n, CommandOf(t[0]), last, conv, bez);
      } else {
        match ReadTokens(s, n, Extra(cmd))
        case None =>
        case Some(r) =>
          var seg := Segment(cmd, t, r.0, last, conv, bez);
          ContourCount(s, r.1, cmd, seg.1, conv, bez);
      }
  }

  /** A contour ends at the end of the path or just after a `z`. */
  lemma {:induction false} ContourEnds(s: string, i: nat, cmd: Command, last: Point, conv: Atof, bez: LogoCpp.Bezier)
    requires ParseContour(s, i, cmd, last, conv, bez).Some?
    ensures var c := ParseContour(s, i, cmd, last, conv, bez).value;
      c.next <= |s| ==> s[c.next - 1] == 'z'
    decreases |s| + 1 - i
  {
    match NextToken(s, i)
    case Token(t, n) =>
      if t == [] {
      } else if t[0] == 'z' {
        CommandFirst(s, i);
      } else if t[0] in {'M', 'm', 'c'} {
        ContourEnds(s, n, CommandOf(t[0]), last, conv, bez);
      } else {
        match ReadTokens(s, n, Extra(cmd))
        case Some(r) =>
          var seg := Segment(cmd, t, r.0, last, conv, bez);
          ContourEnds(s, r.1, cmd, seg.1, conv, bez);
      }
  }

  /** A contour's `last` is its final point, or the `last` it started
      from when it has none. */
  lemma {:induction false} ContourLast(s: string, i: nat, cmd: Command, last: Point, conv: Atof, bez: LogoCpp.Bezier)
    requires ParseContour(s, i, cmd, last, conv, bez).Some?
    ensures var c := ParseContour(s, i, cmd, last, conv, bez).value;
      if |c.points| == 0 then c.last == last else c.last == c.points[|c.points| - 1]
    decreases |s| + 1 - i
  {
    match NextToken(s, i)
    case Token(t, n) =>
      if t == [] || t[0] == 'z' {
      } else if t[0] in {'M', 'm', 'c'} {
        ContourLast(s, n, CommandOf(t[0]), last, conv, bez);
      } else {
        var r := ReadTokens(s, n, Extra(cmd)).value;
        var seg := Segment(cmd, t, r.0, last, conv, bez);
        ContourLast(s, r.1, cmd, seg.1, conv, bez);
      }
  }

  function Glue(done: seq<string>, r: Option<(seq<string>, nat)>): Option<(seq<string>, nat)>
  {
    match r
    case None => None
    case Some(v) => Some((done + v.0, v.1))
  }

  /** Partway through `k` reads from `n0`: the texts `done` are read and
      the caret is at `c`. */
  predicate Reads(s: string, n0: nat, k: nat, done: seq<string>, c: nat)
  {
    |done| <= k && ReadTokens(s, n0, k) == Glue(done, ReadTokens(s, c, k - |done|))
  }

  lemma ReadStart(s: string, n0: nat, k: nat)
    ensures Reads(s, n0, k, [], n0)
  {
    match ReadTokens(s, n0, k)
    case None =>
    case Some(v) => assert [] + v.0 == v.0;
  }

  lemma ReadOn(s: string, n0: nat, k: nat, done: seq<string>, c: nat)
    requires Reads(s, n0, k, done, c) && |done| < k
    requires NextToken(s, c).Token? || ReadTokens(s, n0, k).Some?
    ensures NextToken(s, c).Token?
    ensures Reads(s, n0, k, done + [NextToken(s, c).text], NextToken(s, c).next)
  {
    if ReadTokens(s, n0, k).Some? {
      ReadToken(s, n0, k, done, c);
    }
    var t := NextToken(s, c);
    var r := ReadTokens(s, t.next, k - |done| - 1);
    assert ReadTokens(s, c, k - |done|) == Glue([t.text], r);
    GlueTwice(done, [t.text], r);
  }

  /** Where the `k` reads succeed, so does the next one. */
  lemma ReadToken(s: string, n0: nat, k: nat, done: seq<string>, c: nat)
    requires Reads(s, n0, k, done, c) && |done| < k && ReadTokens(s, n0, k).Some?
    ensures NextToken(s, c).Token?
  {
    assert ReadTokens(s, c, k - |done|).Some?;
  }

  lemma GlueTwice(a: seq<string>, b: seq<string>, r: Option<(seq<string>, nat)>)
    ensures Glue(a, Glue(b, r)) == Glue(a + b, r)
  {
    if r.Some? {
      assert a + (b + r.value.0) == a + b + r.value.0;
    }
  }

  lemma ReadFault(s: string, n0: nat, k: nat, done: seq<string>, c: nat)
    requires Reads(s, n0, k, done, c) && |done| < k
    requires NextToken(s, c).Fault?
    ensures ReadTokens(s, n0, k).None?
  {
  }

  lemma ReadEnd(s: string, n0: nat, k: nat, done: seq<string>, c: nat)
    requires Reads(s, n0, k, done, c) && |done| == k
    ensures ReadTokens(s, n0, k) == Some((done, c))
  {
    assert done + [] == done;
  }

  /** One pass of the counting loop over a coordinate token `t`, with
      the segment's further tokens read up to caret `e`. */
  lemma CountSegment(s: string, c: nat, cmd: Command, count: nat, done: seq<string>, e: nat)
    requires NextToken(s, c).Token? && NextToken(s, c).text != []
    requires NextToken(s, c).text[0] !in {'M', 'm', 'c', 'z'}
    requires ReadTokens(s, NextToken(s, c).next, Extra(cmd)) == Some((done, e))
    ensures Plus(count, PointCount(s, c, cmd)) == Plus(count + LogoCpp.Width(cmd), PointCount(s, e, cmd))
  {
  }

  /** The `get_next_token` calls a segment makes after its x token
      (five for `c`, one for `M` and `m`), for the counting pass. */
  method SkipSegment(path: string, caret: nat, token: array<char>, command: Command) returns (next: nat, ok: bool)
    requires CString(path) && token.Length == 16
    modifies token
    ensures ok <==> ReadTokens(path, caret, Extra(command)).Some?
    ensures ok ==> next == ReadTokens(path, caret, Extra(command)).value.1
  {
    ghost var done, p := [], caret;
    ReadStart(path, caret, Extra(command));
    next := caret;
    if command == LogoCpp.CubicBezierRelative {
      next, ok := GetNextToken(path, next, token);
      if !ok { ReadFault(path, caret, 5, done, p); return; }
      ReadOn(path, caret, 5, done, p);
      done, p := done + [NextToken(path, p).text], next;
      next, ok := GetNextToken(path, next, token);
      if !ok { ReadFault(path, caret, 5, done, p); return; }
      ReadOn(path, caret, 5, done, p);
      done, p := done + [NextToken(path, p).text], next;
      next, ok := GetNextToken(path, next, token);
      if !ok { ReadFault(path, caret, 5, done, p); return; }
      ReadOn(path, caret, 5, done, p);
      done, p := done + [NextToken(path, p).text], next;
      next, ok := GetNextToken(path, next, token);
      if !ok { ReadFault(path, caret, 5, done, p); return; }
      ReadOn(path, caret, 5, done, p);
      done, p := done + [NextToken(path, p).text], next;
      next, ok := GetNextToken(path, next, token);
      if !ok { ReadFault(path, caret, 5, done, p); return; }
      ReadOn(path, caret, 5, done, p);
      done, p := done + [NextToken(path, p).text], next;
    }
    if command == LogoCpp.Move || command == LogoCpp.MoveRelative {
      next, ok := GetNextToken(path, next, token);
      if !ok { ReadFault(path, caret, 1, done, p); return; }
      ReadOn(path, caret, 1, done, p);
      done, p := done + [NextToken(path, p).text], next;
    }
    ReadEnd(path, caret, Extra(command), done, next);
    ok := true;
  }

  /** `get_svg_path_point_count(caret)`: `ok` is false exactly where the
      token reader faults; otherwise `count` is the number of points the
      contour at `caret` holds. */
  method GetSvgPathPointCount(path: string, caret: nat) returns (count: nat, ok: bool)
    requires CString(path)
    ensures ok <==> PointCount(path, caret, LogoCpp.NoCommand).Some?
    ensures ok ==> count == PointCount(path, caret, LogoCpp.NoCommand).value
  {
    var token := new char[16];
    var c := caret;
    var command: Command := LogoCpp.NoCommand;
    count := 0;
    while true
      invariant PointCount(path, caret, LogoCpp.NoCommand) == Plus(count, PointCount(path, c, command))
      decreases |path| + 1 - c
    {
      var next, got := GetNextToken(path, c, token);
      if !got {
        return 0, false;
      }
      TokenFirst(path, c);
      ghost var t := NextToken(path, c).text;
      // `strlen(token) == 0`
      if token[0] == '\0' {
        break;
      }
      assert token[0] == t[0];
      if token[0] == 'M' {
        command := LogoCpp.Move;
        c := next;
        continue;
      } else if token[0] == 'm' {
        command := LogoCpp.MoveRelative;
        c := next;
        continue;
      } else if token[0] == 'c' {
        command := LogoCpp.CubicBezierRelative;
        c := next;
        continue;
      } else if token[0] == 'z' {
        return count, true;
      }
      var after, read := SkipSegment(path, next, token, command);
      if !read {
        return 0, false;
      }
      ghost var before := count;
      if command == LogoCpp.CubicBezierRelative {
        count := count + 4;
      }
      if command == LogoCpp.Move {
        count := count + 1;
      }
      if command == LogoCpp.MoveRelative {
        count := count + 1;
      }
      CountSegment(path, c, command, before, ReadTokens(path, next, Extra(command)).value.0, after);
      c := after;
    }
    ok := true;
  }

  /** The buffer after a `get_next_token` call reads back as the token. */
  lemma ReadBack(s: string, c: nat, a: seq<char>)
    requires CString(s) && NextToken(s, c).Token?
    requires var t := NextToken(s, c).text; |t| < |a| && a[..|t|] == t && a[|t|] == '\0'
    ensures CStr(a) == NextToken(s, c).text
  {
    TokenFirst(s, c);
    HeldCStr(a, NextToken(s, c).text);
  }

  lemma PrependTwice(a: seq<Point>, b: seq<Point>, r: Option<Contour>)
    ensures Prepend(a, Prepend(b, r)) == Prepend(a + b, r)
  {
    if r.Some? {
      assert a + (b + r.value.points) == a + b + r.value.points;
    }
  }

  lemma PrependNothing(r: Option<Contour>)
    ensures Prepend([], r) == r
  {
    if r.Some? {
      assert [] + r.value.points == r.value.points;
    }
  }

  /** An empty token or a `z` ends the contour, in both passes. */
  lemma EndStep(s: string, c: nat, cmd: Command, last: Point, conv: Atof, bez: LogoCpp.Bezier)
    requires NextToken(s, c).Token?
    requires NextToken(s, c).text == [] || NextToken(s, c).text[0] == 'z'
    ensures PointCount(s, c, cmd) == Some(0)
    ensures ParseContour(s, c, cmd, last, conv, bez) == Some(Contour([], NextToken(s, c).next, last))
  {
  }

  /** A coordinate token that counts is followed by the tokens its
      segment reads. */
  lemma SegmentReads(s: string, c: nat, cmd: Command)
    requires NextToken(s, c).Token? && NextToken(s, c).text != []
    requires NextToken(s, c).text[0] !in {'M', 'm', 'c', 'z'}
    requires PointCount(s, c, cmd).Some?
    ensures ReadTokens(s, NextToken(s, c).next, Extra(cmd)).Some?
  {
  }

  /** A command token changes the command and nothing else, in both
      passes. */
  lemma CommandStep(s: string, c: nat, cmd: Command, next: Command, last: Point, conv: Atof, bez: LogoCpp.Bezier)
    requires NextToken(s, c).Token? && NextToken(s, c).text != []
    requires var ch := NextToken(s, c).text[0];
      (ch == 'M' && next == LogoCpp.Move) || (ch == 'm' && next == LogoCpp.MoveRelative) ||
      (ch == 'c' && next == LogoCpp.CubicBezierRelative)
    ensures var n := NextToken(s, c).next;
      PointCount(s, c, cmd) == PointCount(s, n, next) &&
      ParseContour(s, c, cmd, last, conv, bez) == ParseContour(s, n, next, last, conv, bez)
  {
  }

  /** One pass of the parsing loop over a coordinate token `x`, for the
      points: the contour parsed from the start is the points so far, then
      the segment, then the rest. */
  lemma ParseStep(s: string, caret: nat, start: Point, c: nat, cmd: Command, last: Point,
                  before: seq<Point>, x: string, conv: Atof, bez: LogoCpp.Bezier)
    requires NextToken(s, c).Token? && NextToken(s, c).text == x && x != []
    requires x[0] !in {'M', 'm', 'c', 'z'}
    requires ReadTokens(s, NextToken(s, c).next, Extra(cmd)).Some?
    requires ParseContour(s, caret, LogoCpp.NoCommand, start, conv, bez)
          == Prepend(before, ParseContour(s, c, cmd, last, conv, bez))
    ensures var r := ReadTokens(s, NextToken(s, c).next, Extra(cmd)).value;
      var seg := Segment(cmd, x, r.0, last, conv, bez);
      ParseContour(s, caret, LogoCpp.NoCommand, start, conv, bez)
        == Prepend(before + seg.0, ParseContour(s, r.1, cmd, seg.1, conv, bez))
  {
    var r := ReadTokens(s, NextToken(s, c).next, Extra(cmd)).value;
    var seg := Segment(cmd, x, r.0, last, conv, bez);
    var tail := ParseContour(s, r.1, cmd, seg.1, conv, bez);
    assert ParseContour(s, c, cmd, last, conv, bez) == Prepend(seg.0, tail);
    PrependTwice(before, seg.0, tail);
  }

  /** Four `points[i++]` writes append four points. */
  lemma Appended(before: seq<Point>, s1: seq<Point>, s2: seq<Point>, s3: seq<Point>, s4: seq<Point>, added: seq<Point>)
    requires |added| == 4
    requires s1 == before + [added[0]] && s2 == s1 + [added[1]]
    requires s3 == s2 + [added[2]] && s4 == s3 + [added[3]]
    ensures s4 == before + added
  {
    assert added == [added[0]] + [added[1]] + [added[2]] + [added[3]];
  }

  /** `a[i++] = v`. */
  method Put<T>(a: array<T>, i: nat, v: T) returns (j: nat)
    requires i < a.Length
    modifies a
    ensures j == i + 1 && a[..j] == old(a[..i]) + [v]
  {
    a[i] := v;
    j := i + 1;
    assert a[..i] == old(a[..i]);
  }

  /** One `get_next_token` followed by `atof(token) + base`, as one step
      of reading the `k` tokens after caret `n0`. */
  method ReadCoord(path: string, n0: nat, k: nat, ghost done: seq<string>, p: nat,
                   token: array<char>, base: int, conv: Atof) returns (v: int, next: nat)
    requires CString(path) && token.Length == 16
    requires Reads(path, n0, k, done, p) && |done| < k && ReadTokens(path, n0, k).Some?
    modifies token
    ensures NextToken(path, p).Token? && next == NextToken(path, p).next
    ensures Reads(path, n0, k, done + [NextToken(path, p).text], next)
    ensures v == conv(NextToken(path, p).text, base)
  {
    var ok;
    next, ok := GetNextToken(path, p, token);
    ReadOn(path, n0, k, done, p);
    ReadBack(path, p, token[..]);
    v := conv(CStr(token[..]), base);
  }

  /** Five reads appended one by one, indexed. */
  lemma Listed(d1: seq<string>, d2: seq<string>, d3: seq<string>, d4: seq<string>, d5: seq<string>)
    requires |d1| == 1 && |d2| == 2 && |d3| == 3 && |d4| == 4 && |d5| == 5
    requires d2[..1] == d1 && d3[..2] == d2 && d4[..3] == d3 && d5[..4] == d4
    ensures d5 == [d1[0], d2[1], d3[2], d4[3], d5[4]]
  {
    assert d5[..1] == d1 && d5[..2] == d2 && d5[..3] == d3;
  }

  /** The five `get_next_token` and `atof` calls of a `c` segment after
      its x token `x`: the two control points and the end, offset by
      `last`, as `Segment` reads them. */
  method ReadCubic(path: string, caret: nat, token: array<char>, x: string, last: Point, conv: Atof)
    returns (c1: Point, c2: Point, point: Point, next: nat)
    requires CString(path) && token.Length == 16
    requires ReadTokens(path, caret, 5).Some?
    modifies token
    ensures var r := ReadTokens(path, caret, 5).value;
      next == r.1 && c1 == Point(conv(x, last.x), conv(r.0[0], last.y)) &&
      c2 == Point(conv(r.0[1], last.x), conv(r.0[2], last.y)) &&
      point == Point(conv(r.0[3], last.x), conv(r.0[4], last.y))
  {
    ReadStart(path, caret, 5);
    var c1x := conv(x, last.x);
    ghost var d0: seq<string> := [];
    var c1y, n1 := ReadCoord(path, caret, 5, d0, caret, token, last.y, conv);
    ghost var d1 := d0 + [NextToken(path, caret).text];
    var c2x, n2 := ReadCoord(path, caret, 5, d1, n1, token, last.x, conv);
    ghost var d2 := d1 + [NextToken(path, n1).text];
    var c2y, n3 := ReadCoord(path, caret, 5, d2, n2, token, last.y, conv);
    ghost var d3 := d2 + [NextToken(path, n2).text];
    var px, n4 := ReadCoord(path, caret, 5, d3, n3, token, last.x, conv);
    ghost var d4 := d3 + [NextToken(path, n3).text];
    var py, n5 := ReadCoord(path, caret, 5, d4, n4, token, last.y, conv);
    ghost var d5 := d4 + [NextToken(path, n4).text];
    ReadEnd(path, caret, 5, d5, n5);
    Listed(d1, d2, d3, d4, d5);
    next := n5;
    c1, c2, point := Point(c1x, c1y), Point(c2x, c2y), Point(px, py);
  }

  /** A parsed path: its contours and the final `last`. */
  datatype Polygon = Polygon(contours: seq<seq<Point>>, last: Point)

  /** `done` ahead of the contours of `r`. */
  function Lead(done: seq<seq<Point>>, r: Option<Polygon>): Option<Polygon>
  {
    match r
    case None => None
    case Some(p) => Some(Polygon(done + p.contours, p.last))
  }

  lemma LeadNothing(r: Option<Polygon>)
    ensures Lead([], r) == r
  {
    if r.Some? {
      assert [] + r.value.contours == r.value.contours;
    }
  }

  lemma LeadTwice(a: seq<seq<Point>>, b: seq<seq<Point>>, r: Option<Polygon>)
    ensures Lead(a, Lead(b, r)) == Lead(a + b, r)
  {
    if r.Some? {
      assert a + (b + r.value.contours) == a + b + r.value.contours;
    }
  }

  /** One pass of the bounded reader's loop: a contour is parsed, or the
      whole path faults. */
  lemma PathStep(s: string, caret: nat, last: Point, n: nat, conv: Atof, bez: LogoCpp.Bezier)
    requires caret < |s| && n > 0
    ensures var r := ParseContour(s, caret, LogoCpp.NoCommand, last, conv, bez);
      BoundedContours(s, caret, last, n, conv, bez)
        == if r.None? then None
           else Lead([r.value.points], BoundedContours(s, r.value.next, r.value.last, n - 1, conv, bez))
  {
  }

  /** `parse_svg_path` as written: contours are parsed while the caret is
      before the terminator, however many `z`s were counted. */
  function PathContours(s: string, caret: nat, last: Point, conv: Atof, bez: LogoCpp.Bezier): Option<Polygon>
    decreases |s| + 1 - caret
  {
    if caret >= |s| then Some(Polygon([], last))
    else match ParseContour(s, caret, LogoCpp.NoCommand, last, conv, bez)
      case None => None
      case Some(c) => Lead([c.points], PathContours(s, c.next, c.last, conv, bez))
  }

  /** `parse_svg_path` as intended: at most `n` contours, `n` being the
      number of entries allocated. */
  function BoundedContours(s: string, caret: nat, last: Point, n: nat, conv: Atof, bez: LogoCpp.Bezier): (r: Option<Polygon>)
    ensures r.Some? ==> |r.value.contours| <= n
    decreases n
  {
    if caret >= |s| || n == 0 then Some(Polygon([], last))
    else match ParseContour(s, caret, LogoCpp.NoCommand, last, conv, bez)
      case None => None
      case Some(c) => Lead([c.points], BoundedContours(s, c.next, c.last, n - 1, conv, bez))
  }

  /** Where the path as written stays within `n` contours, the bounded
      reader gives the same polygon. */
  lemma {:induction false} BoundedAgrees(s: string, caret: nat, last: Point, n: nat, conv: Atof, bez: LogoCpp.Bezier)
    requires PathContours(s, caret, last, conv, bez).Some?
    requires |PathContours(s, caret, last, conv, bez).value.contours| <= n
    ensures BoundedContours(s, caret, last, n, conv, bez) == PathContours(s, caret, last, conv, bez)
    decreases |s| + 1 - caret
  {
    if caret < |s| {
      var c := ParseContour(s, caret, LogoCpp.NoCommand, last, conv, bez).value;
      BoundedAgrees(s, c.next, c.last, n - 1, conv, bez);
    }
  }

  /** A `z` just before `b` is one more `z` from `a` on than from `b` on. */
  lemma ZBefore(s: string, a: nat, b: nat)
    requires a < b <= |s| && s[b - 1] == 'z'
    ensures multiset(s[a..])['z'] >= multiset(s[b..])['z'] + 1
  {
    assert s[a..] == s[a..b - 1] + [s[b - 1]] + s[b..];
  }

  /** Every contour but the last ends with a `z`, so the path as written
      parses at most one contour more than `get_svg_path_count` counts. */
  lemma {:induction false} ContoursBound(s: string, caret: nat, last: Point, conv: Atof, bez: LogoCpp.Bezier)
    requires CString(s) && caret <= |s|
    requires PathContours(s, caret, last, conv, bez).Some?
    ensures |PathContours(s, caret, last, conv, bez).value.contours| <= multiset(s[caret..])['z'] + 1
    decreases |s| + 1 - caret
  {
    if caret < |s| {
      var c := ParseContour(s, caret, LogoCpp.NoCommand, last, conv, bez).value;
      if c.next <= |s| {
        ContourEnds(s, caret, LogoCpp.NoCommand, last, conv, bez);
        ContoursBound(s, c.next, c.last, conv, bez);
        ZBefore(s, caret, c.next);
      }
    }
  }

  /** The overrun: `"M1 2z "` counts one `z`, so one contour is
      allocated, yet the trailing space sends the caret round the loop
      again and a second (empty) contour is stored. */
  lemma ContourOverrun(conv: Atof, bez: LogoCpp.Bezier)
    ensures var s := "M1 2z ";
      multiset(s)['z'] == 1 &&
      PathContours(s, 0, Point(0, 0), conv, bez).Some? &&
      |PathContours(s, 0, Point(0, 0), conv, bez).value.contours| == 2
  {
    var s := "M1 2z ";
    OverrunCount();
    var p := Point(conv("1", 0), conv("2", 0));
    OverrunFirst(conv, bez);
    OverrunSecond(p, conv, bez);
    assert PathContours(s, 7, p, conv, bez) == Some(Polygon([], p));
    assert PathContours(s, 5, p, conv, bez).Some? && |PathContours(s, 5, p, conv, bez).value.contours| == 1;
  }

  /** `"M1 2z "` holds one `z`. */
  lemma OverrunCount()
    ensures multiset("M1 2z ")['z'] == 1
  {
    var s := "M1 2z ";
    assert s == "M1 2" + ['z'] + " ";
  }

  /** The tokens of `"M1 2z "` up to its `z`. */
  lemma OverrunTokens()
    ensures var s := "M1 2z ";
      NextToken(s, 0) == Token("M", 1) && NextToken(s, 1) == Token("1", 2) &&
      NextToken(s, 2) == Token("2", 4) && NextToken(s, 4) == Token("z", 5)
  {
    var s := "M1 2z ";
    assert NextToken(s, 3) == Token("2", 4);
  }

  /** The first contour of `"M1 2z "`: one point, ending after the `z`. */
  lemma OverrunFirst(conv: Atof, bez: LogoCpp.Bezier)
    ensures var p := Point(conv("1", 0), conv("2", 0));
      ParseContour("M1 2z ", 0, LogoCpp.NoCommand, Point(0, 0), conv, bez) == Some(Contour([p], 5, p))
  {
    var s := "M1 2z ";
    OverrunTokens();
    var p := Point(conv("1", 0), conv("2", 0));
    assert ReadTokens(s, 2, 1) == Some((["2"], 4)) by {
      var two: seq<string> := ["2"];
      assert two + [] == two;
    }
    assert ParseContour(s, 4, LogoCpp.Move, p, conv, bez) == Some(Contour([], 5, p));
    assert Segment(LogoCpp.Move, "1", ["2"], Point(0, 0), conv, bez) == ([p], p);
    assert ParseContour(s, 1, LogoCpp.Move, Point(0, 0), conv, bez) == Some(Contour([p], 5, p)) by {
      assert [p] + [] == [p];
    }
  }

  /** After the `z` only a space is left, yet it is parsed as a second,
      empty contour. */
  lemma OverrunSecond(p: Point, conv: Atof, bez: LogoCpp.Bezier)
    ensures ParseContour("M1 2z ", 5, LogoCpp.NoCommand, p, conv, bez) == Some(Contour([], 7, p))
  {
    var s := "M1 2z ";
    assert NextToken(s, 6) == Token([], 7);
  }

  /** The reader's state: the global `last`, the end of the previous
      segment (zero before the first contour). */
  class SvgReader {
    var last: Point

    constructor()
      ensures last == Point(0, 0)
    {
      last := Point(0, 0);
    }

    /** The `c` segment of `parse_svg_path_contour` after its x token
        `x`: five more tokens give the control points and the end, all
        offset by `last`; three curve samples and the end are written to
        `points[i..]` through `i++`, and `last` moves to the end. */
    method ParseCubic(path: string, caret: nat, token: array<char>, x: string,
                      points: array<Point>, i: nat, conv: Atof, bez: LogoCpp.Bezier)
      returns (next: nat, j: nat)
      requires CString(path) && token.Length == 16
      requires ReadTokens(path, caret, 5).Some?
      requires i + 4 <= points.Length
      modifies token, points, this
      ensures var r := ReadTokens(path, caret, 5).value;
        var seg := Segment(LogoCpp.CubicBezierRelative, x, r.0, old(last), conv, bez);
        next == r.1 && j == i + 4 && last == seg.1 && points[..j] == old(points[..i]) + seg.0
    {
      var c1, c2, point;
      c1, c2, point, next := ReadCubic(path, caret, token, x, last, conv);
      ghost var seg := Segment(LogoCpp.CubicBezierRelative, x, ReadTokens(path, caret, 5).value.0, last, conv, bez);
      assert seg.0 == [bez(1, last, c1, c2, point), bez(2, last, c1, c2, point), bez(3, last, c1, c2, point), point];
      ghost var before := points[..i];
      j := Put(points, i, bez(1, last, c1, c2, point));
      ghost var s1 := points[..j];
      j := Put(points, j, bez(2, last, c1, c2, point));
      ghost var s2 := points[..j];
      j := Put(points, j, bez(3, last, c1, c2, point));
      ghost var s3 := points[..j];
      j := Put(points, j, point);
      last := point;
      Appended(before, s1, s2, s3, points[..j], seg.0);
    }

    /** The `M` and `m` segments of `parse_svg_path_contour` after the x
        token `x`: one more token gives y; under `m` both are offset by
        `last`. The point is written to `points[i]` and becomes `last`. */
    method ParseMove(path: string, caret: nat, token: array<char>, command: Command, x: string,
                     points: array<Point>, i: nat, conv: Atof, bez: LogoCpp.Bezier)
      returns (next: nat, j: nat)
      requires CString(path) && token.Length == 16
      requires command == LogoCpp.Move || command == LogoCpp.MoveRelative
      requires ReadTokens(path, caret, 1).Some?
      requires i + 1 <= points.Length
      modifies token, points, this
      ensures var r := ReadTokens(path, caret, 1).value;
        var seg := Segment(command, x, r.0, old(last), conv, bez);
        next == r.1 && j == i + 1 && last == seg.1 && points[..j] == old(points[..i]) + seg.0
    {
      ReadStart(path, caret, 1);
      ghost var none: seq<string> := [];
      var point;
      if command == LogoCpp.Move {
        var px := conv(x, 0);
        var py;
        py, next := ReadCoord(path, caret, 1, none, caret, token, 0, conv);
        point := Point(px, py);
      } else {
        var px := conv(x, last.x);
        var py;
        py, next := ReadCoord(path, caret, 1, none, caret, token, last.y, conv);
        point := Point(px, py);
      }
      ReadEnd(path, caret, 1, none + [NextToken(path, caret).text], next);
      j := Put(points, i, point);
      last := point;
    }

    /** A segment after its x token `x`, by command: `c` and `M`/`m` as
        above, and with no command yet nothing is read or written. */
    method ParseSegment(path: string, caret: nat, token: array<char>, command: Command, x: string,
                        points: array<Point>, i: nat, conv: Atof, bez: LogoCpp.Bezier)
      returns (next: nat, j: nat)
      requires CString(path) && token.Length == 16
      requires ReadTokens(path, caret, Extra(command)).Some?
      requires i + LogoCpp.Width(command) <= points.Length
      modifies token, points, this
      ensures var r := ReadTokens(path, caret, Extra(command)).value;
        var seg := Segment(command, x, r.0, old(last), conv, bez);
        next == r.1 && j == i + |seg.0| && last == seg.1 && points[..j] == old(points[..i]) + seg.0
    {
      if command == LogoCpp.CubicBezierRelative {
        next, j := ParseCubic(path, caret, token, x, points, i, conv, bez);
      } else if command != LogoCpp.NoCommand {
        next, j := ParseMove(path, caret, token, command, x, points, i, conv, bez);
      } else {
        next, j := caret, i;
        assert points[..i] + [] == points[..i];
      }
    }

    /** `parse_svg_path_contour(caret)`: the point count first, then an
        allocation of exactly that many points, filled through `i++` while
        the same tokens are read again. `ok` is false exactly where the
        token reader faults (before `last` changes). */
    method ParseSvgPathContour(path: string, caret: nat, conv: Atof, bez: LogoCpp.Bezier)
      returns (points: array<Point>, next: nat, ok: bool)
      requires CString(path)
      modifies this
      ensures fresh(points)
      ensures var r := ParseContour(path, caret, LogoCpp.NoCommand, old(last), conv, bez);
        (ok <==> r.Some?) &&
        (ok ==> points[..] == r.value.points && next == r.value.next && last == r.value.last) &&
        (!ok ==> last == old(last))
    {
      var count, counted := GetSvgPathPointCount(path, caret);
      ContourCount(path, caret, LogoCpp.NoCommand, last, conv, bez);
      if !counted {
        return new Point[0], 0, false;
      }
      points := new Point[count];
      var command: Command := LogoCpp.NoCommand;
      var token := new char[16];
      var c := caret;
      var i: nat := 0;
      ghost var start := last;
      PrependNothing(ParseContour(path, caret, LogoCpp.NoCommand, start, conv, bez));
      assert points[..0] == [];
      while true
        invariant points.Length == count && i <= count
        invariant fresh(token) && token.Length == 16 && fresh(points)
        invariant Plus(i, PointCount(path, c, command)) == Some(count)
        invariant ParseContour(path, caret, LogoCpp.NoCommand, start, conv, bez)
               == Prepend(points[..i], ParseContour(path, c, command, last, conv, bez))
        decreases |path| + 1 - c
      {
        var nx, got := GetNextToken(path, c, token);
        TokenFirst(path, c);
        ghost var t := NextToken(path, c).text;
        // `strlen(token) == 0`
        if token[0] == '\0' {
          EndStep(path, c, command, last, conv, bez);
          next := nx;
          break;
        }
        assert token[0] == t[0];
        if token[0] == 'M' {
          CommandStep(path, c, command, LogoCpp.Move, last, conv, bez);
          command := LogoCpp.Move;
          c := nx;
          continue;
        } else if token[0] == 'm' {
          CommandStep(path, c, command, LogoCpp.MoveRelative, last, conv, bez);
          command := LogoCpp.MoveRelative;
          c := nx;
          continue;
        } else if token[0] == 'c' {
          CommandStep(path, c, command, LogoCpp.CubicBezierRelative, last, conv, bez);
          command := LogoCpp.CubicBezierRelative;
          c := nx;
          continue;
        } else if token[0] == 'z' {
          EndStep(path, c, command, last, conv, bez);
          next := nx;
          break;
        }
        SegmentReads(path, c, command);
        ReadBack(path, c, token[..]);
        var x := CStr(token[..]);
        ghost var r := ReadTokens(path, nx, Extra(command)).value;
        CountSegment(path, c, command, i, r.0, r.1);
        ParseStep(path, caret, start, c, command, last, points[..i], x, conv, bez);
        var after, j := ParseSegment(path, nx, token, command, x, points, i, conv, bez);
        i, c := j, after;
      }
      ok := true;
    }

    /** `parse_svg_path`, with the loop bounded by the allocation: one
        contour entry per `z` is allocated, and contours are parsed while
        the caret is before the terminator and an entry is left. Entries
        not reached keep their initial (empty) value. */
    method ParseSvgPath(path: string, conv: Atof, bez: LogoCpp.Bezier) returns (contours: array<seq<Point>>, ok: bool)
      requires CString(path)
      modifies this
      ensures fresh(contours) && contours.Length == multiset(path)['z']
      ensures var r := BoundedContours(path, 0, old(last), contours.Length, conv, bez);
        (ok <==> r.Some?) &&
        (ok ==> contours[..|r.value.contours|] == r.value.contours && last == r.value.last)
    {
      var count := GetSvgPathCount(path);
      contours := new seq<Point>[count];
      var caret: nat := 0;
      var i: nat := 0;
      ghost var start := last;
      LeadNothing(BoundedContours(path, 0, start, count, conv, bez));
      assert contours[..0] == [];
      while caret < |path| && i < count
        invariant contours.Length == count && i <= count && fresh(contours)
        invariant BoundedContours(path, 0, start, count, conv, bez)
               == Lead(contours[..i], BoundedContours(path, caret, last, count - i, conv, bez))
        decreases |path| + 1 - caret
      {
        ghost var l0 := last;
        var points, next, got := ParseSvgPathContour(path, caret, conv, bez);
        PathStep(path, caret, l0, count - i, conv, bez);
        if !got {
          return contours, false;
        }
        var contour := points[..];
        ghost var before := contours[..i];
        ghost var rest := BoundedContours(path, next, last, count - i - 1, conv, bez);
        assert BoundedContours(path, caret, l0, count - i, conv, bez) == Lead([contour], rest);
        LeadTwice(before, [contour], rest);
        i := Put(contours, i, contour);
        caret := next;
      }
      ok := true;
    }
  }
}