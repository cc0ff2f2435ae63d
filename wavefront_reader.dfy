/** The WaveFront (.obj) reader: the lines of the file are classified into
    vertex lines ("v ") and face lines ("f "), a vertex keeps its first
    three coordinate tokens (swapping the last two when the mesh is
    rotated), and a face keeps, for each of its tokens, the 0-based index
    written before the first '/'. The file itself is a parameter (its list
    of lines), and coordinate tokens stay text: their conversion to
    floating point is not modelled. */
module WavefrontReader {
  import opened Common
  import opened Geometry
  import opened MeshGraph
  import opened Polyhedra

  // ---------------------------------------------------------------------
  // Tokens: `str.split()` with no separator

  /** The whitespace characters `str.split()` cuts at: tab to carriage
      return, the four information separators, space, next-line, no-break
      space, and the Unicode space separators and line and paragraph
      separators. */
  predicate IsSpace(c: char) {
    || c == ' ' || ('\t' <= c <= '\r') || ('\U{1C}' <= c <= '\U{1F}') || c == '\U{85}' || c == '\U{A0}'
    || c == '\U{1680}' || ('\U{2000}' <= c <= '\U{200A}') || c == '\U{2028}' || c == '\U{2029}'
    || c == '\U{202F}' || c == '\U{205F}' || c == '\U{3000}'
  }

  /** A token: non-empty, without whitespace. */
  predicate IsToken(t: string) {
    t != [] && forall i | 0 <= i < |t| :: !IsSpace(t[i])
  }

  /** The run of non-space characters at the start of `s`. */
  function Word(s: string): (w: string)
    ensures w <= s && forall i | 0 <= i < |w| :: !IsSpace(w[i])
    ensures |w| < |s| ==> IsSpace(s[|w|])
  {
    if s == [] || IsSpace(s[0]) then [] else [s[0]] + Word(s[1..])
  }

  /** `s.split()`: the maximal runs of non-space characters, in order
      (so `filter(None, ...)` after it removes nothing). */
  function Tokens(s: string): (ts: seq<string>)
    ensures forall k | 0 <= k < |ts| :: IsToken(ts[k])
    decreases |s|
  {
    if s == [] then []
    else if IsSpace(s[0]) then Tokens(s[1..])
    else
      var w := Word(s);
      [w] + Tokens(s[|w|..])
  }

  /** The tokens written out with one space between them. */
  function Join(ts: seq<string>): string {
    if ts == [] then ""
    else if |ts| == 1 then ts[0]
    else ts[0] + " " + Join(ts[1..])
  }

  lemma {:induction false} WordOf(w: string, rest: string)
    requires forall i | 0 <= i < |w| :: !IsSpace(w[i])
    requires rest == [] || IsSpace(rest[0])
    ensures Word(w + rest) == w
  {
    if w != [] {
      assert (w + rest)[1..] == w[1..] + rest;
      WordOf(w[1..], rest);
    }
  }

  /** Splitting undoes joining: tokens written with single spaces are read
      back as the same tokens. */
  lemma {:induction false} TokensOfJoin(ts: seq<string>)
    requires forall k | 0 <= k < |ts| :: IsToken(ts[k])
    ensures Tokens(Join(ts)) == ts
  {
    if |ts| == 1 {
      WordOf(ts[0], []);
      assert ts[0] + [] == ts[0];
      assert ts[0][|ts[0]|..] == [];
    } else if |ts| > 1 {
      var w, more := ts[0], " " + Join(ts[1..]);
      assert Join(ts) == w + more;
      WordOf(w, more);
      assert (w + more)[|w|..] == more;
      assert more[1..] == Join(ts[1..]);
      TokensOfJoin(ts[1..]);
      assert [w] + ts[1..] == ts;
    }
  }

  // ---------------------------------------------------------------------
  // Integers: `int(s)` on a token

  predicate IsDigit(c: char) {
    '0' <= c <= '9'
  }

  /** The digits Python's `int` accepts: at least one decimal digit, with
      single underscores allowed between digits. */
  predicate ValidDigits(s: string)
    decreases |s|
  {
    && |s| > 0 && IsDigit(s[0])
    && (|s| == 1 || ValidDigits(s[1..]) || (s[1] == '_' && ValidDigits(s[2..])))
  }

  lemma {:induction false} AllDigitsValid(s: string)
    requires |s| > 0 && forall i | 0 <= i < |s| :: IsDigit(s[i])
    ensures ValidDigits(s)
    decreases |s|
  {
    if |s| > 1 {
      AllDigitsValid(s[1..]);
    }
  }

  /** The value of a digit string, underscores skipped. */
  function DigitsValue(s: string): nat {
    if s == [] then 0
    else
      var c := s[|s| - 1];
      if IsDigit(c) then DigitsValue(s[..|s| - 1]) * 10 + (c as int - '0' as int)
      else DigitsValue(s[..|s| - 1])
  }

  /** `int(s)`: an optional sign, then digits; `None` is the ValueError. */
  function ParseInt(s: string): (r: Option<int>)
    ensures r.Some? <==> ValidDigits(if s != [] && (s[0] == '+' || s[0] == '-') then s[1..] else s)
    ensures r.Some? ==> (r.value < 0 ==> s[0] == '-') && (s[0] == '-' ==> r.value <= 0)
  {
    if s != [] && (s[0] == '+' || s[0] == '-') then
      if ValidDigits(s[1..]) then
        var v: int := DigitsValue(s[1..]);
        Some(if s[0] == '-' then -v else v)
      else None
    else if ValidDigits(s) then Some(DigitsValue(s))
    else None
  }

  function Digit(d: nat): (c: char)
    requires d < 10
    ensures IsDigit(c)
  {
    ('0' as int + d) as char
  }

  /** The decimal numeral of n, without leading zeros. */
  function ShowNat(n: nat): (s: string)
    ensures |s| > 0 && forall i | 0 <= i < |s| :: IsDigit(s[i])
  {
    if n < 10 then [Digit(n)] else ShowNat(n / 10) + [Digit(n % 10)]
  }

  /** The numeral of i, with a '-' when it is negative. */
  function ShowInt(i: int): (s: string)
    ensures IsToken(s) && '/' !in s
  {
    if i < 0 then "-" + ShowNat(-i) else ShowNat(i)
  }

  lemma {:induction false} ShowNatValue(n: nat)
    ensures DigitsValue(ShowNat(n)) == n
  {
    var s := ShowNat(n);
    if n < 10 {
      assert s[..0] == [];
    } else {
      ShowNatValue(n / 10);
      assert s[..|s| - 1] == ShowNat(n / 10);
    }
  }

  /** `int` reads back every numeral. */
  lemma ParseIntOfShow(i: int)
    ensures ParseInt(ShowInt(i)) == Some(i)
  {
    var n: nat := if i < 0 then -i else i;
    var digits := ShowNat(n);
    ShowNatValue(n);
    AllDigitsValid(digits);
    if i < 0 {
      assert ShowInt(i) == "-" + digits;
      assert ShowInt(i)[1..] == digits;
    } else {
      assert ShowInt(i) == digits && IsDigit(digits[0]);
    }
  }

  // ---------------------------------------------------------------------
  // One vertex line, one face line

  datatype ParseError =
    | NotEnoughValues(count: nat)     // `x, y, z = raw_vert[:3]` on fewer than three tokens
    | InvalidLiteral(text: string)    // `int(...)` on a face token
    | TooFewVertices(count: nat)      // the assertion on a face of fewer than three tokens

  /** A vertex as its three coordinate tokens. */
  datatype Vertex = Vertex(x: string, y: string, z: string)

  /** A vertex line without its "v ": the first three tokens, the second
      and third swapped when `rotate` is set; further tokens (the optional
      w) are ignored. */
  function ParseVertex(line: string, rotate: bool): (r: Result<Vertex, ParseError>)
    ensures r.Err? <==> |Tokens(line)| < 3
    ensures r.Err? ==> r.error == NotEnoughValues(|Tokens(line)|)
  {
    var ts := Tokens(line);
    if |ts| < 3 then Err(NotEnoughValues(|ts|))
    else Ok(if rotate then Vertex(ts[0], ts[2], ts[1]) else Vertex(ts[0], ts[1], ts[2]))
  }

  /** A vertex written as its three tokens, with any further tokens, is
      read back as itself, or with y and z swapped under `rotate`. */
  lemma VertexRoundTrip(v: Vertex, extra: seq<string>)
    requires IsToken(v.x) && IsToken(v.y) && IsToken(v.z)
    requires forall k | 0 <= k < |extra| :: IsToken(extra[k])
    ensures ParseVertex(Join([v.x, v.y, v.z] + extra), false) == Ok(v)
    ensures ParseVertex(Join([v.x, v.y, v.z] + extra), true) == Ok(Vertex(v.x, v.z, v.y))
  {
    var ts := [v.x, v.y, v.z] + extra;
    AllTokens(v, extra);
    TokensOfJoin(ts);
    VertexOfTokens(Join(ts), ts);
  }

  lemma AllTokens(v: Vertex, extra: seq<string>)
    requires IsToken(v.x) && IsToken(v.y) && IsToken(v.z)
    requires forall k | 0 <= k < |extra| :: IsToken(extra[k])
    ensures var ts := [v.x, v.y, v.z] + extra; forall k | 0 <= k < |ts| :: IsToken(ts[k])
  {
    var ts := [v.x, v.y, v.z] + extra;
    forall k | 0 <= k < |ts| ensures IsToken(ts[k]) {
      if k >= 3 { assert ts[k] == extra[k - 3]; }
    }
  }

  lemma VertexOfTokens(line: string, ts: seq<string>)
    requires Tokens(line) == ts && |ts| >= 3
    ensures ParseVertex(line, false) == Ok(Vertex(ts[0], ts[1], ts[2]))
    ensures ParseVertex(line, true) == Ok(Vertex(ts[0], ts[2], ts[1]))
  {
  }

  /** The part of a token before its first '/': `s.split("/")[0]`. */
  function FirstField(s: string): (f: string)
    ensures f <= s && '/' !in f
    ensures |f| < |s| ==> s[|f|] == '/'
  {
    if s == [] || s[0] == '/' then [] else [s[0]] + FirstField(s[1..])
  }

  lemma {:induction false} FirstFieldOf(f: string, rest: string)
    requires '/' !in f && (rest == [] || rest[0] == '/')
    ensures FirstField(f + rest) == f
  {
    if f != [] {
      assert (f + rest)[1..] == f[1..] + rest;
      FirstFieldOf(f[1..], rest);
    }
  }

  /** `int(s.split("/")[0]) - 1`: the 0-based index a face token names. */
  function FaceIndex(token: string): (r: Result<int, ParseError>)
    ensures r.Err? <==> ParseInt(FirstField(token)).None?
    ensures r.Ok? ==> r.value + 1 == ParseInt(FirstField(token)).value
  {
    var f := FirstField(token);
    match ParseInt(f)
    case None => Err(InvalidLiteral(f))
    case Some(v) => Ok(v - 1)
  }

  /** A 1-based index, alone or followed by "/texture/normal" fields, gives
      the 0-based index back. */
  lemma FaceIndexOfShow(k: int, rest: string)
    requires rest == [] || rest[0] == '/'
    ensures FaceIndex(ShowInt(k + 1) + rest) == Ok(k)
  {
    FirstFieldOf(ShowInt(k + 1), rest);
    ParseIntOfShow(k + 1);
  }

  /** `int(s.split("/")[0]) - 1` on every token, in order. */
  function Indices(ts: seq<string>): (rs: seq<Result<int, ParseError>>)
    ensures |rs| == |ts|
  {
    seq(|ts|, k requires 0 <= k < |ts| => FaceIndex(ts[k]))
  }

  /** The values of the first `count` results, or the first error among
      them: what `list(map(...))` gives when the mapped function raises. */
  function FaceIndices(rs: seq<Result<int, ParseError>>, count: nat): (r: Result<seq<int>, ParseError>)
    requires count <= |rs|
    ensures r.Ok? <==> forall k | 0 <= k < count :: rs[k].Ok?
    ensures r.Ok? ==> |r.value| == count && forall k | 0 <= k < count :: rs[k] == Ok(r.value[k])
    ensures r.Err? ==> exists k | 0 <= k < count :: rs[k] == Err(r.error)
  {
    if count == 0 then Ok([])
    else
      match FaceIndices(rs, count - 1)
      case Err(e) => Err(e)
      case Ok(prev) =>
        match rs[count - 1]
        case Err(e) => Err(e)
        case Ok(i) => Ok(prev + [i])
  }

  lemma {:induction false} FaceIndicesFailure(rs: seq<Result<int, ParseError>>, i: nat, count: nat)
    requires i <= count <= |rs| && FaceIndices(rs, i).Err?
    ensures FaceIndices(rs, count) == FaceIndices(rs, i)
    decreases count - i
  {
    if i < count {
      FaceIndicesFailure(rs, i, count - 1);
    }
  }

  /** A face line without its "f ": the index of every token; then a face
      of fewer than three tokens fails the assertion. */
  function ParseFace(line: string): (r: Result<seq<int>, ParseError>)
    ensures r.Ok? ==> |r.value| == |Tokens(line)| >= 3
    ensures r.Ok? ==> forall k | 0 <= k < |r.value| :: FaceIndex(Tokens(line)[k]) == Ok(r.value[k])
    ensures r.Err? ==> r.error.InvalidLiteral? || r.error == TooFewVertices(|Tokens(line)|)
    ensures r.Err? && r.error.TooFewVertices? ==> |Tokens(line)| < 3
  {
    var ts := Tokens(line);
    match FaceIndices(Indices(ts), |ts|)
    case Err(e) => Err(e)
    case Ok(idx) => if |ts| > 2 then Ok(idx) else Err(TooFewVertices(|ts|))
  }

  /** A face written as its 1-based indices. */
  function FaceLine(idx: seq<int>): string {
    Join(seq(|idx|, k requires 0 <= k < |idx| => ShowInt(idx[k] + 1)))
  }

  /** A face of at least three indices, written 1-based, is read back. */
  lemma FaceRoundTrip(idx: seq<int>)
    requires |idx| >= 3
    ensures ParseFace(FaceLine(idx)) == Ok(idx)
  {
    var ts := seq(|idx|, k requires 0 <= k < |idx| => ShowInt(idx[k] + 1));
    TokensOfJoin(ts);
    assert Tokens(FaceLine(idx)) == ts;
    forall k | 0 <= k < |ts|
      ensures FaceIndex(ts[k]) == Ok(idx[k])
    {
      FaceIndexOfShow(idx[k], []);
      assert ts[k] + [] == ts[k];
    }
    FaceIndicesOfGood(ts, idx);
  }

  /** Tokens that all read as indices give exactly those indices. */
  lemma FaceIndicesOfGood(ts: seq<string>, idx: seq<int>)
    requires |ts| == |idx| && forall k | 0 <= k < |ts| :: FaceIndex(ts[k]) == Ok(idx[k])
    ensures FaceIndices(Indices(ts), |ts|) == Ok(idx)
  {
    var rs := Indices(ts);
    var r := FaceIndices(rs, |ts|);
    assert forall k | 0 <= k < |ts| :: rs[k] == Ok(idx[k]);
    assert r.Ok?;
    forall k | 0 <= k < |ts|
      ensures r.value[k] == idx[k]
    {
      assert rs[k] == Ok(r.value[k]);
    }
    assert r.value == idx;
  }

  /** Reading the tokens of one face line, in order, then the count
      assertion. */
  method ReadFace(line: string) returns (r: Result<seq<int>, ParseError>)
    ensures r == ParseFace(line)
  {
    var ts := Tokens(line);
    var all := ReadIndices(ts);
    ParseFaceOf(line, ts, all);
    if all.Err? {
      return Err(all.error);
    }
    if |ts| <= 2 {
      return Err(TooFewVertices(|ts|));
    }
    r := all;
  }

  /** `list(map(...))` over the tokens: the mapped index of each token,
      collected in order; the first token that does not read ends it. The
      mapped function is pure, so computing every index before collecting
      them gives the same list and the same first error. */
  method ReadIndices(ts: seq<string>) returns (r: Result<seq<int>, ParseError>)
    ensures r == FaceIndices(Indices(ts), |ts|)
  {
    var rs := Indices(ts);
    var list: seq<int> := [];
    for k := 0 to |rs|
      invariant FaceIndices(rs, k) == Ok(list)
    {
      if rs[k].Err? {
        FaceIndicesFailure(rs, k + 1, |rs|);
        return Err(rs[k].error);
      }
      list := list + [rs[k].value];
    }
    r := Ok(list);
  }

  lemma ParseFaceOf(line: string, ts: seq<string>, all: Result<seq<int>, ParseError>)
    requires ts == Tokens(line) && all == FaceIndices(Indices(ts), |ts|)
    ensures ParseFace(line) == match all
                               case Err(e) => Err(e)
                               case Ok(idx) => if |ts| > 2 then Ok(idx) else Err(TooFewVertices(|ts|))
  {
  }

  // ---------------------------------------------------------------------
  // The whole file

  function StartsWith(line: string, tag: string): bool {
    |tag| <= |line| && line[..|tag|] == tag
  }

  /** The lines that start with the two-character `tag`, without it, in
      file order. */
  function Tagged(lines: seq<string>, tag: string): (r: seq<string>)
    requires |tag| == 2
    ensures |r| <= |lines|
  {
    if lines == [] then []
    else
      var line := lines[|lines| - 1];
      Tagged(lines[..|lines| - 1], tag) + (if StartsWith(line, tag) then [line[2..]] else [])
  }

  /** The vertices read before the first line that fails, and its error. */
  function VertexRun(vs: seq<string>, rotate: bool): (r: (seq<Vertex>, Option<ParseError>))
    ensures |r.0| <= |vs| && (r.1.None? ==> |r.0| == |vs|)
    ensures forall i | 0 <= i < |r.0| :: ParseVertex(vs[i], rotate) == Ok(r.0[i])
    ensures r.1.Some? ==> |r.0| < |vs| && ParseVertex(vs[|r.0|], rotate) == Err(r.1.value)
  {
    if vs == [] then ([], None)
    else
      var prev := VertexRun(vs[..|vs| - 1], rotate);
      if prev.1.Some? then prev
      else
        match ParseVertex(vs[|vs| - 1], rotate)
        case Ok(v) => (prev.0 + [v], None)
        case Err(e) => (prev.0, Some(e))
  }

  /** The faces read before the first line that fails, and its error. */
  function FaceRun(fs: seq<string>): (r: (seq<seq<int>>, Option<ParseError>))
    ensures |r.0| <= |fs| && (r.1.None? ==> |r.0| == |fs|)
    ensures forall i | 0 <= i < |r.0| :: ParseFace(fs[i]) == Ok(r.0[i])
    ensures r.1.Some? ==> |r.0| < |fs| && ParseFace(fs[|r.0|]) == Err(r.1.value)
  {
    if fs == [] then ([], None)
    else
      var prev := FaceRun(fs[..|fs| - 1]);
      if prev.1.Some? then prev
      else
        match ParseFace(fs[|fs| - 1])
        case Ok(f) => (prev.0 + [f], None)
        case Err(e) => (prev.0, Some(e))
  }

  /** What `parse` appends to the vertex list and to the face list, and how
      it ends: every vertex line is read before any face line. */
  function Parsed(lines: seq<string>, rotate: bool): (seq<Vertex>, seq<seq<int>>, Outcome<ParseError>) {
    var (vgood, verr) := VertexRun(Tagged(lines, "v "), rotate);
    var (fgood, ferr) := FaceRun(Tagged(lines, "f "));
    if verr.Some? then (vgood, [], Fail(verr.value))
    else if ferr.Some? then (vgood, fgood, Fail(ferr.value))
    else (vgood, fgood, Pass)
  }

  /** A vertex line as written to a file. */
  function VertexLine(v: Vertex): string {
    "v " + Join([v.x, v.y, v.z])
  }

  lemma TaggedSnoc(lines: seq<string>, line: string, tag: string)
    requires |tag| == 2
    ensures Tagged(lines + [line], tag) == Tagged(lines, tag) + (if StartsWith(line, tag) then [line[2..]] else [])
  {
    assert (lines + [line])[..|lines|] == lines;
  }

  /** An .obj text of vertex lines then face lines. */
  function ObjLines(vs: seq<Vertex>, fs: seq<seq<int>>): seq<string> {
    seq(|vs|, i requires 0 <= i < |vs| => VertexLine(vs[i]))
      + seq(|fs|, i requires 0 <= i < |fs| => "f " + FaceLine(fs[i]))
  }

  lemma {:induction false} TaggedAll(lines: seq<string>, bodies: seq<string>, tag: string, other: string)
    requires |tag| == 2 && |other| == 2 && tag != other && |lines| == |bodies|
    requires forall i | 0 <= i < |lines| :: lines[i] == tag + bodies[i]
    ensures Tagged(lines, tag) == bodies && Tagged(lines, other) == []
  {
    if lines != [] {
      var n := |lines| - 1;
      TaggedAll(lines[..n], bodies[..n], tag, other);
      assert lines[n][..2] == tag && lines[n][2..] == bodies[n];
      assert bodies[..n] + [bodies[n]] == bodies;
    }
  }

  lemma {:induction false} TaggedConcat(a: seq<string>, b: seq<string>, tag: string)
    requires |tag| == 2
    ensures Tagged(a + b, tag) == Tagged(a, tag) + Tagged(b, tag)
    decreases |b|
  {
    if b == [] {
      assert a + b == a;
    } else {
      var n := |b| - 1;
      TaggedConcat(a, b[..n], tag);
      assert (a + b)[..|a + b| - 1] == a + b[..n];
    }
  }

  /** Writing vertices (with token coordinates) and faces of at least three
      indices as an .obj text, and parsing it, gives them back. */
  lemma ObjRoundTrip(vs: seq<Vertex>, fs: seq<seq<int>>)
    requires forall i | 0 <= i < |vs| :: IsToken(vs[i].x) && IsToken(vs[i].y) && IsToken(vs[i].z)
    requires forall i | 0 <= i < |fs| :: |fs[i]| >= 3
    ensures Parsed(ObjLines(vs, fs), false) == (vs, fs, Pass)
  {
    var vlines := seq(|vs|, i requires 0 <= i < |vs| => VertexLine(vs[i]));
    var flines := seq(|fs|, i requires 0 <= i < |fs| => "f " + FaceLine(fs[i]));
    var vbodies := seq(|vs|, i requires 0 <= i < |vs| => Join([vs[i].x, vs[i].y, vs[i].z]));
    var fbodies := seq(|fs|, i requires 0 <= i < |fs| => FaceLine(fs[i]));
    TaggedAll(vlines, vbodies, "v ", "f ");
    TaggedAll(flines, fbodies, "f ", "v ");
    TaggedConcat(vlines, flines, "v ");
    TaggedConcat(vlines, flines, "f ");
    assert Tagged(ObjLines(vs, fs), "v ") == vbodies;
    assert Tagged(ObjLines(vs, fs), "f ") == fbodies;
    forall i | 0 <= i < |vs|
      ensures ParseVertex(vbodies[i], false) == Ok(vs[i])
    {
      VertexRoundTrip(vs[i], []);
      assert [vs[i].x, vs[i].y, vs[i].z] + [] == [vs[i].x, vs[i].y, vs[i].z];
    }
    forall i | 0 <= i < |fs|
      ensures ParseFace(fbodies[i]) == Ok(fs[i])
    {
      FaceRoundTrip(fs[i]);
    }
    RunsOfGoodLines(vbodies, vs, fbodies, fs);
  }

  lemma {:induction false} RunsOfGoodLines(vbodies: seq<string>, vs: seq<Vertex>, fbodies: seq<string>, fs: seq<seq<int>>)
    requires |vbodies| == |vs| && forall i | 0 <= i < |vs| :: ParseVertex(vbodies[i], false) == Ok(vs[i])
    requires |fbodies| == |fs| && forall i | 0 <= i < |fs| :: ParseFace(fbodies[i]) == Ok(fs[i])
    ensures VertexRun(vbodies, false) == (vs, None)
    ensures FaceRun(fbodies) == (fs, None)
  {
    var vr, fr := VertexRun(vbodies, false), FaceRun(fbodies);
    assert vr.1.None? && fr.1.None?;
    forall i | 0 <= i < |vs|
      ensures vr.0[i] == vs[i]
    {
      assert ParseVertex(vbodies[i], false) == Ok(vr.0[i]);
    }
    forall i | 0 <= i < |fs|
      ensures fr.0[i] == fs[i]
    {
      assert ParseFace(fbodies[i]) == Ok(fr.0[i]);
    }
    assert vr.0 == vs && fr.0 == fs;
  }

  // ---------------------------------------------------------------------
  // The reader

  /** `WaveFrontReader`: the path and the verbosity, and the vertex and
      face lists `parse` fills. */
  class Reader {
    const path: string
    const verbose: bool
    var vertices: seq<Vertex>
    var vertexIndices: seq<seq<int>>

    /** `WaveFrontReader(path, False, rotate, verbose)`: empty lists. */
    constructor (path: string, verbose: bool)
      ensures this.path == path && this.verbose == verbose
      ensures vertices == [] && vertexIndices == []
    {
      this.path := path;
      this.verbose := verbose;
      vertices := [];
      vertexIndices := [];
    }

    /** `WaveFrontReader(path, parse_on_load, rotate, verbose)`, with the
        file given by its lines. */
    static method Open(path: string, lines: seq<string>, parseOnLoad: bool, rotate: bool, verbose: bool)
      returns (reader: Reader, r: Outcome<ParseError>)
      ensures fresh(reader) && reader.path == path && reader.verbose == verbose
      ensures !parseOnLoad ==> reader.vertices == [] && reader.vertexIndices == [] && r == Pass
      ensures parseOnLoad ==>
                var (vs, fs, outcome) := Parsed(lines, rotate);
                reader.vertices == vs && reader.vertexIndices == fs && r == outcome
    {
      reader := new Reader(path, verbose);
      r := Pass;
      if parseOnLoad {
        r := reader.Parse(lines, rotate);
      }
    }

    /** `parse(rotate)`: classify the lines, then read every vertex line,
        then every face line, appending to the lists; the first bad line
        ends it with what was read before it kept. */
    method Parse(lines: seq<string>, rotate: bool) returns (r: Outcome<ParseError>)
      modifies this
      ensures var (vs, fs, outcome) := Parsed(lines, rotate);
              vertices == old(vertices) + vs && vertexIndices == old(vertexIndices) + fs && r == outcome
    {
      var vertexLines, faceLines := Classify(lines);
      var bad := AppendVertices(vertexLines, rotate);
      if bad.Some? {
        return Fail(bad.value);
      }
      bad := AppendFaces(faceLines);
      r := if bad.Some? then Fail(bad.value) else Pass;
    }

    /** The vertex loop of `parse`. */
    method AppendVertices(vertexLines: seq<string>, rotate: bool) returns (bad: Option<ParseError>)
      modifies this
      ensures vertices == old(vertices) + VertexRun(vertexLines, rotate).0
      ensures bad == VertexRun(vertexLines, rotate).1
      ensures vertexIndices == old(vertexIndices)
    {
      for i := 0 to |vertexLines|
        invariant vertices == old(vertices) + VertexRun(vertexLines[..i], rotate).0
        invariant VertexRun(vertexLines[..i], rotate).1.None?
        invariant vertexIndices == old(vertexIndices)
      {
        var v := ParseVertex(vertexLines[i], rotate);
        RunStep(vertexLines, i, rotate);
        if v.Err? {
          RunStopped(vertexLines, i + 1, rotate);
          return Some(v.error);
        }
        vertices := vertices + [v.value];
      }
      assert vertexLines[..|vertexLines|] == vertexLines;
      bad := None;
    }

    /** The face loop of `parse`. */
    method AppendFaces(faceLines: seq<string>) returns (bad: Option<ParseError>)
      modifies this
      ensures vertexIndices == old(vertexIndices) + FaceRun(faceLines).0
      ensures bad == FaceRun(faceLines).1
      ensures vertices == old(vertices)
    {
      for i := 0 to |faceLines|
        invariant vertexIndices == old(vertexIndices) + FaceRun(faceLines[..i]).0
        invariant FaceRun(faceLines[..i]).1.None?
        invariant vertices == old(vertices)
      {
        var f := ReadFace(faceLines[i]);
        FaceRunStep(faceLines, i);
        if f.Err? {
          FaceRunStopped(faceLines, i + 1);
          return Some(f.error);
        }
        vertexIndices := vertexIndices + [f.value];
      }
      assert faceLines[..|faceLines|] == faceLines;
      bad := None;
    }

    /** `to_polyhedron()`: the lists handed to `from_standard_vertex_lists`,
        each coordinate token read by `toReal`. */
    method ToPolyhedron(m: Mesh, toReal: string -> real) returns (r: Result<Polyhedron, BuildError>)
      requires m.Valid()
      modifies m
      ensures m.Valid() && m.coords == old(m.coords) + Points(vertices, toReal) && old(m.edges) <= m.edges
      ensures m.incident == Attach(old(m.incident) + NoEdges(|vertices|), m.edges, old(|m.edges|))
      ensures var nodes := Range(old(|m.coords|), old(|m.coords|) + |vertices|);
              r.Err? <==> exists k | 0 <= k < |vertexIndices| :: BadFace(nodes, vertexIndices[k])
      ensures r.Ok? ==>
                var p := r.value;
                && fresh(p) && p.mesh == m && p.Valid()
                && |p.nodes| == |vertices| && (forall j | 0 <= j < |vertices| :: p.nodes[j] == old(|m.coords|) + j)
                && |p.groups| == |vertexIndices|
                && (forall k | 0 <= k < |vertexIndices| ::
                      FaceNodes(p.nodes, vertexIndices[k]).Some?
                      && FaceGroup(p.groups[k], m.edges, |m.coords|, FaceNodes(p.nodes, vertexIndices[k]).value))
    {
      ghost var split;
      r, split := Polyhedron.FromStandardVertexLists(m, Points(vertices, toReal), vertexIndices);
    }
  }

  /** The coordinates of the vertices, each token read by `toReal`. */
  function Points(vs: seq<Vertex>, toReal: string -> real): (ps: seq<Vec3>)
    ensures |ps| == |vs|
  {
    seq(|vs|, i requires 0 <= i < |vs| => Vec3(toReal(vs[i].x), toReal(vs[i].y), toReal(vs[i].z)))
  }

  /** The first loop of `parse`: vertex lines and face lines, each without
      its tag, in file order. */
  method Classify(lines: seq<string>) returns (vertexLines: seq<string>, faceLines: seq<string>)
    ensures vertexLines == Tagged(lines, "v ") && faceLines == Tagged(lines, "f ")
  {
    vertexLines, faceLines := [], [];
    for i := 0 to |lines|
      invariant vertexLines == Tagged(lines[..i], "v ") && faceLines == Tagged(lines[..i], "f ")
    {
      var line := lines[i];
      TaggedSnoc(lines[..i], line, "v ");
      TaggedSnoc(lines[..i], line, "f ");
      assert lines[..i + 1] == lines[..i] + [line];
      if StartsWith(line, "v ") {
        vertexLines := vertexLines + [line[2..]];
      } else if StartsWith(line, "f ") {
        faceLines := faceLines + [line[2..]];
      }
    }
    assert lines[..|lines|] == lines;
  }

  lemma RunStep(vs: seq<string>, i: nat, rotate: bool)
    requires i < |vs| && VertexRun(vs[..i], rotate).1.None?
    ensures VertexRun(vs[..i + 1], rotate) ==
              match ParseVertex(vs[i], rotate)
              case Ok(v) => (VertexRun(vs[..i], rotate).0 + [v], None)
              case Err(e) => (VertexRun(vs[..i], rotate).0, Some(e))
  {
    assert vs[..i + 1][..i] == vs[..i];
  }

  lemma {:induction false} RunStopped(vs: seq<string>, i: nat, rotate: bool)
    requires 0 < i <= |vs| && VertexRun(vs[..i], rotate).1.Some?
    ensures VertexRun(vs, rotate) == VertexRun(vs[..i], rotate)
    decreases |vs| - i
  {
    if i < |vs| {
      assert vs[..i + 1][..i] == vs[..i];
      RunStopped(vs, i + 1, rotate);
    } else {
      assert vs[..i] == vs;
    }
  }

  lemma FaceRunStep(fs: seq<string>, i: nat)
    requires i < |fs| && FaceRun(fs[..i]).1.None?
    ensures FaceRun(fs[..i + 1]) ==
              match ParseFace(fs[i])
              case Ok(f) => (FaceRun(fs[..i]).0 + [f], None)
              case Err(e) => (FaceRun(fs[..i]).0, Some(e))
  {
    assert fs[..i + 1][..i] == fs[..i];
  }

  lemma {:induction false} FaceRunStopped(fs: seq<string>, i: nat)
    requires 0 < i <= |fs| && FaceRun(fs[..i]).1.Some?
    ensures FaceRun(fs) == FaceRun(fs[..i])
    decreases |fs| - i
  {
    if i < |fs| {
      assert fs[..i + 1][..i] == fs[..i];
      FaceRunStopped(fs, i + 1);
    } else {
      assert fs[..i] == fs;
    }
  }
}
