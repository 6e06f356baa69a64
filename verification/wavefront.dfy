/**
  * The Wavefront OBJ loader (neon/src/core/wavefront.c). Two passes over the lines of
  * the file: the first counts positions, normals, texture coordinates and faces and
  * takes the vertex format from the last face; the second reads each face's three
  * corners with `sscanf`. The builders then expand every face into three vertices
  * with an identity index array. Coordinates are floats and are not modelled: a
  * vertex attribute is a reference into one of the three arrays.
  */
module Wavefront {
  import opened Wrappers
  import opened Bytes
  import opened Text
  import opened Tokenizer
  import opened Scan
  import opened Seqs
  import opened RwText
  import Vertices

  /** The four face layouts `v`, `v//n`, `v/t` and `v/t/n`. */
  datatype Format = V3 | V3N3 | V3T2 | V3T2N3

  /** The vertex-format constant the loader returns for a layout. */
  function Code(f: Format): (vf: int)
    ensures 0 <= vf <= 3
    ensures Vertices.VertexSize(vf).Some?
  {
    match f
    case V3 => Vertices.VF_V3
    case V3N3 => Vertices.VF_V3N3
    case V3T2 => Vertices.VF_V3T2
    case V3T2N3 => Vertices.VF_V3T2N3
  }

  const SLASH: Item := Lit('/')

  /** The `sscanf` format each layout reads a corner with. */
  function PatternOf(f: Format): (p: seq<Item>)
    ensures Separated(p) && p != [] && p[0].Int? && p[|p| - 1].Int?
  {
    match f
    case V3T2N3 => [Int, SLASH, Int, SLASH, Int]
    case V3N3 => [Int, SLASH, SLASH, Int]
    case V3T2 => [Int, SLASH, Int]
    case V3 => [Int]
  }

  /** Every layout's format has one conversion per number of a corner. */
  lemma PatternConversions()
    ensures Conversions(PatternOf(V3)) == 1 && Conversions(PatternOf(V3T2)) == 2
    ensures Conversions(PatternOf(V3N3)) == 2 && Conversions(PatternOf(V3T2N3)) == 3
  {
    var one: seq<Item> := [Int];
    assert Conversions(one) == 1 by { assert one[1..] == []; }
    assert Conversions([SLASH] + one) == 1 by { assert ([SLASH] + one)[1..] == one; }
    assert Conversions([SLASH, SLASH] + one) == 1 by { assert ([SLASH, SLASH] + one)[1..] == [SLASH] + one; }
    var two := [Int] + ([SLASH] + one);
    assert Conversions(two) == 2 by { assert two[1..] == [SLASH] + one; }
    assert Conversions([SLASH] + two) == 2 by { assert ([SLASH] + two)[1..] == two; }
    assert PatternOf(V3) == one;
    assert PatternOf(V3T2) == two;
    assert PatternOf(V3N3) == [Int] + ([SLASH, SLASH] + one);
    assert Conversions(PatternOf(V3N3)) == 2 by { assert PatternOf(V3N3)[1..] == [SLASH, SLASH] + one; }
    assert PatternOf(V3T2N3) == [Int] + ([SLASH] + two);
    assert Conversions(PatternOf(V3T2N3)) == 3 by { assert PatternOf(V3T2N3)[1..] == [SLASH] + two; }
  }

  /** Which of a corner's three numbers (0 position, 1 texture, 2 normal) each conversion fills. */
  function Slots(f: Format): (s: seq<nat>)
    ensures |s| == Conversions(PatternOf(f)) && s[0] == 0
    ensures forall i :: 0 <= i < |s| ==> s[i] < 3
  {
    PatternConversions();
    match f
    case V3T2N3 => [0, 1, 2]
    case V3N3 => [0, 2]
    case V3T2 => [0, 1]
    case V3 => [0]
  }

  predicate HasTexcoord(f: Format) { f == V3T2 || f == V3T2N3 }
  predicate HasNormal(f: Format) { f == V3N3 || f == V3T2N3 }

  /**
    * The layout of a face, judged from its first corner as both passes do: three
    * numbers `a/b/c` first, then any `//`, then two numbers `a/b`, else a lone position.
    */
  function Classify(token: string): Format
  {
    if |Sscanf(token, PatternOf(V3T2N3))| == 3 then V3T2N3
    else if Find(token, "//").Some? then V3N3
    else if |Sscanf(token, PatternOf(V3T2))| == 2 then V3T2
    else V3
  }

  /** A corner as the exporter writes it: the numbers of the layout joined by its slashes. */
  function CornerText(f: Format, vals: seq<int>): string
    requires |vals| == |Slots(f)|
  {
    Print(PatternOf(f), vals)
  }

  lemma SscanfLiteralMismatch(c: char, t: string, q: seq<Item>)
    requires t == [] || t[0] != c
    ensures Sscanf(t, [Lit(c)] + q) == []
  {
  }

  lemma SscanfConversionFails(t: string, q: seq<Item>)
    requires t != [] && t[0] == '/'
    ensures Sscanf(t, [Int] + q) == []
  {
    assert SpaceRun(t) == 0;
    assert DigitRun(t) == 0;
  }

  lemma PrintConversion(q: seq<Item>, vals: seq<int>)
    requires |vals| == Conversions([Int] + q)
    ensures |vals| >= 1 && |vals[1..]| == Conversions(q)
    ensures Print([Int] + q, vals) == Render(vals[0]) + Print(q, vals[1..])
  {
    assert ([Int] + q)[1..] == q;
  }

  lemma PrintLiteral(c: char, q: seq<Item>, vals: seq<int>)
    requires |vals| == Conversions([Lit(c)] + q)
    ensures |vals| == Conversions(q)
    ensures Print([Lit(c)] + q, vals) == [c] + Print(q, vals)
  {
    assert ([Lit(c)] + q)[1..] == q;
  }

  lemma PrintOne(vals: seq<int>)
    requires |vals| == 1
    ensures Print([Int], vals) == Render(vals[0])
  {
    assert [Int] == [Int] + [];
    PrintConversion([], vals);
    assert Render(vals[0]) + [] == Render(vals[0]);
  }

  /** The text of `v`: the number alone. */
  lemma TextV3(vals: seq<int>)
    requires |vals| == 1
    ensures CornerText(V3, vals) == Render(vals[0])
  {
    PrintOne(vals);
  }

  /** The text of `v/t`. */
  lemma TextV3T2(vals: seq<int>)
    requires |vals| == 2
    ensures CornerText(V3T2, vals) == Render(vals[0]) + "/" + Render(vals[1])
  {
    var end := vals[1..];
    PrintOne(end);
    assert PatternOf(V3T2) == [Int] + ([SLASH] + [Int]);
    PatternConversions();
    PrintConversion([SLASH] + [Int], vals);
    PrintLiteral('/', [Int], end);
  }

  /** The text of `v//n`. */
  lemma TextV3N3(vals: seq<int>)
    requires |vals| == 2
    ensures CornerText(V3N3, vals) == Render(vals[0]) + "//" + Render(vals[1])
  {
    var end := vals[1..];
    PrintOne(end);
    assert PatternOf(V3N3) == [Int] + ([SLASH] + ([SLASH] + [Int]));
    PatternConversions();
    PrintConversion([SLASH] + ([SLASH] + [Int]), vals);
    PrintLiteral('/', [SLASH] + [Int], end);
    PrintLiteral('/', [Int], end);
  }

  /** The text of `v/t/n`. */
  lemma TextV3T2N3(vals: seq<int>)
    requires |vals| == 3
    ensures CornerText(V3T2N3, vals) == Render(vals[0]) + "/" + Render(vals[1]) + "/" + Render(vals[2])
  {
    var mid, end := vals[1..], vals[2..];
    PrintOne(end);
    assert PatternOf(V3T2N3) == [Int] + ([SLASH] + ([Int] + ([SLASH] + [Int])));
    PatternConversions();
    PrintConversion([SLASH] + ([Int] + ([SLASH] + [Int])), vals);
    PrintLiteral('/', [Int] + ([SLASH] + [Int]), mid);
    PrintConversion([SLASH] + [Int], mid);
    assert mid[1..] == end;
    PrintLiteral('/', [Int], end);
  }

  /** A rendered number holds no slash. */
  lemma NoSlashInNumber(x: int)
    ensures '/' !in Render(x)
  {
    var s := Render(x);
    forall k | 0 <= k < |s| ensures s[k] != '/' {
      assert IsDigit(s[k]) || s[k] == '-';
    }
  }

  /** A string with at most one slash, at `at` if anywhere, holds no `//`. */
  lemma NoDoubleSlash(s: string, at: int)
    requires forall k :: 0 <= k < |s| && k != at ==> s[k] != '/'
    ensures Find(s, "//").None?
  {
    forall k | 0 <= k ensures !OccursAt(s, "//", k) {
      if k + 2 <= |s| {
        assert s[k..k + 2][0] == s[k] && s[k..k + 2][1] == s[k + 1];
      }
    }
  }

  /** `a/b/c` is classified as three numbers. */
  lemma ClassifyV3T2N3(vals: seq<int>)
    requires |vals| == 3
    ensures Classify(CornerText(V3T2N3, vals)) == V3T2N3
  {
    SscanfPrint(PatternOf(V3T2N3), vals, []);
    assert Print(PatternOf(V3T2N3), vals) + [] == Print(PatternOf(V3T2N3), vals);
  }

  /** The three-number pattern: a number, then a slash, then the rest. */
  lemma PatternV3T2N3Parts()
    ensures PatternOf(V3T2N3) == [Int] + ([SLASH] + [Int, SLASH, Int])
    ensures [Int, SLASH, Int] == [Int] + ([SLASH] + [Int])
  {
  }

  /** After a number, `//` stops `/%d/%d` at the second slash. */
  lemma SlashSlashStops(c: string)
    ensures Sscanf("//" + c, [SLASH] + [Int, SLASH, Int]) == []
  {
    var q: seq<Item> := [Int, SLASH, Int];
    assert "//" + c == ['/'] + ("/" + c);
    SscanfLiteral('/', "/" + c, q);
    assert q == [Int] + q[1..];
    SscanfConversionFails("/" + c, q[1..]);
  }

  /** Under `%d/%d/%d`, `a//c` yields only its first number. */
  lemma ScanV3N3Text(a: int, c: string)
    ensures Sscanf(Render(a) + ("//" + c), PatternOf(V3T2N3)) == [a]
  {
    PatternV3T2N3Parts();
    SlashSlashStops(c);
    SscanfConversion(a, "//" + c, [SLASH] + [Int, SLASH, Int]);
  }

  /** `a//c` reads one number under `%d/%d/%d`, and holds `//`. */
  lemma ClassifyV3N3(vals: seq<int>)
    requires |vals| == 2
    ensures Classify(CornerText(V3N3, vals)) == V3N3
    ensures Sscanf(CornerText(V3N3, vals), PatternOf(V3T2N3)) == vals[..1]
  {
    var a, c := Render(vals[0]), Render(vals[1]);
    var s := CornerText(V3N3, vals);
    TextV3N3(vals);
    assert s == a + ("//" + c);
    ScanV3N3Text(vals[0], c);
    assert OccursAt(s, "//", |a|) by {
      assert s[|a|..|a| + 2] == "//";
    }
  }

  /** A lone number under `%d/%d` yields itself. */
  lemma ScanLastPair(b: int)
    ensures Sscanf(Render(b), [Int] + ([SLASH] + [Int])) == [b]
  {
    assert Render(b) == Render(b) + [];
    SscanfConversion(b, [], [SLASH] + [Int]);
    SscanfLiteralMismatch('/', [], [Int]);
  }

  /** `/b` under `/%d/%d` yields `b`. */
  lemma ScanSlashPair(b: int)
    ensures Sscanf("/" + Render(b), [SLASH] + ([Int] + ([SLASH] + [Int]))) == [b]
  {
    ScanLastPair(b);
    assert "/" + Render(b) == ['/'] + Render(b);
    SscanfLiteral('/', Render(b), [Int] + ([SLASH] + [Int]));
  }

  /** Under `%d/%d/%d`, `a/b` yields its two numbers. */
  lemma ScanV3T2Text(a: int, b: int)
    ensures Sscanf(Render(a) + ("/" + Render(b)), PatternOf(V3T2N3)) == [a, b]
  {
    PatternV3T2N3Parts();
    ScanSlashPair(b);
    SscanfConversion(a, "/" + Render(b), [SLASH] + [Int, SLASH, Int]);
  }

  /** `a/b` reads two numbers under `%d/%d/%d`, holds no `//`, and two numbers under `%d/%d`. */
  lemma ClassifyV3T2(vals: seq<int>)
    requires |vals| == 2
    ensures Classify(CornerText(V3T2, vals)) == V3T2
    ensures Sscanf(CornerText(V3T2, vals), PatternOf(V3T2N3)) == vals
    ensures Sscanf(CornerText(V3T2, vals), PatternOf(V3T2)) == vals
  {
    TextV3T2(vals);
    AppendAssoc(Render(vals[0]), "/", Render(vals[1]));
    ScanV3T2Text(vals[0], vals[1]);
    PairHasNoDoubleSlash(vals[0], vals[1]);
    ScanOwnPattern(V3T2, vals);
  }

  /** `a/b` holds a single slash. */
  lemma PairHasNoDoubleSlash(x: int, y: int)
    ensures Find(Render(x) + ("/" + Render(y)), "//").None?
  {
    var a, b := Render(x), Render(y);
    var s := a + ("/" + b);
    NoSlashInNumber(x);
    NoSlashInNumber(y);
    forall k | 0 <= k < |s| && k != |a| ensures s[k] != '/' {
      if k < |a| { assert s[k] == a[k]; } else { assert s[k] == b[k - |a| - 1]; }
    }
    NoDoubleSlash(s, |a|);
  }

  /** A lone number yields itself under both `%d/%d/%d` and `%d/%d`. */
  lemma ScanV3Text(a: int)
    ensures Sscanf(Render(a), PatternOf(V3T2N3)) == [a]
    ensures Sscanf(Render(a), PatternOf(V3T2)) == [a]
  {
    assert Render(a) == Render(a) + [];
    SscanfConversion(a, [], PatternOf(V3T2N3)[1..]);
    SscanfLiteralMismatch('/', [], PatternOf(V3T2N3)[2..]);
    assert PatternOf(V3T2N3) == [Int] + PatternOf(V3T2N3)[1..];
    assert PatternOf(V3T2N3)[1..] == [SLASH] + PatternOf(V3T2N3)[2..];
    SscanfConversion(a, [], PatternOf(V3T2)[1..]);
    SscanfLiteralMismatch('/', [], PatternOf(V3T2)[2..]);
    assert PatternOf(V3T2) == [Int] + PatternOf(V3T2)[1..];
    assert PatternOf(V3T2)[1..] == [SLASH] + PatternOf(V3T2)[2..];
  }

  /** A lone number reads one number under both `%d/%d/%d` and `%d/%d`, and holds no `//`. */
  lemma ClassifyV3(vals: seq<int>)
    requires |vals| == 1
    ensures Classify(CornerText(V3, vals)) == V3
    ensures Sscanf(CornerText(V3, vals), PatternOf(V3T2N3)) == vals
    ensures Sscanf(CornerText(V3, vals), PatternOf(V3T2)) == vals
  {
    var s := CornerText(V3, vals);
    TextV3(vals);
    ScanV3Text(vals[0]);
    NoSlashInNumber(vals[0]);
    NoDoubleSlash(s, -1);
  }

  /** The classification recovers the layout a corner was written in. */
  lemma ClassifyCorner(f: Format, vals: seq<int>)
    requires |vals| == |Slots(f)|
    ensures Classify(CornerText(f, vals)) == f
  {
    match f
    case V3T2N3 => ClassifyV3T2N3(vals);
    case V3N3 => ClassifyV3N3(vals);
    case V3T2 => ClassifyV3T2(vals);
    case V3 => ClassifyV3(vals);
  }

  // ---------------------------------------------------------------------------
  // Reading one face
  // ---------------------------------------------------------------------------

  /** Where number j (0 position, 1 texture, 2 normal) sits among a layout's conversions; 3 when absent. */
  function SlotIndex(f: Format, j: nat): (i: nat)
    requires j < 3
    ensures i < |Slots(f)| ==> Slots(f)[i] == j
    ensures i >= |Slots(f)| ==> j !in Slots(f)
  {
    match f
    case V3T2N3 => j
    case V3N3 => [0, 3, 1][j]
    case V3T2 => [0, 1, 3][j]
    case V3 => [0, 3, 3][j]
  }

  lemma SlotIndexOfSlot(f: Format, n: nat)
    requires n < |Slots(f)|
    ensures SlotIndex(f, Slots(f)[n]) == n
  {
  }

  /** Whether a layout carries number j of a corner. */
  predicate Carries(f: Format, j: nat)
    requires j < 3
  {
    j == 0 || (j == 1 && HasTexcoord(f)) || (j == 2 && HasNormal(f))
  }

  lemma CarriesIffSlot(f: Format, j: nat)
    requires j < 3
    ensures Carries(f, j) <==> SlotIndex(f, j) < |Slots(f)|
  {
  }

  /**
    * The three numbers of a corner after `sscanf` stores the converted values through
    * the layout's pointers: converted slots take the new values, the others keep theirs.
    */
  function Assign(cur: seq<int>, f: Format, vals: seq<int>): (r: seq<int>)
    requires |cur| == 3 && |vals| <= |Slots(f)|
    ensures |r| == 3
    ensures forall j :: 0 <= j < 3 && SlotIndex(f, j) < |vals| ==> r[j] == vals[SlotIndex(f, j)]
    ensures forall j :: 0 <= j < 3 && SlotIndex(f, j) >= |vals| ==> r[j] == cur[j]
  {
    seq(3, j requires 0 <= j < 3 => if SlotIndex(f, j) < |vals| then vals[SlotIndex(f, j)] else cur[j])
  }

  /** One `sscanf(token, format, &v[k], &t[k], &n[k])` of a layout. */
  function ScanCorner(cur: seq<int>, token: string, f: Format): (r: seq<int>)
    requires |cur| == 3
    ensures |r| == 3
  {
    PatternConversions();
    Assign(cur, f, Sscanf(token, PatternOf(f)))
  }

  const ZERO: seq<int> := [0, 0, 0]

  /**
    * The first corner goes through every scan of the classification: `%d/%d/%d` always,
    * then `%d//%d` if the corner holds `//`, otherwise `%d/%d` once (twice when it
    * converts both numbers) or `%d/%d` and `%d`.
    */
  function FirstCorner(token: string): (r: seq<int>)
    ensures |r| == 3
  {
    var c1 := ScanCorner(ZERO, token, V3T2N3);
    if |Sscanf(token, PatternOf(V3T2N3))| == 3 then c1
    else if Find(token, "//").Some? then ScanCorner(c1, token, V3N3)
    else
      var c2 := ScanCorner(c1, token, V3T2);
      if |Sscanf(token, PatternOf(V3T2))| == 2 then ScanCorner(c2, token, V3T2)
      else ScanCorner(c2, token, V3)
  }

  const DELIMS: string := " \n"

  /** A missing token stands for the NULL pointer `strtok_r` returns. */
  function TokenText(st: Step): string
  {
    match st.token
    case Some(t) => t
    case None => []
  }

  /** The first three tokens after the leading `f`, split at spaces and newlines. */
  function FaceTokens(line: string): (toks: seq<string>)
    requires |line| >= 1
    ensures |toks| == 3
  {
    var t1 := StrTok(line, 1, DELIMS);
    var t2 := StrTok(line, t1.next, DELIMS);
    var t3 := StrTok(line, t2.next, DELIMS);
    [TokenText(t1), TokenText(t2), TokenText(t3)]
  }

  /** A face: the position, texture and normal numbers of its three corners, as written (1-based). */
  datatype Face = Face(positions: seq<int>, uvs: seq<int>, normals: seq<int>)

  predicate Triangle(face: Face)
  {
    |face.positions| == 3 && |face.uvs| == 3 && |face.normals| == 3
  }

  /** The three numbers of corner k. */
  function CornerOf(face: Face, k: nat): (c: seq<int>)
    requires Triangle(face) && k < 3
    ensures |c| == 3
  {
    [face.positions[k], face.uvs[k], face.normals[k]]
  }

  /** A face from its corners' numbers. */
  function FaceFromCorners(c0: seq<int>, c1: seq<int>, c2: seq<int>): (face: Face)
    requires |c0| == 3 && |c1| == 3 && |c2| == 3
    ensures Triangle(face)
    ensures CornerOf(face, 0) == c0 && CornerOf(face, 1) == c1 && CornerOf(face, 2) == c2
  {
    Face([c0[0], c1[0], c2[0]], [c0[1], c1[1], c2[1]], [c0[2], c1[2], c2[2]])
  }

  /** The kind of a line, from its first two characters (a short line reads as NUL-padded). */
  datatype LineKind = PositionLine | NormalLine | UvLine | FaceLine | OtherLine

  function At(line: string, i: nat): char
  {
    if i < |line| then line[i] else '\0'
  }

  function Kind(line: string): (k: LineKind)
    ensures k == FaceLine ==> |line| >= 1
  {
    if At(line, 0) == 'v' then
      if At(line, 1) == ' ' then PositionLine
      else if At(line, 1) == 'n' then NormalLine
      else if At(line, 1) == 't' then UvLine
      else OtherLine
    else if At(line, 0) == 'f' then FaceLine
    else OtherLine
  }

  /** The layout of a face line: the classification of its first corner. */
  function LineFormat(line: string): Format
    requires Kind(line) == FaceLine
  {
    Classify(FaceTokens(line)[0])
  }

  /**
    * A face line as the second pass reads it: the first corner through the scans of
    * its classification, the other two with the layout's own format, every number not
    * converted left at 0.
    */
  function ParseFace(line: string): (face: Face)
    requires Kind(line) == FaceLine
    ensures Triangle(face)
  {
    var toks := FaceTokens(line);
    var f := Classify(toks[0]);
    FaceFromCorners(FirstCorner(toks[0]), ScanCorner(ZERO, toks[1], f), ScanCorner(ZERO, toks[2], f))
  }

  // ---------------------------------------------------------------------------
  // Writing one face, and reading it back
  // ---------------------------------------------------------------------------

  /** The numbers of corner k that a layout writes. */
  function CornerValues(f: Format, face: Face, k: nat): (vals: seq<int>)
    requires Triangle(face) && k < 3
    ensures |vals| == |Slots(f)|
  {
    seq(|Slots(f)|, n requires 0 <= n < |Slots(f)| => CornerOf(face, k)[Slots(f)[n]])
  }

  /** What a layout keeps of a face: texture and normal numbers it lacks read as 0. */
  function Restrict(f: Format, face: Face): (r: Face)
    requires Triangle(face)
    ensures Triangle(r)
    ensures forall k, j :: 0 <= k < 3 && 0 <= j < 3 ==>
      CornerOf(r, k)[j] == if Carries(f, j) then CornerOf(face, k)[j] else 0
  {
    Face(face.positions,
         if HasTexcoord(f) then face.uvs else ZERO,
         if HasNormal(f) then face.normals else ZERO)
  }

  /** The line an exporter writes for a face in a layout. */
  function FaceLineText(f: Format, face: Face): string
    requires Triangle(face)
  {
    FaceText(CornerText(f, CornerValues(f, face, 0)), CornerText(f, CornerValues(f, face, 1)),
             CornerText(f, CornerValues(f, face, 2)))
  }

  /** Printed text holds only digits, minus signs and the format's literal characters. */
  lemma {:induction false} PrintChars(p: seq<Item>, vals: seq<int>)
    requires |vals| == Conversions(p)
    ensures forall c :: c in Print(p, vals) ==> IsDigit(c) || c == '-' || Lit(c) in p
  {
    if p != [] {
      if p[0].Int? {
        PrintChars(p[1..], vals[1..]);
        forall c | c in Render(vals[0]) ensures IsDigit(c) || c == '-' {
          var k :| 0 <= k < |Render(vals[0])| && Render(vals[0])[k] == c;
        }
      } else {
        PrintChars(p[1..], vals);
      }
      forall c | c in Print(p, vals) ensures IsDigit(c) || c == '-' || Lit(c) in p {
        if Lit(c) in p[1..] {
          var k :| 0 <= k < |p[1..]| && p[1..][k] == Lit(c);
          assert p[k + 1] == Lit(c);
        }
      }
    }
  }

  /** A corner's text is a non-empty token: it holds no space or newline. */
  lemma CornerIsToken(f: Format, vals: seq<int>)
    requires |vals| == |Slots(f)|
    ensures CornerText(f, vals) != []
    ensures forall c :: c in CornerText(f, vals) ==> c !in DELIMS
  {
    CornerNotEmpty(f, vals);
    PatternConversions();
    PrintChars(PatternOf(f), vals);
    PatternLiterals(f);
  }

  lemma CornerNotEmpty(f: Format, vals: seq<int>)
    requires |vals| == |Slots(f)|
    ensures CornerText(f, vals) != []
  {
    PatternConversions();
    assert PatternOf(f) == [Int] + PatternOf(f)[1..];
    PrintConversion(PatternOf(f)[1..], vals);
  }

  /** The only literal character of a layout's pattern is the slash. */
  lemma PatternLiterals(f: Format)
    ensures forall c :: Lit(c) in PatternOf(f) ==> c == '/'
  {
  }

  /**
    * The token after `from` in `pre + tok + rest`, where `pre` ends in delimiters and
    * `rest` is empty or starts with one; the cursor skips that delimiter.
    */
  lemma NextToken(pre: string, tok: string, rest: string, from: nat)
    requires from <= |pre| && forall k :: from <= k < |pre| ==> pre[k] in DELIMS
    requires tok != [] && forall c :: c in tok ==> c !in DELIMS
    requires rest == [] || rest[0] in DELIMS
    ensures StrTok(pre + tok + rest, from, DELIMS) == Step(Some(tok), |pre| + |tok| + if rest == [] then 0 else 1)
  {
    var s := pre + tok + rest;
    forall k | |pre| <= k < |pre| + |tok| ensures s[k] !in DELIMS {
      assert s[k] == tok[k - |pre|];
    }
    StrTokAt(s, from, |pre|, |pre| + |tok|, DELIMS);
    assert s[|pre|..|pre| + |tok|] == tok;
  }

  /** A written face line holds no newline and no NUL. */
  lemma FaceLineChars(f: Format, face: Face)
    requires Triangle(face)
    ensures forall k :: 0 <= k < |FaceLineText(f, face)| ==>
      FaceLineText(f, face)[k] != '\n' && FaceLineText(f, face)[k] != '\0'
  {
    CornerChars(f, CornerValues(f, face, 0));
    CornerChars(f, CornerValues(f, face, 1));
    CornerChars(f, CornerValues(f, face, 2));
    FaceTextChars(CornerText(f, CornerValues(f, face, 0)), CornerText(f, CornerValues(f, face, 1)),
                  CornerText(f, CornerValues(f, face, 2)));
  }

  /** A face line of corners without newlines and NULs has none. */
  lemma FaceTextChars(t0: string, t1: string, t2: string)
    requires forall c :: c in t0 || c in t1 || c in t2 ==> c != '\n' && c != '\0'
    ensures forall k :: 0 <= k < |FaceText(t0, t1, t2)| ==> FaceText(t0, t1, t2)[k] != '\n' && FaceText(t0, t1, t2)[k] != '\0'
  {
    var line := FaceText(t0, t1, t2);
    forall k | 0 <= k < |line| ensures line[k] != '\n' && line[k] != '\0' {
      assert line[k] in line;
    }
  }

  /** A corner's text holds only digits, minus signs and slashes. */
  lemma CornerChars(f: Format, vals: seq<int>)
    requires |vals| == |Slots(f)|
    ensures forall c :: c in CornerText(f, vals) ==> c != '\n' && c != '\0' && c != ' '
  {
    PatternConversions();
    PrintChars(PatternOf(f), vals);
    PatternLiterals(f);
  }

  /** A face line as an exporter writes it, from its three corner tokens, without its newline. */
  function FaceText(t0: string, t1: string, t2: string): string
  {
    "f " + t0 + " " + t1 + " " + t2
  }

  predicate Tokens(t0: string, t1: string, t2: string)
  {
    t0 != [] && t1 != [] && t2 != [] &&
    forall c :: (c in t0 || c in t1 || c in t2) ==> c !in DELIMS
  }

  lemma FirstToken(t0: string, t1: string, t2: string)
    requires Tokens(t0, t1, t2)
    ensures StrTok(FaceText(t0, t1, t2), 1, DELIMS) == Step(Some(t0), |t0| + 3)
  {
    assert FaceText(t0, t1, t2) == "f " + t0 + (" " + t1 + " " + t2);
    NextToken("f ", t0, " " + t1 + " " + t2, 1);
  }

  lemma SecondToken(t0: string, t1: string, t2: string)
    requires Tokens(t0, t1, t2)
    ensures StrTok(FaceText(t0, t1, t2), |t0| + 3, DELIMS) == Step(Some(t1), |t0| + |t1| + 4)
  {
    var p1 := "f " + t0 + " ";
    assert FaceText(t0, t1, t2) == p1 + t1 + (" " + t2);
    NextToken(p1, t1, " " + t2, |p1|);
  }

  lemma ThirdToken(t0: string, t1: string, t2: string)
    requires Tokens(t0, t1, t2)
    ensures StrTok(FaceText(t0, t1, t2), |t0| + |t1| + 4, DELIMS) == Step(Some(t2), |t0| + |t1| + |t2| + 4)
  {
    var p2 := "f " + t0 + " " + t1 + " ";
    assert FaceText(t0, t1, t2) == p2 + t2 + [];
    NextToken(p2, t2, [], |p2|);
  }

  /** The tokens of a written face line are its three corners. */
  lemma FaceTokensOfText(t0: string, t1: string, t2: string)
    requires Tokens(t0, t1, t2)
    ensures Kind(FaceText(t0, t1, t2)) == FaceLine
    ensures FaceTokens(FaceText(t0, t1, t2)) == [t0, t1, t2]
  {
    var line := FaceText(t0, t1, t2);
    assert line[0] == 'f';
    FirstToken(t0, t1, t2);
    SecondToken(t0, t1, t2);
    ThirdToken(t0, t1, t2);
    TokensOfSteps(line, t0, t1, t2);
  }

  /** A line whose three `strtok_r` steps after the `f` give three tokens has them as its face tokens. */
  lemma TokensOfSteps(line: string, t0: string, t1: string, t2: string)
    requires |line| >= 1
    requires StrTok(line, 1, DELIMS) == Step(Some(t0), |t0| + 3)
    requires |t0| + 3 <= |line| && StrTok(line, |t0| + 3, DELIMS) == Step(Some(t1), |t0| + |t1| + 4)
    requires |t0| + |t1| + 4 <= |line| && StrTok(line, |t0| + |t1| + 4, DELIMS) == Step(Some(t2), |t0| + |t1| + |t2| + 4)
    ensures FaceTokens(line) == [t0, t1, t2]
  {
  }

  /** Reading a corner back under its own layout converts every number it wrote. */
  lemma ScanCornerText(f: Format, vals: seq<int>)
    requires |vals| == |Slots(f)|
    ensures ScanCorner(ZERO, CornerText(f, vals), f) == Assign(ZERO, f, vals)
  {
    PatternConversions();
    SscanfPrint(PatternOf(f), vals, []);
    assert CornerText(f, vals) + [] == CornerText(f, vals);
  }

  /** A corner read under its own layout gives back its numbers. */
  lemma ScanOwnPattern(f: Format, vals: seq<int>)
    requires |vals| == |Slots(f)|
    ensures Sscanf(CornerText(f, vals), PatternOf(f)) == vals
  {
    PatternConversions();
    SscanfPrint(PatternOf(f), vals, []);
    assert CornerText(f, vals) + [] == CornerText(f, vals);
  }

  /** The scans of a first corner holding `//` and one number before it. */
  lemma FirstCornerV3N3Of(t: string, vals: seq<int>)
    requires |vals| == 2 && Sscanf(t, PatternOf(V3T2N3)) == vals[..1] && Find(t, "//").Some?
    requires Sscanf(t, PatternOf(V3N3)) == vals
    ensures FirstCorner(t) == Assign(ZERO, V3N3, vals)
  {
    PatternConversions();
    assert ScanCorner(ZERO, t, V3T2N3) == [vals[0], 0, 0];
  }

  /** The scans of a first corner with two numbers and no `//`. */
  lemma FirstCornerV3T2Of(t: string, vals: seq<int>)
    requires |vals| == 2 && Sscanf(t, PatternOf(V3T2N3)) == vals && Find(t, "//").None?
    requires Sscanf(t, PatternOf(V3T2)) == vals
    ensures FirstCorner(t) == Assign(ZERO, V3T2, vals)
  {
    PatternConversions();
    assert ScanCorner(ZERO, t, V3T2N3) == [vals[0], vals[1], 0];
  }

  /** The scans of a first corner with one number and no `//`. */
  lemma FirstCornerV3Of(t: string, vals: seq<int>)
    requires |vals| == 1 && Sscanf(t, PatternOf(V3T2N3)) == vals && Find(t, "//").None?
    requires Sscanf(t, PatternOf(V3T2)) == vals && Sscanf(t, PatternOf(V3)) == vals
    ensures FirstCorner(t) == Assign(ZERO, V3, vals)
  {
    PatternConversions();
    assert ScanCorner(ZERO, t, V3T2N3) == [vals[0], 0, 0];
  }

  lemma FirstCornerV3N3(vals: seq<int>)
    requires |vals| == 2
    ensures FirstCorner(CornerText(V3N3, vals)) == Assign(ZERO, V3N3, vals)
  {
    var t := CornerText(V3N3, vals);
    ClassifyV3N3(vals);
    assert Find(t, "//").Some?;
    ScanOwnPattern(V3N3, vals);
    FirstCornerV3N3Of(t, vals);
  }

  lemma FirstCornerV3T2(vals: seq<int>)
    requires |vals| == 2
    ensures FirstCorner(CornerText(V3T2, vals)) == Assign(ZERO, V3T2, vals)
  {
    var t := CornerText(V3T2, vals);
    ClassifyV3T2(vals);
    assert Find(t, "//").None?;
    FirstCornerV3T2Of(t, vals);
  }

  lemma FirstCornerV3(vals: seq<int>)
    requires |vals| == 1
    ensures FirstCorner(CornerText(V3, vals)) == Assign(ZERO, V3, vals)
  {
    var t := CornerText(V3, vals);
    ClassifyV3(vals);
    assert Find(t, "//").None?;
    ScanOwnPattern(V3, vals);
    FirstCornerV3Of(t, vals);
  }

  /** The first corner's scans, whichever branches they take, convert every number it wrote. */
  lemma FirstCornerText(f: Format, vals: seq<int>)
    requires |vals| == |Slots(f)|
    ensures Classify(CornerText(f, vals)) == f
    ensures FirstCorner(CornerText(f, vals)) == Assign(ZERO, f, vals)
  {
    ClassifyCorner(f, vals);
    match f {
      case V3T2N3 =>
        ScanOwnPattern(V3T2N3, vals);
      case V3N3 => FirstCornerV3N3(vals);
      case V3T2 => FirstCornerV3T2(vals);
      case V3 => FirstCornerV3(vals);
    }
  }

  /** Storing a written corner's numbers into zeros gives the corner restricted to its layout. */
  lemma AssignCornerValues(f: Format, face: Face, k: nat)
    requires Triangle(face) && k < 3
    ensures Assign(ZERO, f, CornerValues(f, face, k)) == CornerOf(Restrict(f, face), k)
  {
    var a := Assign(ZERO, f, CornerValues(f, face, k));
    forall j | 0 <= j < 3 ensures a[j] == CornerOf(Restrict(f, face), k)[j] {
      CarriesIffSlot(f, j);
    }
  }

  /** A face is determined by its three corners. */
  lemma FaceOfCorners(e: Face)
    requires Triangle(e)
    ensures FaceFromCorners(CornerOf(e, 0), CornerOf(e, 1), CornerOf(e, 2)) == e
  {
    var r := FaceFromCorners(CornerOf(e, 0), CornerOf(e, 1), CornerOf(e, 2));
    assert r.positions == e.positions;
    assert r.uvs == e.uvs;
    assert r.normals == e.normals;
  }

  /** A face line is read from its tokens alone. */
  lemma ParseFaceOfTokens(line: string, f: Format, t0: string, t1: string, t2: string)
    requires Kind(line) == FaceLine && FaceTokens(line) == [t0, t1, t2] && Classify(t0) == f
    ensures ParseFace(line) == FaceFromCorners(FirstCorner(t0), ScanCorner(ZERO, t1, f), ScanCorner(ZERO, t2, f))
  {
  }

  /** A written face line reads back as the face, restricted to what its layout carries. */
  lemma ParseFaceLineText(f: Format, face: Face)
    requires Triangle(face)
    ensures Kind(FaceLineText(f, face)) == FaceLine
    ensures LineFormat(FaceLineText(f, face)) == f
    ensures ParseFace(FaceLineText(f, face)) == Restrict(f, face)
  {
    var line := FaceLineText(f, face);
    var v0, v1, v2 := CornerValues(f, face, 0), CornerValues(f, face, 1), CornerValues(f, face, 2);
    var t0, t1, t2 := CornerText(f, v0), CornerText(f, v1), CornerText(f, v2);
    CornerIsToken(f, v0);
    CornerIsToken(f, v1);
    CornerIsToken(f, v2);
    FaceTokensOfText(t0, t1, t2);
    FirstCornerText(f, v0);
    ScanCornerText(f, v1);
    ScanCornerText(f, v2);
    var e := Restrict(f, face);
    AssignCornerValues(f, face, 0);
    AssignCornerValues(f, face, 1);
    AssignCornerValues(f, face, 2);
    ParseFaceOfTokens(line, f, t0, t1, t2);
    FaceOfCorners(e);
  }

  // ---------------------------------------------------------------------------
  // The two passes over a file
  // ---------------------------------------------------------------------------

  /** How many lines are of a kind. */
  function CountOf(lines: seq<string>, kind: LineKind): (n: nat)
    ensures n <= |lines|
  {
    if lines == [] then 0
    else CountOf(lines[..|lines| - 1], kind) + (if Kind(lines[|lines| - 1]) == kind then 1 else 0)
  }

  /** The faces of the file in order, as the second pass reads them. */
  function ParsedFaces(lines: seq<string>): (faces: seq<Face>)
    ensures |faces| == CountOf(lines, FaceLine)
  {
    if lines == [] then []
    else
      var init := ParsedFaces(lines[..|lines| - 1]);
      var last := lines[|lines| - 1];
      if Kind(last) == FaceLine then init + [ParseFace(last)] else init
  }

  /** Every face read has three corners. */
  lemma {:induction false} ParsedTriangles(lines: seq<string>)
    ensures forall i :: 0 <= i < |ParsedFaces(lines)| ==> Triangle(ParsedFaces(lines)[i])
  {
    if lines != [] {
      ParsedTriangles(lines[..|lines| - 1]);
    }
  }

  /** The layout of the last face line, which the first pass keeps; none without faces. */
  function LastFormat(lines: seq<string>): (r: Option<Format>)
    ensures r.None? <==> CountOf(lines, FaceLine) == 0
  {
    if lines == [] then None
    else
      var last := lines[|lines| - 1];
      if Kind(last) == FaceLine then Some(LineFormat(last)) else LastFormat(lines[..|lines| - 1])
  }

  /** A file after both passes: the array sizes, the faces and the layout reported. */
  datatype Wavefront = Wavefront(numPositions: nat, numNormals: nat, numUvs: nat, faces: seq<Face>, vf: Format)

  /**
    * `update_wavefront_info` stops the program when the file has no face; `load_wavefront`
    * returns -1 for a null stream; a last line without a newline is an error here.
    */
  datatype LoadError = UnknownVertexFormat | NoStream | UnterminatedLine

  /**
    * The two passes: the counts and layout of the first, the faces of the second. A
    * file without a face line has no layout, which is fatal.
    */
  function Read(lines: seq<string>): (r: Result<Wavefront, LoadError>)
    ensures r.Err? <==> CountOf(lines, FaceLine) == 0
    ensures r.Ok? ==> |r.value.faces| >= 1
  {
    match LastFormat(lines)
    case None => Err(UnknownVertexFormat)
    case Some(vf) =>
      Ok(Wavefront(CountOf(lines, PositionLine), CountOf(lines, NormalLine), CountOf(lines, UvLine),
                   ParsedFaces(lines), vf))
  }

  // ---------------------------------------------------------------------------
  // Writing a whole file, and reading it back
  // ---------------------------------------------------------------------------

  /** A line of an OBJ file as an exporter writes it; coordinates do not matter here. */
  datatype ObjLine = PositionDecl | NormalDecl | UvDecl | FaceDecl(format: Format, face: Face) | Comment(text: string)

  predicate WellFormed(obj: seq<ObjLine>)
  {
    forall i :: 0 <= i < |obj| && obj[i].FaceDecl? ==> Triangle(obj[i].face)
  }

  /** A line as `rwgets` hands it to the passes: without its newline. */
  function LineText(x: ObjLine): string
    requires x.FaceDecl? ==> Triangle(x.face)
  {
    match x
    case PositionDecl => "v 0.0 0.0 0.0"
    case NormalDecl => "vn 0.0 0.0 1.0"
    case UvDecl => "vt 0.0 0.0"
    case FaceDecl(f, face) => FaceLineText(f, face)
    case Comment(t) => "# " + t
  }

  /** The lines of a written file. */
  function Lines(obj: seq<ObjLine>): (lines: seq<string>)
    requires WellFormed(obj)
    ensures |lines| == |obj|
  {
    seq(|obj|, i requires 0 <= i < |obj| && WellFormed(obj) => LineText(obj[i]))
  }

  function KindOf(x: ObjLine): LineKind
  {
    match x
    case PositionDecl => PositionLine
    case NormalDecl => NormalLine
    case UvDecl => UvLine
    case FaceDecl(_, _) => FaceLine
    case Comment(_) => OtherLine
  }

  function Declared(obj: seq<ObjLine>, kind: LineKind): nat
  {
    if obj == [] then 0
    else Declared(obj[..|obj| - 1], kind) + (if KindOf(obj[|obj| - 1]) == kind then 1 else 0)
  }

  /** The faces of a written file, as much of each as its layout carries. */
  function FacesOf(obj: seq<ObjLine>): (faces: seq<Face>)
    requires WellFormed(obj)
  {
    if obj == [] then []
    else
      var init := FacesOf(obj[..|obj| - 1]);
      match obj[|obj| - 1]
      case FaceDecl(f, face) => init + [Restrict(f, face)]
      case _ => init
  }

  function LastDeclared(obj: seq<ObjLine>): Option<Format>
  {
    if obj == [] then None
    else
      match obj[|obj| - 1]
      case FaceDecl(f, _) => Some(f)
      case _ => LastDeclared(obj[..|obj| - 1])
  }

  /** Each written line is read as the kind it was written as. */
  lemma KindOfLineText(x: ObjLine)
    requires x.FaceDecl? ==> Triangle(x.face)
    ensures Kind(LineText(x)) == KindOf(x)
    ensures x.FaceDecl? ==> LineFormat(LineText(x)) == x.format && ParseFace(LineText(x)) == Restrict(x.format, x.face)
  {
    match x
    case FaceDecl(f, face) => ParseFaceLineText(f, face);
    case Comment(t) => CommentKind(t);
    case _ =>
  }

  lemma CommentKind(t: string)
    ensures Kind("# " + t) == OtherLine
  {
    assert ("# " + t)[0] == '#';
  }

  lemma LinesPrefix(obj: seq<ObjLine>)
    requires WellFormed(obj) && obj != []
    ensures WellFormed(obj[..|obj| - 1])
    ensures Lines(obj)[..|obj| - 1] == Lines(obj[..|obj| - 1])
    ensures Lines(obj)[|obj| - 1] == LineText(obj[|obj| - 1])
  {
  }

  /**
    * Reading a written file back gives the counts that were declared, the faces that
    * were written (restricted to their layouts), and the layout of the last face.
    */
  lemma {:induction false} ReadLinesOf(obj: seq<ObjLine>)
    requires WellFormed(obj)
    ensures CountOf(Lines(obj), PositionLine) == Declared(obj, PositionLine)
    ensures CountOf(Lines(obj), NormalLine) == Declared(obj, NormalLine)
    ensures CountOf(Lines(obj), UvLine) == Declared(obj, UvLine)
    ensures CountOf(Lines(obj), FaceLine) == Declared(obj, FaceLine)
    ensures ParsedFaces(Lines(obj)) == FacesOf(obj)
    ensures LastFormat(Lines(obj)) == LastDeclared(obj)
  {
    if obj != [] {
      var init := obj[..|obj| - 1];
      LinesPrefix(obj);
      ReadLinesOf(init);
      KindOfLineText(obj[|obj| - 1]);
    }
  }

  /** The round trip for a whole file, through `Read`. */
  lemma ReadWritten(obj: seq<ObjLine>)
    requires WellFormed(obj)
    ensures Read(Lines(obj)).Err? <==> LastDeclared(obj).None?
    ensures Read(Lines(obj)).Ok? ==> (Read(Lines(obj)).value ==
      Wavefront(Declared(obj, PositionLine), Declared(obj, NormalLine), Declared(obj, UvLine),
                FacesOf(obj), LastDeclared(obj).value))
  {
    ReadLinesOf(obj);
  }

  // ---------------------------------------------------------------------------
  // Building the vertex and index arrays
  // ---------------------------------------------------------------------------

  /** The array a vertex attribute is copied from. */
  datatype Src = Positions | Normals | Uvs

  /** An attribute: element `index` of an array (the face's 1-based number minus one). */
  datatype Ref = Ref(src: Src, index: int)

  /** A vertex: its position and, as the layout has them, texture coordinates and normal. */
  datatype Vertex = Vertex(position: Ref, texcoord: Option<Ref>, normal: Option<Ref>)

  /** What `load_wavefront` hands back: the layout, the arrays and their counts. */
  datatype Loaded = Loaded(vf: int, vertices: seq<Vertex>, indices: seq<int>, verticesNum: int, indicesNum: int)

  predicate Triangles(w: Wavefront)
  {
    forall i :: 0 <= i < |w.faces| ==> Triangle(w.faces[i])
  }

  /** Corner k of a face as a vertex, with attributes copied from the given arrays. */
  function VertexOf(vf: Format, face: Face, k: nat, texSrc: Src, normSrc: Src): Vertex
    requires Triangle(face) && k < 3
  {
    Vertex(Ref(Positions, face.positions[k] - 1),
           if HasTexcoord(vf) then Some(Ref(texSrc, face.uvs[k] - 1)) else None,
           if HasNormal(vf) then Some(Ref(normSrc, face.normals[k] - 1)) else None)
  }

  /** Three vertices for each of the first `count` faces. */
  function Expand(w: Wavefront, count: nat, texSrc: Src, normSrc: Src): (vs: seq<Vertex>)
    requires Triangles(w) && count <= |w.faces|
    ensures |vs| == 3 * count
  {
    seq(3 * count, j requires 0 <= j < 3 * count => VertexOf(w.vf, w.faces[j / 3], j % 3, texSrc, normSrc))
  }

  /** `indices[i] = i` stored as `unsigned short`. */
  function IdentityIndices(n: nat): (ix: seq<int>)
    ensures |ix| == n
    ensures forall j :: 0 <= j < n ==> 0 <= ix[j] < U16_LIMIT && (ix[j] - j) % U16_LIMIT == 0
  {
    seq(n, j requires 0 <= j < n => U16(j) as int)
  }

  /**
    * The builders as written: `count = num_faces - 1` faces, and texture coordinates and
    * normals copied out of the positions array.
    */
  function BuildAsWritten(w: Wavefront): (r: Loaded)
    requires Triangles(w) && |w.faces| >= 1
    ensures r.vf == Code(w.vf)
    ensures r.verticesNum == r.indicesNum == |r.vertices| == |r.indices| == 3 * (|w.faces| - 1)
  {
    var count := |w.faces| - 1;
    Loaded(Code(w.vf), Expand(w, count, Positions, Positions), IdentityIndices(3 * count), 3 * count, 3 * count)
  }

  /** Vertex v is corner k of face i, its attributes taken from their own arrays. */
  predicate FromCorner(v: Vertex, w: Wavefront, i: nat, k: nat)
    requires Triangles(w) && i < |w.faces| && k < 3
  {
    var face := w.faces[i];
    v.position == Ref(Positions, face.positions[k] - 1) &&
    (v.texcoord.Some? <==> HasTexcoord(w.vf)) && (v.texcoord.Some? ==> v.texcoord.value == Ref(Uvs, face.uvs[k] - 1)) &&
    (v.normal.Some? <==> HasNormal(w.vf)) && (v.normal.Some? ==> v.normal.value == Ref(Normals, face.normals[k] - 1))
  }

  /** The builders as intended: every face, and every attribute from its own array. */
  function Build(w: Wavefront): (r: Loaded)
    requires Triangles(w)
    ensures r.vf == Code(w.vf)
    ensures r.verticesNum == r.indicesNum == |r.vertices| == |r.indices| == 3 * |w.faces|
    ensures forall j :: 0 <= j < |r.vertices| ==> FromCorner(r.vertices[j], w, j / 3, j % 3)
  {
    var count := |w.faces|;
    Loaded(Code(w.vf), Expand(w, count, Uvs, Normals), IdentityIndices(3 * count), 3 * count, 3 * count)
  }

  function Size(w: Wavefront, src: Src): nat
  {
    match src
    case Positions => w.numPositions
    case Normals => w.numNormals
    case Uvs => w.numUvs
  }

  predicate InRange(w: Wavefront, r: Ref)
  {
    0 <= r.index < Size(w, r.src)
  }

  predicate RefsInRange(w: Wavefront, v: Vertex)
  {
    InRange(w, v.position) &&
    (v.texcoord.Some? ==> InRange(w, v.texcoord.value)) &&
    (v.normal.Some? ==> InRange(w, v.normal.value))
  }

  /** Every number a face uses is between 1 and the size of the array it indexes. */
  predicate Numbered(w: Wavefront)
    requires Triangles(w)
  {
    forall i, k :: 0 <= i < |w.faces| && 0 <= k < 3 ==>
      1 <= w.faces[i].positions[k] <= w.numPositions &&
      (HasTexcoord(w.vf) ==> 1 <= w.faces[i].uvs[k] <= w.numUvs) &&
      (HasNormal(w.vf) ==> 1 <= w.faces[i].normals[k] <= w.numNormals)
  }

  /** The built vertices only reference existing elements exactly when the faces are numbered within the arrays. */
  lemma BuildInRangeIffNumbered(w: Wavefront)
    requires Triangles(w)
    ensures (forall j :: 0 <= j < |Build(w).vertices| ==> RefsInRange(w, Build(w).vertices[j])) <==> Numbered(w)
  {
    var vs := Build(w).vertices;
    if Numbered(w) {
      forall j | 0 <= j < |vs| ensures RefsInRange(w, vs[j]) {
        assert FromCorner(vs[j], w, j / 3, j % 3);
      }
    } else {
      var i, k :| 0 <= i < |w.faces| && 0 <= k < 3 && !(
        1 <= w.faces[i].positions[k] <= w.numPositions &&
        (HasTexcoord(w.vf) ==> 1 <= w.faces[i].uvs[k] <= w.numUvs) &&
        (HasNormal(w.vf) ==> 1 <= w.faces[i].normals[k] <= w.numNormals));
      var j := 3 * i + k;
      assert j / 3 == i && j % 3 == k;
      assert FromCorner(vs[j], w, i, k);
      assert !RefsInRange(w, vs[j]);
    }
  }

  /**
    * With fewer than 65536 vertices the index array is the identity, so as a triangle
    * list with 16-bit indices every index drawn addresses a built vertex.
    */
  lemma BuildDrawable(w: Wavefront)
    requires Triangles(w) && 3 * |w.faces| <= U16_LIMIT
    ensures forall j :: 0 <= j < Build(w).indicesNum ==> Build(w).indices[j] == j
    ensures var r := Build(w);
      Vertices.Drawable(Vertices.Mesh(r.verticesNum, r.indices, r.indicesNum,
                                      Vertices.Desc(Vertices.GL_TRIANGLES, r.vf, Vertices.IF_UI16)))
  {
  }

  /** `load_wavefront` as written, on the lines both passes read. */
  function LoadLinesAsWritten(lines: seq<string>): (r: Result<Loaded, LoadError>)
    ensures r.Err? <==> CountOf(lines, FaceLine) == 0
    ensures r.Ok? ==> r.value.verticesNum == 3 * (CountOf(lines, FaceLine) - 1)
  {
    match Read(lines)
    case Err(e) => Err(e)
    case Ok(w) =>
      ParsedTriangles(lines);
      Ok(BuildAsWritten(w))
  }

  /** `load_wavefront` with the corrected builders, on the lines both passes read. */
  function LoadLines(lines: seq<string>): (r: Result<Loaded, LoadError>)
    ensures r.Err? <==> CountOf(lines, FaceLine) == 0
    ensures r.Ok? ==> r.value.verticesNum == 3 * CountOf(lines, FaceLine)
  {
    match Read(lines)
    case Err(e) => Err(e)
    case Ok(w) =>
      ParsedTriangles(lines);
      Ok(Build(w))
  }

  /** The size of the buffer both passes hand to `rwgets`. */
  const WAVEFRONT_READ_BUFFER_SIZE: nat := 256

  /**
    * The lines both passes read from a stream: -1 for a null stream; otherwise the
    * lines `rwgets` yields until the end of the stream (the second pass seeks back to
    * the start and reads the same lines).
    */
  function ReadFile(file: Option<string>): (r: Result<seq<string>, LoadError>)
    ensures file.None? <==> r == Err(NoStream)
    ensures r == Err(UnterminatedLine) <==>
      file.Some? && !ReadLines(Stream(file.value, 0), WAVEFRONT_READ_BUFFER_SIZE).1
    ensures r.Ok? ==> ReadLines(Stream(file.value, 0), WAVEFRONT_READ_BUFFER_SIZE) == (r.value, true)
  {
    match file
    case None => Err(NoStream)
    case Some(data) =>
      var read := ReadLines(Stream(data, 0), WAVEFRONT_READ_BUFFER_SIZE);
      if !read.1 then Err(UnterminatedLine) else Ok(read.0)
  }

  /** `load_wavefront` on a stream, as written. */
  function LoadAsWritten(file: Option<string>): (r: Result<Loaded, LoadError>)
    ensures file.None? <==> r == Err(NoStream)
    ensures var read := ReadLines(Stream(if file.Some? then file.value else [], 0), WAVEFRONT_READ_BUFFER_SIZE);
      (r == Err(UnterminatedLine) <==> file.Some? && !read.1) &&
      (r == Err(UnknownVertexFormat) <==> file.Some? && read.1 && CountOf(read.0, FaceLine) == 0) &&
      (r.Ok? ==> r.value.verticesNum == 3 * (CountOf(read.0, FaceLine) - 1))
  {
    match ReadFile(file)
    case Err(e) => Err(e)
    case Ok(lines) => LoadLinesAsWritten(lines)
  }

  /** `load_wavefront` on a stream, with the corrected builders. */
  function Load(file: Option<string>): (r: Result<Loaded, LoadError>)
    ensures file.None? <==> r == Err(NoStream)
    ensures var read := ReadLines(Stream(if file.Some? then file.value else [], 0), WAVEFRONT_READ_BUFFER_SIZE);
      (r == Err(UnterminatedLine) <==> file.Some? && !read.1) &&
      (r == Err(UnknownVertexFormat) <==> file.Some? && read.1 && CountOf(read.0, FaceLine) == 0) &&
      (r.Ok? ==> r.value.verticesNum == 3 * CountOf(read.0, FaceLine))
  {
    match ReadFile(file)
    case Err(e) => Err(e)
    case Ok(lines) => LoadLines(lines)
  }

  /** A written file as a stream: its lines, each ended by a newline. */
  function FileText(obj: seq<ObjLine>): string
    requires WellFormed(obj)
  {
    Join(Lines(obj))
  }

  /** A written file whose every line `rwgets` reads whole. */
  predicate Readable(obj: seq<ObjLine>)
  {
    WellFormed(obj) && forall i :: 0 <= i < |obj| ==> LineFits(LineText(obj[i]), WAVEFRONT_READ_BUFFER_SIZE)
  }

  /** What both passes read from a written file with a face. */
  function Written(obj: seq<ObjLine>): (w: Wavefront)
    requires WellFormed(obj) && LastDeclared(obj).Some?
    ensures Triangles(w) && |w.faces| >= 1
    ensures Read(Lines(obj)) == Ok(w)
  {
    ReadWritten(obj);
    ParsedTriangles(Lines(obj));
    Wavefront(Declared(obj, PositionLine), Declared(obj, NormalLine), Declared(obj, UvLine),
              FacesOf(obj), LastDeclared(obj).value)
  }

  /**
    * The round trip through the stream: a written file whose lines fit the buffer is
    * read back line for line, and both loaders build from what was written; without a
    * face the load is fatal.
    */
  lemma LoadWrittenFile(obj: seq<ObjLine>)
    requires Readable(obj)
    ensures ReadLines(Stream(FileText(obj), 0), WAVEFRONT_READ_BUFFER_SIZE) == (Lines(obj), true)
    ensures LastDeclared(obj).None? ==> Load(Some(FileText(obj))) == LoadAsWritten(Some(FileText(obj))) == Err(UnknownVertexFormat)
    ensures LastDeclared(obj).Some? ==> Load(Some(FileText(obj))) == Ok(Build(Written(obj)))
    ensures LastDeclared(obj).Some? ==> LoadAsWritten(Some(FileText(obj))) == Ok(BuildAsWritten(Written(obj)))
  {
    ReadLinesOfJoin(Stream(FileText(obj), 0), WAVEFRONT_READ_BUFFER_SIZE, Lines(obj));
    ReadWritten(obj);
  }

  /** Two `v//n` faces over one position and two normals, both using normal 2. */
  const SAMPLE_FACE: Face := Face([1, 1, 1], [0, 0, 0], [2, 2, 2])
  const SAMPLE: seq<ObjLine> := [PositionDecl, NormalDecl, NormalDecl, FaceDecl(V3N3, SAMPLE_FACE), FaceDecl(V3N3, SAMPLE_FACE)]

  lemma DeclaredSnoc(obj: seq<ObjLine>, x: ObjLine)
    ensures Declared(obj + [x], PositionLine) == Declared(obj, PositionLine) + (if x.PositionDecl? then 1 else 0)
    ensures Declared(obj + [x], NormalLine) == Declared(obj, NormalLine) + (if x.NormalDecl? then 1 else 0)
    ensures Declared(obj + [x], UvLine) == Declared(obj, UvLine) + (if x.UvDecl? then 1 else 0)
  {
    assert (obj + [x])[..|obj|] == obj;
  }

  lemma FacesOfSnoc(obj: seq<ObjLine>, x: ObjLine)
    requires WellFormed(obj) && (x.FaceDecl? ==> Triangle(x.face))
    ensures WellFormed(obj + [x])
    ensures FacesOf(obj + [x]) == FacesOf(obj) + (if x.FaceDecl? then [Restrict(x.format, x.face)] else [])
    ensures LastDeclared(obj + [x]) == if x.FaceDecl? then Some(x.format) else LastDeclared(obj)
  {
    assert (obj + [x])[..|obj|] == obj;
  }

  lemma SampleCounts()
    ensures Declared(SAMPLE, PositionLine) == 1 && Declared(SAMPLE, NormalLine) == 2 && Declared(SAMPLE, UvLine) == 0
  {
    var f := FaceDecl(V3N3, SAMPLE_FACE);
    var s0: seq<ObjLine> := [];
    DeclaredSnoc(s0, PositionDecl);
    var s1 := s0 + [PositionDecl];
    DeclaredSnoc(s1, NormalDecl);
    var s2 := s1 + [NormalDecl];
    DeclaredSnoc(s2, NormalDecl);
    var s3 := s2 + [NormalDecl];
    DeclaredSnoc(s3, f);
    var s4 := s3 + [f];
    DeclaredSnoc(s4, f);
    assert s4 + [f] == SAMPLE;
  }

  lemma SampleFaces()
    ensures WellFormed(SAMPLE)
    ensures FacesOf(SAMPLE) == [SAMPLE_FACE, SAMPLE_FACE] && LastDeclared(SAMPLE) == Some(V3N3)
  {
    var f := FaceDecl(V3N3, SAMPLE_FACE);
    var s0: seq<ObjLine> := [];
    FacesOfSnoc(s0, PositionDecl);
    var s1 := s0 + [PositionDecl];
    FacesOfSnoc(s1, NormalDecl);
    var s2 := s1 + [NormalDecl];
    FacesOfSnoc(s2, NormalDecl);
    var s3 := s2 + [NormalDecl];
    FacesOfSnoc(s3, f);
    var s4 := s3 + [f];
    FacesOfSnoc(s4, f);
    assert s4 + [f] == SAMPLE;
    assert Restrict(V3N3, SAMPLE_FACE) == SAMPLE_FACE;
  }

  lemma SampleRead()
    ensures WellFormed(SAMPLE)
    ensures Read(Lines(SAMPLE)) == Ok(Wavefront(1, 2, 0, [SAMPLE_FACE, SAMPLE_FACE], V3N3))
  {
    SampleFaces();
    SampleCounts();
    ReadWritten(SAMPLE);
  }

  /** What both passes read from the sample. */
  const SAMPLE_READ: Wavefront := Wavefront(1, 2, 0, [SAMPLE_FACE, SAMPLE_FACE], V3N3)

  lemma SampleLoads()
    ensures WellFormed(SAMPLE) && Triangles(SAMPLE_READ)
    ensures LoadLinesAsWritten(Lines(SAMPLE)) == Ok(BuildAsWritten(SAMPLE_READ))
    ensures LoadLines(Lines(SAMPLE)) == Ok(Build(SAMPLE_READ))
  {
    SampleRead();
    ParsedTriangles(Lines(SAMPLE));
  }

  lemma SampleBuilds()
    ensures Triangles(SAMPLE_READ) && Numbered(SAMPLE_READ)
    ensures BuildAsWritten(SAMPLE_READ).verticesNum == 3
    ensures BuildAsWritten(SAMPLE_READ).vertices[0].normal == Some(Ref(Positions, 1))
    ensures !InRange(SAMPLE_READ, Ref(Positions, 1))
    ensures Build(SAMPLE_READ).verticesNum == 6
    ensures Build(SAMPLE_READ).vertices[0].normal == Some(Ref(Normals, 1))
    ensures InRange(SAMPLE_READ, Ref(Normals, 1))
  {
    assert BuildAsWritten(SAMPLE_READ).vertices[0] == VertexOf(V3N3, SAMPLE_FACE, 0, Positions, Positions);
  }

  /**
    * The written sample shows both defects: the as-written load builds one face of two,
    * and its first normal is element 1 of the one-element positions array; the corrected
    * load builds both faces with the normal taken from the normals array, in range.
    */
  lemma WavefrontAsWrittenDropsFaceAndMisreadsNormals()
    ensures WellFormed(SAMPLE)
    ensures var r := LoadAsWritten(Some(FileText(SAMPLE)));
      r.Ok? && r.value.verticesNum == 3 && r.value.vertices[0].normal == Some(Ref(Positions, 1))
    ensures var r := Load(Some(FileText(SAMPLE)));
      r.Ok? && r.value.verticesNum == 6 && r.value.vertices[0].normal == Some(Ref(Normals, 1))
    ensures Read(Lines(SAMPLE)) == Ok(SAMPLE_READ) && Triangles(SAMPLE_READ)
    ensures Numbered(SAMPLE_READ) && !InRange(SAMPLE_READ, Ref(Positions, 1))
  {
    SampleRead();
    SampleReadable();
    LoadWrittenFile(SAMPLE);
    SampleBuilds();
  }

  /** Every line of the sample fits the buffer; its face line is `f 1//2 1//2 1//2`. */
  lemma SampleReadable()
    ensures Readable(SAMPLE)
  {
    SampleFaces();
    DeclarationsFit();
    SampleFaceFits();
    forall i | 0 <= i < |SAMPLE| ensures LineFits(LineText(SAMPLE[i]), WAVEFRONT_READ_BUFFER_SIZE) {
      assert SAMPLE[i] in {PositionDecl, NormalDecl, FaceDecl(V3N3, SAMPLE_FACE)};
    }
  }

  lemma DeclarationsFit()
    ensures LineFits(LineText(PositionDecl), WAVEFRONT_READ_BUFFER_SIZE)
    ensures LineFits(LineText(NormalDecl), WAVEFRONT_READ_BUFFER_SIZE)
  {
  }

  lemma SampleFaceFits()
    ensures Triangle(SAMPLE_FACE) && LineFits(LineText(FaceDecl(V3N3, SAMPLE_FACE)), WAVEFRONT_READ_BUFFER_SIZE)
  {
    SampleFaceLine();
    FaceLineChars(V3N3, SAMPLE_FACE);
    assert |FaceLineText(V3N3, SAMPLE_FACE)| == 16;
  }

  lemma SampleFaceLine()
    ensures FaceLineText(V3N3, SAMPLE_FACE) == "f 1//2 1//2 1//2"
  {
    SampleCorner(0);
    SampleCorner(1);
    SampleCorner(2);
  }

  lemma SampleCorner(k: nat)
    requires k < 3
    ensures CornerText(V3N3, CornerValues(V3N3, SAMPLE_FACE, k)) == "1//2"
  {
    var vals := CornerValues(V3N3, SAMPLE_FACE, k);
    assert Slots(V3N3) == [0, 2];
    assert vals[0] == CornerOf(SAMPLE_FACE, k)[0] == 1;
    assert vals[1] == CornerOf(SAMPLE_FACE, k)[2] == 2;
    assert vals == [1, 2];
    assert Render(1) == "1" && Render(2) == "2";
    assert CornerText(V3N3, [1, 2]) == "1//2";
  }

}
