/**
  * Text reading over an SDL stream (neon/src/core/rwtext.c): end-of-stream test,
  * character read, and the `fgets`-like line read every text parser of the engine uses.
  */
module RwText {
  import opened Wrappers

  /** An opened stream: its whole contents and the current read position. */
  datatype Stream = Stream(data: string, pos: nat)
  {
    predicate Valid() { pos <= |data| }
  }

  /** `rweof`: the position equals the stream size. */
  predicate RwEof(s: Stream)
  {
    s.pos == |s.data|
  }

  const EOF: int := -1

  /**
    * `rwgetc` reads one byte into a plain `char`, which is signed, so bytes from 0x80
    * upward come back negative; EOF at the end of the stream.
    */
  function RwGetc(s: Stream): (r: (int, Stream))
    requires s.Valid()
    ensures RwEof(s) ==> r == (EOF, s)
    ensures !RwEof(s) ==> r.1 == Stream(s.data, s.pos + 1) && (r.0 as int - s.data[s.pos] as int) % 256 == 0
    ensures -128 <= r.0 < 128
  {
    if RwEof(s) then (EOF, s)
    else
      var b := s.data[s.pos] as int % 256;
      (if b >= 128 then b - 256 else b, Stream(s.data, s.pos + 1))
  }

  /** A byte 0xFF read by `rwgetc` cannot be told apart from the end of the stream. */
  lemma RwGetcByteFFIsEof(data: string)
    requires |data| > 0 && data[0] == 0xFF as char
    ensures RwGetc(Stream(data, 0)).0 == EOF && !RwEof(Stream(data, 0))
  {
  }

  datatype LineError = NoNewline

  /** The `count` bytes `rwgets` reads at the current position (fewer near the end). */
  function Window(s: Stream, count: nat): (w: string)
    requires s.Valid()
    ensures |w| <= count && s.pos + |w| <= |s.data|
    ensures w == s.data[s.pos .. s.pos + |w|]
    ensures |w| == count || s.pos + |w| == |s.data|
  {
    if s.pos + count <= |s.data| then s.data[s.pos .. s.pos + count] else s.data[s.pos..]
  }

  /** Index of the first newline of `w`, provided no NUL comes before it (`strchr`). */
  function NewlineBeforeNul(w: string, from: nat := 0): (r: Option<nat>)
    ensures r.Some? ==> from <= r.value < |w| && w[r.value] == '\n'
    ensures r.Some? ==> forall k :: from <= k < r.value ==> w[k] != '\n' && w[k] != '\0'
    ensures r.None? ==> forall k :: from <= k < |w| && w[k] == '\n' ==> !NulFree(w, from, k)
    decreases |w| - from
  {
    if from >= |w| || w[from] == '\0' then None
    else if w[from] == '\n' then Some(from)
    else NewlineBeforeNul(w, from + 1)
  }

  predicate NulFree(w: string, from: nat, to: nat)
    requires to <= |w|
  {
    forall j :: from <= j < to ==> w[j] != '\0'
  }

  /**
    * `rwgets`: reads `count` bytes, cuts them at the first newline, and seeks back to
    * just after it. When the bytes read hold no newline before a NUL the source
    * computes the seek position from a null pointer; that case is an error here.
    */
  function RwGets(s: Stream, count: nat): (r: Result<(string, Stream), LineError>)
    requires s.Valid()
    ensures r.Ok? ==> r.value.1.data == s.data && r.value.1.pos == s.pos + |r.value.0| + 1
    ensures r.Ok? ==> |r.value.0| < count && s.pos + |r.value.0| < |s.data|
    ensures r.Ok? ==> s.data[s.pos .. s.pos + |r.value.0|] == r.value.0
    ensures r.Ok? ==> s.data[s.pos + |r.value.0|] == '\n'
    ensures r.Ok? ==> forall k :: 0 <= k < |r.value.0| ==> r.value.0[k] != '\n' && r.value.0[k] != '\0'
    ensures r.Err? <==> NewlineBeforeNul(Window(s, count)).None?
  {
    var w := Window(s, count);
    match NewlineBeforeNul(w)
    case None => Err(NoNewline)
    case Some(k) => Ok((w[..k], Stream(s.data, s.pos + k + 1)))
  }

  /** Lines joined back with their newlines. */
  function Join(lines: seq<string>): string
  {
    if lines == [] then [] else lines[0] + "\n" + Join(lines[1..])
  }

  /**
    * The `while (!rweof) rwgets(...)` loop of the parsers: the lines read until the
    * end of the stream, and whether the end was reached by whole lines.
    */
  function ReadLines(s: Stream, count: nat): (r: (seq<string>, bool))
    requires s.Valid()
    ensures forall i :: 0 <= i < |r.0| ==> |r.0[i]| < count
    decreases |s.data| - s.pos
  {
    if RwEof(s) then ([], true)
    else
      var g := RwGets(s, count);
      if g.Err? then ([], false)
      else
        var rest := ReadLines(g.value.1, count);
        ([g.value.0] + rest.0, rest.1)
  }

  /** The joined lines are a prefix of the unread contents, all of them when `complete`. */
  predicate JoinsUnread(s: Stream, lines: seq<string>, complete: bool)
    requires s.Valid()
  {
    IsPrefix(Join(lines), s.data[s.pos..]) && (complete ==> Join(lines) == s.data[s.pos..])
  }

  predicate IsPrefix(p: string, x: string)
  {
    |p| <= |x| && x[..|p|] == p
  }

  /**
    * When the stream ends with a newline and no line is too long, re-joining the
    * lines read gives back the stream's unread contents; otherwise they give a prefix.
    */
  lemma {:induction false} ReadLinesJoin(s: Stream, count: nat)
    requires s.Valid()
    ensures JoinsUnread(s, ReadLines(s, count).0, ReadLines(s, count).1)
    decreases |s.data| - s.pos
  {
    if !RwEof(s) {
      var g := RwGets(s, count);
      if g.Ok? {
        var line, s' := g.value.0, g.value.1;
        ReadLinesJoin(s', count);
        var rest := ReadLines(s', count);
        var lines := ReadLines(s, count).0;
        assert lines[1..] == rest.0;
        assert Join(lines) == (line + "\n") + Join(rest.0);
        UnreadSplits(s, count);
        PrefixExtend(line + "\n", Join(rest.0), s'.data[s'.pos..]);
      }
    }
  }

  /** A line `rwgets` reads whole with a buffer of `count` bytes: shorter than the buffer, no newline or NUL. */
  predicate LineFits(line: string, count: nat)
  {
    |line| < count && forall k :: 0 <= k < |line| ==> line[k] != '\n' && line[k] != '\0'
  }

  /**
    * A stream whose unread contents are lines joined with newlines, each of which fits
    * the buffer, is read back as exactly those lines, up to the end of the stream.
    */
  lemma {:induction false} ReadLinesOfJoin(s: Stream, count: nat, lines: seq<string>)
    requires s.Valid() && s.data[s.pos..] == Join(lines)
    requires forall i :: 0 <= i < |lines| ==> LineFits(lines[i], count)
    ensures ReadLines(s, count) == (lines, true)
    decreases |lines|
  {
    if lines == [] {
      assert RwEof(s);
    } else {
      var line := lines[0];
      assert LineFits(line, count);
      var d := s.data;
      var k := |line|;
      assert d[s.pos..] == line + ("\n" + Join(lines[1..]));
      assert d[s.pos + k] == d[s.pos..][k] == '\n';
      var w := Window(s, count);
      assert k < |w|;
      forall j | 0 <= j <= k ensures w[j] == d[s.pos..][j] {
      }
      NewlineAt(w, k, 0);
      var s' := Stream(d, s.pos + k + 1);
      assert w[..k] == line;
      assert RwGets(s, count) == Ok((line, s'));
      assert d[s'.pos..] == d[s.pos..][k + 1..] == Join(lines[1..]);
      ReadLinesOfJoin(s', count, lines[1..]);
      assert !RwEof(s);
      assert [line] + lines[1..] == lines;
    }
  }

  /** `strchr` stops at a newline when nothing before it is a newline or NUL. */
  lemma {:induction false} NewlineAt(w: string, k: nat, from: nat)
    requires from <= k < |w| && w[k] == '\n'
    requires forall j :: from <= j < k ==> w[j] != '\n' && w[j] != '\0'
    ensures NewlineBeforeNul(w, from) == Some(k)
    decreases k - from
  {
    if from < k {
      NewlineAt(w, k, from + 1);
    }
  }

  lemma UnreadSplits(s: Stream, count: nat)
    requires s.Valid() && RwGets(s, count).Ok?
    ensures s.data[s.pos..] == (RwGets(s, count).value.0 + "\n") + s.data[RwGets(s, count).value.1.pos..]
  {
    var g := RwGets(s, count).value;
    SplitAtNewline(s.data, s.pos, s.pos + |g.0|);
  }

  /** Text from `from` split at the newline at `k`. */
  lemma SplitAtNewline(d: string, from: nat, k: nat)
    requires from <= k < |d| && d[k] == '\n'
    ensures d[from..] == (d[from..k] + "\n") + d[k + 1..]
  {
    assert d[k..] == [d[k]] + d[k + 1..];
    assert d[from..] == d[from..k] + d[k..];
  }

  lemma PrefixExtend(p: string, j: string, x: string)
    requires IsPrefix(j, x)
    ensures IsPrefix(p + j, p + x)
  {
    assert (p + x)[..|p + j|] == p + x[..|j|];
  }
}
