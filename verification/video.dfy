/**
  * Display modes and window flags (neon/src/core/video.c): the mode list is read
  * from the display, duplicates are dropped keeping first occurrences, and a mode is
  * looked up by its size. The window flags are chosen from the screen settings.
  * The display queries are a parameter; window and GL context creation are not modelled.
  */
module Video {
  import opened Wrappers

  /** `VIDEO_MODE`: three ints, compared byte for byte (there is no padding). */
  datatype VideoMode = VideoMode(width: int, height: int, refreshRate: int)

  /** The zeroed `SDL_DisplayMode` a failed query leaves behind. */
  const ZERO_MODE: VideoMode := VideoMode(0, 0, 0)

  /** `display_mode_chech`: whether `m` equals one of the first `n` modes. */
  method DisplayModeCheck(modes: seq<VideoMode>, n: int, m: VideoMode) returns (found: bool)
    requires n <= |modes|
    ensures found <==> exists i :: 0 <= i < n && modes[i] == m
  {
    var i := 0;
    while i < n
      invariant 0 <= i <= (if n < 0 then 0 else n)
      invariant forall k :: 0 <= k < i ==> modes[k] != m
    {
      if modes[i] == m {
        return true;
      }
      i := i + 1;
    }
    return false;
  }

  /** The modes with later repetitions removed, built the way the de-duplication loop builds it. */
  function Dedup(s: seq<VideoMode>): (d: seq<VideoMode>)
  {
    if s == [] then []
    else
      var init := Dedup(s[..|s| - 1]);
      if s[|s| - 1] in init then init else init + [s[|s| - 1]]
  }

  /** Position of the first occurrence of `x` in `s`. */
  function FirstIndex(s: seq<VideoMode>, x: VideoMode): (r: nat)
    requires x in s
    ensures r < |s| && s[r] == x && x !in s[..r]
  {
    if s[0] == x then 0
    else
      var r := 1 + FirstIndex(s[1..], x);
      assert s[..r] == [s[0]] + s[1..][..r - 1];
      r
  }

  lemma FirstIndexUnique(s: seq<VideoMode>, x: VideoMode, r: nat)
    requires r < |s| && s[r] == x && x !in s[..r]
    ensures FirstIndex(s, x) == r
  {
  }

  /** Appending keeps the first occurrences of the elements already present. */
  lemma FirstIndexSnoc(s: seq<VideoMode>, x: VideoMode, y: VideoMode)
    requires y in s
    ensures FirstIndex(s + [x], y) == FirstIndex(s, y)
  {
    var r := FirstIndex(s, y);
    assert (s + [x])[..r] == s[..r];
    FirstIndexUnique(s + [x], y, r);
  }

  /** Unique modes: no mode is listed twice. */
  predicate Distinct(s: seq<VideoMode>)
  {
    forall p, q :: 0 <= p < q < |s| ==> s[p] != s[q]
  }

  /**
    * The de-duplicated list holds exactly the modes of the input, each once, in the order
    * of their first occurrences, and is no longer than the input.
    */
  lemma {:induction false} DedupSpec(s: seq<VideoMode>)
    ensures |Dedup(s)| <= |s|
    ensures Distinct(Dedup(s))
    ensures forall x :: x in Dedup(s) <==> x in s
    ensures forall p, q :: 0 <= p < q < |Dedup(s)| ==> FirstIndex(s, Dedup(s)[p]) < FirstIndex(s, Dedup(s)[q])
  {
    if s != [] {
      var init := s[..|s| - 1];
      var x := s[|s| - 1];
      assert s == init + [x];
      DedupSpec(init);
      var d := Dedup(init);
      forall y | y in d ensures FirstIndex(s, y) == FirstIndex(init, y) {
        FirstIndexSnoc(init, x, y);
      }
      if x !in d {
        FirstIndexUnique(s, x, |init|);
        var e := d + [x];
        forall p, q | 0 <= p < q < |e| ensures FirstIndex(s, e[p]) < FirstIndex(s, e[q]) {
          if q == |d| {
            assert e[p] == d[p] && e[p] in init;
          } else {
            assert e[p] == d[p] && e[q] == d[q];
          }
        }
      }
    }
  }

  /** The mode stored for query i: the display's mode, or the zeroed one when the query fails. */
  function QueriedMode(q: Option<VideoMode>): VideoMode
  {
    match q
    case Some(m) => m
    case None => ZERO_MODE
  }

  /** The n modes read from the display, in index order. */
  function Queried(n: nat, query: nat -> Option<VideoMode>): (ms: seq<VideoMode>)
    ensures |ms| == n && forall i :: 0 <= i < n ==> ms[i] == QueriedMode(query(i))
  {
    seq(n, i requires 0 <= i < n => QueriedMode(query(i)))
  }

  /**
    * `get_display_modes`: with a negative mode count no list is built; otherwise the
    * n queried modes are de-duplicated, first occurrences kept.
    */
  method GetDisplayModes(n: int, query: nat -> Option<VideoMode>) returns (modes: Option<seq<VideoMode>>)
    ensures modes.None? <==> n < 0
    ensures modes.Some? ==> modes.value == Dedup(Queried(n, query))
    ensures modes.Some? ==> |modes.value| <= n && Distinct(modes.value)
    ensures modes.Some? ==> forall i :: 0 <= i < n && query(i).None? ==> ZERO_MODE in modes.value
  {
    if n < 0 {
      return None;
    }
    var read: seq<VideoMode> := [];
    var i := 0;
    while i < n
      invariant 0 <= i <= n && read == Queried(i, query)
    {
      read := read + [QueriedMode(query(i))];
      i := i + 1;
    }
    var out: seq<VideoMode> := [];
    i := 0;
    while i < n
      invariant 0 <= i <= n && out == Dedup(read[..i])
    {
      assert read[..i + 1][..i] == read[..i];
      var seen := DisplayModeCheck(out, |out|, read[i]);
      if !seen {
        out := out + [read[i]];
      }
      i := i + 1;
    }
    assert read[..n] == read;
    DedupSpec(read);
    assert forall k :: 0 <= k < n ==> read[k] in read;
    return Some(out);
  }

  /** `find_display_mode`: the first mode of that width and height, or 0 when none matches. */
  method FindDisplayMode(modes: seq<VideoMode>, width: int, height: int) returns (index: nat)
    ensures (exists i :: 0 <= i < |modes| && modes[i].width == width && modes[i].height == height) ==>
      index < |modes| && modes[index].width == width && modes[index].height == height &&
      forall k :: 0 <= k < index ==> !(modes[k].width == width && modes[k].height == height)
    ensures (forall i :: 0 <= i < |modes| ==> !(modes[i].width == width && modes[i].height == height)) ==> index == 0
  {
    var i := 0;
    while i < |modes|
      invariant i <= |modes|
      invariant forall k :: 0 <= k < i ==> !(modes[k].width == width && modes[k].height == height)
    {
      if modes[i].width == width && modes[i].height == height {
        return i;
      }
      i := i + 1;
    }
    return 0;
  }

  // ---------------------------------------------------------------- window flags

  /** The SDL2 window flags `video_init` uses; FULLSCREEN_DESKTOP includes the FULLSCREEN bit. */
  const WINDOW_FULLSCREEN: bv32 := 0x1
  const WINDOW_OPENGL: bv32 := 0x2
  const WINDOW_BORDERLESS: bv32 := 0x10
  const WINDOW_FULLSCREEN_DESKTOP: bv32 := 0x1001

  /** The flags `video_init` passes to `SDL_CreateWindow`; a size of -1 asks for the desktop size. */
  function WindowFlags(fullscreen: int, width: int, height: int): (flags: bv32)
    ensures flags & (WINDOW_BORDERLESS | WINDOW_OPENGL) == WINDOW_BORDERLESS | WINDOW_OPENGL
    ensures (flags & 0x1000 != 0) <==> (width == -1 || height == -1)
    ensures (flags & WINDOW_FULLSCREEN != 0) <==> (fullscreen != 0 || width == -1 || height == -1)
    ensures flags & !(WINDOW_BORDERLESS | WINDOW_OPENGL | WINDOW_FULLSCREEN_DESKTOP) == 0
  {
    var base := WINDOW_BORDERLESS | WINDOW_OPENGL;
    var withFull := if fullscreen != 0 then base | WINDOW_FULLSCREEN else base;
    if width == -1 || height == -1 then withFull | WINDOW_FULLSCREEN_DESKTOP else withFull
  }

  /** A desktop-sized window is full screen even with the fullscreen setting off. */
  lemma DesktopSizeIsFullscreen()
    ensures WindowFlags(0, -1, 480) == 0x1013
    ensures WindowFlags(0, 640, 480) == 0x12
    ensures WindowFlags(1, 640, 480) == 0x13
  {
  }
}
