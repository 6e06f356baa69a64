/**
  * The glyph cache (neon/src/core/glyphs.c): every font of a build contributes one
  * group and one glyph per character its face can render, the glyphs are sorted by
  * (character, group) and looked up by binary search.
  */
module Glyphs {
  import opened Wrappers
  import opened Bytes

  /** A cached glyph: its 16-bit character, its advance and the group (font) it belongs to. */
  datatype Glyph = Glyph(ch: u16, advance: int, group: int)

  /** A font group: its number, its pixel height and its line skip. */
  datatype Group = Group(group: int, size: int, lineskip: int)

  /** One entry of the build list: the font asset, its point size and the characters to cache. */
  datatype FontInfo = FontInfo(fontName: string, fontSize: int, cache: string)

  /**
    * What the font renderer reports for an opened font: its height, its line skip and
    * the advance of each character it has a glyph for (None where `TTF_GlyphMetrics`
    * fails).
    */
  datatype Face = Face(height: int, lineskip: int, advance: char -> Option<int>)

  /** The key order of the cache: by character, then by group. */
  predicate KeyLe(ch1: int, t1: int, ch2: int, t2: int)
  {
    ch1 < ch2 || (ch1 == ch2 && t1 <= t2)
  }

  /**
    * `compare_glyph` on the keys (ch1, t1) and (ch2, t2): the group difference when the
    * characters agree, the character difference otherwise.
    */
  function CompareGlyph(ch1: u16, t1: int, ch2: u16, t2: int): (r: int)
    ensures r == 0 <==> ch1 == ch2 && t1 == t2
    ensures r < 0 <==> KeyLe(ch1, t1, ch2, t2) && !(ch1 == ch2 && t1 == t2)
    ensures r > 0 <==> !KeyLe(ch1, t1, ch2, t2)
  {
    if ch1 == ch2 then t1 - t2 else ch1 - ch2
  }

  predicate Sorted(gs: seq<Glyph>)
  {
    forall i, j :: 0 <= i < j < |gs| ==> KeyLe(gs[i].ch, gs[i].group, gs[j].ch, gs[j].group)
  }

  function Insert(g: Glyph, sorted: seq<Glyph>): (s: seq<Glyph>)
    requires Sorted(sorted)
    ensures Sorted(s)
    ensures multiset(s) == multiset(sorted) + multiset{g}
    ensures |s| == |sorted| + 1
  {
    if sorted == [] then [g]
    else if CompareGlyph(g.ch, g.group, sorted[0].ch, sorted[0].group) <= 0 then [g] + sorted
    else
      var rest := Insert(g, sorted[1..]);
      assert sorted == [sorted[0]] + sorted[1..];
      forall k | 0 <= k < |rest| ensures KeyLe(sorted[0].ch, sorted[0].group, rest[k].ch, rest[k].group) {
        assert rest[k] in multiset(rest);
        if rest[k] != g {
          assert rest[k] in sorted[1..];
        }
      }
      [sorted[0]] + rest
  }

  /** The order `qsort` leaves the cache in: sorted by key, a permutation of its input. */
  function Sort(gs: seq<Glyph>): (s: seq<Glyph>)
    ensures Sorted(s)
    ensures multiset(s) == multiset(gs)
    ensures |s| == |gs|
  {
    if gs == [] then []
    else
      assert gs == [gs[0]] + gs[1..];
      Insert(gs[0], Sort(gs[1..]))
  }

  /** `bsearch` with `compare_glyph` over `[lo, hi)`. */
  function Search(gs: seq<Glyph>, ch: u16, group: int, lo: nat, hi: nat): (r: Option<nat>)
    requires lo <= hi <= |gs|
    ensures r.Some? ==> lo <= r.value < hi && gs[r.value].ch == ch && gs[r.value].group == group
    ensures r.None? && Sorted(gs) ==>
              forall i :: lo <= i < hi ==> !(gs[i].ch == ch && gs[i].group == group)
    decreases hi - lo
  {
    if lo == hi then None
    else
      var mid := (lo + hi) / 2;
      var c := CompareGlyph(ch, group, gs[mid].ch, gs[mid].group);
      if c < 0 then Search(gs, ch, group, lo, mid)
      else if c > 0 then Search(gs, ch, group, mid + 1, hi)
      else Some(mid)
  }

  /** `glyph_cache_find`: the index of a glyph with this character and group, if any. */
  function Find(gs: seq<Glyph>, ch: u16, group: int): (r: Option<nat>)
    ensures r.Some? ==> r.value < |gs| && gs[r.value].ch == ch && gs[r.value].group == group
    ensures r.None? && Sorted(gs) ==> forall i :: 0 <= i < |gs| ==> !(gs[i].ch == ch && gs[i].group == group)
  {
    Search(gs, ch, group, 0, |gs|)
  }

  /** On a sorted cache the lookup succeeds exactly when a glyph carries the key. */
  lemma FindIffPresent(gs: seq<Glyph>, ch: u16, group: int)
    requires Sorted(gs)
    ensures Find(gs, ch, group).Some? <==> exists i :: 0 <= i < |gs| && gs[i].ch == ch && gs[i].group == group
  {
    var r := Find(gs, ch, group);
    if r.Some? {
      assert gs[r.value].ch == ch && gs[r.value].group == group;
    }
  }

  /** `glyph_cache_get_font_size`: the size of the first group numbered `group`, else 0. */
  function FontSize(groups: seq<Group>, group: int): (r: int)
    ensures (exists i :: 0 <= i < |groups| && groups[i].group == group) ==>
              exists i :: 0 <= i < |groups| && groups[i].group == group && r == groups[i].size &&
                          forall j :: 0 <= j < i ==> groups[j].group != group
    ensures (forall i :: 0 <= i < |groups| ==> groups[i].group != group) ==> r == 0
  {
    if groups == [] then 0
    else if groups[0].group == group then groups[0].size
    else
      var r := FontSize(groups[1..], group);
      assert forall i :: 1 <= i < |groups| ==> groups[i] == groups[1..][i - 1];
      r
  }

  /** `glyph_cache_get_font_lineskip`: the line skip of the first group numbered `group`, else 0. */
  function FontLineskip(groups: seq<Group>, group: int): (r: int)
    ensures (exists i :: 0 <= i < |groups| && groups[i].group == group) ==>
              exists i :: 0 <= i < |groups| && groups[i].group == group && r == groups[i].lineskip &&
                          forall j :: 0 <= j < i ==> groups[j].group != group
    ensures (forall i :: 0 <= i < |groups| ==> groups[i].group != group) ==> r == 0
  {
    if groups == [] then 0
    else if groups[0].group == group then groups[0].lineskip
    else
      var r := FontLineskip(groups[1..], group);
      assert forall i :: 1 <= i < |groups| ==> groups[i] == groups[1..][i - 1];
      r
  }

  /** `glyph_cache_get_char_width`: the advance of the glyph found, else 0. */
  function CharWidth(gs: seq<Glyph>, ch: u16, group: int): (r: int)
    ensures Sorted(gs) && (forall i :: 0 <= i < |gs| ==> !(gs[i].ch == ch && gs[i].group == group)) ==> r == 0
    ensures r != 0 ==> exists i :: 0 <= i < |gs| && gs[i].ch == ch && gs[i].group == group && gs[i].advance == r
    ensures Sorted(gs) && (exists i :: 0 <= i < |gs| && gs[i].ch == ch && gs[i].group == group) ==>
      exists i :: 0 <= i < |gs| && gs[i].ch == ch && gs[i].group == group && gs[i].advance == r
    ensures Sorted(gs) && Find(gs, ch, group).Some? ==> r == gs[Find(gs, ch, group).value].advance
  {
    match Find(gs, ch, group)
    case Some(i) => gs[i].advance
    case None => 0
  }

  /**
    * The glyph came from the cache string of its font: some character of the string
    * truncates to its 16-bit code and the face reports its advance.
    */
  predicate FromFont(g: Glyph, info: FontInfo, face: Face)
  {
    exists k :: 0 <= k < |info.cache| && U16(info.cache[k] as int) == g.ch &&
                face.advance(info.cache[k]) == Some(g.advance)
  }

  /**
    * `append_glyphs`, glyph part: one glyph per character of the cache string the face
    * has metrics for, in string order, tagged with the group being built.
    */
  function AppendGlyphs(cache: string, face: Face, group: int): (gs: seq<Glyph>)
    ensures |gs| <= |cache|
    ensures forall i :: 0 <= i < |gs| ==>
              (gs[i].group == group &&
               exists k :: 0 <= k < |cache| && U16(cache[k] as int) == gs[i].ch && face.advance(cache[k]) == Some(gs[i].advance))
  {
    if cache == [] then []
    else
      var rest := AppendGlyphs(cache[1..], face, group);
      forall i | 0 <= i < |rest|
        ensures exists k :: 0 <= k < |cache| && U16(cache[k] as int) == rest[i].ch && face.advance(cache[k]) == Some(rest[i].advance)
      {
        var k :| 0 <= k < |cache[1..]| && U16(cache[1..][k] as int) == rest[i].ch && face.advance(cache[1..][k]) == Some(rest[i].advance);
        assert cache[1..][k] == cache[k + 1];
      }
      match face.advance(cache[0])
      case Some(adv) => [Glyph(U16(cache[0] as int), adv, group)] + rest
      case None => rest
  }

  /**
    * The two passes of `glyph_cache_build` before the sort: the fonts are appended in
    * list order, the n-th one as group n.
    */
  function Gather(infos: seq<FontInfo>, face: FontInfo -> Face): (r: (seq<Glyph>, seq<Group>))
    ensures |r.1| == |infos|
    ensures forall n :: 0 <= n < |infos| ==>
              r.1[n] == Group(n, face(infos[n]).height, face(infos[n]).lineskip)
    ensures forall i :: 0 <= i < |r.0| ==>
              0 <= r.0[i].group < |infos| && FromFont(r.0[i], infos[r.0[i].group], face(infos[r.0[i].group]))
  {
    if infos == [] then ([], [])
    else
      var init := infos[..|infos| - 1];
      var last := infos[|infos| - 1];
      var (gs, groups) := Gather(init, face);
      var added := AppendGlyphs(last.cache, face(last), |groups|);
      forall i | 0 <= i < |gs|
        ensures 0 <= gs[i].group < |infos| && FromFont(gs[i], infos[gs[i].group], face(infos[gs[i].group]))
      {
        assert infos[gs[i].group] == init[gs[i].group];
      }
      forall i | 0 <= i < |added|
        ensures FromFont(added[i], last, face(last))
      {
      }
      var all := gs + added;
      forall i | 0 <= i < |all|
        ensures 0 <= all[i].group < |infos| && FromFont(all[i], infos[all[i].group], face(infos[all[i].group]))
      {
        if i >= |gs| {
          assert all[i] == added[i - |gs|];
        }
      }
      (all, groups + [Group(|groups|, face(last).height, face(last).lineskip)])
  }

  /** The built cache: the sorted glyphs, the number of slots the sort spans, and the groups. */
  datatype Cache = Cache(glyphs: seq<Glyph>, size: nat, groups: seq<Group>)

  /** Per-string character count as `utf8_strlen` reports it for an already decoded string. */
  function CacheChars(infos: seq<FontInfo>): (n: nat)
    ensures infos != [] ==> n == CacheChars(infos[..|infos| - 1]) + |infos[|infos| - 1].cache|
  {
    if infos == [] then 0 else CacheChars(infos[..|infos| - 1]) + |infos[|infos| - 1].cache|
  }

  /**
    * The slot count as written: `glyph_cache_size` starts from whatever the previous
    * build left and grows by every cache string's length, whether or not the face
    * renders each character.
    */
  function SlotsAsWritten(previous: nat, infos: seq<FontInfo>): (n: nat)
    ensures n >= previous
  {
    previous + CacheChars(infos)
  }

  /** Every glyph gathered came from some character of the cache strings. */
  lemma {:induction false} GatheredAtMostChars(infos: seq<FontInfo>, face: FontInfo -> Face)
    ensures |Gather(infos, face).0| <= CacheChars(infos)
  {
    if infos != [] {
      GatheredAtMostChars(infos[..|infos| - 1], face);
    }
  }

  /**
    * The size defect: a face lacking a character leaves a slot unwritten, and a second
    * build doubles the count, while the sort and the search still span all of it.
    */
  lemma SlotsAsWrittenSpanUnwritten()
    ensures var infos := [FontInfo("font.ttf", 12, "a")];
            var face := (i: FontInfo) => Face(14, 16, (c: char) => None);
            SlotsAsWritten(0, infos) == 1 && |Gather(infos, face).0| == 0
    ensures var infos := [FontInfo("font.ttf", 12, "a")];
            var face := (i: FontInfo) => Face(14, 16, (c: char) => Some(7));
            |Gather(infos, face).0| == 1 && SlotsAsWritten(SlotsAsWritten(0, infos), infos) == 2
  {
    var infos := [FontInfo("font.ttf", 12, "a")];
    assert infos[..0] == [];
    var none := (i: FontInfo) => Face(14, 16, (c: char) => None);
    var some := (i: FontInfo) => Face(14, 16, (c: char) => Some(7));
    assert AppendGlyphs("a", none(infos[0]), 0) == [];
    assert AppendGlyphs("a", some(infos[0]), 0) == [Glyph(U16('a' as int), 7, 0)];
  }

  /**
    * `glyph_cache_build`, with the slot count taken from the glyphs actually appended:
    * the cache holds exactly the gathered glyphs, sorted, and the groups numbered in
    * build order.
    */
  function Build(infos: seq<FontInfo>, face: FontInfo -> Face): (c: Cache)
    ensures c.size == |c.glyphs| <= CacheChars(infos)
    ensures Sorted(c.glyphs) && multiset(c.glyphs) == multiset(Gather(infos, face).0)
    ensures |c.groups| == |infos|
    ensures forall n :: 0 <= n < |infos| ==> c.groups[n] == Group(n, face(infos[n]).height, face(infos[n]).lineskip)
  {
    GatheredAtMostChars(infos, face);
    var (gs, groups) := Gather(infos, face);
    var sorted := Sort(gs);
    Cache(sorted, |sorted|, groups)
  }

  /** Every cached glyph's group is a font of the build, and the glyph came from that font's string. */
  lemma BuildTagsGlyphsWithTheirFont(infos: seq<FontInfo>, face: FontInfo -> Face, i: nat)
    requires i < |Build(infos, face).glyphs|
    ensures var g := Build(infos, face).glyphs[i];
            0 <= g.group < |infos| && FromFont(g, infos[g.group], face(infos[g.group]))
  {
    var gs := Gather(infos, face).0;
    var g := Build(infos, face).glyphs[i];
    assert g in multiset(gs);
    var k :| 0 <= k < |gs| && gs[k] == g;
  }

  /** Groups numbered by position: group n sits at index n. */
  predicate Numbered(groups: seq<Group>)
  {
    forall n :: 0 <= n < |groups| ==> groups[n].group == n
  }

  /** In a numbered group list the first group carrying a number is the one at that index. */
  lemma NumberedLookups(groups: seq<Group>, group: int)
    requires Numbered(groups)
    ensures FontSize(groups, group) == (if 0 <= group < |groups| then groups[group].size else 0)
    ensures FontLineskip(groups, group) == (if 0 <= group < |groups| then groups[group].lineskip else 0)
  {
    if 0 <= group < |groups| {
      assert groups[group].group == group;
    }
  }

  /** The size and line-skip lookups on a built cache return the n-th font's metrics, 0 past the last. */
  lemma BuiltGroupLookups(infos: seq<FontInfo>, face: FontInfo -> Face, group: int)
    ensures var c := Build(infos, face);
            FontSize(c.groups, group) == (if 0 <= group < |infos| then face(infos[group]).height else 0) &&
            FontLineskip(c.groups, group) == (if 0 <= group < |infos| then face(infos[group]).lineskip else 0)
  {
    var c := Build(infos, face);
    assert Numbered(c.groups);
    NumberedLookups(c.groups, group);
  }
}
