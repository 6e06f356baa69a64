/**
  * The text handling around shader programs (neon/src/video/shader.c): where the
  * definitions are inserted after `#version`, the splitting and classification of a
  * shader name list, the validation and expansion of `#include` directives, and the
  * lookup of uniforms and attributes by name hash. Compilation and linking are not
  * modelled: what the linked program reports about its active variables, the pjw
  * hash and the loading of included files are parameters.
  */
module Shader {
  import opened Wrappers
  import opened Bytes
  import opened Text
  import opened Tokenizer
  import opened Seqs

  const VERSION: string := "#version"
  const INCLUDE: string := "#include"
  /** `step` of `load_shader_text`: the directive's length without its terminator. */
  const STEP: nat := 8
  /** MAX_SHADER_TYPES_SUPPORTED outside OpenGL ES: vertex, fragment and geometry. */
  const MAX_SHADER_TYPES: nat := 3
  /** The copy of the name list in `get_shader_names`. */
  const NAMES_BUFFER: nat := 200
  /** MAX_UNIFORM_NAME_SIZE and MAX_ATTRIBUTE_NAME_SIZE. */
  const MAX_NAME_SIZE: nat := 80

  function Min(a: nat, b: nat): nat
  {
    if a <= b then a else b
  }

  // ---------------------------------------------------------------------------
  // Definitions

  /**
    * `get_definitions_position`: just past the newline that ends the line of the
    * first `#version`, or 0 when there is no `#version` or no newline after it.
    */
  function DefinitionsPosition(text: string): (r: nat)
    ensures r <= |text|
    ensures r > 0 <==> Find(text, VERSION).Some? && IndexOf(text, '\n', Find(text, VERSION).value).Some?
    ensures r > 0 ==>
      var v := Find(text, VERSION).value;
      v + |VERSION| < r && text[r - 1] == '\n' && forall k :: v <= k < r - 1 ==> text[k] != '\n'
  {
    match Find(text, VERSION)
    case None => 0
    case Some(v) =>
      match IndexOf(text, '\n', v)
      case None => 0
      case Some(e) =>
        assert text[v..v + |VERSION|] == VERSION;
        assert forall k :: v <= k < v + |VERSION| ==> text[k] == VERSION[k - v];
        e + 1
  }

  /** The source handed to the compiler: the definitions inserted at that position (`str_insert`). */
  function InsertDefinitions(text: string, definitions: string): (r: string)
    ensures |r| == |text| + |definitions|
  {
    var pos := DefinitionsPosition(text);
    text[..pos] + definitions + text[pos..]
  }

  /** The definitions go right after the `#version` line when no `#version` occurs before it. */
  lemma DefinitionsAfterVersionLine(pre: string, line: string, body: string, definitions: string)
    requires forall k :: 0 <= k < |pre| ==> !OccursAt(pre + VERSION, VERSION, k)
    requires StartsWith(line, VERSION) && '\n' !in line
    ensures InsertDefinitions(pre + line + "\n" + body, definitions) == pre + line + "\n" + definitions + body
  {
    var text := pre + line + "\n" + body;
    var n := |pre|;
    assert text[..n + |VERSION|] == pre + VERSION;
    SamePrefixOccurs(text, pre + VERSION, VERSION, n);
    assert OccursAt(text, VERSION, n);
    FindIs(text, VERSION, 0, n);
    var e := n + |line|;
    assert forall k :: n <= k < e ==> text[k] == line[k - n];
    assert text[e] == '\n';
    IndexOfIs(text, '\n', n, e);
    assert text[..e + 1] == pre + line + "\n";
    assert text[e + 1..] == body;
  }

  /** Without a `#version` line the definitions are put in front of the text. */
  lemma DefinitionsWithoutVersion(text: string, definitions: string)
    requires Find(text, VERSION).None?
    ensures InsertDefinitions(text, definitions) == definitions + text
  {
  }

  // ---------------------------------------------------------------------------
  // Shader names

  /** `strncpy` into the 200-byte buffer of `get_shader_names`. */
  function NamesCopy(names: string): (s: string)
    ensures |s| <= NAMES_BUFFER && |s| <= |names| && s == names[..|s|]
  {
    names[..Min(|names|, NAMES_BUFFER)]
  }

  /** At most `limit` space-separated words of `s` from `from`, by repeated `strtok_r`. */
  function Words(s: string, from: nat, limit: nat): (ws: seq<string>)
    requires from <= |s|
    ensures |ws| <= limit
    decreases |s| - from
  {
    if limit == 0 then []
    else
      var t := StrTok(s, from, " ");
      match t.token
      case None => []
      case Some(w) => [w] + Words(s, t.next, limit - 1)
  }

  /**
    * `get_shader_names` as written: a name is stored before the count is compared with
    * the limit, so up to MAX_SHADER_TYPES + 1 names are stored into an array of
    * MAX_SHADER_TYPES slots; the last element here is the write past the array.
    */
  function ShaderNamesAsWritten(names: string): (r: seq<string>)
    ensures |r| <= MAX_SHADER_TYPES + 1
  {
    Words(NamesCopy(names), 0, MAX_SHADER_TYPES + 1)
  }

  /** `get_shader_names` with the limit checked before the store: at most one name per slot. */
  function ShaderNames(names: string): (r: seq<string>)
    ensures |r| <= MAX_SHADER_TYPES
  {
    Words(NamesCopy(names), 0, MAX_SHADER_TYPES)
  }

  /** A name of a list: non-empty and without spaces. */
  predicate ValidNames(ns: seq<string>)
  {
    forall i :: 0 <= i < |ns| ==> ns[i] != [] && ' ' !in ns[i]
  }

  /** Names joined by single spaces. */
  function Joined(ns: seq<string>): string
  {
    if ns == [] then []
    else if |ns| == 1 then ns[0]
    else ns[0] + " " + Joined(ns[1..])
  }

  lemma ValidNamesTail(ns: seq<string>)
    requires ns != [] && ValidNames(ns)
    ensures ValidNames(ns[1..])
  {
    forall i | 0 <= i < |ns[1..]|
      ensures ns[1..][i] != [] && ' ' !in ns[1..][i]
    {
      assert ns[1..][i] == ns[i + 1];
    }
  }

  /** The names `ns` lie in `s` from `from` on, separated by single spaces, up to its end. */
  predicate JoinedAt(s: string, from: nat, ns: seq<string>)
    decreases |ns|
  {
    if ns == [] then from == |s|
    else
      var stop := from + |ns[0]|;
      stop <= |s| && s[from..stop] == ns[0] && ns[0] != [] && ' ' !in ns[0] &&
      if |ns| == 1 then stop == |s|
      else stop < |s| && s[stop] == ' ' && JoinedAt(s, stop + 1, ns[1..])
  }

  /** Where a joined list of more than one name starts, its first name, a space and the rest follow. */
  lemma JoinedStep(s: string, from: nat, ns: seq<string>)
    requires from <= |s| && |ns| > 1 && s[from..] == Joined(ns)
    ensures from + |ns[0]| < |s| && s[from..from + |ns[0]|] == ns[0] && s[from + |ns[0]|] == ' '
    ensures s[from + |ns[0]| + 1..] == Joined(ns[1..])
  {
    var t := s[from..];
    var n := ns[0];
    assert t == n + " " + Joined(ns[1..]);
    assert t[..|n|] == n && t[|n|] == ' ' && t[|n| + 1..] == Joined(ns[1..]);
    SliceOfSuffix(s, from, 0, |n|);
    SliceOfSuffix(s, from, |n| + 1, |n| + 1);
  }

  /** Where a joined list of one name starts, the name runs to the end. */
  lemma JoinedLast(s: string, from: nat, ns: seq<string>)
    requires from <= |s| && |ns| == 1 && s[from..] == Joined(ns)
    ensures from + |ns[0]| == |s| && s[from..from + |ns[0]|] == ns[0]
  {
  }

  /** A joined list of valid names lies at the place where it was put. */
  lemma {:induction false} JoinedIsAt(s: string, from: nat, ns: seq<string>)
    requires from <= |s| && s[from..] == Joined(ns) && ValidNames(ns)
    ensures JoinedAt(s, from, ns)
    decreases |ns|
  {
    if ns != [] {
      assert ns[0] != [] && ' ' !in ns[0];
      if |ns| == 1 {
        JoinedLast(s, from, ns);
      } else {
        JoinedStep(s, from, ns);
        ValidNamesTail(ns);
        JoinedIsAt(s, from + |ns[0]| + 1, ns[1..]);
      }
    }
  }

  /** The first word from `from` is the first name of the list there. */
  lemma FirstWord(s: string, from: nat, ns: seq<string>)
    requires JoinedAt(s, from, ns) && ns != []
    ensures StrTok(s, from, " ") == Step(Some(ns[0]), if |ns| == 1 then |s| else from + |ns[0]| + 1)
  {
    var stop := from + |ns[0]|;
    assert forall k :: from <= k < stop ==> s[k] == ns[0][k - from];
    StrTokAt(s, from, from, stop, " ");
  }

  /** One step of the word loop. */
  lemma WordsStep(s: string, from: nat, limit: nat, w: string, next: nat)
    requires from <= |s| && limit > 0 && StrTok(s, from, " ") == Step(Some(w), next)
    ensures Words(s, from, limit) == [w] + Words(s, next, limit - 1)
  {
  }

  /** The first `limit` names of a list. */
  function Take(ns: seq<string>, limit: nat): (r: seq<string>)
    ensures r == ns[..Min(|ns|, limit)]
  {
    if limit == 0 || ns == [] then [] else [ns[0]] + Take(ns[1..], limit - 1)
  }

  /** The words of a list of names from `from` are its names. */
  lemma {:induction false} WordsOfJoined(s: string, from: nat, ns: seq<string>, limit: nat)
    requires JoinedAt(s, from, ns)
    ensures from <= |s|
    ensures Words(s, from, limit) == Take(ns, limit)
    decreases |ns|
  {
    if ns == [] {
      WordsAtEnd(s, limit);
    } else if limit > 0 {
      FirstWord(s, from, ns);
      if |ns| == 1 {
        WordsStep(s, from, limit, ns[0], |s|);
        WordsAtEnd(s, limit - 1);
      } else {
        var next := from + |ns[0]| + 1;
        WordsStep(s, from, limit, ns[0], next);
        WordsOfJoined(s, next, ns[1..], limit - 1);
      }
    }
  }

  /** No word is left at the end of the string. */
  lemma WordsAtEnd(s: string, limit: nat)
    ensures Words(s, |s|, limit) == []
  {
  }

  /**
    * A list of names that fits the buffer is split into its names: as written all
    * of them up to MAX_SHADER_TYPES + 1, corrected up to MAX_SHADER_TYPES.
    */
  lemma ShaderNamesOfList(ns: seq<string>)
    requires ValidNames(ns) && |Joined(ns)| <= NAMES_BUFFER
    ensures ShaderNames(Joined(ns)) == ns[..Min(|ns|, MAX_SHADER_TYPES)]
    ensures ShaderNamesAsWritten(Joined(ns)) == ns[..Min(|ns|, MAX_SHADER_TYPES + 1)]
  {
    assert Joined(ns)[0..] == Joined(ns);
    assert NamesCopy(Joined(ns)) == Joined(ns);
    JoinedIsAt(Joined(ns), 0, ns);
    WordsOfJoined(Joined(ns), 0, ns, MAX_SHADER_TYPES);
    WordsOfJoined(Joined(ns), 0, ns, MAX_SHADER_TYPES + 1);
  }

  /** Four names store a fourth one past the three slots; corrected, the fourth is ignored. */
  lemma ShaderNamesAsWrittenOverflows()
    ensures |ShaderNamesAsWritten("a.vert b.frag c.geom d.vert")| == MAX_SHADER_TYPES + 1
    ensures ShaderNames("a.vert b.frag c.geom d.vert") == ["a.vert", "b.frag", "c.geom"]
  {
    var ns := ["a.vert", "b.frag", "c.geom", "d.vert"];
    FourNames();
    ShaderNamesOfList(ns);
    assert ns[..MAX_SHADER_TYPES] == ["a.vert", "b.frag", "c.geom"];
  }

  lemma FourNames()
    ensures ValidNames(["a.vert", "b.frag", "c.geom", "d.vert"])
    ensures Joined(["a.vert", "b.frag", "c.geom", "d.vert"]) == "a.vert b.frag c.geom d.vert"
  {
    FourNamesJoined();
  }

  lemma FourNamesJoined()
    ensures Joined(["a.vert", "b.frag", "c.geom", "d.vert"]) == "a.vert b.frag c.geom d.vert"
  {
    JoinedCons("c.geom", ["d.vert"]);
    var two := "c.geom d.vert";
    assert "c.geom" + " " + "d.vert" == two;
    JoinedCons("b.frag", ["c.geom", "d.vert"]);
    var three := "b.frag c.geom d.vert";
    assert "b.frag" + " " + two == three;
    JoinedCons("a.vert", ["b.frag", "c.geom", "d.vert"]);
    assert "a.vert" + " " + three == "a.vert b.frag c.geom d.vert";
  }

  lemma JoinedCons(n: string, ns: seq<string>)
    requires ns != []
    ensures Joined([n] + ns) == n + " " + Joined(ns)
  {
    assert ([n] + ns)[1..] == ns;
  }

  // ---------------------------------------------------------------------------
  // Classification

  /** The test for a name whose extension is `ext`. */
  function ExtensionIs(ext: string): string -> bool
  {
    name => Extension(name) == ext
  }

  /** The last name with extension `ext`. */
  function Chosen(names: seq<string>, ext: string): (r: Option<string>)
  {
    match LastWhere(names, ExtensionIs(ext))
    case None => None
    case Some(i) => Some(names[i])
  }

  /** Appending a name chooses it when it has the extension and keeps the earlier choice otherwise. */
  lemma ChosenSnoc(names: seq<string>, name: string, ext: string)
    ensures Chosen(names + [name], ext) == if Extension(name) == ext then Some(name) else Chosen(names, ext)
  {
    LastWhereSnoc(names, name, ExtensionIs(ext));
  }

  /** The three stage names that `upload_shader_ext` hands on. */
  datatype Stages = Stages(vertex: Option<string>, fragment: Option<string>, geometry: Option<string>)

  /**
    * The classification loop of `upload_shader_ext`: each name is matched by its last
    * extension, and a later name with the same extension replaces an earlier one.
    * A name without '.' matches nothing.
    */
  method Classify(names: seq<string>) returns (r: Stages)
    ensures r.vertex == Chosen(names, ".vert")
    ensures r.fragment == Chosen(names, ".frag")
    ensures r.geometry == Chosen(names, ".geom")
  {
    r := Stages(None, None, None);
    var i := 0;
    while i < |names|
      invariant i <= |names|
      invariant r.vertex == Chosen(names[..i], ".vert")
      invariant r.fragment == Chosen(names[..i], ".frag")
      invariant r.geometry == Chosen(names[..i], ".geom")
    {
      var ext := Extension(names[i]);
      InitLast(names, i);
      ChosenSnoc(names[..i], names[i], ".vert");
      ChosenSnoc(names[..i], names[i], ".frag");
      ChosenSnoc(names[..i], names[i], ".geom");
      if ext == ".vert" {
        r := r.(vertex := Some(names[i]));
      } else if ext == ".frag" {
        r := r.(fragment := Some(names[i]));
      } else if ext == ".geom" {
        r := r.(geometry := Some(names[i]));
      }
      i := i + 1;
    }
    assert names[..i] == names;
  }

  /** A stage is chosen iff some name carries its extension, and it is the last such name. */
  lemma ChosenIsLast(names: seq<string>, ext: string)
    ensures Chosen(names, ext).Some? <==> exists i :: 0 <= i < |names| && Extension(names[i]) == ext
    ensures Chosen(names, ext).Some? ==>
      exists i :: 0 <= i < |names| && names[i] == Chosen(names, ext).value && Extension(names[i]) == ext &&
        forall j :: i < j < |names| ==> Extension(names[j]) != ext
  {
  }

  // ---------------------------------------------------------------------------
  // Include directives

  datatype IncludeError = ExpectFilename | EmptyFilename | Unterminated | UnknownInclude

  /** A validated directive: the file it names and the text of its line up to the newline. */
  datatype Directive = Directive(name: string, origin: string)

  /** `space < bracers_first` loop: only spaces from `a` up to `b`. */
  predicate OnlySpaces(text: string, a: nat, b: nat)
    requires b <= |text|
  {
    forall k :: a <= k < b ==> text[k] == ' '
  }

  /**
    * The checks of `load_shader_text` on the directive at `sp`, with the space check
    * starting `spacesFrom` characters after it. The newline is looked for from the
    * directive; it must not follow the directive at once. The opening quote is the first
    * quote after the directive, the closing quote the next one, and the name between
    * them must not be empty. A directive on a last line without a newline is an error.
    */
  function CheckIncludeFrom(text: string, sp: nat, spacesFrom: nat): (r: Result<Directive, IncludeError>)
    requires OccursAt(text, INCLUDE, sp)
    ensures r.Ok? ==> |r.value.origin| > STEP && StartsWith(r.value.origin, INCLUDE) && '\n' !in r.value.origin
    ensures r.Ok? ==> sp + |r.value.origin| < |text| && text[sp + |r.value.origin|] == '\n'
    ensures r.Ok? ==> text[sp..sp + |r.value.origin|] == r.value.origin
    ensures r.Ok? ==> r.value.name != [] && '"' !in r.value.name
  {
    assert text[sp..sp + STEP] == INCLUDE;
    assert forall k :: sp <= k < sp + STEP ==> text[k] == INCLUDE[k - sp];
    match IndexOf(text, '\n', sp)
    case None => Err(Unterminated)
    case Some(end) =>
      if end - sp == STEP then Err(ExpectFilename)
      else
        match IndexOf(text, '"', sp)
        case None => Err(ExpectFilename)
        case Some(q1) =>
          if !OnlySpaces(text, sp + spacesFrom, q1) then Err(ExpectFilename)
          else
            match IndexOf(text, '"', q1 + 1)
            case None => Err(ExpectFilename)
            case Some(q2) =>
              if q2 - q1 - 1 == 0 then Err(EmptyFilename)
              else
                var origin := text[sp..end];
                assert forall k :: 0 <= k < |origin| ==> origin[k] == text[sp + k];
                assert origin[..STEP] == INCLUDE;
                var name := text[q1 + 1..q2];
                assert forall k :: 0 <= k < |name| ==> name[k] == text[q1 + 1 + k];
                Ok(Directive(name, origin))
  }

  /**
    * The checks as written: the character right after `#include` is never looked at,
    * so every directive the intended check accepts is accepted with the same result.
    */
  function CheckIncludeAsWritten(text: string, sp: nat): (r: Result<Directive, IncludeError>)
    requires OccursAt(text, INCLUDE, sp)
    ensures CheckInclude(text, sp).Ok? ==> r == CheckInclude(text, sp)
  {
    CheckIncludeFrom(text, sp, STEP + 1)
  }

  /** The checks with the space check starting right after the directive. */
  function CheckInclude(text: string, sp: nat): (r: Result<Directive, IncludeError>)
    requires OccursAt(text, INCLUDE, sp)
    ensures r.Ok? ==> sp + STEP < |text| && (text[sp + STEP] == ' ' || text[sp + STEP] == '"')
  {
    var r := CheckIncludeFrom(text, sp, STEP);
    if r.Ok? then
      var q1 := IndexOf(text, '"', sp).value;
      assert sp + STEP <= q1;
      r
    else r
  }

  /** The line `#include "name"`. */
  function IncludeLine(name: string): string
  {
    INCLUDE + " " + "\"" + name + "\""
  }

  predicate ValidIncludeName(name: string)
  {
    name != [] && '"' !in name && '\n' !in name
  }

  /** Where the parts of a directive line written by `IncludeLine` lie in a text. */
  lemma IncludeLineLayout(pre: string, name: string, post: string)
    ensures var text := pre + IncludeLine(name) + "\n" + post;
      var sp := |pre|;
      |text| == sp + STEP + 4 + |name| + |post| &&
      text[sp..sp + STEP] == INCLUDE && text[sp + STEP] == ' ' && text[sp + STEP + 1] == '"' &&
      text[sp + STEP + 2..sp + STEP + 2 + |name|] == name &&
      text[sp + STEP + 2 + |name|] == '"' && text[sp + STEP + 3 + |name|] == '\n' &&
      text[sp..sp + STEP + 3 + |name|] == IncludeLine(name)
  {
    var text := pre + IncludeLine(name) + "\n" + post;
    var line := IncludeLine(name);
    assert forall k :: 0 <= k < |line| ==> text[|pre| + k] == line[k];
    assert text[|pre|..|pre| + |line|] == line;
    assert line[..STEP] == INCLUDE;
    assert line[STEP + 2..STEP + 2 + |name|] == name;
  }

  /** The newline and the two quotes that the checks look for in a directive line written by `IncludeLine`. */
  lemma IncludeLineSearches(pre: string, name: string, post: string)
    requires ValidIncludeName(name)
    ensures var text := pre + IncludeLine(name) + "\n" + post;
      var sp := |pre|;
      IndexOf(text, '\n', sp) == Some(sp + STEP + 3 + |name|) &&
      IndexOf(text, '"', sp) == Some(sp + STEP + 1) &&
      IndexOf(text, '"', sp + STEP + 2) == Some(sp + STEP + 2 + |name|)
  {
    var text := pre + IncludeLine(name) + "\n" + post;
    var sp := |pre|;
    IncludeLineLayout(pre, name, post);
    assert forall k :: sp <= k < sp + STEP ==> text[k] == INCLUDE[k - sp];
    var q1 := sp + STEP + 1;
    var q2 := q1 + 1 + |name|;
    assert forall k :: q1 + 1 <= k < q2 ==> text[k] == name[k - q1 - 1];
    IndexOfIs(text, '\n', sp, q2 + 1);
    IndexOfIs(text, '"', sp, q1);
    IndexOfIs(text, '"', q1 + 1, q2);
  }

  /** A directive line written by `IncludeLine` passes both versions of the checks and yields its name. */
  lemma CheckIncludeLine(pre: string, name: string, post: string)
    requires ValidIncludeName(name)
    ensures OccursAt(pre + IncludeLine(name) + "\n" + post, INCLUDE, |pre|)
    ensures CheckInclude(pre + IncludeLine(name) + "\n" + post, |pre|) == Ok(Directive(name, IncludeLine(name)))
    ensures CheckIncludeAsWritten(pre + IncludeLine(name) + "\n" + post, |pre|) == Ok(Directive(name, IncludeLine(name)))
  {
    var text := pre + IncludeLine(name) + "\n" + post;
    var sp := |pre|;
    IncludeLineLayout(pre, name, post);
    IncludeLineSearches(pre, name, post);
    assert OnlySpaces(text, sp + STEP, sp + STEP + 1);
    assert OnlySpaces(text, sp + STEP + 1, sp + STEP + 1);
  }

  /** The two versions agree unless the character after the directive is neither a space, a quote nor a newline. */
  lemma CheckIncludeAgrees(text: string, sp: nat)
    requires OccursAt(text, INCLUDE, sp)
    requires sp + STEP < |text| ==> text[sp + STEP] in " \"\n"
    ensures CheckInclude(text, sp) == CheckIncludeAsWritten(text, sp)
  {
    assert forall k :: sp <= k < sp + STEP ==> text[k] == INCLUDE[k - sp];
  }

  /** `#includeX"a"` is accepted as written and rejected when the character after the directive is checked. */
  lemma IncludeAsWrittenSkipsCharacter()
    ensures OccursAt("#includeX\"a\"\n", INCLUDE, 0)
    ensures CheckIncludeAsWritten("#includeX\"a\"\n", 0) == Ok(Directive("a", "#includeX\"a\""))
    ensures CheckInclude("#includeX\"a\"\n", 0) == Err(ExpectFilename)
  {
    var text := "#includeX\"a\"\n";
    assert text[0..STEP] == INCLUDE;
    assert IndexOf(text, '\n', 0) == Some(12);
    assert IndexOf(text, '"', 0) == Some(9);
    assert IndexOf(text, '"', 10) == Some(11);
    assert text[10..11] == "a";
    assert text[0..12] == "#includeX\"a\"";
    assert !OnlySpaces(text, STEP, 9);
  }

  // ---------------------------------------------------------------------------
  // Include expansion

  /**
    * The loop of `load_shader_text` from search start `p`: the next directive at or
    * after `p` is checked, the named file is loaded and the first occurrence of the
    * directive line in the text is replaced by it; the search then resumes at `p + 8`
    * in the new text, whether or not something was found. The loop ends once `p`
    * reaches `size`, the length of the text as first loaded. `load` stands for
    * `asset_request` and `load_text`; None is a file that cannot be loaded.
    */
  function ExpandFrom(text: string, p: nat, size: nat, spacesFrom: nat, load: string -> Option<string>): (r: Result<string, IncludeError>)
    decreases size - p
  {
    if p >= size then Ok(text)
    else
      match Find(text, INCLUDE, p)
      case None => ExpandFrom(text, p + STEP, size, spacesFrom, load)
      case Some(sp) =>
        match CheckIncludeFrom(text, sp, spacesFrom)
        case Err(e) => Err(e)
        case Ok(d) =>
          match load(d.name)
          case None => Err(UnknownInclude)
          case Some(inserted) => ExpandFrom(ReplaceFirst(text, d.origin, inserted), p + STEP, size, spacesFrom, load)
  }

  function LoadShaderTextAsWritten(text: string, load: string -> Option<string>): Result<string, IncludeError>
  {
    ExpandFrom(text, 0, |text|, STEP + 1, load)
  }

  /** `load_shader_text` with the character after the directive checked. */
  function LoadShaderText(text: string, load: string -> Option<string>): Result<string, IncludeError>
  {
    ExpandFrom(text, 0, |text|, STEP, load)
  }

  /** A text with no directive at or after `p` comes out of the loop unchanged. */
  lemma {:induction false} ExpandNothing(text: string, p: nat, size: nat, spacesFrom: nat, load: string -> Option<string>)
    requires Find(text, INCLUDE, p).None?
    ensures ExpandFrom(text, p, size, spacesFrom, load) == Ok(text)
    decreases size - p
  {
    if p < size {
      assert Find(text, INCLUDE, p + STEP).None?;
      ExpandNothing(text, p + STEP, size, spacesFrom, load);
    }
  }

  /** A shader without `#include` is returned as loaded. */
  lemma LoadWithoutIncludes(text: string, load: string -> Option<string>)
    requires Find(text, INCLUDE).None?
    ensures LoadShaderText(text, load) == Ok(text)
    ensures LoadShaderTextAsWritten(text, load) == Ok(text)
  {
    ExpandNothing(text, 0, |text|, STEP, load);
    ExpandNothing(text, 0, |text|, STEP + 1, load);
  }

  /** No directive starts inside `pre` when a directive follows it. */
  predicate NoDirectiveIn(pre: string)
  {
    forall k :: 0 <= k < |pre| ==> !OccursAt(pre + INCLUDE, INCLUDE, k)
  }

  /** The directive line after `pre` is the first directive from any `p` up to it, and the first copy of its line. */
  lemma FindDirectiveLine(pre: string, name: string, post: string, p: nat)
    requires ValidIncludeName(name) && NoDirectiveIn(pre) && p <= |pre|
    ensures Find(pre + IncludeLine(name) + "\n" + post, INCLUDE, p) == Some(|pre|)
    ensures Find(pre + IncludeLine(name) + "\n" + post, IncludeLine(name)) == Some(|pre|)
  {
    var line := IncludeLine(name);
    var text := pre + line + "\n" + post;
    IncludeLineLayout(pre, name, post);
    assert text[..|pre| + STEP] == pre + INCLUDE;
    SamePrefixOccurs(text, pre + INCLUDE, INCLUDE, |pre|);
    assert OccursAt(text, INCLUDE, |pre|);
    FindIs(text, INCLUDE, p, |pre|);
    forall k | 0 <= k < |pre|
      ensures !OccursAt(text, line, k)
    {
      if OccursAt(text, line, k) {
        OccursPrefix(text, line, INCLUDE, k);
      }
    }
    assert OccursAt(text, line, |pre|);
    FindIs(text, line, 0, |pre|);
  }

  /** Replacing the first copy of the directive line puts the included text in its place. */
  lemma ReplaceDirectiveLine(pre: string, name: string, post: string, inserted: string)
    requires ValidIncludeName(name) && NoDirectiveIn(pre)
    ensures ReplaceFirst(pre + IncludeLine(name) + "\n" + post, IncludeLine(name), inserted) == pre + inserted + "\n" + post
  {
    var line := IncludeLine(name);
    var text := pre + line + "\n" + post;
    FindDirectiveLine(pre, name, post, 0);
    assert text[..|pre|] == pre;
    assert text[|pre| + |line|..] == "\n" + post;
    AppendAssoc(pre + inserted, "\n", post);
  }

  /**
    * One turn of the loop that finds the directive line after `pre`: the line is
    * replaced by the included text and the search resumes eight characters further.
    */
  lemma ExpandStep(pre: string, name: string, post: string, p: nat, size: nat, spacesFrom: nat,
                   load: string -> Option<string>)
    requires ValidIncludeName(name) && load(name).Some?
    requires NoDirectiveIn(pre) && p <= |pre| && p < size
    requires spacesFrom == STEP || spacesFrom == STEP + 1
    ensures ExpandFrom(pre + IncludeLine(name) + "\n" + post, p, size, spacesFrom, load) ==
            ExpandFrom(pre + load(name).value + "\n" + post, p + STEP, size, spacesFrom, load)
  {
    var text := pre + IncludeLine(name) + "\n" + post;
    CheckIncludeLine(pre, name, post);
    FindDirectiveLine(pre, name, post, p);
    ReplaceDirectiveLine(pre, name, post, load(name).value);
    assert CheckIncludeFrom(text, |pre|, spacesFrom) == Ok(Directive(name, IncludeLine(name)));
  }

  /** One pass over a text holding a single directive, whichever character check is in force. */
  lemma ExpandSingleWith(pre: string, name: string, post: string, spacesFrom: nat, load: string -> Option<string>)
    requires ValidIncludeName(name) && load(name).Some? && NoDirectiveIn(pre)
    requires spacesFrom == STEP || spacesFrom == STEP + 1
    requires Find(pre + load(name).value + "\n" + post, INCLUDE).None?
    ensures ExpandFrom(pre + IncludeLine(name) + "\n" + post, 0, |pre + IncludeLine(name) + "\n" + post|, spacesFrom, load) ==
            Ok(pre + load(name).value + "\n" + post)
  {
    var n := |pre + IncludeLine(name) + "\n" + post|;
    ExpandStep(pre, name, post, 0, n, spacesFrom, load);
    ExpandNothing(pre + load(name).value + "\n" + post, STEP, n, spacesFrom, load);
  }

  /** A single directive is replaced by the included text when nothing else is left to expand. */
  lemma ExpandSingle(pre: string, name: string, post: string, load: string -> Option<string>)
    requires ValidIncludeName(name) && load(name).Some? && NoDirectiveIn(pre)
    requires Find(pre + load(name).value + "\n" + post, INCLUDE).None?
    ensures LoadShaderText(pre + IncludeLine(name) + "\n" + post, load) ==
            Ok(pre + load(name).value + "\n" + post)
    ensures LoadShaderTextAsWritten(pre + IncludeLine(name) + "\n" + post, load) ==
            Ok(pre + load(name).value + "\n" + post)
  {
    ExpandSingleWith(pre, name, post, STEP, load);
    ExpandSingleWith(pre, name, post, STEP + 1, load);
  }

  /** The parts of a text after one expansion, grouped as the next expansion sees them. */
  lemma Regroup(pre: string, line: string, mid: string, post: string)
    ensures pre + (line + "\n" + mid) + "\n" + post == pre + line + "\n" + (mid + "\n" + post)
  {
  }

  lemma DropEmpty(s: string)
    ensures [] + s == s
  {
  }

  /** The first step of a nested expansion: the outer directive gives way to a text opening with another. */
  lemma OuterStep(pre: string, outer: string, inner: string, mid: string, post: string,
                  load: string -> Option<string>)
    requires ValidIncludeName(outer) && NoDirectiveIn(pre)
    requires load(outer) == Some(IncludeLine(inner) + "\n" + mid)
    ensures ExpandFrom(pre + IncludeLine(outer) + "\n" + post, 0, |pre + IncludeLine(outer) + "\n" + post|, STEP, load) ==
            ExpandFrom(pre + IncludeLine(inner) + "\n" + (mid + "\n" + post), STEP, |pre + IncludeLine(outer) + "\n" + post|, STEP, load)
  {
    var n := |pre + IncludeLine(outer) + "\n" + post|;
    ExpandStep(pre, outer, post, 0, n, STEP, load);
    Regroup(pre, IncludeLine(inner), mid, post);
  }

  /**
    * A directive at the start of an included file is expanded in turn when the outer
    * directive lies at least eight characters into the text, since the search
    * resumes eight characters after its previous start.
    */
  lemma ExpandNested(pre: string, outer: string, inner: string, mid: string, post: string,
                     load: string -> Option<string>)
    requires ValidIncludeName(outer) && ValidIncludeName(inner) && NoDirectiveIn(pre) && |pre| >= STEP
    requires load(outer) == Some(IncludeLine(inner) + "\n" + mid) && load(inner).Some?
    requires Find(pre + load(inner).value + "\n" + (mid + "\n" + post), INCLUDE).None?
    ensures LoadShaderText(pre + IncludeLine(outer) + "\n" + post, load) ==
            Ok(pre + load(inner).value + "\n" + (mid + "\n" + post))
  {
    var text := pre + IncludeLine(outer) + "\n" + post;
    var once := pre + IncludeLine(inner) + "\n" + (mid + "\n" + post);
    var result := pre + load(inner).value + "\n" + (mid + "\n" + post);
    var n := |text|;
    OuterStep(pre, outer, inner, mid, post, load);
    assert ExpandFrom(once, STEP, n, STEP, load) == ExpandFrom(result, 2 * STEP, n, STEP, load) by {
      ExpandStep(pre, inner, mid + "\n" + post, STEP, n, STEP, load);
    }
    assert ExpandFrom(result, 2 * STEP, n, STEP, load) == Ok(result) by {
      ExpandNothing(result, 2 * STEP, n, STEP, load);
    }
  }

  /**
    * A directive at the start of a file included at the very start of the text is
    * left in place: the search has already moved eight characters past it.
    */
  lemma NestedAtStartIsKept(inner: string, outer: string, rest: string, post: string,
                            load: string -> Option<string>)
    requires ValidIncludeName(outer) && ValidIncludeName(inner)
    requires load(outer) == Some(IncludeLine(inner) + rest)
    requires Find(IncludeLine(inner) + rest + "\n" + post, INCLUDE, 1).None?
    ensures LoadShaderText(IncludeLine(outer) + "\n" + post, load) == Ok(IncludeLine(inner) + rest + "\n" + post)
  {
    var text := IncludeLine(outer) + "\n" + post;
    var once := IncludeLine(inner) + rest + "\n" + post;
    var n := |text|;
    assert ExpandFrom(text, 0, n, STEP, load) == ExpandFrom(once, STEP, n, STEP, load) by {
      DropEmpty(IncludeLine(outer));
      ExpandStep([], outer, post, 0, n, STEP, load);
      DropEmpty(IncludeLine(inner) + rest);
    }
    assert ExpandFrom(once, STEP, n, STEP, load) == Ok(once) by {
      assert Find(once, INCLUDE, STEP).None?;
      ExpandNothing(once, STEP, n, STEP, load);
    }
  }

  // ---------------------------------------------------------------------------
  // The text handed to the loop

  /**
    * `load_text` as written: the buffer has room for the file's size including the
    * terminator, so one byte fewer than the file holds is read; an empty file gives NULL.
    */
  function LoadTextAsWritten(file: string): (r: Option<string>)
    ensures r.None? <==> file == []
    ensures r.Some? ==> |r.value| + 1 == |file| && file[..|r.value|] == r.value
  {
    if file == [] then None else Some(file[..|file| - 1])
  }

  /** `load_text` reading the whole file, with the terminator in a byte of its own. */
  function LoadText(file: string): (r: Option<string>)
    ensures r.None? <==> file == []
    ensures r.Some? ==> r.value == file
  {
    if file == [] then None else Some(file)
  }

  /**
    * A shader whose last line is a directive, newline included: as written the newline
    * is not read, so the directive has no line end, where the source computes the
    * line's length from a null pointer; read whole, the directive is replaced.
    */
  lemma IncludeOnLastLineLosesNewline(name: string, load: string -> Option<string>)
    requires ValidIncludeName(name) && load(name).Some?
    requires Find(load(name).value + "\n", INCLUDE).None?
    ensures LoadTextAsWritten(IncludeLine(name) + "\n") == Some(IncludeLine(name))
    ensures LoadShaderText(IncludeLine(name), load) == Err(Unterminated)
    ensures LoadShaderTextAsWritten(IncludeLine(name), load) == Err(Unterminated)
    ensures LoadText(IncludeLine(name) + "\n") == Some(IncludeLine(name) + "\n")
    ensures LoadShaderText(IncludeLine(name) + "\n", load) == Ok(load(name).value + "\n")
  {
    var line := IncludeLine(name);
    assert (line + "\n")[..|line|] == line;
    IncludeLineLayout([], name, []);
    assert [] + line + "\n" + [] == line + "\n";
    assert line[..STEP] == INCLUDE;
    assert OccursAt(line, INCLUDE, 0);
    FindIs(line, INCLUDE, 0, 0);
    assert forall k :: 0 <= k < |line| ==> line[k] == (line + "\n")[k];
    assert IndexOf(line, '\n', 0).None?;
    assert [] + load(name).value + "\n" + [] == load(name).value + "\n";
    ExpandSingle([], name, [], load);
    assert [] + load(name).value + "\n" + [] == load(name).value + "\n";
  }

  // ---------------------------------------------------------------------------
  // Uniforms and attributes

  /** What the linked program reports for one active uniform or attribute, and its location. */
  datatype Active = Active(name: string, num: int, glType: u32, location: int)

  /** `UNIFORM` and `ATTRIBUTE`, which have the same fields. */
  datatype Variable = Variable(name: string, nameHash: u32, location: int, num: int, glType: u32)

  /**
    * The name as the introspection query stores it: the buffer size passed is one
    * less than the 80-byte field, so at most 78 characters and the terminator.
    */
  function QueriedName(a: Active): (s: string)
    ensures |s| <= MAX_NAME_SIZE - 2 && |s| <= |a.name| && s == a.name[..|s|]
  {
    a.name[..Min(|a.name|, MAX_NAME_SIZE - 2)]
  }

  /** The stored uniform name: for an array (`num > 1`) it is cut at its first '['. */
  function UniformName(a: Active): (s: string)
    ensures |s| <= MAX_NAME_SIZE - 2 && |s| <= |a.name| && s == a.name[..|s|]
    ensures a.num > 1 ==> '[' !in s
  {
    var q := QueriedName(a);
    if a.num > 1 then
      match IndexOf(q, '[')
      case None => q
      case Some(i) => q[..i]
    else q
  }

  function UniformOf(a: Active, hash: string -> u32): Variable
  {
    var n := UniformName(a);
    Variable(n, hash(n), a.location, a.num, a.glType)
  }

  function AttributeOf(a: Active, hash: string -> u32): Variable
  {
    var n := QueriedName(a);
    Variable(n, hash(n), a.location, a.num, a.glType)
  }

  /** `get_program_uniforms`: one record per active uniform, in the program's order. */
  function ProgramUniforms(actives: seq<Active>, hash: string -> u32): (vs: seq<Variable>)
    ensures |vs| == |actives|
    ensures forall i :: 0 <= i < |vs| ==> vs[i] == UniformOf(actives[i], hash)
  {
    seq(|actives|, i requires 0 <= i < |actives| => UniformOf(actives[i], hash))
  }

  /** `get_program_attributes`: one record per active attribute, in the program's order. */
  function ProgramAttributes(actives: seq<Active>, hash: string -> u32): (vs: seq<Variable>)
    ensures |vs| == |actives|
    ensures forall i :: 0 <= i < |vs| ==> vs[i] == AttributeOf(actives[i], hash)
  {
    seq(|actives|, i requires 0 <= i < |actives| => AttributeOf(actives[i], hash))
  }

  /** The index of the first record whose name hash is `h`. */
  function FindHash(vs: seq<Variable>, h: u32): (r: Option<nat>)
    ensures r.Some? ==> r.value < |vs| && vs[r.value].nameHash == h
    ensures r.Some? ==> forall j :: 0 <= j < r.value ==> vs[j].nameHash != h
    ensures r.None? <==> forall j :: 0 <= j < |vs| ==> vs[j].nameHash != h
  {
    if vs == [] then None
    else if vs[0].nameHash == h then Some(0)
    else
      match FindHash(vs[1..], h)
      case None => None
      case Some(i) => Some(i + 1)
  }

  /** `shader_get_uniform` and `shader_get_attribute`: the location of the first record with the name's hash, else -1. */
  function GetLocation(vs: seq<Variable>, name: string, hash: string -> u32): (r: int)
    ensures (forall j :: 0 <= j < |vs| ==> vs[j].nameHash != hash(name)) ==> r == -1
    ensures forall i :: (0 <= i < |vs| && vs[i].nameHash == hash(name) &&
      (forall j :: 0 <= j < i ==> vs[j].nameHash != hash(name))) ==> r == vs[i].location
  {
    match FindHash(vs, hash(name))
    case None => -1
    case Some(i) => vs[i].location
  }

  /** `shader_uniform_type`: the type of the first record with the name's hash, else 0. */
  function UniformType(vs: seq<Variable>, name: string, hash: string -> u32): (r: u32)
    ensures (forall j :: 0 <= j < |vs| ==> vs[j].nameHash != hash(name)) ==> r == 0
    ensures forall i :: (0 <= i < |vs| && vs[i].nameHash == hash(name) &&
      (forall j :: 0 <= j < i ==> vs[j].nameHash != hash(name))) ==> r == vs[i].glType
  {
    match FindHash(vs, hash(name))
    case None => 0
    case Some(i) => vs[i].glType
  }

  /**
    * An array uniform reported as `base[0]` is found under `base` when no earlier
    * uniform's stored name has the same hash, and its type is reported.
    */
  lemma ArrayUniformByBaseName(actives: seq<Active>, i: nat, base: string, hash: string -> u32)
    requires i < |actives| && actives[i].num > 1
    requires actives[i].name == base + "[0]" && '[' !in base && |base| + 3 <= MAX_NAME_SIZE - 2
    requires forall j :: 0 <= j < i ==> hash(UniformName(actives[j])) != hash(base)
    ensures GetLocation(ProgramUniforms(actives, hash), base, hash) == actives[i].location
    ensures UniformType(ProgramUniforms(actives, hash), base, hash) == actives[i].glType
  {
    var a := actives[i];
    assert QueriedName(a) == base + "[0]";
    IndexOfIs(QueriedName(a), '[', 0, |base|);
    assert QueriedName(a)[..|base|] == base;
    assert UniformName(a) == base;
  }

  /** A plain uniform or an attribute is found under its full name under the same condition. */
  lemma VariableByName(actives: seq<Active>, i: nat, hash: string -> u32)
    requires i < |actives| && actives[i].num <= 1 && |actives[i].name| <= MAX_NAME_SIZE - 2
    requires forall j :: 0 <= j < i ==> hash(UniformName(actives[j])) != hash(actives[i].name)
    requires forall j :: 0 <= j < i ==> hash(QueriedName(actives[j])) != hash(actives[i].name)
    ensures GetLocation(ProgramUniforms(actives, hash), actives[i].name, hash) == actives[i].location
    ensures GetLocation(ProgramAttributes(actives, hash), actives[i].name, hash) == actives[i].location
  {
    assert QueriedName(actives[i]) == actives[i].name;
  }
}
