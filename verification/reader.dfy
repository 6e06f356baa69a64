/**
  * Extension-based reader dispatch (neon/src/core/reader.c): `read_text` and
  * `read_texture` pick the first entry of a fixed table whose extension equals the
  * name's extension up to letter case, request the asset and run a reader on it.
  * The readers themselves (shader text, plain text, TGA) are modelled in their own
  * modules; here their outcome is a parameter `run(reader, name)`.
  */
module Reader {
  import opened Wrappers
  import opened Text

  /** The readers the tables point at. */
  datatype TextReader = ShaderText | PlainText
  datatype TextureReader = TargaTexture

  /** One table entry: an extension with its dot, and its reader. */
  datatype Entry<R> = Entry(ext: string, reader: R)

  /** `asset_reader.texts`, up to its terminating entry (".frag" is listed twice). */
  const TEXT_READERS: seq<Entry<TextReader>> := [
    Entry(".frag", ShaderText), Entry(".vert", ShaderText), Entry(".frag", ShaderText),
    Entry(".geom", ShaderText), Entry(".glsl", ShaderText),
    Entry(".map", PlainText), Entry(".lua", PlainText), Entry(".lang", PlainText)]

  /** `asset_reader.textures`, up to its terminating entry. */
  const TEXTURE_READERS: seq<Entry<TextureReader>> := [Entry(".tga", TargaTexture), Entry(".tpic", TargaTexture)]

  /** Both read functions return -1 for these and 0 on success. */
  datatype ReadError = NoReader | ReadFailed

  /** What `read_text` stores in `TEXT_DATA`. */
  datatype TextData = TextData(text: string, size: nat, capacity: nat)

  /** The scan of a table: the first entry whose extension matches `ext` ignoring case. */
  function FindReader<R>(table: seq<Entry<R>>, ext: string): (r: Option<nat>)
    ensures r.Some? ==> r.value < |table| && EqualsIgnoreCase(ext, table[r.value].ext)
    ensures r.Some? ==> forall k :: 0 <= k < r.value ==> !EqualsIgnoreCase(ext, table[k].ext)
    ensures r.None? <==> forall k :: 0 <= k < |table| ==> !EqualsIgnoreCase(ext, table[k].ext)
  {
    if table == [] then None
    else if EqualsIgnoreCase(ext, table[0].ext) then Some(0)
    else match FindReader(table[1..], ext)
      case None => None
      case Some(i) => Some(i + 1)
  }

  /** A successful text read: the text and size the reader produced, capacity one more for the terminator. */
  function TextOutcome(read: Option<(string, nat)>): (r: Result<TextData, ReadError>)
    ensures read.None? <==> r == Err(ReadFailed)
    ensures r.Ok? ==> r.value.text == read.value.0 && r.value.size == read.value.1 && r.value.capacity == r.value.size + 1
  {
    match read
    case None => Err(ReadFailed)
    case Some((text, size)) => Ok(TextData(text, size, size + 1))
  }

  /** `read_text` as written: on a match it runs the reader of entry 0, whatever entry matched. */
  function ReadTextAsWritten(name: string, run: (TextReader, string) -> Option<(string, nat)>): (r: Result<TextData, ReadError>)
    ensures FindReader(TEXT_READERS, Extension(name)).None? <==> r == Err(NoReader)
    ensures FindReader(TEXT_READERS, Extension(name)).Some? ==> r == TextOutcome(run(TEXT_READERS[0].reader, name))
  {
    match FindReader(TEXT_READERS, Extension(name))
    case None => Err(NoReader)
    case Some(_) => TextOutcome(run(TEXT_READERS[0].reader, name))
  }

  /** `read_text` running the reader of the entry that matched. */
  function ReadText(name: string, run: (TextReader, string) -> Option<(string, nat)>): (r: Result<TextData, ReadError>)
    ensures FindReader(TEXT_READERS, Extension(name)).None? <==> r == Err(NoReader)
    ensures FindReader(TEXT_READERS, Extension(name)).Some? ==>
      r == TextOutcome(run(TEXT_READERS[FindReader(TEXT_READERS, Extension(name)).value].reader, name))
  {
    match FindReader(TEXT_READERS, Extension(name))
    case None => Err(NoReader)
    case Some(i) => TextOutcome(run(TEXT_READERS[i].reader, name))
  }

  /** `read_texture` as written: on a match it runs the reader of entry 0. */
  function ReadTextureAsWritten<I>(name: string, run: (TextureReader, string) -> Option<I>): (r: Result<I, ReadError>)
    ensures FindReader(TEXTURE_READERS, Extension(name)).None? <==> r == Err(NoReader)
    ensures FindReader(TEXTURE_READERS, Extension(name)).Some? ==>
      (run(TEXTURE_READERS[0].reader, name).None? <==> r == Err(ReadFailed))
  {
    match FindReader(TEXTURE_READERS, Extension(name))
    case None => Err(NoReader)
    case Some(_) =>
      match run(TEXTURE_READERS[0].reader, name)
      case None => Err(ReadFailed)
      case Some(image) => Ok(image)
  }

  /** `read_texture` running the reader of the entry that matched. */
  function ReadTexture<I>(name: string, run: (TextureReader, string) -> Option<I>): (r: Result<I, ReadError>)
    ensures FindReader(TEXTURE_READERS, Extension(name)).None? <==> r == Err(NoReader)
    ensures FindReader(TEXTURE_READERS, Extension(name)).Some? ==>
      var i := FindReader(TEXTURE_READERS, Extension(name)).value;
      (run(TEXTURE_READERS[i].reader, name).None? <==> r == Err(ReadFailed)) &&
      (r.Ok? ==> Some(r.value) == run(TEXTURE_READERS[i].reader, name))
  {
    match FindReader(TEXTURE_READERS, Extension(name))
    case None => Err(NoReader)
    case Some(i) =>
      match run(TEXTURE_READERS[i].reader, name)
      case None => Err(ReadFailed)
      case Some(image) => Ok(image)
  }

  /** Every texture entry names the TGA loader, so running entry 0 is the same as running the match. */
  lemma TextureEntryZeroHarmless<I>(name: string, run: (TextureReader, string) -> Option<I>)
    ensures ReadTextureAsWritten(name, run) == ReadTexture(name, run)
  {
    match FindReader(TEXTURE_READERS, Extension(name))
    case None =>
    case Some(i) => assert TEXTURE_READERS[i].reader == TEXTURE_READERS[0].reader;
  }

  /** For the shader extensions the first five entries name, entry 0 is the right reader. */
  lemma ShaderExtensionsAgree(name: string, run: (TextReader, string) -> Option<(string, nat)>)
    requires Extension(name) in [".frag", ".vert", ".geom", ".glsl"]
    ensures ReadTextAsWritten(name, run) == ReadText(name, run)
    ensures ReadText(name, run).Err? ==> ReadText(name, run) == Err(ReadFailed)
  {
    var ext := Extension(name);
    var j := if ext == ".frag" then 0 else if ext == ".vert" then 1 else if ext == ".geom" then 3 else 4;
    ShaderEntryMatches(ext, j);
    var i := FindReader(TEXT_READERS, ext);
    assert i.Some? && i.value <= j;
    assert TEXT_READERS[i.value].reader == ShaderText;
  }

  lemma ShaderEntryMatches(ext: string, j: nat)
    requires ext in [".frag", ".vert", ".geom", ".glsl"]
    requires j == (if ext == ".frag" then 0 else if ext == ".vert" then 1 else if ext == ".geom" then 3 else 4)
    ensures j < |TEXT_READERS| && EqualsIgnoreCase(ext, TEXT_READERS[j].ext)
  {
    assert ext == TEXT_READERS[j].ext;
  }

  /** Extensions match whatever their letter case: "SHADER.VERT" finds the ".vert" entry. */
  lemma UpperCaseExtensionMatches()
    ensures FindReader(TEXT_READERS, Extension("SHADER.VERT")) == Some(1)
  {
    ExtensionOfShaderVert();
    var ext := ".VERT";
    forall k | 0 <= k < 1 ensures !EqualsIgnoreCase(ext, TEXT_READERS[k].ext) {
      assert TEXT_READERS[k].ext == ".frag";
      assert ToLower(ext[1]) != ToLower(".frag"[1]);
    }
    assert EqualsIgnoreCase(ext, TEXT_READERS[1].ext) by {
      assert TEXT_READERS[1].ext == ".vert";
      assert ToLower('V') == 'v' && ToLower('E') == 'e' && ToLower('R') == 'r' && ToLower('T') == 't';
      forall i | 0 <= i < 5 ensures ToLower(ext[i]) == ToLower(".vert"[i]) {
        if i == 0 {} else if i == 1 {} else if i == 2 {} else if i == 3 {} else {}
      }
    }
    FirstMatch(TEXT_READERS, ext, 1);
  }

  lemma ExtensionOfShaderVert()
    ensures Extension("SHADER.VERT") == ".VERT"
  {
    var name := "SHADER.VERT";
    assert name[6] == '.' && name[7] != '.' && name[8] != '.' && name[9] != '.' && name[10] != '.';
    assert LastIndexOf(name, '.') == Some(6);
  }

  /** The lookup answers with the first entry that matches. */
  lemma FirstMatch<R>(table: seq<Entry<R>>, ext: string, i: nat)
    requires i < |table| && EqualsIgnoreCase(ext, table[i].ext)
    requires forall k :: 0 <= k < i ==> !EqualsIgnoreCase(ext, table[k].ext)
    ensures FindReader(table, ext) == Some(i)
  {
  }

  /**
    * The dispatch defect: "init.lua" matches the ".lua" entry, whose reader is the
    * plain text loader, but the text is read by entry 0's shader-text loader, so a
    * plain-text read that succeeds is reported as a failure when the shader loader
    * fails on the same asset, and vice versa.
    */
  lemma LuaReadByShaderLoader(run: (TextReader, string) -> Option<(string, nat)>)
    ensures FindReader(TEXT_READERS, Extension("init.lua")) == Some(6)
    ensures TEXT_READERS[6].reader == PlainText
    ensures ReadTextAsWritten("init.lua", run) == TextOutcome(run(ShaderText, "init.lua"))
    ensures ReadText("init.lua", run) == TextOutcome(run(PlainText, "init.lua"))
  {
    LuaExtension();
  }

  lemma LuaExtension()
    ensures FindReader(TEXT_READERS, Extension("init.lua")) == Some(6)
  {
    ExtensionOfInitLua();
    var ext := ".lua";
    forall k | 0 <= k < 6 ensures !EqualsIgnoreCase(ext, TEXT_READERS[k].ext) {
      if k == 0 || k == 2 || k == 1 || k == 3 || k == 4 {
        assert |TEXT_READERS[k].ext| == 5;
      } else {
        assert ToLower(ext[1]) != ToLower(TEXT_READERS[k].ext[1]);
      }
    }
    assert EqualsIgnoreCase(ext, TEXT_READERS[6].ext);
    FirstMatch(TEXT_READERS, ext, 6);
  }

  lemma ExtensionOfInitLua()
    ensures Extension("init.lua") == ".lua"
  {
    var name := "init.lua";
    assert name[4] == '.' && name[5] != '.' && name[6] != '.' && name[7] != '.';
    assert LastIndexOf(name, '.') == Some(4);
  }

  /** A concrete pair of loaders on which the two dispatches disagree for "init.lua". */
  lemma LuaReadAsWrittenFails()
    ensures var run := (r: TextReader, n: string) => if r == PlainText then Some(("x", 1)) else None;
      ReadTextAsWritten("init.lua", run) == Err(ReadFailed) &&
      ReadText("init.lua", run) == Ok(TextData("x", 1, 2))
  {
    var run := (r: TextReader, n: string) => if r == PlainText then Some(("x", 1)) else None;
    LuaReadByShaderLoader(run);
  }
}
