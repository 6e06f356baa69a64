/**
  * The configuration store (neon/src/core/configs.c): `key value` lines parsed into
  * typed items appended to one list, looked up by the key's hash. The hash function
  * and `atof` are parameters; float values are an opaque type `F`.
  */
module Configs {
  import opened Wrappers
  import opened Bytes
  import opened Text
  import opened Tokenizer
  import opened Scan
  import opened RwText

  /** `MAX_CONFIGS_STR_KEY_SIZE`: the key buffer and the scan limit of the number checks. */
  const MAX_KEY: nat := 200
  /** `MAX_VARIANT_STR_SIZE`: the string value buffer. */
  const MAX_STRING: nat := 255
  /** The line buffer of `load_config`. */
  const LINE_BUFFER: nat := 256
  const DELIMS: string := " \r\n"

  /** A character the number checks accept: a digit, '-', and '.' when `dot`. */
  predicate NumberChar(c: char, dot: bool)
  {
    IsDigit(c) || c == '-' || (dot && c == '.')
  }

  /** Every character among the first 200 is accepted. */
  predicate NumberText(s: string, dot: bool)
  {
    forall k :: 0 <= k < |s| && k < MAX_KEY ==> NumberChar(s[k], dot)
  }

  /** The scanning loop of `isint`/`isfloat` from position `from` on. */
  function ScanNumber(s: string, from: nat, dot: bool): (ok: bool)
    ensures ok <==> forall k :: from <= k < |s| && k < MAX_KEY ==> NumberChar(s[k], dot)
    decreases |s| - from
  {
    if from >= |s| || from >= MAX_KEY then true
    else if !NumberChar(s[from], dot) then false
    else ScanNumber(s, from + 1, dot)
  }

  /** `isint`: false for a null token, else digits and '-' only (so "" and "-" qualify). */
  function IsInt(token: Option<string>): (b: bool)
    ensures b <==> token.Some? && NumberText(token.value, false)
  {
    token.Some? && ScanNumber(token.value, 0, false)
  }

  /** `isfloat`: as `isint`, with '.' accepted too. */
  function IsFloat(token: Option<string>): (b: bool)
    ensures b <==> token.Some? && NumberText(token.value, true)
  {
    token.Some? && ScanNumber(token.value, 0, true)
  }

  /** Every int text is a float text; the converse fails at a '.'. */
  lemma IntIsFloat(token: Option<string>)
    ensures IsInt(token) ==> IsFloat(token)
    ensures IsFloat(Some(".")) && !IsInt(Some("."))
  {
    assert !NumberChar("."[0], false);
  }

  /** `atoi`: an optional sign and the digits after it; 0 when there are none. */
  function Atoi(s: string): (v: int)
    ensures AllDigits(s) && s != [] ==> v == Value(s[..DigitRun(s)])
  {
    match ScanInt(s)
    case None => 0
    case Some(x) => x.0
  }

  /** The payload of a `VARIANT`; a null string token is kept as None. */
  datatype Variant<F> = IntValue(i: int) | FloatValue(f: F) | StringValue(s: Option<string>)

  datatype Item<F> = Item(key: string, value: Variant<F>, hash: u32)

  /** At most n leading characters (`strncpy` into an n-byte buffer). */
  function Truncate(s: string, n: nat): (t: string)
    ensures |t| <= n && |t| <= |s| && t == s[..|t|]
    ensures |s| <= n ==> t == s
  {
    if |s| <= n then s else s[..n]
  }

  /** The value of the second token: int if `isint`, else float if `isfloat`, else string. */
  function Typed<F>(token: Option<string>, atof: string -> F): (v: Variant<F>)
    ensures v.IntValue? <==> IsInt(token)
    ensures v.FloatValue? <==> !IsInt(token) && IsFloat(token)
    ensures v.StringValue? ==> v.s == (if token.Some? then Some(Truncate(token.value, MAX_STRING)) else None)
  {
    if IsInt(token) then IntValue(Atoi(token.value))
    else if IsFloat(token) then FloatValue(atof(token.value))
    else StringValue(if token.Some? then Some(Truncate(token.value, MAX_STRING)) else None)
  }

  /** One line: skipped if it starts with '#' or holds no token, else the item for its first two tokens. */
  function ParseLine<F>(line: string, hash: string -> u32, atof: string -> F): (r: Option<Item<F>>)
    ensures line != [] && line[0] == '#' ==> r.None?
    ensures (forall k :: 0 <= k < |line| ==> line[k] in DELIMS) ==> r.None?
    ensures r.Some? ==> var first := StrTok(line, 0, DELIMS);
      first.token.Some? && r.value.hash == hash(first.token.value) &&
      r.value.key == Truncate(first.token.value, MAX_KEY) &&
      r.value.value == Typed(StrTok(line, first.next, DELIMS).token, atof)
  {
    if line != [] && line[0] == '#' then None
    else
      var first := StrTok(line, 0, DELIMS);
      match first.token
      case None => None
      case Some(key) =>
        var second := StrTok(line, first.next, DELIMS);
        Some(Item(Truncate(key, MAX_KEY), Typed(second.token, atof), hash(key)))
  }

  /** The items of the lines, in order, appended to the list already loaded. */
  function LoadLines<F>(items: seq<Item<F>>, lines: seq<string>, hash: string -> u32, atof: string -> F): (r: seq<Item<F>>)
    ensures |items| <= |r| <= |items| + |lines| && r[..|items|] == items
    decreases |lines|
  {
    if lines == [] then items
    else
      var next := match ParseLine(lines[0], hash, atof)
        case None => items
        case Some(item) => items + [item];
      var r := LoadLines(next, lines[1..], hash, atof);
      assert r[..|items|] == r[..|next|][..|items|];
      r
  }

  datatype ConfigError = CannotOpen | UnterminatedLine

  /**
    * `load_config`: -1 when the file cannot be opened; otherwise its lines are read with
    * a 256-byte buffer and appended. A last line without a newline is an error here.
    */
  function LoadConfig<F>(items: seq<Item<F>>, file: Option<string>, hash: string -> u32, atof: string -> F): (r: Result<seq<Item<F>>, ConfigError>)
    ensures file.None? <==> r == Err(CannotOpen)
    ensures r.Ok? ==> var read := ReadLines(Stream(file.value, 0), LINE_BUFFER);
      read.1 && r.value == LoadLines(items, read.0, hash, atof)
  {
    match file
    case None => Err(CannotOpen)
    case Some(data) =>
      var read := ReadLines(Stream(data, 0), LINE_BUFFER);
      if !read.1 then Err(UnterminatedLine) else Ok(LoadLines(items, read.0, hash, atof))
  }

  /** `find_item`: the first item in load order carrying the hash. */
  function FindItem<F>(items: seq<Item<F>>, h: u32): (r: Option<nat>)
    ensures r.Some? ==> r.value < |items| && items[r.value].hash == h
    ensures r.Some? ==> forall j :: 0 <= j < r.value ==> items[j].hash != h
    ensures r.None? <==> forall j :: 0 <= j < |items| ==> items[j].hash != h
  {
    if items == [] then None
    else if items[0].hash == h then Some(0)
    else
      match FindItem(items[1..], h)
      case None => None
      case Some(i) => Some(i + 1)
  }

  /** The variant found for a key, if any. */
  function Lookup<F>(items: seq<Item<F>>, key: string, hash: string -> u32): (v: Option<Variant<F>>)
    ensures v.Some? <==> exists j :: 0 <= j < |items| && items[j].hash == hash(key)
    ensures v.Some? ==> v.value == items[FindItem(items, hash(key)).value].value
  {
    match FindItem(items, hash(key))
    case None => None
    case Some(i) => Some(items[i].value)
  }

  /** `configs_int`: the found value if it is an int, else 0. */
  function ConfigsInt<F>(items: seq<Item<F>>, key: string, hash: string -> u32): (v: int)
    ensures (Lookup(items, key, hash).Some? && Lookup(items, key, hash).value.IntValue?) ==>
            v == Lookup(items, key, hash).value.i
    ensures !(Lookup(items, key, hash).Some? && Lookup(items, key, hash).value.IntValue?) ==> v == 0
  {
    match Lookup(items, key, hash)
    case Some(IntValue(i)) => i
    case _ => 0
  }

  /** `configs_float`: the found value if it is a float, else `zero`. */
  function ConfigsFloat<F>(items: seq<Item<F>>, key: string, hash: string -> u32, zero: F): (v: F)
    ensures (Lookup(items, key, hash).Some? && Lookup(items, key, hash).value.FloatValue?) ==>
            v == Lookup(items, key, hash).value.f
    ensures !(Lookup(items, key, hash).Some? && Lookup(items, key, hash).value.FloatValue?) ==> v == zero
  {
    match Lookup(items, key, hash)
    case Some(FloatValue(f)) => f
    case _ => zero
  }

  /** `configs_string`: the found value if it is a string, else null. */
  function ConfigsString<F>(items: seq<Item<F>>, key: string, hash: string -> u32): (v: Option<string>)
    ensures (Lookup(items, key, hash).Some? && Lookup(items, key, hash).value.StringValue?) ==>
            v == Lookup(items, key, hash).value.s
    ensures !(Lookup(items, key, hash).Some? && Lookup(items, key, hash).value.StringValue?) ==> v.None?
  {
    match Lookup(items, key, hash)
    case Some(StringValue(s)) => s
    case _ => None
  }

  /**
    * Loading more items never changes what a key already present answers: the first
    * item with the hash keeps winning over later duplicates.
    */
  lemma EarlierItemWins<F>(items: seq<Item<F>>, more: seq<Item<F>>, key: string, hash: string -> u32)
    requires exists j :: 0 <= j < |items| && items[j].hash == hash(key)
    ensures Lookup(items + more, key, hash) == Lookup(items, key, hash)
  {
    var i := FindItem(items, hash(key)).value;
    var r := FindItem(items + more, hash(key));
    assert (items + more)[i] == items[i];
  }

  /** A setting as a writer would put it in a file. */
  datatype Setting = IntSetting(name: string, n: int) | StringSetting(name: string, text: string)

  /** A token the tokenizer returns whole: non-empty, without delimiters. */
  predicate Word(s: string)
  {
    s != [] && forall k :: 0 <= k < |s| ==> s[k] !in DELIMS
  }

  /** A key that reads back unchanged, and a string value the number checks reject. */
  predicate ValidSetting(s: Setting)
  {
    Word(s.name) && |s.name| <= MAX_KEY && s.name[0] != '#' &&
    (s.StringSetting? ==> Word(s.text) && |s.text| <= MAX_STRING && !NumberText(s.text, true))
  }

  function SettingLine(s: Setting): string
  {
    s.name + " " + (match s case IntSetting(_, n) => Render(n) case StringSetting(_, t) => t)
  }

  function ItemOf<F>(s: Setting, hash: string -> u32): Item<F>
  {
    Item(s.name, match s case IntSetting(_, n) => IntValue(n) case StringSetting(_, t) => StringValue(Some(t)), hash(s.name))
  }

  /** The tokenizer splits `name value` into its two words. */
  lemma TwoWords(a: string, b: string)
    requires Word(a) && Word(b)
    ensures var line := a + " " + b;
      var first := StrTok(line, 0, DELIMS);
      first.token == Some(a) && first.next == |a| + 1 && StrTok(line, first.next, DELIMS).token == Some(b)
  {
    FirstWord(a, b);
    SecondWord(a, b);
  }

  lemma FirstWord(a: string, b: string)
    requires Word(a) && Word(b)
    ensures StrTok(a + " " + b, 0, DELIMS) == Step(Some(a), |a| + 1)
  {
    var line := a + " " + b;
    assert forall k :: 0 <= k < |a| ==> line[k] == a[k];
    assert line[|a|] == ' ';
    StrTokAt(line, 0, 0, |a|, DELIMS);
    assert line[0..|a|] == a;
  }

  lemma SecondWord(a: string, b: string)
    requires Word(a) && Word(b)
    ensures StrTok(a + " " + b, |a| + 1, DELIMS).token == Some(b)
  {
    var line := a + " " + b;
    assert forall k :: |a| + 1 <= k < |line| ==> line[k] == b[k - |a| - 1];
    StrTokAt(line, |a| + 1, |a| + 1, |line|, DELIMS);
    assert line[|a| + 1..|line|] == b;
  }

  /** A rendered number is a word. */
  lemma RenderIsWord(n: int)
    ensures Word(Render(n)) && NumberText(Render(n), false)
  {
  }

  /** A line of two words not starting with '#' is the item of its key and typed value. */
  lemma ParseWords<F>(a: string, b: string, hash: string -> u32, atof: string -> F)
    requires Word(a) && Word(b) && a[0] != '#'
    ensures ParseLine(a + " " + b, hash, atof) == Some(Item(Truncate(a, MAX_KEY), Typed(Some(b), atof), hash(a)))
  {
    TwoWords(a, b);
    assert (a + " " + b)[0] == a[0];
  }

  /** A rendered number is typed as that int. */
  lemma TypedRender<F>(n: int, atof: string -> F)
    ensures Typed(Some(Render(n)), atof) == IntValue(n)
  {
    RenderIsWord(n);
    ScanRendered(n, "");
    assert Render(n) + "" == Render(n);
  }

  /** A written setting line parses back to the setting's item. */
  lemma ParseSettingLine<F>(s: Setting, hash: string -> u32, atof: string -> F)
    requires ValidSetting(s)
    ensures ParseLine(SettingLine(s), hash, atof) == Some(ItemOf(s, hash))
  {
    match s
    case IntSetting(name, n) =>
      RenderIsWord(n);
      ParseWords(name, Render(n), hash, atof);
      TypedRender(n, atof);
    case StringSetting(name, t) =>
      ParseWords(name, t, hash, atof);
  }

  function SettingLines(ss: seq<Setting>): (lines: seq<string>)
    ensures |lines| == |ss|
  {
    if ss == [] then [] else [SettingLine(ss[0])] + SettingLines(ss[1..])
  }

  function ItemsOf<F>(ss: seq<Setting>, hash: string -> u32): (items: seq<Item<F>>)
    ensures |items| == |ss|
  {
    if ss == [] then [] else [ItemOf(ss[0], hash)] + ItemsOf(ss[1..], hash)
  }

  /** One step of the load loop over a line that yields an item. */
  lemma LoadLinesStep<F>(items: seq<Item<F>>, line: string, rest: seq<string>, item: Item<F>,
                         hash: string -> u32, atof: string -> F)
    requires ParseLine(line, hash, atof) == Some(item)
    ensures LoadLines(items, [line] + rest, hash, atof) == LoadLines(items + [item], rest, hash, atof)
  {
    assert ([line] + rest)[0] == line && ([line] + rest)[1..] == rest;
  }

  /** The first written setting of a file is loaded as its item. */
  lemma LoadFirstSetting<F>(items: seq<Item<F>>, ss: seq<Setting>, hash: string -> u32, atof: string -> F)
    requires ss != [] && ValidSetting(ss[0])
    ensures LoadLines(items, SettingLines(ss), hash, atof) ==
            LoadLines(items + [ItemOf(ss[0], hash)], SettingLines(ss[1..]), hash, atof)
  {
    ParseSettingLine<F>(ss[0], hash, atof);
    LoadLinesStep(items, SettingLine(ss[0]), SettingLines(ss[1..]), ItemOf(ss[0], hash), hash, atof);
  }

  predicate ValidSettings(ss: seq<Setting>)
  {
    ss == [] || (ValidSetting(ss[0]) && ValidSettings(ss[1..]))
  }

  lemma ItemsOfCons<F>(items: seq<Item<F>>, ss: seq<Setting>, hash: string -> u32)
    requires ss != []
    ensures items + [ItemOf(ss[0], hash)] + ItemsOf<F>(ss[1..], hash) == items + ItemsOf<F>(ss, hash)
  {
  }

  /** A file of written settings loads as their items, appended in order. */
  lemma {:induction false} LoadSettings<F>(items: seq<Item<F>>, ss: seq<Setting>, hash: string -> u32, atof: string -> F)
    requires ValidSettings(ss)
    ensures LoadLines(items, SettingLines(ss), hash, atof) == items + ItemsOf(ss, hash)
    decreases |ss|
  {
    if ss != [] {
      var item: Item<F> := ItemOf(ss[0], hash);
      LoadFirstSetting(items, ss, hash, atof);
      LoadSettings(items + [item], ss[1..], hash, atof);
      ItemsOfCons<F>(items, ss, hash);
    }
  }

  /** A file of one line that yields an item appends that item. */
  lemma LoadOneLine<F>(items: seq<Item<F>>, line: string, item: Item<F>, hash: string -> u32, atof: string -> F)
    requires ParseLine(line, hash, atof) == Some(item)
    ensures LoadLines(items, [line], hash, atof) == items + [item]
  {
    LoadLinesStep(items, line, [], item, hash, atof);
    assert [line] + [] == [line];
  }

  /** An item appended after items without its hash is the one found. */
  lemma FindAppended<F>(items: seq<Item<F>>, item: Item<F>)
    requires forall j :: 0 <= j < |items| ==> items[j].hash != item.hash
    ensures FindItem(items + [item], item.hash) == Some(|items|)
  {
    var r := FindItem(items + [item], item.hash);
    assert (items + [item])[|items|] == item;
    assert forall j :: 0 <= j < |items| ==> (items + [item])[j] == items[j];
  }

  /** An int setting written to a file reads back through `configs_int`, when it is the first with its hash. */
  lemma ConfigsIntReadsSetting<F>(items: seq<Item<F>>, name: string, n: int, hash: string -> u32, atof: string -> F)
    requires ValidSetting(IntSetting(name, n))
    requires forall j :: 0 <= j < |items| ==> items[j].hash != hash(name)
    ensures ConfigsInt(LoadLines(items, [SettingLine(IntSetting(name, n))], hash, atof), name, hash) == n
  {
    var item: Item<F> := ItemOf(IntSetting(name, n), hash);
    ParseSettingLine<F>(IntSetting(name, n), hash, atof);
    LoadOneLine(items, SettingLine(IntSetting(name, n)), item, hash, atof);
    FindAppended(items, item);
  }

  /** A value of only '-' passes the int check and is stored as 0; a lone '.' is a float. */
  lemma DashIsInt<F>(atof: string -> F)
    ensures Typed(Some("-"), atof) == IntValue(0)
    ensures Typed(Some("."), atof) == FloatValue(atof("."))
  {
    assert NumberChar("-"[0], false);
    assert !NumberChar("."[0], false);
    assert SpaceRun("-") == 0;
    assert DigitRun("-"[1..]) == 0;
  }
}
