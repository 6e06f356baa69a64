/**
  * The language dictionary (neon/src/core/lang.c): `key "text"` lines loaded into a
  * list searched by the key's hash, the table of language names read from each
  * language file, and selection of a language by name. The XXH32 hash of the keys is a
  * parameter. `str_replace` (base/str_replace.h) is not part of this model; it is
  * taken to replace every `\n` pair, left to right.
  */
module Lang {
  import opened Wrappers
  import opened Bytes
  import opened Tokenizer
  import opened RwText
  import opened Seqs

  /** The line buffer of `load_lang` and `lang_read_name`. */
  const LINE_BUFFER: nat := 1024
  const KEY_DELIMS: string := " \r\n"
  const VALUE_DELIMS: string := "\""
  const LANG_NAME: string := "lang_name"

  /**
    * The key and value of a line, if it has both: lines starting with '#' and lines
    * whose first token starts with '#' are skipped; the value is the run of non-quote
    * characters after the key's delimiter (`strtok_r` with `"` as delimiter), so an
    * unquoted word is taken as well.
    */
  function Entry(line: string): (r: Option<(string, string)>)
    ensures line != [] && line[0] == '#' ==> r.None?
    ensures r.Some? ==> var key := StrTok(line, 0, KEY_DELIMS);
      key.token == Some(r.value.0) && r.value.0[0] != '#' &&
      StrTok(line, key.next, VALUE_DELIMS).token == Some(r.value.1)
  {
    if line != [] && line[0] == '#' then None
    else
      var key := StrTok(line, 0, KEY_DELIMS);
      match key.token
      case None => None
      case Some(k) =>
        StrTokIsMaximalRun(line, 0, KEY_DELIMS);
        if k[0] == '#' then None
        else
          match StrTok(line, key.next, VALUE_DELIMS).token
          case None => None
          case Some(v) => Some((k, v))
  }

  /** The text with every backslash-n pair turned into a newline. */
  function Unescape(s: string): (r: string)
    ensures |r| <= |s|
  {
    if s == [] then []
    else if |s| >= 2 && s[0] == '\\' && s[1] == 'n' then "\n" + Unescape(s[2..])
    else [s[0]] + Unescape(s[1..])
  }

  /** The text with every newline written as a backslash-n pair, as a dictionary file holds it. */
  function Escape(s: string): (r: string)
    ensures |r| >= |s|
    ensures forall k :: 0 <= k < |r| ==> r[k] == '\\' || r[k] == 'n' || r[k] in s
    ensures '\n' !in r
  {
    if s == [] then []
    else
      var rest := Escape(s[1..]);
      assert forall k :: 0 <= k < |rest| ==> rest[k] == '\\' || rest[k] == 'n' || rest[k] in s;
      (if s[0] == '\n' then "\\n" else [s[0]]) + rest
  }

  /** Text without backslashes survives escaping and unescaping. */
  lemma {:induction false} UnescapeEscape(s: string)
    requires '\\' !in s
    ensures Unescape(Escape(s)) == s
  {
    if s != [] {
      var rest := Escape(s[1..]);
      UnescapeEscape(s[1..]);
      if s[0] == '\n' {
        assert Escape(s) == "\\n" + rest;
        assert Escape(s)[2..] == rest;
      } else {
        assert Escape(s) == [s[0]] + rest;
        assert Escape(s)[1..] == rest;
      }
      assert s == [s[0]] + s[1..];
    }
  }

  /** `struct LangItem`; `nameLen` is the length of the text before unescaping. */
  datatype Item = Item(key: string, name: string, keyHash: u32, keyLen: nat, nameLen: nat)

  function ItemOf(key: string, value: string, hash: string -> u32): Item
  {
    Item(key, Unescape(value), hash(key), |key|, |value|)
  }

  /** The dictionary of the lines: one item per line with a key and a value, in order. */
  function Dictionary(lines: seq<string>, hash: string -> u32): (dict: seq<Item>)
    ensures |dict| <= |lines|
  {
    if lines == [] then []
    else
      var rest := Dictionary(lines[1..], hash);
      match Entry(lines[0])
      case None => rest
      case Some(e) => [ItemOf(e.0, e.1, hash)] + rest
  }

  datatype LangError = NoStream | UnterminatedLine

  /**
    * `load_lang`: -1 for a null stream, which leaves the dictionary as it was;
    * otherwise the previous dictionary is discarded and the new one holds only the
    * file's entries. A last line without a newline is an error here.
    */
  function LoadLang(dict: seq<Item>, file: Option<string>, hash: string -> u32): (r: Result<seq<Item>, LangError>)
    ensures file.None? <==> r == Err(NoStream)
    ensures r.Ok? ==> var read := ReadLines(Stream(file.value, 0), LINE_BUFFER);
      read.1 && r.value == Dictionary(read.0, hash)
  {
    match file
    case None => Err(NoStream)
    case Some(data) =>
      var read := ReadLines(Stream(data, 0), LINE_BUFFER);
      if !read.1 then Err(UnterminatedLine) else Ok(Dictionary(read.0, hash))
  }

  /** Loading replaces the dictionary: what was there before has no influence. */
  lemma LoadLangDiscards(d1: seq<Item>, d2: seq<Item>, file: Option<string>, hash: string -> u32)
    requires file.Some?
    ensures LoadLang(d1, file, hash) == LoadLang(d2, file, hash)
  {
  }

  /** The index of the first item whose key hash is `h`. */
  function FindKey(dict: seq<Item>, h: u32): (r: Option<nat>)
    ensures r.Some? ==> r.value < |dict| && dict[r.value].keyHash == h
    ensures r.Some? ==> forall j :: 0 <= j < r.value ==> dict[j].keyHash != h
    ensures r.None? <==> forall j :: 0 <= j < |dict| ==> dict[j].keyHash != h
  {
    if dict == [] then None
    else if dict[0].keyHash == h then Some(0)
    else
      match FindKey(dict[1..], h)
      case None => None
      case Some(i) => Some(i + 1)
  }

  /** `lang_get`: the text of the first item whose key hash matches, else null. */
  function LangGet(dict: seq<Item>, id: string, hash: string -> u32): (r: Option<string>)
    ensures r.None? <==> forall i :: 0 <= i < |dict| ==> dict[i].keyHash != hash(id)
    ensures r.Some? ==> FindKey(dict, hash(id)).Some? && r.value == dict[FindKey(dict, hash(id)).value].name
  {
    match FindKey(dict, hash(id))
    case None => None
    case Some(i) => Some(dict[i].name)
  }

  /** A dictionary entry as a writer puts it in a file. */
  datatype Phrase = Phrase(key: string, text: string)

  /** A key that is one token not starting with '#', and a non-empty text without quotes or backslashes. */
  predicate ValidPhrase(p: Phrase)
  {
    p.key != [] && p.key[0] != '#' && (forall k :: 0 <= k < |p.key| ==> p.key[k] !in KEY_DELIMS) &&
    p.text != [] && '"' !in p.text && '\\' !in p.text
  }

  /** The line `key "text"` with newlines of the text escaped. */
  function PhraseLine(p: Phrase): string
  {
    p.key + " " + "\"" + Escape(p.text) + "\""
  }

  /** The characters of a phrase line: the key, a space, a quote, the escaped text, a quote. */
  lemma PhraseLineLayout(p: Phrase)
    ensures var line, n, e := PhraseLine(p), |p.key|, Escape(p.text);
      |line| == n + |e| + 3 && (forall k :: 0 <= k < n ==> line[k] == p.key[k]) &&
      line[n] == ' ' && line[n + 1] == '"' && line[n + 2 + |e|] == '"' &&
      (forall k :: 0 <= k < |e| ==> line[n + 2 + k] == e[k])
  {
  }

  /** The key token of a phrase line is the key. */
  lemma PhraseLineKey(p: Phrase)
    requires ValidPhrase(p)
    ensures StrTok(PhraseLine(p), 0, KEY_DELIMS) == Step(Some(p.key), |p.key| + 1)
  {
    var line, n := PhraseLine(p), |p.key|;
    PhraseLineLayout(p);
    StrTokAt(line, 0, 0, n, KEY_DELIMS);
    assert line[0..n] == p.key;
  }

  /** The quoted token after the key of a phrase line is the escaped text. */
  lemma PhraseLineValue(p: Phrase)
    requires ValidPhrase(p)
    ensures StrTok(PhraseLine(p), |p.key| + 1, VALUE_DELIMS).token == Some(Escape(p.text))
  {
    var e := Escape(p.text);
    PhraseLineLayout(p);
    assert forall k :: 0 <= k < |e| ==> e[k] != '"';
    QuotedToken(PhraseLine(p), |p.key|, e);
  }

  /** A quote at `n + 1`, then non-empty quote-free text `e`, then a quote: the token after `n + 1` is `e`. */
  lemma QuotedToken(line: string, n: nat, e: string)
    requires e != [] && |line| == n + |e| + 3 && line[n + 1] == '"' && line[n + 2 + |e|] == '"'
    requires forall k :: 0 <= k < |e| ==> line[n + 2 + k] == e[k] && e[k] != '"'
    ensures StrTok(line, n + 1, VALUE_DELIMS).token == Some(e)
  {
    forall k | n + 2 <= k < n + 2 + |e|
      ensures line[k] !in VALUE_DELIMS
    {
      assert line[n + 2 + (k - n - 2)] == e[k - n - 2];
    }
    StrTokAt(line, n + 1, n + 2, n + 2 + |e|, VALUE_DELIMS);
    assert line[n + 2..n + 2 + |e|] == e;
  }

  /** A written phrase line yields the phrase's key and its escaped text. */
  lemma EntryOfPhraseLine(p: Phrase)
    requires ValidPhrase(p)
    ensures Entry(PhraseLine(p)) == Some((p.key, Escape(p.text)))
  {
    PhraseLineLayout(p);
    PhraseLineKey(p);
    PhraseLineValue(p);
  }

  function PhraseLines(ps: seq<Phrase>): (lines: seq<string>)
    ensures |lines| == |ps|
  {
    if ps == [] then [] else [PhraseLine(ps[0])] + PhraseLines(ps[1..])
  }

  predicate ValidPhrases(ps: seq<Phrase>)
  {
    ps == [] || (ValidPhrase(ps[0]) && ValidPhrases(ps[1..]))
  }

  /** The first phrase of a written file gives the first item of its dictionary. */
  lemma DictionaryCons(ps: seq<Phrase>, hash: string -> u32)
    requires ps != [] && ValidPhrases(ps)
    ensures ValidPhrases(ps[1..])
    ensures Dictionary(PhraseLines(ps), hash) ==
            [Item(ps[0].key, ps[0].text, hash(ps[0].key), |ps[0].key|, |Escape(ps[0].text)|)] +
            Dictionary(PhraseLines(ps[1..]), hash)
  {
    EntryOfPhraseLine(ps[0]);
    UnescapeEscape(ps[0].text);
    var lines := PhraseLines(ps);
    assert lines[0] == PhraseLine(ps[0]) && lines[1..] == PhraseLines(ps[1..]);
  }

  /** The items a list of phrases stands for: each key with its own text. */
  function PhraseItems(ps: seq<Phrase>, hash: string -> u32): (items: seq<Item>)
    ensures |items| == |ps|
    ensures forall i :: 0 <= i < |ps| ==>
              items[i] == Item(ps[i].key, ps[i].text, hash(ps[i].key), |ps[i].key|, |Escape(ps[i].text)|)
  {
    seq(|ps|, i requires 0 <= i < |ps| => Item(ps[i].key, ps[i].text, hash(ps[i].key), |ps[i].key|, |Escape(ps[i].text)|))
  }

  lemma PhraseItemsCons(ps: seq<Phrase>, hash: string -> u32)
    requires ps != []
    ensures PhraseItems(ps, hash) ==
            [Item(ps[0].key, ps[0].text, hash(ps[0].key), |ps[0].key|, |Escape(ps[0].text)|)] + PhraseItems(ps[1..], hash)
  {
    var a, b := PhraseItems(ps, hash), PhraseItems(ps[1..], hash);
    forall i | 1 <= i < |ps| ensures a[i] == b[i - 1] {
      assert ps[1..][i - 1] == ps[i];
    }
  }

  /** The dictionary of a written file holds its phrases, in order, with their texts restored. */
  lemma {:induction false} DictionaryOfPhrases(ps: seq<Phrase>, hash: string -> u32)
    requires ValidPhrases(ps)
    ensures Dictionary(PhraseLines(ps), hash) == PhraseItems(ps, hash)
  {
    if ps != [] {
      DictionaryOfPhrases(ps[1..], hash);
      DictionaryCons(ps, hash);
      PhraseItemsCons(ps, hash);
    }
  }

  /** An item with hash `h` preceded by none finds `h` at its index. */
  lemma {:induction false} FindKeyIs(dict: seq<Item>, h: u32, i: nat)
    requires i < |dict| && dict[i].keyHash == h
    requires forall j :: 0 <= j < i ==> dict[j].keyHash != h
    ensures FindKey(dict, h) == Some(i)
  {
    if i > 0 {
      assert dict[0].keyHash != h;
      forall j | 0 <= j < i - 1
        ensures dict[1..][j].keyHash != h
      {
        assert dict[1..][j] == dict[j + 1];
      }
      FindKeyIs(dict[1..], h, i - 1);
    }
  }

  /** Looking up a written phrase's key gives its text when no earlier phrase's key has the same hash. */
  lemma LangGetWrittenPhrase(ps: seq<Phrase>, i: nat, hash: string -> u32)
    requires ValidPhrases(ps) && i < |ps|
    requires forall j :: 0 <= j < i ==> hash(ps[j].key) != hash(ps[i].key)
    ensures LangGet(Dictionary(PhraseLines(ps), hash), ps[i].key, hash) == Some(ps[i].text)
  {
    DictionaryOfPhrases(ps, hash);
    FindKeyIs(Dictionary(PhraseLines(ps), hash), hash(ps[i].key), i);
  }

  /** What `lang_get_name` yields: null, a name slot (itself possibly null), or a read past the table. */
  datatype NameAccess = Null | Slot(name: Option<string>) | PastTable

  /** `lang_get_name` as written: only `lang > count` is rejected. */
  function LangGetNameAsWritten(names: seq<Option<string>>, lang: nat): (r: NameAccess)
    ensures r.Slot? <==> lang < |names|
  {
    if lang > |names| then Null
    else if lang < |names| then Slot(names[lang])
    else PastTable
  }

  /** `lang_get_name` with `lang >= count` rejected. */
  function LangGetName(names: seq<Option<string>>, lang: nat): (r: NameAccess)
    ensures r.Slot? <==> lang < |names|
    ensures r.Slot? ==> r.name == names[lang]
    ensures !r.PastTable?
  {
    if lang >= |names| then Null else Slot(names[lang])
  }

  /** Index `count` passes the check as written and reads one slot past the table; it is null when checked. */
  lemma LangGetNameAsWrittenReadsPastTable(names: seq<Option<string>>)
    ensures LangGetNameAsWritten(names, |names|) == PastTable
    ensures LangGetName(names, |names|) == Null
    ensures forall lang :: lang != |names| ==> LangGetNameAsWritten(names, lang) == LangGetName(names, lang)
  {
  }

  /**
    * `lang_select`: the index of the first language whose name equals `name` (the
    * file to load with it), else 0. A missing name is never equal.
    */
  function LangSelect(names: seq<Option<string>>, name: string): (r: (nat, Option<nat>))
    ensures r.1.Some? ==> r.0 == r.1.value && r.0 < |names| && names[r.0] == Some(name)
    ensures r.1.Some? ==> forall j :: 0 <= j < r.0 ==> names[j] != Some(name)
    ensures r.1.None? <==> (forall j :: 0 <= j < |names| ==> names[j] != Some(name))
    ensures r.1.None? ==> r.0 == 0
  {
    if names == [] then (0, None)
    else if names[0] == Some(name) then (0, Some(0))
    else
      var r := LangSelect(names[1..], name);
      if r.1.Some? then (r.0 + 1, Some(r.0 + 1)) else (0, None)
  }

  /** The index returned for an unknown name equals the index of the first language. */
  lemma LangSelectZeroIsAmbiguous(first: string, names: seq<Option<string>>, unknown: string)
    requires unknown != first && forall j :: 0 <= j < |names| ==> names[j] != Some(unknown)
    ensures LangSelect([Some(first)] + names, first).0 == LangSelect([Some(first)] + names, unknown).0 == 0
    ensures LangSelect([Some(first)] + names, first).1 == Some(0)
    ensures LangSelect([Some(first)] + names, unknown).1 == None
  {
    var all := [Some(first)] + names;
    assert forall j :: 1 <= j < |all| ==> all[j] == names[j - 1];
  }

  /** The name after one more line: the line's value when it is a `lang_name` entry. */
  function NameAfter(name: Option<string>, line: string): Option<string>
  {
    match Entry(line)
    case Some(e) => if e.0 == LANG_NAME then Some(e.1) else name
    case None => name
  }

  /** The reading loop of `lang_read_name`, front to back, from the name found so far. */
  function ReadNameLoop(name: Option<string>, lines: seq<string>): Option<string>
    decreases |lines|
  {
    if lines == [] then name else ReadNameLoop(NameAfter(name, lines[0]), lines[1..])
  }

  /** A line holding a `lang_name` entry. */
  predicate IsNameLine(line: string)
  {
    Entry(line).Some? && Entry(line).value.0 == LANG_NAME
  }

  /** The value of the last `lang_name` entry. */
  function LastName(lines: seq<string>): Option<string>
  {
    match LastWhere(lines, IsNameLine)
    case None => None
    case Some(i) => Some(Entry(lines[i]).value.1)
  }

  lemma {:induction false} ReadNameLoopSnoc(name: Option<string>, lines: seq<string>, line: string)
    ensures ReadNameLoop(name, lines + [line]) == NameAfter(ReadNameLoop(name, lines), line)
    decreases |lines|
  {
    if lines != [] {
      assert (lines + [line])[1..] == lines[1..] + [line];
      ReadNameLoopSnoc(NameAfter(name, lines[0]), lines[1..], line);
    }
  }

  /** The front-to-back loop ends with the last `lang_name` entry of the file. */
  lemma {:induction false} ReadNameIsLast(lines: seq<string>)
    ensures ReadNameLoop(None, lines) == LastName(lines)
  {
    if lines != [] {
      var init := lines[..|lines| - 1];
      assert lines == init + [lines[|lines| - 1]];
      ReadNameIsLast(init);
      ReadNameLoopSnoc(None, init, lines[|lines| - 1]);
      LastWhereSnoc(init, lines[|lines| - 1], IsNameLine);
    }
  }

  /** `lang_read_name`: null for a null stream; otherwise the last `lang_name` value. */
  function LangReadName(file: Option<string>): (r: Result<Option<string>, LangError>)
    ensures file.None? ==> r == Ok(None)
    ensures r.Err? ==> r == Err(UnterminatedLine)
    ensures r.Ok? && file.Some? ==> var read := ReadLines(Stream(file.value, 0), LINE_BUFFER);
      read.1 && r.value == LastName(read.0)
  {
    match file
    case None => Ok(None)
    case Some(data) =>
      var read := ReadLines(Stream(data, 0), LINE_BUFFER);
      if !read.1 then Err(UnterminatedLine)
      else
        ReadNameIsLast(read.0);
        Ok(ReadNameLoop(None, read.0))
  }
}
