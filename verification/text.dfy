/**
  * The C string primitives the engine leans on (`strchr`, `strrchr`, `strstr`,
  * `strspn`, `strcspn`, `strcasecmp`), stated over `string`. A C string ends at its
  * first NUL, so the strings handed to these functions hold no '\0'.
  */
module Text {
  import opened Wrappers

  /** `strchr` from position `from`: the first index at or after `from` holding `c`. */
  function IndexOf(s: string, c: char, from: nat := 0): (r: Option<nat>)
    ensures r.Some? ==> from <= r.value < |s| && s[r.value] == c
    ensures r.Some? ==> forall k :: from <= k < r.value ==> s[k] != c
    ensures r.None? ==> forall k :: from <= k < |s| ==> s[k] != c
    decreases |s| - from
  {
    if from >= |s| then None
    else if s[from] == c then Some(from)
    else IndexOf(s, c, from + 1)
  }

  /** `strrchr`: the last index holding `c`. */
  function LastIndexOf(s: string, c: char): (r: Option<nat>)
    ensures r.Some? ==> r.value < |s| && s[r.value] == c
    ensures r.Some? ==> forall k :: r.value < k < |s| ==> s[k] != c
    ensures r.None? ==> forall k :: 0 <= k < |s| ==> s[k] != c
  {
    if s == [] then None
    else if s[|s| - 1] == c then Some(|s| - 1)
    else LastIndexOf(s[..|s| - 1], c)
  }

  predicate OccursAt(s: string, pat: string, i: nat)
  {
    i + |pat| <= |s| && s[i .. i + |pat|] == pat
  }

  /** `strstr` from position `from`: the first index at or after `from` where `pat` starts. */
  function Find(s: string, pat: string, from: nat := 0): (r: Option<nat>)
    ensures r.Some? ==> from <= r.value && OccursAt(s, pat, r.value)
    ensures r.Some? ==> forall k :: from <= k < r.value ==> !OccursAt(s, pat, k)
    ensures r.None? ==> forall k :: from <= k ==> !OccursAt(s, pat, k)
    decreases |s| - from
  {
    if from + |pat| > |s| then None
    else if s[from .. from + |pat|] == pat then Some(from)
    else Find(s, pat, from + 1)
  }

  predicate StartsWith(s: string, prefix: string)
  {
    |prefix| <= |s| && s[..|prefix|] == prefix
  }

  /**
    * The extension of a file name: the suffix starting at its last '.', as `strrchr`
    * returns it. A name without '.' has no extension; the empty string stands for it.
    */
  function Extension(name: string): (ext: string)
    ensures ext == [] || ext[0] == '.'
    ensures ext != [] ==> '.' !in ext[1..] && StartsWith(ext, ".")
    ensures ext != [] ==> |ext| <= |name| && name[|name| - |ext|..] == ext
    ensures ext == [] <==> '.' !in name
  {
    match LastIndexOf(name, '.')
    case None => []
    case Some(i) => name[i..]
  }

  function ToLower(c: char): char
  {
    if 'A' <= c <= 'Z' then (c as int - 'A' as int + 'a' as int) as char else c
  }

  /** `strcasecmp(a, b) == 0`: equal up to ASCII letter case. */
  predicate EqualsIgnoreCase(a: string, b: string)
  {
    |a| == |b| && forall i :: 0 <= i < |a| ==> ToLower(a[i]) == ToLower(b[i])
  }

  /** `strspn` from `from`: the length of the run of characters of `set` that starts there. */
  function Span(s: string, from: nat, chars: string): (n: nat)
    requires from <= |s|
    ensures from + n <= |s|
    ensures forall k :: from <= k < from + n ==> s[k] in chars
    ensures from + n < |s| ==> s[from + n] !in chars
    decreases |s| - from
  {
    if from < |s| && s[from] in chars then 1 + Span(s, from + 1, chars) else 0
  }

  /** `strcspn` from `from`: the length of the run of characters NOT in `set` that starts there. */
  function ComplementSpan(s: string, from: nat, chars: string): (n: nat)
    requires from <= |s|
    ensures from + n <= |s|
    ensures forall k :: from <= k < from + n ==> s[k] !in chars
    ensures from + n < |s| ==> s[from + n] in chars
    decreases |s| - from
  {
    if from < |s| && s[from] !in chars then 1 + ComplementSpan(s, from + 1, chars) else 0
  }

  /** The span from `from` is `len` when that many characters of the set start there and the next is not one. */
  lemma {:induction false} SpanIs(s: string, from: nat, chars: string, len: nat)
    requires from + len <= |s|
    requires forall k :: from <= k < from + len ==> s[k] in chars
    requires from + len == |s| || s[from + len] !in chars
    ensures Span(s, from, chars) == len
    decreases len
  {
    if len > 0 {
      SpanIs(s, from + 1, chars, len - 1);
    }
  }

  /** The complement span from `from` is `len` when that many non-members start there and the next is a member. */
  lemma {:induction false} ComplementSpanIs(s: string, from: nat, chars: string, len: nat)
    requires from + len <= |s|
    requires forall k :: from <= k < from + len ==> s[k] !in chars
    requires from + len == |s| || s[from + len] in chars
    ensures ComplementSpan(s, from, chars) == len
    decreases len
  {
    if len > 0 {
      ComplementSpanIs(s, from + 1, chars, len - 1);
    }
  }

  /** `strchr` from `from` stops at `at` when `c` is there and nowhere before it. */
  lemma IndexOfIs(s: string, c: char, from: nat, at: nat)
    requires from <= at < |s| && s[at] == c
    requires forall k :: from <= k < at ==> s[k] != c
    ensures IndexOf(s, c, from) == Some(at)
  {
  }

  /** Occurrences of `pat` that start before `n` depend only on the first `n + |pat|` characters. */
  lemma SamePrefixOccurs(a: string, b: string, pat: string, n: nat)
    requires n + |pat| <= |a| && n + |pat| <= |b| && a[..n + |pat|] == b[..n + |pat|]
    ensures forall k :: 0 <= k < n ==> (OccursAt(a, pat, k) <==> OccursAt(b, pat, k))
  {
    forall k | 0 <= k < n
      ensures OccursAt(a, pat, k) <==> OccursAt(b, pat, k)
    {
      assert a[k..k + |pat|] == a[..n + |pat|][k..k + |pat|];
      assert b[k..k + |pat|] == b[..n + |pat|][k..k + |pat|];
    }
  }

  /** Where a pattern occurs, so does each of its prefixes. */
  lemma OccursPrefix(s: string, pat: string, prefix: string, k: nat)
    requires OccursAt(s, pat, k) && StartsWith(pat, prefix)
    ensures OccursAt(s, prefix, k)
  {
    assert s[k..k + |prefix|] == s[k..k + |pat|][..|prefix|];
  }

  /** The first occurrence at or after `from` is at `at` when `pat` occurs there and nowhere before. */
  lemma FindIs(s: string, pat: string, from: nat, at: nat)
    requires from <= at && OccursAt(s, pat, at)
    requires forall k :: from <= k < at ==> !OccursAt(s, pat, k)
    ensures Find(s, pat, from) == Some(at)
  {
  }

  /**
    * Replacement of the first occurrence of `origin` in `s` by `replacement`
    * (`str_replace_once`); `s` is returned unchanged when `origin` does not occur.
    */
  function ReplaceFirst(s: string, origin: string, replacement: string): (r: string)
    requires origin != []
    ensures Find(s, origin).None? ==> r == s
    ensures Find(s, origin).Some? ==>
      var i := Find(s, origin).value;
      |r| == |s| - |origin| + |replacement| &&
      r[..i] == s[..i] && r[i .. i + |replacement|] == replacement &&
      r[i + |replacement|..] == s[i + |origin|..]
  {
    match Find(s, origin)
    case None => s
    case Some(i) => s[..i] + replacement + s[i + |origin|..]
  }
}
