/**
  * The re-entrant tokenizer `strtok_r` that the engine defines for itself
  * (neon/include/core/common.h). The `nextp` cursor becomes an explicit position.
  */
module Tokenizer {
  import opened Wrappers
  import opened Text

  /** One call `strtok_r(str, delim, &next)` whose scan starts at `from`. */
  datatype Step = Step(token: Option<string>, next: nat)

  /**
    * Skips the delimiters that start at `from`; if the string ends there, no token is
    * returned and the cursor is left where it was. Otherwise the token runs up to the
    * next delimiter, which is overwritten by the terminator and skipped.
    */
  function StrTok(s: string, from: nat, delims: string): (r: Step)
    requires from <= |s|
    ensures r.token.None? <==> forall k :: from <= k < |s| ==> s[k] in delims
    ensures r.token.None? ==> r.next == from
    ensures r.token.Some? ==> from < r.next <= |s|
  {
    var start := from + Span(s, from, delims);
    if start == |s| then Step(None, from)
    else
      var stop := start + ComplementSpan(s, start, delims);
      Step(Some(s[start..stop]), if stop < |s| then stop + 1 else stop)
  }

  /** Where the token of a call starting at `from` begins: after the run of delimiters. */
  function TokenStart(s: string, from: nat, delims: string): (start: nat)
    requires from <= |s|
    ensures from <= start <= |s|
    ensures forall k :: from <= k < start ==> s[k] in delims
  {
    from + Span(s, from, delims)
  }

  /**
    * The token is a maximal run of non-delimiters: everything between the cursor and
    * the token is a delimiter, the token holds none, and it ends at a delimiter or at
    * the end of the string, which the new cursor steps over.
    */
  lemma StrTokIsMaximalRun(s: string, from: nat, delims: string)
    requires from <= |s|
    ensures var r := StrTok(s, from, delims);
      var start := TokenStart(s, from, delims);
      r.token.Some? ==>
        var stop := start + |r.token.value|;
        stop <= |s| && s[start .. stop] == r.token.value &&
        r.token.value != [] &&
        (forall c :: c in r.token.value ==> c !in delims) &&
        (stop == |s| ==> r.next == |s|) &&
        (stop < |s| ==> s[stop] in delims && r.next == stop + 1)
  {
    var r := StrTok(s, from, delims);
    if r.token.Some? {
      var start := from + Span(s, from, delims);
      var stop := start + ComplementSpan(s, start, delims);
      assert r.token.value == s[start..stop];
      forall c | c in r.token.value
        ensures c !in delims
      {
        var k :| 0 <= k < |r.token.value| && r.token.value[k] == c;
        assert s[start + k] == c;
      }
    }
  }

  /** `strtok_r` returns the run of non-delimiters that follows a run of delimiters. */
  lemma StrTokAt(s: string, from: nat, start: nat, stop: nat, delims: string)
    requires from <= start < stop <= |s|
    requires forall k :: from <= k < start ==> s[k] in delims
    requires forall k :: start <= k < stop ==> s[k] !in delims
    requires stop == |s| || s[stop] in delims
    ensures StrTok(s, from, delims) == Step(Some(s[start..stop]), if stop < |s| then stop + 1 else stop)
  {
    SpanIs(s, from, delims, start - from);
    ComplementSpanIs(s, start, delims, stop - start);
  }
}
