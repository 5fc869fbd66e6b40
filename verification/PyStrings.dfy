/** The Python string operations that the scripts use: replace, rfind, strip. */
module PyStrings {

  /** `pat` occurs somewhere in `s`. */
  predicate Contains(s: string, pat: string) {
    exists k :: 0 <= k <= |s| && pat <= s[k..]
  }

  /** s.replace(pat, rep): leftmost occurrences, not overlapping. */
  function Replace(s: string, pat: string, rep: string): string
    requires pat != ""
    decreases |s|
  {
    if s == "" then ""
    else if pat <= s then rep + Replace(s[|pat|..], pat, rep)
    else [s[0]] + Replace(s[1..], pat, rep)
  }

  /** s.rfind(pat), for a pattern that is not empty */
  function RFind(s: string, pat: string): (r: int)
    requires pat != ""
    ensures -1 <= r < |s|
    ensures r >= 0 ==> pat <= s[r..]
    ensures forall k :: r < k < |s| ==> !(pat <= s[k..])
  {
    RFindBelow(s, pat, |s|)
  }

  function RFindBelow(s: string, pat: string, n: nat): (r: int)
    requires n <= |s| && pat != ""
    ensures -1 <= r < n
    ensures r >= 0 ==> pat <= s[r..]
    ensures forall k :: r < k < n ==> !(pat <= s[k..])
  {
    if n == 0 then -1 else if pat <= s[n - 1..] then n - 1 else RFindBelow(s, pat, n - 1)
  }

  /** str.isspace for one character */
  predicate IsSpace(c: char) {
    || '\t' <= c <= '\r' || '\U{1c}' <= c <= ' ' || c == '\U{85}' || c == '\U{a0}' || c == '\U{1680}'
    || '\U{2000}' <= c <= '\U{200a}' || c == '\U{2028}' || c == '\U{2029}' || c == '\U{202f}'
    || c == '\U{205f}' || c == '\U{3000}'
  }

  predicate IsQuote(c: char) { c == '\'' || c == '"' }

  predicate QuoteFree(s: string) { forall c :: c in s ==> !IsQuote(c) }

  predicate AllSpace(s: string) { forall c :: c in s ==> IsSpace(c) }

  function LStrip(s: string): string {
    if s != "" && IsSpace(s[0]) then LStrip(s[1..]) else s
  }

  function RStrip(s: string): string {
    if s != "" && IsSpace(s[|s| - 1]) then RStrip(s[..|s| - 1]) else s
  }

  /** s.strip() */
  function Strip(s: string): string { RStrip(LStrip(s)) }

  /** Text between non-spaces loses only the spaces after it. */
  lemma {:induction false} StripTail(s: string, tail: string)
    requires s != "" && !IsSpace(s[0]) && !IsSpace(s[|s| - 1]) && AllSpace(tail)
    ensures Strip(s + tail) == s
  {
    assert LStrip(s + tail) == s + tail;
    if tail == "" {
      assert s + tail == s;
    } else {
      assert tail[|tail| - 1] in tail;
      assert (s + tail)[..|s + tail| - 1] == s + tail[..|tail| - 1];
      StripTail(s, tail[..|tail| - 1]);
    }
  }

  /** No occurrence starts inside `p`, so replacing passes over it. */
  lemma {:induction false} ReplaceSkips(p: string, s: string, pat: string, rep: string)
    requires pat != ""
    requires forall j :: 0 <= j < |p| ==> !(pat <= p[j..] + s)
    ensures Replace(p + s, pat, rep) == p + Replace(s, pat, rep)
    decreases |p|
  {
    if p == "" {
      assert p + s == s;
    } else {
      assert p[0..] + s == p + s && (p + s)[1..] == p[1..] + s;
      forall j | 0 <= j < |p[1..]| ensures !(pat <= p[1..][j..] + s) {
        assert p[1..][j..] == p[j + 1..];
      }
      ReplaceSkips(p[1..], s, pat, rep);
    }
  }

  /** Characters other than the pattern's first are passed over. */
  lemma ReplaceSkipsOthers(p: string, s: string, pat: string, rep: string)
    requires pat != "" && pat[0] !in p
    ensures Replace(p + s, pat, rep) == p + Replace(s, pat, rep)
  {
    forall j | 0 <= j < |p| ensures !(pat <= p[j..] + s) {
      assert (p[j..] + s)[0] == p[j] && p[j] in p;
    }
    ReplaceSkips(p, s, pat, rep);
  }
}
