/** update_file_imports on the text of one file: the loop over the matches, and what it
    makes of a file seen as literals without quotes in them and any text between. */
module SourceImports {
  import opened Options
  import opened Splitting
  import opened PathNames
  import opened PyStrings
  import opened TreeRename
  import opened ImportScan
  import opened ImportRewrite

  // The loop over the matches, on any text.

  function InQuotes(quote: char, body: string): string { [quote] + body + [quote] }

  /** One match: every occurrence of its quoted path is replaced by the rewritten one. */
  function RewriteOne(content: string, m: Found, lookup: map<Path, Path>, root: Path, file: Path): string {
    var now := RewritePath(lookup, root, file, m.path);
    if now == m.path then content else Replace(content, InQuotes(m.quote, m.path), InQuotes(m.quote, now))
  }

  function RewriteAll(content: string, found: seq<Found>, lookup: map<Path, Path>, root: Path, file: Path): string
    decreases |found|
  {
    if found == [] then content
    else RewriteAll(RewriteOne(content, found[0], lookup, root, file), found[1..], lookup, root, file)
  }

  /** The text of a file after update_file_imports. */
  function RewriteText(text: string, lookup: map<Path, Path>, root: Path, file: Path): string {
    RewriteAll(text, FindFrom(text, 0), lookup, root, file)
  }

  /** The body of the loop over the files: all matches of the original text, each
      replaced in the text as it then is. */
  method UpdateFileImports(text: string, lookup: map<Path, Path>, root: Path, file: Path) returns (content: string)
    ensures content == RewriteText(text, lookup, root, file)
  {
    hide ResolveImport, WithLastPart, FindFrom, Replace;
    content := text;
    var matches := FindImports(text);
    for i := 0 to |matches|
      invariant RewriteAll(content, matches[i..], lookup, root, file) == RewriteText(text, lookup, root, file)
    {
      var quote, path := matches[i].quote, matches[i].path;
      assert matches[i..][1..] == matches[i + 1..];
      var target := ResolveImport(root, file, path);
      if target.Some? && target.value in lookup {
        var newPath := WithLastPart(path, PathName(lookup[target.value]));
        SameInQuotes(quote, path, newPath);
        if InQuotes(quote, path) != InQuotes(quote, newPath) {
          content := Replace(content, InQuotes(quote, path), InQuotes(quote, newPath));
        }
      }
    }
  }

  lemma SameInQuotes(quote: char, a: string, b: string)
    ensures InQuotes(quote, a) == InQuotes(quote, b) <==> a == b
  {
    assert InQuotes(quote, a)[1..|a| + 1] == a && InQuotes(quote, b)[1..|b| + 1] == b;
  }

  /** Without renamed paths in it a text is left as it is. */
  lemma {:induction false} NothingToRewrite(content: string, found: seq<Found>,
                                            lookup: map<Path, Path>, root: Path, file: Path)
    requires forall i :: 0 <= i < |found| ==> RewritePath(lookup, root, file, found[i].path) == found[i].path
    ensures RewriteAll(content, found, lookup, root, file) == content
    decreases |found|
  {
    hide RewritePath;
    if found != [] {
      assert forall i :: 0 <= i < |found[1..]| ==> found[1..][i] == found[i + 1];
      NothingToRewrite(content, found[1..], lookup, root, file);
    }
  }

  // A source file.

  /** A string literal and the code before it. */
  datatype Segment = Segment(code: string, quote: char, body: string)

  datatype SourceFile = SourceFile(segments: seq<Segment>, tail: string)

  function RenderSegments(segments: seq<Segment>): string {
    if segments == [] then ""
    else
      var s := segments[0];
      s.code + ([s.quote] + s.body + [s.quote]) + RenderSegments(segments[1..])
  }

  function Render(f: SourceFile): string { RenderSegments(f.segments) + f.tail }

  /** The literals hold no quotes. What is between them is any text: code, comments and
      other literals, with quotes of both kinds. */
  predicate WellQuoted(f: SourceFile) {
    forall i :: 0 <= i < |f.segments| ==> IsQuote(f.segments[i].quote) && QuoteFree(f.segments[i].body)
  }

  /** The text before literal `i`, or after the last one. */
  function CodeAt(f: SourceFile, i: nat): string
    requires i <= |f.segments|
  {
    if i < |f.segments| then f.segments[i].code else f.tail
  }

  /** Literal `i` is in a place where the import expression can match it. */
  predicate IsImport(f: SourceFile, i: nat)
    requires i < |f.segments|
  {
    && f.segments[i].body != ""
    && (EndsWithFrom(f.segments[i].code) || (EndsWithImport(f.segments[i].code) && ")" <= CodeAt(f, i + 1)))
  }

  /** Nothing between two quotes, other than a literal, names a renamed file as an import
      path would. */
  predicate CodeIsNoImport(f: SourceFile, lookup: map<Path, Path>, root: Path, file: Path) {
    forall i, r :: 0 <= i <= |f.segments| && r in Runs(CodeAt(f, i)) ==> RewritePath(lookup, root, file, r) == r
  }

  /** A match starts in the text at `i` without its last run, or in the literal after it
      though that is no import; it swallows the next quote, be that a literal's own. */
  predicate StraysAt(f: SourceFile, i: nat)
    requires i <= |f.segments|
  {
    Strays(CodeAt(f, i), RestAt(f, i)) || (i < |f.segments| && Swallows(f, i))
  }

  predicate Swallows(f: SourceFile, i: nat)
    requires i < |f.segments|
  {
    !IsImport(f, i) && Introduces(f.segments[i].body, [f.segments[i].quote] + TextFrom(f, i + 1))
  }

  predicate NothingStrays(f: SourceFile) { NothingStraysFrom(f, 0) }

  predicate NothingStraysFrom(f: SourceFile, i: nat) {
    forall j :: i <= j <= |f.segments| ==> !StraysAt(f, j)
  }

  // What the expression finds in a file.

  /** The file's text from the code before literal `i` on. */
  function TextFrom(f: SourceFile, i: nat): string
    requires i <= |f.segments|
  {
    RenderSegments(f.segments[i..]) + f.tail
  }

  /** What follows the text at `i`: the literal and the rest, or nothing. */
  function RestAt(f: SourceFile, i: nat): string
    requires i <= |f.segments|
  {
    if i < |f.segments| then InQuotes(f.segments[i].quote, f.segments[i].body) + TextFrom(f, i + 1) else ""
  }

  /** The imports from literal `i` on, where the text before it is at offset `at`. */
  function ImportsFrom(f: SourceFile, i: nat, at: nat): (found: seq<Found>)
    requires i <= |f.segments|
    ensures forall k :: 0 <= k < |found| ==> i < |f.segments| && found[k].at >= at + |f.segments[i].code|
    decreases |f.segments| - i
  {
    if i == |f.segments| then []
    else
      var s := f.segments[i];
      (if IsImport(f, i) then [FoundAt(at + |s.code|, s.quote, s.body)] else [])
      + ImportsFrom(f, i + 1, at + |s.code| + |s.body| + 2)
  }

  lemma TextAt(f: SourceFile, i: nat)
    requires WellQuoted(f) && i <= |f.segments|
    ensures TextFrom(f, i) == CodeAt(f, i) + RestAt(f, i)
    ensures RestAt(f, i) == "" || IsQuote(RestAt(f, i)[0])
  {
    if i < |f.segments| {
      assert f.segments[i..][0] == f.segments[i] && f.segments[i..][1..] == f.segments[i + 1..];
      RenderCons(f.segments[i..], f.tail);
    } else {
      assert f.segments[i..] == [] && TextFrom(f, i) == f.tail + "";
    }
  }

  lemma LiteralAt(f: SourceFile, i: nat)
    requires WellQuoted(f) && i < |f.segments|
    ensures var s, rest := f.segments[i], RestAt(f, i);
      && IsQuote(s.quote) && QuoteFree(s.body)
      && rest == [s.quote] + s.body + ([s.quote] + TextFrom(f, i + 1)) && rest[0] == s.quote
      && rest[1..] == s.body + ([s.quote] + TextFrom(f, i + 1))
      && rest[|s.body| + 2..] == TextFrom(f, i + 1)
  {
    hide TextFrom;
  }

  /** The text before literal `i` introduces it exactly when it is an import. */
  lemma CodeIntroduces(f: SourceFile, i: nat)
    requires WellQuoted(f) && i < |f.segments|
    ensures Introduces(LastRun(f.segments[i].code), RestAt(f, i)) <==> IsImport(f, i)
    ensures IsImport(f, i) ==> QuotedAt(RestAt(f, i)) == Some(f.segments[i].body)
  {
    hide QuotedAt, EndsWithFrom, EndsWithImport, TextFrom, RestAt, LastRun;
    var s, after := f.segments[i], TextFrom(f, i + 1);
    LiteralAt(f, i);
    QuotedWhole(s.quote, s.body, [s.quote] + after);
    TextAt(f, i + 1);
    FirstOfCode(CodeAt(f, i + 1), RestAt(f, i + 1), ')');
    EndsInLastRun(s.code);
    assert Bracketed(RestAt(f, i), s.body) <==> after != "" && after[0] == ')';
  }

  lemma FirstOfCode(code: string, next: string, c: char)
    requires (next == "" || IsQuote(next[0])) && !IsQuote(c)
    ensures code + next != "" && (code + next)[0] == c <==> [c] <= code
  {}

  /** What is found from the text before literal `i` on, one literal at a time. */
  lemma FindFromLiteral(f: SourceFile, i: nat, at: nat)
    requires WellQuoted(f) && i < |f.segments|
    ensures var s := f.segments[i];
      var found, next := FindFrom(TextFrom(f, i), at), at + |s.code| + |s.body| + 2;
      && (StraysAt(f, i) ==> found != [] && found[0].at < next
                             && (IsImport(f, i) ==> found[0].at < at + |s.code|))
      && (!StraysAt(f, i) ==>
            found == (if IsImport(f, i) then [FoundAt(at + |s.code|, s.quote, s.body)] else [])
                     + FindFrom(TextFrom(f, i + 1), next))
  {
    hide *;
    var s, rest, after := f.segments[i], RestAt(f, i), TextFrom(f, i + 1);
    var run := LastRun(s.code);
    var here := at + |s.code| - |run|;
    TextAt(f, i);
    LiteralAt(f, i);
    CodeOf(f, i);
    FindOverText(s.code, rest, at);
    StrayCases(f, i);
    if !Strays(s.code, rest) {
      CodeIntroduces(f, i);
      FindOverRun(run, rest, here);
      if !IsImport(f, i) {
        OverCloser(rest, at + |s.code|);
        FindOverBody(f, i, at + |s.code| + 1);
      }
    }
  }

  lemma CodeOf(f: SourceFile, i: nat)
    requires i < |f.segments|
    ensures CodeAt(f, i) == f.segments[i].code
  {}

  lemma StrayCases(f: SourceFile, i: nat)
    requires i < |f.segments|
    ensures StraysAt(f, i) <==> Strays(f.segments[i].code, RestAt(f, i)) || Swallows(f, i)
    ensures IsImport(f, i) ==> !Swallows(f, i)
  {}

  /** Over a literal that is no import: passed over, or it swallows what follows. */
  lemma FindOverBody(f: SourceFile, i: nat, at: nat)
    requires WellQuoted(f) && i < |f.segments| && !IsImport(f, i)
    ensures var s := f.segments[i];
      var found := FindFrom(s.body + ([s.quote] + TextFrom(f, i + 1)), at);
      && (Swallows(f, i) ==> found != [] && found[0].at == at + |s.body|)
      && (!Swallows(f, i) ==> found == FindFrom(TextFrom(f, i + 1), at + |s.body| + 1))
  {
    hide FindFrom, TextFrom, Introduces, QuotedAt, IsImport;
    var s := f.segments[i];
    var rest := [s.quote] + TextFrom(f, i + 1);
    FindOverRun(s.body, rest, at);
    OverCloser(rest, at + |s.body|);
    assert rest[1..] == TextFrom(f, i + 1);
  }

  /** The expression finds exactly the literals in import places, at their offsets, if
      and only if no match starts anywhere else. */
  lemma {:induction false} FoundAreImports(f: SourceFile, i: nat, at: nat)
    requires WellQuoted(f) && i <= |f.segments|
    ensures FindFrom(TextFrom(f, i), at) == ImportsFrom(f, i, at) <==> NothingStraysFrom(f, i)
    decreases |f.segments| - i
  {
    hide FindFrom, TextFrom, IsImport, StraysAt, ImportsFrom, NothingStraysFrom;
    ImportsCons(f, i, at);
    StraysFromCons(f, i);
    if i == |f.segments| {
      FindInTail(f, at);
    } else {
      var s := f.segments[i];
      var next := at + |s.code| + |s.body| + 2;
      FindFromLiteral(f, i, at);
      FoundAreImports(f, i + 1, next);
      var a, b := FindFrom(TextFrom(f, i + 1), next), ImportsFrom(f, i + 1, next);
      var m := if IsImport(f, i) then [FoundAt(at + |s.code|, s.quote, s.body)] else [];
      if StraysAt(f, i) {
        StrayDiffers(FindFrom(TextFrom(f, i), at), m, b, at + |s.code|, next);
      } else {
        SameAfter(m, a, b);
      }
    }
  }

  lemma StraysFromCons(f: SourceFile, i: nat)
    requires i <= |f.segments|
    ensures NothingStraysFrom(f, i) <==> !StraysAt(f, i) && NothingStraysFrom(f, i + 1)
    ensures i == |f.segments| ==> NothingStraysFrom(f, i + 1)
  {
    hide StraysAt;
  }

  lemma ImportsCons(f: SourceFile, i: nat, at: nat)
    requires i <= |f.segments|
    ensures i == |f.segments| ==> ImportsFrom(f, i, at) == []
    ensures i < |f.segments| ==>
              var s := f.segments[i];
              ImportsFrom(f, i, at)
                == (if IsImport(f, i) then [FoundAt(at + |s.code|, s.quote, s.body)] else [])
                   + ImportsFrom(f, i + 1, at + |s.code| + |s.body| + 2)
  {
    hide IsImport;
  }

  lemma StrayDiffers(found: seq<Found>, m: seq<Found>, b: seq<Found>, at: nat, next: nat)
    requires found != [] && found[0].at < next && |m| <= 1
    requires m != [] ==> m[0].at == at && found[0].at < at
    requires forall k :: 0 <= k < |b| ==> b[k].at >= next
    ensures found != m + b
  {
    if m == [] { assert m + b == b; }
  }

  lemma SameAfter(m: seq<Found>, a: seq<Found>, b: seq<Found>)
    ensures m + a == m + b <==> a == b
  {
    assert (m + a)[|m|..] == a && (m + b)[|m|..] == b;
  }

  lemma FindInTail(f: SourceFile, at: nat)
    requires WellQuoted(f)
    ensures FindFrom(TextFrom(f, |f.segments|), at) == [] <==> !StraysAt(f, |f.segments|)
  {
    hide FindFrom, TextFrom, Strays;
    TextAt(f, |f.segments|);
    FindOverText(f.tail, "", at);
    var run := LastRun(f.tail);
    FindOverRun(run, "", at + |f.tail| - |run|);
    assert QuotedAt("").None?;
    FindNothing(at + |f.tail|);
  }

  // The paths that are found at all, strays included.

  /** The path of an import of the file, or a run of the text between its literals. */
  predicate KnownPath(f: SourceFile, path: string) {
    || (exists i :: 0 <= i < |f.segments| && IsImport(f, i) && f.segments[i].body == path)
    || (exists i :: 0 <= i <= |f.segments| && path in Runs(CodeAt(f, i)))
  }

  predicate AllKnown(f: SourceFile, found: seq<Found>) {
    forall k :: 0 <= k < |found| ==> KnownPath(f, found[k].path)
  }

  lemma KnownCons(f: SourceFile, m: Found, found: seq<Found>)
    requires KnownPath(f, m.path) && AllKnown(f, found)
    ensures AllKnown(f, [m] + found)
  {
    hide KnownPath;
  }

  lemma ImportIsKnown(f: SourceFile, i: nat)
    requires i < |f.segments| && IsImport(f, i)
    ensures KnownPath(f, f.segments[i].body)
  {}

  /** `s` is an end of `code` that begins after a quote, or all of it. */
  ghost predicate EndOf(s: string, code: string) {
    (forall r :: r in Runs(s) ==> r in Runs(code)) && LastRun(s) == LastRun(code)
  }

  lemma EndAfterRun(s: string, code: string)
    requires EndOf(s, code)
    ensures s[..RunLength(s)] in Runs(code)
    ensures RunLength(s) < |s| ==> EndOf(s[RunLength(s) + 1..], code)
    ensures RunLength(s) == |s| ==> s == LastRun(code)
  {
    hide Runs, RunLength, LastRun;
    var n := RunLength(s);
    assert Runs(s)[0] in Runs(s);
    RunByRun(s, "");
    RunsCons(s);
    if n < |s| {
      forall r | r in Runs(s[n + 1..]) ensures r in Runs(code) {
        assert r in [s[..n]] + Runs(s[n + 1..]);
      }
    }
  }

  lemma RunIsKnown(f: SourceFile, i: nat, s: string)
    requires i <= |f.segments| && EndOf(s, CodeAt(f, i))
    ensures KnownPath(f, s[..RunLength(s)])
  {
    EndAfterRun(s, CodeAt(f, i));
  }

  lemma NothingQuoted()
    ensures QuotedAt("").None?
  {}

  lemma WholeIsEnd(code: string)
    ensures EndOf(code, code)
  {}

  /** Whatever is found is a known path: read on from text between literals, */
  lemma {:induction false} FoundFromCode(f: SourceFile, i: nat, s: string, at: nat)
    requires WellQuoted(f) && i <= |f.segments| && EndOf(s, CodeAt(f, i))
    ensures AllKnown(f, FindFrom(s + RestAt(f, i), at))
    decreases |f.segments| - i, 1, |s|, 2
  {
    hide *;
    var n, rest := RunLength(s), RestAt(f, i);
    EndAfterRun(s, CodeAt(f, i));
    TextAt(f, i);
    if n < |s| {
      FirstRunOver(s, rest, at);
      if Introduces(s[..n], s[n..] + rest) {
        FoundAtStray(f, i, s, at);
      } else {
        FoundFromCode(f, i, s[n + 1..], at + n + 1);
      }
    } else {
      FindOverRun(s, rest, at);
      if i == |f.segments| {
        NothingAtEnd(f, s, at);
      } else {
        FoundAtLiteral(f, i, s, at);
      }
    }
  }

  lemma NothingAtEnd(f: SourceFile, s: string, at: nat)
    requires QuoteFree(s)
    ensures AllKnown(f, FindFrom(s + RestAt(f, |f.segments|), at))
  {
    hide FindFrom, KnownPath;
    FindOverRun(s, "", at);
    NothingQuoted();
    FindNothing(at + |s|);
  }

  /** a match that starts before the last run of such text, */
  lemma {:induction false} FoundAtStray(f: SourceFile, i: nat, s: string, at: nat)
    requires WellQuoted(f) && i <= |f.segments| && EndOf(s, CodeAt(f, i)) && RunLength(s) < |s|
    requires Introduces(s[..RunLength(s)], s[RunLength(s)..] + RestAt(f, i))
    ensures AllKnown(f, FindFrom(s + RestAt(f, i), at))
    decreases |f.segments| - i, 1, |s|, 1
  {
    hide *;
    var n, rest := RunLength(s), RestAt(f, i);
    var run, t, tail := s[..n], s[n..] + rest, s[n + 1..];
    assert s + rest == run + t && t == [s[n]] + tail + rest;
    EndAfterRun(s, CodeAt(f, i));
    TextAt(f, i);
    FindOverRun(run, t, at);
    IntroducesQuoted(run, t);
    var path := QuotedAt(t).value;
    FoundPastQuote(f, i, s[n], tail, at + n + |path| + 2);
    KnownCons(f, FoundAt(at + n, t[0], path), FindFrom(t[|path| + 2..], at + n + |path| + 2));
  }

  lemma IntroducesQuoted(c: string, rest: string)
    requires Introduces(c, rest)
    ensures QuotedAt(rest).Some?
  {
    hide QuotedAt;
  }

  /** the last run before a literal, */
  lemma {:induction false} FoundAtLiteral(f: SourceFile, i: nat, s: string, at: nat)
    requires WellQuoted(f) && i < |f.segments| && s == LastRun(CodeAt(f, i))
    ensures AllKnown(f, FindFrom(s + RestAt(f, i), at))
    decreases |f.segments| - i, 0, 1
  {
    hide *;
    var literal, rest := f.segments[i], RestAt(f, i);
    TextAt(f, i);
    LiteralAt(f, i);
    CodeOf(f, i);
    CodeIntroduces(f, i);
    FindOverRun(s, rest, at);
    if IsImport(f, i) {
      var next := at + |s| + |literal.body| + 2;
      TextAt(f, i + 1);
      WholeIsEnd(CodeAt(f, i + 1));
      FoundFromCode(f, i + 1, CodeAt(f, i + 1), next);
      ImportIsKnown(f, i);
      KnownCons(f, FoundAt(at + |s|, rest[0], literal.body), FindFrom(TextFrom(f, i + 1), next));
    } else {
      OverCloser(rest, at + |s|);
      FoundFromBody(f, i, at + |s| + 1);
    }
  }

  /** the inside of a literal, */
  lemma {:induction false} FoundFromBody(f: SourceFile, i: nat, at: nat)
    requires WellQuoted(f) && i < |f.segments|
    ensures var s := f.segments[i];
      AllKnown(f, FindFrom(s.body + ([s.quote] + TextFrom(f, i + 1)), at))
    decreases |f.segments| - i, 0, 0
  {
    hide *;
    var s, after := f.segments[i], TextFrom(f, i + 1);
    var rest := [s.quote] + after;
    LiteralAt(f, i);
    TextAt(f, i + 1);
    WholeIsEnd(CodeAt(f, i + 1));
    FindOverRun(s.body, rest, at);
    if Introduces(s.body, rest) {
      IntroducesQuoted(s.body, rest);
      assert rest == [s.quote] + CodeAt(f, i + 1) + RestAt(f, i + 1);
      var path := QuotedAt(rest).value;
      var next := at + |s.body| + |path| + 2;
      FoundPastQuote(f, i + 1, s.quote, CodeAt(f, i + 1), next);
      KnownCons(f, FoundAt(at + |s.body|, rest[0], path), FindFrom(rest[|path| + 2..], next));
    } else {
      OverCloser(rest, at + |s.body|);
      assert rest[1..] == after;
      FoundFromCode(f, i + 1, CodeAt(f, i + 1), at + |s.body| + 1);
    }
  }

  /** or after a stray match. */
  lemma {:induction false} FoundPastQuote(f: SourceFile, i: nat, q: char, s: string, at: nat)
    requires WellQuoted(f) && i <= |f.segments| && EndOf(s, CodeAt(f, i)) && IsQuote(q)
    requires QuotedAt([q] + s + RestAt(f, i)).Some?
    ensures var path := QuotedAt([q] + s + RestAt(f, i)).value;
      && KnownPath(f, path)
      && AllKnown(f, FindFrom(([q] + s + RestAt(f, i))[|path| + 2..], at))
    decreases |f.segments| - i, 1, |s|, 0
  {
    hide *;
    var n, rest := RunLength(s), RestAt(f, i);
    TextAt(f, i);
    QuotedInText(q, s, rest);
    RunIsKnown(f, i, s);
    EndAfterRun(s, CodeAt(f, i));
    if n < |s| {
      FoundFromCode(f, i, s[n + 1..], at);
    } else {
      RestIsLiteral(f, i);
      LiteralAt(f, i);
      FoundFromBody(f, i, at);
    }
  }

  lemma RestIsLiteral(f: SourceFile, i: nat)
    requires i <= |f.segments|
    ensures RestAt(f, i) != "" ==> i < |f.segments|
  {}

  /** Literal `s` has the quotes and the text of one of the first `n` imports. */
  predicate LikeImport(f: SourceFile, n: nat, s: Segment)
    requires n <= |f.segments|
  {
    exists j :: 0 <= j < n && IsImport(f, j) && f.segments[j].quote == s.quote && f.segments[j].body == s.body
  }

  function RewriteSegment(f: SourceFile, n: nat, lookup: map<Path, Path>, root: Path, file: Path, s: Segment): Segment
    requires n <= |f.segments|
  {
    if LikeImport(f, n, s) then s.(body := RewritePath(lookup, root, file, s.body)) else s
  }

  /** The file after its first `n` literals have been looked at. */
  function RewriteFirst(f: SourceFile, n: nat, lookup: map<Path, Path>, root: Path, file: Path): (r: SourceFile)
    requires n <= |f.segments|
    ensures |r.segments| == |f.segments|
  {
    f.(segments := seq(|f.segments|, i requires 0 <= i < |f.segments| =>
      RewriteSegment(f, n, lookup, root, file, f.segments[i])))
  }

  /** The rewritten file: every literal with the text of an import is that import's
      rewritten path, everything else is as it was. */
  function RewriteFile(f: SourceFile, lookup: map<Path, Path>, root: Path, file: Path): (r: SourceFile)
    ensures |r.segments| == |f.segments|
  {
    RewriteFirst(f, |f.segments|, lookup, root, file)
  }

  // The text replacement acts on whole literals.

  function ReplaceIn(segments: seq<Segment>, quote: char, was: string, now: string): seq<Segment> {
    seq(|segments|, i requires 0 <= i < |segments| =>
      if segments[i].quote == quote && segments[i].body == was then segments[i].(body := now) else segments[i])
  }

  /** The pattern does not start at a quote that its own text does not follow up to
      the next quote. */
  lemma NoMatchAtQuote(q: char, text: string, next: string, pattern: string, quote: char, was: string)
    requires IsQuote(quote) && QuoteFree(was) && QuoteFree(text) && pattern == InQuotes(quote, was)
    requires next == "" || IsQuote(next[0])
    requires text != was || q != quote || next == "" || next[0] != quote
    ensures !(pattern <= [q] + text + next)
  {
    var t := [q] + text + next;
    assert forall k :: 0 <= k < |text| ==> text[k] in text;
    assert forall k :: 0 <= k < |was| ==> was[k] in was;
    assert pattern[0] == quote && pattern[1..1 + |was|] == was && pattern[1 + |was|] == quote;
    assert t[0] == q && t[1..1 + |text|] == text && (next != "" ==> t[1 + |text|] == next[0]);
    if |was| < |text| {
      assert t[1 + |was|] == text[|was|];
    } else if |text| < |was| {
      assert pattern[1 + |text|] == was[|text|];
    }
  }

  lemma NoQuoteInside(body: string, rest: string, pattern: string, j: nat)
    requires QuoteFree(body) && pattern != "" && IsQuote(pattern[0]) && j < |body|
    ensures !(pattern <= body[j..] + rest)
  {
    assert (body[j..] + rest)[0] == body[j] && body[j] in body;
  }

  /** What can follow a quote: text up to the next quote that is not the replaced one. */
  ghost predicate FollowsLiteral(rest: string, was: string) {
    exists code, next ::
      && rest == code + next && QuoteFree(code)
      && (next == "" || (IsQuote(next[0]) && code != was))
  }

  /** A literal that is not the replaced one is passed over. */
  lemma LiteralSkipped(q: char, body: string, rest: string, quote: char, was: string, rep: string)
    requires IsQuote(q) && IsQuote(quote) && QuoteFree(body) && QuoteFree(was) && was != ""
    requires q != quote || body != was
    requires FollowsLiteral(rest, was)
    ensures Replace(InQuotes(q, body) + rest, InQuotes(quote, was), rep)
         == InQuotes(q, body) + Replace(rest, InQuotes(quote, was), rep)
  {
    hide Replace;
    var p, pattern := InQuotes(q, body), InQuotes(quote, was);
    var code, next :| rest == code + next && QuoteFree(code) && (next == "" || (IsQuote(next[0]) && code != was));
    forall j | 0 <= j < |p| ensures !(pattern <= p[j..] + rest) {
      if j == 0 {
        NoMatchAtQuote(q, body, [q] + rest, pattern, quote, was);
        assert p[j..] + rest == [q] + body + ([q] + rest);
      } else if j <= |body| {
        NoQuoteInside(body, [q] + rest, pattern, j - 1);
        assert p[j..] + rest == body[j - 1..] + ([q] + rest);
      } else {
        NoMatchAtQuote(q, code, next, pattern, quote, was);
        assert p[j..] + rest == [q] + code + next;
      }
    }
    ReplaceSkips(p, rest, pattern, rep);
  }

  lemma LiteralReplaced(rest: string, pattern: string, rep: string)
    requires pattern != ""
    ensures Replace(pattern + rest, pattern, rep) == rep + Replace(rest, pattern, rep)
  {
    assert (pattern + rest)[|pattern|..] == rest;
  }

  predicate QuotedSegments(segments: seq<Segment>) {
    forall i :: 0 <= i < |segments| ==> IsQuote(segments[i].quote) && QuoteFree(segments[i].body)
  }

  /** Text of which no run is the replaced one is passed over. */
  lemma {:induction false} TextSkipped(s: string, rest: string, quote: char, was: string, rep: string)
    requires was !in Runs(s) && (rest == "" || IsQuote(rest[0])) && IsQuote(quote) && QuoteFree(was)
    ensures Replace(s + rest, InQuotes(quote, was), rep) == s + Replace(rest, InQuotes(quote, was), rep)
    decreases |s|
  {
    hide Replace, Runs, FollowsLiteral, RunLength, InQuotes;
    var n, pattern := RunLength(s), InQuotes(quote, was);
    var run, t := s[..n], s[n..] + rest;
    RunsCons(s);
    OpensWithQuote(quote, was);
    assert s + rest == run + t;
    ReplaceSkipsOthers(run, t, pattern, rep);
    if n < |s| {
      var tail := s[n + 1..];
      AroundQuote(s, n, rest);
      AroundQuote(s, n, Replace(rest, pattern, rep));
      TextSkipped(tail, rest, quote, was, rep);
      TextFollows(tail, rest, was);
      QuoteSkipped(s[n], tail + rest, quote, was, rep);
    } else {
      assert run == s && t == rest;
    }
  }

  lemma OpensWithQuote(quote: char, was: string)
    ensures InQuotes(quote, was) != "" && InQuotes(quote, was)[0] == quote
  {}

  lemma AroundQuote(s: string, n: nat, rest: string)
    requires n < |s|
    ensures s[n..] + rest == [s[n]] + (s[n + 1..] + rest)
    ensures s[..n] + ([s[n]] + (s[n + 1..] + rest)) == s + rest
  {}

  lemma TextFollows(s: string, rest: string, was: string)
    requires was !in Runs(s) && (rest == "" || IsQuote(rest[0]))
    ensures FollowsLiteral(s + rest, was)
  {
    hide Runs, RunLength, FollowsLiteral;
    var n := RunLength(s);
    var run, next := s[..n], s[n..] + rest;
    assert s + rest == run + next && Runs(s)[0] in Runs(s);
    assert n == |s| ==> next == rest;
    RunFollows(run, next, was);
  }

  lemma RunFollows(run: string, next: string, was: string)
    requires QuoteFree(run) && (next == "" || (IsQuote(next[0]) && run != was))
    ensures FollowsLiteral(run + next, was)
  {}

  lemma QuoteSkipped(q: char, rest: string, quote: char, was: string, rep: string)
    requires IsQuote(quote) && QuoteFree(was) && FollowsLiteral(rest, was)
    ensures Replace([q] + rest, InQuotes(quote, was), rep) == [q] + Replace(rest, InQuotes(quote, was), rep)
  {
    hide Replace;
    var code, next :| rest == code + next && QuoteFree(code) && (next == "" || (IsQuote(next[0]) && code != was));
    NoMatchAtQuote(q, code, next, InQuotes(quote, was), quote, was);
    assert [q] + rest == [q] + code + next;
    ReplaceOver(q, rest, InQuotes(quote, was), rep);
  }

  lemma ReplaceOver(c: char, s: string, pattern: string, rep: string)
    requires pattern != "" && !(pattern <= [c] + s)
    ensures Replace([c] + s, pattern, rep) == [c] + Replace(s, pattern, rep)
  {
    assert ([c] + s)[1..] == s;
  }

  lemma RenderCons(segments: seq<Segment>, tail: string)
    requires segments != []
    ensures var s := segments[0];
      RenderSegments(segments) + tail
        == s.code + (InQuotes(s.quote, s.body) + (RenderSegments(segments[1..]) + tail))
  {
    var s, rest := segments[0], RenderSegments(segments[1..]);
    Regrouped(s.code, InQuotes(s.quote, s.body), rest, tail);
  }

  /** str.replace of a quoted path on the text is replacement of the literals. */
  lemma {:induction false} ReplaceRendered(segments: seq<Segment>, tail: string, quote: char, was: string, now: string)
    requires QuotedSegments(segments)
    requires IsQuote(quote) && QuoteFree(was) && was != ""
    requires was !in Runs(tail) && forall i :: 0 <= i < |segments| ==> was !in Runs(segments[i].code)
    ensures Replace(RenderSegments(segments) + tail, InQuotes(quote, was), InQuotes(quote, now))
         == RenderSegments(ReplaceIn(segments, quote, was, now)) + tail
    decreases |segments|
  {
    hide Replace, RenderSegments, FollowsLiteral, Runs;
    var pattern, rep := InQuotes(quote, was), InQuotes(quote, now);
    if segments == [] {
      RenderEmpty(tail);
      TextSkipped(tail, "", quote, was, rep);
      ReplaceEmpty(pattern, rep);
      assert tail + "" == tail;
    } else {
      var s, more := segments[0], segments[1..];
      var rest := RenderSegments(more) + tail;
      var r := ReplaceIn(segments, quote, was, now);
      assert forall i :: 0 <= i < |more| ==> more[i] == segments[i + 1];
      ReplaceRendered(more, tail, quote, was, now);
      RestFollows(more, tail, was);
      TextSkipped(s.code, InQuotes(s.quote, s.body) + rest, quote, was, rep);
      if s.quote == quote && s.body == was {
        LiteralReplaced(rest, pattern, rep);
      } else {
        LiteralSkipped(s.quote, s.body, rest, quote, was, rep);
      }
      assert r[1..] == ReplaceIn(more, quote, was, now);
      RenderCons(segments, tail);
      RenderCons(r, tail);
    }
  }

  lemma RestFollows(segments: seq<Segment>, tail: string, was: string)
    requires QuotedSegments(segments)
    requires was !in Runs(tail) && forall i :: 0 <= i < |segments| ==> was !in Runs(segments[i].code)
    ensures FollowsLiteral(RenderSegments(segments) + tail, was)
  {
    hide FollowsLiteral, Runs, RenderSegments;
    if segments == [] {
      RenderEmpty(tail);
      TextFollows(tail, "", was);
      assert tail + "" == tail;
    } else {
      var s := segments[0];
      RenderCons(segments, tail);
      TextFollows(s.code, InQuotes(s.quote, s.body) + (RenderSegments(segments[1..]) + tail), was);
    }
  }

  lemma RenderEmpty(tail: string)
    ensures RenderSegments([]) + tail == tail
  {}

  lemma ReplaceEmpty(pattern: string, rep: string)
    requires pattern != ""
    ensures Replace("", pattern, rep) == ""
  {}

  // The loop over the matches.

  lemma RewriteFirstStep(f: SourceFile, n: nat, lookup: map<Path, Path>, root: Path, file: Path)
    requires GoodLookup(lookup) && n < |f.segments| && IsImport(f, n)
    ensures var s := f.segments[n];
      RewriteFirst(f, n + 1, lookup, root, file).segments
        == ReplaceIn(RewriteFirst(f, n, lookup, root, file).segments, s.quote, s.body,
                     RewritePath(lookup, root, file, s.body))
  {
    hide RewritePath, IsImport;
    var s := f.segments[n];
    var a, b := RewriteFirst(f, n, lookup, root, file).segments, RewriteFirst(f, n + 1, lookup, root, file).segments;
    var now := RewritePath(lookup, root, file, s.body);
    forall i | 0 <= i < |a| ensures b[i] == ReplaceIn(a, s.quote, s.body, now)[i] {
      var x := f.segments[i];
      RewritePathIdempotent(lookup, root, file, x.body);
      assert LikeImport(f, n + 1, x) <==> LikeImport(f, n, x) || (x.quote == s.quote && x.body == s.body);
    }
  }

  lemma RewriteFirstSkip(f: SourceFile, n: nat, lookup: map<Path, Path>, root: Path, file: Path)
    requires n < |f.segments|
    requires !IsImport(f, n) || RewritePath(lookup, root, file, f.segments[n].body) == f.segments[n].body
    ensures RewriteFirst(f, n + 1, lookup, root, file) == RewriteFirst(f, n, lookup, root, file)
  {
    hide RewritePath, IsImport;
    var s := f.segments[n];
    var a, b := RewriteFirst(f, n, lookup, root, file).segments, RewriteFirst(f, n + 1, lookup, root, file).segments;
    forall i | 0 <= i < |a| ensures b[i] == a[i] {
      var x := f.segments[i];
      assert LikeImport(f, n + 1, x) ==>
        LikeImport(f, n, x) || (x.quote == s.quote && x.body == s.body && IsImport(f, n));
      assert LikeImport(f, n, x) ==> LikeImport(f, n + 1, x);
    }
  }

  lemma RewritePathQuoteFree(lookup: map<Path, Path>, root: Path, file: Path, path: string)
    requires GoodLookup(lookup) && QuoteFree(path)
    ensures QuoteFree(RewritePath(lookup, root, file, path))
  {
    var target := ResolveImport(root, file, path);
    if target.Some? && target.value in lookup {
      assert IsStemRenaming(target.value, lookup[target.value]);
      SplitQuoteFree(path);
      var parts := WithLast(Split(path), Last(lookup[target.value]));
      JoinQuoteFree(parts);
    }
  }

  lemma {:induction false} SplitQuoteFree(s: string)
    requires QuoteFree(s)
    ensures forall p :: p in Split(s) ==> QuoteFree(p)
  {
    if s != "" {
      assert s[0] in s && forall c :: c in s[1..] ==> c in s;
      SplitQuoteFree(s[1..]);
      assert Split(s[1..])[0] in Split(s[1..]);
    }
  }

  lemma {:induction false} JoinQuoteFree(parts: seq<string>)
    requires forall p :: p in parts ==> QuoteFree(p)
    ensures QuoteFree(Join(parts))
  {
    if |parts| > 0 {
      assert parts[0] in parts;
      if |parts| > 1 { JoinQuoteFree(parts[1..]); }
    }
  }

  lemma RewriteFirstQuoted(f: SourceFile, n: nat, lookup: map<Path, Path>, root: Path, file: Path)
    requires WellQuoted(f) && GoodLookup(lookup) && n <= |f.segments|
    ensures QuotedSegments(RewriteFirst(f, n, lookup, root, file).segments)
  {
    hide RewritePath, LikeImport;
    forall i | 0 <= i < |f.segments| ensures QuoteFree(RewriteFirst(f, n, lookup, root, file).segments[i].body) {
      RewritePathQuoteFree(lookup, root, file, f.segments[i].body);
    }
  }

  lemma RewriteFirstNone(f: SourceFile, lookup: map<Path, Path>, root: Path, file: Path)
    ensures RewriteFirst(f, 0, lookup, root, file) == f
  {
    hide RewritePath;
  }

  /** Replacing for one import after the other rewrites one after the other. */
  lemma {:induction false} RewriteImports(f: SourceFile, i: nat, at: nat,
                                          lookup: map<Path, Path>, root: Path, file: Path)
    requires WellQuoted(f) && CodeIsNoImport(f, lookup, root, file) && GoodLookup(lookup) && i <= |f.segments|
    ensures RewriteAll(Render(RewriteFirst(f, i, lookup, root, file)), ImportsFrom(f, i, at), lookup, root, file)
         == Render(RewriteFile(f, lookup, root, file))
    decreases |f.segments| - i
  {
    hide IsImport, RewriteFirst, RewriteOne, Render, WellQuoted, CodeIsNoImport, GoodLookup;
    if i < |f.segments| {
      var s := f.segments[i];
      RewriteImports(f, i + 1, at + |s.code| + |s.body| + 2, lookup, root, file);
      var rest := ImportsFrom(f, i + 1, at + |s.code| + |s.body| + 2);
      if IsImport(f, i) {
        var m := FoundAt(at + |s.code|, s.quote, s.body);
        RewriteNext(f, i, m, lookup, root, file);
        assert ([m] + rest)[0] == m && ([m] + rest)[1..] == rest;
      } else {
        RewriteFirstSkip(f, i, lookup, root, file);
        assert [] + rest == rest;
      }
    }
  }

  lemma RewriteNext(f: SourceFile, i: nat, m: Found, lookup: map<Path, Path>, root: Path, file: Path)
    requires WellQuoted(f) && CodeIsNoImport(f, lookup, root, file) && GoodLookup(lookup)
    requires i < |f.segments| && IsImport(f, i) && m.quote == f.segments[i].quote && m.path == f.segments[i].body
    ensures RewriteOne(Render(RewriteFirst(f, i, lookup, root, file)), m, lookup, root, file)
         == Render(RewriteFirst(f, i + 1, lookup, root, file))
  {
    hide RewritePath, LikeImport, Replace, RenderSegments, GoodLookup, Runs, IsImport, CodeIsNoImport;
    ImportHasText(f, i);
    var s, now := f.segments[i], RewritePath(lookup, root, file, m.path);
    var g := RewriteFirst(f, i, lookup, root, file);
    RewriteFirstQuoted(f, i, lookup, root, file);
    if now == m.path {
      RewriteFirstSkip(f, i, lookup, root, file);
    } else {
      ChangedIsNoRun(f, m.path, lookup, root, file);
      assert forall j :: 0 <= j < |g.segments| ==> g.segments[j].code == f.segments[j].code;
      ReplaceRendered(g.segments, f.tail, s.quote, s.body, now);
      RewriteFirstStep(f, i, lookup, root, file);
    }
  }

  lemma ImportHasText(f: SourceFile, i: nat)
    requires i < |f.segments| && IsImport(f, i)
    ensures f.segments[i].body != ""
  {}

  lemma ChangedIsNoRun(f: SourceFile, path: string, lookup: map<Path, Path>, root: Path, file: Path)
    requires CodeIsNoImport(f, lookup, root, file) && RewritePath(lookup, root, file, path) != path
    ensures path !in Runs(f.tail) && forall i :: 0 <= i < |f.segments| ==> path !in Runs(f.segments[i].code)
  {
    hide RewritePath, Runs;
    assert CodeAt(f, |f.segments|) == f.tail;
    forall i | 0 <= i < |f.segments| ensures path !in Runs(f.segments[i].code) {
      assert CodeAt(f, i) == f.segments[i].code;
    }
  }

  /** On a file in which no match strays and no text between the literals reads like an
      import, the rewritten text is the rewritten file. */
  lemma RewriteTextOfFile(f: SourceFile, lookup: map<Path, Path>, root: Path, file: Path)
    requires WellQuoted(f) && NothingStrays(f) && CodeIsNoImport(f, lookup, root, file) && GoodLookup(lookup)
    ensures RewriteText(Render(f), lookup, root, file) == Render(RewriteFile(f, lookup, root, file))
  {
    hide RewriteFile, RewriteFirst, RewriteAll, FindFrom, ImportsFrom, GoodLookup;
    assert f.segments[0..] == f.segments;
    FoundAreImports(f, 0, 0);
    RewriteFirstNone(f, lookup, root, file);
    RewriteImports(f, 0, 0, lookup, root, file);
  }

  // Imports as the language has them.

  predicate IsWordChar(c: char) { 'a' <= c <= 'z' || 'A' <= c <= 'Z' || '0' <= c <= '9' || c == '_' || c == '$' }

  predicate EndsInWord(s: string, word: string) {
    && |word| <= |s| && s[|s| - |word|..] == word
    && (|s| == |word| || !IsWordChar(s[|s| - |word| - 1]))
  }

  /** Code after which a literal is a module path: the word "from", the word "import", or
      "import" and an opening bracket, with or without white space. */
  predicate IntroducesImport(code: string) {
    var head := RStrip(code);
    || EndsInWord(head, "from")
    || EndsInWord(head, "import")
    || (head != "" && head[|head| - 1] == '(' && EndsInWord(RStrip(head[..|head| - 1]), "import"))
  }

  predicate IsModuleImport(f: SourceFile, i: nat)
    requires i < |f.segments|
  {
    f.segments[i].body != "" && IntroducesImport(f.segments[i].code)
  }

  /** The words after which a path stands, with any white space behind them, where no
      letter, digit, "_" or "$" stands before. */
  lemma ImportWordsIntroduce(head: string, white: string, more: string)
    requires (head == "" || !IsWordChar(head[|head| - 1])) && AllSpace(white) && AllSpace(more)
    ensures IntroducesImport(head + "from" + white) && IntroducesImport(head + "import" + white)
    ensures IntroducesImport(head + "import" + white + "(" + more)
  {
    EndsAfterHead(head, "from");
    EndsAfterHead(head, "import");
    var a, b, c := head + "from", head + "import", head + "import" + white + "(";
    StripsTo(a, white);
    StripsTo(b, white);
    StripsTo(c, more);
    assert c[..|c| - 1] == b + white;
  }

  lemma EndsAfterHead(head: string, word: string)
    requires head == "" || !IsWordChar(head[|head| - 1])
    ensures EndsInWord(head + word, word)
  {
    assert (head + word)[|head|..] == word;
  }

  /** Any other last word introduces none. */
  lemma OtherCodeIntroducesNone(code: string)
    requires var head := RStrip(code);
      head == "" || (head[|head| - 1] != 'm' && head[|head| - 1] != 't' && head[|head| - 1] != '(')
    ensures !IntroducesImport(code)
  {
    hide RStrip;
    WordEnds(RStrip(code), "from");
    WordEnds(RStrip(code), "import");
  }

  /** The places that the expression does not match: after a bare "import", after "from"
      without white space, after "import(" with white space, and before anything but the
      closing bracket. */
  lemma UnmatchedPlaces(f: SourceFile, i: nat)
    requires i < |f.segments|
    ensures EndsInWord(RStrip(f.segments[i].code), "import") ==> !IsImport(f, i)
    ensures EndsInWord(f.segments[i].code, "from") ==> !IsImport(f, i)
    ensures RStrip(f.segments[i].code) != f.segments[i].code && !EndsWithFrom(f.segments[i].code) ==> !IsImport(f, i)
    ensures EndsWithImport(f.segments[i].code) && !(")" <= CodeAt(f, i + 1)) ==> !IsImport(f, i)
  {
    hide FromAndSpace, EndsWithFrom, EndsInWord, RStrip;
    var code := f.segments[i].code;
    var head := RStrip(code);
    WordEnds(head, "import");
    WordEnds(code, "from");
    if EndsWithFrom(code) {
      FromIsStripped(code);
      assert head[|head| - 1] == head[|head| - 4..][3] == 'm';
    }
    if EndsWithImport(code) {
      assert code[|code| - 1] == code[|code| - 7..][6] == '(';
      NotStripped(code);
    }
  }

  lemma WordEnds(s: string, word: string)
    requires word != ""
    ensures EndsInWord(s, word) ==> s != "" && s[|s| - 1] == word[|word| - 1]
  {
    if EndsInWord(s, word) { assert s[|s| - |word|..][|word| - 1] == s[|s| - 1]; }
  }

  lemma NotStripped(s: string)
    requires s != "" && !IsSpace(s[|s| - 1])
    ensures RStrip(s) == s
  {}

  lemma FromIsStripped(code: string)
    requires EndsWithFrom(code)
    ensures var head := RStrip(code);
      |head| < |code| && |head| >= 4 && head[|head| - 4..] == "from"
      && IsSpace(code[|code| - 1])
  {
    hide RStrip;
    var k :| 0 <= k < |code| && FromAndSpace(code[k..]);
    var front, white := code[..k + 4], code[k + 4..];
    assert white == code[k..][4..] && code == front + white && front[k..] == "from";
    assert front[|front| - 1] == front[k..][3] == 'm';
    StripsTo(front, white);
    assert code[|code| - 1] == white[|white| - 1] && white[|white| - 1] in white;
  }

  lemma {:induction false} StripsTo(front: string, white: string)
    requires front != "" && !IsSpace(front[|front| - 1]) && AllSpace(white)
    ensures RStrip(front + white) == front
    decreases |white|
  {
    if white == "" {
      assert front + white == front;
    } else {
      assert white[|white| - 1] in white;
      assert (front + white)[..|front + white| - 1] == front + white[..|white| - 1];
      StripsTo(front, white[..|white| - 1]);
    }
  }

  /** Main result for one file. Where no match strays and no text between the literals
      reads like an import, exactly the literals with quotes and text of a matched import
      become their rewritten paths, and nothing else changes. So a module import gets its
      rewritten path if and only if it is such a literal, or its path stays the same. */
  lemma ImportsFollowRenames(f: SourceFile, lookup: map<Path, Path>, root: Path, file: Path, i: nat)
    requires WellQuoted(f) && NothingStrays(f) && CodeIsNoImport(f, lookup, root, file) && GoodLookup(lookup)
    requires i < |f.segments| && IsModuleImport(f, i)
    ensures var f', path := RewriteFile(f, lookup, root, file), f.segments[i].body;
      var now := RewritePath(lookup, root, file, path);
      && RewriteText(Render(f), lookup, root, file) == Render(f')
      && WellQuoted(f') && IsModuleImport(f', i)
      && f'.tail == f.tail && f'.segments[i].code == f.segments[i].code && f'.segments[i].quote == f.segments[i].quote
      && (f'.segments[i].body == path || f'.segments[i].body == now)
      && (f'.segments[i].body == now <==> now == path || LikeImport(f, |f.segments|, f.segments[i]))
  {
    hide RewriteText, Render, IsImport, RewritePath, GoodLookup;
    RewriteTextOfFile(f, lookup, root, file);
    RewriteFirstQuoted(f, |f.segments|, lookup, root, file);
    RewriteKeepsText(lookup, root, file, f.segments[i].body);
  }

  /** In terms of places: an import that named a renamed file names the new path, after
      the rewrite, if and only if it is written like a matched one and ends in an ordinary
      name. */
  lemma ImportsReachExactly(f: SourceFile, lookup: map<Path, Path>, root: Path, file: Path, i: nat)
    requires WellQuoted(f) && NothingStrays(f) && CodeIsNoImport(f, lookup, root, file) && GoodLookup(lookup)
    requires i < |f.segments| && IsModuleImport(f, i)
    requires ResolveImport(root, file, f.segments[i].body).Some?
    requires var target := ResolveImport(root, file, f.segments[i].body).value;
      target in lookup && lookup[target] != target
    ensures var target := ResolveImport(root, file, f.segments[i].body).value;
      ResolveImport(root, file, RewriteFile(f, lookup, root, file).segments[i].body) == Some(lookup[target]) <==>
        LikeImport(f, |f.segments|, f.segments[i]) && Ordinary(LastPart(f.segments[i].body))
  {
    hide RewritePath, IsImport, GoodLookup, LastPart;
    ImportsFollowRenames(f, lookup, root, file, i);
    RewrittenReachesNewPath(lookup, root, file, f.segments[i].body);
  }

  lemma ImportIsRewritten(f: SourceFile, lookup: map<Path, Path>, root: Path, file: Path, i: nat)
    requires i < |f.segments| && IsImport(f, i)
    ensures RewriteFile(f, lookup, root, file).segments[i].body == RewritePath(lookup, root, file, f.segments[i].body)
  {
    assert LikeImport(f, |f.segments|, f.segments[i]);
  }

  lemma RewriteKeepsText(lookup: map<Path, Path>, root: Path, file: Path, path: string)
    requires GoodLookup(lookup)
    ensures RewritePath(lookup, root, file, path) == "" <==> path == ""
  {
    var target := ResolveImport(root, file, path);
    if target.Some? && target.value in lookup {
      assert IsStemRenaming(target.value, lookup[target.value]);
      var name := Last(lookup[target.value]);
      PartsOfRewritten(path, name);
      assert Split("") == [""];
    }
  }

  /** The rewritten file has exactly the imports of the original. */
  lemma StillImport(f: SourceFile, lookup: map<Path, Path>, root: Path, file: Path, j: nat)
    requires GoodLookup(lookup) && j < |f.segments|
    ensures IsImport(RewriteFile(f, lookup, root, file), j) <==> IsImport(f, j)
  {
    hide RewritePath, LikeImport, EndsWithFrom, EndsWithImport;
    RewriteKeepsText(lookup, root, file, f.segments[j].body);
  }

  /** A second rewrite, which scans the rewritten text again, changes nothing. */
  lemma RewriteTextIdempotent(f: SourceFile, lookup: map<Path, Path>, root: Path, file: Path)
    requires WellQuoted(f) && NothingStrays(f) && CodeIsNoImport(f, lookup, root, file) && GoodLookup(lookup)
    ensures var once := RewriteText(Render(f), lookup, root, file);
      RewriteText(once, lookup, root, file) == once
  {
    hide RewriteFile, FindFrom, RewritePath, KnownPath, WellQuoted, CodeIsNoImport, GoodLookup;
    var f' := RewriteFile(f, lookup, root, file);
    RewriteTextOfFile(f, lookup, root, file);
    RewrittenIsQuoted(f, lookup, root, file);
    assert f'.segments[0..] == f'.segments;
    WholeIsEnd(CodeAt(f', 0));
    TextAt(f', 0);
    FoundFromCode(f', 0, CodeAt(f', 0), 0);
    var found := FindFrom(Render(f'), 0);
    forall k | 0 <= k < |found| ensures RewritePath(lookup, root, file, found[k].path) == found[k].path {
      KnownIsFixed(f, lookup, root, file, found[k].path);
    }
    NothingToRewrite(Render(f'), found, lookup, root, file);
  }

  lemma RewrittenIsQuoted(f: SourceFile, lookup: map<Path, Path>, root: Path, file: Path)
    requires WellQuoted(f) && GoodLookup(lookup)
    ensures WellQuoted(RewriteFile(f, lookup, root, file))
  {
    hide RewriteSegment;
    RewriteFirstQuoted(f, |f.segments|, lookup, root, file);
  }

  lemma KnownIsFixed(f: SourceFile, lookup: map<Path, Path>, root: Path, file: Path, path: string)
    requires CodeIsNoImport(f, lookup, root, file) && GoodLookup(lookup)
    requires KnownPath(RewriteFile(f, lookup, root, file), path)
    ensures RewritePath(lookup, root, file, path) == path
  {
    hide RewritePath, IsImport, LikeImport;
    var f' := RewriteFile(f, lookup, root, file);
    if i :| 0 <= i < |f'.segments| && IsImport(f', i) && f'.segments[i].body == path {
      StillImport(f, lookup, root, file, i);
      ImportIsRewritten(f, lookup, root, file, i);
      RewritePathIdempotent(lookup, root, file, f.segments[i].body);
    } else {
      var i :| 0 <= i <= |f'.segments| && path in Runs(CodeAt(f', i));
      assert CodeAt(f', i) == CodeAt(f, i);
    }
  }

  /** An import whose opening quote is swallowed is missed: the literal 'from ' and the
      code after it are matched in its place, and the import stays as it was. */
  lemma SwallowedImportExample() returns (f: SourceFile, lookup: map<Path, Path>, file: Path)
    ensures WellQuoted(f) && CodeIsNoImport(f, lookup, [], file) && GoodLookup(lookup)
    ensures Render(f) == "h = " + "'from '" + "; import(" + "'./Foo'" + ")"
    ensures |f.segments| == 2 && Swallows(f, 0) && IsImport(f, 1)
    ensures RewritePath(lookup, [], file, f.segments[1].body) == "./foo"
    ensures RewriteText(Render(f), lookup, [], file) == Render(f)
  {
    hide *;
    var root: Path := [];
    var code, body, code', body' := "h = ", "from ", "; import(", "./Foo";
    var hint, imported := Segment(code, '\'', body), Segment(code', '\'', body');
    lookup, file := map[["Foo"] := ["foo"]], ["x.ts"];
    f := SourceFile([hint, imported], ")");
    TwoSegments(f, hint, imported);
    ExampleQuotes();
    TwoPlain(f, hint, imported);
    ExampleImport(f, hint, imported);
    ExamplePath(lookup, file);
    PlainCode(f, lookup, root, file);
    LastLiteralSwallowed(f, 0);
    var found := FindFrom(TextFrom(f, 0), 0);
    assert found == [found[0]];
    NothingToRewrite(Render(f), found, lookup, root, file);
    WholeText(f, lookup, root, file);
  }

  lemma WholeText(f: SourceFile, lookup: map<Path, Path>, root: Path, file: Path)
    ensures RewriteText(Render(f), lookup, root, file)
         == RewriteAll(Render(f), FindFrom(TextFrom(f, 0), 0), lookup, root, file)
  {
    hide RewriteAll, FindFrom;
    assert f.segments[0..] == f.segments;
  }

  /** What is found when a literal without quotes before it swallows up to the last
      literal of the file. */
  lemma LastLiteralSwallowed(f: SourceFile, at: nat)
    requires WellQuoted(f) && |f.segments| == 2 && Swallows(f, 0)
    requires QuoteFree(f.segments[0].code) && QuoteFree(f.segments[1].code) && QuoteFree(f.tail)
    ensures var found := FindFrom(TextFrom(f, 0), at);
      |found| == 1 && found[0].path == f.segments[1].code
  {
    hide *;
    FirstLiteralMissed(f, at);
    MatchSwallows(f, at + |f.segments[0].code| + 1);
  }

  /** Where the first literal is no import, the search goes on inside it. */
  lemma FirstLiteralMissed(f: SourceFile, at: nat)
    requires WellQuoted(f) && |f.segments| == 2 && Swallows(f, 0) && QuoteFree(f.segments[0].code)
    ensures var s := f.segments[0];
      FindFrom(TextFrom(f, 0), at) == FindFrom(s.body + ([s.quote] + TextFrom(f, 1)), at + |s.code| + 1)
  {
    hide *;
    var s := f.segments[0];
    SwallowCases(f);
    CodeOf(f, 0);
    TextAt(f, 0);
    LiteralAt(f, 0);
    WholeRun(s.code);
    CodeIntroduces(f, 0);
    FindOverRun(s.code, RestAt(f, 0), at);
    OverCloser(RestAt(f, 0), at + |s.code|);
  }

  /** From inside the first literal the match takes the text up to the last one. */
  lemma MatchSwallows(f: SourceFile, at: nat)
    requires WellQuoted(f) && |f.segments| == 2 && Swallows(f, 0)
    requires QuoteFree(f.segments[1].code) && QuoteFree(f.tail)
    ensures var s := f.segments[0];
      var found := FindFrom(s.body + ([s.quote] + TextFrom(f, 1)), at);
      |found| == 1 && found[0].path == f.segments[1].code
  {
    hide *;
    var s, last := f.segments[0], f.segments[1];
    var rest := [s.quote] + TextFrom(f, 1);
    SwallowCases(f);
    LiteralAt(f, 0);
    TextAt(f, 1);
    WholeRun(last.code);
    AfterSwallowed(f);
    FindOverRun(s.body, rest, at);
    IntroducesQuoted(s.body, rest);
    QuotedInText(s.quote, last.code, RestAt(f, 1));
    LastBodyFinds(f, at + |s.body| + |last.code| + 2);
  }

  lemma AfterSwallowed(f: SourceFile)
    requires WellQuoted(f) && |f.segments| == 2
    ensures var s, last := f.segments[0], f.segments[1];
      var rest := [s.quote] + TextFrom(f, 1);
      && rest == [s.quote] + last.code + RestAt(f, 1)
      && |last.code| + 2 <= |rest|
      && rest[|last.code| + 2..] == last.body + ([last.quote] + TextFrom(f, 2))
  {
    hide *;
    CodeOf(f, 1);
    TextAt(f, 1);
    TextAt(f, 2);
    LiteralAt(f, 1);
  }

  lemma SwallowCases(f: SourceFile)
    requires |f.segments| > 0 && Swallows(f, 0)
    ensures !IsImport(f, 0) && Introduces(f.segments[0].body, [f.segments[0].quote] + TextFrom(f, 1))
  {}

  lemma WholeRun(s: string)
    requires QuoteFree(s)
    ensures RunLength(s) == |s| && LastRun(s) == s && s[..|s|] == s
  {
    RunAll(s, "");
    assert s + "" == s;
  }

  lemma LastBodyFinds(f: SourceFile, at: nat)
    requires WellQuoted(f) && |f.segments| == 2 && QuoteFree(f.tail)
    ensures FindFrom(f.segments[1].body + ([f.segments[1].quote] + TextFrom(f, 2)), at) == []
  {
    hide *;
    var s := f.segments[1];
    var rest := [s.quote] + TextFrom(f, 2);
    TailText(f);
    LiteralAt(f, 1);
    QuotedWhole(s.quote, f.tail, "");
    assert [s.quote] + f.tail + "" == rest;
    FindOverRun(s.body, rest, at);
    NotIntroduced(s.body, rest);
    OverCloser(rest, at + |s.body|);
    FindOverRun(f.tail, "", at + |s.body| + 1);
    NothingQuoted();
    NotIntroduced(f.tail, "");
    assert rest[1..] == f.tail + "";
    FindNothing(at + |s.body| + 1 + |f.tail|);
  }

  lemma TailText(f: SourceFile)
    ensures TextFrom(f, |f.segments|) == f.tail
  {
    assert f.segments[|f.segments|..] == [];
  }

  lemma NotIntroduced(c: string, rest: string)
    requires QuotedAt(rest).None?
    ensures !Introduces(c, rest)
  {}

  /** Text that starts with neither "@" nor a dot is no path. */
  lemma PlainText(path: string, lookup: map<Path, Path>, root: Path, file: Path)
    requires path == "" || (path[0] != '@' && path[0] != '.')
    ensures RewritePath(lookup, root, file, path) == path
  {}

  lemma OneRun(code: string)
    requires QuoteFree(code)
    ensures Runs(code) == [code]
  {
    WholeRun(code);
  }

  predicate IsPlain(code: string) { QuoteFree(code) && (code == "" || (code[0] != '@' && code[0] != '.')) }

  lemma PlainCode(f: SourceFile, lookup: map<Path, Path>, root: Path, file: Path)
    requires forall i :: 0 <= i <= |f.segments| ==> IsPlain(CodeAt(f, i))
    ensures CodeIsNoImport(f, lookup, root, file)
  {
    hide RewritePath, Runs, CodeAt;
    forall i, r | 0 <= i <= |f.segments| && r in Runs(CodeAt(f, i)) ensures RewritePath(lookup, root, file, r) == r {
      assert IsPlain(CodeAt(f, i));
      OneRun(CodeAt(f, i));
      PlainText(r, lookup, root, file);
    }
  }

  lemma TwoSegments(f: SourceFile, s: Segment, t: Segment)
    requires f.segments == [s, t]
    ensures Render(f) == s.code + InQuotes(s.quote, s.body) + t.code + InQuotes(t.quote, t.body) + f.tail
    ensures (&& IsQuote(s.quote) && QuoteFree(s.code) && QuoteFree(s.body)
             && IsQuote(t.quote) && QuoteFree(t.code) && QuoteFree(t.body) && QuoteFree(f.tail)) ==> WellQuoted(f)
  {
    hide RewritePath;
    var a, b := s.code + InQuotes(s.quote, s.body), t.code + InQuotes(t.quote, t.body);
    assert f.segments[1..] == [t] && [t][1..] == [];
    assert RenderSegments([t]) == b + "" == b;
    assert a + b == s.code + InQuotes(s.quote, s.body) + t.code + InQuotes(t.quote, t.body);
  }

  /** A bare import is not matched: it stays as it was though its file is renamed. */
  lemma BareImportExample() returns (f: SourceFile, lookup: map<Path, Path>, file: Path)
    ensures WellQuoted(f) && NothingStrays(f) && CodeIsNoImport(f, lookup, [], file) && GoodLookup(lookup)
    ensures Render(f) == "import " + "'./Foo'"
    ensures |f.segments| == 1 && IsModuleImport(f, 0) && !LikeImport(f, 1, f.segments[0])
    ensures RewritePath(lookup, [], file, f.segments[0].body) == "./foo"
    ensures RewriteText(Render(f), lookup, [], file) == Render(f)
  {
    hide *;
    var literal := Segment("import ", '\'', "./Foo");
    lookup, file := map[["Foo"] := ["foo"]], ["x.ts"];
    f := SourceFile([literal], "");
    ExampleQuotes();
    OnePlain(f, literal);
    BareImport(f, literal);
    ExamplePath(lookup, file);
    BareNothingStrays(f, literal);
    PlainCode(f, lookup, [], file);
    RewriteTextOfFile(f, lookup, [], file);
    NothingLike(f, lookup, [], file);
  }

  lemma BareImport(f: SourceFile, s: Segment)
    requires f == SourceFile([s], "") && s == Segment("import ", '\'', "./Foo") && QuoteFree(s.body)
    ensures WellQuoted(f) && Render(f) == "import " + "'./Foo'"
    ensures IsModuleImport(f, 0) && !IsImport(f, 0)
  {
    assert f.segments[1..] == [];
    assert RenderSegments(f.segments) == s.code + ([s.quote] + s.body + [s.quote]) + "";
    assert [s.quote] + s.body + [s.quote] == "'./Foo'";
    assert Render(f) == s.code + "'./Foo'";
    StripsTo("import", " ");
    assert "import" + " " == s.code;
    assert EndsInWord("import", "import");
    UnmatchedPlaces(f, 0);
  }

  /** Neither the code nor the path of the example ends like a match. */
  lemma BareNothingStrays(f: SourceFile, s: Segment)
    requires f == SourceFile([s], "") && s == Segment("import ", '\'', "./Foo")
    requires QuoteFree(s.code) && QuoteFree(s.body) && WellQuoted(f) && !IsImport(f, 0)
    ensures NothingStrays(f)
  {
    hide *;
    WholeRun(s.code);
    WholeRun("");
    RunByRun(s.code, RestAt(f, 0));
    RunByRun("", RestAt(f, 1));
    TailText(f);
    QuotedWhole(s.quote, "", "");
    assert [s.quote] + "" + "" == [s.quote] + TextFrom(f, 1);
    NotIntroduced(s.body, [s.quote] + TextFrom(f, 1));
    OneStrays(f, s);
  }

  lemma OneStrays(f: SourceFile, s: Segment)
    requires f.segments == [s] && !Strays(s.code, RestAt(f, 0)) && !Strays(f.tail, RestAt(f, 1))
    requires !Introduces(s.body, [s.quote] + TextFrom(f, 1))
    ensures NothingStrays(f)
  {
    hide Strays, Introduces, TextFrom, RestAt;
  }

  lemma NothingLike(f: SourceFile, lookup: map<Path, Path>, root: Path, file: Path)
    requires |f.segments| == 1 && !IsImport(f, 0)
    ensures !LikeImport(f, 1, f.segments[0]) && RewriteFile(f, lookup, root, file) == f
  {
    hide IsImport, RewritePath;
    assert RewriteFile(f, lookup, root, file).segments == f.segments;
  }

  lemma TwoPlain(f: SourceFile, s: Segment, t: Segment)
    requires f == SourceFile([s, t], ")") && s.code == "h = " && t.code == "; import("
    requires QuoteFree("h = ") && QuoteFree("; import(") && QuoteFree(")")
    ensures forall i :: 0 <= i <= |f.segments| ==> IsPlain(CodeAt(f, i))
  {
    hide QuoteFree;
  }

  lemma OnePlain(f: SourceFile, s: Segment)
    requires f == SourceFile([s], "") && s.code == "import " && QuoteFree(s.code)
    ensures forall i :: 0 <= i <= |f.segments| ==> IsPlain(CodeAt(f, i))
  {}

  lemma ExampleQuotes()
    ensures IsQuote('\'') && QuoteFree("h = ") && QuoteFree("from ") && QuoteFree("; import(")
    ensures QuoteFree("./Foo") && QuoteFree(")") && QuoteFree("import ")
    ensures InQuotes('\'', "from ") == "'from '" && InQuotes('\'', "./Foo") == "'./Foo'"
  {}

  lemma ExampleImport(f: SourceFile, hint: Segment, imported: Segment)
    requires f == SourceFile([hint, imported], ")") && WellQuoted(f) && QuoteFree(imported.code)
    requires hint == Segment("h = ", '\'', "from ") && imported == Segment("; import(", '\'', "./Foo")
    ensures Swallows(f, 0) && IsImport(f, 1)
  {
    hide QuotedAt, TextFrom;
    assert EndsWithImport("; import(") by { assert "; import("[2..] == "import("; }
    assert EndsWithFrom("from ") by {
      assert "from "[0..] == "from " && "from "[4..] == " " && FromAndSpace("from "[0..]);
    }
    NoFromInHint("h = ");
    TextAt(f, 1);
    LiteralAt(f, 1);
    QuotedWhole('\'', imported.code, RestAt(f, 1));
    assert ['\''] + imported.code + RestAt(f, 1) == ['\''] + TextFrom(f, 1);
  }

  lemma NoFromInHint(code: string)
    requires 'f' !in code
    ensures !EndsWithFrom(code)
  {
    forall k | 0 <= k < |code| ensures !FromAndSpace(code[k..]) {
      assert code[k..][0] == code[k] && code[k] in code;
    }
  }

  lemma ExamplePath(lookup: map<Path, Path>, file: Path)
    requires lookup == map[["Foo"] := ["foo"]] && file == ["x.ts"]
    ensures GoodLookup(lookup)
    ensures RewritePath(lookup, [], file, "./Foo") == "./foo"
    ensures RewritePath(lookup, [], file, "; import(") == "; import("
  {
    hide Join, Split, Reduce;
    FooIsRenamed(["Foo"], ["foo"]);
    DottedName(lookup, file, "Foo", "foo");
    assert "./" + "Foo" == "./Foo" && "./" + "foo" == "./foo";
    assert "; import("[0] == ';' && "@/"[0] == '@' && "."[0] == '.';
  }
}
