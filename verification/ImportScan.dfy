/** The import expression of update_file_imports as a scanner over any text: what it
    matches at one place, what finditer finds, and how both are seen run by run, a run
    being the text between two quotes. */
module ImportScan {
  import opened Options
  import opened PyStrings

  /** A match at the start of a text: where its literal opens, the path between the
      quotes, and how much is matched. */
  datatype Match = Match(open: nat, path: string, end: nat)

  /** A match of finditer: the offset of the opening quote, the quote, the path. */
  datatype Found = FoundAt(at: nat, quote: char, path: string)

  /** How many characters there are before the first quote. */
  function RunLength(s: string): (n: nat)
    ensures n <= |s| && QuoteFree(s[..n])
    ensures n < |s| ==> IsQuote(s[n])
  {
    if s == "" || IsQuote(s[0]) then 0
    else
      var n := RunLength(s[1..]);
      assert s[..n + 1] == [s[0]] + s[1..][..n];
      n + 1
  }

  function SpaceLength(s: string): (n: nat)
    ensures n <= |s| && AllSpace(s[..n])
    ensures n < |s| ==> !IsSpace(s[n])
  {
    if s == "" || !IsSpace(s[0]) then 0
    else
      var n := SpaceLength(s[1..]);
      assert s[..n + 1] == [s[0]] + s[1..][..n];
      n + 1
  }

  /** A quote, some text without quotes, and the same quote again. What stands between
      the quotes can only be the whole run, so there is nothing to backtrack over. */
  function QuotedAt(s: string): (r: Option<string>)
    ensures r.Some? ==> r.value != "" && |r.value| + 2 <= |s|
  {
    if s == "" || !IsQuote(s[0]) then None
    else
      var n := RunLength(s[1..]);
      if n > 0 && n + 1 < |s| && s[n + 1] == s[0] then Some(s[1..n + 1]) else None
  }

  /** The first alternative, after its keyword: white space and a quoted path. */
  function MatchFrom(s: string): (r: Option<Match>)
    requires "from" <= s
    ensures r.Some? ==> 0 < r.value.open < r.value.end <= |s|
  {
    var k := SpaceLength(s[4..]);
    var path := QuotedAt(s[4 + k..]);
    if k > 0 && path.Some? then Some(Match(4 + k, path.value, 4 + k + |path.value| + 2)) else None
  }

  /** A closing bracket follows the quoted path at the start of `s`. */
  predicate Bracketed(s: string, path: string) { |path| + 2 < |s| && s[|path| + 2] == ')' }

  /** The second alternative, after its keyword: a quoted path and a bracket. */
  function MatchImport(s: string): (r: Option<Match>)
    requires "import(" <= s
    ensures r.Some? ==> 0 < r.value.open < r.value.end <= |s|
  {
    var path := QuotedAt(s[7..]);
    if path.Some? && Bracketed(s[7..], path.value) then Some(Match(7, path.value, 7 + |path.value| + 3)) else None
  }

  /** The expression at the start of `s`. */
  function MatchHere(s: string): (r: Option<Match>)
    ensures r.Some? ==> 0 < r.value.open < r.value.end <= |s|
  {
    if "from" <= s then MatchFrom(s) else if "import(" <= s then MatchImport(s) else None
  }

  /** The matches from `s` on, leftmost first and not overlapping; `at` is the offset of
      `s` in the whole text. */
  function FindFrom(s: string, at: nat): seq<Found>
    decreases |s|
  {
    if s == "" then []
    else match MatchHere(s)
      case None => FindFrom(s[1..], at + 1)
      case Some(m) => [FoundAt(at + m.open, s[m.open], m.path)] + FindFrom(s[m.end..], at + m.end)
  }

  /** import_regex.finditer(content) */
  method FindImports(text: string) returns (found: seq<Found>)
    ensures found == FindFrom(text, 0)
  {
    hide MatchHere, FindFrom;
    found := [];
    var at := 0;
    assert text[0..] == text;
    while at < |text|
      invariant at <= |text|
      invariant found + FindFrom(text[at..], at) == FindFrom(text, 0)
    {
      var s := text[at..];
      FindStep(s, at);
      match MatchHere(s) {
        case None =>
          assert s[1..] == text[at + 1..];
          at := at + 1;
        case Some(m) =>
          assert s[m.end..] == text[at + m.end..];
          found := found + [FoundAt(at + m.open, s[m.open], m.path)];
          at := at + m.end;
      }
    }
    FindNothing(at);
    assert text[at..] == "";
  }

  lemma FindNothing(at: nat)
    ensures FindFrom("", at) == []
  {}

  // Run by run.

  predicate FromAndSpace(c: string) { "from" <= c && |c| > 4 && AllSpace(c[4..]) }

  /** The text ends with "from" and white space. */
  predicate EndsWithFrom(c: string) { exists k :: 0 <= k < |c| && FromAndSpace(c[k..]) }

  predicate ImportWord(c: string) { c == "import(" }

  predicate EndsWithImport(c: string) { |c| >= 7 && ImportWord(c[|c| - 7..]) }

  /** The run `c` and the quoted text after it are a match. */
  predicate Introduces(c: string, rest: string) {
    var path := QuotedAt(rest);
    path.Some? && (EndsWithFrom(c) || (EndsWithImport(c) && Bracketed(rest, path.value)))
  }

  lemma EndsFromLeft(c: string)
    requires c != ""
    ensures EndsWithFrom(c) <==> FromAndSpace(c) || EndsWithFrom(c[1..])
    ensures EndsWithImport(c) <==> ImportWord(c) || EndsWithImport(c[1..])
  {
    hide FromAndSpace;
    assert c[0..] == c && (ImportWord(c) ==> |c| == 7);
    assert forall k :: 0 <= k < |c[1..]| ==> c[1..][k..] == c[k + 1..];
    assert forall k :: 0 < k < |c| ==> c[k..] == c[1..][k - 1..];
    if |c| > 7 { assert c[|c| - 7..] == c[1..][|c[1..]| - 7..]; }
  }

  lemma {:induction false} SpaceAll(c: string, rest: string)
    requires AllSpace(c) && (rest == "" || !IsSpace(rest[0]))
    ensures SpaceLength(c + rest) == |c|
    decreases |c|
  {
    if c == "" {
      assert c + rest == rest;
    } else {
      assert c[0] in c && (c + rest)[1..] == c[1..] + rest;
      SpaceAll(c[1..], rest);
    }
  }

  lemma {:induction false} RunAll(c: string, rest: string)
    requires QuoteFree(c) && (rest == "" || IsQuote(rest[0]))
    ensures RunLength(c + rest) == |c|
    decreases |c|
  {
    if c == "" {
      assert c + rest == rest;
    } else {
      assert c[0] in c && (c + rest)[1..] == c[1..] + rest;
      RunAll(c[1..], rest);
    }
  }

  lemma QuotedWhole(q: char, body: string, rest: string)
    requires IsQuote(q) && QuoteFree(body) && (rest == "" || IsQuote(rest[0]))
    ensures QuotedAt([q] + body + rest)
         == if body != "" && rest != "" && rest[0] == q then Some(body) else None
  {
    var s := [q] + body + rest;
    assert s[1..] == body + rest;
    RunAll(body, rest);
    assert s[1..|body| + 1] == body && s[|body| + 1..] == rest;
  }

  /** Where a run begins, a match is "from" and white space, or "import(", all of the run. */
  lemma MatchOfRun(c: string, rest: string)
    requires c != "" && QuoteFree(c) && (rest == "" || IsQuote(rest[0]))
    ensures var path := QuotedAt(rest);
      MatchHere(c + rest) ==
        if FromAndSpace(c) && path.Some? then Some(Match(|c|, path.value, |c| + |path.value| + 2))
        else if ImportWord(c) && path.Some? && Bracketed(rest, path.value) then
          Some(Match(7, path.value, 7 + |path.value| + 3))
        else None
  {
    hide MatchFrom, MatchImport, QuotedAt;
    var s := c + rest;
    assert s[0] == c[0] && s[..|c|] == c;
    if "from" <= s {
      KeywordInRun("from", c, rest);
      FromRun(c, rest);
    } else if "import(" <= s {
      KeywordInRun("import(", c, rest);
      ImportRun(c, rest);
    }
  }

  /** The expression spelled out, from the text to the match: the word "from", white space
      and a quoted path, or "import(" with a quoted path and a bracket. */
  lemma SpelledOutMatches(white: string, q: char, path: string, rest: string)
    requires (q == '\'' || q == '"') && path != "" && forall c :: c in path ==> c != '\'' && c != '"'
    requires AllSpace(white)
    ensures white != "" ==>
      MatchHere("from" + white + ([q] + path + ([q] + rest)))
        == Some(Match(4 + |white|, path, 4 + |white| + |path| + 2))
    ensures MatchHere("import(" + ([q] + path + ([q] + (")" + rest)))) == Some(Match(7, path, 7 + |path| + 3))
  {
    hide MatchHere, AllSpace;
    QuotedWhole(q, path, [q] + rest);
    FromMatches(white, [q] + path + ([q] + rest), path);
    QuotedWhole(q, path, [q] + (")" + rest));
    var bracketed := [q] + path + ([q] + (")" + rest));
    assert bracketed[|path| + 2] == ')';
    ImportMatches(bracketed, path);
  }

  lemma FromMatches(white: string, quoted: string, path: string)
    requires AllSpace(white) && QuotedAt(quoted) == Some(path)
    ensures white != "" ==>
      MatchHere("from" + white + quoted) == Some(Match(4 + |white|, path, 4 + |white| + |path| + 2))
  {
    hide QuotedAt, AllSpace, SpaceLength;
    QuotedStarts(quoted);
    SpaceAll(white, quoted);
    FromParts(white, quoted);
  }

  lemma QuotedStarts(s: string)
    requires QuotedAt(s).Some?
    ensures s != "" && IsQuote(s[0]) && !IsSpace(s[0])
  {}

  lemma FromParts(white: string, quoted: string)
    ensures var s := "from" + white + quoted;
      "from" <= s && s[4..] == white + quoted && s[4 + |white|..] == quoted
  {
    var s := "from" + white + quoted;
    assert s[..4] == "from" && s[4..] == white + quoted;
  }

  lemma ImportMatches(bracketed: string, path: string)
    requires QuotedAt(bracketed) == Some(path) && Bracketed(bracketed, path)
    ensures MatchHere("import(" + bracketed) == Some(Match(7, path, 7 + |path| + 3))
  {
    hide QuotedAt;
    var t := "import(" + bracketed;
    assert t[..7] == "import(" && t[7..] == bracketed && t[0] == 'i';
  }

  /** And from the match to the text. */
  lemma MatchesAreSpelledOut(s: string) returns (white: string, q: char, path: string, rest: string)
    requires MatchHere(s).Some?
    ensures (q == '\'' || q == '"') && path != "" && forall c :: c in path ==> c != '\'' && c != '"'
    ensures AllSpace(white) && path == MatchHere(s).value.path
    ensures (white != "" && s == "from" + white + ([q] + path + ([q] + rest)))
         || s == "import(" + ([q] + path + ([q] + (")" + rest)))
  {
    hide AllSpace, QuotedAt, MatchFrom, MatchImport;
    if "from" <= s {
      var quoted;
      white, quoted := FromIsSpelledOut(s);
      q, path, rest := QuotedParts(quoted);
    } else {
      white := "";
      NothingIsSpace();
      var quoted := ImportIsSpelledOut(s);
      var after;
      q, path, after := QuotedParts(quoted);
      rest := after[1..];
      assert quoted[|path| + 2] == after[0];
      assert after == ")" + rest;
    }
  }

  lemma FromIsSpelledOut(s: string) returns (white: string, quoted: string)
    requires "from" <= s && MatchFrom(s).Some?
    ensures white != "" && AllSpace(white) && s == "from" + white + quoted
    ensures QuotedAt(quoted) == Some(MatchFrom(s).value.path)
  {
    hide QuotedAt, AllSpace;
    var k := SpaceLength(s[4..]);
    white, quoted := s[4..][..k], s[4 + k..];
    assert s == s[..4] + s[4..][..k] + s[4 + k..];
  }

  lemma ImportIsSpelledOut(s: string) returns (quoted: string)
    requires "import(" <= s && MatchImport(s).Some?
    ensures s == "import(" + quoted && QuotedAt(quoted) == Some(MatchImport(s).value.path)
    ensures Bracketed(quoted, MatchImport(s).value.path)
  {
    hide QuotedAt;
    quoted := s[7..];
  }

  lemma NothingIsSpace()
    ensures AllSpace("")
  {}

  lemma QuotedParts(s: string) returns (q: char, path: string, rest: string)
    requires QuotedAt(s).Some?
    ensures path == QuotedAt(s).value && path != ""
    ensures (q == '\'' || q == '"') && (forall c :: c in path ==> c != '\'' && c != '"')
    ensures s == [q] + path + ([q] + rest)
  {
    var n := RunLength(s[1..]);
    q, path, rest := s[0], QuotedAt(s).value, s[n + 2..];
    assert s == [s[0]] + s[1..n + 1] + ([s[n + 1]] + s[n + 2..]);
    assert s[1..n + 1] == s[1..][..n];
  }

  lemma KeywordInRun(word: string, c: string, rest: string)
    requires QuoteFree(word) && word <= c + rest && (rest == "" || IsQuote(rest[0]))
    ensures word <= c
  {
    assert forall k :: 0 <= k < |word| ==> word[k] in word && word[k] == (c + rest)[k];
    assert rest != "" ==> (c + rest)[|c|] == rest[0];
  }

  lemma FromRun(c: string, rest: string)
    requires "from" <= c && QuoteFree(c) && (rest == "" || IsQuote(rest[0]))
    ensures var path := QuotedAt(rest);
      MatchFrom(c + rest) ==
        if FromAndSpace(c) && path.Some? then Some(Match(|c|, path.value, |c| + |path.value| + 2)) else None
  {
    hide QuotedAt, AllSpace;
    var s, white := c + rest, c[4..];
    assert s[4..] == white + rest;
    if AllSpace(white) {
      SpaceAll(white, rest);
      assert s[|c|..] == rest;
    } else {
      var n := SpaceBreak(white, rest);
      assert s[4 + n] == c[4 + n] && c[4 + n] in c;
      NotQuoted(s[4 + n..]);
    }
  }

  lemma SpaceBreak(white: string, rest: string) returns (n: nat)
    requires !AllSpace(white)
    ensures n < |white| && SpaceLength(white + rest) == n
  {
    n := SpaceLength(white);
    assert white[..|white|] == white;
    assert white + rest == white[..n] + (white[n..] + rest);
    SpaceAll(white[..n], white[n..] + rest);
  }

  lemma NotQuoted(s: string)
    requires s != "" && !IsQuote(s[0])
    ensures QuotedAt(s).None?
  {}

  lemma ImportRun(c: string, rest: string)
    requires "import(" <= c && QuoteFree(c)
    ensures var path := QuotedAt(rest);
      MatchImport(c + rest) ==
        if ImportWord(c) && path.Some? && Bracketed(rest, path.value) then
          Some(Match(7, path.value, 7 + |path.value| + 3))
        else None
  {
    hide QuotedAt;
    var s := c + rest;
    if |c| > 7 {
      assert s[7] == c[7] && c[7] in c;
      NotQuoted(s[7..]);
    } else {
      assert c == "import(" && s[7..] == rest;
    }
  }

  lemma FindStep(s: string, at: nat)
    requires s != ""
    ensures MatchHere(s).None? ==> FindFrom(s, at) == FindFrom(s[1..], at + 1)
    ensures MatchHere(s).Some? ==>
              var m := MatchHere(s).value;
              FindFrom(s, at) == [FoundAt(at + m.open, s[m.open], m.path)] + FindFrom(s[m.end..], at + m.end)
  {
    hide MatchHere;
  }

  /** What is found from a run on: the run introduces the literal after it, or it is
      passed over. */
  lemma {:induction false} FindOverRun(c: string, rest: string, at: nat)
    requires QuoteFree(c) && (rest == "" || IsQuote(rest[0]))
    ensures FindFrom(c + rest, at) ==
      if Introduces(c, rest) then
        var path := QuotedAt(rest).value;
        [FoundAt(at + |c|, rest[0], path)] + FindFrom(rest[|path| + 2..], at + |c| + |path| + 2)
      else FindFrom(rest, at + |c|)
    decreases |c|
  {
    hide *;
    if c == "" {
      assert c + rest == rest;
      EmptyIntroducesNothing(rest);
    } else if MatchHere(c + rest).Some? {
      FindAtRun(c, rest, at);
    } else {
      assert (c + rest)[1..] == c[1..] + rest;
      TailIsQuoteFree(c);
      NotYetIntroduced(c, rest);
      FindStep(c + rest, at);
      FindOverRun(c[1..], rest, at + 1);
    }
  }

  lemma EmptyIntroducesNothing(rest: string)
    ensures !Introduces("", rest)
  {}

  lemma TailIsQuoteFree(c: string)
    requires c != "" && QuoteFree(c)
    ensures QuoteFree(c[1..])
  {
    assert forall x :: x in c[1..] ==> x in c;
  }

  lemma NotYetIntroduced(c: string, rest: string)
    requires c != "" && QuoteFree(c) && (rest == "" || IsQuote(rest[0]))
    requires MatchHere(c + rest).None?
    ensures Introduces(c, rest) <==> Introduces(c[1..], rest)
  {
    hide MatchHere, QuotedAt, FromAndSpace, EndsWithFrom, EndsWithImport;
    MatchOfRun(c, rest);
    EndsFromLeft(c);
  }

  lemma FindAtRun(c: string, rest: string, at: nat)
    requires c != "" && QuoteFree(c) && (rest == "" || IsQuote(rest[0]))
    requires MatchHere(c + rest).Some?
    ensures Introduces(c, rest)
    ensures var path := QuotedAt(rest).value;
      FindFrom(c + rest, at)
        == [FoundAt(at + |c|, rest[0], path)] + FindFrom(rest[|path| + 2..], at + |c| + |path| + 2)
  {
    hide *;
    var m, n := MatchHere(c + rest).value, |c|;
    FindStep(c + rest, at);
    MatchIsIntroduced(c, rest);
    DropFront(c, rest, n + |m.path| + 2);
    if m.end == n + |m.path| + 3 {
      var after := rest[|m.path| + 2..];
      BracketFirst(rest, m.path);
      OverCloser(after, at + n + |m.path| + 2);
      assert rest[|m.path| + 3..] == after[1..];
      DropFront(c, rest, m.end);
    }
  }

  lemma BracketFirst(rest: string, path: string)
    requires Bracketed(rest, path)
    ensures rest[|path| + 2..] != "" && rest[|path| + 2..][0] == ')' && |path| + 3 <= |rest|
  {}

  lemma DropFront(c: string, rest: string, n: nat)
    requires |c| <= n <= |c + rest|
    ensures (c + rest)[n..] == rest[n - |c|..]
  {}

  lemma MatchIsIntroduced(c: string, rest: string)
    requires c != "" && QuoteFree(c) && (rest == "" || IsQuote(rest[0]))
    requires MatchHere(c + rest).Some?
    ensures var m, path := MatchHere(c + rest).value, QuotedAt(rest);
      && Introduces(c, rest) && path == Some(m.path) && m.path != "" && |m.path| + 2 <= |rest|
      && m.open == |c| && (c + rest)[m.open] == rest[0]
      && (m.end == |c| + |m.path| + 2 || (m.end == |c| + |m.path| + 3 && Bracketed(rest, m.path)))
  {
    hide Bracketed, ImportWord, MatchHere, QuotedAt, FromAndSpace, EndsWithFrom, EndsWithImport;
    MatchOfRun(c, rest);
    EndsFromLeft(c);
    if ImportWord(c) { FullImport(c); }
  }

  lemma FullImport(c: string)
    requires ImportWord(c)
    ensures EndsWithImport(c) && |c| == 7
  {}

  /** A closing bracket or a quote is passed over. */
  lemma OverCloser(s: string, at: nat)
    requires s != "" && (s[0] == ')' || IsQuote(s[0]))
    ensures FindFrom(s, at) == FindFrom(s[1..], at + 1)
  {
    assert MatchHere(s) == None;
  }

  // Over any text.

  /** The text between quotes, from start to end. */
  function Runs(s: string): (runs: seq<string>)
    ensures runs != [] && runs[0] == s[..RunLength(s)]
    decreases |s|
  {
    var n := RunLength(s);
    if n == |s| then
      assert s[..n] == s;
      [s]
    else [s[..n]] + Runs(s[n + 1..])
  }

  lemma RunsCons(s: string)
    ensures var n := RunLength(s);
      Runs(s) == if n == |s| then [s] else [s[..n]] + Runs(s[n + 1..])
  {
    hide RunLength;
  }

  function LastRun(s: string): (run: string)
    ensures |run| <= |s| && QuoteFree(run)
    decreases |s|
  {
    var n := RunLength(s);
    if n == |s| then
      assert s[..n] == s;
      s
    else LastRun(s[n + 1..])
  }

  lemma {:induction false} LastRunIsRun(s: string)
    ensures LastRun(s) in Runs(s)
    decreases |s|
  {
    var n := RunLength(s);
    if n < |s| {
      LastRunIsRun(s[n + 1..]);
      assert Runs(s) == [s[..n]] + Runs(s[n + 1..]);
    }
  }

  /** Some run of `s` before its last one introduces what follows it. */
  predicate Strays(s: string, rest: string)
    decreases |s|
  {
    var n := RunLength(s);
    n < |s| && (Introduces(s[..n], s[n..] + rest) || Strays(s[n + 1..], rest))
  }

  /** What a text ends with, its last run ends with. */
  lemma {:induction false} EndsInLastRun(s: string)
    ensures EndsWithFrom(s) <==> EndsWithFrom(LastRun(s))
    ensures EndsWithImport(s) <==> EndsWithImport(LastRun(s))
    decreases |s|
  {
    hide FromAndSpace, ImportWord, EndsWithFrom, EndsWithImport;
    var n := RunLength(s);
    if n < |s| {
      EndsAfterQuote(s, n);
      EndsInLastRun(s[n + 1..]);
    }
  }

  lemma EndsAfterQuote(s: string, n: nat)
    requires n < |s| && IsQuote(s[n])
    ensures EndsWithFrom(s) <==> EndsWithFrom(s[n + 1..])
    ensures EndsWithImport(s) <==> EndsWithImport(s[n + 1..])
  {
    hide FromAndSpace, ImportWord;
    var t := s[n + 1..];
    forall k | 0 <= k <= n ensures !FromAndSpace(s[k..]) {
      assert s[k..][n - k] == s[n];
      NoQuoteInFrom(s[k..], n - k);
    }
    assert forall k :: 0 <= k < |t| ==> t[k..] == s[n + 1 + k..];
    assert forall k :: n < k < |s| ==> s[k..] == t[k - n - 1..];
    if |s| >= 7 && |t| < 7 {
      assert s[|s| - 7..][n - (|s| - 7)] == s[n];
      NoQuoteInImport(s[|s| - 7..], n - (|s| - 7));
    } else if |t| >= 7 {
      assert s[|s| - 7..] == t[|t| - 7..];
    }
  }

  lemma NoQuoteInFrom(c: string, k: nat)
    requires k < |c| && IsQuote(c[k])
    ensures !FromAndSpace(c)
  {
    if k >= 4 { assert c[4..][k - 4] == c[k] && c[k] in c[4..]; }
  }

  lemma NoQuoteInImport(c: string, k: nat)
    requires k < |c| && IsQuote(c[k])
    ensures !ImportWord(c)
  {}

  /** What is found from a text on: nothing before its last run, unless one strays. */
  lemma {:induction false} FindOverText(s: string, rest: string, at: nat)
    requires rest == "" || IsQuote(rest[0])
    ensures !Strays(s, rest) ==>
              FindFrom(s + rest, at) == FindFrom(LastRun(s) + rest, at + |s| - |LastRun(s)|)
    ensures Strays(s, rest) ==>
              var found := FindFrom(s + rest, at);
              found != [] && found[0].at < at + |s|
    decreases |s|
  {
    hide *;
    var n := RunLength(s);
    RunByRun(s, rest);
    if n < |s| {
      FirstRunOver(s, rest, at);
      if !Introduces(s[..n], s[n..] + rest) { FindOverText(s[n + 1..], rest, at + n + 1); }
    }
  }

  lemma RunByRun(s: string, rest: string)
    ensures var n := RunLength(s);
      && (n == |s| ==> !Strays(s, rest) && LastRun(s) == s)
      && (n < |s| ==> LastRun(s) == LastRun(s[n + 1..])
                      && (Strays(s, rest) <==> Introduces(s[..n], s[n..] + rest) || Strays(s[n + 1..], rest)))
  {
    hide Introduces;
  }

  lemma FirstRunOver(s: string, rest: string, at: nat)
    requires RunLength(s) < |s|
    ensures var n := RunLength(s);
      var found := FindFrom(s + rest, at);
      if Introduces(s[..n], s[n..] + rest) then found != [] && found[0].at < at + |s|
      else found == FindFrom(s[n + 1..] + rest, at + n + 1)
  {
    hide FindFrom, QuotedAt, Introduces;
    var n := RunLength(s);
    var run, t := s[..n], s[n..] + rest;
    assert s + rest == run + t && t[1..] == s[n + 1..] + rest;
    FindOverRun(run, t, at);
    if !Introduces(run, t) { OverCloser(t, at + n); }
  }

  /** The quoted path after a quote is the next run, of the text or right up to its end. */
  lemma QuotedInText(q: char, s: string, rest: string)
    requires IsQuote(q) && (rest == "" || IsQuote(rest[0]))
    ensures var path, n := QuotedAt([q] + s + rest), RunLength(s);
      path.Some? ==>
        && path.value == s[..n] && (n < |s| || rest != "")
        && ([q] + s + rest)[|path.value| + 2..] == if n < |s| then s[n + 1..] + rest else rest[1..]
  {
    hide QuotedAt;
    var n, t := RunLength(s), [q] + s + rest;
    var run, after := s[..n], s[n..] + rest;
    assert t == [q] + run + after;
    assert after == "" || IsQuote(after[0]);
    QuotedWhole(q, run, after);
    if QuotedAt(t).Some? {
      assert t[n + 2..] == after[1..];
      assert n < |s| ==> after[1..] == s[n + 1..] + rest;
      assert n == |s| ==> after == rest;
    }
  }
}
