/** extract_code_and_json on answers that go on after their object: the attempts that
    read to the end of the text fail, and the outermost block is found. */
module TrailingText {
  import opened Options
  import opened PyStrings
  import opened TemplateCodec
  import opened JsonText
  import opened Extraction

  predicate BraceFree(s: string) { forall c :: c in s ==> !Brace(c) }

  predicate BraceFreePairs(m: Pairs) { forall i :: 0 <= i < |m| ==> BraceFree(m[i].0) && BraceFree(m[i].1) }

  // Where the braces of the answer are.

  lemma {:induction false} EscapeIsBraceFree(s: string)
    requires BraceFree(s)
    ensures BraceFree(Escape(s))
  {
    hide EscapeChar;
    if s != "" {
      assert s[0] in s && forall c :: c in s[1..] ==> c in s;
      EscapeIsBraceFree(s[1..]);
      EscapeCharBraces(s[0]);
    }
  }

  lemma QuotedIsBraceFree(s: string)
    requires BraceFree(s)
    ensures BraceFree(Quoted(s))
  {
    EscapeIsBraceFree(s);
    hide Escape;
  }

  /** Of brace-free strings only the last brace is printed. */
  lemma {:induction false} PairsHaveOneBrace(m: Pairs) returns (body: string)
    requires m != [] && BraceFreePairs(m)
    ensures PrintPairs(m) == body + "}" && BraceFree(body)
    decreases |m|
  {
    hide Quoted;
    var head := Quoted(m[0].0) + ": " + Quoted(m[0].1);
    QuotedIsBraceFree(m[0].0);
    QuotedIsBraceFree(m[0].1);
    PrintPairsSplit(m, "");
    if |m| == 1 {
      body := head + "\n";
      assert PrintPairs(m) + "" == PrintPairs(m) == body + "}";
    } else {
      var rest := PairsHaveOneBrace(m[1..]);
      body := head + ",\n  " + rest;
      assert PrintPairs(m) + "" == PrintPairs(m) == body + "}";
    }
  }

  lemma ObjectHasTwoBraces(m: Pairs) returns (body: string)
    requires m != [] && BraceFreePairs(m)
    ensures PrintObject(m) == "{\n" + body + "}" && BraceFree(body)
  {
    hide PrintPairs;
    var pairs := PairsHaveOneBrace(m);
    body := "  " + pairs;
    assert PrintObject(m) == "{\n" + body + "}";
  }

  /** The three searches: the last brace and the last one before a line break are the
      object's, and none stands before a quote. */
  lemma SearchesFindObject(code: string, body: string, tail: string)
    requires BraceFree(code) && BraceFree(body) && BraceFree(tail)
    ensures var text := code + ("{\n" + body + "}") + tail;
      RFind(text, "{") == RFind(text, "{\n") == |code| && RFind(text, "{\"") == -1
  {
    var text := code + ("{\n" + body + "}") + tail;
    BracesAt(code, body, tail);
    assert text[|code|..][0] == '{' && text[|code|..][1] == '\n';
    assert "{" <= text[|code|..] && "{\n" <= text[|code|..];
    forall k | 0 <= k < |text| && text[k..][0] == '{' ensures k == |code| { assert text[k] == text[k..][0]; }
  }

  lemma BracesAt(code: string, body: string, tail: string)
    requires BraceFree(code) && BraceFree(body) && BraceFree(tail)
    ensures var text := code + ("{\n" + body + "}") + tail;
      forall k :: 0 <= k < |text| ==>
        && (text[k] == '{' <==> k == |code|)
        && (text[k] == '}' <==> k == |code| + |body| + 2)
  {
    var printed := "{\n" + body + "}";
    var text := code + printed + tail;
    forall k | 0 <= k < |text|
      ensures (text[k] == '{' <==> k == |code|) && (text[k] == '}' <==> k == |code| + |body| + 2)
    {
      if k < |code| {
        assert text[k] == code[k] && code[k] in code;
      } else if k < |code| + |printed| {
        assert text[k] == printed[k - |code|];
        var j := k - |code| - 2;
        assert 0 <= j < |body| ==> printed[j + 2] == body[j] && body[j] in body;
      } else {
        var j := k - |code| - |printed|;
        assert text[k] == tail[j] && tail[j] in tail;
      }
    }
  }

  lemma {:induction false} DepthByBraces(text: string, open: nat, close: nat, n: nat)
    requires open < close < |text| && n <= |text|
    requires forall k :: 0 <= k < |text| ==> (text[k] == '{' <==> k == open) && (text[k] == '}' <==> k == close)
    ensures Depth(text[..n]) == if open < n <= close then 1 else 0
  {
    if n > 0 {
      DepthByBraces(text, open, close, n - 1);
      assert text[..n][..n - 1] == text[..n - 1] && text[..n][n - 1] == text[n - 1];
    }
  }

  lemma BlockIsObject(code: string, body: string, tail: string)
    requires BraceFree(code) && BraceFree(body) && BraceFree(tail)
    ensures var text := code + ("{\n" + body + "}") + tail;
      FirstBlock(text) == Some((|code|, |code| + |body| + 3))
  {
    var text := code + ("{\n" + body + "}") + tail;
    BracesAt(code, body, tail);
    forall n: nat | n <= |text| { DepthByBraces(text, |code|, |code| + |body| + 2, n); }
    FirstBlockIs(text, |code|, |code| + |body| + 3);
  }

  // What the attempts read.

  lemma {:induction false} RStripOfMore(s: string, tail: string)
    requires !AllSpace(tail)
    ensures RStrip(s + tail) == s + RStrip(tail)
    ensures RStrip(tail) != "" && RStrip(tail) <= tail && !IsSpace(RStrip(tail)[|RStrip(tail)| - 1])
    decreases |tail|
  {
    if IsSpace(tail[|tail| - 1]) {
      var front := tail[..|tail| - 1];
      assert (s + tail)[..|s + tail| - 1] == s + front;
      assert tail == front + [tail[|tail| - 1]];
      RStripOfMore(s, front);
    }
  }

  lemma JsonSpaceIsSpace(c: char)
    ensures IsJsonSpace(c) ==> IsSpace(c)
  {}

  lemma BraceFreeIsUnmarked(s: string)
    requires BraceFree(s)
    ensures Marked(s, OPEN, CLOSE) == s && Hide(s) == s
  {
    hide Hide, Marked;
    assert s + "" == s;
    MarkedPlain(s, "");
    MarkedEmpty();
    HideIsMarked(s);
  }

  lemma HideOfMore(m: Pairs, more: string)
    requires m != [] && BraceFree(more)
    ensures Hide(PrintObject(m) + more) == PrintObject(HidePairs(m)) + more
  {
    hide Hide, Marked, PrintObject, HidePairs;
    HideIsMarked(PrintObject(m) + more);
    if more != "" { assert more[0] in more; }
    MarkedAppend(PrintObject(m), more);
    HideIsMarked(PrintObject(m));
    HideOfPrinted(m);
    BraceFreeIsUnmarked(more);
  }

  /** From the object to the end there is no JSON text. */
  lemma MoreIsNoJson(m: Pairs, tail: string)
    requires m != [] && BraceFree(tail) && !AllSpace(tail)
    ensures ReadTemplates(Strip(PrintObject(m) + tail)) == BadJson
  {
    hide PrintObject, Hide, Loads, HidePairs, RStrip;
    var s, more := PrintObject(m), RStrip(tail);
    PrintedStart(m);
    assert LStrip(s + tail) == s + tail;
    RStripOfMore(s, tail);
    assert forall c :: c in more ==> c in tail;
    HideOfMore(m, more);
    JsonSpaceIsSpace(more[|more| - 1]);
    LoadsWithMore(HidePairs(m), more);
  }

  /** An answer that goes on after its object is split at the object by the last attempt,
      if code, strings and what follows hold no braces. */
  lemma ExtractWithTrailing(code: string, m: Pairs, tail: string)
    requires m != [] && BraceFreePairs(m) && BraceFree(code) && BraceFree(tail) && !AllSpace(tail)
    ensures Extract(code + PrintObject(m) + tail) == Extracted(Strip(code), RestoreAll(Dict(m)))
  {
    hide Extract, PrintObject, Strip, Loads, Hide, RFind, FirstBlock, Dict, RestoreAll;
    hide BraceFree, BraceFreePairs, AllSpace;
    var text, s, entries := code + PrintObject(m) + tail, PrintObject(m), RestoreAll(Dict(m));
    SpotsOfPrinted(code, m, tail);
    PartsOfText(code, s, tail);
    MoreIsNoJson(m, tail);
    ReadPrintedTemplates(m);
    PrintedIsStripped(m);
    PairsAreUnmarked(m);
    assert Gives(text, 3, Strip(code), entries);
    ExtractExactly(text, Strip(code), entries);
  }

  lemma PartsOfText(code: string, s: string, tail: string)
    ensures var text := code + s + tail;
      && text[|code|..|text|] == s + tail
      && text[|code|..|code| + |s|] == s
      && text[..|code|] == code
  {}

  lemma SpotsOfPrinted(code: string, m: Pairs, tail: string)
    requires m != [] && BraceFreePairs(m) && BraceFree(code) && BraceFree(tail)
    ensures var text, s := code + PrintObject(m) + tail, PrintObject(m);
      && Spot(text, 0) == Spot(text, 1) == Some((|code|, |text|))
      && Spot(text, 2) == None
      && Spot(text, 3) == Some((|code|, |code| + |s|))
  {
    hide PrintObject, RFind, FirstBlock;
    var body := ObjectHasTwoBraces(m);
    SearchesFindObject(code, body, tail);
    BlockIsObject(code, body, tail);
  }

  lemma PrintedIsStripped(m: Pairs)
    requires m != []
    ensures Strip(PrintObject(m)) == PrintObject(m)
  {
    hide PrintPairs;
    assert PrintObject(m) + "" == PrintObject(m);
    PrintedEnds(m);
    PrintedStart(m);
    StripTail(PrintObject(m), "");
  }

  lemma PairsAreUnmarked(m: Pairs)
    requires BraceFreePairs(m)
    ensures HidePairs(m) == m
  {
    hide Hide;
    forall i | 0 <= i < |m| ensures HidePairs(m)[i] == m[i] {
      BraceFreeIsUnmarked(m[i].0);
      BraceFreeIsUnmarked(m[i].1);
    }
  }
}
