/** extract_code_and_json: finding the JSON object at the end of a model's answer,
    by four attempts, and the proof that it inverts printing the object after any
    code whatever braces the code and the strings hold. */
module Extraction {
  import opened Options
  import opened PyStrings
  import opened TemplateCodec
  import opened JsonText

  type Translations = map<string, Json>

  datatype Reading = Entries(entries: Translations) | BadJson | TooLong | NotAnObject

  datatype Extraction = Extracted(code: string, translations: Translations) | Nothing | Crashed

  function RestoreValue(v: Json): Json {
    if v.JString? then JString(Restore(v.text)) else v
  }

  function RestoreAll(d: Translations): Translations {
    map k | k in d :: RestoreValue(d[k])
  }

  /** What parse_json_with_templates returns or raises. */
  function ReadTemplates(text: string): Reading {
    match Loads(Hide(text))
    case DecodeError => BadJson
    case LongInteger => TooLong
    case Ok(JObject(members), _) => Entries(RestoreAll(members))
    case Ok(_, _) => NotAnObject
  }

  /** parse_json_with_templates, with its loop over the parsed items. */
  method ParseJsonWithTemplates(text: string) returns (r: Reading)
    ensures r == ReadTemplates(text)
  {
    hide Loads, Hide, Restore;
    var parsed := Loads(Hide(text));
    if parsed.DecodeError? { return BadJson; }
    if parsed.LongInteger? { return TooLong; }
    if !parsed.value.JObject? { return NotAnObject; }
    var items := parsed.value.members;
    var translations: Translations := map[];
    var todo := items.Keys;
    while todo != {}
      invariant todo <= items.Keys
      invariant translations == RestoreAll(map k | k in items && k !in todo :: items[k])
      decreases |todo|
    {
      var key :| key in todo;
      var value := items[key];
      if value.JString? {
        translations := translations[key := JString(Restore(value.text))];
      } else {
        translations := translations[key := value];
      }
      todo := todo - {key};
    }
    assert (map k | k in items && k !in todo :: items[k]) == items;
    return Entries(translations);
  }

  /** Placeholders are taken back in the strings right under the object only: keys, and
      what stands in a nested list or object, are kept as json.loads gives them. */
  lemma OnlyTopStringsAreRestored(text: string)
    ensures ReadTemplates(text).Entries? <==> Loads(Hide(text)).Ok? && Loads(Hide(text)).value.JObject?
    ensures ReadTemplates(text).Entries? ==>
      var members, entries := Loads(Hide(text)).value.members, ReadTemplates(text).entries;
      && entries.Keys == members.Keys
      && forall k :: k in members ==>
           if members[k].JString? then entries[k] == JString(Restore(members[k].text)) else entries[k] == members[k]
  {
    hide Loads, Hide, Restore;
  }

  // The outermost block of Method 3.

  /** Open braces after `s`; a closing brace without an open one is skipped. */
  function Depth(s: string): nat {
    if s == "" then 0
    else
      var d := Depth(s[..|s| - 1]);
      var c := s[|s| - 1];
      if c == '{' then d + 1 else if c == '}' && d > 0 then d - 1 else d
  }

  /** text[start..end] is the first outermost block: nothing is open before it, it
      opens with a brace, stays open inside, and is closed by its last character. */
  ghost predicate IsFirstBlock(text: string, start: nat, end: nat) {
    && start < end <= |text|
    && text[start] == '{'
    && (forall k :: 0 <= k <= start ==> Depth(text[..k]) == 0)
    && (forall k :: start < k < end ==> Depth(text[..k]) > 0)
    && Depth(text[..end]) == 0
  }

  lemma FirstBlockUnique(text: string, s1: nat, e1: nat, s2: nat, e2: nat)
    requires IsFirstBlock(text, s1, e1) && IsFirstBlock(text, s2, e2)
    ensures s1 == s2 && e1 == e2
  {
    DepthOpens(text, s1);
    DepthOpens(text, s2);
  }

  lemma DepthOpens(text: string, k: nat)
    requires k < |text| && text[k] == '{'
    ensures Depth(text[..k + 1]) == Depth(text[..k]) + 1
  {
    assert text[..k + 1][..k] == text[..k];
  }

  /** The first place after `n` where nothing is open any more. */
  function CloseAfter(text: string, n: nat): (end: nat)
    requires n <= |text|
    ensures n <= end <= |text| + 1
    ensures forall k :: n <= k < end && k <= |text| ==> Depth(text[..k]) > 0
    ensures end <= |text| ==> Depth(text[..end]) == 0
    decreases |text| - n
  {
    if Depth(text[..n]) == 0 then n
    else if n == |text| then n + 1
    else CloseAfter(text, n + 1)
  }

  function FirstBlock(text: string): (r: Option<(nat, nat)>)
    ensures r.Some? ==> IsFirstBlock(text, r.value.0, r.value.1)
    ensures r.None? ==> forall s: nat, e: nat :: !IsFirstBlock(text, s, e)
  {
    var start := FirstBrace(text);
    if start == |text| then
      NoBraceNoBlock(text);
      None
    else
      FlatBefore(text, start);
      DepthOpens(text, start);
      var end := CloseAfter(text, start + 1);
      if end > |text| then
        assert forall s: nat, e: nat :: !IsFirstBlock(text, s, e) by {
          forall s: nat, e: nat | IsFirstBlock(text, s, e) ensures false {
            DepthOpens(text, s);
          }
        }
        None
      else
        Some((start, end))
  }

  function FirstBrace(text: string): (i: nat)
    ensures i <= |text| && '{' !in text[..i]
    ensures i < |text| ==> text[i] == '{'
  {
    if text == "" then 0
    else if text[0] == '{' then 0
    else
      var i := FirstBrace(text[1..]);
      assert text[..i + 1] == [text[0]] + text[1..][..i];
      i + 1
  }

  lemma {:induction false} FlatBefore(text: string, n: nat)
    requires n <= |text| && '{' !in text[..n]
    ensures forall k :: 0 <= k <= n ==> Depth(text[..k]) == 0
  {
    if n > 0 {
      assert forall c :: c in text[..n - 1] ==> c in text[..n];
      FlatBefore(text, n - 1);
      assert text[..n][..n - 1] == text[..n - 1];
      assert text[n - 1] in text[..n];
    }
  }

  lemma NoBraceNoBlock(text: string)
    requires '{' !in text
    ensures forall s: nat, e: nat :: !IsFirstBlock(text, s, e)
  {
    assert forall s :: 0 <= s < |text| ==> text[s] in text;
  }

  lemma FirstBlockIs(text: string, start: nat, end: nat)
    requires IsFirstBlock(text, start, end)
    ensures FirstBlock(text) == Some((start, end))
  {
    hide FirstBlock;
    var f := FirstBlock(text);
    FirstBlockUnique(text, start, end, f.value.0, f.value.1);
  }

  /** The loop of Method 3 with its stack and start index. */
  method FindOutermostBlock(text: string) returns (r: Option<(nat, nat)>)
    ensures r == FirstBlock(text)
  {
    hide FirstBlock;
    var stack: seq<char> := [];
    var startIndex := -1;
    for i := 0 to |text|
      invariant |stack| == Depth(text[..i])
      invariant stack == [] ==> forall k :: 0 <= k <= i ==> Depth(text[..k]) == 0
      invariant stack != [] ==>
        && 0 <= startIndex < i && text[startIndex] == '{'
        && (forall k :: 0 <= k <= startIndex ==> Depth(text[..k]) == 0)
        && (forall k :: startIndex < k <= i ==> Depth(text[..k]) > 0)
    {
      var c := text[i];
      assert text[..i + 1][..i] == text[..i];
      if c == '{' {
        if stack == [] { startIndex := i; }
        stack := stack + [c];
      } else if c == '}' {
        if stack != [] {
          stack := stack[..|stack| - 1];
          if stack == [] {
            FirstBlockIs(text, startIndex, i + 1);
            return Some((startIndex, i + 1));
          }
        }
      }
    }
    if FirstBlock(text).Some? {
      DepthOpens(text, FirstBlock(text).value.0);
      assert false;
    }
    return None;
  }

  // extract_code_and_json

  function JsonPart(text: string, start: nat): string
    requires start <= |text|
  {
    Strip(text[start..])
  }

  function Finish(text: string, start: nat, reading: Reading): Extraction
    requires start <= |text|
  {
    match reading
    case Entries(entries) => Extracted(Strip(text[..start]), entries)
    case BadJson => Nothing
    case TooLong => Crashed
    case NotAnObject => Crashed
  }

  /** One attempt at a place that a search gave, -1 if it gave none; None when the
      parse error sends the search on. */
  function Attempt(text: string, start: int): Option<Extraction>
    requires -1 <= start <= |text|
  {
    if start == -1 then None
    else
      var reading := ReadTemplates(JsonPart(text, start));
      if reading == BadJson then None else Some(Finish(text, start, reading))
  }

  function BlockAttempt(text: string): Extraction {
    match FirstBlock(text)
    case None => Nothing
    case Some((start, end)) => Finish(text, start, ReadTemplates(Strip(text[start..end])))
  }

  function Extract(text: string): Extraction {
    var first := Attempt(text, RFind(text, "{"));
    if first.Some? then first.value
    else
      var second := Attempt(text, RFind(text, "{\n"));
      if second.Some? then second.value
      else
        var third := Attempt(text, RFind(text, "{\""));
        if third.Some? then third.value else BlockAttempt(text)
  }

  method ExtractCodeAndJson(text: string) returns (r: Extraction)
    ensures r == Extract(text)
  {
    hide ReadTemplates, JsonPart, Finish, FirstBlock;
    var lastBrace := RFind(text, "{");
    if lastBrace != -1 {
      var reading := ParseJsonWithTemplates(JsonPart(text, lastBrace));
      if reading != BadJson { return Finish(text, lastBrace, reading); }
    }
    var lastJsonStart := RFind(text, "{\n");
    if lastJsonStart != -1 {
      var reading := ParseJsonWithTemplates(JsonPart(text, lastJsonStart));
      if reading != BadJson { return Finish(text, lastJsonStart, reading); }
    }
    var lastJsonKeyStart := RFind(text, "{\"");
    if lastJsonKeyStart != -1 {
      var reading := ParseJsonWithTemplates(JsonPart(text, lastJsonKeyStart));
      if reading != BadJson { return Finish(text, lastJsonKeyStart, reading); }
    }
    var block := FindOutermostBlock(text);
    if block.None? { return Nothing; }
    var (start, end) := block.value;
    var reading := ParseJsonWithTemplates(Strip(text[start..end]));
    return Finish(text, start, reading);
  }

  // Hiding templates commutes with printing and is invisible to the lexer.

  predicate Brace(c: char) { c == '{' || c == '}' }

  lemma MarkedOne(c: char, s: string)
    requires s == "" || s[0] != c || !Brace(c)
    ensures Marked([c] + s, OPEN, CLOSE) == [c] + Marked(s, OPEN, CLOSE)
  {
    var t := [c] + s;
    assert t[1..] == s && t[0] == c && (s != "" ==> t[1] == s[0]);
    assert !("{{" <= t) && !("}}" <= t);
  }

  lemma MarkedTwo(mark: string, s: string)
    requires mark == "{{" || mark == "}}"
    ensures Marked(mark + s, OPEN, CLOSE) == (if mark == "{{" then OPEN else CLOSE) + Marked(s, OPEN, CLOSE)
  {
    var t := mark + s;
    assert t[2..] == s && mark <= t && t[0] == mark[0];
  }

  lemma MarkedEmpty()
    ensures Marked("", OPEN, CLOSE) == ""
  {}

  lemma {:induction false} MarkedAppend(a: string, b: string)
    requires b == "" || !Brace(b[0])
    ensures Marked(a + b, OPEN, CLOSE) == Marked(a, OPEN, CLOSE) + Marked(b, OPEN, CLOSE)
    decreases |a|
  {
    hide Marked;
    MarkedEmpty();
    if a == "" {
      assert a + b == b;
      assert "" + Marked(b, OPEN, CLOSE) == Marked(b, OPEN, CLOSE);
    } else if "{{" <= a || "}}" <= a {
      var pair, rest := a[..2], a[2..];
      MarkedAppend(rest, b);
      MarkedTwo(pair, rest);
      MarkedTwo(pair, rest + b);
      assert a == pair + rest && a + b == pair + (rest + b);
    } else {
      var rest := a[1..];
      MarkedAppend(rest, b);
      MarkedOne(a[0], rest);
      MarkedOne(a[0], rest + b);
      assert a == [a[0]] + rest && a + b == [a[0]] + (rest + b);
    }
  }

  lemma {:induction false} MarkedPlain(p: string, s: string)
    requires forall c :: c in p ==> !Brace(c)
    ensures Marked(p + s, OPEN, CLOSE) == p + Marked(s, OPEN, CLOSE)
    decreases |p|
  {
    hide Marked;
    if p == "" {
      assert p + s == s;
      assert "" + Marked(s, OPEN, CLOSE) == Marked(s, OPEN, CLOSE);
    } else {
      assert p[0] in p && forall c :: c in p[1..] ==> c in p;
      MarkedPlain(p[1..], s);
      MarkedOne(p[0], p[1..] + s);
      assert p + s == [p[0]] + (p[1..] + s);
    }
  }

  lemma EscapeCharBraces(c: char)
    ensures EscapeChar(c) != ""
    ensures Brace(c) ==> EscapeChar(c) == [c]
    ensures !Brace(c) ==> forall x :: x in EscapeChar(c) ==> !Brace(x)
    ensures EscapeChar(c)[0] != '\n'
  {}

  lemma EscapeFirst(s: string)
    requires s != ""
    ensures Escape(s) != "" && (Brace(Escape(s)[0]) <==> Brace(s[0]))
    ensures Brace(s[0]) ==> Escape(s)[0] == s[0]
  {
    EscapeCharBraces(s[0]);
    assert EscapeChar(s[0])[0] in EscapeChar(s[0]);
  }

  lemma {:induction false} EscapeConcat(a: string, b: string)
    ensures Escape(a + b) == Escape(a) + Escape(b)
    decreases |a|
  {
    hide EscapeChar;
    if a == "" {
      assert a + b == b;
    } else {
      assert (a + b)[1..] == a[1..] + b;
      EscapeConcat(a[1..], b);
    }
  }

  lemma {:induction false} EscapePlain(p: string)
    requires forall c :: c in p ==> EscapeChar(c) == [c]
    ensures Escape(p) == p
  {
    hide EscapeChar;
    if p != "" {
      assert p[0] in p && forall c :: c in p[1..] ==> c in p;
      EscapePlain(p[1..]);
    }
  }

  lemma {:induction false} MarkedEscape(s: string)
    ensures Marked(Escape(s), OPEN, CLOSE) == Escape(Marked(s, OPEN, CLOSE))
    decreases |s|
  {
    hide EscapeChar;
    if s == "" {
    } else if "{{" <= s || "}}" <= s {
      var pair, rest := s[..2], s[2..];
      var mark := if "{{" <= s then OPEN else CLOSE;
      assert s == pair + rest;
      MarkedEscape(rest);
      EscapeCharBraces(s[0]);
      EscapeConcat(pair, rest);
      EscapePlain(pair);
      MarkedTwo(pair, Escape(rest));
      MarkedTwo(pair, rest);
      PlainMarks(mark);
      EscapeConcat(mark, Marked(rest, OPEN, CLOSE));
      EscapePlain(mark);
    } else {
      var e, m := Escape(s[1..]), Marked(s[1..], OPEN, CLOSE);
      MarkedEscape(s[1..]);
      EscapeCharBraces(s[0]);
      MarkedOne(s[0], s[1..]);
      assert s == [s[0]] + s[1..] && ([s[0]] + m)[1..] == m;
      if Brace(s[0]) {
        if s[1..] != "" { EscapeFirst(s[1..]); }
        MarkedOne(s[0], e);
      } else {
        MarkedPlain(EscapeChar(s[0]), e);
      }
    }
  }

  lemma PlainMarks(mark: string)
    requires mark == OPEN || mark == CLOSE
    ensures forall c :: c in mark ==> EscapeChar(c) == [c] && Neutral(c)
    ensures mark != ""
  {
    hide EscapeChar;
    MarkChars(mark);
    forall c | c in mark ensures EscapeChar(c) == [c] { PlainChar(c); }
  }

  lemma MarkChars(mark: string)
    requires mark == OPEN || mark == CLOSE
    ensures mark != "" && forall c :: c in mark ==> 'A' <= c <= '_' && c != '\\'
  {}

  lemma PlainChar(c: char)
    requires 'A' <= c <= '_' && c != '\\'
    ensures EscapeChar(c) == [c]
  {}

  function HidePairs(m: Pairs): (r: Pairs)
    ensures |r| == |m|
  {
    seq(|m|, i requires 0 <= i < |m| => (Hide(m[i].0), Hide(m[i].1)))
  }

  lemma MarkedQuoted(v: string, s: string)
    requires s != "" ==> !Brace(s[0])
    ensures Marked(Quoted(v) + s, OPEN, CLOSE) == Quoted(Hide(v)) + Marked(s, OPEN, CLOSE)
  {
    hide Escape, Marked, Hide;
    var t := "\"" + s;
    assert Quoted(v) + s == "\"" + (Escape(v) + t);
    MarkedPlain("\"", Escape(v) + t);
    MarkedAppend(Escape(v), t);
    MarkedPlain("\"", s);
    MarkedEscape(v);
    HideIsMarked(v);
    assert Quoted(Hide(v)) + Marked(s, OPEN, CLOSE)
        == "\"" + (Escape(Hide(v)) + ("\"" + Marked(s, OPEN, CLOSE)));
  }

  /** What follows the first pair of a list. */
  function AfterFirst(m: Pairs): string
    requires m != []
  {
    if |m| == 1 then "\n}" else ",\n  " + PrintPairs(m[1..])
  }

  lemma PairsText(m: Pairs)
    requires m != []
    ensures PrintPairs(m) == Quoted(m[0].0) + (": " + (Quoted(m[0].1) + AfterFirst(m)))
  {
    hide Quoted;
    var a, b, c, d := Quoted(m[0].0), ": ", Quoted(m[0].1), AfterFirst(m);
    assert a + b + c + d == a + (b + (c + d));
  }

  lemma {:induction false} MarkedPairs(m: Pairs)
    requires m != []
    ensures Marked(PrintPairs(m), OPEN, CLOSE) == PrintPairs(HidePairs(m))
    decreases |m|
  {
    hide Quoted, Marked, Hide, PrintPairs;
    var h := HidePairs(m);
    if |m| > 1 {
      MarkedPairs(m[1..]);
      assert HidePairs(m[1..]) == h[1..];
    }
    MarkedAfterFirst(m, h);
    PairsText(m);
    PairsText(h);
    var second := Quoted(m[0].1) + AfterFirst(m);
    MarkedQuoted(m[0].0, ": " + second);
    MarkedPlain(": ", second);
    FirstOfAfter(m);
    MarkedQuoted(m[0].1, AfterFirst(m));
  }

  lemma MarkedAfterFirst(m: Pairs, h: Pairs)
    requires m != [] && |h| == |m|
    requires |m| > 1 ==> Marked(PrintPairs(m[1..]), OPEN, CLOSE) == PrintPairs(h[1..])
    ensures Marked(AfterFirst(m), OPEN, CLOSE) == AfterFirst(h)
  {
    hide PrintPairs, Marked;
    if |m| == 1 {
      assert "\n}" == "\n" + "}";
      MarkedPlain("\n", "}");
      BraceAlone();
    } else {
      MarkedPlain(",\n  ", PrintPairs(m[1..]));
    }
  }

  lemma BraceAlone()
    ensures Marked("}", OPEN, CLOSE) == "}"
  {
    assert "}"[1..] == "";
  }

  lemma FirstOfAfter(m: Pairs)
    requires m != []
    ensures AfterFirst(m) != "" && !Brace(AfterFirst(m)[0])
  {}

  /** Hiding the templates of a printed object prints the hidden pairs. */
  lemma HideOfPrinted(m: Pairs)
    requires m != []
    ensures Hide(PrintObject(m)) == PrintObject(HidePairs(m))
  {
    hide PrintPairs, Marked, Hide;
    var rest := "\n  " + PrintPairs(m);
    HideIsMarked(PrintObject(m));
    assert PrintObject(m) == ['{'] + rest;
    MarkedOne('{', rest);
    MarkedPlain("\n  ", PrintPairs(m));
    MarkedPairs(m);
    assert PrintObject(HidePairs(m)) == ['{'] + ("\n  " + PrintPairs(HidePairs(m)));
  }

  function AfterPlain(st: LexState): LexState {
    if st == Escaped then Inside else st
  }

  lemma LexPlain(st: LexState, p: string, s: string)
    requires p != "" && forall c :: c in p ==> Neutral(c)
    ensures Lex(st, p + s) == Lex(AfterPlain(st), s)
  {
    if st == Broken {
      LexBroken(p + s);
      LexBroken(s);
    } else {
      assert p[0] in p && (p + s)[1..] == p[1..] + s;
      assert forall c :: c in p[1..] ==> c in p;
      LexNeutral(AfterPlain(st), p[1..], s);
    }
  }

  lemma {:induction false} LexMarked(st: LexState, s: string)
    ensures Lex(st, Marked(s, OPEN, CLOSE)) == Lex(st, s)
    decreases |s|
  {
    if s == "" {
    } else if "{{" <= s || "}}" <= s {
      var mark := if "{{" <= s then OPEN else CLOSE;
      assert s == s[..2] + s[2..];
      LexPlain(st, s[..2], s[2..]);
      LexPlain(st, mark, Marked(s[2..], OPEN, CLOSE));
      LexMarked(AfterPlain(st), s[2..]);
    } else {
      var m := Marked(s[1..], OPEN, CLOSE);
      assert Marked(s, OPEN, CLOSE) == [s[0]] + m && ([s[0]] + m)[1..] == m;
      LexMarked(LexStep(st, s[0]), s[1..]);
    }
  }

  // Where braces can be in a printed object.

  /** A brace of `s` at `k` stands inside a string that goes on with no line break. */
  ghost predicate InString(s: string, k: nat)
    requires k < |s|
  {
    Lex(Inside, s[k..]) == Outside && k + 1 < |s| && s[k + 1] != '\n'
  }

  ghost predicate BracesInStrings(s: string) {
    forall k :: 0 <= k < |s| && s[k] == '{' ==> InString(s, k)
  }

  lemma BracesAfterPlain(p: string, s: string)
    requires BracesInStrings(s) && '{' !in p
    ensures BracesInStrings(p + s)
  {
    assert forall k :: 0 <= k < |p| ==> p[k] in p;
    forall k | 0 <= k < |p + s| && (p + s)[k] == '{' ensures InString(p + s, k) {
      if k >= |p| {
        assert (p + s)[k..] == s[k - |p|..];
        assert InString(s, k - |p|);
      }
    }
  }

  lemma {:induction false} BracesInBody(v: string, s: string)
    requires BracesInStrings(s) && Lex(Outside, s) == Outside
    ensures BracesInStrings(Escape(v) + "\"" + s)
    decreases |v|
  {
    var t := Escape(v) + "\"" + s;
    if v == "" {
      assert t == "\"" + s;
      BracesAfterPlain("\"", s);
    } else {
      var next := Escape(v[1..]) + "\"" + s;
      assert t == EscapeChar(v[0]) + next;
      BracesInBody(v[1..], s);
      EscapeCharBraces(v[0]);
      if v[0] != '{' {
        BracesAfterPlain(EscapeChar(v[0]), next);
      } else {
        assert t == "{" + next && t[1..] == next;
        ReadPrinted(v, s);
        assert t[0..] == t;
        assert next[0] != '\n' by { if v[1..] != "" { EscapeCharBraces(v[1]); } }
        forall k | 0 <= k < |t| && t[k] == '{' ensures InString(t, k) {
          if k > 0 {
            assert t[k..] == next[k - 1..];
            assert InString(next, k - 1);
          }
        }
      }
    }
  }

  lemma {:induction false} BracesInPairs(m: Pairs)
    requires m != []
    ensures BracesInStrings(PrintPairs(m)) && Lex(Outside, PrintPairs(m)) == Outside
    decreases |m|
  {
    hide *;
    var more := AfterFirst(m);
    if |m| == 1 {
      BracesAtEnd(m);
    } else {
      BracesInPairs(m[1..]);
      BracesInMore(m);
    }
    PairsText(m);
    BracesInQuoted(m[0].1, more);
    var second := Quoted(m[0].1) + more;
    BracesAfterPlain(": ", second);
    ColonIsNeutral();
    LexNeutral(Outside, ": ", second);
    BracesInQuoted(m[0].0, ": " + second);
  }

  lemma ColonIsNeutral()
    ensures forall c :: c in ": " ==> Neutral(c)
  {}

  lemma BracesAtEnd(m: Pairs)
    requires |m| == 1
    ensures BracesInStrings(AfterFirst(m)) && Lex(Outside, AfterFirst(m)) == Outside
  {
    assert "\n}"[1..] == "}";
  }

  lemma BracesInMore(m: Pairs)
    requires |m| > 1 && BracesInStrings(PrintPairs(m[1..])) && Lex(Outside, PrintPairs(m[1..])) == Outside
    ensures BracesInStrings(AfterFirst(m)) && Lex(Outside, AfterFirst(m)) == Outside
  {
    hide BracesInStrings, PrintPairs, Lex;
    BracesAfterPlain(",\n  ", PrintPairs(m[1..]));
    LexNeutral(Outside, ",\n  ", PrintPairs(m[1..]));
  }

  lemma BracesInQuoted(v: string, s: string)
    requires BracesInStrings(s) && Lex(Outside, s) == Outside
    ensures BracesInStrings(Quoted(v) + s) && Lex(Outside, Quoted(v) + s) == Outside
  {
    hide BracesInStrings, Escape;
    BracesInBody(v, s);
    ReadPrinted(v, s);
    var body := Escape(v) + "\"" + s;
    BracesAfterPlain("\"", body);
    assert Quoted(v) + s == "\"" + body && ("\"" + body)[1..] == body;
  }

  /** Every brace of a printed object after its first stands inside a string. */
  lemma LaterBraces(m: Pairs, p: nat)
    requires m != [] && 0 < p < |PrintObject(m)| && PrintObject(m)[p] == '{'
    ensures InString(PrintObject(m), p)
  {
    var s, pairs := PrintObject(m), PrintPairs(m);
    assert s[1..] == "\n  " + pairs;
    BracesInPairs(m);
    BracesAfterPlain("\n  ", pairs);
    assert s[p] == s[1..][p - 1] && s[p..] == s[1..][p - 1..];
    assert InString(s[1..], p - 1);
  }

  /** From inside a string no object can be read: the quotes do not pair up. */
  lemma NothingReadInsideString(s: string)
    requires Lex(Inside, s) == Outside
    ensures ReadTemplates(s) == BadJson || ReadTemplates(s) == TooLong
  {
    hide Marked, Hide, Lex;
    HideIsMarked(s);
    LexMarked(Outside, s);
    Parity(s);
  }

  lemma PrintedEnds(m: Pairs)
    requires m != []
    ensures PrintPairs(m) != "" && PrintPairs(m)[|PrintPairs(m)| - 1] == '}'
    decreases |m|
  {
    if |m| > 1 { PrintedEnds(m[1..]); }
  }

  lemma StripFromBrace(m: Pairs, tail: string, p: nat)
    requires m != [] && p < |PrintObject(m)| && PrintObject(m)[p] == '{' && AllSpace(tail)
    ensures Strip(PrintObject(m)[p..] + tail) == PrintObject(m)[p..]
  {
    PrintedEnds(m);
    StripTail(PrintObject(m)[p..], tail);
  }

  /** What the last "{" and the last "{\n" of the answer are. */
  lemma SearchStarts(code: string, m: Pairs, tail: string)
    requires m != [] && AllSpace(tail)
    ensures var text := code + PrintObject(m) + tail;
      && |code| <= RFind(text, "{") == |code| + RFind(PrintObject(m), "{")
      && RFind(text, "{\n") == |code|
  {
    hide PrintObject;
    var s := PrintObject(m);
    var text := code + s + tail;
    PrintedStart(m);
    assert "{" <= text[|code|..] && "{\n" <= text[|code|..];
    assert s[0] in s && '{' !in tail;
    forall k | |code| < k < |text| && "{\n" <= text[k..] ensures false {
      assert text[k] == text[k..][0] == '{' && text[k + 1] == text[k..][1] == '\n';
      assert text[k] == s[k - |code|];
      assert k + 1 - |code| < |s| ==> text[k + 1] == s[k + 1 - |code|];
      LaterBraces(m, k - |code|);
    }
    SameLastBrace(code, s, tail);
  }

  lemma SameLastBrace(code: string, s: string, tail: string)
    requires '{' in s && '{' !in tail
    ensures RFind(s, "{") >= 0 && RFind(code + s + tail, "{") == |code| + RFind(s, "{")
  {
    var text, p, q := code + s + tail, RFind(s, "{"), RFind(code + s + tail, "{");
    assert forall k :: 0 <= k < |s| && s[k] == '{' ==> "{" <= s[k..];
    assert forall k :: 0 <= k < |text| && text[k] == '{' ==> "{" <= text[k..];
    assert p >= 0 && s[p..][0] == s[p] == '{' && text[|code| + p] == s[p];
    assert q >= |code| + p && text[q] == text[q..][0] == '{';
    assert forall k :: 0 <= k < |tail| ==> tail[k] in tail;
    assert forall k :: |code| + |s| <= k < |text| ==> text[k] == tail[k - |code| - |s|];
    assert s[q - |code|] == text[q];
  }

  lemma PrintedStart(m: Pairs)
    requires m != []
    ensures |PrintObject(m)| > 2 && PrintObject(m)[0] == '{' && PrintObject(m)[1] == '\n'
  {}

  /** From the last brace of the printed object, which is then in a string, a too long
      integer is read before anything that is not JSON. */
  predicate LastBraceRaises(m: Pairs)
    requires m != []
  {
    var p := RFind(PrintObject(m), "{");
    p > 0 && ReadTemplates(PrintObject(m)[p..]) == TooLong
  }

  /** Main result: whatever the code and the strings hold, the answer made of code,
      the printed object and white space is taken apart at the object, and the
      entries are read with their templates hidden and restored; unless the attempt at
      the last brace meets a too long integer. */
  lemma ExtractPrinted(code: string, m: Pairs, tail: string)
    requires m != [] && AllSpace(tail)
    ensures Extract(code + PrintObject(m) + tail) ==
      if LastBraceRaises(m) then Crashed else Extracted(Strip(code), RestoreAll(Dict(HidePairs(m))))
  {
    hide PrintObject, RestoreAll, Dict, HidePairs, Attempt, BlockAttempt, ReadTemplates;
    var s, p := PrintObject(m), RFind(PrintObject(m), "{");
    SearchStarts(code, m, tail);
    assert s[p..][0] == '{' && s[p] == '{';
    PrintedStart(m);
    AttemptAtBrace(code, m, tail, p);
    AttemptAtBrace(code, m, tail, 0);
  }

  /** An attempt from a brace of the printed object goes through at its first and
      fails, or raises, at every other. */
  lemma AttemptAtBrace(code: string, m: Pairs, tail: string, p: nat)
    requires m != [] && AllSpace(tail)
    requires p < |PrintObject(m)| && PrintObject(m)[p] == '{'
    ensures Attempt(code + PrintObject(m) + tail, |code| + p) ==
      if p == 0 then Some(Extracted(Strip(code), RestoreAll(Dict(HidePairs(m)))))
      else if ReadTemplates(PrintObject(m)[p..]) == TooLong then Some(Crashed) else None
  {
    hide PrintObject, ReadTemplates, HidePairs, Dict, RestoreAll;
    var s := PrintObject(m);
    var text := code + s + tail;
    assert text[|code| + p..] == s[p..] + tail && text[..|code|] == code;
    StripFromBrace(m, tail, p);
    if p > 0 {
      LaterBraces(m, p);
      NothingReadInsideString(s[p..]);
    } else {
      assert s[0..] == s;
      ReadPrintedTemplates(m);
    }
  }

  /** Without so many consecutive digits in the object nothing is raised. */
  lemma NoLongRunNoRaise(m: Pairs)
    requires m != [] && !HasLongRun(PrintObject(m))
    ensures !LastBraceRaises(m)
  {
    hide PrintObject, HasLongRun, Loads, Hide;
    var s := PrintObject(m);
    var p := RFind(s, "{");
    if p > 0 && ReadTemplates(s[p..]) == TooLong {
      LongRunAtLoads(Hide(s[p..]));
      LongRunOfHidden(s[p..]);
      LongRunOfRest(s, p);
    }
  }

  /** A key that ends in a brace, and a value of a colon and digits: the attempt at the
      last brace reads the text between the two as a key and the digits as its value. */
  lemma LastBraceRaisesExample(digits: string)
    requires AllDigits(digits) && |digits| > MAX_DIGITS && digits[0] != '0'
    ensures LastBraceRaises([("{", ":" + digits)])
  {
    hide RFind, Loads, Hide;
    var m: Pairs, rest := [("{", ":" + digits)], digits + "\"\n}";
    var s := PrintObject(m);
    var inner := "\": \":" + rest;
    ExampleText(m, digits, inner);
    assert s == "{\n  \"" + ("{" + inner);
    ExampleBrace(s, inner, digits);
    NothingHiddenIn(inner, digits);
    LoadsInner(inner, digits);
  }

  lemma ExampleText(m: Pairs, digits: string, inner: string)
    requires m == [("{", ":" + digits)] && AllDigits(digits) && inner == "\": \":" + (digits + "\"\n}")
    ensures PrintObject(m) == "{\n  \"" + ("{" + inner)
  {
    hide EscapeChar;
    EscapeCharBraces('{');
    PlainEscapes(":" + digits);
    assert Escape("{") == "{" by { assert "{"[1..] == ""; }
    assert Quoted("{") == "\"{\"" && Quoted(":" + digits) == "\"" + (":" + digits) + "\"";
    var x, y := "\"{\"" + ": ", "\"" + (":" + digits) + "\"" + "\n}";
    assert PrintPairs(m) == x + y;
    assert x == "\"" + "{" + "\": " && y == "\":" + (digits + "\"\n}");
  }

  lemma PlainEscapes(s: string)
    requires forall i :: 0 <= i < |s| ==> s[i] == ':' || IsDigit(s[i])
    ensures Escape(s) == s
  {
    hide EscapeChar;
    forall c | c in s ensures EscapeChar(c) == [c] { PlainSymbol(c); }
    EscapePlain(s);
  }

  lemma PlainSymbol(c: char)
    requires c == ':' || IsDigit(c)
    ensures EscapeChar(c) == [c]
  {}

  lemma ExampleBrace(s: string, inner: string, digits: string)
    requires s == "{\n  \"" + ("{" + inner) && inner == "\": \":" + (digits + "\"\n}") && AllDigits(digits)
    ensures RFind(s, "{") == 5 && s[5..] == "{" + inner
  {
    assert s[5..] == "{" + inner && s[5..][0] == '{';
    assert forall c :: c in digits ==> IsDigit(c);
    assert '{' !in inner;
    assert s == "{\n  \"" + "{" + inner;
    assert "{"[0..] == "{" && RFind("{", "{") == 0;
    SameLastBrace("{\n  \"", "{", inner);
  }

  lemma NothingHiddenIn(inner: string, digits: string)
    requires inner == "\": \":" + (digits + "\"\n}") && AllDigits(digits)
    ensures Hide("{" + inner) == "{" + inner
  {
    hide Marked, Hide;
    var plain := "\": \":" + digits + "\"\n";
    assert inner == plain + "}";
    assert forall c :: c in digits ==> IsDigit(c);
    HideIsMarked("{" + inner);
    MarkedOne('{', inner);
    MarkedPlain(plain, "}");
    BraceAlone();
  }

  lemma LoadsInner(inner: string, digits: string)
    requires inner == "\": \":" + (digits + "\"\n}")
    requires AllDigits(digits) && |digits| > MAX_DIGITS && digits[0] != '0'
    ensures Loads("{" + inner).LongInteger?
  {
    hide Literal, Lex, ReadString, Loads;
    var rest := digits + "\"\n}";
    ReadPrinted(": ", ":" + rest);
    PlainColon();
    assert inner[0] == '"' && inner[1..] == Escape(": ") + "\"" + (":" + rest);
    LiteralOfDigits(digits, "\"\n}");
    assert rest[0] == digits[0] && IsDigit(digits[0]);
    MemberRaises(inner, ": ", rest);
  }

  lemma PlainColon()
    ensures Escape(": ") == ": "
  {
    assert ": "[1..] == " " && " "[1..] == "";
  }

  lemma ReadPrintedTemplates(m: Pairs)
    requires m != []
    ensures ReadTemplates(PrintObject(m)) == Entries(RestoreAll(Dict(HidePairs(m))))
  {
    hide PrintObject, HidePairs, Hide;
    HideOfPrinted(m);
    LoadsOfPrinted(HidePairs(m));
  }

  // When the entries are the printed ones.

  predicate HasPair(s: string) { Contains(s, "{{") || Contains(s, "}}") }

  predicate KeysWithoutPairs(m: Pairs) { forall i :: 0 <= i < |m| ==> !HasPair(m[i].0) }

  /** Hiding and restoring gives back every value of the dictionary. */
  predicate ValuesSurvive(d: Translations) {
    forall k :: k in d && d[k].JString? ==> Survives(d[k].text)
  }

  function HideAll(d: Translations): Translations {
    map k | k in d :: if d[k].JString? then JString(Hide(d[k].text)) else d[k]
  }

  lemma {:induction false} PairFreeIsUnmarked(s: string)
    requires !HasPair(s)
    ensures Marked(s, OPEN, CLOSE) == s
    decreases |s|
  {
    if s != "" {
      assert s[0..] == s;
      assert forall k :: 0 <= k <= |s[1..]| ==> s[1..][k..] == s[k + 1..];
      PairFreeIsUnmarked(s[1..]);
    }
  }

  lemma {:induction false} HideDictFrom(d: Translations, m: Pairs)
    requires KeysWithoutPairs(m)
    ensures DictFrom(HideAll(d), HidePairs(m)) == HideAll(DictFrom(d, m))
    decreases |m|
  {
    hide Hide, HasPair;
    var h := HidePairs(m);
    if m != [] {
      var k, v := m[0].0, m[0].1;
      HideIsMarked(k);
      PairFreeIsUnmarked(k);
      assert h[1..] == HidePairs(m[1..]) && h[0] == (k, Hide(v));
      HideDictFrom(d[k := JString(v)], m[1..]);
      assert HideAll(d[k := JString(v)]) == HideAll(d)[k := JString(Hide(v))];
    } else {
      assert h == [];
    }
  }

  /** Restoring a hidden dictionary gives it back exactly when its values survive. */
  lemma RestoreOfHidden(d: Translations)
    ensures RestoreAll(HideAll(d)) == d <==> ValuesSurvive(d)
  {
    hide Restore, Hide, Survives;
    forall k | k in d && d[k].JString? ensures Restore(Hide(d[k].text)) == d[k].text <==> Survives(d[k].text) {
      RestoreUndoesHide(d[k].text);
    }
    if RestoreAll(HideAll(d)) == d {
      forall k | k in d && d[k].JString? ensures Survives(d[k].text) {
        assert RestoreAll(HideAll(d))[k] == JString(Restore(Hide(d[k].text)));
      }
    }
  }

  lemma {:induction false} DictKeys(d: Translations, m: Pairs)
    ensures forall k :: k in DictFrom(d, m) <==> k in d || exists i :: 0 <= i < |m| && m[i].0 == k
    decreases |m|
  {
    if m != [] {
      DictKeys(d[m[0].0 := JString(m[0].1)], m[1..]);
      assert forall i :: 0 <= i < |m[1..]| ==> m[1..][i] == m[i + 1];
      assert forall i :: 0 < i < |m| ==> m[i] == m[1..][i - 1];
    }
  }

  /** Extraction inverts printing exactly when no key holds a doubled brace, as keys are
      hidden but never restored, hiding and restoring gives back every value, and the
      attempt at the last brace meets no too long integer. */
  lemma ExtractInvertsPrinting(code: string, m: Pairs, tail: string)
    requires m != [] && AllSpace(tail)
    ensures Extract(code + PrintObject(m) + tail) == Extracted(Strip(code), Dict(m))
       <==> KeysWithoutPairs(m) && ValuesSurvive(Dict(m)) && !LastBraceRaises(m)
  {
    hide Extract, PrintObject, Hide, HasPair, Survives, DictFrom, RestoreAll, LastBraceRaises;
    ExtractPrinted(code, m, tail);
    if KeysWithoutPairs(m) {
      HideDictFrom(map[], m);
      assert HideAll(map[]) == map[];
      RestoreOfHidden(Dict(m));
    } else {
      var i :| 0 <= i < |m| && HasPair(m[i].0);
      PairedKeyIsLost(m, i);
    }
  }

  lemma PairedKeyIsLost(m: Pairs, i: nat)
    requires i < |m| && HasPair(m[i].0)
    ensures m[i].0 in Dict(m) && m[i].0 !in RestoreAll(Dict(HidePairs(m)))
  {
    hide Hide, DictFrom, HasPair;
    var h := HidePairs(m);
    DictKeys(map[], m);
    DictKeys(map[], h);
    forall j | 0 <= j < |h| ensures h[j].0 != m[i].0 {
      HiddenIsPairFree(m[j].0);
    }
  }

  lemma HiddenIsPairFree(s: string)
    ensures !HasPair(Hide(s))
  {
    HideIsMarked(s);
    HiddenHasNoPair(s);
  }

  /** Values without the placeholders' word survive. */
  lemma WordFreeValuesSurvive(d: Translations)
    requires forall k :: k in d && d[k].JString? ==> !Contains(d[k].text, WORD)
    ensures ValuesSurvive(d)
  {
    hide Survives, Contains;
    forall k | k in d && d[k].JString? ensures Survives(d[k].text) {
      WordFreeSurvives(d[k].text);
    }
  }

  // When an error gets out of the search.

  lemma {:induction false} RStripKeepsFirst(s: string)
    requires s != "" && !IsSpace(s[0])
    ensures RStrip(s) != "" && RStrip(s)[0] == s[0]
    decreases |s|
  {
    if IsSpace(s[|s| - 1]) { RStripKeepsFirst(s[..|s| - 1]); }
  }

  /** Text from a brace on is read as an object or not at all. */
  lemma BraceIsNoOther(s: string)
    requires s != "" && s[0] == '{'
    ensures ReadTemplates(Strip(s)) != NotAnObject
  {
    hide Loads, Marked, Hide;
    RStripKeepsFirst(s);
    var t := Strip(s);
    HideIsMarked(t);
    FirstOfMarked(t);
    if Hide(t)[0] == '_' {
      UnderscoreReadsNothing(Hide(t));
    } else if Loads(Hide(t)).Ok? {
      BraceReadsObject(Hide(t));
    }
  }

  lemma UnderscoreReadsNothing(s: string)
    requires s != "" && s[0] == '_'
    ensures Loads(s).DecodeError?
  {
    hide Lex;
    assert SkipSpace(s) == s && NumberLength(s) == 0;
    assert Literal(s).DecodeError?;
  }

  lemma FirstOfMarked(t: string)
    requires t != "" && t[0] == '{'
    ensures var h := Marked(t, OPEN, CLOSE);
      h != "" && (h[0] == '{' || h[0] == '_')
  {
    assert OPEN[0] == '_';
  }

  /** Digits at the start of hidden text are digits of the text. */
  lemma {:induction false} DigitsOfMarked(s: string, n: nat)
    requires n <= |Marked(s, OPEN, CLOSE)| && AllDigits(Marked(s, OPEN, CLOSE)[..n])
    ensures n <= |s| && s[..n] == Marked(s, OPEN, CLOSE)[..n]
    decreases |s|
  {
    var m := Marked(s, OPEN, CLOSE);
    if n > 0 {
      assert IsDigit(m[..n][0]);
      assert m == [s[0]] + Marked(s[1..], OPEN, CLOSE);
      assert m[1..] == Marked(s[1..], OPEN, CLOSE) && forall i :: 0 <= i < n - 1 ==> m[1..][i] == m[..n][i + 1];
      DigitsOfMarked(s[1..], n - 1);
      assert s[..n] == [s[0]] + s[1..][..n - 1];
    }
  }

  /** A long run of digits in hidden text is one of the text. */
  lemma {:induction false} LongRunOfMarked(s: string, i: nat, j: nat)
    requires i <= j <= |Marked(s, OPEN, CLOSE)| && j - i > MAX_DIGITS
    requires AllDigits(Marked(s, OPEN, CLOSE)[i..j])
    ensures HasLongRun(s)
    decreases |s|
  {
    hide HasLongRun, Marked;
    var m := Marked(s, OPEN, CLOSE);
    MarkedEmpty();
    if i == 0 {
      DigitsOfMarked(s, j);
      assert s[0..j] == s[..j] == m[0..j];
      LongRunIs(s, 0, j);
    } else {
      var n := if "{{" <= s || "}}" <= s then 2 else 1;
      var head := |m| - |Marked(s[n..], OPEN, CLOSE)|;
      FrontOfMarked(s, n);
      assert IsDigit(m[i..j][0]);
      LaterSlice(m, Marked(s[n..], OPEN, CLOSE), head, i, j);
      LongRunOfMarked(s[n..], i - head, j - head);
      LongRunOfRest(s, n);
    }
  }

  lemma LongRunIs(s: string, i: nat, j: nat)
    requires i <= j <= |s| && j - i > MAX_DIGITS && AllDigits(s[i..j])
    ensures HasLongRun(s)
  {}

  lemma LaterSlice(m: string, rest: string, head: nat, i: nat, j: nat)
    requires |m| == head + |rest| && m[head..] == rest && head <= i <= j <= |m|
    ensures m[i..j] == rest[i - head..j - head]
  {
    assert m[head..|m|] == m[head..];
    SliceOfSlice(m, head, |m|, i - head, j - head);
  }

  /** What hiding puts before the rest of a text: a mark, which has no digits, or the
      text's first character. */
  lemma FrontOfMarked(s: string, n: nat)
    requires s != "" && n == if "{{" <= s || "}}" <= s then 2 else 1
    ensures var m, rest := Marked(s, OPEN, CLOSE), Marked(s[n..], OPEN, CLOSE);
      && |m| >= |rest| && m[|m| - |rest|..] == rest
      && (n == 1 ==> |m| - |rest| == 1)
      && (n == 2 ==> forall k :: 0 <= k < |m| - |rest| ==> !IsDigit(m[k]))
  {
    hide Marked;
    var rest := Marked(s[n..], OPEN, CLOSE);
    MarksWithoutDigits();
    MarkedFirst(s, OPEN, CLOSE);
    assert (OPEN + rest)[|OPEN|..] == rest && (CLOSE + rest)[|CLOSE|..] == rest;
  }

  lemma MarksWithoutDigits()
    ensures forall k :: 0 <= k < |OPEN| ==> !IsDigit(OPEN[k])
    ensures forall k :: 0 <= k < |CLOSE| ==> !IsDigit(CLOSE[k])
    ensures IsMark(OPEN) && IsMark(CLOSE)
  {}

  lemma LongRunOfHidden(s: string)
    requires HasLongRun(Hide(s))
    ensures HasLongRun(s)
  {
    hide Hide, Marked;
    HideIsMarked(s);
    var i, j :| 0 <= i <= j <= |Hide(s)| && j - i > MAX_DIGITS && AllDigits(Hide(s)[i..j]);
    LongRunOfMarked(s, i, j);
  }

  lemma {:induction false} LongRunOfStripped(s: string)
    ensures HasLongRun(RStrip(s)) ==> HasLongRun(s)
    ensures HasLongRun(LStrip(s)) ==> HasLongRun(s)
    decreases |s|
  {
    hide HasLongRun;
    if s != "" {
      var front := s[..|s| - 1];
      assert s[0..|s| - 1] == front;
      LongRunOfStripped(front);
      LongRunOfStripped(s[1..]);
      if HasLongRun(front) { LongRunOfPart(s, 0, |s| - 1); }
      if HasLongRun(s[1..]) { LongRunOfRest(s, 1); }
    }
  }

  lemma TooLongNeedsRun(text: string, a: nat, b: nat)
    requires a <= b <= |text| && ReadTemplates(Strip(text[a..b])) == TooLong
    ensures HasLongRun(text)
  {
    hide HasLongRun, Loads, Hide, RStrip, LStrip;
    var s := text[a..b];
    LongRunAtLoads(Hide(Strip(s)));
    LongRunOfHidden(Strip(s));
    LongRunOfStripped(LStrip(s));
    LongRunOfStripped(s);
    LongRunOfPart(text, a, b);
  }

  /** What a crash at one place needs. */
  lemma CrashAt(text: string, start: nat, end: nat)
    requires start < end <= |text| && text[start] == '{'
    ensures ReadTemplates(Strip(text[start..end])) != NotAnObject
    ensures ReadTemplates(Strip(text[start..end])) == TooLong ==> HasLongRun(text)
  {
    hide ReadTemplates, HasLongRun;
    BraceIsNoOther(text[start..end]);
    if ReadTemplates(Strip(text[start..end])) == TooLong { TooLongNeedsRun(text, start, end); }
  }

  /** No answer gets an error out of the search but one with more consecutive digits than
      `int` takes: json.loads is only ever given text from a brace on. */
  lemma CrashNeedsLongInteger(text: string)
    requires Extract(text) == Crashed
    ensures HasLongRun(text)
  {
    hide ReadTemplates, FirstBlock, HasLongRun, Strip;
    var brace, line, quote := RFind(text, "{"), RFind(text, "{\n"), RFind(text, "{\"");
    if brace != -1 { FromPlace(text, brace); }
    if line != -1 { FromPlace(text, line); }
    if quote != -1 { FromPlace(text, quote); }
    var block := FirstBlock(text);
    if block.Some? { CrashAt(text, block.value.0, block.value.1); }
  }

  lemma FromPlace(text: string, start: nat)
    requires start < |text| && text[start] == '{'
    ensures ReadTemplates(JsonPart(text, start)) != NotAnObject
    ensures ReadTemplates(JsonPart(text, start)) == TooLong ==> HasLongRun(text)
  {
    hide ReadTemplates, HasLongRun, Strip;
    assert text[start..] == text[start..|text|];
    CrashAt(text, start, |text|);
  }

  /** What attempt `k` takes for the object, from where to where: to the end of the text
      from the last brace, from the last brace before a line break, and from the last one
      before a quote; then the first outermost block. */
  function Spot(text: string, k: nat): Option<(nat, nat)>
    requires k < 4
  {
    if k < 3 then
      var start := RFind(text, ["{", "{\n", "{\""][k]);
      if start == -1 then None else Some((start, |text|))
    else FirstBlock(text)
  }

  /** The text that attempt `k` has json.loads read, if it has any. */
  function Tried(text: string, k: nat): (r: Option<string>)
    requires k < 4
  {
    match Spot(text, k)
    case None => None
    case Some((start, end)) => SpotInside(text, k); Some(Strip(text[start..end]))
  }

  lemma SpotInside(text: string, k: nat)
    requires k < 4 && Spot(text, k).Some?
    ensures var (start, end) := Spot(text, k).value; start < end <= |text| && text[start] == '{'
  {
    hide FirstBlock, RFind;
    var (start, end) := Spot(text, k).value;
    if k < 3 { assert text[start..][0] == text[start]; }
  }

  /** Attempt `k` finds no place, or its text is no JSON. */
  predicate Fails(text: string, k: nat)
    requires k < 4
  {
    Tried(text, k).None? || Loads(Hide(Tried(text, k).value)).DecodeError?
  }

  /** json.loads meets an integer that `int` does not take in the text of attempt `k`. */
  predicate MeetsLong(text: string, k: nat)
    requires k < 4
  {
    Tried(text, k).Some? && Loads(Hide(Tried(text, k).value)).LongInteger?
  }

  /** An error gets out of the search exactly if an attempt meets such an integer and those
      before it have failed; none gets out for what is no object. */
  lemma CrashExactly(text: string)
    ensures Extract(text) == Crashed <==>
      exists k: nat :: k < 4 && MeetsLong(text, k) && forall j: nat :: j < k ==> Fails(text, j)
  {
    hide Attempt, BlockAttempt, RFind, MeetsLong, Fails;
    SearchMeetsLong(text, 0);
    SearchMeetsLong(text, 1);
    SearchMeetsLong(text, 2);
    BlockMeetsLong(text);
    FourInARow(text);
  }

  /** The code and the entries are those of an attempt, the code being what stands before
      its object: exactly of the first attempt that does not fail. */
  lemma ExtractExactly(text: string, code: string, entries: Translations)
    ensures Extract(text) == Extracted(code, entries) <==>
      exists k: nat :: k < 4 && Gives(text, k, code, entries) && forall j: nat :: j < k ==> Fails(text, j)
    ensures Extract(text) == Nothing <==> forall k: nat :: k < 4 ==> Fails(text, k)
  {
    hide Attempt, BlockAttempt, RFind, MeetsLong, Fails, Gives;
    SearchMeetsLong(text, 0);
    SearchMeetsLong(text, 1);
    SearchMeetsLong(text, 2);
    BlockMeetsLong(text);
    SearchGives(text, 0, code, entries);
    SearchGives(text, 1, code, entries);
    SearchGives(text, 2, code, entries);
    BlockGives(text, code, entries);
    assert Fails(text, 0) && Fails(text, 1) && Fails(text, 2) && Fails(text, 3) <==>
      forall k: nat :: k < 4 ==> Fails(text, k);
    OneOfFour(text, code, entries);
  }

  predicate Gives(text: string, k: nat, code: string, entries: Translations)
    requires k < 4
  {
    match Spot(text, k)
    case None => false
    case Some((start, end)) =>
      SpotInside(text, k);
      code == Strip(text[..start]) && ReadTemplates(Strip(text[start..end])) == Entries(entries)
  }

  lemma OneOfFour(text: string, code: string, entries: Translations)
    ensures (exists k: nat :: k < 4 && Gives(text, k, code, entries) && forall j: nat :: j < k ==> Fails(text, j)) <==>
        Gives(text, 0, code, entries) || (Fails(text, 0) &&
          (Gives(text, 1, code, entries) || (Fails(text, 1) &&
            (Gives(text, 2, code, entries) || (Fails(text, 2) && Gives(text, 3, code, entries))))))
  {
    hide Gives, Fails;
  }

  lemma SearchGives(text: string, k: nat, code: string, entries: Translations)
    requires k < 3
    ensures Attempt(text, RFind(text, ["{", "{\n", "{\""][k])) == Some(Extracted(code, entries)) <==>
      Gives(text, k, code, entries)
  {
    hide ReadTemplates, RFind;
    var start := RFind(text, ["{", "{\n", "{\""][k]);
    if start != -1 { assert text[start..] == text[start..|text|]; }
  }

  lemma BlockGives(text: string, code: string, entries: Translations)
    ensures BlockAttempt(text) == Extracted(code, entries) <==> Gives(text, 3, code, entries)
  {
    hide FirstBlock, Strip, ReadTemplates;
  }

  /** What is extracted was read from a brace on, and the code is what stands before. */
  lemma ExtractedAtBrace(text: string) returns (start: nat, end: nat)
    requires Extract(text).Extracted?
    ensures start < end <= |text| && text[start] == '{'
    ensures Extract(text).code == Strip(text[..start])
    ensures ReadTemplates(Strip(text[start..end])) == Entries(Extract(text).translations)
    ensures end == |text| || IsFirstBlock(text, start, end)
  {
    hide Extract, Strip, ReadTemplates, RFind, Fails;
    ExtractExactly(text, Extract(text).code, Extract(text).translations);
    var k: nat :| k < 4 && Gives(text, k, Extract(text).code, Extract(text).translations);
    SpotInside(text, k);
    start, end := Spot(text, k).value.0, Spot(text, k).value.1;
  }

  lemma SearchMeetsLong(text: string, k: nat)
    requires k < 3
    ensures var attempt := Attempt(text, RFind(text, ["{", "{\n", "{\""][k]));
      (attempt.None? <==> Fails(text, k)) && (attempt == Some(Crashed) <==> MeetsLong(text, k))
      && attempt != Some(Nothing)
  {
    hide Loads, Hide, RFind, Strip;
    var start := RFind(text, ["{", "{\n", "{\""][k]);
    if start != -1 {
      FromPlace(text, start);
      assert text[start..] == text[start..|text|];
    }
  }

  lemma BlockMeetsLong(text: string)
    ensures BlockAttempt(text) == Crashed <==> MeetsLong(text, 3)
    ensures BlockAttempt(text) == Nothing <==> Fails(text, 3)
  {
    hide FirstBlock, Strip, Loads, Hide;
    var block := FirstBlock(text);
    if block.Some? { CrashAt(text, block.value.0, block.value.1); }
  }

  lemma FourInARow(text: string)
    ensures (exists k: nat :: k < 4 && MeetsLong(text, k) && forall j: nat :: j < k ==> Fails(text, j)) <==>
        MeetsLong(text, 0) || (Fails(text, 0) &&
          (MeetsLong(text, 1) || (Fails(text, 1) &&
            (MeetsLong(text, 2) || (Fails(text, 2) && MeetsLong(text, 3))))))
  {
    hide MeetsLong, Fails;
  }

  /** An object with one integer gets an error out of the search exactly if the integer
      has more digits than `int` takes. */
  lemma LongIntegerCrashes(digits: string)
    requires digits != "" && AllDigits(digits) && digits[0] != '0'
    ensures Extract("{\"k\":" + digits + "}") == Crashed <==> |digits| > MAX_DIGITS
  {
    hide RFind, Strip, ReadTemplates, FirstBlock;
    var text := "{\"k\":" + digits + "}";
    OnlyBrace(digits);
    WholeIsStripped(text);
    assert text[0..] == text;
    ReadOneInteger(digits);
  }

  lemma OnlyBrace(digits: string)
    requires AllDigits(digits)
    ensures RFind("{\"k\":" + digits + "}", "{") == 0
  {
    var text := "{\"k\":" + digits + "}";
    forall k | 0 < k < |text| ensures !("{" <= text[k..]) {
      assert text[k..][0] == text[k];
      assert 5 <= k < |text| - 1 ==> IsDigit(digits[k - 5]);
    }
    assert "{" <= text[0..] by { assert text[0..][0] == '{'; }
  }

  lemma WholeIsStripped(s: string)
    requires s != "" && !IsSpace(s[0]) && !IsSpace(s[|s| - 1])
    ensures Strip(s) == s
  {}

  lemma ReadOneInteger(digits: string)
    requires digits != "" && AllDigits(digits) && digits[0] != '0'
    ensures ReadTemplates("{\"k\":" + digits + "}") == TooLong <==> |digits| > MAX_DIGITS
    ensures |digits| <= MAX_DIGITS ==> ReadTemplates("{\"k\":" + digits + "}").Entries?
  {
    hide Hide, Loads;
    var text := "{\"k\":" + digits + "}";
    NothingHidden(digits);
    LoadOneInteger(digits);
  }

  lemma NothingHidden(digits: string)
    requires AllDigits(digits)
    ensures Hide("{\"k\":" + digits + "}") == "{\"k\":" + digits + "}"
  {
    hide Marked, Hide;
    var rest := "\"k\":" + digits + "}";
    var text := "{\"k\":" + digits + "}";
    var plain := "\"k\":" + digits;
    assert text == ['{'] + rest && rest == plain + "}";
    assert forall c :: c in digits ==> IsDigit(c);
    HideIsMarked(text);
    MarkedOne('{', rest);
    MarkedPlain(plain, "}");
    BraceAlone();
  }
}
