/** The placeholders under which i18n.py hides `{{` and `}}` from the JSON parser,
    and the proof that restoring them undoes the hiding. */
module TemplateCodec {
  import opened PyStrings

  const OPEN := "__TEMPLATE_OPEN__"
  const CLOSE := "__TEMPLATE_CLOSE__"
  const WORD := "TEMPLATE_"

  /** json_str.replace("{{", open).replace("}}", close) */
  function Hide(s: string): string {
    Replace(Replace(s, "{{", OPEN), "}}", CLOSE)
  }

  /** value.replace(open, "{{").replace(close, "}}") */
  function Restore(s: string): string {
    Replace(Replace(s, OPEN, "{{"), CLOSE, "}}")
  }

  /** Both replacements in one pass, with any two marks. */
  function Marked(s: string, open: string, close: string): string
    decreases |s|
  {
    if s == "" then ""
    else if "{{" <= s then open + Marked(s[2..], open, close)
    else if "}}" <= s then close + Marked(s[2..], open, close)
    else [s[0]] + Marked(s[1..], open, close)
  }

  lemma {:induction false} HideIsMarked(s: string)
    ensures Hide(s) == Marked(s, OPEN, CLOSE)
    decreases |s|
  {
    if s == "" {
    } else if "{{" <= s {
      HideIsMarked(s[2..]);
      ReplaceSkipsOthers(OPEN, Replace(s[2..], "{{", OPEN), "}}", CLOSE);
    } else if "}}" <= s {
      HideIsMarked(s[2..]);
      assert s[1..][1..] == s[2..];
      var inner := Replace(s[2..], "{{", OPEN);
      assert Replace(s, "{{", OPEN) == "}}" + inner;
      assert ("}}" + inner)[2..] == inner;
    } else {
      HideIsMarked(s[1..]);
      var inner := Replace(s[1..], "{{", OPEN);
      assert Replace(s, "{{", OPEN) == [s[0]] + inner;
      assert ([s[0]] + inner)[1..] == inner;
      FirstIsClosing(s[1..]);
    }
  }

  lemma FirstIsClosing(s: string)
    ensures var r := Replace(s, "{{", OPEN);
      r != "" && r[0] == '}' ==> s != "" && s[0] == '}'
  {
    assert OPEN[0] == '_';
  }

  lemma {:induction false} UnmarkedIsItself(s: string)
    ensures Marked(s, "{{", "}}") == s
    decreases |s|
  {
    if s == "" {
    } else if "{{" <= s || "}}" <= s {
      UnmarkedIsItself(s[2..]);
      assert s == s[..2] + s[2..];
    } else {
      UnmarkedIsItself(s[1..]);
    }
  }

  // Where a placeholder is found in hidden text.

  /** The text, once marked, goes on with two underscores: its own, or a mark's. */
  predicate GoesOn(s: string, openIsMark: bool) {
    || "__" <= s || "}}" <= s || "_}}" <= s
    || (openIsMark && ("{{" <= s || "_{{" <= s))
  }

  /** The rest of an opening placeholder, after its first underscores. */
  predicate OpenLike(s: string) { "TEMPLATE_OPEN" <= s && GoesOn(s[13..], true) }

  predicate CloseLike(s: string) { "TEMPLATE_CLOSE" <= s && GoesOn(s[14..], false) }

  /** No placeholder can be found in the hidden text but where one was put: none starts
      with two underscores of the text, and none with the last underscores of a closing
      placeholder, which are read before it. */
  predicate Survives(s: string)
    decreases |s|
  {
    if s == "" then true
    else if "{{" <= s then Survives(s[2..])
    else if "}}" <= s then
      !OpenLike(s[2..]) && !("_" <= s[2..] && OpenLike(s[3..])) && Survives(s[2..])
    else
      !("__" <= s && (OpenLike(s[2..]) || CloseLike(s[2..]))) && Survives(s[1..])
  }

  /** Text in which marks cannot be seen: no braces, and single underscores inside. */
  predicate Unmarked(w: string) {
    forall i :: 0 <= i < |w| ==> UnmarkedAt(w, i)
  }

  predicate UnmarkedAt(w: string, i: nat)
    requires i < |w|
  {
    w[i] != '{' && w[i] != '}' && (w[i] == '_' ==> i + 1 < |w| && w[i + 1] != '_')
  }

  /** What the marks in use, doubled braces and placeholders, have in common. */
  predicate IsMark(m: string) {
    |m| >= 2 && m[0] == m[1] && (m[0] == '_' || m[0] == '{' || m[0] == '}')
  }

  lemma MarkedFirst(s: string, open: string, close: string)
    requires IsMark(open) && IsMark(close) && s != ""
    ensures var m := Marked(s, open, close);
      && (!("{{" <= s) && !("}}" <= s) ==> m == [s[0]] + Marked(s[1..], open, close))
      && ("{{" <= s ==> m == open + Marked(s[2..], open, close))
      && ("}}" <= s && !("{{" <= s) ==> m == close + Marked(s[2..], open, close))
  {}

  /** Unmarked text at the start of a marked text is the text's own. */
  lemma {:induction false} UnmarkedPrefix(w: string, s: string, open: string, close: string)
    requires Unmarked(w) && IsMark(open) && IsMark(close)
    ensures w <= Marked(s, open, close) <==> w <= s
    ensures w <= s ==> Marked(s, open, close)[|w|..] == Marked(s[|w|..], open, close)
    decreases |w|
  {
    if w != "" && s != "" {
      var m, tail := Marked(s, open, close), w[1..];
      UnmarkedTail(w);
      UnmarkedPrefix(tail, s[1..], open, close);
      MarkedFirst(s, open, close);
      if "{{" <= s || "}}" <= s {
        assert m[0] == m[1] && (m[0] == '_' || m[0] == '{' || m[0] == '}');
      } else {
        PrefixByTail(w, s);
        PrefixByTail(w, m);
        assert m[1..] == Marked(s[1..], open, close);
      }
    }
  }

  lemma UnmarkedTail(w: string)
    requires Unmarked(w) && w != ""
    ensures Unmarked(w[1..])
    ensures w[0] != '{' && w[0] != '}' && (w[0] == '_' ==> |w| > 1 && w[1] != '_')
  {
    assert UnmarkedAt(w, 0);
    forall i | 0 <= i < |w[1..]| ensures UnmarkedAt(w[1..], i) {
      assert UnmarkedAt(w, i + 1);
    }
  }

  lemma PrefixByTail(w: string, s: string)
    requires w != "" && s != ""
    ensures w <= s <==> w[0] == s[0] && w[1..] <= s[1..]
    ensures w <= s ==> s[|w|..] == s[1..][|w[1..]|..]
  {
    assert w == [w[0]] + w[1..] && s == [s[0]] + s[1..];
    if w[0] == s[0] { CancelFront([w[0]], w[1..], s[1..]); }
  }

  lemma GoesOnMarked(s: string, open: string, close: string)
    requires (open == OPEN || open == "{{") && close == CLOSE
    ensures "__" <= Marked(s, open, close) <==> GoesOn(s, open == OPEN)
  {
    hide Marked;
    MarkedNothing(open, close);
    if s != "" {
      var m := Marked(s, open, close);
      MarkedFirst(s, open, close);
      if !("{{" <= s) && !("}}" <= s) && s[1..] != "" {
        MarkedFirst(s[1..], open, close);
        assert m[1..] == Marked(s[1..], open, close);
        assert "__" <= m <==> s[0] == '_' && "_" <= m[1..];
      }
    }
  }

  lemma MarkedNothing(open: string, close: string)
    ensures Marked("", open, close) == ""
  {}

  /** A placeholder's word and what follows it, in marked text. */
  lemma WordMarked(word: string, s: string, open: string, close: string)
    requires Unmarked(word) && (open == OPEN || open == "{{") && close == CLOSE
    ensures word + "__" <= Marked(s, open, close) <==> word <= s && GoesOn(s[|word|..], open == OPEN)
  {
    hide Marked, Unmarked, GoesOn;
    var m := Marked(s, open, close);
    UnmarkedPrefix(word, s, open, close);
    if word <= s {
      GoesOnMarked(s[|word|..], open, close);
      assert m == word + m[|word|..];
      CancelFront(word, "__", m[|word|..]);
    } else {
      assert word + "__" <= m ==> word <= m;
    }
  }

  lemma CancelFront(front: string, a: string, b: string)
    ensures front + a <= front + b <==> a <= b
  {
    if front + a <= front + b {
      assert a == (front + a)[|front|..] && b == (front + b)[|front|..];
    }
  }

  lemma Words()
    ensures Unmarked("TEMPLATE_OPEN") && Unmarked("_" + "TEMPLATE_OPEN") && Unmarked("_" + "TEMPLATE_CLOSE")
    ensures OPEN == "__" + "TEMPLATE_OPEN" + "__" && CLOSE == "__" + "TEMPLATE_CLOSE" + "__"
  {}

  /** Where a placeholder starts at a character of the text. */
  lemma WordAtText(c: char, word: string, s: string, open: string)
    requires Unmarked("_" + word) && (open == OPEN || open == "{{")
    ensures "__" + word + "__" <= [c] + Marked(s, open, CLOSE) <==>
      c == '_' && "_" <= s && word <= s[1..] && GoesOn(s[1..][|word|..], open == OPEN)
  {
    hide Marked, Unmarked, GoesOn;
    var m, tail := Marked(s, open, CLOSE), "_" + word + "__";
    WordMarked("_" + word, s, open, CLOSE);
    assert "__" + word + "__" == ['_'] + tail;
    if c == '_' {
      CancelFront(['_'], tail, m);
    } else {
      assert ([c] + m)[0] != (['_'] + tail)[0];
    }
    if s != "" {
      PrefixByTail("_" + word, s);
      assert ("_" + word)[1..] == word;
    }
  }

  lemma OpenAtText(c: char, s: string)
    ensures OPEN <= [c] + Marked(s, OPEN, CLOSE) <==> c == '_' && "_" <= s && OpenLike(s[1..])
  {
    hide Marked, Unmarked, GoesOn;
    Words();
    WordAtText(c, "TEMPLATE_OPEN", s, OPEN);
  }

  lemma CloseAtText(c: char, s: string)
    ensures CLOSE <= [c] + Marked(s, "{{", CLOSE) <==> c == '_' && "_" <= s && CloseLike(s[1..])
  {
    hide Marked, Unmarked, GoesOn;
    Words();
    WordAtText(c, "TEMPLATE_CLOSE", s, "{{");
  }

  /** Where an opening placeholder starts inside a closing one. */
  lemma OpenInClose(s: string, j: nat)
    requires 0 < j < |CLOSE|
    ensures OPEN <= CLOSE[j..] + Marked(s, OPEN, CLOSE) <==>
      (j == 16 && OpenLike(s)) || (j == 17 && "_" <= s && OpenLike(s[1..]))
  {
    hide Marked, GoesOn;
    var m := Marked(s, OPEN, CLOSE);
    Words();
    if j == 16 {
      WordMarked("TEMPLATE_OPEN", s, OPEN, CLOSE);
      assert CLOSE[j..] == "__" && OPEN == "__" + ("TEMPLATE_OPEN" + "__");
      CancelFront("__", "TEMPLATE_OPEN" + "__", m);
    } else if j == 17 {
      OpenAtText('_', s);
      assert CLOSE[j..] == ['_'];
    } else if OPEN <= CLOSE[j..] + m {
      OpenFitsOnlyAtEnd(m, j);
    }
  }

  lemma OpenFitsOnlyAtEnd(m: string, j: nat)
    requires 0 < j < |CLOSE| && OPEN <= CLOSE[j..] + m
    ensures j == 16 || j == 17
  {
    var t := CLOSE[j..] + m;
    assert t[0] == '_' && t[1] == '_';
    assert CLOSE[j] == '_';
    assert j == 1 || j == 10 || j == 16 || j == 17;
    assert j < 17 ==> t[1] == CLOSE[j + 1];
  }

  /** The first pass of restoring over a closing placeholder: it is passed over, unless
      an opening one is found in its last underscores and breaks it. */
  lemma RestoreOverClose(s: string)
    ensures var m := Marked(s, OPEN, CLOSE);
      var first := Replace(CLOSE + m, OPEN, "{{");
      if OpenLike(s) || ("_" <= s && OpenLike(s[1..]))
      then |first| > 17 && first[0] == '_' && !(CLOSE <= first)
      else first == CLOSE + Replace(m, OPEN, "{{")
  {
    hide Marked, Replace, OpenLike;
    var m := Marked(s, OPEN, CLOSE);
    forall j | 0 <= j < |CLOSE|
      ensures OPEN <= CLOSE[j..] + m <==> (j == 16 && OpenLike(s)) || (j == 17 && "_" <= s && OpenLike(s[1..]))
    {
      if j > 0 { OpenInClose(s, j); } else { NotOpenAtClose(m); }
    }
    if OpenLike(s) {
      BrokenClose(m, 16);
    } else if "_" <= s && OpenLike(s[1..]) {
      BrokenClose(m, 17);
    } else {
      ReplaceSkips(CLOSE, m, OPEN, "{{");
    }
  }

  lemma NotOpenAtClose(m: string)
    ensures CLOSE[0..] == CLOSE && !(OPEN <= CLOSE + m)
  {
    assert (CLOSE + m)[11] == 'C' && OPEN[11] == 'O';
  }

  lemma BrokenClose(m: string, k: nat)
    requires (k == 16 || k == 17) && OPEN <= CLOSE[k..] + m
    requires forall j :: 0 <= j < k ==> !(OPEN <= CLOSE[j..] + m)
    ensures var first := Replace(CLOSE + m, OPEN, "{{");
      |first| > 17 && first[0] == '_' && !(CLOSE <= first)
  {
    var front, rest := CLOSE[..k], CLOSE[k..] + m;
    assert CLOSE + m == front + rest;
    forall j | 0 <= j < |front| ensures !(OPEN <= front[j..] + rest) {
      assert front[j..] + rest == CLOSE[j..] + m;
    }
    ReplaceSkips(front, rest, OPEN, "{{");
    var first := Replace(CLOSE + m, OPEN, "{{");
    assert Replace(rest, OPEN, "{{")[0] == '{';
    assert first[0] == front[0] && first[k] == '{' && CLOSE[k] == '_';
    assert |Replace(rest, OPEN, "{{")| >= 2;
  }

  // Both passes of restoring, from the end of the text to its start.

  function RestoreMarked(s: string): string { Restore(Marked(s, OPEN, CLOSE)) }

  function OnceRestored(s: string): string { Replace(Marked(s, OPEN, CLOSE), OPEN, "{{") }

  lemma RestoreAtOpen(s: string)
    requires "{{" <= s
    ensures OnceRestored(s) == "{{" + OnceRestored(s[2..])
    ensures RestoreMarked(s) == "{{" + RestoreMarked(s[2..])
  {
    var m := Marked(s[2..], OPEN, CLOSE);
    assert (OPEN + m)[|OPEN|..] == m;
    ReplaceSkipsOthers("{{", OnceRestored(s[2..]), CLOSE, "}}");
  }

  lemma RestoreAtClose(s: string)
    requires "}}" <= s
    ensures var broken := OpenLike(s[2..]) || ("_" <= s[2..] && OpenLike(s[3..]));
      && (!broken ==> OnceRestored(s) == CLOSE + OnceRestored(s[2..])
                      && RestoreMarked(s) == "}}" + RestoreMarked(s[2..]))
      && (broken ==> RestoreMarked(s) != "" && RestoreMarked(s)[0] == '_')
  {
    hide OpenLike;
    var rest := OnceRestored(s[2..]);
    assert s[2..] != "" && "_" <= s[2..] ==> s[3..] == s[2..][1..];
    RestoreOverClose(s[2..]);
    assert (CLOSE + rest)[|CLOSE|..] == rest;
  }

  lemma RestoreAtText(s: string)
    requires s != "" && !("{{" <= s) && !("}}" <= s)
    ensures var broken := "__" <= s && OpenLike(s[2..]);
      && (!broken ==> OnceRestored(s) == [s[0]] + OnceRestored(s[1..]))
      && (broken ==> RestoreMarked(s) != "" && RestoreMarked(s)[0] == '{')
  {
    hide OpenLike;
    var m := Marked(s[1..], OPEN, CLOSE);
    assert ([s[0]] + m)[1..] == m;
    OpenAtText(s[0], s[1..]);
    assert "__" <= s <==> s[0] == '_' && "_" <= s[1..];
    assert "__" <= s ==> s[1..][1..] == s[2..];
    if "__" <= s && OpenLike(s[2..]) {
      var first := OnceRestored(s);
      assert first[0] == '{' && !(CLOSE <= first);
    }
  }

  /** The second pass at a character that the first one left. */
  lemma RestoreTextOnce(s: string)
    requires s != "" && OnceRestored(s) == [s[0]] + OnceRestored(s[1..])
    ensures RestoreMarked(s) ==
      if CLOSE <= OnceRestored(s) then "}}" + Replace(OnceRestored(s)[|CLOSE|..], CLOSE, "}}")
      else [s[0]] + RestoreMarked(s[1..])
  {
    hide Marked;
    assert ([s[0]] + OnceRestored(s[1..]))[1..] == OnceRestored(s[1..]);
  }

  lemma {:induction false} RestoreDecided(s: string)
    ensures Survives(s) ==> OnceRestored(s) == Marked(s, "{{", CLOSE)
    ensures RestoreMarked(s) == s <==> Survives(s)
    decreases |s|
  {
    hide OpenLike, CloseLike, OnceRestored, RestoreMarked;
    if s == "" {
      RestoreNothing();
    } else if "{{" <= s {
      RestoreDecided(s[2..]);
      RestoreAtOpen(s);
      SamePair("{{", s, RestoreMarked(s[2..]));
    } else if "}}" <= s {
      RestoreDecided(s[2..]);
      RestoreAtClose(s);
      SamePair("}}", s, RestoreMarked(s[2..]));
    } else {
      RestoreDecided(s[1..]);
      RestoreAtText(s);
      CloseAtText(s[0], s[1..]);
      assert "__" <= s <==> s[0] == '_' && "_" <= s[1..];
      assert "__" <= s ==> s[1..][1..] == s[2..];
      if !("__" <= s && OpenLike(s[2..])) {
        RestoreTextOnce(s);
        assert [s[0]] + s[1..] == s;
        assert ([s[0]] + RestoreMarked(s[1..]))[1..] == RestoreMarked(s[1..]);
        CloseStartsWithUnderscore(OnceRestored(s));
      }
    }
  }

  lemma CloseStartsWithUnderscore(s: string)
    ensures CLOSE <= s ==> s[0] == '_'
  {}

  lemma RestoreNothing()
    ensures OnceRestored("") == "" && RestoreMarked("") == ""
  {}

  lemma SamePair(pair: string, s: string, rest: string)
    requires |pair| == 2 && pair <= s
    ensures pair + rest == s <==> rest == s[2..]
  {
    assert s == pair + s[2..] && (pair + rest)[2..] == rest;
  }

  /** Restoring undoes hiding on exactly the strings in which no placeholder can be found
      but where one was put. */
  lemma RestoreUndoesHide(s: string)
    ensures Restore(Hide(s)) == s <==> Survives(s)
  {
    HideIsMarked(s);
    RestoreDecided(s);
  }

  /** Strings without the word that the placeholders are made of are among them. */
  lemma {:induction false} WordFreeSurvives(s: string)
    requires !Contains(s, WORD)
    ensures Survives(s)
    decreases |s|
  {
    if s != "" {
      var n := if "{{" <= s || "}}" <= s then 2 else 1;
      SuffixWordFree(s, n);
      if "__" <= s || "}}" <= s {
        SuffixWordFree(s, 2);
        WordStart(s[2..]);
        if |s| > 2 {
          SuffixWordFree(s, 3);
          WordStart(s[3..]);
        }
      }
      WordFreeSurvives(s[n..]);
    }
  }

  lemma SuffixWordFree(s: string, n: nat)
    requires !Contains(s, WORD) && n <= |s|
    ensures !Contains(s[n..], WORD)
  {
    assert forall k :: 0 <= k <= |s| - n ==> s[n..][k..] == s[n + k..];
  }

  lemma WordStart(s: string)
    requires !Contains(s, WORD)
    ensures !OpenLike(s) && !CloseLike(s)
  {
    assert s[0..] == s;
    assert WORD <= "TEMPLATE_OPEN" && WORD <= "TEMPLATE_CLOSE";
  }

  /** Hidden text holds no doubled brace. */
  lemma {:induction false} HiddenHasNoPair(s: string)
    ensures !Contains(Marked(s, OPEN, CLOSE), "{{") && !Contains(Marked(s, OPEN, CLOSE), "}}")
    decreases |s|
  {
    var m := Marked(s, OPEN, CLOSE);
    if s != "" {
      if "{{" <= s || "}}" <= s {
        var mark := if "{{" <= s then OPEN else CLOSE;
        HiddenHasNoPair(s[2..]);
        NoPairAfterMark(mark, Marked(s[2..], OPEN, CLOSE));
      } else {
        var rest := Marked(s[1..], OPEN, CLOSE);
        HiddenHasNoPair(s[1..]);
        assert rest != "" ==> rest[0] == '_' || rest[0] == s[1..][0];
        forall k | 0 <= k <= |m| ensures !("{{" <= m[k..]) && !("}}" <= m[k..]) {
          if k > 0 { assert m[k..] == rest[k - 1..]; }
        }
      }
    }
  }

  lemma NoPairAfterMark(mark: string, rest: string)
    requires mark == OPEN || mark == CLOSE
    requires !Contains(rest, "{{") && !Contains(rest, "}}")
    ensures !Contains(mark + rest, "{{") && !Contains(mark + rest, "}}")
  {
    var m := mark + rest;
    forall k | 0 <= k <= |m| ensures !("{{" <= m[k..]) && !("}}" <= m[k..]) {
      if k >= |mark| { assert m[k..] == rest[k - |mark|..]; } else { assert m[k..][0] == mark[k]; }
    }
  }
}
