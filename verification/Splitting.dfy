/** Splitting a string at a separator and joining it again, as strings.Split and
    str.split, strings.Join and str.join do. */
module Splitting {

  predicate Without(c: string, sep: char) { sep !in c }

  function SplitAt(s: string, sep: char): (parts: seq<string>)
    ensures parts != []
  {
    if s == "" then [""]
    else Opened(s[0], SplitAt(s[1..], sep), sep)
  }

  /** The parts of a string whose rest has the given parts. */
  function Opened(c: char, parts: seq<string>, sep: char): (r: seq<string>)
    requires parts != []
    ensures r != []
  {
    if c == sep then [""] + parts else [[c] + parts[0]] + parts[1..]
  }

  function JoinWith(parts: seq<string>, sep: char): string {
    if |parts| == 0 then ""
    else if |parts| == 1 then parts[0]
    else parts[0] + [sep] + JoinWith(parts[1..], sep)
  }

  lemma {:induction false} PartsAreWithout(s: string, sep: char)
    ensures forall c :: c in SplitAt(s, sep) ==> Without(c, sep)
  {
    if s != "" {
      PartsAreWithout(s[1..], sep);
      assert SplitAt(s[1..], sep)[0] in SplitAt(s[1..], sep);
    }
  }

  lemma {:induction false} JoinOfParts(s: string, sep: char)
    ensures JoinWith(SplitAt(s, sep), sep) == s
  {
    if s != "" {
      JoinOfParts(s[1..], sep);
      var parts := SplitAt(s[1..], sep);
      if s[0] == sep {
        assert SplitAt(s, sep)[1..] == parts;
      } else if |parts| > 1 {
        assert SplitAt(s, sep)[1..] == parts[1..];
      }
    }
  }

  lemma {:induction false} SplitWhole(c: string, sep: char)
    requires Without(c, sep)
    ensures SplitAt(c, sep) == [c]
  {
    if c != "" {
      assert c[0] in c && forall x :: x in c[1..] ==> x in c;
      SplitWhole(c[1..], sep);
      assert [c[0]] + c[1..] == c;
    }
  }

  lemma OpenedConcat(c: char, a: seq<string>, b: seq<string>, sep: char)
    requires a != []
    ensures Opened(c, a + b, sep) == Opened(c, a, sep) + b
  {
    assert (a + b)[0] == a[0] && (a + b)[1..] == a[1..] + b;
  }

  lemma {:induction false} SplitConcat(a: string, b: string, sep: char)
    ensures SplitAt(a + [sep] + b, sep) == SplitAt(a, sep) + SplitAt(b, sep)
  {
    var s := a + [sep] + b;
    if a == "" {
      assert s[1..] == b;
    } else {
      assert s == [a[0]] + (a[1..] + [sep] + b);
      SplitConcat(a[1..], b, sep);
      assert SplitAt(s, sep) == Opened(a[0], SplitAt(a[1..], sep) + SplitAt(b, sep), sep);
      OpenedConcat(a[0], SplitAt(a[1..], sep), SplitAt(b, sep), sep);
    }
  }

  lemma {:induction false} SplitOfJoined(parts: seq<string>, sep: char)
    requires parts != []
    requires forall c :: c in parts ==> Without(c, sep)
    ensures SplitAt(JoinWith(parts, sep), sep) == parts
  {
    SplitWhole(parts[0], sep);
    if |parts| > 1 {
      SplitOfJoined(parts[1..], sep);
      SplitConcat(parts[0], JoinWith(parts[1..], sep), sep);
    }
  }

  /** Four texts put together are the same however they are grouped. */
  lemma Regrouped(a: string, b: string, c: string, d: string)
    ensures a + b + c + d == a + (b + (c + d))
    ensures a + (b + c) + d == a + (b + (c + d))
  {}
}
