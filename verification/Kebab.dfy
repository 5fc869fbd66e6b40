/** to_kebab_case on ASCII names, and the file and directory names built from it. */
module Kebab {

  predicate IsUpper(c: char) { 'A' <= c <= 'Z' }

  predicate IsLower(c: char) { 'a' <= c <= 'z' }

  function ToLower(c: char): char {
    if IsUpper(c) then (c as int + 32) as char else c
  }

  function ToUpper(c: char): char {
    if IsLower(c) then (c as int - 32) as char else c
  }

  function Lower(s: string): string { seq(|s|, i requires 0 <= i < |s| => ToLower(s[i])) }

  function Upper(s: string): string { seq(|s|, i requires 0 <= i < |s| => ToUpper(s[i])) }

  predicate HasUpper(s: string) { exists i :: 0 <= i < |s| && IsUpper(s[i]) }

  predicate HasAlpha(s: string) { exists i :: 0 <= i < |s| && (IsUpper(s[i]) || IsLower(s[i])) }

  /** str.islower */
  predicate IsLowerName(s: string) { !HasUpper(s) && HasAlpha(s) }

  predicate IsReadme(name: string) { Upper(name) == "README" }

  /** A hyphen before every upper-case letter. */
  function Hyphenate(s: string): string {
    if s == "" then ""
    else (if IsUpper(s[0]) then "-" else "") + [s[0]] + Hyphenate(s[1..])
  }

  /** to_kebab_case */
  function ToKebab(name: string): string {
    if IsReadme(name) then name
    else if (IsLowerName(name) && '-' in name) || !HasAlpha(name) then name
    else Lower(name[..1] + Hyphenate(name[1..]))
  }

  /** The hyphenated name in lower case, one character at a time. */
  function Spread(s: string): string {
    if s == "" then ""
    else (if IsUpper(s[0]) then "-" else "") + [ToLower(s[0])] + Spread(s[1..])
  }

  lemma LowerConcat(a: string, b: string)
    ensures Lower(a + b) == Lower(a) + Lower(b)
  {}

  lemma {:induction false} SpreadIsLower(s: string)
    ensures Lower(Hyphenate(s)) == Spread(s)
  {
    if s != "" {
      var h := (if IsUpper(s[0]) then "-" else "") + [s[0]];
      SpreadIsLower(s[1..]);
      LowerConcat(h, Hyphenate(s[1..]));
      assert Lower(h) == (if IsUpper(s[0]) then "-" else "") + [ToLower(s[0])];
    }
  }

  lemma {:induction false} SpreadFixesLower(s: string)
    requires !HasUpper(s)
    ensures Spread(s) == s
  {
    if s != "" {
      assert forall i :: 0 <= i < |s[1..]| ==> s[1..][i] == s[i + 1];
      SpreadFixesLower(s[1..]);
      assert s == [s[0]] + s[1..];
    }
  }

  lemma {:induction false} SpreadHasNoUpper(s: string)
    ensures !HasUpper(Spread(s))
    ensures '-' !in Spread(s) ==> !HasUpper(s)
  {
    if s != "" {
      SpreadHasNoUpper(s[1..]);
      var head := (if IsUpper(s[0]) then "-" else "") + [ToLower(s[0])];
      assert Spread(s) == head + Spread(s[1..]);
      assert '-' in head ==> '-' in Spread(s);
      assert forall c :: c in Spread(s[1..]) ==> c in Spread(s);
      assert forall i :: 0 < i < |s| ==> s[i] == s[1..][i - 1];
      if IsUpper(s[0]) { assert head[0] == '-' && head[0] in head; }
    }
  }

  /** What to_kebab_case computes on every name but a README. */
  lemma KebabIsSpread(name: string)
    requires !IsReadme(name)
    ensures ToKebab(name) == if name == "" then "" else [ToLower(name[0])] + Spread(name[1..])
  {
    hide IsReadme, Hyphenate, Spread;
    if name == "" {
    } else if HasUpper(name) {
      assert HasAlpha(name);
      LowerOfHyphenated(name);
    } else {
      LowerOfHyphenated(name);
      UnchangedSpread(name);
    }
  }

  lemma LowerOfHyphenated(name: string)
    requires name != ""
    ensures Lower(name[..1] + Hyphenate(name[1..])) == [ToLower(name[0])] + Spread(name[1..])
  {
    SpreadIsLower(name[1..]);
    LowerConcat(name[..1], Hyphenate(name[1..]));
    assert Lower(name[..1]) == [ToLower(name[0])];
  }

  lemma UnchangedSpread(name: string)
    requires name != "" && !HasUpper(name)
    ensures [ToLower(name[0])] + Spread(name[1..]) == name
  {
    assert forall i :: 0 <= i < |name[1..]| ==> name[1..][i] == name[i + 1];
    SpreadFixesLower(name[1..]);
    assert name == [name[0]] + name[1..];
  }

  /** Names without upper-case letters stay as they are. */
  lemma KebabFixesLower(name: string)
    requires !HasUpper(name)
    ensures ToKebab(name) == name
  {
    if !IsReadme(name) && name != "" {
      KebabIsSpread(name);
      UnchangedSpread(name);
    }
  }

  /** A changed name has no upper-case letter left. */
  lemma KebabIsLower(name: string)
    ensures ToKebab(name) == name || !HasUpper(ToKebab(name))
  {
    if !IsReadme(name) && name != "" {
      KebabIsSpread(name);
      SpreadHasNoUpper(name[1..]);
      var k := ToKebab(name);
      assert forall i :: 0 < i < |k| ==> k[i] == Spread(name[1..])[i - 1];
    }
  }

  lemma KebabIdempotent(name: string)
    ensures ToKebab(ToKebab(name)) == ToKebab(name)
  {
    KebabIsLower(name);
    if ToKebab(name) != name { KebabFixesLower(ToKebab(name)); }
  }

  lemma {:induction false} SpreadInjective(a: string, b: string)
    requires '-' !in a && '-' !in b && Spread(a) == Spread(b)
    ensures a == b
  {
    if a != "" && b != "" {
      assert a[0] in a && b[0] in b;
      var x, y := Spread(a), Spread(b);
      assert forall c :: c in a[1..] ==> c in a;
      assert forall c :: c in b[1..] ==> c in b;
      assert IsUpper(a[0]) <==> x[0] == '-';
      assert IsUpper(b[0]) <==> y[0] == '-';
      if IsUpper(a[0]) {
        assert x[1] == ToLower(a[0]) && y[1] == ToLower(b[0]);
        assert x[2..] == Spread(a[1..]) && y[2..] == Spread(b[1..]);
      } else {
        assert x[1..] == Spread(a[1..]) && y[1..] == Spread(b[1..]);
      }
      SpreadInjective(a[1..], b[1..]);
      assert a == [a[0]] + a[1..] && b == [b[0]] + b[1..];
    }
  }

  /** Equal but for the case of the first letter. */
  predicate SameButFirstCase(a: string, b: string) {
    |a| == |b| && (a == "" || (a[1..] == b[1..] && ToLower(a[0]) == ToLower(b[0])))
  }

  /** Two hyphen-free names have one image exactly when they are equal or differ in
      the case of the first letter only and are not a README. */
  lemma KebabCollisions(a: string, b: string)
    requires '-' !in a && '-' !in b
    ensures ToKebab(a) == ToKebab(b) <==> a == b || (SameButFirstCase(a, b) && !IsReadme(a))
  {
    if IsReadme(a) != IsReadme(b) {
      if IsReadme(a) { ReadmeAlone(a, b); } else { ReadmeAlone(b, a); }
    } else if !IsReadme(a) {
      KebabIsSpread(a);
      KebabIsSpread(b);
      if a != "" && b != "" && ToKebab(a) == ToKebab(b) {
        assert ToKebab(a)[1..] == Spread(a[1..]) && ToKebab(b)[1..] == Spread(b[1..]);
        assert forall c :: c in a[1..] ==> c in a;
        assert forall c :: c in b[1..] ==> c in b;
        SpreadInjective(a[1..], b[1..]);
      }
    }
  }

  lemma ReadmeAlone(readme: string, other: string)
    requires IsReadme(readme) && !IsReadme(other) && '-' !in readme
    ensures ToKebab(readme) != ToKebab(other) && !SameButFirstCase(readme, other)
    ensures readme != other && !SameButFirstCase(other, readme)
  {
    var u := Upper(readme);
    assert |readme| == |u| == 6;
    if SameButFirstCase(readme, other) || SameButFirstCase(other, readme) {
      SameUpper(readme, other);
    }
    if other != "" {
      KebabIsSpread(other);
      SpreadHasNoUpper(other[1..]);
      if ToKebab(other) == readme {
        assert forall c :: c in Spread(other[1..]) ==> c in readme;
        SpreadFixesLower(other[1..]);
        SameUpper(readme, other);
      }
    } else {
      KebabIsSpread(other);
    }
  }

  lemma SameUpper(a: string, b: string)
    requires |a| == |b| > 0 && a[1..] == b[1..] && ToLower(a[0]) == ToLower(b[0])
    ensures Upper(a) == Upper(b)
  {
    assert forall i :: 0 < i < |a| ==> a[i] == a[1..][i - 1] && b[i] == b[1..][i - 1];
  }

  // The name function by its parts: these determine it.

  lemma {:induction false} SpreadConcat(a: string, b: string)
    ensures Spread(a + b) == Spread(a) + Spread(b)
  {
    if a == "" {
      assert a + b == b;
    } else {
      assert (a + b)[0] == a[0] && (a + b)[1..] == a[1..] + b;
      SpreadConcat(a[1..], b);
    }
  }

  lemma ReadmeByLetters(name: string)
    ensures IsReadme(name) <==> Lower(name) == "readme"
  {
    var u, l := Upper(name), Lower(name);
    assert forall i :: 0 <= i < |name| ==> u[i] == ToUpper(name[i]) && l[i] == ToLower(name[i]);
    if |name| == 6 {
      assert u == [u[0], u[1], u[2], u[3], u[4], u[5]] && l == [l[0], l[1], l[2], l[3], l[4], l[5]];
    }
  }

  /** A name spelled "readme" in any case stays as it is. */
  lemma ReadmeStays(name: string)
    requires Lower(name) == "readme"
    ensures ToKebab(name) == name
  {
    hide Lower;
    ReadmeByLetters(name);
  }

  /** A name without an upper-case letter after its first is put in lower case. */
  lemma KebabOfWord(name: string)
    requires Lower(name) != "readme" && forall i :: 0 < i < |name| ==> !('A' <= name[i] <= 'Z')
    ensures ToKebab(name) == Lower(name)
  {
    hide IsReadme, ToKebab;
    ReadmeByLetters(name);
    KebabIsSpread(name);
    if name != "" {
      SpreadFixesLower(name[1..]);
      assert name[1..] == Lower(name)[1..] && Lower(name)[0] == ToLower(name[0]);
    }
  }

  /** Before any other upper-case letter the name is divided by a hyphen. */
  lemma KebabDivides(a: string, c: char, b: string)
    requires a != "" && 'A' <= c <= 'Z'
    requires Lower(a) != "readme" && Lower([c] + b) != "readme" && Lower(a + [c] + b) != "readme"
    ensures ToKebab(a + [c] + b) == ToKebab(a) + "-" + ToKebab([c] + b)
  {
    hide IsReadme, ToKebab, Lower, Spread;
    ReadmeByLetters(a);
    ReadmeByLetters([c] + b);
    ReadmeByLetters(a + [c] + b);
    KebabIsSpread(a);
    KebabIsSpread([c] + b);
    KebabIsSpread(a + [c] + b);
    assert (a + [c] + b)[0] == a[0] && (a + [c] + b)[1..] == a[1..] + ([c] + b) && ([c] + b)[1..] == b;
    SpreadDivides(a[1..], c, b);
    Bracket([ToLower(a[0])], Spread(a[1..]), "-" + ([ToLower(c)] + Spread(b)));
  }

  lemma SpreadDivides(a: string, c: char, b: string)
    requires 'A' <= c <= 'Z'
    ensures Spread(a + ([c] + b)) == Spread(a) + ("-" + ([ToLower(c)] + Spread(b)))
  {
    SpreadConcat(a, [c] + b);
    assert ([c] + b)[1..] == b;
  }

  lemma Bracket(a: string, b: string, c: string)
    ensures a + (b + c) == a + b + c
  {}

  // File names

  /** Where os.path.splitext cuts: the last dot that has more than dots before it. */
  function Cut(name: string): (k: nat)
    ensures k <= |name|
  {
    var dot := LastDot(name, |name|);
    if dot >= 0 && exists i :: 0 <= i < dot && name[i] != '.' then dot else |name|
  }

  function LastDot(name: string, n: nat): (k: int)
    requires n <= |name|
    ensures -1 <= k < n && (k >= 0 ==> name[k] == '.')
    ensures forall i :: k < i < n ==> name[i] != '.'
  {
    if n == 0 then -1 else if name[n - 1] == '.' then n - 1 else LastDot(name, n - 1)
  }

  function BaseName(name: string): string { name[..Cut(name)] }

  function Extension(name: string): string { name[Cut(name)..] }

  function KebabFile(name: string): string { ToKebab(BaseName(name)) + Extension(name) }

  /** With a lower-case extension a changed file name has no upper-case letter. */
  lemma KebabFileIsLower(name: string)
    requires !HasUpper(Extension(name)) && KebabFile(name) != name
    ensures !HasUpper(KebabFile(name))
  {
    var k, e := ToKebab(BaseName(name)), Extension(name);
    assert BaseName(name) + e == name;
    KebabIsLower(BaseName(name));
    assert forall i :: |k| <= i < |k + e| ==> (k + e)[i] == e[i - |k|];
  }

  /** A file's name is divided at its last dot, unless there are only dots before it; what
      is before is renamed as a word is, the extension stays. */
  lemma KebabFileByParts(base: string, extension: string)
    requires '.' !in extension && exists i :: 0 <= i < |base| && base[i] != '.'
    ensures KebabFile(base + "." + extension) == ToKebab(base) + "." + extension
    ensures BaseName(base + "." + extension) == base
  {
    hide ToKebab;
    var name := base + "." + extension;
    var i :| 0 <= i < |base| && base[i] != '.';
    assert name[i] != '.' && name[|base|] == '.';
    forall k | |base| < k < |name| ensures name[k] != '.' { assert name[k] == extension[k - |base| - 1]; }
    assert LastDot(name, |name|) == |base|;
    assert name[..|base|] == base && name[|base|..] == "." + extension;
  }

  lemma KebabFileWhole(dots: string, rest: string)
    requires (forall i :: 0 <= i < |dots| ==> dots[i] == '.') && '.' !in rest
    ensures KebabFile(dots + rest) == ToKebab(dots + rest)
  {
    hide ToKebab;
    var name := dots + rest;
    forall i | 0 <= i < |name| ensures name[i] == '.' <==> i < |dots| {
      if i >= |dots| { assert name[i] == rest[i - |dots|]; }
    }
    assert name[..|name|] == name && name[|name|..] == "";
    assert ToKebab(name) + "" == ToKebab(name);
  }
}
