/** What kebab-casing keeps of a name: its letters, the absence of slashes and
    quotes, its leading dots, and the place where splitext cuts it. */
module KebabStems {
  import opened PathNames
  import opened PyStrings
  import opened Kebab

  /** The new name of every renamed stem: its first letter lowered, the rest spread. */
  function SpreadName(name: string): (r: string)
    requires name != ""
    ensures r != ""
  {
    [ToLower(name[0])] + Spread(name[1..])
  }

  predicate HasNonDot(s: string) { exists i :: 0 <= i < |s| && s[i] != '.' }

  lemma {:induction false} SpreadChars(s: string)
    ensures forall c :: c in Spread(s) ==> c == '-' || exists i :: 0 <= i < |s| && c == ToLower(s[i])
    ensures HasNonDot(s) ==> HasNonDot(Spread(s))
  {
    if s != "" {
      SpreadChars(s[1..]);
      var head := (if IsUpper(s[0]) then "-" else "") + [ToLower(s[0])];
      var rest := Spread(s[1..]);
      assert Spread(s) == head + rest;
      forall c | c in Spread(s) ensures c == '-' || exists i :: 0 <= i < |s| && c == ToLower(s[i]) {
        if c in rest && c != '-' {
          var i :| 0 <= i < |s[1..]| && c == ToLower(s[1..][i]);
          assert c == ToLower(s[i + 1]);
        } else if c in head && c != '-' {
          assert c == ToLower(s[0]);
        }
      }
      if i :| 0 <= i < |s| && s[i] != '.' {
        if i == 0 {
          assert Spread(s)[0] != '.';
        } else {
          assert s[1..][i - 1] != '.';
          var j :| 0 <= j < |rest| && rest[j] != '.';
          assert Spread(s)[|head| + j] == rest[j];
        }
      }
    }
  }

  /** What the new stem keeps of the old one. */
  lemma SpreadNameShape(base: string)
    requires HasNonDot(base) && NoSlash(base) && QuoteFree(base)
    ensures Ordinary(SpreadName(base)) && QuoteFree(SpreadName(base)) && !HasUpper(SpreadName(base))
    ensures "." <= base ==> "." <= SpreadName(base)
    ensures HasNonDot(SpreadName(base))
    ensures !HasUpper(base) ==> SpreadName(base) == base
  {
    SpreadNameChars(base);
    SpreadNameNonDot(base);
    NonDotIsOrdinary(SpreadName(base));
    SpreadNameIsLower(base);
    if !HasUpper(base) { UnchangedSpread(base); }
  }

  lemma SpreadNameChars(base: string)
    requires base != "" && NoSlash(base) && QuoteFree(base)
    ensures NoSlash(SpreadName(base)) && QuoteFree(SpreadName(base))
  {
    SpreadChars(base[1..]);
    assert forall i :: 0 <= i < |base| ==> base[i] in base;
    assert forall i :: 0 <= i < |base[1..]| ==> base[1..][i] == base[i + 1];
    forall c | c in SpreadName(base) ensures c != '/' && !IsQuote(c) {
      assert c == ToLower(base[0]) || c in Spread(base[1..]);
    }
  }

  lemma SpreadNameNonDot(base: string)
    requires HasNonDot(base)
    ensures HasNonDot(SpreadName(base))
  {
    SpreadChars(base[1..]);
    var k := SpreadName(base);
    var i :| 0 <= i < |base| && base[i] != '.';
    if i == 0 {
      assert k[0] != '.';
    } else {
      assert base[1..][i - 1] != '.';
      var j :| 0 <= j < |Spread(base[1..])| && Spread(base[1..])[j] != '.';
      assert k[j + 1] == Spread(base[1..])[j];
    }
  }

  lemma NonDotIsOrdinary(name: string)
    requires HasNonDot(name) && NoSlash(name)
    ensures Ordinary(name)
  {}

  lemma SpreadNameIsLower(base: string)
    requires base != ""
    ensures !HasUpper(SpreadName(base))
  {
    SpreadHasNoUpper(base[1..]);
    var k := SpreadName(base);
    assert forall i :: 0 < i < |k| ==> k[i] == Spread(base[1..])[i - 1];
  }

  /** What kebab-casing does to the dots of a name: nothing. */
  lemma {:induction false} SpreadDots(s: string)
    ensures '.' in Spread(s) <==> '.' in s
  {
    if s != "" {
      SpreadDots(s[1..]);
      var head := (if IsUpper(s[0]) then "-" else "") + [ToLower(s[0])];
      assert Spread(s) == head + Spread(s[1..]);
      assert '.' in head <==> s[0] == '.';
      assert s == [s[0]] + s[1..];
    }
  }

  lemma {:induction false} SpreadOfDots(dots: string, rest: string)
    requires forall c :: c in dots ==> c == '.'
    ensures Spread(dots + rest) == dots + Spread(rest)
    decreases |dots|
  {
    if dots == "" {
      assert dots + rest == rest;
    } else {
      assert dots[0] in dots && (dots + rest)[1..] == dots[1..] + rest;
      assert forall c :: c in dots[1..] ==> c in dots;
      SpreadOfDots(dots[1..], rest);
    }
  }

  /** The first `k` characters are dots and no others are. */
  predicate DotsUpTo(name: string, k: nat) {
    k <= |name| && forall i :: 0 <= i < |name| ==> (name[i] == '.' <==> i < k)
  }

  /** A name that splitext leaves whole: leading dots, then none. */
  predicate IsWhole(name: string) { exists k :: 0 <= k <= |name| && DotsUpTo(name, k) }

  lemma WholeIsUncut(name: string)
    ensures Cut(name) == |name| <==> IsWhole(name)
  {
    var dot := LastDot(name, |name|);
    if Cut(name) == |name| {
      assert DotsUpTo(name, dot + 1);
    }
  }

  lemma SpreadOfWhole(name: string, k: nat, r: string)
    requires name != "" && DotsUpTo(name, k) && r == [ToLower(name[0])] + Spread(name[1..])
    ensures DotsUpTo(r, k)
  {
    if k == 0 {
      SpreadDots(name[1..]);
      assert '.' !in name[1..];
      assert forall i :: 0 < i < |r| ==> r[i] == Spread(name[1..])[i - 1] && r[i] in Spread(name[1..]);
    } else {
      var dots, rest := name[1..k], name[k..];
      assert name[1..] == dots + rest;
      SpreadOfDots(dots, rest);
      SpreadDots(rest);
      assert '.' !in rest;
      var plain := Spread(rest);
      assert r == [name[0]] + (dots + plain);
      assert forall i :: k <= i < |r| ==> r[i] == plain[i - k] && r[i] in plain;
    }
  }

  lemma {:induction false} SpreadConcat(a: string, b: string)
    ensures Spread(a + b) == Spread(a) + Spread(b)
    decreases |a|
  {
    if a == "" {
      assert a + b == b;
    } else {
      assert (a + b)[1..] == a[1..] + b;
      SpreadConcat(a[1..], b);
    }
  }

  lemma CutParts(name: string)
    requires Extension(name) != ""
    ensures HasNonDot(BaseName(name)) && name == BaseName(name) + Extension(name)
    ensures Extension(name)[0] == '.' && '.' !in Extension(name)[1..]
  {
    var ext := Extension(name);
    assert ext[0] == name[Cut(name)];
    assert forall j :: 0 <= j < |ext[1..]| ==> ext[1..][j] == name[Cut(name) + 1 + j];
    var i :| 0 <= i < Cut(name) && name[i] != '.';
    assert BaseName(name)[i] == name[i];
  }

  /** A stem that is not all dots is cut off before a one-dot extension. */
  lemma CutOfJoined(stem: string, ext: string)
    requires HasNonDot(stem) && ext != "" && ext[0] == '.' && '.' !in ext[1..]
    ensures Cut(stem + ext) == |stem| && BaseName(stem + ext) == stem
  {
    var f := stem + ext;
    var i :| 0 <= i < |stem| && stem[i] != '.';
    assert f[i] == stem[i] != '.' && f[|stem|] == '.';
    assert forall j :: |stem| < j < |f| ==> f[j] == ext[1..][j - |stem| - 1];
    assert LastDot(f, |f|) == |stem|;
    assert f[..|stem|] == stem;
  }

  /** Cutting the extension off a folder's new name gives the new stem. */
  lemma BaseOfKebab(name: string)
    requires name != "" && !IsReadme(name)
    ensures BaseName(name) != "" && BaseName(ToKebab(name)) == SpreadName(BaseName(name))
  {
    hide ToKebab, IsReadme;
    var base, ext := BaseName(name), Extension(name);
    KebabIsSpread(name);
    if ext == "" {
      WholeBase(name);
    } else {
      CutParts(name);
      SpreadNameNonDot(base);
      assert name[1..] == base[1..] + ext;
      SpreadConcat(base[1..], ext);
      assert ToKebab(name) == SpreadName(base) + Spread(ext);
      SpreadOfExtension(ext);
      CutOfJoined(SpreadName(base), Spread(ext));
    }
  }

  lemma SpreadOfExtension(ext: string)
    requires ext != "" && ext[0] == '.' && '.' !in ext[1..]
    ensures Spread(ext) != "" && Spread(ext)[0] == '.' && '.' !in Spread(ext)[1..]
  {
    SpreadDots(ext[1..]);
    assert Spread(ext) == "." + Spread(ext[1..]);
    assert Spread(ext)[1..] == Spread(ext[1..]);
  }

  lemma WholeBase(name: string)
    requires name != "" && Extension(name) == ""
    ensures BaseName(name) == name && BaseName(SpreadName(name)) == SpreadName(name)
  {
    WholeIsUncut(name);
    var k :| 0 <= k <= |name| && DotsUpTo(name, k);
    SpreadOfWhole(name, k, SpreadName(name));
    WholeIsUncut(SpreadName(name));
  }

  /** So does cutting it off a file's new name. */
  lemma BaseOfKebabFile(name: string)
    requires name != "" && !IsReadme(BaseName(name))
    ensures BaseName(name) != "" && BaseName(KebabFile(name)) == SpreadName(BaseName(name))
  {
    hide ToKebab, IsReadme;
    var base, ext := BaseName(name), Extension(name);
    if ext == "" {
      WholeBase(name);
      KebabIsSpread(name);
      assert KebabFile(name) == ToKebab(name) + "";
    } else {
      CutParts(name);
      KebabIsSpread(base);
      SpreadNameNonDot(base);
      CutOfJoined(SpreadName(base), ext);
    }
  }
}
