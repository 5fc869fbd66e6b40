/** Whole JSON documents: numbers in every form, the three words, nested arrays and objects.
    json.loads reads each back as json.dumps writes it. */
module JsonDocs {
  import opened JsonText

  /** A number in its parts (RFC 8259, section 6); fraction and exponent may be absent. */
  datatype Number = Number(negative: bool, whole: string, fraction: string, sign: string, exponent: string)

  datatype Doc =
    | TextDoc(text: string)
    | NumberDoc(number: Number)
    | BoolDoc(value: bool)
    | NullDoc
    | ListDoc(items: seq<Doc>)
    | ObjectDoc(members: seq<Member>)

  datatype Member = Member(name: string, value: Doc)

  // Numbers.

  predicate IsNumber(n: Number) {
    && n.whole != "" && AllDigits(n.whole) && (n.whole[0] == '0' ==> n.whole == "0")
    && AllDigits(n.fraction)
    && AllDigits(n.exponent)
    && (n.sign == "" || n.sign == "+" || n.sign == "-")
    && (n.exponent == "" ==> n.sign == "")
  }

  function Whole(n: Number): string { (if n.negative then "-" else "") + n.whole }

  function Fraction(n: Number): string { if n.fraction == "" then "" else "." + n.fraction }

  function Exponent(n: Number): string { if n.exponent == "" then "" else "e" + n.sign + n.exponent }

  function PrintNumber(n: Number): string { Whole(n) + (Fraction(n) + Exponent(n)) }

  /** An integer of more digits than `int` takes. */
  predicate TooLongFor(n: Number) { n.fraction == "" && n.exponent == "" && |n.whole| > 4300 }

  /** What can follow a value. */
  predicate Closes(more: string) { more == "" || more[0] == ',' || more[0] == ']' || more[0] == '}' }

  lemma {:induction false} DigitsEndAt(s: string, i: nat, j: nat)
    requires i <= j <= |s| && forall k :: i <= k < j ==> IsDigit(s[k])
    requires j < |s| ==> !IsDigit(s[j])
    ensures DigitsEnd(s, i) == j
    decreases j - i
  {
    if i < j { DigitsEndAt(s, i + 1, j); }
  }

  lemma DigitsBetween(a: string, digits: string, b: string)
    requires AllDigits(digits) && (b == "" || !IsDigit(b[0]))
    ensures DigitsEnd(a + digits + b, |a|) == |a| + |digits|
  {
    var s := a + digits + b;
    forall k | |a| <= k < |a| + |digits| ensures IsDigit(s[k]) { assert s[k] == digits[k - |a|]; }
    assert b != "" ==> s[|a| + |digits|] == b[0];
    DigitsEndAt(s, |a|, |a| + |digits|);
  }

  lemma WholeEnds(n: Number, rest: string)
    requires IsNumber(n) && (rest == "" || !IsDigit(rest[0]))
    ensures WholeEnd(Whole(n) + rest) == |Whole(n)|
  {
    var sign := if n.negative then "-" else "";
    var s := Whole(n) + rest;
    assert s == sign + n.whole + rest;
    assert s[|sign|] == n.whole[0] && IsDigit(n.whole[0]);
    DigitsBetween(sign, n.whole, rest);
  }

  lemma FractionEnds(a: string, n: Number, rest: string)
    requires IsNumber(n) && (rest == "" || (!IsDigit(rest[0]) && rest[0] != '.'))
    ensures FractionEnd(a + Fraction(n) + rest, |a|) == |a| + |Fraction(n)|
  {
    hide DigitsEnd, AllDigits;
    var s := a + Fraction(n) + rest;
    if n.fraction != "" {
      FractionText(a, n.fraction, rest);
      DigitsBetween(a + ".", n.fraction, rest);
    } else {
      assert rest != "" ==> s[|a|] == rest[0];
    }
  }

  lemma FractionText(a: string, digits: string, rest: string)
    requires digits != ""
    ensures var s := a + ("." + digits) + rest; s == a + "." + digits + rest && s[|a|] == '.'
  {
    Grouped(a, ".", digits);
    assert (a + ("." + digits))[|a|] == '.';
  }

  lemma ExponentEnds(a: string, n: Number, rest: string)
    requires IsNumber(n) && (rest == "" || (!IsDigit(rest[0]) && rest[0] != 'e' && rest[0] != 'E'))
    ensures ExponentEnd(a + Exponent(n) + rest, |a|) == |a| + |Exponent(n)|
  {
    hide DigitsEnd, AllDigits;
    var s := a + Exponent(n) + rest;
    if n.exponent != "" {
      ExponentText(a, n, rest);
      DigitsBetween(a + ("e" + n.sign), n.exponent, rest);
    } else {
      assert rest != "" ==> s[|a|] == rest[0];
    }
  }

  /** What stands where in a number with an exponent. */
  lemma ExponentText(a: string, n: Number, rest: string)
    requires IsNumber(n) && n.exponent != ""
    ensures var s, head := a + Exponent(n) + rest, a + ("e" + n.sign);
      && s == head + n.exponent + rest
      && |a| + 1 < |s| && s[|a|] == 'e'
      && (n.sign != "" ==> s[|a| + 1] == n.sign[0])
      && (n.sign == "" ==> IsDigit(s[|a| + 1]))
  {
    var s, head, digits := a + Exponent(n) + rest, a + ("e" + n.sign), n.exponent;
    assert IsDigit(digits[0]);
    hide IsNumber, AllDigits;
    assert s == head + digits + rest;
    assert s[|a|] == head[|a|] == 'e';
    assert n.sign != "" ==> head[|a| + 1] == n.sign[0];
    assert n.sign == "" ==> s[|a| + 1] == digits[0];
  }

  lemma NumberEnds(n: Number, more: string)
    requires IsNumber(n) && Closes(more)
    ensures NumberLength(PrintNumber(n) + more) == |PrintNumber(n)| > 0
  {
    hide Whole, Fraction, Exponent, IsNumber, WholeEnd, FractionEnd, ExponentEnd, Closes;
    var a, b, c := Whole(n), Fraction(n), Exponent(n);
    var s := PrintNumber(n) + more;
    assert s == a + (b + (c + more)) && s == a + b + (c + more) && s == (a + b) + c + more;
    PartsStart(n, more);
    WholeEnds(n, b + (c + more));
    FractionEnds(a, n, c + more);
    ExponentEnds(a + b, n, more);
  }

  lemma PartsStart(n: Number, more: string)
    requires IsNumber(n) && Closes(more)
    ensures Whole(n) != ""
    ensures var rest := Fraction(n) + (Exponent(n) + more); rest == "" || !IsDigit(rest[0])
    ensures var rest := Exponent(n) + more; rest == "" || (!IsDigit(rest[0]) && rest[0] != '.')
    ensures more == "" || (!IsDigit(more[0]) && more[0] != 'e' && more[0] != 'E')
  {}

  lemma LongExactly(n: Number)
    requires IsNumber(n)
    ensures IsLongInteger(PrintNumber(n)) <==> TooLongFor(n)
  {
    hide Whole;
    var tail := Fraction(n) + Exponent(n);
    AfterSign(n, tail);
    if tail != "" {
      assert (n.whole + tail)[|n.whole|] == tail[0] && (tail[0] == '.' || tail[0] == 'e');
    } else {
      assert n.whole + tail == n.whole;
    }
  }

  lemma AfterSign(n: Number, tail: string)
    requires IsNumber(n)
    ensures var s := Whole(n) + tail;
      s != "" && (if s[0] == '-' then s[1..] else s) == n.whole + tail
  {
    assert IsDigit(n.whole[0]);
    if n.negative { assert (Whole(n) + tail)[1..] == n.whole + tail; }
  }

  lemma NumberStart(n: Number, more: string)
    requires IsNumber(n)
    ensures var s := PrintNumber(n) + more; s[0] == '-' || IsDigit(s[0])
  {
    assert IsDigit(n.whole[0]);
  }

  /** A number is read to its end, and kept as it is written. */
  lemma ReadsNumber(n: Number, more: string)
    requires IsNumber(n) && Closes(more)
    ensures ReadValue(PrintNumber(n) + more)
         == if TooLongFor(n) then LongInteger else Ok(JNumber(PrintNumber(n)), more)
  {
    hide PrintNumber, NumberLength, IsLongInteger, TooLongFor;
    var text, s := PrintNumber(n), PrintNumber(n) + more;
    NumberEnds(n, more);
    LongExactly(n);
    NumberStart(n, more);
    assert s[..|text|] == text && s[|text|..] == more && text[0] == s[0];
  }

  // Documents.

  function Print(d: Doc): string
    decreases d, 1
  {
    match d
    case TextDoc(text) => Quoted(text)
    case NumberDoc(number) => PrintNumber(number)
    case BoolDoc(value) => if value then "true" else "false"
    case NullDoc => "null"
    case ListDoc(items) => "[" + PrintItems(items)
    case ObjectDoc(members) => "{" + PrintMembers(members)
  }

  /** The items of a list and its closing bracket. */
  function PrintItems(items: seq<Doc>): string
    decreases items, 0
  {
    if items == [] then "]"
    else Print(items[0]) + (if |items| == 1 then "]" else ", " + PrintItems(items[1..]))
  }

  function PrintMembers(members: seq<Member>): string
    decreases members, 0
  {
    if members == [] then "}"
    else
      Quoted(members[0].name) + (": " + (Print(members[0].value)
        + (if |members| == 1 then "}" else ", " + PrintMembers(members[1..]))))
  }

  /** What a document denotes: the last of several members of one name counts. */
  function ValueOf(d: Doc): Json
    decreases d, 1
  {
    match d
    case TextDoc(text) => JString(text)
    case NumberDoc(number) => JNumber(PrintNumber(number))
    case BoolDoc(value) => JBool(value)
    case NullDoc => JNull
    case ListDoc(items) => JArray(ValuesOf(items))
    case ObjectDoc(members) => JObject(MembersOf(map[], members))
  }

  function ValuesOf(items: seq<Doc>): seq<Json>
    decreases items, 0
  {
    if items == [] then [] else [ValueOf(items[0])] + ValuesOf(items[1..])
  }

  function MembersOf(before: map<string, Json>, members: seq<Member>): map<string, Json>
    decreases members, 0
  {
    if members == [] then before else MembersOf(before[members[0].name := ValueOf(members[0].value)], members[1..])
  }

  /** Numbers are numbers, and no integer is too long. */
  predicate Readable(d: Doc)
    decreases d
  {
    match d
    case NumberDoc(number) => IsNumber(number) && !TooLongFor(number)
    case ListDoc(items) => forall i :: 0 <= i < |items| ==> Readable(items[i])
    case ObjectDoc(members) => forall i :: 0 <= i < |members| ==> Readable(members[i].value)
    case _ => true
  }

  predicate StartsValue(s: string) { s != "" && !IsJsonSpace(s[0]) && s[0] != ']' && s[0] != '}' }

  lemma PrintStarts(d: Doc, more: string)
    requires Readable(d)
    ensures StartsValue(Print(d) + more) && SkipSpace(Print(d) + more) == Print(d) + more
  {
    if d.NumberDoc? { NumberStart(d.number, more); }
  }

  lemma ReadsWord(d: Doc, more: string)
    requires d.BoolDoc? || d.NullDoc?
    ensures ReadValue(Print(d) + more) == Ok(ValueOf(d), more)
  {
    var w, s := Print(d), Print(d) + more;
    assert s[..|w|] == w && s[|w|..] == more && s[0] == w[0];
    assert w == "true" ==> !(WORDS[0] <= s);
    assert w == "false" ==> !(WORDS[0] <= s) && !(WORDS[1] <= s);
  }

  lemma SkipOne(t: string)
    requires StartsValue(t)
    ensures SkipSpace(" " + t) == t
  {
    assert (" " + t)[1..] == t;
  }

  /** What ReadItems does after an item, given what follows it. */
  lemma ItemStep(s: string, items: seq<Json>, value: Json, more: string)
    requires ReadValue(s) == Ok(value, more)
    ensures SkipSpace(more) != "" && SkipSpace(more)[0] == ']' ==>
              ReadItems(s, items) == Ok(JArray(items + [value]), SkipSpace(more)[1..])
    ensures SkipSpace(more) != "" && SkipSpace(more)[0] == ',' ==>
              ReadItems(s, items) == ReadItems(SkipSpace(SkipSpace(more)[1..]), items + [value])
  {}

  lemma {:induction false} ReadsItems(items: seq<Doc>, before: seq<Json>, more: string)
    requires items != [] && forall i :: 0 <= i < |items| ==> Readable(items[i])
    ensures ReadItems(PrintItems(items) + more, before) == Ok(JArray(before + ValuesOf(items)), more)
    decreases items, 0
  {
    hide *;
    var first, value := items[0], ValueOf(items[0]);
    var rest := if |items| == 1 then "]" + more else ", " + (PrintItems(items[1..]) + more);
    ItemsText(items, more);
    RestCloses(items, more);
    ReadsDoc(first, rest);
    CloserStays(rest);
    ItemStep(Print(first) + rest, before, value, rest);
    ValuesStep(items, before);
    if |items| > 1 {
      var tail := PrintItems(items[1..]) + more;
      assert rest[1..] == " " + tail;
      ItemsStart(items[1..], more);
      SkipOne(tail);
      ReadsItems(items[1..], before + [value], more);
    }
  }

  lemma RestCloses(items: seq<Doc>, more: string)
    requires items != []
    ensures var rest := if |items| == 1 then "]" + more else ", " + (PrintItems(items[1..]) + more);
      Closes(rest) && (|items| == 1 ==> rest[1..] == more)
  {
    hide PrintItems;
    assert ("]" + more)[1..] == more;
  }

  lemma ItemsText(items: seq<Doc>, more: string)
    requires items != []
    ensures PrintItems(items) + more ==
      Print(items[0]) + if |items| == 1 then "]" + more else ", " + (PrintItems(items[1..]) + more)
  {
    var first := Print(items[0]);
    hide Print;
    if |items| == 1 {
      Grouped(first, "]", more);
    } else {
      var tail := PrintItems(items[1..]);
      assert PrintItems(items) == first + (", " + tail);
      Grouped(first, ", " + tail, more);
      Grouped(", ", tail, more);
    }
  }

  lemma Grouped(a: string, b: string, c: string)
    ensures a + b + c == a + (b + c)
  {}

  lemma ValuesStep(items: seq<Doc>, before: seq<Json>)
    requires items != []
    ensures before + ValuesOf(items) == before + [ValueOf(items[0])] + ValuesOf(items[1..])
    ensures |items| == 1 ==> before + ValuesOf(items) == before + [ValueOf(items[0])]
  {
    var value, rest := ValueOf(items[0]), ValuesOf(items[1..]);
    assert ValuesOf(items) == [value] + rest;
    assert |items| == 1 ==> items[1..] == [] && rest == [];
    hide ValueOf, ValuesOf;
    assert before + ([value] + rest) == before + [value] + rest;
  }

  lemma CloserStays(s: string)
    requires s != "" && (s[0] == ',' || s[0] == ']' || s[0] == '}')
    ensures SkipSpace(s) == s
  {}

  lemma ItemsStart(items: seq<Doc>, more: string)
    requires items != [] && forall i :: 0 <= i < |items| ==> Readable(items[i])
    ensures StartsValue(PrintItems(items) + more)
  {
    hide *;
    ItemsText(items, more);
    PrintStarts(items[0], if |items| == 1 then "]" + more else ", " + (PrintItems(items[1..]) + more));
  }

  lemma {:induction false} ReadsMembers(members: seq<Member>, before: map<string, Json>, more: string)
    requires members != [] && forall i :: 0 <= i < |members| ==> Readable(members[i].value)
    ensures ReadMembers(PrintMembers(members) + more, before) == Ok(JObject(MembersOf(before, members)), more)
    decreases members, 0
  {
    hide *;
    var k, first := members[0].name, members[0].value;
    var next := before[k := ValueOf(first)];
    var rest := if |members| == 1 then "}" + more else ", " + (PrintMembers(members[1..]) + more);
    MembersText(members, before, more);
    MemberRead(k, first, before, rest);
    if |members| == 1 {
      AfterLast(next, more);
    } else {
      var tail := PrintMembers(members[1..]) + more;
      MembersStart(members[1..], more);
      AfterInner(next, tail);
      ReadsMembers(members[1..], next, more);
    }
  }

  lemma MembersText(members: seq<Member>, before: map<string, Json>, more: string)
    requires members != []
    ensures var first := members[0];
      var rest := if |members| == 1 then "}" + more else ", " + (PrintMembers(members[1..]) + more);
      && PrintMembers(members) + more == Quoted(first.name) + (": " + (Print(first.value) + rest))
      && Closes(rest) && rest != ""
    ensures MembersOf(before, members) == MembersOf(before[members[0].name := ValueOf(members[0].value)], members[1..])
    ensures |members| == 1 ==>
              MembersOf(before, members) == before[members[0].name := ValueOf(members[0].value)]
  {
    var q, v := Quoted(members[0].name), Print(members[0].value);
    var end := if |members| == 1 then "}" else ", " + PrintMembers(members[1..]);
    assert PrintMembers(members) == q + (": " + (v + end));
    assert |members| == 1 ==> members[1..] == [];
    hide Print, Quoted, ValueOf;
    Grouped(q, ": " + (v + end), more);
    Grouped(": ", v + end, more);
    Grouped(v, end, more);
    if |members| > 1 { Grouped(", ", PrintMembers(members[1..]), more); }
  }

  lemma AfterLast(d: map<string, Json>, more: string)
    ensures AfterMember(d, "}" + more) == Ok(JObject(d), more)
  {
    assert ("}" + more)[1..] == more;
  }

  lemma AfterInner(d: map<string, Json>, t: string)
    requires StartsValue(t)
    ensures AfterMember(d, ", " + t) == ReadMembers(t, d)
  {
    assert (", " + t)[1..] == " " + t;
    SkipOne(t);
  }

  lemma {:induction false} MemberRead(k: string, d: Doc, before: map<string, Json>, rest: string)
    requires Readable(d) && rest != "" && Closes(rest)
    ensures ReadMembers(Quoted(k) + (": " + (Print(d) + rest)), before) == AfterMember(before[k := ValueOf(d)], rest)
    decreases d, 2
  {
    hide *;
    var colon := ": " + (Print(d) + rest);
    ReadQuoted(k, colon);
    PrintStarts(d, rest);
    SkipColon(Print(d) + rest);
    ReadsDoc(d, rest);
    MemberStep(Quoted(k) + colon, before, k, colon, ValueOf(d), rest);
  }

  lemma MembersStart(members: seq<Member>, more: string)
    requires members != []
    ensures StartsValue(PrintMembers(members) + more)
  {
    assert Quoted(members[0].name)[0] == '"';
  }

  /** The value that a document starts with, up to what follows it. */
  lemma {:induction false} ReadsDoc(d: Doc, more: string)
    requires Readable(d) && Closes(more)
    ensures ReadValue(Print(d) + more) == Ok(ValueOf(d), more)
    decreases d, 1
  {
    hide ReadValue, Quoted, PrintItems, PrintMembers, ValuesOf, MembersOf, PrintNumber, IsNumber;
    match d
    case TextDoc(text) => ReadQuoted(text, more);
    case NumberDoc(number) => ReadsNumber(number, more);
    case BoolDoc(_) => ReadsWord(d, more);
    case NullDoc => ReadsWord(d, more);
    case ListDoc(items) =>
      if items == [] { ReadsEmptyList(more); } else {
        ReadsItems(items, [], more);
        ReadsList(items, more);
      }
    case ObjectDoc(members) =>
      if members == [] { ReadsEmptyObject(more); } else {
        ReadsMembers(members, map[], more);
        ReadsObject(members, more);
      }
  }

  lemma ReadsEmptyList(more: string)
    ensures ReadValue(Print(ListDoc([])) + more) == Ok(ValueOf(ListDoc([])), more)
  {
    var s := "[]" + more;
    assert Print(ListDoc([])) + more == s && s[1..] == "]" + more && ("]" + more)[1..] == more;
  }

  lemma ReadsEmptyObject(more: string)
    ensures ReadValue(Print(ObjectDoc([])) + more) == Ok(ValueOf(ObjectDoc([])), more)
  {
    var s := "{}" + more;
    assert Print(ObjectDoc([])) + more == s && s[1..] == "}" + more && ("}" + more)[1..] == more;
  }

  lemma ReadsList(items: seq<Doc>, more: string)
    requires items != [] && forall i :: 0 <= i < |items| ==> Readable(items[i])
    ensures ReadValue("[" + PrintItems(items) + more) == ReadItems(PrintItems(items) + more, [])
    ensures [] + ValuesOf(items) == ValuesOf(items)
  {
    hide PrintItems, Readable, ReadItems;
    var t := PrintItems(items) + more;
    ItemsStart(items, more);
    Grouped("[", PrintItems(items), more);
    assert ("[" + t)[1..] == t && SkipSpace(t) == t;
  }

  lemma ReadsObject(members: seq<Member>, more: string)
    requires members != []
    ensures ReadValue("{" + PrintMembers(members) + more) == ReadMembers(PrintMembers(members) + more, map[])
  {
    MembersStart(members, more);
    hide PrintMembers, ReadMembers;
    var t := PrintMembers(members) + more;
    Grouped("{", PrintMembers(members), more);
    assert ("{" + t)[1..] == t && SkipSpace(t) == t;
  }

  /** json.loads reads back every document. */
  lemma LoadsOfDoc(d: Doc)
    requires Readable(d)
    ensures Loads(Print(d)) == Ok(ValueOf(d), "")
  {
    hide ReadValue, Print, ValueOf, Readable;
    assert Print(d) + "" == Print(d);
    ReadsDoc(d, "");
    PrintStarts(d, "");
    FirstIsNoMark(d);
  }

  lemma FirstIsNoMark(d: Doc)
    requires Readable(d)
    ensures Print(d) != "" && Print(d)[0] != '\U{FEFF}'
  {
    if d.NumberDoc? {
      NumberStart(d.number, "");
      assert PrintNumber(d.number) + "" == PrintNumber(d.number);
    }
  }
}
