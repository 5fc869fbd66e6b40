/** JSON text (RFC 8259) as Python's json module reads and writes it: a parser with
    the strictness of json.loads, a two-state lexer for strings, and the printer of
    flat string objects. */
module JsonText {
  import opened Splitting

  datatype Json =
    | JString(text: string)
    | JNumber(digits: string)
    | JBool(value: bool)
    | JNull
    | JArray(items: seq<Json>)
    | JObject(members: map<string, Json>)

  /** A parse result: the value and what follows it, a JSONDecodeError, or the plain
      ValueError that `int` raises for too many digits. */
  datatype Parsed<+T> = Ok(value: T, rest: string) | DecodeError | LongInteger

  /** The most digits that `int` takes. */
  const MAX_DIGITS := 4300

  function Failure<T, U>(r: Parsed<T>): Parsed<U>
    requires !r.Ok?
  {
    if r.DecodeError? then DecodeError else LongInteger
  }

  // The string lexer: only quotes and backslashes matter (RFC 8259, section 7).

  datatype LexState = Outside | Inside | Escaped | Broken

  function LexStep(st: LexState, c: char): LexState {
    match st
    case Outside => if c == '"' then Inside else if c == '\\' then Broken else Outside
    case Inside => if c == '"' then Outside else if c == '\\' then Escaped else Inside
    case Escaped => Inside
    case Broken => Broken
  }

  function Lex(st: LexState, s: string): LexState
    decreases |s|
  {
    if s == "" then st else Lex(LexStep(st, s[0]), s[1..])
  }

  predicate Neutral(c: char) { c != '"' && c != '\\' }

  lemma {:induction false} LexBroken(s: string)
    ensures Lex(Broken, s) == Broken
  {
    if s != "" { LexBroken(s[1..]); }
  }

  lemma {:induction false} LexConcat(st: LexState, a: string, b: string)
    ensures Lex(st, a + b) == Lex(Lex(st, a), b)
    decreases |a|
  {
    if a == "" {
      assert a + b == b;
    } else {
      assert (a + b)[1..] == a[1..] + b;
      LexConcat(LexStep(st, a[0]), a[1..], b);
    }
  }

  /** The parity argument: one text cannot end outside a string both when it is
      read from inside one and when it is read from outside. */
  lemma {:induction false} Parity(s: string)
    ensures !(Lex(Inside, s) == Outside && Lex(Outside, s) == Outside)
  {
    if s != "" {
      if s[0] == '\\' {
        LexBroken(s[1..]);
      } else {
        Parity(s[1..]);
      }
    }
  }

  /** Plain characters do not move the lexer between its two good states. */
  lemma {:induction false} LexNeutral(st: LexState, p: string, s: string)
    requires st == Inside || st == Outside
    requires forall c :: c in p ==> Neutral(c)
    ensures Lex(st, p + s) == Lex(st, s)
    decreases |p|
  {
    if p == "" {
      assert p + s == s;
    } else {
      assert (p + s)[1..] == p[1..] + s && p[0] in p;
      LexNeutral(st, p[1..], s);
    }
  }

  // The parser.

  predicate IsJsonSpace(c: char) { c == ' ' || c == '\t' || c == '\n' || c == '\r' }

  function SkipSpace(s: string): (rest: string)
    ensures |rest| <= |s|
    ensures Lex(Outside, s) == Lex(Outside, rest)
    ensures rest == "" || !IsJsonSpace(rest[0])
  {
    if s != "" && IsJsonSpace(s[0]) then SkipSpace(s[1..]) else s
  }

  function HexDigit(c: char): (d: int)
    ensures -1 <= d < 16
  {
    if '0' <= c <= '9' then c as int - '0' as int
    else if 'a' <= c <= 'f' then c as int - 'a' as int + 10
    else if 'A' <= c <= 'F' then c as int - 'A' as int + 10
    else -1
  }

  predicate IsHex4(s: string) {
    |s| >= 4 && forall i :: 0 <= i < 4 ==> HexDigit(s[i]) >= 0
  }

  function Hex4(s: string): (n: nat)
    requires IsHex4(s)
    ensures n < 0x10000
  {
    ((HexDigit(s[0]) * 16 + HexDigit(s[1])) * 16 + HexDigit(s[2])) * 16 + HexDigit(s[3])
  }

  function CharOf(n: nat): char
    requires n < 0x110000
  {
    if 0xD800 <= n < 0xE000 then '\U{FFFD}' else n as char
  }

  /** One escape, after its backslash: the character and how much was read. A high
      surrogate takes a following low one with it. */
  function ReadEscape(s: string): (r: Parsed<char>)
    ensures !r.LongInteger?
  {
    if s == "" then DecodeError
    else match s[0]
      case '"' => Ok('"', s[1..])
      case '\\' => Ok('\\', s[1..])
      case '/' => Ok('/', s[1..])
      case 'b' => Ok('\U{8}', s[1..])
      case 'f' => Ok('\U{c}', s[1..])
      case 'n' => Ok('\n', s[1..])
      case 'r' => Ok('\r', s[1..])
      case 't' => Ok('\t', s[1..])
      case 'u' =>
        if !IsHex4(s[1..]) then DecodeError
        else
          var high := Hex4(s[1..]);
          if 0xD800 <= high < 0xDC00 && "\\u" <= s[5..] && IsHex4(s[7..]) && 0xDC00 <= Hex4(s[7..]) < 0xE000 then
            Ok(CharOf(0x10000 + (high - 0xD800) * 0x400 + (Hex4(s[7..]) - 0xDC00)), s[11..])
          else Ok(CharOf(high), s[5..])
      case _ => DecodeError
  }

  lemma EscapeLexes(s: string)
    requires ReadEscape(s).Ok?
    ensures |ReadEscape(s).rest| < |s|
    ensures Lex(Inside, "\\" + s) == Lex(Inside, ReadEscape(s).rest)
  {
    var rest := ReadEscape(s).rest;
    assert ("\\" + s)[1..] == s;
    if s[0] == 'u' {
      LexHex4(s[1..]);
      if rest != s[5..] {
        assert s[5..][1..][1..] == s[7..];
        LexHex4(s[7..]);
      }
    }
  }

  lemma LexHex4(s: string)
    requires IsHex4(s)
    ensures Lex(Inside, s) == Lex(Inside, s[4..])
  {
    HexIsNeutral(s);
    assert s == s[..4] + s[4..];
    LexNeutral(Inside, s[..4], s[4..]);
  }

  lemma HexIsNeutral(s: string)
    requires IsHex4(s)
    ensures forall c :: c in s[..4] ==> Neutral(c)
  {}

  /** The characters of a string, after its opening quote. */
  function ReadString(s: string): (r: Parsed<string>)
    ensures r.Ok? ==> |r.rest| < |s| && Lex(Inside, s) == Lex(Outside, r.rest)
    ensures !r.LongInteger?
    decreases |s|
  {
    if s == "" then DecodeError
    else if s[0] == '"' then Ok("", s[1..])
    else if s[0] == '\\' then
      var e := ReadEscape(s[1..]);
      if e.DecodeError? then DecodeError
      else
        EscapeLexes(s[1..]);
        assert "\\" + s[1..] == s;
        var r := ReadString(e.rest);
        if r.DecodeError? then DecodeError else Ok([e.value] + r.value, r.rest)
    else if s[0] < ' ' then DecodeError
    else
      var r := ReadString(s[1..]);
      if r.DecodeError? then DecodeError else Ok([s[0]] + r.value, r.rest)
  }

  /** Where the run of digits that starts at `i` ends. */
  function DigitsEnd(s: string, i: nat): (j: nat)
    requires i <= |s|
    ensures i <= j <= |s| && forall k :: i <= k < j ==> '0' <= s[k] <= '9'
    decreases |s| - i
  {
    if i < |s| && '0' <= s[i] <= '9' then DigitsEnd(s, i + 1) else i
  }

  function WholeEnd(s: string): (j: nat)
    ensures j <= |s| && forall k :: 0 <= k < j ==> Neutral(s[k])
  {
    var i := if s != "" && s[0] == '-' then 1 else 0;
    if i < |s| && s[i] == '0' then i + 1
    else if DigitsEnd(s, i) == i then 0
    else DigitsEnd(s, i)
  }

  function FractionEnd(s: string, i: nat): (j: nat)
    requires i <= |s|
    ensures i <= j <= |s| && forall k :: i <= k < j ==> Neutral(s[k])
  {
    if i < |s| && s[i] == '.' && DigitsEnd(s, i + 1) > i + 1 then DigitsEnd(s, i + 1) else i
  }

  function ExponentEnd(s: string, i: nat): (j: nat)
    requires i <= |s|
    ensures i <= j <= |s| && forall k :: i <= k < j ==> Neutral(s[k])
  {
    if i < |s| && (s[i] == 'e' || s[i] == 'E') then
      var start := if i + 1 < |s| && (s[i + 1] == '+' || s[i + 1] == '-') then i + 2 else i + 1;
      if DigitsEnd(s, start) > start then DigitsEnd(s, start) else i
    else i
  }

  /** The length of the number that `s` starts with, 0 if there is none
      (RFC 8259, section 6). */
  function NumberLength(s: string): (n: nat)
    ensures n <= |s| && forall k :: 0 <= k < n ==> Neutral(s[k])
  {
    var whole := WholeEnd(s);
    if whole == 0 then 0 else ExponentEnd(s, FractionEnd(s, whole))
  }

  predicate Word(w: string) { w != "" && forall k :: 0 <= k < |w| ==> Neutral(w[k]) }

  const WORDS: seq<string> := ["null", "true", "false", "NaN", "Infinity", "-Infinity"]

  function LiteralValue(w: string): Json {
    if w == "null" then JNull
    else if w == "true" then JBool(true)
    else if w == "false" then JBool(false)
    else JNumber(w)
  }

  predicate IsDigit(c: char) { '0' <= c <= '9' }

  predicate AllDigits(s: string) { forall i :: 0 <= i < |s| ==> IsDigit(s[i]) }

  /** An integer, after its sign, of more digits than `int` takes. */
  predicate IsLongInteger(number: string) {
    var digits := if number != "" && number[0] == '-' then number[1..] else number;
    |digits| > MAX_DIGITS && AllDigits(digits)
  }

  /** A literal name or a number. */
  function Literal(s: string): (r: Parsed<Json>)
    ensures r.Ok? ==> exists n :: 0 < n <= |s| && Word(s[..n]) && r.rest == s[n..]
  {
    if WORDS[0] <= s then LiteralOf(s, |WORDS[0]|)
    else if WORDS[1] <= s then LiteralOf(s, |WORDS[1]|)
    else if WORDS[2] <= s then LiteralOf(s, |WORDS[2]|)
    else if NumberLength(s) > 0 then
      if IsLongInteger(s[..NumberLength(s)]) then LongInteger else LiteralOf(s, NumberLength(s))
    else if WORDS[3] <= s then LiteralOf(s, |WORDS[3]|)
    else if WORDS[4] <= s then LiteralOf(s, |WORDS[4]|)
    else if WORDS[5] <= s then LiteralOf(s, |WORDS[5]|)
    else DecodeError
  }

  function LiteralOf(s: string, n: nat): (r: Parsed<Json>)
    requires 0 < n <= |s| && Word(s[..n])
    ensures r.Ok? && r.rest == s[n..]
  {
    Ok(LiteralValue(s[..n]), s[n..])
  }

  lemma LiteralLexes(s: string)
    requires Literal(s).Ok?
    ensures |Literal(s).rest| < |s| && Lex(Outside, s) == Lex(Outside, Literal(s).rest)
  {
    var n :| 0 < n <= |s| && Word(s[..n]) && Literal(s).rest == s[n..];
    LexWord(s, s[..n]);
  }

  lemma LexWord(s: string, word: string)
    requires word <= s && forall c :: c in word ==> Neutral(c)
    ensures Lex(Outside, s) == Lex(Outside, s[|word|..])
  {
    assert s == word + s[|word|..];
    LexNeutral(Outside, word, s[|word|..]);
  }

  function ReadValue(s: string): (r: Parsed<Json>)
    ensures r.Ok? ==> |r.rest| < |s| && Lex(Outside, s) == Lex(Outside, r.rest)
    decreases |s|, 1
  {
    if s == "" then DecodeError
    else if s[0] == '"' then
      var r := ReadString(s[1..]);
      if r.DecodeError? then DecodeError else Ok(JString(r.value), r.rest)
    else if s[0] == '{' then
      var t := SkipSpace(s[1..]);
      if t != "" && t[0] == '}' then Ok(JObject(map[]), t[1..]) else ReadMembers(t, map[])
    else if s[0] == '[' then
      var t := SkipSpace(s[1..]);
      if t != "" && t[0] == ']' then Ok(JArray([]), t[1..]) else ReadItems(t, [])
    else
      var r := Literal(s);
      if !r.Ok? then Failure(r) else LiteralLexes(s); r
  }

  /** Members from a key on; a later value replaces an earlier one of its key. */
  function ReadMembers(s: string, members: map<string, Json>): (r: Parsed<Json>)
    ensures r.Ok? ==> r.value.JObject? && |r.rest| < |s| && Lex(Outside, s) == Lex(Outside, r.rest)
    decreases |s|, 0
  {
    if s == "" || s[0] != '"' then DecodeError
    else
      var key := ReadString(s[1..]);
      if key.DecodeError? then DecodeError
      else
        var colon := SkipSpace(key.rest);
        if colon == "" || colon[0] != ':' then DecodeError
        else
          var value := ReadValue(SkipSpace(colon[1..]));
          if !value.Ok? then Failure(value)
          else
            var t := SkipSpace(value.rest);
            if t == "" then DecodeError
            else if t[0] == '}' then Ok(JObject(members[key.value := value.value]), t[1..])
            else if t[0] == ',' then ReadMembers(SkipSpace(t[1..]), members[key.value := value.value])
            else DecodeError
  }

  function ReadItems(s: string, items: seq<Json>): (r: Parsed<Json>)
    ensures r.Ok? ==> |r.rest| < |s| && Lex(Outside, s) == Lex(Outside, r.rest)
    decreases |s|, 2
  {
    var value := ReadValue(s);
    if !value.Ok? then Failure(value)
    else
      var t := SkipSpace(value.rest);
      if t == "" then DecodeError
      else if t[0] == ']' then Ok(JArray(items + [value.value]), t[1..])
      else if t[0] == ',' then
        ReadItems(SkipSpace(t[1..]), items + [value.value])
      else DecodeError
  }

  /** json.loads */
  function Loads(s: string): (r: Parsed<Json>)
    ensures r.Ok? ==> Lex(Outside, s) == Outside && r.rest == ""
  {
    if s != "" && s[0] == '\U{FEFF}' then DecodeError
    else
      var r := ReadValue(SkipSpace(s));
      if !r.Ok? then Failure(r)
      else if SkipSpace(r.rest) != "" then DecodeError
      else Ok(r.value, "")
  }

  // Where a too long integer can be.

  /** More consecutive digits than `int` takes. */
  predicate HasLongRun(s: string) {
    exists i, j :: 0 <= i <= j <= |s| && j - i > MAX_DIGITS && AllDigits(s[i..j])
  }

  lemma LongRunOfPart(s: string, a: nat, b: nat)
    requires a <= b <= |s| && HasLongRun(s[a..b])
    ensures HasLongRun(s)
  {
    var i, j :| 0 <= i <= j <= b - a && j - i > MAX_DIGITS && AllDigits(s[a..b][i..j]);
    SliceOfSlice(s, a, b, i, j);
  }

  lemma SliceOfSlice(s: string, a: nat, b: nat, i: nat, j: nat)
    requires a <= b <= |s| && i <= j <= b - a
    ensures s[a..b][i..j] == s[a + i..a + j]
  {
    var x, y := s[a..b][i..j], s[a + i..a + j];
    assert |x| == |y| && forall k :: 0 <= k < |x| ==> x[k] == y[k];
  }

  lemma LongRunOfRest(s: string, k: nat)
    requires k <= |s| && HasLongRun(s[k..])
    ensures HasLongRun(s)
  {
    hide HasLongRun;
    assert s[k..] == s[k..|s|];
    LongRunOfPart(s, k, |s|);
  }

  lemma {:induction false} LongRunAfterSpace(s: string)
    requires HasLongRun(SkipSpace(s))
    ensures HasLongRun(s)
  {
    hide HasLongRun;
    if s != "" && IsJsonSpace(s[0]) {
      LongRunAfterSpace(s[1..]);
      LongRunOfRest(s, 1);
    }
  }

  lemma EscapeRest(s: string)
    requires ReadEscape(s).Ok?
    ensures exists k :: 0 <= k <= |s| && ReadEscape(s).rest == s[k..]
  {}

  lemma {:induction false} LongRunAfterString(s: string)
    requires ReadString(s).Ok? && HasLongRun(ReadString(s).rest)
    ensures HasLongRun(s)
    decreases |s|
  {
    hide HasLongRun, ReadEscape, Lex;
    if s[0] == '"' {
      LongRunOfRest(s, 1);
    } else if s[0] == '\\' {
      EscapeRest(s[1..]);
      var e := ReadEscape(s[1..]);
      var k :| 0 <= k <= |s[1..]| && e.rest == s[1..][k..];
      EscapeLexes(s[1..]);
      LongRunAfterString(e.rest);
      LongRunOfRest(s[1..], k);
      LongRunOfRest(s, 1);
    } else {
      LongRunAfterString(s[1..]);
      LongRunOfRest(s, 1);
    }
  }

  lemma LongRunAtLiteral(s: string)
    ensures Literal(s).LongInteger? ==> HasLongRun(s)
    ensures Literal(s).Ok? && HasLongRun(Literal(s).rest) ==> HasLongRun(s)
  {
    hide NumberLength, LiteralValue;
    if Literal(s).LongInteger? {
      var n := NumberLength(s);
      var k := if s[..n][0] == '-' then 1 else 0;
      assert s[..n][k..] == s[k..n];
    } else if Literal(s).Ok? && HasLongRun(Literal(s).rest) {
      var n :| 0 < n <= |s| && Word(s[..n]) && Literal(s).rest == s[n..];
      LongRunOfRest(s, n);
    }
  }

  /** A value raises, or is followed by, a too long integer only where there is one. */
  lemma {:induction false} LongRunAtValue(s: string)
    ensures ReadValue(s).LongInteger? || (ReadValue(s).Ok? && HasLongRun(ReadValue(s).rest)) ==> HasLongRun(s)
    decreases |s|, 1
  {
    hide HasLongRun, Literal, ReadString, ReadMembers, ReadItems, SkipSpace, Lex;
    if s == "" {
    } else if s[0] == '"' {
      if ReadString(s[1..]).Ok? && HasLongRun(ReadString(s[1..]).rest) {
        LongRunAfterString(s[1..]);
        LongRunOfRest(s, 1);
      }
    } else if s[0] == '{' || s[0] == '[' {
      LongRunInBrackets(s);
    } else {
      LongRunAtLiteral(s);
    }
  }

  lemma {:induction false} LongRunInBrackets(s: string)
    requires s != "" && (s[0] == '{' || s[0] == '[')
    ensures ReadValue(s).LongInteger? || (ReadValue(s).Ok? && HasLongRun(ReadValue(s).rest)) ==> HasLongRun(s)
    decreases |s|, 0
  {
    hide HasLongRun, ReadMembers, ReadItems, SkipSpace, Lex;
    var t := SkipSpace(s[1..]);
    if s[0] == '{' { LongRunAtMembers(t, map[]); } else { LongRunAtItems(t, []); }
    if t != "" && HasLongRun(t[1..]) { LongRunOfRest(t, 1); }
    if HasLongRun(t) {
      LongRunAfterSpace(s[1..]);
      LongRunOfRest(s, 1);
    }
  }

  lemma {:induction false} LongRunAtMembers(s: string, members: map<string, Json>)
    ensures var r := ReadMembers(s, members);
      r.LongInteger? || (r.Ok? && HasLongRun(r.rest)) ==> HasLongRun(s)
    decreases |s|, 0
  {
    hide HasLongRun, ReadString, ReadValue, SkipSpace, Lex;
    if s != "" && s[0] == '"' && ReadString(s[1..]).Ok? {
      var key := ReadString(s[1..]);
      var colon := SkipSpace(key.rest);
      if colon != "" && colon[0] == ':' {
        var text := SkipSpace(colon[1..]);
        LongRunAtValue(text);
        if ReadValue(text).Ok? {
          var t := SkipSpace(ReadValue(text).rest);
          if t != "" && t[0] == ',' {
            LongRunAtMembers(SkipSpace(t[1..]), members[key.value := ReadValue(text).value]);
          }
          LongRunBack(ReadValue(text).rest, t);
        }
        if HasLongRun(text) { LongRunAfterSpace(colon[1..]); LongRunOfRest(colon, 1); }
        if HasLongRun(colon) { LongRunAfterSpace(key.rest); LongRunAfterString(s[1..]); LongRunOfRest(s, 1); }
      }
    }
  }

  /** Back from what follows a comma or a bracket to before the white space. */
  lemma LongRunBack(s: string, t: string)
    requires t == SkipSpace(s)
    ensures t != "" && HasLongRun(SkipSpace(t[1..])) ==> HasLongRun(s)
    ensures t != "" && HasLongRun(t[1..]) ==> HasLongRun(s)
  {
    hide HasLongRun, SkipSpace;
    if t != "" {
      if HasLongRun(SkipSpace(t[1..])) { LongRunAfterSpace(t[1..]); }
      if HasLongRun(t[1..]) {
        LongRunOfRest(t, 1);
        LongRunAfterSpace(s);
      }
    }
  }

  lemma {:induction false} LongRunAtItems(s: string, items: seq<Json>)
    ensures var r := ReadItems(s, items);
      r.LongInteger? || (r.Ok? && HasLongRun(r.rest)) ==> HasLongRun(s)
    decreases |s|, 2
  {
    hide HasLongRun, ReadValue, SkipSpace, Lex;
    LongRunAtValue(s);
    if ReadValue(s).Ok? {
      var t := SkipSpace(ReadValue(s).rest);
      if t != "" && t[0] == ',' { LongRunAtItems(SkipSpace(t[1..]), items + [ReadValue(s).value]); }
      LongRunBack(ReadValue(s).rest, t);
    }
  }

  lemma LongRunAtLoads(s: string)
    requires Loads(s).LongInteger?
    ensures HasLongRun(s)
  {
    hide HasLongRun, ReadValue, SkipSpace;
    LongRunAtValue(SkipSpace(s));
    LongRunAfterSpace(s);
  }

  // The printer: json.dumps with indent=2 and ensure_ascii=False, on a flat object.

  function HexChar(n: nat): char
    requires n < 16
  {
    if n < 10 then '0' + n as char else 'a' + (n - 10) as char
  }

  function EscapeChar(c: char): string {
    if c == '"' then "\\\""
    else if c == '\\' then "\\\\"
    else if c == '\n' then "\\n"
    else if c == '\r' then "\\r"
    else if c == '\t' then "\\t"
    else if c == '\U{8}' then "\\b"
    else if c == '\U{c}' then "\\f"
    else if c < ' ' then "\\u00" + [HexChar(c as int / 16), HexChar(c as int % 16)]
    else [c]
  }

  function Escape(s: string): string {
    if s == "" then "" else EscapeChar(s[0]) + Escape(s[1..])
  }

  function Quoted(s: string): string { "\"" + Escape(s) + "\"" }

  type Pairs = seq<(string, string)>

  function PrintPairs(m: Pairs): string
    requires m != []
  {
    Quoted(m[0].0) + ": " + Quoted(m[0].1) + (if |m| == 1 then "\n}" else ",\n  " + PrintPairs(m[1..]))
  }

  /** One pair a line. */
  function PrintObject(m: Pairs): string
    requires m != []
  {
    "{\n  " + PrintPairs(m)
  }

  function DictFrom(d: map<string, Json>, m: Pairs): map<string, Json>
    decreases |m|
  {
    if m == [] then d else DictFrom(d[m[0].0 := JString(m[0].1)], m[1..])
  }

  /** The dictionary that a list of pairs denotes. */
  function Dict(m: Pairs): map<string, Json> { DictFrom(map[], m) }

  // Reading back what was printed.

  lemma ReadEscaped(c: char, s: string)
    requires EscapeChar(c) != [c]
    ensures EscapeChar(c) != "" && EscapeChar(c)[0] == '\\' && ReadEscape(EscapeChar(c)[1..] + s) == Ok(c, s)
  {
    var e := EscapeChar(c)[1..] + s;
    if |EscapeChar(c)| == 2 {
      assert e[1..] == s;
    } else {
      var n := c as int;
      assert EscapeChar(c)[1..] == "u00" + [HexChar(n / 16), HexChar(n % 16)];
      ReadHexEscape(n, s);
    }
  }

  lemma ReadHexEscape(n: nat, s: string)
    requires n < 256
    ensures ReadEscape("u00" + [HexChar(n / 16), HexChar(n % 16)] + s) == Ok(n as char, s)
  {
    hide HexChar, HexDigit;
    var e := "u00" + [HexChar(n / 16), HexChar(n % 16)] + s;
    var h := e[1..];
    assert e[0] == 'u' && e[5..] == s;
    assert h[0] == '0' && h[1] == '0' && h[2] == HexChar(n / 16) && h[3] == HexChar(n % 16);
    HexRoundTrip(0);
    HexRoundTrip(n / 16);
    HexRoundTrip(n % 16);
    HexZero();
    assert IsHex4(h) && Hex4(h) == n;
  }

  lemma HexZero()
    ensures HexChar(0) == '0'
  {}

  lemma HexRoundTrip(n: nat)
    requires n < 16
    ensures HexDigit(HexChar(n)) == n
  {}

  /** Reading one printed character of a string. */
  lemma ReadOneChar(c: char, next: string)
    ensures var r := ReadString(next);
      ReadString(EscapeChar(c) + next) == if r.DecodeError? then DecodeError else Ok([c] + r.value, r.rest)
  {
    hide ReadString, ReadEscape, EscapeChar;
    if EscapeChar(c) == [c] {
      PlainChar(c);
      ReadPlainChar(c, next);
    } else {
      var e := EscapeChar(c);
      ReadEscaped(c, next);
      assert e + next == ['\\'] + (e[1..] + next);
      ReadEscapedChar(e[1..] + next, c, next);
    }
  }

  lemma PlainChar(c: char)
    requires EscapeChar(c) == [c]
    ensures c != '"' && c != '\\' && c >= ' '
  {}

  lemma ReadPlainChar(c: char, next: string)
    requires c != '"' && c != '\\' && c >= ' '
    ensures var r := ReadString(next);
      ReadString([c] + next) == if r.DecodeError? then DecodeError else Ok([c] + r.value, r.rest)
  {
    var t := [c] + next;
    assert t[0] == c && t[1..] == next;
  }

  lemma ReadEscapedChar(e: string, c: char, next: string)
    requires ReadEscape(e) == Ok(c, next)
    ensures var r := ReadString(next);
      ReadString(['\\'] + e) == if r.DecodeError? then DecodeError else Ok([c] + r.value, r.rest)
  {
    hide ReadEscape;
    var t := ['\\'] + e;
    assert t[0] == '\\' && t[1..] == e;
  }

  lemma ReadClosing(s: string)
    ensures ReadString("\"" + s) == Ok("", s)
  {
    assert ("\"" + s)[1..] == s;
  }

  lemma {:induction false} ReadPrinted(v: string, s: string)
    ensures ReadString(Escape(v) + "\"" + s) == Ok(v, s)
    decreases |v|
  {
    hide ReadString, EscapeChar;
    if v == "" {
      assert Escape(v) + "\"" + s == "\"" + s;
      ReadClosing(s);
    } else {
      var next := Escape(v[1..]) + "\"" + s;
      ReadPrinted(v[1..], s);
      ReadOneChar(v[0], next);
      assert Escape(v) + "\"" + s == EscapeChar(v[0]) + next;
      assert [v[0]] + v[1..] == v;
    }
  }

  lemma ReadQuoted(v: string, more: string)
    ensures var t := Quoted(v) + more;
      && t != "" && t[0] == '"' && ReadString(t[1..]) == Ok(v, more)
      && SkipSpace(t) == t
      && ReadValue(t) == Ok(JString(v), more)
  {
    var t := Quoted(v) + more;
    assert t == "\"" + (Escape(v) + "\"" + more);
    assert t[1..] == Escape(v) + "\"" + more;
    ReadPrinted(v, more);
  }

  lemma SkipColon(t: string)
    requires SkipSpace(t) == t
    ensures SkipSpace(": " + t) == ": " + t && (": " + t)[0] == ':'
    ensures SkipSpace((": " + t)[1..]) == t
  {
    assert (": " + t)[1..] == " " + t && (" " + t)[1..] == t;
  }

  /** What ReadMembers does after a member, given what follows it. */
  function AfterMember(d: map<string, Json>, more: string): Parsed<Json> {
    var t := SkipSpace(more);
    if t == "" then DecodeError
    else if t[0] == '}' then Ok(JObject(d), t[1..])
    else if t[0] == ',' then ReadMembers(SkipSpace(t[1..]), d)
    else DecodeError
  }

  lemma MemberStep(t: string, d: map<string, Json>, k: string, colon: string, value: Json, more: string)
    requires t != "" && t[0] == '"' && ReadString(t[1..]) == Ok(k, colon)
    requires colon != "" && colon[0] == ':' && SkipSpace(colon) == colon
    requires ReadValue(SkipSpace(colon[1..])) == Ok(value, more)
    ensures ReadMembers(t, d) == AfterMember(d[k := value], more)
  {}

  /** Reading one printed pair, up to what follows it. */
  lemma ReadOnePair(k: string, v: string, d: map<string, Json>, more: string)
    ensures ReadMembers(Quoted(k) + ": " + Quoted(v) + more, d) == AfterMember(d[k := JString(v)], more)
  {
    hide *;
    var colon := ": " + (Quoted(v) + more);
    var t := Quoted(k) + colon;
    assert Quoted(k) + ": " + Quoted(v) + more == t;
    ReadQuoted(v, more);
    SkipColon(Quoted(v) + more);
    ReadQuoted(k, colon);
    MemberStep(t, d, k, colon, JString(v), more);
  }

  lemma AfterLastMember(d: map<string, Json>, s: string)
    ensures AfterMember(d, "\n}" + s) == Ok(JObject(d), s)
  {
    var a, b := "\n}" + s, "}" + s;
    assert a[1..] == b && b[1..] == s;
    assert SkipSpace(a) == SkipSpace(b) == b;
  }

  lemma AfterInnerMember(d: map<string, Json>, t: string)
    requires t != "" && !IsJsonSpace(t[0])
    ensures AfterMember(d, ",\n  " + t) == ReadMembers(t, d)
  {
    assert (",\n  " + t)[1..] == "\n  " + t;
    SkipIndent(t);
  }

  lemma {:induction false} ReadPrintedPairs(m: Pairs, d: map<string, Json>, s: string)
    requires m != []
    ensures ReadMembers(PrintPairs(m) + s, d) == Ok(JObject(DictFrom(d, m)), s)
    decreases |m|
  {
    var k, v := m[0].0, m[0].1;
    var d' := d[k := JString(v)];
    PrintPairsSplit(m, s);
    if |m| == 1 {
      ReadOnePair(k, v, d, "\n}" + s);
      AfterLastMember(d', s);
      assert DictFrom(d, m) == DictFrom(d', []);
    } else {
      var tail := PrintPairs(m[1..]) + s;
      ReadOnePair(k, v, d, ",\n  " + tail);
      PairsStartWithQuote(m[1..]);
      AfterInnerMember(d', tail);
      ReadPrintedPairs(m[1..], d', s);
    }
  }

  lemma PrintPairsSplit(m: Pairs, s: string)
    requires m != []
    ensures var head := Quoted(m[0].0) + ": " + Quoted(m[0].1);
      PrintPairs(m) + s == head + (if |m| == 1 then "\n}" + s else ",\n  " + (PrintPairs(m[1..]) + s))
  {
    hide Quoted;
    var head := Quoted(m[0].0) + ": " + Quoted(m[0].1);
    if |m| > 1 {
      Regrouped(head, ",\n  ", PrintPairs(m[1..]), s);
    } else {
      assert head + "\n}" + s == head + ("\n}" + s);
    }
  }

  lemma PairsStartWithQuote(m: Pairs)
    requires m != []
    ensures PrintPairs(m) != "" && PrintPairs(m)[0] == '"'
  {
    assert Quoted(m[0].0)[0] == '"';
  }

  lemma SkipIndent(t: string)
    requires t != "" && !IsJsonSpace(t[0])
    ensures SkipSpace("\n  " + t) == t
  {
    var a, b, c := "\n  " + t, "  " + t, " " + t;
    assert a[1..] == b && b[1..] == c && c[1..] == t;
    assert SkipSpace(c) == SkipSpace(t) == t;
    assert SkipSpace(b) == SkipSpace(c);
  }

  lemma ReadPrintedObject(m: Pairs, more: string)
    requires m != []
    ensures ReadValue(PrintObject(m) + more) == Ok(JObject(Dict(m)), more)
    ensures SkipSpace(PrintObject(m) + more) == PrintObject(m) + more
  {
    hide PrintPairs, ReadMembers;
    var s, pairs := PrintObject(m) + more, PrintPairs(m);
    PairsStartWithQuote(m);
    assert s[1..] == "\n  " + (pairs + more);
    SkipIndent(pairs + more);
    ReadPrintedPairs(m, map[], more);
  }

  /** The parser is a left inverse of the printer. */
  lemma LoadsOfPrinted(m: Pairs)
    requires m != []
    ensures Loads(PrintObject(m)) == Ok(JObject(Dict(m)), "")
  {
    hide ReadValue, Dict;
    assert PrintObject(m) + "" == PrintObject(m);
    ReadPrintedObject(m, "");
  }

  /** Anything but white space after the object makes it no JSON text. */
  lemma LoadsWithMore(m: Pairs, more: string)
    requires m != [] && exists i :: 0 <= i < |more| && !IsJsonSpace(more[i])
    ensures Loads(PrintObject(m) + more) == DecodeError
  {
    hide ReadValue, Dict, PrintPairs;
    ReadPrintedObject(m, more);
    var i :| 0 <= i < |more| && !IsJsonSpace(more[i]);
    SkipStops(more, i);
    assert (PrintObject(m) + more)[0] == '{';
  }

  lemma {:induction false} SkipStops(s: string, i: nat)
    requires i < |s| && !IsJsonSpace(s[i])
    ensures SkipSpace(s) != ""
    decreases |s|
  {
    if i > 0 {
      assert s[1..][i - 1] == s[i];
      SkipStops(s[1..], i - 1);
    }
  }

  /** Whatever is read from a brace on is an object. */
  lemma BraceReadsObject(s: string)
    requires s != "" && s[0] == '{' && Loads(s).Ok?
    ensures Loads(s).value.JObject?
  {}

  /** Reading an object with one integer. */
  lemma LoadOneInteger(digits: string)
    requires digits != "" && AllDigits(digits) && digits[0] != '0'
    ensures var r := Loads("{\"k\":" + digits + "}");
      if |digits| > MAX_DIGITS then r.LongInteger? else r.Ok? && r.value.JObject?
  {
    hide Literal, Lex, ReadMembers, ReadString;
    var text, rest := "{\"k\":" + digits + "}", digits + "}";
    var member := "\"k\":" + rest;
    assert text[0] == '{' && text[1..] == member && member[0] == '"' && SkipSpace(member) == member;
    ReadPrinted("k", ":" + rest);
    assert Escape("k") == "k" && member[1..] == Escape("k") + "\"" + (":" + rest);
    LiteralOfDigits(digits, "}");
    MemberOfDigits(member, digits, "k", rest);
    assert SkipSpace("") == "";
  }

  lemma MemberOfDigits(t: string, digits: string, k: string, rest: string)
    requires t != "" && t[0] == '"' && ReadString(t[1..]) == Ok(k, ":" + rest)
    requires digits != "" && AllDigits(digits) && rest == digits + "}"
    requires Literal(rest) == if |digits| > MAX_DIGITS then LongInteger else Ok(JNumber(digits), "}")
    ensures ReadMembers(t, map[]) ==
      if |digits| > MAX_DIGITS then LongInteger else Ok(JObject(map[k := JNumber(digits)]), "")
  {
    hide Literal, Lex, ReadString;
    var colon := ":" + rest;
    assert colon[1..] == rest && rest[0] == digits[0] && IsDigit(digits[0]);
    assert SkipSpace(colon) == colon && SkipSpace(rest) == rest;
    assert "}"[1..] == "" && SkipSpace("}") == "}";
  }

  /** An object whose first value is a too long integer. */
  lemma MemberRaises(t: string, k: string, rest: string)
    requires t != "" && t[0] == '"' && ReadString(t[1..]) == Ok(k, ":" + rest)
    requires rest != "" && IsDigit(rest[0]) && Literal(rest) == LongInteger
    ensures Loads("{" + t) == LongInteger
  {
    hide Literal, Lex, ReadString;
    var colon, text := ":" + rest, "{" + t;
    assert colon[1..] == rest && SkipSpace(colon) == colon && SkipSpace(rest) == rest;
    assert ReadValue(rest) == LongInteger;
    assert ReadMembers(t, map[]) == LongInteger;
    assert text[0] == '{' && text[1..] == t && SkipSpace(t) == t && SkipSpace(text) == text;
    assert ReadValue(text) == LongInteger;
  }

  lemma LiteralOfDigits(digits: string, rest: string)
    requires digits != "" && AllDigits(digits) && digits[0] != '0'
    requires rest != "" && !IsDigit(rest[0]) && rest[0] != '.' && rest[0] != 'e' && rest[0] != 'E'
    ensures Literal(digits + rest) == if |digits| > MAX_DIGITS then LongInteger else Ok(JNumber(digits), rest)
  {
    var s := digits + rest;
    DigitsToEnd(digits, rest, 0);
    assert IsDigit(s[0]) && NumberLength(s) == |digits| && s[..|digits|] == digits && s[|digits|..] == rest;
    NoWordFirst(s);
    assert LiteralValue(digits) == JNumber(digits) by {
      assert digits[0] != 'n' && digits[0] != 't' && digits[0] != 'f';
    }
  }

  lemma NoWordFirst(s: string)
    requires s != "" && IsDigit(s[0])
    ensures !(WORDS[0] <= s) && !(WORDS[1] <= s) && !(WORDS[2] <= s)
  {}

  lemma {:induction false} DigitsToEnd(digits: string, rest: string, i: nat)
    requires AllDigits(digits) && i <= |digits| && rest != "" && !IsDigit(rest[0])
    ensures DigitsEnd(digits + rest, i) == |digits|
    decreases |digits| - i
  {
    if i < |digits| {
      assert (digits + rest)[i] == digits[i];
      DigitsToEnd(digits, rest, i + 1);
    }
  }
}
