/**
 * The lexical budget check in front of the JSON decoder, against the JSON
 * grammar itself (sections 2 to 7 of RFC 8259).
 */
module JsonBounds {
  const MAX_INPUT_BYTES: nat := 65_536
  const MAX_DEPTH: nat := 32

  /** Bytes of the UTF-8 text, one per char. */
  type Text = string

  // ------------------------------------------------------------------ grammar

  /** One unit between the quotes of a string; an unescaped byte is any but the quote and the backslash. */
  datatype StringUnit =
    | Plain(byte: char)
    | Escape(letter: char)
    | Unicode(digits: Text)

  /** A JSON text with every choice its printing made: whitespace, escapes, number spelling. */
  datatype Json =
    | Scalar(text: Text)
    | Str(units: seq<StringUnit>)
    | Array(open: Text, elements: seq<Json>, separators: seq<Text>)
    | Object(open: Text, members: seq<Member>, separators: seq<Text>)

  /** `"name" ws : ws value` */
  datatype Member = Member(name: seq<StringUnit>, colon: Text, value: Json)

  predicate IsSpace(t: Text) {
    forall i :: 0 <= i < |t| ==> t[i] in " \t\n\r"
  }

  /** Whitespace with exactly one `mark` in it. */
  predicate IsSeparator(t: Text, mark: char) {
    exists i :: 0 <= i < |t| && t[i] == mark && IsSpace(t[..i]) && IsSpace(t[i + 1..])
  }

  predicate IsNumberByte(c: char) {
    '0' <= c <= '9' || c in "+-.eE"
  }

  /** Every literal name, and every spelling over the alphabet of numbers. */
  predicate IsScalarText(t: Text) {
    t == "true" || t == "false" || t == "null" || (forall i :: 0 <= i < |t| ==> IsNumberByte(t[i]))
  }

  predicate IsUnit(u: StringUnit) {
    match u
    case Plain(byte) => byte != '"' && byte != '\\'
    case Escape(letter) => letter in "\"\\/bfnrt"
    case Unicode(digits) => |digits| == 4 && forall i :: 0 <= i < 4 ==> IsHexDigit(digits[i])
  }

  predicate IsHexDigit(c: char) {
    '0' <= c <= '9' || 'a' <= c <= 'f' || 'A' <= c <= 'F'
  }

  predicate AreUnits(us: seq<StringUnit>) {
    us != [] ==> IsUnit(us[0]) && AreUnits(us[1..])
  }

  /**
   * The grammar of section 2: `open` is the space after the opening bracket;
   * separator `i` stands after element `i`, a comma with its surrounding space,
   * or just space after the last one.
   */
  predicate IsJson(v: Json) {
    match v
    case Scalar(text) => IsScalarText(text)
    case Str(units) => AreUnits(units)
    case Array(open, elements, separators) =>
      IsSpace(open) && |separators| == |elements| && AreElements(elements, separators)
    case Object(open, members, separators) =>
      IsSpace(open) && |separators| == |members| && AreMembers(members, separators)
  }

  predicate IsTail(separator: Text, last: bool) {
    if last then IsSpace(separator) else IsSeparator(separator, ',')
  }

  predicate AreElements(vs: seq<Json>, separators: seq<Text>)
    requires |separators| == |vs|
    decreases vs
  {
    vs != [] ==> IsJson(vs[0]) && IsTail(separators[0], |vs| == 1) && AreElements(vs[1..], separators[1..])
  }

  predicate AreMembers(ms: seq<Member>, separators: seq<Text>)
    requires |separators| == |ms|
    decreases ms
  {
    ms != [] ==>
      && AreUnits(ms[0].name) && IsSeparator(ms[0].colon, ':') && IsJson(ms[0].value)
      && IsTail(separators[0], |ms| == 1) && AreMembers(ms[1..], separators[1..])
  }

  // ----------------------------------------------------------------- printing

  function PrintUnit(u: StringUnit): Text {
    match u
    case Plain(byte) => [byte]
    case Escape(letter) => ['\\', letter]
    case Unicode(digits) => "\\u" + digits
  }

  function PrintUnits(us: seq<StringUnit>): Text {
    if us == [] then [] else PrintUnit(us[0]) + PrintUnits(us[1..])
  }

  function Quoted(us: seq<StringUnit>): Text {
    "\"" + PrintUnits(us) + "\""
  }

  function Print(v: Json): Text {
    match v
    case Scalar(text) => text
    case Str(units) => Quoted(units)
    case Array(open, elements, separators) => "[" + (open + PrintElements(elements, separators)) + "]"
    case Object(open, members, separators) => "{" + (open + PrintMembers(members, separators)) + "}"
  }

  function PrintElements(vs: seq<Json>, separators: seq<Text>): Text
    decreases vs
  {
    if vs == [] || separators == [] then [] else Print(vs[0]) + separators[0] + PrintElements(vs[1..], separators[1..])
  }

  function PrintMembers(ms: seq<Member>, separators: seq<Text>): Text
    decreases ms
  {
    if ms == [] || separators == [] then []
    else Quoted(ms[0].name) + ms[0].colon + Print(ms[0].value) + separators[0]
         + PrintMembers(ms[1..], separators[1..])
  }

  function Max(a: nat, b: nat): nat {
    if a < b then b else a
  }

  /** How deeply arrays and objects nest. */
  function Nesting(v: Json): nat {
    match v
    case Scalar(_) => 0
    case Str(_) => 0
    case Array(_, elements, _) => 1 + DeepestElement(elements)
    case Object(_, members, _) => 1 + DeepestMember(members)
  }

  function DeepestElement(vs: seq<Json>): nat
    decreases vs
  {
    if vs == [] then 0 else Max(Nesting(vs[0]), DeepestElement(vs[1..]))
  }

  function DeepestMember(ms: seq<Member>): nat
    decreases ms
  {
    if ms == [] then 0 else Max(Nesting(ms[0].value), DeepestMember(ms[1..]))
  }

  // ------------------------------------------------------------------ scanner

  /** `Refused` once the scan has failed. */
  datatype ScanState = Scanning(depth: nat, quoted: bool, escaped: bool) | Refused

  /** One byte of the loop. */
  function Advance(s: ScanState, byte: char): ScanState {
    if s.Refused? then Refused
    else if s.quoted then
      if s.escaped then s.(escaped := false)
      else if byte == '\\' then s.(escaped := true)
      else if byte == '"' then s.(quoted := false)
      else s
    else if byte == '"' then s.(quoted := true)
    else if byte == '[' || byte == '{' then
      if s.depth == MAX_DEPTH then Refused else s.(depth := s.depth + 1)
    else if byte == ']' || byte == '}' then
      if s.depth == 0 then Refused else s.(depth := s.depth - 1)
    else s
  }

  function Scan(s: ScanState, t: Text): ScanState
    decreases |t|
  {
    if t == [] then s else Advance(Scan(s, t[..|t| - 1]), t[|t| - 1])
  }

  predicate Accepts(t: Text) {
    |t| <= MAX_INPUT_BYTES
    && var s := Scan(Scanning(0, false, false), t);
       s.Scanning? && s.depth == 0 && !s.quoted
  }

  lemma {:induction false} RefusedStaysRefused(t: Text)
    ensures Scan(Refused, t) == Refused
    decreases |t|
  {
    if t != [] {
      RefusedStaysRefused(t[..|t| - 1]);
    }
  }

  lemma {:induction false} ScanOfConcat(s: ScanState, a: Text, b: Text)
    ensures Scan(s, a + b) == Scan(Scan(s, a), b)
    decreases |b|
  {
    if b == [] {
      assert a + b == a;
    } else {
      assert (a + b)[..|a + b| - 1] == a + b[..|b| - 1];
      ScanOfConcat(s, a, b[..|b| - 1]);
    }
  }

  lemma ScanOfByte(s: ScanState, c: char)
    ensures Scan(s, [c]) == Advance(s, c)
  {
    assert [c][..0] == [];
  }

  /** The byte loop of the original, run to its verdict. */
  method CheckBounds(input: Text) returns (ok: bool)
    ensures ok <==> Accepts(input)
  {
    if |input| > MAX_INPUT_BYTES {
      return false;
    }
    var depth, quoted, escaped := 0, false, false;
    for i := 0 to |input|
      invariant 0 <= depth <= MAX_DEPTH
      invariant Scan(Scanning(0, false, false), input[..i]) == Scanning(depth, quoted, escaped)
    {
      assert input[..i + 1][..i] == input[..i];
      ghost var before := Scanning(depth, quoted, escaped);
      var byte := input[i];
      if quoted {
        if escaped {
          escaped := false;
        } else if byte == '\\' {
          escaped := true;
        } else if byte == '"' {
          quoted := false;
        }
      } else if byte == '"' {
        quoted := true;
      } else if byte == '[' || byte == '{' {
        if depth == MAX_DEPTH {
          RefusalIsFinal(input, i + 1);
          return false;
        }
        depth := depth + 1;
      } else if byte == ']' || byte == '}' {
        if depth == 0 {
          RefusalIsFinal(input, i + 1);
          return false;
        }
        depth := depth - 1;
      }
      assert Scan(Scanning(0, false, false), input[..i + 1]) == Advance(before, byte);
    }
    assert input[..|input|] == input;
    return depth == 0 && !quoted;
  }

  lemma RefusalIsFinal(t: Text, n: nat)
    requires n <= |t| && Scan(Scanning(0, false, false), t[..n]) == Refused
    ensures Scan(Scanning(0, false, false), t) == Refused
  {
    assert t == t[..n] + t[n..];
    ScanOfConcat(Scanning(0, false, false), t[..n], t[n..]);
    RefusedStaysRefused(t[n..]);
  }

  // ---------------------------------------------------- scanning printed JSON

  predicate IsQuiet(c: char) {
    c != '"' && c != '[' && c != ']' && c != '{' && c != '}'
  }

  /** Outside strings, bytes that are neither brackets nor quotes change nothing. */
  lemma {:induction false} QuietBytesChangeNothing(d: nat, t: Text)
    requires forall i :: 0 <= i < |t| ==> IsQuiet(t[i])
    ensures Scan(Scanning(d, false, false), t) == Scanning(d, false, false)
    decreases |t|
  {
    if t != [] {
      QuietBytesChangeNothing(d, t[..|t| - 1]);
    }
  }

  lemma SeparatorIsQuiet(t: Text, mark: char)
    requires IsSeparator(t, mark) && IsQuiet(mark)
    ensures forall i :: 0 <= i < |t| ==> IsQuiet(t[i])
  {
    var k :| 0 <= k < |t| && t[k] == mark && IsSpace(t[..k]) && IsSpace(t[k + 1..]);
    forall i | 0 <= i < |t| ensures IsQuiet(t[i]) {
      if i < k {
        assert t[..k][i] == t[i];
      } else if i > k {
        assert t[k + 1..][i - k - 1] == t[i];
      }
    }
  }

  lemma TailIsQuiet(separator: Text, last: bool)
    requires IsTail(separator, last)
    ensures forall i :: 0 <= i < |separator| ==> IsQuiet(separator[i])
  {
    if !last {
      SeparatorIsQuiet(separator, ',');
    }
  }

  lemma ScalarIsQuiet(t: Text)
    requires IsScalarText(t)
    ensures forall i :: 0 <= i < |t| ==> IsQuiet(t[i])
  {
  }

  lemma {:induction false} InsideBytesChangeNothing(d: nat, t: Text)
    requires forall i :: 0 <= i < |t| ==> t[i] != '"' && t[i] != '\\'
    ensures Scan(Scanning(d, true, false), t) == Scanning(d, true, false)
    decreases |t|
  {
    if t != [] {
      InsideBytesChangeNothing(d, t[..|t| - 1]);
    }
  }

  /** An escape hides its letter, whichever it is: quotes and backslashes included. */
  lemma UnitStaysInside(d: nat, u: StringUnit)
    requires IsUnit(u)
    ensures Scan(Scanning(d, true, false), PrintUnit(u)) == Scanning(d, true, false)
  {
    match u
    case Plain(byte) =>
      ScanOfByte(Scanning(d, true, false), byte);
    case Escape(letter) =>
      EscapePairStaysInside(d, letter);
    case Unicode(digits) =>
      EscapePairStaysInside(d, 'u');
      ScanOfConcat(Scanning(d, true, false), "\\u", digits);
      InsideBytesChangeNothing(d, digits);
  }

  lemma EscapePairStaysInside(d: nat, letter: char)
    ensures Scan(Scanning(d, true, false), ['\\', letter]) == Scanning(d, true, false)
  {
    assert ['\\', letter] == ['\\'] + [letter];
    ScanOfConcat(Scanning(d, true, false), ['\\'], [letter]);
    ScanOfByte(Scanning(d, true, false), '\\');
    ScanOfByte(Scanning(d, true, true), letter);
  }

  lemma {:induction false} UnitsStayInside(d: nat, us: seq<StringUnit>)
    requires AreUnits(us)
    ensures Scan(Scanning(d, true, false), PrintUnits(us)) == Scanning(d, true, false)
  {
    if us != [] {
      UnitStaysInside(d, us[0]);
      ScanOfConcat(Scanning(d, true, false), PrintUnit(us[0]), PrintUnits(us[1..]));
      UnitsStayInside(d, us[1..]);
    }
  }

  /** A string with any escapes leaves the scanner where it was. */
  lemma StringChangesNothing(d: nat, us: seq<StringUnit>)
    requires AreUnits(us)
    ensures Scan(Scanning(d, false, false), Quoted(us)) == Scanning(d, false, false)
  {
    ScanOfConcat(Scanning(d, false, false), "\"" + PrintUnits(us), "\"");
    ScanOfConcat(Scanning(d, false, false), "\"", PrintUnits(us));
    ScanOfByte(Scanning(d, false, false), '"');
    UnitsStayInside(d, us);
    ScanOfByte(Scanning(d, true, false), '"');
  }

  /** Where scanning a value of the given nesting ends up. */
  function Outcome(d: nat, nesting: nat): ScanState {
    if d + nesting <= MAX_DEPTH then Scanning(d, false, false) else Refused
  }

  /** Two parts in a row: the scan survives both or is refused. */
  lemma TwoParts(d: nat, a: Text, b: Text, na: nat, nb: nat)
    requires d <= MAX_DEPTH
    requires Scan(Scanning(d, false, false), a) == Outcome(d, na)
    requires Scan(Scanning(d, false, false), b) == Outcome(d, nb)
    ensures Scan(Scanning(d, false, false), a + b) == Outcome(d, Max(na, nb))
  {
    ScanOfConcat(Scanning(d, false, false), a, b);
    RefusedStaysRefused(b);
  }

  lemma BracketsAddOne(d: nat, open: char, inner: Text, close: char, n: nat)
    requires d <= MAX_DEPTH
    requires (open == '[' && close == ']') || (open == '{' && close == '}')
    requires d < MAX_DEPTH ==> Scan(Scanning(d + 1, false, false), inner) == Outcome(d + 1, n)
    ensures Scan(Scanning(d, false, false), [open] + inner + [close]) == Outcome(d, 1 + n)
  {
    var s := Scanning(d, false, false);
    ScanOfConcat(s, [open] + inner, [close]);
    ScanOfConcat(s, [open], inner);
    ScanOfByte(s, open);
    RefusedStaysRefused(inner);
    RefusedStaysRefused([close]);
    ScanOfByte(Scanning(d + 1, false, false), close);
  }

  lemma BracketsAround(d: nat, open: char, space: Text, body: Text, close: char, n: nat)
    requires d <= MAX_DEPTH && IsSpace(space)
    requires (open == '[' && close == ']') || (open == '{' && close == '}')
    requires d < MAX_DEPTH ==> Scan(Scanning(d + 1, false, false), body) == Outcome(d + 1, n)
    ensures Scan(Scanning(d, false, false), [open] + (space + body) + [close]) == Outcome(d, 1 + n)
  {
    if d < MAX_DEPTH {
      QuietBytesChangeNothing(d + 1, space);
      TwoParts(d + 1, space, body, 0, n);
    }
    BracketsAddOne(d, open, space + body, close, n);
  }

  lemma {:induction false} ElementsScan(d: nat, vs: seq<Json>, separators: seq<Text>)
    requires d <= MAX_DEPTH && |separators| == |vs| && AreElements(vs, separators)
    ensures Scan(Scanning(d, false, false), PrintElements(vs, separators)) == Outcome(d, DeepestElement(vs))
    decreases vs, 0
  {
    if vs != [] {
      ValueScans(d, vs[0]);
      TailIsQuiet(separators[0], |vs| == 1);
      QuietBytesChangeNothing(d, separators[0]);
      TwoParts(d, Print(vs[0]), separators[0], Nesting(vs[0]), 0);
      ElementsScan(d, vs[1..], separators[1..]);
      TwoParts(d, Print(vs[0]) + separators[0], PrintElements(vs[1..], separators[1..]),
               Nesting(vs[0]), DeepestElement(vs[1..]));
    }
  }

  lemma {:induction false} MembersScan(d: nat, ms: seq<Member>, separators: seq<Text>)
    requires d <= MAX_DEPTH && |separators| == |ms| && AreMembers(ms, separators)
    ensures Scan(Scanning(d, false, false), PrintMembers(ms, separators)) == Outcome(d, DeepestMember(ms))
    decreases ms, 0
  {
    if ms != [] {
      var m := ms[0];
      StringChangesNothing(d, m.name);
      SeparatorIsQuiet(m.colon, ':');
      QuietBytesChangeNothing(d, m.colon);
      TwoParts(d, Quoted(m.name), m.colon, 0, 0);
      ValueScans(d, m.value);
      TwoParts(d, Quoted(m.name) + m.colon, Print(m.value), 0, Nesting(m.value));
      TailIsQuiet(separators[0], |ms| == 1);
      QuietBytesChangeNothing(d, separators[0]);
      TwoParts(d, Quoted(m.name) + m.colon + Print(m.value), separators[0], Nesting(m.value), 0);
      MembersScan(d, ms[1..], separators[1..]);
      TwoParts(d, Quoted(m.name) + m.colon + Print(m.value) + separators[0],
               PrintMembers(ms[1..], separators[1..]), Nesting(m.value), DeepestMember(ms[1..]));
    }
  }

  /** From depth `d`, any printing of a value returns to `d`, or is refused exactly when it nests too deep. */
  lemma {:induction false} ValueScans(d: nat, v: Json)
    requires d <= MAX_DEPTH && IsJson(v)
    ensures Scan(Scanning(d, false, false), Print(v)) == Outcome(d, Nesting(v))
    decreases v, 1
  {
    match v
    case Scalar(text) =>
      ScalarIsQuiet(text);
      QuietBytesChangeNothing(d, text);
    case Str(units) =>
      StringChangesNothing(d, units);
    case Array(open, elements, separators) =>
      if d < MAX_DEPTH {
        ElementsScan(d + 1, elements, separators);
      }
      BracketsAround(d, '[', open, PrintElements(elements, separators), ']', DeepestElement(elements));
    case Object(open, members, separators) =>
      if d < MAX_DEPTH {
        MembersScan(d + 1, members, separators);
      }
      BracketsAround(d, '{', open, PrintMembers(members, separators), '}', DeepestMember(members));
  }

  /**
   * A JSON text, with any space around it and any printing of its value, is
   * accepted exactly when it is short enough and nests at most 32 deep.
   */
  lemma AcceptsExactlyBoundedJson(leading: Text, v: Json, trailing: Text)
    requires IsSpace(leading) && IsJson(v) && IsSpace(trailing)
    ensures var t := leading + Print(v) + trailing;
            Accepts(t) <==> |t| <= 65_536 && Nesting(v) <= 32
  {
    QuietBytesChangeNothing(0, leading);
    ValueScans(0, v);
    QuietBytesChangeNothing(0, trailing);
    TwoParts(0, leading, Print(v), 0, Nesting(v));
    TwoParts(0, leading + Print(v), trailing, Nesting(v), 0);
  }
}
