/** The part of JSON (RFC 8259) the application writes: `JSON.stringify` of flat objects whose
    members are strings, booleans or null, with members whose value is `undefined` left out,
    and a parser for that text that recovers the object, so that what is written can be read
    back exactly. */
module Json {
  import opened Wrappers
  import Hex

  datatype Value = JStr(str: string) | JBool(truth: bool) | JNull

  /** A member of an object: its key and its value, in the order the object literal lists them. */
  type Member = (string, Value)

  /** How `JSON.stringify` writes one character inside a string literal (QuoteJSONString in
      ECMAScript): the two-character escapes for the quote, the backslash, backspace, tab,
      line feed, form feed and carriage return; `\u00xx` with lowercase digits for the other
      control characters; the character itself otherwise. */
  function EscapeChar(c: char): (r: string)
    ensures 1 <= |r|
  {
    if c == '"' then ['\\', '"']
    else if c == '\\' then ['\\', '\\']
    else if c as int == 0x08 then ['\\', 'b']
    else if c == '\t' then ['\\', 't']
    else if c == '\n' then ['\\', 'n']
    else if c as int == 0x0C then ['\\', 'f']
    else if c == '\r' then ['\\', 'r']
    else if (c as int) < 0x20 then ['\\', 'u', '0', '0', Hex.Digit(c as int / 16), Hex.Digit(c as int % 16)]
    else [c]
  }

  function Escape(s: string): string {
    if s == [] then [] else EscapeChar(s[0]) + Escape(s[1..])
  }

  /** A string value as JSON text. */
  function Quote(s: string): string {
    ['"'] + Escape(s) + ['"']
  }

  /** A character that `JSON.stringify` writes as itself. */
  predicate IsPlain(c: char) {
    c as int >= 0x20 && c != '"' && c != '\\'
  }

  /** A string of plain characters is written between quotes as it is. */
  lemma {:induction false} EscapePlain(s: string)
    requires forall i :: 0 <= i < |s| ==> IsPlain(s[i])
    ensures Escape(s) == s
  {
    if s != [] {
      EscapePlain(s[1..]);
      assert [s[0]] + s[1..] == s;
    }
  }

  function ValueText(v: Value): string {
    match v
    case JStr(s) => Quote(s)
    case JBool(b) => if b then "true" else "false"
    case JNull => "null"
  }

  function MemberText(m: Member): string {
    Quote(m.0) + [':'] + ValueText(m.1)
  }

  function MembersText(ms: seq<Member>): string {
    if ms == [] then []
    else if |ms| == 1 then MemberText(ms[0])
    else MemberText(ms[0]) + [','] + MembersText(ms[1..])
  }

  /** `JSON.stringify` of a flat object: members in order, no white space. */
  function Stringify(ms: seq<Member>): string {
    ['{'] + MembersText(ms) + ['}']
  }

  /** The members an object literal keeps once written: those whose value is `undefined`
      (here None) are dropped, the order of the rest is kept. */
  function Defined(fields: seq<(string, Option<Value>)>): (ms: seq<Member>)
    ensures |ms| <= |fields|
  {
    if fields == [] then []
    else match fields[0].1
      case None => Defined(fields[1..])
      case Some(v) => [(fields[0].0, v)] + Defined(fields[1..])
  }

  /** The value `JSON.parse` gives a key: that of the LAST member with the key. */
  function Lookup(ms: seq<Member>, key: string): Option<Value> {
    if ms == [] then None
    else match Lookup(ms[1..], key)
      case Some(v) => Some(v)
      case None => if ms[0].0 == key then Some(ms[0].1) else None
  }

  /** The value an object literal gives a key it lists once: None when the key is not listed
      or its value is `undefined`. */
  function FieldValue(fields: seq<(string, Option<Value>)>, key: string): Option<Value> {
    if fields == [] then None
    else if fields[0].0 == key then fields[0].1
    else FieldValue(fields[1..], key)
  }

  predicate DistinctKeys(fields: seq<(string, Option<Value>)>) {
    forall i, j :: 0 <= i < j < |fields| ==> fields[i].0 != fields[j].0
  }

  /** Once written and read back, every key of a literal with distinct keys has the value the
      literal gave it, and a key whose value was `undefined` is absent. */
  lemma {:induction false} LookupDefined(fields: seq<(string, Option<Value>)>, key: string)
    requires DistinctKeys(fields)
    ensures Lookup(Defined(fields), key) == FieldValue(fields, key)
  {
    if fields != [] {
      var rest := fields[1..];
      assert DistinctKeys(rest) by {
        forall i, j | 0 <= i < j < |rest| ensures rest[i].0 != rest[j].0 {
          assert rest[i] == fields[i + 1] && rest[j] == fields[j + 1];
        }
      }
      LookupDefined(rest, key);
      if fields[0].0 == key {
        AbsentKey(rest, key);
      }
      if fields[0].1.Some? {
        assert Defined(fields)[1..] == Defined(rest);
      }
    }
  }

  lemma {:induction false} AbsentKey(fields: seq<(string, Option<Value>)>, key: string)
    requires forall i :: 0 <= i < |fields| ==> fields[i].0 != key
    ensures FieldValue(fields, key) == None
  {
    if fields != [] {
      AbsentKey(fields[1..], key);
    }
  }

  predicate UniqueKeys(ms: seq<Member>) {
    forall i, j :: 0 <= i < j < |ms| ==> ms[i].0 != ms[j].0
  }

  lemma {:induction false} LookupAbsent(ms: seq<Member>, key: string)
    requires forall i :: 0 <= i < |ms| ==> ms[i].0 != key
    ensures Lookup(ms, key) == None
  {
    if ms != [] {
      LookupAbsent(ms[1..], key);
    }
  }

  /** In an object whose keys are distinct, each key reads as its own member's value. */
  lemma {:induction false} LookupUnique(ms: seq<Member>, i: nat)
    requires UniqueKeys(ms) && i < |ms|
    ensures Lookup(ms, ms[i].0) == Some(ms[i].1)
  {
    var rest := ms[1..];
    if i == 0 {
      LookupAbsent(rest, ms[0].0);
    } else {
      assert UniqueKeys(rest) by {
        forall a, b | 0 <= a < b < |rest| ensures rest[a].0 != rest[b].0 {
          assert rest[a] == ms[a + 1] && rest[b] == ms[b + 1];
        }
      }
      assert rest[i - 1] == ms[i];
      LookupUnique(rest, i - 1);
    }
  }

  lemma {:induction false} FieldValueAt(fields: seq<(string, Option<Value>)>, i: nat)
    requires DistinctKeys(fields) && i < |fields|
    ensures FieldValue(fields, fields[i].0) == fields[i].1
  {
    if i > 0 {
      var rest := fields[1..];
      assert DistinctKeys(rest) by {
        forall a, b | 0 <= a < b < |rest| ensures rest[a].0 != rest[b].0 {
          assert rest[a] == fields[a + 1] && rest[b] == fields[b + 1];
        }
      }
      assert rest[i - 1] == fields[i];
      FieldValueAt(rest, i - 1);
    }
  }

  function Keys(ms: seq<Member>): seq<string> {
    if ms == [] then [] else [ms[0].0] + Keys(ms[1..])
  }

  // ---------------------------------------------------------------- reading the text back

  /** Reads the escape after a backslash: the character it stands for and how many characters
      it used. A `\u` escape naming a surrogate half is refused, since no `char` holds one. */
  function ParseEscape(t: string): (r: Option<(char, nat)>)
    ensures r.Some? ==> 1 <= r.value.1 <= |t|
  {
    if |t| == 0 then None
    else if t[0] == '"' then Some(('"', 1))
    else if t[0] == '\\' then Some(('\\', 1))
    else if t[0] == '/' then Some(('/', 1))
    else if t[0] == 'b' then Some((8 as char, 1))
    else if t[0] == 'f' then Some((12 as char, 1))
    else if t[0] == 'n' then Some(('\n', 1))
    else if t[0] == 'r' then Some(('\r', 1))
    else if t[0] == 't' then Some(('\t', 1))
    else if t[0] == 'u' && |t| >= 5 && Hex.IsHexDigit(t[1]) && Hex.IsHexDigit(t[2])
         && Hex.IsHexDigit(t[3]) && Hex.IsHexDigit(t[4]) then
      var n := Hex.DigitValue(t[1]) * 4096 + Hex.DigitValue(t[2]) * 256
             + Hex.DigitValue(t[3]) * 16 + Hex.DigitValue(t[4]);
      if 0xD800 <= n < 0xE000 then None else Some((n as char, 5))
    else None
  }

  /** Reads the characters of a string literal whose opening quote is already consumed, up to
      and including the closing quote; returns the string and the text after it. */
  function ParseChars(s: string): (r: Option<(string, string)>)
    ensures r.Some? ==> |r.value.1| < |s|
    decreases |s|
  {
    if |s| == 0 then None
    else if s[0] == '"' then Some(([], s[1..]))
    else if s[0] == '\\' then
      match ParseEscape(s[1..])
      case None => None
      case Some((c, k)) =>
        match ParseChars(s[1 + k..])
        case None => None
        case Some((body, rest)) => Some(([c] + body, rest))
    else if (s[0] as int) < 0x20 then None
    else
      match ParseChars(s[1..])
      case None => None
      case Some((body, rest)) => Some(([s[0]] + body, rest))
  }

  function ParseValue(s: string): (r: Option<(Value, string)>)
    ensures r.Some? ==> |r.value.1| < |s|
  {
    if |s| > 0 && s[0] == '"' then
      match ParseChars(s[1..])
      case None => None
      case Some((str, rest)) => Some((JStr(str), rest))
    else if |s| >= 4 && s[..4] == "true" then Some((JBool(true), s[4..]))
    else if |s| >= 5 && s[..5] == "false" then Some((JBool(false), s[5..]))
    else if |s| >= 4 && s[..4] == "null" then Some((JNull, s[4..]))
    else None
  }

  /** Reads one `"key":value` member. */
  function ParseMember(s: string): (r: Option<(Member, string)>)
    ensures r.Some? ==> |r.value.1| < |s|
  {
    if |s| == 0 || s[0] != '"' then None
    else match ParseChars(s[1..])
      case None => None
      case Some((key, r1)) =>
        if |r1| == 0 || r1[0] != ':' then None
        else match ParseValue(r1[1..])
          case None => None
          case Some((v, r2)) => Some(((key, v), r2))
  }

  /** Reads members separated by commas, up to and including the closing brace. */
  function ParseMembers(s: string): (r: Option<(seq<Member>, string)>)
    ensures r.Some? ==> |r.value.1| < |s|
    decreases |s|
  {
    match ParseMember(s)
    case None => None
    case Some((m, r2)) =>
      if |r2| == 0 then None
      else if r2[0] == '}' then Some(([m], r2[1..]))
      else if r2[0] == ',' then
        match ParseMembers(r2[1..])
        case None => None
        case Some((more, r3)) => Some(([m] + more, r3))
      else None
  }

  /** `JSON.parse` of a flat object with string, boolean and null members. */
  function Parse(s: string): Option<seq<Member>> {
    if s == ['{', '}'] then Some([])
    else if |s| > 0 && s[0] == '{' then
      match ParseMembers(s[1..])
      case None => None
      case Some((ms, rest)) => if rest == [] then Some(ms) else None
    else None
  }

  lemma EscapeCharParses(c: char, tail: string)
    ensures ParseChars(EscapeChar(c) + tail)
         == match ParseChars(tail)
            case None => None
            case Some((body, rest)) => Some(([c] + body, rest))
  {
    if |EscapeChar(c)| == 2 {
      ShortEscapeParses(c, tail);
    } else if |EscapeChar(c)| == 6 {
      UnicodeEscapeParses(c, tail);
    } else {
      assert (EscapeChar(c) + tail)[1..] == tail;
    }
  }

  lemma ShortEscapeParses(c: char, tail: string)
    requires |EscapeChar(c)| == 2
    ensures ParseChars(EscapeChar(c) + tail)
         == match ParseChars(tail)
            case None => None
            case Some((body, rest)) => Some(([c] + body, rest))
  {
    var s := EscapeChar(c) + tail;
    assert s[1..] == [EscapeChar(c)[1]] + tail;
    assert s[2..] == tail;
  }

  lemma UnicodeEscapeParses(c: char, tail: string)
    requires |EscapeChar(c)| == 6
    ensures ParseChars(EscapeChar(c) + tail)
         == match ParseChars(tail)
            case None => None
            case Some((body, rest)) => Some(([c] + body, rest))
  {
    var s := EscapeChar(c) + tail;
    var n := c as int;
    Hex.DigitRoundTrip(n / 16);
    Hex.DigitRoundTrip(n % 16);
    assert s[1..] == ['u', '0', '0', Hex.Digit(n / 16), Hex.Digit(n % 16)] + tail;
    assert ParseEscape(s[1..]) == Some((c, 5));
    assert s[6..] == tail;
  }

  /** The escaped text of a string, followed by the closing quote, reads back as that string. */
  lemma {:induction false} ParseEscaped(x: string, rest: string)
    ensures ParseChars(Escape(x) + ['"'] + rest) == Some((x, rest))
  {
    if x == [] {
      assert Escape(x) + ['"'] + rest == ['"'] + rest;
    } else {
      assert Escape(x) + ['"'] + rest == EscapeChar(x[0]) + (Escape(x[1..]) + ['"'] + rest);
      ParseEscaped(x[1..], rest);
      EscapeCharParses(x[0], Escape(x[1..]) + ['"'] + rest);
      assert [x[0]] + x[1..] == x;
    }
  }

  lemma ParseStringText(str: string, tail: string)
    ensures ParseValue(Quote(str) + tail) == Some((JStr(str), tail))
  {
    var s := Quote(str) + tail;
    assert s[0] == '"';
    assert s[1..] == Escape(str) + ['"'] + tail;
    ParseEscaped(str, tail);
  }

  lemma ParseLiteralText(v: Value, tail: string)
    requires !v.JStr?
    ensures ParseValue(ValueText(v) + tail) == Some((v, tail))
  {
    var s := ValueText(v) + tail;
    if v == JBool(true) {
      assert s[..4] == "true";
      assert s[4..] == tail;
    } else if v == JBool(false) {
      assert s[..4][0] != "true"[0];
      assert s[..5] == "false";
      assert s[5..] == tail;
    } else {
      assert s[..4][0] != "true"[0];
      assert |s| >= 5 ==> s[..5][0] != "false"[0];
      assert s[..4] == "null";
      assert s[4..] == tail;
    }
  }

  lemma ParseValueText(v: Value, tail: string)
    ensures ParseValue(ValueText(v) + tail) == Some((v, tail))
  {
    if v.JStr? {
      ParseStringText(v.str, tail);
    } else {
      ParseLiteralText(v, tail);
    }
  }

  lemma Associate<T>(a: seq<T>, b: seq<T>, c: seq<T>, d: seq<T>, e: seq<T>, f: seq<T>)
    ensures a + b + c + d + e + f == a + (b + c + (d + (e + f)))
  {
  }

  /** The step ParseMember takes over a quoted key, a colon and a value. */
  lemma ParseMemberStep(s: string, key: string, r1: string, v: Value, after: string)
    requires |s| > 0 && s[0] == '"' && ParseChars(s[1..]) == Some((key, r1))
    requires |r1| > 0 && r1[0] == ':' && ParseValue(r1[1..]) == Some((v, after))
    ensures ParseMember(s) == Some(((key, v), after))
  {
  }

  /** One member's text is read as that member. */
  lemma ParseMemberText(m: Member, after: string)
    ensures ParseMember(MemberText(m) + after) == Some((m, after))
  {
    var r1 := [':'] + (ValueText(m.1) + after);
    var s := MemberText(m) + after;
    Associate(['"'], Escape(m.0), ['"'], [':'], ValueText(m.1), after);
    assert s == ['"'] + (Escape(m.0) + ['"'] + r1);
    ParseEscaped(m.0, r1);
    assert r1[1..] == ValueText(m.1) + after;
    ParseValueText(m.1, after);
    ParseMemberStep(s, m.0, r1, m.1, after);
  }

  lemma ParseLastMember(m: Member, rest: string)
    ensures ParseMembers(MembersText([m]) + ['}'] + rest) == Some(([m], rest))
  {
    var after := ['}'] + rest;
    assert MembersText([m]) + ['}'] + rest == MemberText(m) + after;
    ParseMemberText(m, after);
    assert after[1..] == rest;
  }

  /** The step ParseMembers takes after a member followed by a comma. */
  lemma ParseMembersComma(s: string, m: Member, tail: string, more: seq<Member>, rest: string)
    requires ParseMember(s) == Some((m, [','] + tail))
    requires ParseMembers(tail) == Some((more, rest))
    ensures ParseMembers(s) == Some(([m] + more, rest))
  {
    assert ([','] + tail)[1..] == tail;
  }

  /** The text of a member list of two or more, regrouped around its first comma. */
  lemma MembersTextCons(m: Member, more: seq<Member>, rest: string)
    requires more != []
    ensures MembersText([m] + more) + ['}'] + rest
         == MemberText(m) + ([','] + (MembersText(more) + ['}'] + rest))
  {
    assert ([m] + more)[1..] == more;
  }

  lemma ParseNextMember(m: Member, more: seq<Member>, rest: string)
    requires more != []
    requires ParseMembers(MembersText(more) + ['}'] + rest) == Some((more, rest))
    ensures ParseMembers(MembersText([m] + more) + ['}'] + rest) == Some(([m] + more, rest))
  {
    var tail := MembersText(more) + ['}'] + rest;
    MembersTextCons(m, more, rest);
    ParseMemberText(m, [','] + tail);
    ParseMembersComma(MemberText(m) + ([','] + tail), m, tail, more, rest);
  }

  lemma {:induction false} ParseMembersText(ms: seq<Member>, rest: string)
    requires ms != []
    ensures ParseMembers(MembersText(ms) + ['}'] + rest) == Some((ms, rest))
    decreases |ms|
  {
    if |ms| == 1 {
      assert ms == [ms[0]];
      ParseLastMember(ms[0], rest);
    } else {
      ParseMembersText(ms[1..], rest);
      ParseNextMember(ms[0], ms[1..], rest);
      assert [ms[0]] + ms[1..] == ms;
    }
  }

  lemma MembersTextNonEmpty(ms: seq<Member>)
    requires ms != []
    ensures MembersText(ms) != []
  {
    assert MemberText(ms[0])[0] == '"';
  }

  /** An object's text is read through its members' reader. */
  lemma ParseBraced(inner: string, ms: seq<Member>)
    requires inner != []
    requires ParseMembers(inner + ['}']) == Some((ms, []))
    ensures Parse(['{'] + inner + ['}']) == Some(ms)
  {
    var s := ['{'] + inner + ['}'];
    assert s[1..] == inner + ['}'];
    assert |s| > 2;
  }

  /** Reading back what `JSON.stringify` wrote gives the same members in the same order. */
  lemma ParseStringify(ms: seq<Member>)
    ensures Parse(Stringify(ms)) == Some(ms)
  {
    if ms != [] {
      ParseMembersText(ms, []);
      assert MembersText(ms) + ['}'] + [] == MembersText(ms) + ['}'];
      MembersTextNonEmpty(ms);
      ParseBraced(MembersText(ms), ms);
    }
  }

  /** Two different member lists are never written as the same text. */
  lemma StringifyInjective(a: seq<Member>, b: seq<Member>)
    requires Stringify(a) == Stringify(b)
    ensures a == b
  {
    ParseStringify(a);
    ParseStringify(b);
  }
}
