/** The grammar of sections 2 to 7 of RFC 8259, and the proof that the encoder stays inside it. */
module JsonGrammar {
  import opened Digits
  import opened DecimalText
  import opened JsonText

  /** ws = *( space / tab / line feed / carriage return ), section 2. */
  predicate Whitespace(w: string) {
    forall i :: 0 <= i < |w| ==> w[i] in {' ', '\t', '\n', '\r'}
  }

  // ---------- numbers, section 6 ----------

  predicate Digits1(s: string) {
    s != "" && AllDigits(s)
  }

  predicate FractionPart(s: string) {
    s == "" || (s[0] == '.' && Digits1(s[1..]))
  }

  predicate ExponentPart(s: string) {
    s == "" || (s[0] in {'e', 'E'} && |s| > 1 && Digits1(if s[1] in {'+', '-'} then s[2..] else s[1..]))
  }

  ghost predicate NumberOf(t: string, minus: string, integer: string, frac: string, exp: string) {
    t == minus + integer + frac + exp
    && (minus == "" || minus == "-") && IntegerPart(integer) && FractionPart(frac) && ExponentPart(exp)
  }

  ghost predicate JsonNumber(t: string) {
    exists minus, integer, frac, exp :: NumberOf(t, minus, integer, frac, exp)
  }

  // ---------- strings, section 7 ----------

  predicate Unescaped(c: char) {
    c >= ' ' && c != '\"' && c != '\\'
  }

  predicate HexChar(c: char) {
    '0' <= c <= '9' || 'a' <= c <= 'f' || 'A' <= c <= 'F'
  }

  predicate Chars(s: string) {
    s == ""
    || (Unescaped(s[0]) && Chars(s[1..]))
    || (|s| >= 2 && s[0] == '\\' && s[1] in {'\"', '\\', '/', 'b', 'f', 'n', 'r', 't'} && Chars(s[2..]))
    || (|s| >= 6 && s[0] == '\\' && s[1] == 'u'
        && HexChar(s[2]) && HexChar(s[3]) && HexChar(s[4]) && HexChar(s[5]) && Chars(s[6..]))
  }

  predicate JsonString(t: string) {
    |t| >= 2 && t[0] == '\"' && t[|t| - 1] == '\"' && Chars(t[1..|t| - 1])
  }

  // ---------- values, objects and arrays, sections 3 to 5 ----------

  function JoinCommas(parts: seq<string>): string {
    if parts == [] then ""
    else if |parts| == 1 then parts[0]
    else parts[0] + "," + JoinCommas(parts[1..])
  }

  ghost predicate JoinedAs(t: string, parts: seq<string>, open: string, close: string) {
    parts != [] && t == open + JoinCommas(parts) + close
    && forall i :: 0 <= i < |parts| ==> |parts[i]| < |t|
  }

  ghost predicate EmptyBrackets(t: string, w: string, open: string, close: string) {
    Whitespace(w) && t == open + w + close
  }

  ghost predicate JsonValue(t: string)
    decreases |t|, 0
  {
    t in {"false", "null", "true"} || JsonNumber(t) || JsonString(t)
    || (exists w :: EmptyBrackets(t, w, "[", "]"))
    || (exists w :: EmptyBrackets(t, w, "{", "}"))
    || (exists parts: seq<string> :: JoinedAs(t, parts, "[", "]") && forall i :: 0 <= i < |parts| ==> Element(parts[i]))
    || (exists parts: seq<string> :: JoinedAs(t, parts, "{", "}") && forall i :: 0 <= i < |parts| ==>
        MemberOf(parts[i]))
  }

  ghost predicate Padded(p: string, before: string, v: string, after: string) {
    p == before + v + after && Whitespace(before) && Whitespace(after) && |v| <= |p|
  }

  ghost predicate Element(p: string)
    decreases |p|, 1
  {
    exists before, v, after :: Padded(p, before, v, after) && JsonValue(v)
  }

  ghost predicate MemberSplit(p: string, before: string, name: string, after: string, v: string) {
    p == before + name + after + ":" + v && Whitespace(before) && Whitespace(after) && |v| < |p|
  }

  ghost predicate MemberOf(p: string)
    decreases |p|, 2
  {
    exists before, name, after, v :: MemberSplit(p, before, name, after, v) && JsonString(name) && Element(v)
  }

  // ---------- the encoder's output ----------

  lemma NormalFormIsNumber(t: string)
    requires NormalForm(t)
    ensures JsonNumber(t)
  {
    var n, i, f :| NormalParts(n, i, f) && t == Assemble(n, i, f);
    var frac := if f == "" then "" else "." + f;
    if f != "" {
      assert frac[1..] == f;
    }
    assert NumberOf(t, if n then "-" else "", i, frac, "") by {
      assert t + "" == t;
    }
  }

  lemma EscapedCharExtends(c: char, rest: string)
    requires Chars(rest)
    ensures Chars(EscapeChar(c) + rest)
  {
    var e := EscapeChar(c);
    if |e| == 1 {
      assert (e + rest)[1..] == rest;
    } else if |e| == 2 {
      assert (e + rest)[2..] == rest;
    } else {
      HexDigitIsHex(c as int / 16);
      HexDigitIsHex(c as int % 16);
      assert e[4] == HexDigit(c as int / 16) && e[5] == HexDigit(c as int % 16);
      assert (e + rest)[6..] == rest;
    }
  }

  lemma HexDigitIsHex(d: nat)
    requires d < 16
    ensures HexChar(HexDigit(d))
  {
  }

  lemma {:induction false} EscapeIsChars(s: string)
    ensures Chars(Escape(s))
  {
    hide EscapeChar;
    if s != "" {
      EscapeIsChars(s[1..]);
      EscapedCharExtends(s[0], Escape(s[1..]));
    }
  }

  lemma QuoteIsString(s: string)
    ensures JsonString(Quote(s))
  {
    hide Escape, Chars;
    EscapeIsChars(s);
    var t := Quote(s);
    assert t[1..|t| - 1] == Escape(s);
  }

  lemma ValueIsElement(t: string)
    requires JsonValue(t)
    ensures Element(t)
  {
    hide JsonValue;
    assert "" + t + "" == t;
    assert Padded(t, "", t, "");
  }

  lemma NamedValueIsMember(name: string, v: string)
    requires JsonString(name) && JsonValue(v)
    ensures MemberOf(name + ":" + v)
  {
    hide JsonValue, JsonString;
    ValueIsElement(v);
    var p := name + ":" + v;
    assert "" + name + "" + ":" + v == p;
    assert MemberSplit(p, "", name, "", v);
  }

  /** Every text the encoder produces is a JSON value. */
  lemma {:induction false} EncodeIsJson(v: Value)
    requires Encode(v).Success?
    ensures JsonValue(Encode(v).value)
    decreases v, 1, 0
  {
    hide Escape, PrintDecimal, IntText, NormalForm, JsonNumber, JsonString, SortedMembers, EncodeItems, EncodeMembers,
         Element, MemberOf, JoinCommas;
    match v {
      case Int(n) =>
        IntTextRoundTrip(n);
        NormalFormIsNumber(IntText(n));
      case Dec(d) =>
        PrintDecimalRoundTrip(d);
        NormalFormIsNumber(PrintDecimal(d).value);
      case Str(s) => QuoteIsString(s);
      case Obj(fields) =>
        SortedMembersAreSmaller(fields);
        var members := SortedMembers(fields).value;
        var parts := MembersAreJson(members, v);
        Bracketed(EncodeMembers(members, v).value, parts, "{", "}");
      case Arr(_, items) =>
        var parts := ItemsAreJson(items, v);
        Bracketed(EncodeItems(items, v).value, parts, "[", "]");
      case _ =>
    }
  }

  lemma Bracketed(body: string, parts: seq<string>, open: string, close: string)
    requires body == JoinCommas(parts) && |open| == 1 && |close| == 1
    ensures parts == [] ==> EmptyBrackets(open + body + close, "", open, close)
    ensures parts != [] ==> JoinedAs(open + body + close, parts, open, close)
  {
    if parts != [] {
      forall i | 0 <= i < |parts|
        ensures |parts[i]| <= |body|
      {
        PartLength(parts, i);
      }
    }
  }

  lemma {:induction false} PartLength(parts: seq<string>, i: nat)
    requires i < |parts|
    ensures |parts[i]| <= |JoinCommas(parts)|
  {
    if i > 0 {
      PartLength(parts[1..], i - 1);
    }
  }

  lemma {:induction false} ItemsAreJson(items: seq<Value>, whole: Value) returns (parts: seq<string>)
    requires ItemsBelow(items, whole) && EncodeItems(items, whole).Success?
    ensures EncodeItems(items, whole).value == JoinCommas(parts) && |parts| == |items|
    ensures forall i :: 0 <= i < |parts| ==> Element(parts[i])
    decreases whole, 0, |items|
  {
    hide Encode, Element, JsonValue;
    if items == [] {
      parts := [];
    } else {
      EncodeIsJson(items[0]);
      ValueIsElement(Encode(items[0]).value);
      var rest := ItemsAreJson(items[1..], whole);
      parts := [Encode(items[0]).value] + rest;
      assert parts[1..] == rest;
    }
  }

  lemma {:induction false} MembersAreJson(members: seq<Member>, whole: Value) returns (parts: seq<string>)
    requires MembersBelow(members, whole) && EncodeMembers(members, whole).Success?
    ensures EncodeMembers(members, whole).value == JoinCommas(parts) && |parts| == |members|
    ensures forall i :: 0 <= i < |parts| ==> MemberOf(parts[i])
    decreases whole, 0, |members|
  {
    hide Encode, MemberOf, JsonValue, JsonString, Quote;
    if members == [] {
      parts := [];
    } else {
      var m := members[0];
      EncodeIsJson(m.value);
      QuoteIsString(m.key);
      NamedValueIsMember(Quote(m.key), Encode(m.value).value);
      var rest := MembersAreJson(members[1..], whole);
      parts := [Quote(m.key) + ":" + Encode(m.value).value] + rest;
      assert parts[1..] == rest;
    }
  }
}
