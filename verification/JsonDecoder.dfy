/** A decoder for canonical JSON text, and the proof that it recovers the meaning of every encoded value. */
module JsonDecoder {
  import opened Prelude
  import opened Rationals
  import opened Digits
  import opened DecimalText
  import opened JsonText

  /** What was read, and the text that is left. */
  datatype Read<+T> = Read(value: T, rest: string)

  // ---------- string literals ----------

  function HexValue(c: char): Option<nat> {
    if '0' <= c <= '9' then Some(c as int - '0' as int)
    else if 'a' <= c <= 'f' then Some(10 + (c as int - 'a' as int))
    else None
  }

  function DecodeEscape(s: string): Option<Read<char>> {
    if s == "" then None
    else
      match s[0]
      case '\"' => Some(Read('\"', s[1..]))
      case '\\' => Some(Read('\\', s[1..]))
      case 'n' => Some(Read('\n', s[1..]))
      case 'r' => Some(Read('\r', s[1..]))
      case 't' => Some(Read('\t', s[1..]))
      case 'b' => Some(Read('\U{8}', s[1..]))
      case 'f' => Some(Read('\U{c}', s[1..]))
      case 'u' => DecodeHex(s[1..])
      case _ => None
  }

  /** The four digits after \u; the encoder only writes 0000 to 001f. */
  function DecodeHex(s: string): Option<Read<char>> {
    if |s| < 4 || s[0] != '0' || s[1] != '0' then None
    else
      match (HexValue(s[2]), HexValue(s[3]))
      case (Some(high), Some(low)) => Some(Read((16 * high + low) as char, s[4..]))
      case _ => None
  }

  function DecodeChars(s: string): Option<Read<string>>
    decreases |s|
  {
    if s == "" then None
    else if s[0] == '\"' then Some(Read("", s[1..]))
    else if s[0] == '\\' then
      match DecodeEscape(s[1..])
      case Some(Read(c, rest)) =>
        if |rest| < |s| then
          match DecodeChars(rest)
          case Some(Read(cs, left)) => Some(Read([c] + cs, left))
          case None => None
        else None
      case None => None
    else
      match DecodeChars(s[1..])
      case Some(Read(cs, left)) => Some(Read([s[0]] + cs, left))
      case None => None
  }

  lemma DropFirst(a: string, b: string)
    requires a != ""
    ensures (a + b)[0] == a[0] && (a + b)[1..] == a[1..] + b
  {
  }

  lemma AfterFirst(c: char, others: string)
    ensures ([c] + others)[0] == c && ([c] + others)[1..] == others
  {
  }

  lemma DecodeEscaped(c: char, rest: string)
    requires EscapeChar(c) != [c]
    ensures EscapeChar(c) != "" && EscapeChar(c)[0] == '\\'
    ensures DecodeEscape(EscapeChar(c)[1..] + rest) == Some(Read(c, rest))
  {
    var e := EscapeChar(c)[1..];
    DropFirst(e, rest);
    if |e| == 1 {
      assert e[1..] + rest == rest;
    } else {
      HexRoundTrip(c as int / 16);
      HexRoundTrip(c as int % 16);
      var h := ['0', '0', HexDigit(c as int / 16), HexDigit(c as int % 16)];
      assert e[1..] == h;
      assert (h + rest)[4..] == rest;
    }
  }

  lemma HexRoundTrip(d: nat)
    requires d < 16
    ensures HexValue(HexDigit(d)) == Some(d)
  {
  }

  lemma PlainCharacter(c: char)
    requires EscapeChar(c) == [c]
    ensures c != '\"' && c != '\\'
  {
  }

  lemma {:induction false} DecodeQuoted(s: string, rest: string)
    ensures DecodeChars(Escape(s) + "\"" + rest) == Some(Read(s, rest))
  {
    hide EscapeChar, DecodeEscape;
    if s == "" {
      assert Escape(s) + "\"" + rest == "\"" + rest;
    } else {
      var c, tail := s[0], Escape(s[1..]) + "\"" + rest;
      DecodeQuoted(s[1..], rest);
      var text := Escape(s) + "\"" + rest;
      assert text == EscapeChar(c) + tail;
      assert s == [c] + s[1..];
      if EscapeChar(c) == [c] {
        PlainCharacter(c);
        assert text[1..] == tail;
      } else {
        DecodeEscaped(c, tail);
        DropFirst(EscapeChar(c), tail);
      }
    }
  }

  // ---------- numbers ----------

  predicate NumberChar(c: char) {
    IsDigit(c) || c == '-' || c == '.'
  }

  function NumberLength(s: string): (n: nat)
    ensures n <= |s|
  {
    if s == "" || !NumberChar(s[0]) then 0 else 1 + NumberLength(s[1..])
  }

  predicate AllNumberChars(s: string) {
    forall i :: 0 <= i < |s| ==> NumberChar(s[i])
  }

  lemma {:induction false} NumberPrefix(t: string, rest: string)
    requires AllNumberChars(t) && (rest != "" ==> !NumberChar(rest[0]))
    ensures NumberLength(t + rest) == |t|
  {
    if t == "" {
      assert t + rest == rest;
    } else {
      assert (t + rest)[1..] == t[1..] + rest;
      NumberPrefix(t[1..], rest);
    }
  }

  lemma NormalFormCharacters(t: string)
    requires NormalForm(t)
    ensures t != "" && AllNumberChars(t) && t[0] != '.'
  {
    var n, i, f :| NormalParts(n, i, f) && t == Assemble(n, i, f);
  }

  // ---------- values ----------

  function StartsWith(s: string, word: string): bool {
    |word| <= |s| && s[..|word|] == word
  }

  function DecodeValue(s: string): (r: Option<Read<Meaning>>)
    ensures r.Some? ==> |r.value.rest| < |s|
    decreases |s|, 1
  {
    if s == "" then None
    else if StartsWith(s, "null") then Some(Read(NullMeaning, s[4..]))
    else if StartsWith(s, "true") then Some(Read(BoolMeaning(true), s[4..]))
    else if StartsWith(s, "false") then Some(Read(BoolMeaning(false), s[5..]))
    else if s[0] == '\"' then
      match DecodeChars(s[1..])
      case Some(Read(text, rest)) => if |rest| < |s| then Some(Read(StrMeaning(text), rest)) else None
      case None => None
    else if s[0] == '[' then
      if StartsWith(s, "[]") then Some(Read(ArrMeaning([]), s[2..]))
      else
        match DecodeItems(s[1..])
        case Some(Read(items, rest)) => Some(Read(ArrMeaning(items), rest))
        case None => None
    else if s[0] == '{' then
      if StartsWith(s, "{}") then Some(Read(ObjMeaning([]), s[2..]))
      else
        match DecodeMembers(s[1..])
        case Some(Read(members, rest)) => Some(Read(ObjMeaning(members), rest))
        case None => None
    else
      var k := NumberLength(s);
      match ParseDecimalText(s[..k])
      case Success(f) => if k > 0 then Some(Read(NumMeaning(f), s[k..])) else None
      case Failure(_) => None
  }

  /** Items up to and including the closing bracket. */
  function DecodeItems(s: string): (r: Option<Read<seq<Meaning>>>)
    ensures r.Some? ==> |r.value.rest| < |s|
    decreases |s|, 2
  {
    match DecodeValue(s)
    case None => None
    case Some(Read(first, rest)) =>
      if rest == "" then None
      else if rest[0] == ']' then Some(Read([first], rest[1..]))
      else if rest[0] == ',' then
        match DecodeItems(rest[1..])
        case Some(Read(others, left)) => Some(Read([first] + others, left))
        case None => None
      else None
  }

  function DecodeMembers(s: string): (r: Option<Read<seq<Entry>>>)
    ensures r.Some? ==> |r.value.rest| < |s|
    decreases |s|, 2
  {
    if s == "" || s[0] != '\"' then None
    else
      match DecodeChars(s[1..])
      case None => None
      case Some(Read(key, colon)) =>
        if colon == "" || colon[0] != ':' || |colon| >= |s| then None
        else
          match DecodeValue(colon[1..])
          case None => None
          case Some(Read(first, rest)) =>
            if rest == "" then None
            else if rest[0] == '}' then Some(Read([Entry(key, first)], rest[1..]))
            else if rest[0] == ',' then
              match DecodeMembers(rest[1..])
              case Some(Read(others, left)) => Some(Read([Entry(key, first)] + others, left))
              case None => None
            else None
  }

  /** The whole text, with nothing left over. */
  function Decode(s: string): Option<Meaning> {
    match DecodeValue(s)
    case Some(Read(m, rest)) => if rest == "" then Some(m) else None
    case None => None
  }

  // ---------- the round trip ----------

  /** What may follow a value inside canonical text. */
  predicate Delimited(rest: string) {
    rest != "" ==> rest[0] == ',' || rest[0] == ']' || rest[0] == '}'
  }

  lemma DecodeNumber(t: string, f: Fraction, rest: string)
    requires NormalForm(t) && ParseDecimalText(t) == Success(f) && Delimited(rest)
    ensures DecodeValue(t + rest) == Some(Read(NumMeaning(f), rest))
  {
    hide ParseDecimalText, NormalForm, DecodeItems, DecodeMembers, DecodeChars;
    NormalFormCharacters(t);
    NumberPrefix(t, rest);
    var s := t + rest;
    assert s[0] == t[0];
    assert s[..|t|] == t && s[|t|..] == rest;
    NotAWord(s, "null");
    NotAWord(s, "true");
    NotAWord(s, "false");
  }

  lemma NotAWord(s: string, word: string)
    requires s != "" && word != "" && s[0] != word[0]
    ensures !StartsWith(s, word)
  {
    assert |word| <= |s| ==> s[..|word|][0] == s[0];
  }

  lemma DecodeText(text: string, rest: string)
    ensures DecodeValue(Quote(text) + rest) == Some(Read(StrMeaning(text), rest))
  {
    hide DecodeItems, DecodeMembers, DecodeChars, Escape;
    DecodeQuoted(text, rest);
    var s := Quote(text) + rest;
    assert s[1..] == Escape(text) + "\"" + rest;
    NotAWord(s, "null");
    NotAWord(s, "true");
    NotAWord(s, "false");
  }

  lemma DecodeWords(rest: string)
    ensures DecodeValue("null" + rest) == Some(Read(NullMeaning, rest))
    ensures DecodeValue("true" + rest) == Some(Read(BoolMeaning(true), rest))
    ensures DecodeValue("false" + rest) == Some(Read(BoolMeaning(false), rest))
  {
    assert ("null" + rest)[..4] == "null" && ("null" + rest)[4..] == rest;
    assert ("true" + rest)[..4] == "true" && ("true" + rest)[4..] == rest;
    assert ("false" + rest)[..5] == "false" && ("false" + rest)[5..] == rest;
    NotAWord("true" + rest, "null");
    NotAWord("false" + rest, "null");
    NotAWord("false" + rest, "true");
  }

  lemma FirstCharacter(v: Value)
    requires Encode(v).Success?
    ensures Encode(v).value != "" && Encode(v).value[0] != ']' && Encode(v).value[0] != '}'
  {
    hide PrintDecimal, NatText, Escape, NormalForm;
    match v {
      case Int(n) =>
        IntTextRoundTrip(n);
        NormalFormCharacters(IntText(n));
      case Dec(d) =>
        PrintDecimalRoundTrip(d);
        NormalFormCharacters(PrintDecimal(d).value);
      case _ =>
    }
  }

  lemma {:induction false} DecodeEncodedPrefix(v: Value, rest: string)
    requires Encode(v).Success? && Supported(v) && Delimited(rest)
    ensures DecodeValue(Encode(v).value + rest) == Some(Read(MeaningOf(v), rest))
    decreases v, 1, 0
  {
    hide DecodeValue, DecodeItems, DecodeMembers, PrintDecimal, IntText, NormalForm, ParseDecimalText, DecimalValue,
         Quote, SortedMembers, EncodeItems, EncodeMembers, ItemsMeaning, MembersMeaning;
    match v {
      case Null => DecodeWords(rest);
      case Bool(b) => DecodeWords(rest);
      case Int(n) =>
        IntTextRoundTrip(n);
        DecodeNumber(IntText(n), FromInt(n), rest);
      case Dec(d) =>
        PrintDecimalRoundTrip(d);
        DecodeNumber(PrintDecimal(d).value, DecimalValue(d), rest);
      case Str(s) => DecodeText(s, rest);
      case Obj(fields) =>
        SortedMembersAreSmaller(fields);
        var members := SortedMembers(fields).value;
        if members != [] {
          DecodeEncodedMembers(members, v, rest);
        }
        DecodeObject(members, v, rest);
      case Arr(_, items) =>
        ItemsAreSmaller(items, v);
        if items != [] {
          DecodeEncodedItems(items, v, rest);
        }
        DecodeArray(items, v, rest);
    }
  }

  lemma ItemsAreSmaller(items: seq<Value>, v: Value)
    requires v.Arr? && v.items == items
    ensures ItemsBelow(items, v)
  {
  }

  lemma DecodeArray(items: seq<Value>, whole: Value, rest: string)
    requires ItemsBelow(items, whole) && ItemsSupported(items, whole) && EncodeItems(items, whole).Success?
    requires items != [] ==>
               DecodeItems(EncodeItems(items, whole).value + "]" + rest) == Some(Read(ItemsMeaning(items, whole), rest))
    ensures DecodeValue("[" + EncodeItems(items, whole).value + "]" + rest)
            == Some(Read(ArrMeaning(ItemsMeaning(items, whole)), rest))
  {
    hide DecodeItems, DecodeMembers, DecodeChars, ParseDecimalText, Encode, Supported, MeaningOf;
    var body := EncodeItems(items, whole).value;
    var s := "[" + body + "]" + rest;
    NotAWord(s, "null");
    NotAWord(s, "true");
    NotAWord(s, "false");
    if items == [] {
      assert s[..2] == "[]" && s[2..] == rest;
    } else {
      FirstCharacter(items[0]);
      ItemsTextStart(items, whole);
      assert s[1] == body[0];
      assert s[1..] == body + "]" + rest;
    }
  }

  lemma ItemsTextStart(items: seq<Value>, whole: Value)
    requires ItemsBelow(items, whole) && items != [] && EncodeItems(items, whole).Success?
    requires Encode(items[0]).Success? ==> Encode(items[0]).value != ""
    ensures Encode(items[0]).Success?
    ensures EncodeItems(items, whole).value != "" && EncodeItems(items, whole).value[0] == Encode(items[0]).value[0]
  {
    hide Encode;
  }

  lemma DecodeObject(members: seq<Member>, whole: Value, rest: string)
    requires MembersBelow(members, whole) && MembersSupported(members, whole) && EncodeMembers(members, whole).Success?
    requires members != [] ==>
               DecodeMembers(EncodeMembers(members, whole).value + "}" + rest)
                 == Some(Read(MembersMeaning(members, whole), rest))
    ensures DecodeValue("{" + EncodeMembers(members, whole).value + "}" + rest)
            == Some(Read(ObjMeaning(MembersMeaning(members, whole)), rest))
  {
    hide DecodeItems, DecodeMembers, DecodeChars, ParseDecimalText, Encode, Supported, MeaningOf, Escape;
    var body := EncodeMembers(members, whole).value;
    var s := "{" + body + "}" + rest;
    NotAWord(s, "null");
    NotAWord(s, "true");
    NotAWord(s, "false");
    if members == [] {
      assert s[..2] == "{}" && s[2..] == rest;
    } else {
      assert body[0] == '\"';
      assert s[1] == body[0];
      assert s[1..] == body + "}" + rest;
    }
  }

  lemma {:induction false} DecodeEncodedItems(items: seq<Value>, whole: Value, rest: string)
    requires ItemsBelow(items, whole) && ItemsSupported(items, whole) && items != []
    requires EncodeItems(items, whole).Success?
    ensures DecodeItems(EncodeItems(items, whole).value + "]" + rest) == Some(Read(ItemsMeaning(items, whole), rest))
    decreases whole, 0, |items|
  {
    hide DecodeValue, Encode, Supported, MeaningOf;
    var after := AfterItem(items, whole, rest);
    ItemText(items, whole, rest);
    SingleItem(items, whole);
    if |items| == 1 {
      AfterFirst(']', rest);
    } else {
      AfterFirst(',', EncodeItems(items[1..], whole).value + "]" + rest);
      DecodeEncodedItems(items[1..], whole, rest);
    }
    DecodeEncodedPrefix(items[0], after);
  }

  function AfterItem(items: seq<Value>, ghost whole: Value, rest: string): string
    requires ItemsBelow(items, whole) && items != [] && EncodeItems(items, whole).Success?
  {
    if |items| == 1 then [']'] + rest else [','] + (EncodeItems(items[1..], whole).value + "]" + rest)
  }

  lemma ItemText(items: seq<Value>, whole: Value, rest: string)
    requires ItemsBelow(items, whole) && items != [] && EncodeItems(items, whole).Success?
    ensures EncodeItems(items, whole).value + "]" + rest == Encode(items[0]).value + AfterItem(items, whole, rest)
  {
    hide Encode;
  }

  lemma SingleItem(items: seq<Value>, whole: Value)
    requires ItemsBelow(items, whole) && ItemsSupported(items, whole) && items != []
    ensures |items| == 1 ==> ItemsMeaning(items, whole) == [MeaningOf(items[0])]
  {
    hide MeaningOf;
    if |items| == 1 {
      assert items[1..] == [] && ItemsMeaning(items[1..], whole) == [];
    }
  }

  lemma {:induction false} DecodeEncodedMembers(members: seq<Member>, whole: Value, rest: string)
    requires MembersBelow(members, whole) && MembersSupported(members, whole) && members != []
    requires EncodeMembers(members, whole).Success?
    ensures DecodeMembers(EncodeMembers(members, whole).value + "}" + rest)
            == Some(Read(MembersMeaning(members, whole), rest))
    decreases whole, 0, |members|
  {
    hide DecodeValue, DecodeMembers, Encode, Supported, MeaningOf, Escape;
    SingleMember(members, whole);
    var after := AfterMember(members, whole, rest);
    if |members| == 1 {
      AfterFirst('}', rest);
    } else {
      AfterFirst(',', EncodeMembers(members[1..], whole).value + "}" + rest);
      DecodeEncodedMembers(members[1..], whole, rest);
    }
    DecodeEncodedPrefix(members[0].value, after);
    MemberText(members, whole, rest);
    DecodeMembersStep(members[0].key, Encode(members[0].value).value + after, MeaningOf(members[0].value), after);
  }

  lemma DecodeMembersStep(key: string, valueText: string, m: Meaning, after: string)
    requires DecodeValue(valueText) == Some(Read(m, after)) && after != ""
    ensures var s := ['\"'] + (Escape(key) + "\"" + ([':'] + valueText));
            && (after[0] == '}' ==> DecodeMembers(s) == Some(Read([Entry(key, m)], after[1..])))
            && (after[0] == ',' && DecodeMembers(after[1..]).Some? ==>
                  var others := DecodeMembers(after[1..]).value;
                  DecodeMembers(s) == Some(Read([Entry(key, m)] + others.value, others.rest)))
  {
    hide DecodeValue, DecodeChars, Escape;
    AfterFirst(':', valueText);
    AfterFirst('\"', Escape(key) + "\"" + ([':'] + valueText));
    DecodeQuoted(key, [':'] + valueText);
  }

  function AfterMember(members: seq<Member>, ghost whole: Value, rest: string): string
    requires MembersBelow(members, whole) && members != [] && EncodeMembers(members, whole).Success?
  {
    if |members| == 1 then ['}'] + rest else [','] + (EncodeMembers(members[1..], whole).value + "}" + rest)
  }

  lemma SingleMember(members: seq<Member>, whole: Value)
    requires MembersBelow(members, whole) && MembersSupported(members, whole) && members != []
    ensures |members| == 1 ==> MembersMeaning(members, whole) == [Entry(members[0].key, MeaningOf(members[0].value))]
  {
    hide MeaningOf;
    if |members| == 1 {
      assert members[1..] == [] && MembersMeaning(members[1..], whole) == [];
    }
  }

  lemma MemberText(members: seq<Member>, whole: Value, rest: string)
    requires MembersBelow(members, whole) && members != [] && EncodeMembers(members, whole).Success?
    ensures EncodeMembers(members, whole).value + "}" + rest
            == ['\"']
              + (Escape(members[0].key) + "\""
                 + ([':'] + (Encode(members[0].value).value + AfterMember(members, whole, rest))))
  {
    hide Encode, Escape;
    var k, t := Escape(members[0].key), Encode(members[0].value).value;
    if |members| == 1 {
      RegroupLast(k, t, rest);
    } else {
      RegroupMore(k, t, EncodeMembers(members[1..], whole).value, rest);
    }
  }

  lemma RegroupLast(k: string, t: string, rest: string)
    ensures ("\"" + k + "\"") + ":" + t + "}" + rest == ['\"'] + (k + "\"" + ([':'] + (t + (['}'] + rest))))
  {
  }

  lemma RegroupMore(k: string, t: string, others: string, rest: string)
    ensures ("\"" + k + "\"") + ":" + t + "," + others + "}" + rest
            == ['\"'] + (k + "\"" + ([':'] + (t + ([','] + (others + "}" + rest)))))
  {
    assert ([','] + (others + "}" + rest)) == "," + others + "}" + rest;
    assert (t + "," + others) + "}" + rest == t + ("," + others + "}" + rest);
  }

  /** The decoder recovers the meaning of every value that can be encoded. */
  lemma DecodeRecoversMeaning(v: Value)
    requires Supported(v)
    ensures Encode(v).Success? && Decode(Encode(v).value) == Some(MeaningOf(v))
  {
    hide Encode, DecodeValue;
    EncodesExactlySupported(v);
    DecodeEncodedPrefix(v, "");
    assert Encode(v).value + "" == Encode(v).value;
  }
}
