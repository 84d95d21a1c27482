/** The exact canonical text: which characters are escaped and how, and how arrays and mappings are laid out. */
module JsonSpelling {
  import opened Prelude
  import opened TextOrder
  import opened Sorting
  import opened JsonText
  import opened JsonIdentity

  /** The text of a string, quotes included. */
  function StringText(s: string): string {
    Encode(Str(s)).value
  }

  // ---------- strings ----------

  lemma {:induction false} EscapeOfConcat(s: string, t: string)
    ensures Escape(s + t) == Escape(s) + Escape(t)
  {
    hide EscapeChar;
    if s == "" {
      assert s + t == t;
    } else {
      assert (s + t)[0] == s[0] && (s + t)[1..] == s[1..] + t;
      EscapeOfConcat(s[1..], t);
    }
  }

  /** Characters are spelled one by one: the text of a concatenation is that of its parts between one pair of quotes. */
  lemma TextOfConcat(s: string, t: string)
    ensures var a, b := StringText(s), StringText(t);
            |a| >= 2 && |b| >= 2 && StringText(s + t) == a[..|a| - 1] + b[1..]
  {
    hide Escape;
    EscapeOfConcat(s, t);
    assert StringText(s)[..|StringText(s)| - 1] == "\"" + Escape(s);
    assert StringText(t)[1..] == Escape(t) + "\"";
  }

  predicate IsPlain(c: char) {
    c >= ' ' && c != '\"' && c != '\\'
  }

  lemma {:induction false} EscapeOfPlain(s: string)
    requires forall i :: 0 <= i < |s| ==> IsPlain(s[i])
    ensures Escape(s) == s
  {
    if s != "" {
      EscapeOfPlain(s[1..]);
      assert EscapeChar(s[0]) == [s[0]];
      assert s == [s[0]] + s[1..];
    }
  }

  /** A string without control characters, quotes and backslashes is spelled as it is. */
  lemma PlainText(s: string)
    requires forall i :: 0 <= i < |s| ==> IsPlain(s[i])
    ensures StringText(s) == "\"" + s + "\""
  {
    hide Escape;
    EscapeOfPlain(s);
  }

  /** The digit below sixteen, in lower case. */
  predicate IsHex(h: char, d: int) {
    if d < 10 then h as int == '0' as int + d else h as int == 'a' as int + d - 10
  }

  lemma TextOfOne(c: char)
    ensures StringText([c]) == "\"" + EscapeChar(c) + "\""
  {
    hide EscapeChar;
    assert [c][1..] == "";
    assert Escape([c]) == EscapeChar(c) + Escape("");
  }

  /** The seven two-character escapes. */
  lemma ShortEscapes()
    ensures StringText("\"") == "\"\\\"\"" && StringText("\\") == "\"\\\\\""
    ensures StringText("\n") == "\"\\n\"" && StringText("\r") == "\"\\r\"" && StringText("\t") == "\"\\t\""
    ensures StringText(['\U{8}']) == "\"\\b\"" && StringText(['\U{c}']) == "\"\\f\""
  {
    TextOfOne('\"');
    TextOfOne('\\');
    TextOfOne('\n');
    TextOfOne('\r');
    TextOfOne('\t');
    TextOfOne('\U{8}');
    TextOfOne('\U{c}');
  }

  /** Every other control character is a backslash, u00 and its code in two lower-case hexadecimal digits. */
  lemma LongEscapes(c: char)
    requires c < ' ' && c !in ['\n', '\r', '\t', '\U{8}', '\U{c}']
    ensures var text := StringText([c]);
            && |text| == 8 && text[..5] == "\"\\u00" && text[7] == '\"'
            && IsHex(text[5], c as int / 16) && IsHex(text[6], c as int % 16)
  {
    TextOfOne(c);
    HexDigitIs(c as int / 16);
    HexDigitIs(c as int % 16);
    assert EscapeChar(c) == "\\u00" + [HexDigit(c as int / 16), HexDigit(c as int % 16)];
  }

  lemma HexDigitIs(d: nat)
    requires d < 16
    ensures IsHex(HexDigit(d), d)
  {
  }

  // ---------- arrays and mappings ----------

  function Joined(parts: seq<string>): string {
    if parts == [] then "" else if |parts| == 1 then parts[0] else parts[0] + "," + Joined(parts[1..])
  }

  function TextOf(v: Value): string
    requires Supported(v)
  {
    EncodesExactlySupported(v);
    Encode(v).value
  }

  function ItemTexts(items: seq<Value>): (r: seq<string>)
    requires forall i :: 0 <= i < |items| ==> Supported(items[i])
    ensures |r| == |items| && forall i :: 0 <= i < |r| ==> r[i] == TextOf(items[i])
  {
    seq(|items|, i requires 0 <= i < |items| => TextOf(items[i]))
  }

  lemma {:induction false} ItemsAreJoined(items: seq<Value>, whole: Value)
    requires ItemsBelow(items, whole) && ItemsSupported(items, whole)
    ensures forall i :: 0 <= i < |items| ==> Supported(items[i])
    ensures EncodeItems(items, whole) == Success(Joined(ItemTexts(items)))
    decreases |items|
  {
    hide Encode, Supported;
    if items != [] {
      ItemsAreJoined(items[1..], whole);
      assert forall i :: 0 < i < |items| ==> items[i] == items[1..][i - 1];
      assert ItemTexts(items)[1..] == ItemTexts(items[1..]);
      EncodesExactlySupported(items[0]);
    }
  }

  /** An array is its items' texts, in order, with commas and no spaces. */
  lemma ArrayText(isTuple: bool, items: seq<Value>)
    requires Supported(Arr(isTuple, items))
    ensures forall i :: 0 <= i < |items| ==> Supported(items[i])
    ensures TextOf(Arr(isTuple, items)) == "[" + Joined(ItemTexts(items)) + "]"
  {
    hide Joined, ItemTexts;
    ItemsAreJoined(items, Arr(isTuple, items));
  }

  /** Keys ascend strictly, by their first different code point. */
  ghost predicate KeysAscend(order: seq<Field>) {
    && (forall i :: 0 <= i < |order| ==> order[i].key.Text?)
    && forall i, j :: 0 <= i < j < |order| ==> Precedes(order[i].key.text, order[j].key.text)
  }

  function MemberTexts(order: seq<Field>): (r: seq<string>)
    requires forall i :: 0 <= i < |order| ==> order[i].key.Text? && Supported(order[i].value)
    ensures |r| == |order|
    ensures forall i :: 0 <= i < |r| ==> r[i] == StringText(order[i].key.text) + ":" + TextOf(order[i].value)
  {
    seq(|order|, i requires 0 <= i < |order| => StringText(order[i].key.text) + ":" + TextOf(order[i].value))
  }

  function AsFields(members: seq<Member>): (r: seq<Field>)
    ensures |r| == |members| && forall i :: 0 <= i < |r| ==> r[i] == Field(Text(members[i].key), members[i].value)
  {
    seq(|members|, i requires 0 <= i < |members| => Field(Text(members[i].key), members[i].value))
  }

  lemma {:induction false} MembersAreJoined(members: seq<Member>, whole: Value)
    requires MembersBelow(members, whole) && MembersSupported(members, whole)
    ensures forall i :: 0 <= i < |members| ==> Supported(members[i].value)
    ensures EncodeMembers(members, whole) == Success(Joined(MemberTexts(AsFields(members))))
    decreases |members|
  {
    hide Supported, Quote;
    if members != [] {
      MembersAreJoined(members[1..], whole);
      assert forall i :: 0 < i < |members| ==> members[i] == members[1..][i - 1];
      assert AsFields(members)[1..] == AsFields(members[1..]);
      assert MemberTexts(AsFields(members))[1..] == MemberTexts(AsFields(members[1..]));
      EncodesExactlySupported(members[0].value);
    }
  }

  /** A mapping is its fields in ascending key order, each key's text, a colon and its value's text, with commas. */
  lemma MappingText(fields: seq<Field>) returns (order: seq<Field>)
    requires Supported(Obj(fields))
    ensures |order| == |fields| && (forall f :: f in order <==> f in fields) && KeysAscend(order)
    ensures forall i :: 0 <= i < |order| ==> Supported(order[i].value)
    ensures TextOf(Obj(fields)) == "{" + Joined(MemberTexts(order)) + "}"
  {
    hide Joined, MembersSupported, MemberTexts, SortedMembers, AsFields, KeysAscend, CheckedMembers;
    var members := SortedMembers(fields).value;
    SortedMembersAreSmaller(fields);
    MembersAreJoined(members, Obj(fields));
    order := AsFields(members);
    CheckedIffSorted(fields);
    FieldsInOrder(fields);
  }

  lemma CheckedIffSorted(fields: seq<Field>)
    ensures SortedMembers(fields).Success? <==> CheckedMembers(fields, {}).Success?
  {
  }

  lemma FieldsInOrder(fields: seq<Field>)
    requires CheckedMembers(fields, {}).Success? && SortedMembers(fields).Success?
    ensures var order := AsFields(SortedMembers(fields).value);
            && |order| == |fields| && KeysAscend(order)
            && forall f :: f in order <==> f in fields
  {
    hide TextLess, SortedMembers, CheckedMembers, Precedes;
    var members := SortedMembers(fields).value;
    var order := AsFields(members);
    MembersHaveDistinctKeys(fields);
    CheckedExactlyDistinct(fields, {});
    SameLength(fields);
    forall i, j | 0 <= i < j < |order|
      ensures Precedes(order[i].key.text, order[j].key.text)
    {
      assert BY_KEY(members[i], members[j]);
      TextLessIsFirstDifference(members[i].key, members[j].key);
    }
    forall f | f in fields
      ensures f in order
    {
      var m := Member(f.key.text, f.value);
      assert m in members;
      var i :| 0 <= i < |members| && members[i] == m;
      assert order[i] == f;
    }
    forall f | f in order
      ensures f in fields
    {
      var i :| 0 <= i < |order| && order[i] == f;
      assert members[i] in members;
    }
  }

  lemma SameLength(fields: seq<Field>)
    requires SortedMembers(fields).Success?
    ensures |SortedMembers(fields).value| == |fields|
  {
    MembersComeFromFields(fields, {});
    SortIsPermutation(BY_KEY, CheckedMembers(fields, {}).value);
    MembersOfPermutation(Sort(BY_KEY, CheckedMembers(fields, {}).value), CheckedMembers(fields, {}).value);
  }
}
