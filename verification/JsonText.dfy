/** The canonical JSON encoder: compact text, keys in code-point order, numbers in decimal normal form. */
module JsonText {
  import opened Prelude
  import opened Rationals
  import opened Digits
  import opened DecimalText
  import opened FractionText
  import opened TextOrder
  import opened Sorting

  datatype Key = Text(text: string) | NotText

  datatype Field = Field(key: Key, value: Value)

  /** The Python values the encoder is given. */
  datatype Value =
    | Null
    | Bool(b: bool)
    | Int(n: int)
    | Dec(d: Decimal)
    | Str(s: string)
    | Obj(fields: seq<Field>)
    | Arr(isTuple: bool, items: seq<Value>)
    | BinaryFloat
    | OtherType

  datatype JsonError = NotFiniteNumber | FloatNotSupported | TypeNotSupported | KeyNotText | DuplicateKey

  // ---------- string literals ----------

  function HexDigit(d: nat): char
    requires d < 16
  {
    "0123456789abcdef"[d]
  }

  function EscapeChar(c: char): string {
    if c == '\"' then "\\\""
    else if c == '\\' then "\\\\"
    else if c == '\n' then "\\n"
    else if c == '\r' then "\\r"
    else if c == '\t' then "\\t"
    else if c == '\U{8}' then "\\b"
    else if c == '\U{c}' then "\\f"
    else if c < ' ' then "\\u00" + [HexDigit(c as int / 16), HexDigit(c as int % 16)]
    else [c]
  }

  function Escape(s: string): string {
    if s == "" then "" else EscapeChar(s[0]) + Escape(s[1..])
  }

  function Quote(s: string): string {
    "\"" + Escape(s) + "\""
  }

  // ---------- objects: collect, check and sort the members ----------

  datatype Member = Member(key: string, value: Value)

  predicate KeyBefore(a: Member, b: Member) {
    TextLess(a.key, b.key)
  }

  const BY_KEY: (Member, Member) -> bool := KeyBefore

  /** The members in the given order, or the first key that is not a string or was seen before. */
  function CheckedMembers(fields: seq<Field>, seen: set<string>): Result<seq<Member>, JsonError> {
    if fields == [] then Success([])
    else if fields[0].key.NotText? then Failure(KeyNotText)
    else if fields[0].key.text in seen then Failure(DuplicateKey)
    else
      match CheckedMembers(fields[1..], seen + {fields[0].key.text})
      case Success(rest) => Success([Member(fields[0].key.text, fields[0].value)] + rest)
      case Failure(e) => Failure(e)
  }

  function SortedMembers(fields: seq<Field>): Result<seq<Member>, JsonError> {
    match CheckedMembers(fields, {})
    case Success(members) => Success(Sort(BY_KEY, members))
    case Failure(e) => Failure(e)
  }

  /** The loop of `_encode_mapping` that fills the list and the seen-key set, and the sort after it. */
  method CollectMembers(fields: seq<Field>) returns (r: Result<seq<Member>, JsonError>)
    ensures r == SortedMembers(fields)
  {
    var items: seq<Member> := [];
    var seen: set<string> := {};
    assert fields[0..] == fields
           && (CheckedMembers(fields, {}).Success? ==>
               items + CheckedMembers(fields, {}).value == CheckedMembers(fields, {}).value);
    for i := 0 to |fields|
      invariant match CheckedMembers(fields[i..], seen)
                case Success(rest) => CheckedMembers(fields, {}) == Success(items + rest)
                case Failure(e) => CheckedMembers(fields, {}) == Failure(e)
    {
      var field := fields[i];
      assert fields[i..][0] == field && fields[i..][1..] == fields[i + 1..];
      if field.key.NotText? {
        return Failure(KeyNotText);
      }
      if field.key.text in seen {
        return Failure(DuplicateKey);
      }
      ghost var before := items;
      seen := seen + {field.key.text};
      items := items + [Member(field.key.text, field.value)];
      match CheckedMembers(fields[i + 1..], seen) {
        case Success(rest) => assert items + rest == before + ([Member(field.key.text, field.value)] + rest);
        case Failure(_) =>
      }
    }
    assert items + [] == items;
    items := Sort(BY_KEY, items);
    r := Success(items);
  }

  lemma {:induction false} MembersComeFromFields(fields: seq<Field>, seen: set<string>)
    requires CheckedMembers(fields, seen).Success?
    ensures var members := CheckedMembers(fields, seen).value;
            && |members| == |fields|
            && forall i :: 0 <= i < |fields| ==> fields[i] == Field(Text(members[i].key), members[i].value)
  {
    if fields != [] {
      MembersComeFromFields(fields[1..], seen + {fields[0].key.text});
    }
  }

  ghost predicate ItemsBelow(items: seq<Value>, whole: Value) {
    forall i :: 0 <= i < |items| ==> items[i] < whole
  }

  ghost predicate MembersBelow(members: seq<Member>, whole: Value) {
    forall i :: 0 <= i < |members| ==> members[i].value < whole
  }

  lemma SortedMembersAreSmaller(fields: seq<Field>)
    requires SortedMembers(fields).Success?
    ensures MembersBelow(SortedMembers(fields).value, Obj(fields))
  {
    MembersComeFromFields(fields, {});
    var members := CheckedMembers(fields, {}).value;
    SortKeepsMembers(BY_KEY, members);
    forall j | 0 <= j < |members|
      ensures SortedMembers(fields).value[j].value < Obj(fields)
    {
      var m := SortedMembers(fields).value[j];
      assert m in members;
      var i :| 0 <= i < |members| && members[i] == m;
      assert fields[i].value == m.value;
    }
  }

  // ---------- the encoder ----------

  function Encode(v: Value): Result<string, JsonError>
    decreases v, 1, 0
  {
    match v
    case Null => Success("null")
    case Bool(b) => Success(if b then "true" else "false")
    case Int(n) => Success(IntText(n))
    case Dec(d) => if d.Finite? then Success(PrintDecimal(d).value) else Failure(NotFiniteNumber)
    case Str(s) => Success(Quote(s))
    case Obj(fields) =>
      var members :- SortedMembers(fields);
      SortedMembersAreSmaller(fields);
      var body :- EncodeMembers(members, v);
      Success("{" + body + "}")
    case Arr(_, items) =>
      var body :- EncodeItems(items, v);
      Success("[" + body + "]")
    case BinaryFloat => Failure(FloatNotSupported)
    case OtherType => Failure(TypeNotSupported)
  }

  /** `",".join(...)` over the encoded items. */
  function EncodeItems(items: seq<Value>, ghost whole: Value): Result<string, JsonError>
    requires ItemsBelow(items, whole)
    decreases whole, 0, |items|
  {
    if items == [] then Success("")
    else
      var first :- Encode(items[0]);
      var rest :- EncodeItems(items[1..], whole);
      Success(if |items| == 1 then first else first + "," + rest)
  }

  function EncodeMembers(members: seq<Member>, ghost whole: Value): Result<string, JsonError>
    requires MembersBelow(members, whole)
    decreases whole, 0, |members|
  {
    if members == [] then Success("")
    else
      var text :- Encode(members[0].value);
      var first := Quote(members[0].key) + ":" + text;
      var rest :- EncodeMembers(members[1..], whole);
      Success(if |members| == 1 then first else first + "," + rest)
  }

  // ---------- what a value means ----------

  /** A value up to key order, list or tuple, and Int or Decimal spelling of the same number. */
  datatype Meaning =
    | NullMeaning
    | BoolMeaning(b: bool)
    | NumMeaning(f: Fraction)
    | StrMeaning(s: string)
    | ObjMeaning(members: seq<Entry>)
    | ArrMeaning(items: seq<Meaning>)

  datatype Entry = Entry(key: string, meaning: Meaning)

  predicate Supported(v: Value)
    decreases v, 1, 0
  {
    match v
    case Dec(d) => d.Finite?
    case Obj(fields) =>
      SortedMembers(fields).Success?
      && (SortedMembersAreSmaller(fields); MembersSupported(SortedMembers(fields).value, v))
    case Arr(_, items) => ItemsSupported(items, v)
    case BinaryFloat => false
    case OtherType => false
    case _ => true
  }

  predicate ItemsSupported(items: seq<Value>, ghost whole: Value)
    requires ItemsBelow(items, whole)
    decreases whole, 0, |items|
  {
    items == [] || (Supported(items[0]) && ItemsSupported(items[1..], whole))
  }

  predicate MembersSupported(members: seq<Member>, ghost whole: Value)
    requires MembersBelow(members, whole)
    decreases whole, 0, |members|
  {
    members == [] || (Supported(members[0].value) && MembersSupported(members[1..], whole))
  }

  function MeaningOf(v: Value): Meaning
    requires Supported(v)
    decreases v, 1, 0
  {
    match v
    case Null => NullMeaning
    case Bool(b) => BoolMeaning(b)
    case Int(n) => NumMeaning(FromInt(n))
    case Dec(d) => NumMeaning(DecimalValue(d))
    case Str(s) => StrMeaning(s)
    case Obj(fields) =>
      SortedMembersAreSmaller(fields);
      ObjMeaning(MembersMeaning(SortedMembers(fields).value, v))
    case Arr(_, items) => ArrMeaning(ItemsMeaning(items, v))
  }

  function ItemsMeaning(items: seq<Value>, ghost whole: Value): seq<Meaning>
    requires ItemsBelow(items, whole)
    requires ItemsSupported(items, whole)
    decreases whole, 0, |items|
  {
    if items == [] then [] else [MeaningOf(items[0])] + ItemsMeaning(items[1..], whole)
  }

  function MembersMeaning(members: seq<Member>, ghost whole: Value): seq<Entry>
    requires MembersBelow(members, whole)
    requires MembersSupported(members, whole)
    decreases whole, 0, |members|
  {
    if members == [] then []
    else [Entry(members[0].key, MeaningOf(members[0].value))] + MembersMeaning(members[1..], whole)
  }

  // ---------- encoding succeeds exactly on supported values ----------

  lemma {:induction false} EncodesExactlySupported(v: Value)
    ensures Encode(v).Success? <==> Supported(v)
    decreases v, 1, 0
  {
    match v {
      case Obj(fields) =>
        if SortedMembers(fields).Success? {
          SortedMembersAreSmaller(fields);
          MembersEncodeExactly(SortedMembers(fields).value, v);
        }
      case Arr(_, items) => ItemsEncodeExactly(items, v);
      case _ =>
    }
  }

  lemma {:induction false} ItemsEncodeExactly(items: seq<Value>, whole: Value)
    requires ItemsBelow(items, whole)
    ensures EncodeItems(items, whole).Success? <==> ItemsSupported(items, whole)
    decreases whole, 0, |items|
  {
    if items != [] {
      EncodesExactlySupported(items[0]);
      ItemsEncodeExactly(items[1..], whole);
    }
  }

  lemma {:induction false} MembersEncodeExactly(members: seq<Member>, whole: Value)
    requires MembersBelow(members, whole)
    ensures EncodeMembers(members, whole).Success? <==> MembersSupported(members, whole)
    decreases whole, 0, |members|
  {
    if members != [] {
      EncodesExactlySupported(members[0].value);
      MembersEncodeExactly(members[1..], whole);
    }
  }

  // ---------- numbers ----------

  lemma IntTextRoundTrip(n: int)
    ensures NormalForm(IntText(n)) && ParseDecimalText(IntText(n)) == Success(FromInt(n))
  {
    hide NatText, NormalForm, ParseDecimalText, Make;
    if n == 0 {
      ZeroText();
      NatZero();
    } else {
      assert IntText(n) == SignText(n < 0) + NatText(Abs(n));
      WholeTextIsNormal(n < 0, Abs(n));
      MakeSelf(FromInt(n));
    }
  }

  lemma NatZero()
    ensures NatText(0) == "0"
  {
  }
}
