/** Two supported values share a canonical text exactly when they mean the same; key order never matters. */
module JsonIdentity {
  import opened Prelude
  import opened Rationals
  import opened Digits
  import opened DecimalText
  import opened FractionText
  import opened TextOrder
  import opened Sorting
  import opened JsonText
  import opened JsonDecoder

  // ---------- the text is a function of the meaning ----------

  function MeaningText(m: Meaning): string {
    match m
    case NullMeaning => "null"
    case BoolMeaning(b) => if b then "true" else "false"
    case NumMeaning(f) => if PrintFraction(f).Success? then PrintFraction(f).value else ""
    case StrMeaning(s) => Quote(s)
    case ObjMeaning(members) => "{" + MembersText(members) + "}"
    case ArrMeaning(items) => "[" + ItemsText(items) + "]"
  }

  function ItemsText(items: seq<Meaning>): string {
    if items == [] then ""
    else if |items| == 1 then MeaningText(items[0])
    else MeaningText(items[0]) + "," + ItemsText(items[1..])
  }

  function MembersText(members: seq<Entry>): string {
    if members == [] then ""
    else
      var first := Quote(members[0].key) + ":" + MeaningText(members[0].meaning);
      if |members| == 1 then first else first + "," + MembersText(members[1..])
  }

  lemma IntPrintsAsFraction(n: int)
    ensures PrintFraction(FromInt(n)) == Success(IntText(n))
  {
    hide PrintFraction, NormalForm, ParseDecimalText, IntText;
    IntTextRoundTrip(n);
    assert TerminatesAt(FromInt(n), n, 0);
    PrintsExactlyTerminating(FromInt(n));
    PrintFractionRoundTrip(FromInt(n));
    NormalFormIsUnique(IntText(n), PrintFraction(FromInt(n)).value);
  }

  lemma {:induction false} EncodeIsMeaningText(v: Value)
    requires Supported(v) && Encode(v).Success?
    ensures Encode(v).value == MeaningText(MeaningOf(v))
    decreases v, 1, 0
  {
    hide PrintDecimal, PrintFraction, IntText, DecimalValue, Quote, SortedMembers, EncodeItems, EncodeMembers,
         ItemsMeaning, MembersMeaning, ItemsText, MembersText;
    match v {
      case Int(n) => IntPrintsAsFraction(n);
      case Dec(d) =>
        PrintersAgree(d);
        PrintDecimalRoundTrip(d);
      case Obj(fields) =>
        SortedMembersAreSmaller(fields);
        EncodeIsMembersText(SortedMembers(fields).value, v);
      case Arr(_, items) => EncodeIsItemsText(items, v);
      case _ =>
    }
  }

  lemma {:induction false} EncodeIsItemsText(items: seq<Value>, whole: Value)
    requires ItemsBelow(items, whole) && ItemsSupported(items, whole) && EncodeItems(items, whole).Success?
    ensures EncodeItems(items, whole).value == ItemsText(ItemsMeaning(items, whole))
    ensures |ItemsMeaning(items, whole)| == |items|
    decreases whole, 0, |items|
  {
    hide Encode, Supported, MeaningOf, MeaningText;
    if items != [] {
      EncodeIsMeaningText(items[0]);
      EncodeIsItemsText(items[1..], whole);
      assert ItemsMeaning(items, whole)[1..] == ItemsMeaning(items[1..], whole);
    }
  }

  lemma {:induction false} EncodeIsMembersText(members: seq<Member>, whole: Value)
    requires MembersBelow(members, whole) && MembersSupported(members, whole) && EncodeMembers(members, whole).Success?
    ensures EncodeMembers(members, whole).value == MembersText(MembersMeaning(members, whole))
    ensures |MembersMeaning(members, whole)| == |members|
    decreases whole, 0, |members|
  {
    hide Encode, Supported, MeaningOf, MeaningText, Quote;
    if members != [] {
      EncodeIsMeaningText(members[0].value);
      EncodeIsMembersText(members[1..], whole);
      assert MembersMeaning(members, whole)[1..] == MembersMeaning(members[1..], whole);
    }
  }

  /** Same text if and only if same meaning, so an injective digest of the text identifies the meaning. */
  lemma SameTextSameMeaning(v: Value, w: Value)
    requires Supported(v) && Supported(w)
    ensures Encode(v).Success? && Encode(w).Success?
    ensures Encode(v).value == Encode(w).value <==> MeaningOf(v) == MeaningOf(w)
  {
    hide *;
    DecodeRecoversMeaning(v);
    DecodeRecoversMeaning(w);
    EncodeIsMeaningText(v);
    EncodeIsMeaningText(w);
  }

  // ---------- objects, independently of the order of their keys ----------

  ghost predicate TextKeys(fields: seq<Field>, seen: set<string>) {
    forall i :: 0 <= i < |fields| ==> fields[i].key.Text? && fields[i].key.text !in seen
  }

  const FIELD_KEY: Field -> Key := (f: Field) => f.key

  ghost predicate DistinctTextKeys(fields: seq<Field>) {
    Distinct(FIELD_KEY, fields)
  }

  lemma {:induction false} CheckedExactlyDistinct(fields: seq<Field>, seen: set<string>)
    ensures CheckedMembers(fields, seen).Success? <==> TextKeys(fields, seen) && DistinctTextKeys(fields)
  {
    if fields != [] && fields[0].key.Text? && fields[0].key.text !in seen {
      var rest, seen' := fields[1..], seen + {fields[0].key.text};
      CheckedExactlyDistinct(rest, seen');
      assert forall i :: 0 <= i < |rest| ==> rest[i] == fields[i + 1];
      if TextKeys(rest, seen') && DistinctTextKeys(rest) {
        DistinctCons(fields, seen);
      }
      if TextKeys(fields, seen) && DistinctTextKeys(fields) {
        forall i | 0 <= i < |rest|
          ensures rest[i].key.Text? && rest[i].key.text !in seen'
        {
          assert FIELD_KEY(fields[0]) != FIELD_KEY(fields[i + 1]);
        }
      }
    }
  }

  lemma DistinctCons(fields: seq<Field>, seen: set<string>)
    requires fields != [] && fields[0].key.Text? && fields[0].key.text !in seen
    requires TextKeys(fields[1..], seen + {fields[0].key.text}) && DistinctTextKeys(fields[1..])
    ensures TextKeys(fields, seen) && DistinctTextKeys(fields)
  {
    var rest := fields[1..];
    forall i | 0 <= i < |fields|
      ensures fields[i].key.Text? && fields[i].key.text !in seen
    {
      if i > 0 { assert rest[i - 1].key.text !in seen + {fields[0].key.text}; }
    }
    forall i, j | 0 <= i < j < |fields|
      ensures FIELD_KEY(fields[i]) != FIELD_KEY(fields[j])
    {
      assert rest[j - 1].key.text !in seen + {fields[0].key.text};
      if i > 0 { assert FIELD_KEY(rest[i - 1]) != FIELD_KEY(rest[j - 1]); }
    }
  }

  lemma ByKeyIsWeakOrder()
    ensures WeakOrder(BY_KEY)
  {
    forall x: Member, y: Member | BY_KEY(x, y)
      ensures !BY_KEY(y, x)
    {
      TextLessAsymmetric(x.key, y.key);
    }
    forall x: Member, y: Member, z: Member | !BY_KEY(x, y) && !BY_KEY(y, z)
      ensures !BY_KEY(x, z)
    {
      NotTextLessTransitive(x.key, y.key, z.key);
    }
  }

  lemma MembersHaveDistinctKeys(fields: seq<Field>)
    requires CheckedMembers(fields, {}).Success?
    ensures StrictlySorted(BY_KEY, SortedMembers(fields).value)
    ensures forall m :: m in SortedMembers(fields).value <==> Field(Text(m.key), m.value) in fields
  {
    var members := CheckedMembers(fields, {}).value;
    MembersComeFromFields(fields, {});
    CheckedExactlyDistinct(fields, {});
    ByKeyIsWeakOrder();
    SortIsSorted(BY_KEY, members);
    var s := Sort(BY_KEY, members);
    SortIsPermutation(BY_KEY, members);
    MembersOfPermutation(s, members);
    var name := (m: Member) => m.key;
    forall i, j | 0 <= i < j < |members|
      ensures name(members[i]) != name(members[j])
    {
      assert FIELD_KEY(fields[i]) != FIELD_KEY(fields[j]);
    }
    DistinctAfterPermutation(name, s, members);
    forall i, j | 0 <= i < j < |s|
      ensures BY_KEY(s[i], s[j])
    {
      assert name(s[i]) != name(s[j]);
      TextLessTotal(s[i].key, s[j].key);
    }
    forall m
      ensures m in s <==> Field(Text(m.key), m.value) in fields
    {
      if m in members {
        var i :| 0 <= i < |members| && members[i] == m;
        assert fields[i] == Field(Text(m.key), m.value);
      }
      if Field(Text(m.key), m.value) in fields {
        var i :| 0 <= i < |fields| && fields[i] == Field(Text(m.key), m.value);
        assert members[i] == m;
      }
    }
  }

  lemma {:induction false} WholeDoesNotMatter(members: seq<Member>, v: Value, w: Value)
    requires MembersBelow(members, v) && MembersBelow(members, w)
    ensures MembersSupported(members, v) <==> MembersSupported(members, w)
    ensures MembersSupported(members, v) ==> MembersMeaning(members, v) == MembersMeaning(members, w)
    decreases |members|
  {
    hide Supported, MeaningOf;
    if members != [] {
      WholeDoesNotMatter(members[1..], v, w);
    }
  }

  /** Reordering the keys of a mapping changes neither whether it can be encoded nor what it means. */
  lemma KeyOrderIsIrrelevant(fields: seq<Field>, others: seq<Field>)
    requires multiset(fields) == multiset(others) && Supported(Obj(fields))
    ensures Supported(Obj(others)) && MeaningOf(Obj(others)) == MeaningOf(Obj(fields))
  {
    hide MembersSupported, MembersMeaning;
    CheckedExactlyDistinct(fields, {});
    CheckedExactlyDistinct(others, {});
    ReorderedKeys(fields, others);
    MembersHaveDistinctKeys(fields);
    MembersHaveDistinctKeys(others);
    var s, t := SortedMembers(fields).value, SortedMembers(others).value;
    MembersOfPermutation(fields, others);
    assert forall m :: m in s <==> m in t;
    ByKeyIsWeakOrder();
    StrictlySortedIsUnique(BY_KEY, s, t);
    SortedMembersAreSmaller(fields);
    SortedMembersAreSmaller(others);
    WholeDoesNotMatter(s, Obj(fields), Obj(others));
  }

  lemma ReorderedKeys(fields: seq<Field>, others: seq<Field>)
    requires multiset(fields) == multiset(others)
    requires TextKeys(fields, {}) && DistinctTextKeys(fields)
    ensures TextKeys(others, {}) && DistinctTextKeys(others)
  {
    MembersOfPermutation(fields, others);
    forall i | 0 <= i < |others|
      ensures others[i].key.Text?
    {
      assert others[i] in fields;
    }
    DistinctAfterPermutation(FIELD_KEY, others, fields);
  }
}
