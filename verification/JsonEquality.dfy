/** Equality of values as data, at any depth, without encoding or sorting: it is what two equal canonical texts mean. */
module JsonEquality {
  import opened Prelude
  import opened Rationals
  import opened GridRounding
  import opened DecimalText
  import opened TextOrder
  import opened Sorting
  import opened JsonText
  import opened JsonIdentity

  predicate IsNumber(v: Value) {
    v.Int? || (v.Dec? && v.d.Finite?)
  }

  ghost function Number(v: Value): real
    requires IsNumber(v)
  {
    if v.Int? then v.n as real else Val(DecimalValue(v.d))
  }

  /** Numbers by amount, lists and tuples item by item, mappings as maps from key to value. */
  ghost predicate Same(v: Value, w: Value)
    decreases v
  {
    match v
    case Obj(fields) =>
      w.Obj? && (forall f :: f in fields ==> IsIn(f, w.fields)) && (forall g :: g in w.fields ==> Holds(fields, g))
    case Arr(_, items) =>
      w.Arr? && |items| == |w.items| && forall i :: 0 <= i < |items| ==> Same(items[i], w.items[i])
    case _ => if IsNumber(v) && IsNumber(w) then Number(v) == Number(w) else v == w
  }

  ghost predicate SameField(f: Field, g: Field)
    decreases f, 0
  {
    f.key == g.key && Same(f.value, g.value)
  }

  /** The field, up to sameness of its value, is among the others. */
  ghost predicate IsIn(f: Field, others: seq<Field>)
    decreases f, 1
  {
    exists g :: g in others && SameField(f, g)
  }

  /** The same the other way round; termination rests on the left-hand value. */
  ghost predicate Holds(fields: seq<Field>, g: Field)
    decreases fields
  {
    exists f :: f in fields && SameField(f, g)
  }

  // ---------- meanings of the parts of a value ----------

  lemma {:induction false} ItemsMeaningAt(items: seq<Value>, whole: Value)
    requires ItemsBelow(items, whole) && ItemsSupported(items, whole)
    ensures |ItemsMeaning(items, whole)| == |items|
    ensures forall i :: 0 <= i < |items| ==>
              Supported(items[i]) && ItemsMeaning(items, whole)[i] == MeaningOf(items[i])
  {
    hide Supported, MeaningOf;
    if items != [] {
      ItemsMeaningAt(items[1..], whole);
      assert forall i :: 0 < i < |items| ==> items[i] == items[1..][i - 1];
    }
  }

  lemma {:induction false} MembersMeaningAt(members: seq<Member>, whole: Value)
    requires MembersBelow(members, whole) && MembersSupported(members, whole)
    ensures |MembersMeaning(members, whole)| == |members|
    ensures forall i :: 0 <= i < |members| ==>
              Supported(members[i].value)
              && MembersMeaning(members, whole)[i] == Entry(members[i].key, MeaningOf(members[i].value))
  {
    hide Supported, MeaningOf;
    if members != [] {
      MembersMeaningAt(members[1..], whole);
      assert forall i :: 0 < i < |members| ==> members[i] == members[1..][i - 1];
    }
  }

  predicate EntryBefore(a: Entry, b: Entry) {
    TextLess(a.key, b.key)
  }

  const BY_ENTRY_KEY: (Entry, Entry) -> bool := EntryBefore

  lemma ByEntryKeyIsWeakOrder()
    ensures WeakOrder(BY_ENTRY_KEY)
  {
    forall x: Entry, y: Entry | BY_ENTRY_KEY(x, y)
      ensures !BY_ENTRY_KEY(y, x)
    {
      TextLessAsymmetric(x.key, y.key);
    }
    forall x: Entry, y: Entry, z: Entry | !BY_ENTRY_KEY(x, y) && !BY_ENTRY_KEY(y, z)
      ensures !BY_ENTRY_KEY(x, z)
    {
      NotTextLessTransitive(x.key, y.key, z.key);
    }
  }

  /** The meaning of a supported field. */
  ghost predicate Means(f: Field, e: Entry) {
    f.key == Text(e.key) && Supported(f.value) && MeaningOf(f.value) == e.meaning
  }

  ghost predicate EachMeans(fields: seq<Field>, entries: seq<Entry>) {
    forall f :: f in fields ==> exists e :: e in entries && Means(f, e)
  }

  ghost predicate EachMeant(fields: seq<Field>, entries: seq<Entry>) {
    forall e :: e in entries ==> exists f :: f in fields && Means(f, e)
  }

  /** The entries of a mapping are the meanings of its fields, in key order. */
  lemma EntriesOfFields(fields: seq<Field>)
    requires Supported(Obj(fields))
    ensures MeaningOf(Obj(fields)).ObjMeaning?
    ensures var entries := MeaningOf(Obj(fields)).members;
            && StrictlySorted(BY_ENTRY_KEY, entries)
            && EachMeans(fields, entries) && EachMeant(fields, entries)
  {
    hide MembersSupported, MembersMeaning, SortedMembers;
    assert MeaningOf(Obj(fields)).ObjMeaning?;
    assert CheckedMembers(fields, {}).Success? by { SortedAreChecked(fields); }
    SortedMembersAreSmaller(fields);
    MembersHaveDistinctKeys(fields);
    var members, entries := SortedMembers(fields).value, MeaningOf(Obj(fields)).members;
    MembersMeaningAt(members, Obj(fields));
    forall i, j | 0 <= i < j < |entries|
      ensures BY_ENTRY_KEY(entries[i], entries[j])
    {
      assert BY_KEY(members[i], members[j]);
    }
    CheckedExactlyDistinct(fields, {});
    forall f | f in fields
      ensures exists e :: e in entries && Means(f, e)
    {
      var m := Member(f.key.text, f.value);
      assert m in members;
      var i :| 0 <= i < |members| && members[i] == m;
      assert entries[i] in entries && Means(f, entries[i]);
    }
    forall e | e in entries
      ensures exists f :: f in fields && Means(f, e)
    {
      var i :| 0 <= i < |entries| && entries[i] == e;
      var f := Field(Text(members[i].key), members[i].value);
      assert members[i] in members;
      assert f in fields && Means(f, e);
    }
  }

  lemma SortedAreChecked(fields: seq<Field>)
    ensures SortedMembers(fields).Success? <==> CheckedMembers(fields, {}).Success?
  {
  }

  lemma NumberMeaning(v: Value)
    requires IsNumber(v)
    ensures Supported(v) && MeaningOf(v).NumMeaning? && Val(MeaningOf(v).f) == Number(v)
  {
    hide DecimalValue;
    if v.Int? {
      IntVal(v.n);
    }
  }

  // ---------- the same data, the same meaning, the same text ----------

  lemma {:induction false} SameIffSameMeaning(v: Value, w: Value)
    requires Supported(v) && Supported(w)
    ensures Same(v, w) <==> MeaningOf(v) == MeaningOf(w)
    decreases v, 1
  {
    if IsNumber(v) && IsNumber(w) {
      SameNumbers(v, w);
    } else if v.Arr? && w.Arr? {
      SameItems(v, w);
    } else if v.Obj? && w.Obj? {
      SameFields(v, w);
    } else {
      hide ItemsMeaning, MembersMeaning, DecimalValue;
    }
  }

  lemma SameNumbers(v: Value, w: Value)
    requires IsNumber(v) && IsNumber(w)
    ensures Same(v, w) <==> MeaningOf(v) == MeaningOf(w)
  {
    hide MeaningOf, Val, Number;
    NumberMeaning(v);
    NumberMeaning(w);
    if Same(v, w) {
      ValInjective(MeaningOf(v).f, MeaningOf(w).f);
    }
  }

  lemma {:induction false} SameItems(v: Value, w: Value)
    requires v.Arr? && w.Arr? && Supported(v) && Supported(w)
    ensures Same(v, w) <==> MeaningOf(v) == MeaningOf(w)
    decreases v, 0
  {
    hide ItemsMeaning, ItemsSupported;
    ItemsMeaningAt(v.items, v);
    ItemsMeaningAt(w.items, w);
    if |v.items| == |w.items| {
      forall i | 0 <= i < |v.items|
        ensures Same(v.items[i], w.items[i]) <==> ItemsMeaning(v.items, v)[i] == ItemsMeaning(w.items, w)[i]
      {
        SameIffSameMeaning(v.items[i], w.items[i]);
      }
    }
  }

  lemma {:induction false} SameFieldIffSameEntry(f: Field, g: Field, a: Entry, b: Entry)
    requires Means(f, a) && Means(g, b)
    ensures SameField(f, g) <==> a == b
    decreases f
  {
    SameIffSameMeaning(f.value, g.value);
  }

  /** For the fields of these two mappings, being the same is having the same entry. */
  ghost predicate Agree(fields: seq<Field>, others: seq<Field>) {
    forall f, g, x, y :: f in fields && g in others && Means(f, x) && Means(g, y) ==> (SameField(f, g) <==> x == y)
  }

  lemma AgreeAt(fields: seq<Field>, others: seq<Field>, f: Field, g: Field, x: Entry, y: Entry)
    requires Agree(fields, others) && f in fields && g in others && Means(f, x) && Means(g, y)
    ensures SameField(f, g) <==> x == y
  {
    hide SameField, Means;
  }

  lemma InIffShared(fields: seq<Field>, others: seq<Field>, rest: seq<Entry>, f: Field, x: Entry)
    requires Agree(fields, others) && f in fields && Means(f, x)
    requires EachMeans(others, rest) && EachMeant(others, rest)
    ensures IsIn(f, others) <==> x in rest
  {
    hide Agree, SameField, Means;
    if IsIn(f, others) {
      var g :| g in others && SameField(f, g);
      var y :| y in rest && Means(g, y);
      AgreeAt(fields, others, f, g, x, y);
    }
    if x in rest {
      var g :| g in others && Means(g, x);
      AgreeAt(fields, others, f, g, x, x);
    }
  }

  lemma HeldIffShared(fields: seq<Field>, others: seq<Field>, entries: seq<Entry>, g: Field, y: Entry)
    requires Agree(fields, others) && g in others && Means(g, y)
    requires EachMeans(fields, entries) && EachMeant(fields, entries)
    ensures Holds(fields, g) <==> y in entries
  {
    hide Agree, SameField, Means;
    if Holds(fields, g) {
      var f :| f in fields && SameField(f, g);
      var x :| x in entries && Means(f, x);
      AgreeAt(fields, others, f, g, x, y);
    }
    if y in entries {
      var f :| f in fields && Means(f, y);
      AgreeAt(fields, others, f, g, y, y);
    }
  }

  /** Two mappings are the same exactly when they have the same entries. */
  lemma SameIffShared(v: Value, w: Value, entries: seq<Entry>, rest: seq<Entry>)
    requires v.Obj? && w.Obj? && Agree(v.fields, w.fields)
    requires EachMeans(v.fields, entries) && EachMeant(v.fields, entries)
    requires EachMeans(w.fields, rest) && EachMeant(w.fields, rest)
    ensures Same(v, w) <==> forall e :: e in entries <==> e in rest
  {
    hide Agree, Means, IsIn, Holds;
    forall f, x | f in v.fields && Means(f, x)
      ensures IsIn(f, w.fields) <==> x in rest
    {
      InIffShared(v.fields, w.fields, rest, f, x);
    }
    forall g, y | g in w.fields && Means(g, y)
      ensures Holds(v.fields, g) <==> y in entries
    {
      HeldIffShared(v.fields, w.fields, entries, g, y);
    }
  }

  lemma {:induction false} SameFields(v: Value, w: Value)
    requires v.Obj? && w.Obj? && Supported(v) && Supported(w)
    ensures Same(v, w) <==> MeaningOf(v) == MeaningOf(w)
    decreases v, 0, 1
  {
    hide *;
    assert v == Obj(v.fields) && w == Obj(w.fields);
    FieldsAgree(v, w);
    EntriesOfFields(v.fields);
    EntriesOfFields(w.fields);
    var a, b := MeaningOf(v).members, MeaningOf(w).members;
    SameIffShared(v, w, a, b);
    if forall e :: e in a <==> e in b {
      ByEntryKeyIsWeakOrder();
      StrictlySortedIsUnique(BY_ENTRY_KEY, a, b);
    }
  }

  lemma {:induction false} FieldsAgree(v: Value, w: Value)
    requires v.Obj? && w.Obj?
    ensures Agree(v.fields, w.fields)
    decreases v, 0, 0
  {
    hide SameField, Means;
    forall f, g, x, y | f in v.fields && g in w.fields && Means(f, x) && Means(g, y)
      ensures SameField(f, g) <==> x == y
    {
      SameFieldIffSameEntry(f, g, x, y);
    }
  }

  /** Two supported values have one canonical text exactly when they are the same data. */
  lemma SameDataSameText(v: Value, w: Value)
    requires Supported(v) && Supported(w)
    ensures Encode(v).Success? && Encode(w).Success?
    ensures Same(v, w) <==> Encode(v).value == Encode(w).value
  {
    hide *;
    SameTextSameMeaning(v, w);
    SameIffSameMeaning(v, w);
  }
}
