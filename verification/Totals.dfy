/** Sums over the values of a dictionary, as Python's `sum(d.values())`. */
module Totals {
  import opened Prelude

  ghost function Sum(m: map<string, real>): real {
    if m.Keys == {} then 0.0 else var k :| k in m; m[k] + Sum(m - {k})
  }

  ghost function IntSum(m: map<string, int>): int {
    if m.Keys == {} then 0 else var k :| k in m; m[k] + IntSum(m - {k})
  }

  function Get(m: map<string, real>, k: string): real {
    if k in m then m[k] else 0.0
  }

  function IntGet(m: map<string, int>, k: string): int {
    if k in m then m[k] else 0
  }

  lemma {:induction false} SumRemove(m: map<string, real>, k: string)
    requires k in m
    ensures Sum(m) == m[k] + Sum(m - {k})
    decreases |m|
  {
    var c :| c in m && Sum(m) == m[c] + Sum(m - {c});
    if c != k {
      SumRemove(m - {c}, k);
      SumRemove(m - {k}, c);
      assert m - {c} - {k} == m - {k} - {c};
    }
  }

  lemma SumUpdate(m: map<string, real>, k: string, v: real)
    ensures Sum(m[k := v]) == Sum(m) - Get(m, k) + v
  {
    SumRemove(m[k := v], k);
    assert m[k := v] - {k} == m - {k};
    if k in m {
      SumRemove(m, k);
    } else {
      assert m - {k} == m;
    }
  }

  lemma SumDrop(m: map<string, real>, k: string)
    ensures Sum(m - {k}) == Sum(m) - Get(m, k)
  {
    if k in m {
      SumRemove(m, k);
    } else {
      assert m - {k} == m;
    }
  }

  lemma {:induction false} IntSumRemove(m: map<string, int>, k: string)
    requires k in m
    ensures IntSum(m) == m[k] + IntSum(m - {k})
    decreases |m|
  {
    var c :| c in m && IntSum(m) == m[c] + IntSum(m - {c});
    if c != k {
      IntSumRemove(m - {c}, k);
      IntSumRemove(m - {k}, c);
      assert m - {c} - {k} == m - {k} - {c};
    }
  }

  lemma IntSumUpdate(m: map<string, int>, k: string, v: int)
    ensures IntSum(m[k := v]) == IntSum(m) - IntGet(m, k) + v
  {
    IntSumRemove(m[k := v], k);
    assert m[k := v] - {k} == m - {k};
    if k in m {
      IntSumRemove(m, k);
    } else {
      assert m - {k} == m;
    }
  }

  lemma IntSumDrop(m: map<string, int>, k: string)
    ensures IntSum(m - {k}) == IntSum(m) - IntGet(m, k)
  {
    if k in m {
      IntSumRemove(m, k);
    } else {
      assert m - {k} == m;
    }
  }

  method SumValues(m: map<string, real>) returns (total: real)
    ensures total == Sum(m)
  {
    total := 0.0;
    var rest := m;
    while rest.Keys != {}
      invariant total + Sum(rest) == Sum(m)
      decreases |rest|
    {
      var k := AnyOf(rest.Keys);
      SumRemove(rest, k);
      total := total + rest[k];
      rest := rest - {k};
    }
  }

  method IntSumValues(m: map<string, int>) returns (total: int)
    ensures total == IntSum(m)
  {
    total := 0;
    var rest := m;
    while rest.Keys != {}
      invariant total + IntSum(rest) == IntSum(m)
      decreases |rest|
    {
      var k := AnyOf(rest.Keys);
      IntSumRemove(rest, k);
      total := total + rest[k];
      rest := rest - {k};
    }
  }
}
