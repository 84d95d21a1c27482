/** Python's order on strings: lexicographic by code point. */
module TextOrder {

  predicate TextLess(s: string, t: string) {
    t != "" && (s == "" || s[0] < t[0] || (s[0] == t[0] && TextLess(s[1..], t[1..])))
  }

  lemma {:induction false} TextLessIrreflexive(s: string)
    ensures !TextLess(s, s)
  {
    if s != "" {
      TextLessIrreflexive(s[1..]);
    }
  }

  lemma {:induction false} TextLessAsymmetric(s: string, t: string)
    requires TextLess(s, t)
    ensures !TextLess(t, s)
  {
    if s != "" && s[0] == t[0] {
      TextLessAsymmetric(s[1..], t[1..]);
    }
  }

  lemma {:induction false} TextLessTransitive(s: string, t: string, u: string)
    requires TextLess(s, t) && TextLess(t, u)
    ensures TextLess(s, u)
  {
    if s != "" && s[0] == t[0] == u[0] {
      TextLessTransitive(s[1..], t[1..], u[1..]);
    }
  }

  lemma {:induction false} TextLessTotal(s: string, t: string)
    ensures TextLess(s, t) || s == t || TextLess(t, s)
  {
    if s != "" && t != "" && s[0] == t[0] {
      TextLessTotal(s[1..], t[1..]);
      assert s == [s[0]] + s[1..] && t == [t[0]] + t[1..];
    }
  }

  lemma NotTextLessTransitive(s: string, t: string, u: string)
    requires !TextLess(s, t) && !TextLess(t, u)
    ensures !TextLess(s, u)
  {
    TextLessTotal(s, t);
    TextLessTotal(t, u);
    if TextLess(s, u) {
      TextLessAsymmetric(s, u);
      if TextLess(t, s) && TextLess(u, t) {
        TextLessTransitive(u, t, s);
      }
    }
  }

  /** The texts agree before k, and there the first one ends or has the smaller code point. */
  ghost predicate DiffersAt(s: string, t: string, k: nat) {
    k <= |s| && k < |t| && s[..k] == t[..k] && (k == |s| || s[k] < t[k])
  }

  /** The first difference decides: a proper prefix, or the smaller code point, comes first. */
  ghost predicate Precedes(s: string, t: string) {
    exists k: nat :: DiffersAt(s, t, k)
  }

  lemma SameStart(s: string, t: string, k: nat)
    requires DiffersAt(s, t, k)
    ensures k > 0 ==> s[0] == t[0]
  {
    if k > 0 {
      assert s[..k][0] == t[..k][0];
    }
  }

  /** The order is decided by the first difference. */
  lemma {:induction false} TextLessIsFirstDifference(s: string, t: string)
    ensures TextLess(s, t) <==> Precedes(s, t)
  {
    if s == "" || t == "" || s[0] != t[0] {
      if t != "" && (s == "" || s[0] < t[0]) {
        assert DiffersAt(s, t, 0);
      }
      forall k: nat | DiffersAt(s, t, k)
        ensures k == 0
      {
        SameStart(s, t, k);
      }
    } else {
      TextLessIsFirstDifference(s[1..], t[1..]);
      if k: nat :| DiffersAt(s[1..], t[1..], k) {
        assert s[..k + 1] == [s[0]] + s[1..][..k] && t[..k + 1] == [t[0]] + t[1..][..k];
        assert DiffersAt(s, t, k + 1);
      }
      if k: nat :| DiffersAt(s, t, k) {
        assert s[1..][..k - 1] == s[..k][1..] && t[1..][..k - 1] == t[..k][1..];
        assert DiffersAt(s[1..], t[1..], k - 1);
      }
    }
  }
}
