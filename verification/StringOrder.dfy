/** Strings in order. */
module StringOrder {
  import opened Lexicographic

  ghost function Codes(s: string): (r: seq<int>)
    ensures |r| == |s| && forall i :: 0 <= i < |s| ==> r[i] == s[i] as int
  {
    seq(|s|, i requires 0 <= i < |s| => s[i] as int)
  }

  /** The order of strings, byte by byte: that of sets and maps of strings, and of term lists. */
  predicate Before(s: string, t: string)
    ensures Before(s, t) <==> Precedes(Codes(s), Codes(t))
    decreases |s|
  {
    assert s != [] ==> Codes(s)[1..] == Codes(s[1..]);
    assert t != [] ==> Codes(t)[1..] == Codes(t[1..]);
    if t == [] then false
    else if s == [] then true
    else s[0] < t[0] || (s[0] == t[0] && Before(s[1..], t[1..]))
  }

  lemma SameCodes(s: string, t: string)
    requires Codes(s) == Codes(t)
    ensures s == t
  {
    forall i | 0 <= i < |s|
      ensures s[i] == t[i]
    {
      assert Codes(s)[i] == Codes(t)[i];
    }
  }

  lemma CodesPrefix(p: string, t: string)
    ensures p <= t <==> StartsWith(Codes(t), Codes(p))
  {
    if p <= t {
      assert Codes(t)[..|p|] == Codes(p);
    }
    if StartsWith(Codes(t), Codes(p)) {
      assert Codes(t[..|p|]) == Codes(t)[..|p|];
      SameCodes(t[..|p|], p);
    }
  }

  lemma BeforeTotal(s: string, t: string)
    ensures s == t || Before(s, t) || Before(t, s)
    ensures !(Before(s, t) && Before(t, s)) && !Before(s, s)
  {
    PrecedesTotal(Codes(s), Codes(t));
    PrecedesIrreflexive(Codes(s));
    if Codes(s) == Codes(t) {
      SameCodes(s, t);
    }
    if Precedes(Codes(s), Codes(t)) {
      PrecedesAsymmetric(Codes(s), Codes(t));
    }
  }

  lemma BeforeTransitive(s: string, t: string, u: string)
    requires Before(s, t) && Before(t, u)
    ensures Before(s, u)
  {
    PrecedesTransitive(Codes(s), Codes(t), Codes(u));
  }

  ghost predicate Sorted(ts: seq<string>) {
    forall i, j :: 0 <= i < j < |ts| ==> Before(ts[i], ts[j])
  }

  method Least(s: set<string>) returns (m: string)
    requires s != {}
    ensures m in s && forall t :: t in s && t != m ==> Before(m, t)
  {
    m :| m in s;
    var todo := s - {m};
    while todo != {}
      invariant todo <= s && m in s && m !in todo
      invariant forall t :: t in s - todo && t != m ==> Before(m, t)
    {
      var t :| t in todo;
      todo := todo - {t};
      BeforeTotal(m, t);
      if Before(t, m) {
        forall u | u in s - todo && u != t
          ensures Before(t, u)
        {
          if u != m {
            BeforeTransitive(t, m, u);
          }
        }
        m := t;
      }
    }
  }

  /** The elements of a set, in order. */
  method Listed(s: set<string>) returns (ts: seq<string>)
    ensures Sorted(ts)
    ensures forall t :: t in ts <==> t in s
  {
    ts := [];
    var todo := s;
    while todo != {}
      invariant todo <= s && Sorted(ts)
      invariant forall t :: t in ts <==> t in s - todo
      invariant forall t, u :: t in ts && u in todo ==> Before(t, u)
    {
      var m := Least(todo);
      todo := todo - {m};
      ts := ts + [m];
    }
  }
}
