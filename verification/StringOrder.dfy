/** The order JavaScript sorts strings by (code unit by code unit) and sorting by it. */
module StringOrder {

  predicate Less(a: string, b: string) {
    b != "" && (a == "" || a[0] < b[0] || (a[0] == b[0] && Less(a[1..], b[1..])))
  }

  lemma {:induction false} LessTrichotomy(a: string, b: string)
    ensures a == b || Less(a, b) || Less(b, a)
    ensures !(Less(a, b) && Less(b, a))
    ensures a == b ==> !Less(a, b)
  {
    if a != "" && b != "" {
      LessTrichotomy(a[1..], b[1..]);
      assert a == [a[0]] + a[1..] && b == [b[0]] + b[1..];
    }
  }

  lemma {:induction false} LessTransitive(a: string, b: string, c: string)
    requires Less(a, b) && Less(b, c)
    ensures Less(a, c)
  {
    if a != "" && a[0] == b[0] == c[0] {
      LessTransitive(a[1..], b[1..], c[1..]);
    }
  }

  predicate StrictlySorted(s: seq<string>) {
    forall i, j :: 0 <= i < j < |s| ==> Less(s[i], s[j])
  }

  predicate Distinct(s: seq<string>) {
    forall i, j :: 0 <= i < j < |s| ==> s[i] != s[j]
  }

  function Insert(x: string, s: seq<string>): (r: seq<string>)
    ensures multiset(r) == multiset(s) + multiset{x}
  {
    if s == [] then [x]
    else if Less(s[0], x) then
      assert s == [s[0]] + s[1..];
      [s[0]] + Insert(x, s[1..])
    else [x] + s
  }

  function Sort(s: seq<string>): (r: seq<string>)
    ensures multiset(r) == multiset(s)
  {
    if s == [] then []
    else
      assert s == [s[0]] + s[1..];
      Insert(s[0], Sort(s[1..]))
  }

  lemma {:induction false} InsertSorted(x: string, s: seq<string>)
    requires StrictlySorted(s) && x !in s
    ensures StrictlySorted(Insert(x, s))
  {
    if s != [] {
      LessTrichotomy(s[0], x);
      var r := Insert(x, s[1..]);
      InsertSorted(x, s[1..]);
      if Less(s[0], x) {
        forall i | 0 <= i < |r| ensures Less(s[0], r[i]) {
          assert r[i] in multiset(r);
          assert r[i] == x || r[i] in s[1..];
        }
      } else {
        forall i | 0 <= i < |s| ensures Less(x, s[i]) {
          if i > 0 {
            LessTransitive(x, s[0], s[i]);
          }
        }
      }
    }
  }

  lemma {:induction false} SortSorted(s: seq<string>)
    requires Distinct(s)
    ensures StrictlySorted(Sort(s))
  {
    if s != [] {
      SortSorted(s[1..]);
      var r := Sort(s[1..]);
      assert forall i :: 0 <= i < |s[1..]| ==> s[1..][i] == s[i + 1];
      assert s[0] in r <==> s[0] in multiset(r);
      InsertSorted(s[0], r);
    }
  }

  /** A strictly sorted sequence is determined by its elements. */
  lemma {:induction false} SortedUnique(s: seq<string>, t: seq<string>)
    requires StrictlySorted(s) && StrictlySorted(t)
    requires forall x :: x in s <==> x in t
    ensures s == t
  {
    assert s != [] ==> s[0] in t;
    assert t != [] ==> t[0] in s;
    if s != [] && t != [] {
      assert s[0] in t && t[0] in s;
      var i :| 0 <= i < |t| && t[i] == s[0];
      var j :| 0 <= j < |s| && s[j] == t[0];
      LessTrichotomy(s[0], t[0]);
      assert s[0] == t[0];
      forall x ensures x in s[1..] <==> x in t[1..] {
        TailElements(s, x);
        TailElements(t, x);
      }
      SortedUnique(s[1..], t[1..]);
      assert s == [s[0]] + s[1..] && t == [t[0]] + t[1..];
    }
  }

  lemma TailElements(s: seq<string>, x: string)
    requires s != [] && StrictlySorted(s)
    ensures x in s[1..] <==> x in s && x != s[0]
  {
    assert s == [s[0]] + s[1..];
    forall i | 0 <= i < |s[1..]| ensures s[1..][i] != s[0] {
      LessTrichotomy(s[0], s[i + 1]);
    }
  }

  /** Sorting forgets only the order: two lists of distinct strings sort alike exactly when they hold the same strings. */
  lemma SortForgetsOrder(s: seq<string>, t: seq<string>)
    requires Distinct(s) && Distinct(t)
    ensures Sort(s) == Sort(t) <==> forall x :: x in s <==> x in t
  {
    SortSorted(s);
    SortSorted(t);
    forall x ensures (x in s <==> x in Sort(s)) && (x in t <==> x in Sort(t)) {
      assert x in s <==> x in multiset(Sort(s));
      assert x in t <==> x in multiset(Sort(t));
    }
    if forall x :: x in s <==> x in t {
      SortedUnique(Sort(s), Sort(t));
    }
  }
}
