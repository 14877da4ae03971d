/**
 * Python's `sorted(items, key=lambda item: item[1], reverse=True)` on a list
 * of (name, value) pairs: a stable sort into non-increasing order of the
 * second component, so that entries with equal values keep their input order.
 */
module StableSort {
  import opened Seqs

  type Entry = (string, real)

  /** The sort key of an entry: its percentage. */
  function Value(e: Entry): real
  {
    e.1
  }

  /** The entries are ordered by value, largest first. */
  predicate NonIncreasing(s: seq<Entry>)
  {
    forall i, j :: 0 <= i < j < |s| ==> s[i].1 >= s[j].1
  }

  /** The subsequence of the entries of s whose value is p, in the order of s. */
  function Ties(s: seq<Entry>, p: real): seq<Entry>
  {
    if s == [] then [] else (if s[0].1 == p then [s[0]] else []) + Ties(s[1..], p)
  }

  /** Ties(s, p) holds only entries of s valued p, and starts with s[0] when s[0] is valued p. */
  lemma {:induction false} TiesMembers(s: seq<Entry>, p: real)
    ensures forall e :: e in Ties(s, p) ==> e in s && e.1 == p
    ensures s != [] && s[0].1 == p ==> Ties(s, p) != [] && Ties(s, p)[0] == s[0]
  {
    if s != [] {
      TiesMembers(s[1..], p);
    }
  }

  /**
   * r is what a stable descending sort makes of s: ordered by value, a
   * rearrangement of s, and for each value p the entries valued p come in
   * the same order as in s.
   */
  ghost predicate IsStableDescendingSort(r: seq<Entry>, s: seq<Entry>)
  {
    && NonIncreasing(r)
    && multiset(r) == multiset(s)
    && forall p :: Ties(r, p) == Ties(s, p)
  }

  /** Places x in front of the first entry of t whose value is not larger than x's. */
  function Insert(x: Entry, t: seq<Entry>): (r: seq<Entry>)
    ensures multiset(r) == multiset(t) + multiset{x}
  {
    if t == [] then [x]
    else if t[0].1 > x.1 then
      assert t == [t[0]] + t[1..];
      [t[0]] + Insert(x, t[1..])
    else [x] + t
  }

  lemma {:induction false} TiesCons(e: Entry, s: seq<Entry>, p: real)
    ensures Ties([e] + s, p) == (if e.1 == p then [e] else []) + Ties(s, p)
  {
    assert ([e] + s)[0] == e;
    assert ([e] + s)[1..] == s;
  }

  /** Inserting into an ordered sequence keeps it ordered; the new head is x or the old head. */
  lemma {:induction false} InsertNonIncreasing(x: Entry, t: seq<Entry>)
    requires NonIncreasing(t)
    ensures NonIncreasing(Insert(x, t))
    ensures Insert(x, t)[0] == x || Insert(x, t)[0] == t[0]
  {
    if t != [] && t[0].1 > x.1 {
      var rest := Insert(x, t[1..]);
      InsertNonIncreasing(x, t[1..]);
      assert rest[0].1 <= t[0].1;
      var r := [t[0]] + rest;
      forall i, j | 0 <= i < j < |r|
        ensures r[i].1 >= r[j].1
      {
        if i == 0 {
          assert r[j] == rest[j - 1];
          assert rest[0].1 >= rest[j - 1].1;
        } else {
          assert r[i] == rest[i - 1] && r[j] == rest[j - 1];
        }
      }
    }
  }

  /** Insertion sort from the back: each entry goes in front of its equals. */
  function SortDescending(s: seq<Entry>): seq<Entry>
  {
    if s == [] then [] else Insert(s[0], SortDescending(s[1..]))
  }

  lemma {:induction false} InsertTies(x: Entry, t: seq<Entry>, p: real)
    ensures Ties(Insert(x, t), p) == Ties([x] + t, p)
  {
    if t != [] && t[0].1 > x.1 {
      var tail := t[1..];
      var rest := Insert(x, tail);
      var head := if t[0].1 == p then [t[0]] else [];
      var mid := if x.1 == p then [x] else [];
      assert Ties(Insert(x, t), p) == head + (mid + Ties(tail, p)) by {
        assert Insert(x, t) == [t[0]] + rest;
        TiesCons(t[0], rest, p);
        InsertTies(x, tail, p);
        TiesCons(x, tail, p);
      }
      assert Ties([x] + t, p) == mid + (head + Ties(tail, p)) by {
        TiesCons(x, t, p);
        assert t == [t[0]] + tail;
        TiesCons(t[0], tail, p);
      }
      assert head == [] || mid == [];
    }
  }

  /** Sorting a sequence that is already in order changes nothing; in particular, sorting twice is sorting once. */
  lemma {:induction false} SortDescendingSorted(s: seq<Entry>)
    requires NonIncreasing(s)
    ensures SortDescending(s) == s
  {
    if s != [] {
      var rest := s[1..];
      assert NonIncreasing(rest) by {
        forall i, j | 0 <= i < j < |rest| ensures rest[i].1 >= rest[j].1 {
          assert rest[i] == s[i + 1] && rest[j] == s[j + 1];
        }
      }
      SortDescendingSorted(rest);
      if rest != [] {
        assert rest[0] == s[1];
      }
      assert s == [s[0]] + rest;
    }
  }

  lemma {:induction false} SortDescendingTies(s: seq<Entry>, p: real)
    ensures Ties(SortDescending(s), p) == Ties(s, p)
  {
    if s != [] {
      SortDescendingTies(s[1..], p);
      InsertTies(s[0], SortDescending(s[1..]), p);
      TiesCons(s[0], SortDescending(s[1..]), p);
    }
  }

  lemma {:induction false} SortDescendingNonIncreasing(s: seq<Entry>)
    ensures NonIncreasing(SortDescending(s))
  {
    if s != [] {
      SortDescendingNonIncreasing(s[1..]);
      InsertNonIncreasing(s[0], SortDescending(s[1..]));
    }
  }

  lemma {:induction false} SortDescendingPermutes(s: seq<Entry>)
    ensures multiset(SortDescending(s)) == multiset(s)
  {
    if s != [] {
      SortDescendingPermutes(s[1..]);
      assert s == [s[0]] + s[1..];
    }
  }

  /** SortDescending sorts stably into non-increasing order. */
  lemma {:induction false} SortDescendingIsStable(s: seq<Entry>)
    ensures IsStableDescendingSort(SortDescending(s), s)
  {
    SortDescendingNonIncreasing(s);
    SortDescendingPermutes(s);
    forall p
      ensures Ties(SortDescending(s), p) == Ties(s, p)
    {
      SortDescendingTies(s, p);
    }
  }

  /**
   * Two orderings by value that agree on every run of ties are equal; hence
   * IsStableDescendingSort(r, s) determines r from s.
   */
  lemma {:induction false} SameTiesEqual(a: seq<Entry>, b: seq<Entry>)
    requires NonIncreasing(a) && NonIncreasing(b)
    requires forall p :: Ties(a, p) == Ties(b, p)
    ensures a == b
  {
    if a != [] {
      assert Ties(b, a[0].1) == Ties(a, a[0].1) != [];
    }
    if b != [] {
      assert Ties(a, b[0].1) == Ties(b, b[0].1) != [];
    }
    if a != [] {
      var p, q := a[0].1, b[0].1;
      TiesMembers(a, p);
      TiesMembers(a, q);
      TiesMembers(b, p);
      TiesMembers(b, q);
      assert b[0] in Ties(a, q);
      var k :| 0 <= k < |a| && a[k] == b[0];
      assert a[0] in Ties(b, p);
      var l :| 0 <= l < |b| && b[l] == a[0];
      assert q <= p by {
        if k > 0 { assert a[0].1 >= a[k].1; }
      }
      assert p <= q by {
        if l > 0 { assert b[0].1 >= b[l].1; }
      }
      assert a[0] == Ties(a, p)[0] == Ties(b, p)[0] == b[0];
      forall p' ensures Ties(a[1..], p') == Ties(b[1..], p')
      {
        var head := if a[0].1 == p' then [a[0]] else [];
        TiesCons(a[0], a[1..], p');
        TiesCons(b[0], b[1..], p');
        assert a == [a[0]] + a[1..];
        assert b == [b[0]] + b[1..];
        assert Ties(a[1..], p') == Ties(a, p')[|head|..];
        assert Ties(b[1..], p') == Ties(b, p')[|head|..];
      }
      SameTiesEqual(a[1..], b[1..]);
      assert a == [a[0]] + a[1..];
      assert b == [b[0]] + b[1..];
    }
  }

  /** The stable descending sort of s is unique, and SortDescending computes it. */
  lemma {:induction false} StableSortUnique(r: seq<Entry>, s: seq<Entry>)
    requires IsStableDescendingSort(r, s)
    ensures r == SortDescending(s)
  {
    SortDescendingIsStable(s);
    SameTiesEqual(r, SortDescending(s));
  }

  /** Sorting leaves the total of any function of the entries unchanged. */
  lemma {:induction false} SortDescendingSum(s: seq<Entry>, f: Entry -> real)
    ensures Sum(SortDescending(s), f) == Sum(s, f)
  {
    if s != [] {
      SortDescendingSum(s[1..], f);
      InsertSum(s[0], SortDescending(s[1..]), f);
    }
  }

  lemma {:induction false} InsertSum(x: Entry, t: seq<Entry>, f: Entry -> real)
    ensures Sum(Insert(x, t), f) == f(x) + Sum(t, f)
  {
    if t != [] && t[0].1 > x.1 {
      InsertSum(x, t[1..], f);
      assert ([t[0]] + Insert(x, t[1..]))[1..] == Insert(x, t[1..]);
    } else {
      assert ([x] + t)[1..] == t;
    }
  }

  /**
   * Entries i < j of s with the same value p sit at positions a < b within
   * Ties(s, p).
   */
  lemma {:induction false} TiesKeepOrder(s: seq<Entry>, p: real, i: nat, j: nat)
    requires i < j < |s| && s[i].1 == p && s[j].1 == p
    ensures exists a, b :: 0 <= a < b < |Ties(s, p)| && Ties(s, p)[a] == s[i] && Ties(s, p)[b] == s[j]
  {
    var head := if s[0].1 == p then [s[0]] else [];
    assert Ties(s, p) == head + Ties(s[1..], p);
    if i == 0 {
      var b :| 0 <= b < |Ties(s[1..], p)| && Ties(s[1..], p)[b] == s[j] by {
        TiesContain(s[1..], p, j - 1);
      }
      assert Ties(s, p)[0] == s[0] && Ties(s, p)[b + 1] == s[j];
    } else {
      TiesKeepOrder(s[1..], p, i - 1, j - 1);
      var a, b :| 0 <= a < b < |Ties(s[1..], p)| && Ties(s[1..], p)[a] == s[i] && Ties(s[1..], p)[b] == s[j];
      assert Ties(s, p)[a + |head|] == s[i] && Ties(s, p)[b + |head|] == s[j];
    }
  }

  lemma {:induction false} TiesContain(s: seq<Entry>, p: real, j: nat)
    requires j < |s| && s[j].1 == p
    ensures exists b :: 0 <= b < |Ties(s, p)| && Ties(s, p)[b] == s[j]
  {
    var head := if s[0].1 == p then [s[0]] else [];
    assert Ties(s, p) == head + Ties(s[1..], p);
    if j == 0 {
      assert Ties(s, p)[0] == s[0];
    } else {
      TiesContain(s[1..], p, j - 1);
      var b :| 0 <= b < |Ties(s[1..], p)| && Ties(s[1..], p)[b] == s[j];
      assert Ties(s, p)[b + |head|] == s[j];
    }
  }

  /** Positions a < b within Ties(s, p) come from positions i < j of s. */
  lemma {:induction false} TiesComeInOrder(s: seq<Entry>, p: real, a: nat, b: nat)
    requires a < b < |Ties(s, p)|
    ensures exists i, j :: 0 <= i < j < |s| && s[i] == Ties(s, p)[a] && s[j] == Ties(s, p)[b]
  {
    var head := if s[0].1 == p then [s[0]] else [];
    assert Ties(s, p) == head + Ties(s[1..], p);
    if head != [] && a == 0 {
      TiesMembers(s[1..], p);
      assert Ties(s[1..], p)[b - 1] in s[1..];
      var j :| 0 <= j < |s[1..]| && s[1..][j] == Ties(s[1..], p)[b - 1];
      assert s[0] == Ties(s, p)[a] && s[j + 1] == Ties(s, p)[b];
    } else {
      TiesComeInOrder(s[1..], p, a - |head|, b - |head|);
      var i, j :| 0 <= i < j < |s[1..]| && s[1..][i] == Ties(s[1..], p)[a - |head|] && s[1..][j] == Ties(s[1..], p)[b - |head|];
      assert s[i + 1] == Ties(s, p)[a] && s[j + 1] == Ties(s, p)[b];
    }
  }

  /**
   * In a stable sort r of s, two entries with equal values appear in r in
   * the order in which they appear in s.
   */
  lemma {:induction false} StableKeepsInputOrder(r: seq<Entry>, s: seq<Entry>, i: nat, j: nat)
    requires IsStableDescendingSort(r, s)
    requires i < j < |r| && r[i].1 == r[j].1
    ensures exists a, b :: 0 <= a < b < |s| && s[a] == r[i] && s[b] == r[j]
  {
    var p := r[i].1;
    TiesKeepOrder(r, p, i, j);
    var a, b :| 0 <= a < b < |Ties(r, p)| && Ties(r, p)[a] == r[i] && Ties(r, p)[b] == r[j];
    assert Ties(r, p) == Ties(s, p);
    TiesComeInOrder(s, p, a, b);
  }

  /** The first components of the entries of s. */
  ghost function Names(s: seq<Entry>): set<string>
  {
    set e | e in s :: e.0
  }

  lemma {:induction false} InsertNames(x: Entry, t: seq<Entry>)
    ensures Names(Insert(x, t)) == Names(t) + {x.0}
  {
    var r := Insert(x, t);
    assert forall e :: e in r <==> e in t || e == x by {
      assert forall e :: e in r <==> e in multiset(r);
    }
  }

  /** Dropping the head keeps the names distinct, and the head's name is not among the rest. */
  lemma {:induction false} DistinctKeysTail(t: seq<Entry>)
    requires t != [] && DistinctKeys(t)
    ensures DistinctKeys(t[1..])
    ensures t[0].0 !in Names(t[1..])
  {
    forall i, j | 0 <= i < j < |t[1..]| ensures t[1..][i].0 != t[1..][j].0 {
      assert t[1..][i] == t[i + 1] && t[1..][j] == t[j + 1];
    }
    forall e | e in t[1..] ensures e.0 != t[0].0 {
      var k :| 0 <= k < |t[1..]| && t[1..][k] == e;
      assert t[k + 1] == e;
    }
  }

  /** Putting an entry with a fresh name in front keeps the names distinct. */
  lemma {:induction false} DistinctKeysCons(e: Entry, s: seq<Entry>)
    requires DistinctKeys(s) && e.0 !in Names(s)
    ensures DistinctKeys([e] + s)
  {
    var r := [e] + s;
    forall i, j | 0 <= i < j < |r| ensures r[i].0 != r[j].0 {
      assert r[j] == s[j - 1];
      if i == 0 {
        assert s[j - 1] in s;
      } else {
        assert r[i] == s[i - 1];
      }
    }
  }

  lemma {:induction false} InsertDistinctKeys(x: Entry, t: seq<Entry>)
    requires DistinctKeys(t) && x.0 !in Names(t)
    ensures DistinctKeys(Insert(x, t))
  {
    if t != [] && t[0].1 > x.1 {
      var rest := Insert(x, t[1..]);
      DistinctKeysTail(t);
      assert Names(t[1..]) <= Names(t) by {
        assert forall e :: e in t[1..] ==> e in t;
      }
      InsertDistinctKeys(x, t[1..]);
      InsertNames(x, t[1..]);
      assert x.0 != t[0].0 by { assert t[0] in t; }
      DistinctKeysCons(t[0], rest);
    } else {
      DistinctKeysCons(x, t);
    }
  }

  lemma {:induction false} NamesCons(e: Entry, s: seq<Entry>)
    ensures Names([e] + s) == Names(s) + {e.0}
  {
    assert forall x :: x in [e] + s <==> x == e || x in s;
  }

  /** Sorting keeps the set of names, and keeps them distinct. */
  lemma {:induction false} SortDescendingNames(s: seq<Entry>)
    ensures Names(SortDescending(s)) == Names(s)
    ensures DistinctKeys(s) ==> DistinctKeys(SortDescending(s))
  {
    if s != [] {
      var rest := s[1..];
      var sortedRest := SortDescending(rest);
      assert SortDescending(s) == Insert(s[0], sortedRest);
      SortDescendingNames(rest);
      InsertNames(s[0], sortedRest);
      assert Names(s) == Names(rest) + {s[0].0} by {
        assert s == [s[0]] + rest;
        NamesCons(s[0], rest);
      }
      if DistinctKeys(s) {
        DistinctKeysTail(s);
        InsertDistinctKeys(s[0], sortedRest);
      }
    }
  }
}
