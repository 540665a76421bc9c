/** The two comparators handed to `Collections.sort`, the order a stable sort
    produces with them, and the composite "unhappiness" ranking that the two
    passes yield together. */
module Ordering {
  import opened Faces

  /** The comparators of the program, plus the single composite comparator
      that the two passes amount to. */
  datatype Order = SorrowDescending | JoyAscending | JoyThenSorrow

  /** `compare(p, q)` of the chosen comparator: negative when `p` must come
      first. The first comparator puts greater sorrow first, the second puts
      smaller joy first. */
  function Compare(o: Order, p: Person, q: Person): int
  {
    match o
    case SorrowDescending => CompareSorrow(p, q)
    case JoyAscending => CompareJoy(p, q)
    case JoyThenSorrow => if p.joy != q.joy then CompareJoy(p, q) else CompareSorrow(p, q)
  }

  /** The comparator of the first `Collections.sort` pass. */
  function CompareSorrow(p: Person, q: Person): (r: int)
    ensures r < 0 <==> p.sorrow > q.sorrow
    ensures r > 0 <==> p.sorrow < q.sorrow
    ensures -1 <= r <= 1
  {
    if p.sorrow > q.sorrow then -1 else if p.sorrow < q.sorrow then 1 else 0
  }

  /** The comparator of the second `Collections.sort` pass. */
  function CompareJoy(p: Person, q: Person): (r: int)
    ensures r < 0 <==> p.joy < q.joy
    ensures r > 0 <==> p.joy > q.joy
    ensures -1 <= r <= 1
  {
    if p.joy > q.joy then 1 else if p.joy < q.joy then -1 else 0
  }

  /** Every comparator is consistent: swapping the arguments flips the sign. */
  lemma CompareAntisymmetric(o: Order, p: Person, q: Person)
    ensures Compare(o, p, q) == -Compare(o, q, p)
  {
  }

  /** Every comparator is transitive, as `Collections.sort` demands. */
  lemma CompareTransitive(o: Order, p: Person, q: Person, r: Person)
    requires Compare(o, p, q) <= 0 && Compare(o, q, r) <= 0
    ensures Compare(o, p, r) <= 0
  {
  }

  /** Two records tie under the composite comparator exactly when they tie
      under both comparators of the program. */
  lemma CompositeTie(p: Person, q: Person)
    ensures Compare(JoyThenSorrow, p, q) == 0
        <==> Compare(JoyAscending, p, q) == 0 && Compare(SorrowDescending, p, q) == 0
  {
  }

  /** `s` is in the order of `o`: no later record must come before an earlier one. */
  ghost predicate Sorted(o: Order, s: seq<Person>)
  {
    forall i, j :: 0 <= i < j < |s| ==> Compare(o, s[i], s[j]) <= 0
  }

  /** The records of `s` that tie with `x` under `o`, in their order in `s`. */
  function Ties(o: Order, s: seq<Person>, x: Person): seq<Person>
  {
    if s == [] then []
    else (if Compare(o, s[0], x) == 0 then [s[0]] else []) + Ties(o, s[1..], x)
  }

  /** `t` keeps every group of tied records of `s` in its original order:
      this is what a stable sort promises. */
  ghost predicate KeepsTies(o: Order, s: seq<Person>, t: seq<Person>)
  {
    forall x :: Ties(o, t, x) == Ties(o, s, x)
  }

  /** Puts `x` after the records of the sorted `t`, then moves it left past
      every record that must come after it: the step of a stable insertion
      sort, which never moves `x` past a record it ties with. */
  function Insert(o: Order, t: seq<Person>, x: Person): seq<Person>
  {
    if t == [] then [x]
    else if Compare(o, t[|t| - 1], x) > 0 then Insert(o, t[..|t| - 1], x) + [t[|t| - 1]]
    else t + [x]
  }

  /** The result of a stable sort of `s` by `o`. */
  function StableSort(o: Order, s: seq<Person>): seq<Person>
  {
    if s == [] then [] else Insert(o, StableSort(o, s[..|s| - 1]), s[|s| - 1])
  }

  /** The ranking of the program: sort by sorrow, then (stably) by joy. */
  function Rank(s: seq<Person>): seq<Person>
  {
    StableSort(JoyAscending, StableSort(SorrowDescending, s))
  }

  // ---------------------------------------------------------------------
  // Tied groups

  lemma {:induction false} TiesAppend(o: Order, a: seq<Person>, b: seq<Person>, x: Person)
    ensures Ties(o, a + b, x) == Ties(o, a, x) + Ties(o, b, x)
  {
    if a == [] {
      assert a + b == b;
    } else {
      assert (a + b)[1..] == a[1..] + b;
      TiesAppend(o, a[1..], b, x);
    }
  }

  /** A tied group holds exactly the records of `s` that tie with `x`. */
  lemma {:induction false} TiesMembers(o: Order, s: seq<Person>, x: Person, y: Person)
    ensures y in Ties(o, s, x) <==> y in s && Compare(o, y, x) == 0
  {
    if s != [] {
      TiesMembers(o, s[1..], x, y);
      assert s == [s[0]] + s[1..];
    }
  }

  /** A record always ties with itself, so it heads its own group. */
  lemma TiesOfHead(o: Order, s: seq<Person>)
    requires s != []
    ensures Ties(o, s, s[0]) == [s[0]] + Ties(o, s[1..], s[0])
  {
    CompareAntisymmetric(o, s[0], s[0]);
  }

  // ---------------------------------------------------------------------
  // Insertion

  lemma {:induction false} InsertPermutes(o: Order, t: seq<Person>, x: Person)
    ensures multiset(Insert(o, t, x)) == multiset(t) + multiset{x}
  {
    if t != [] && Compare(o, t[|t| - 1], x) > 0 {
      var u := t[..|t| - 1];
      InsertPermutes(o, u, x);
      assert t == u + [t[|t| - 1]];
    }
  }

  lemma {:induction false} InsertSorted(o: Order, t: seq<Person>, x: Person)
    requires Sorted(o, t)
    ensures Sorted(o, Insert(o, t, x))
  {
    if t == [] {
    } else if Compare(o, t[|t| - 1], x) > 0 {
      var u, last := t[..|t| - 1], t[|t| - 1];
      InsertSorted(o, u, x);
      InsertBeforeLast(o, t, x, Insert(o, u, x));
      SortedAppendOne(o, Insert(o, u, x), last);
    } else {
      forall i | 0 <= i < |t| ensures Compare(o, t[i], x) <= 0 {
        if i < |t| - 1 {
          CompareTransitive(o, t[i], t[|t| - 1], x);
        }
      }
      SortedAppendOne(o, t, x);
    }
  }

  /** When `x` moves left past the last record of `t`, everything the
      recursive insertion produces may come before that last record. */
  lemma InsertBeforeLast(o: Order, t: seq<Person>, x: Person, w: seq<Person>)
    requires t != [] && Sorted(o, t) && Compare(o, t[|t| - 1], x) > 0
    requires w == Insert(o, t[..|t| - 1], x)
    ensures forall i :: 0 <= i < |w| ==> Compare(o, w[i], t[|t| - 1]) <= 0
  {
    var u, last := t[..|t| - 1], t[|t| - 1];
    InsertPermutes(o, u, x);
    forall i | 0 <= i < |w| ensures Compare(o, w[i], last) <= 0 {
      assert w[i] in multiset(w);
      if w[i] == x {
        CompareAntisymmetric(o, last, x);
      } else {
        assert w[i] in multiset(u);
        var k :| 0 <= k < |u| && u[k] == w[i];
        assert t[k] == u[k];
      }
    }
  }

  lemma SortedAppendOne(o: Order, w: seq<Person>, y: Person)
    requires Sorted(o, w)
    requires forall i :: 0 <= i < |w| ==> Compare(o, w[i], y) <= 0
    ensures Sorted(o, w + [y])
  {
    var v := w + [y];
    forall i, j | 0 <= i < j < |v| ensures Compare(o, v[i], v[j]) <= 0 {
      if j < |w| {
        assert v[i] == w[i] && v[j] == w[j];
      } else {
        assert v[i] == w[i] && v[j] == y;
      }
    }
  }

  /** Insertion never moves a record past one it ties with. */
  lemma {:induction false} InsertKeepsTies(o: Order, t: seq<Person>, x: Person, y: Person)
    ensures Ties(o, Insert(o, t, x), y) == Ties(o, t + [x], y)
  {
    if t != [] && Compare(o, t[|t| - 1], x) > 0 {
      var u, last := t[..|t| - 1], t[|t| - 1];
      InsertKeepsTies(o, u, x, y);
      TiesAppend(o, Insert(o, u, x), [last], y);
      TiesAppend(o, u, [x], y);
      TiesAppend(o, u + [x], [last], y);
      TiesAppend(o, u, [last], y);
      TiesAppend(o, u + [last], [x], y);
      assert t == u + [last];
      if Compare(o, x, y) == 0 && Compare(o, last, y) == 0 {
        CompareAntisymmetric(o, x, y);
        CompareTransitive(o, last, y, x);
        assert false;
      }
      assert Ties(o, [x], y) == [] || Ties(o, [last], y) == [];
    }
  }

  // ---------------------------------------------------------------------
  // The stable sort

  /** A stable sort is a permutation: no record is lost, duplicated or altered. */
  lemma {:induction false} SortPermutes(o: Order, s: seq<Person>)
    ensures multiset(StableSort(o, s)) == multiset(s)
    ensures |StableSort(o, s)| == |s|
  {
    if s != [] {
      var u := s[..|s| - 1];
      SortPermutes(o, u);
      InsertPermutes(o, StableSort(o, u), s[|s| - 1]);
      assert s == u + [s[|s| - 1]];
    }
  }

  /** A stable sort puts the records in the comparator's order. */
  lemma {:induction false} SortSorted(o: Order, s: seq<Person>)
    ensures Sorted(o, StableSort(o, s))
  {
    if s != [] {
      SortSorted(o, s[..|s| - 1]);
      InsertSorted(o, StableSort(o, s[..|s| - 1]), s[|s| - 1]);
    }
  }

  /** A stable sort keeps tied records in their input order. */
  lemma {:induction false} SortKeepsTies(o: Order, s: seq<Person>)
    ensures KeepsTies(o, s, StableSort(o, s))
  {
    if s != [] {
      var u, last := s[..|s| - 1], s[|s| - 1];
      SortKeepsTies(o, u);
      assert s == u + [last];
      forall x ensures Ties(o, StableSort(o, s), x) == Ties(o, s, x) {
        InsertKeepsTies(o, StableSort(o, u), last, x);
        TiesAppend(o, StableSort(o, u), [last], x);
        TiesAppend(o, u, [last], x);
      }
    }
  }

  /** Two sequences in the order of `o` whose tied groups agree are equal. */
  lemma {:induction false} SortedTiesUnique(o: Order, t1: seq<Person>, t2: seq<Person>)
    requires Sorted(o, t1) && Sorted(o, t2)
    requires forall x :: Ties(o, t1, x) == Ties(o, t2, x)
    ensures t1 == t2
  {
    if t1 == [] || t2 == [] {
      if t1 != [] {
        TiesOfHead(o, t1);
        assert false;
      }
      if t2 != [] {
        TiesOfHead(o, t2);
        assert false;
      }
    } else {
      SortedHeadsEqual(o, t1, t2);
      TiesOfTails(o, t1, t2);
      SortedTail(o, t1);
      SortedTail(o, t2);
      SortedTiesUnique(o, t1[1..], t2[1..]);
      assert t1 == [t1[0]] + t1[1..];
      assert t2 == [t2[0]] + t2[1..];
    }
  }

  /** Two non-empty sequences in order whose tied groups agree start with the
      same record: each head ties with the other and comes first in its group. */
  lemma SortedHeadsEqual(o: Order, t1: seq<Person>, t2: seq<Person>)
    requires t1 != [] && t2 != []
    requires Sorted(o, t1) && Sorted(o, t2)
    requires forall x :: Ties(o, t1, x) == Ties(o, t2, x)
    ensures t1[0] == t2[0]
  {
    var x, y := t1[0], t2[0];
    TiesMembers(o, t2, y, y);
    TiesMembers(o, t1, y, y);
    TiesMembers(o, t1, x, x);
    TiesMembers(o, t2, x, x);
    var i :| 0 <= i < |t1| && t1[i] == y;
    var j :| 0 <= j < |t2| && t2[j] == x;
    assert Compare(o, x, y) <= 0 by {
      if i > 0 { assert Compare(o, t1[0], t1[i]) <= 0; }
    }
    assert Compare(o, y, x) <= 0 by {
      if j > 0 { assert Compare(o, t2[0], t2[j]) <= 0; }
    }
    CompareAntisymmetric(o, x, y);
    assert Ties(o, t1, x)[0] == x;
    assert Ties(o, t2, x)[0] == y;
  }

  /** Equal heads and agreeing tied groups leave agreeing tied groups of the tails. */
  lemma TiesOfTails(o: Order, t1: seq<Person>, t2: seq<Person>)
    requires t1 != [] && t2 != [] && t1[0] == t2[0]
    requires forall x :: Ties(o, t1, x) == Ties(o, t2, x)
    ensures forall z :: Ties(o, t1[1..], z) == Ties(o, t2[1..], z)
  {
    forall z ensures Ties(o, t1[1..], z) == Ties(o, t2[1..], z) {
      var head := if Compare(o, t1[0], z) == 0 then [t1[0]] else [];
      assert Ties(o, t1, z) == head + Ties(o, t1[1..], z);
      assert Ties(o, t2, z) == head + Ties(o, t2[1..], z);
      assert Ties(o, t1, z) == Ties(o, t2, z);
      assert (head + Ties(o, t1[1..], z))[|head|..] == Ties(o, t1[1..], z);
      assert (head + Ties(o, t2[1..], z))[|head|..] == Ties(o, t2[1..], z);
    }
  }

  lemma SortedTail(o: Order, t: seq<Person>)
    requires t != [] && Sorted(o, t)
    ensures Sorted(o, t[1..])
  {
    var r := t[1..];
    forall i, j | 0 <= i < j < |r| ensures Compare(o, r[i], r[j]) <= 0 {
      assert r[i] == t[i + 1] && r[j] == t[j + 1];
    }
  }

  /** What `Collections.sort` promises, being in order and stable, determines
      its result: any such rearrangement of `s` is `StableSort(o, s)`. */
  lemma SortIsDetermined(o: Order, s: seq<Person>, t: seq<Person>)
    requires Sorted(o, t) && KeepsTies(o, s, t)
    ensures t == StableSort(o, s)
  {
    SortSorted(o, s);
    SortKeepsTies(o, s);
    SortedTiesUnique(o, t, StableSort(o, s));
  }

  /** Sorting what is already in order changes nothing. */
  lemma SortOfSorted(o: Order, s: seq<Person>)
    requires Sorted(o, s)
    ensures StableSort(o, s) == s
  {
    SortIsDetermined(o, s, s);
  }

  // ---------------------------------------------------------------------
  // The composite ranking

  /** Tying under the composite comparator is tying on joy, then on sorrow,
      in either order. */
  lemma {:induction false} CompositeTiesSplit(t: seq<Person>, x: Person)
    ensures Ties(JoyThenSorrow, t, x) == Ties(SorrowDescending, Ties(JoyAscending, t, x), x)
    ensures Ties(JoyThenSorrow, t, x) == Ties(JoyAscending, Ties(SorrowDescending, t, x), x)
  {
    if t != [] {
      CompositeTiesSplit(t[1..], x);
      CompositeTie(t[0], x);
      TiesAppend(SorrowDescending,
                 if Compare(JoyAscending, t[0], x) == 0 then [t[0]] else [],
                 Ties(JoyAscending, t[1..], x), x);
      TiesAppend(JoyAscending,
                 if Compare(SorrowDescending, t[0], x) == 0 then [t[0]] else [],
                 Ties(SorrowDescending, t[1..], x), x);
    }
  }

  /** A subsequence of a sorted sequence (here a tied group under another
      comparator) is sorted too. */
  lemma {:induction false} TiesSorted(o: Order, o': Order, t: seq<Person>, x: Person)
    requires Sorted(o, t)
    ensures Sorted(o, Ties(o', t, x))
  {
    if t != [] {
      SortedTail(o, t);
      TiesSorted(o, o', t[1..], x);
      var rest := Ties(o', t[1..], x);
      if Compare(o', t[0], x) == 0 {
        forall k | 0 <= k < |rest| ensures Compare(o, t[0], rest[k]) <= 0 {
          TiesMembers(o', t[1..], x, rest[k]);
          var m :| 0 <= m < |t[1..]| && t[1..][m] == rest[k];
          assert t[m + 1] == rest[k];
        }
        SortedPrependOne(o, t[0], rest);
      }
    }
  }

  lemma SortedPrependOne(o: Order, y: Person, w: seq<Person>)
    requires Sorted(o, w)
    requires forall k :: 0 <= k < |w| ==> Compare(o, y, w[k]) <= 0
    ensures Sorted(o, [y] + w)
  {
    var v := [y] + w;
    forall i, j | 0 <= i < j < |v| ensures Compare(o, v[i], v[j]) <= 0 {
      assert v[j] == w[j - 1];
      if i > 0 { assert v[i] == w[i - 1]; }
    }
  }

  /** Sorted by joy, with every group of equal joy sorted by sorrow, is
      sorted by the composite comparator. */
  lemma {:induction false} CompositeSorted(t: seq<Person>)
    requires Sorted(JoyAscending, t)
    requires forall x :: Sorted(SorrowDescending, Ties(JoyAscending, t, x))
    ensures Sorted(JoyThenSorrow, t)
  {
    if t != [] {
      var h, r := t[0], t[1..];
      SortedTail(JoyAscending, t);
      forall x ensures Sorted(SorrowDescending, Ties(JoyAscending, r, x)) {
        var g := Ties(JoyAscending, t, x);
        assert Sorted(SorrowDescending, g);
        if Compare(JoyAscending, h, x) == 0 {
          assert g == [h] + Ties(JoyAscending, r, x);
          SortedTail(SorrowDescending, g);
          assert g[1..] == Ties(JoyAscending, r, x);
          assert Sorted(SorrowDescending, Ties(JoyAscending, r, x));
        } else {
          assert g == Ties(JoyAscending, r, x);
        }
      }
      CompositeSorted(r);
      forall k | 0 <= k < |r| ensures Compare(JoyThenSorrow, h, r[k]) <= 0 {
        assert Compare(JoyAscending, h, r[k]) <= 0 by { assert r[k] == t[k + 1]; }
        if Compare(JoyAscending, h, r[k]) == 0 {
          var g := Ties(JoyAscending, t, h);
          assert g == [h] + Ties(JoyAscending, r, h);
          CompareAntisymmetric(JoyAscending, h, r[k]);
          TiesMembers(JoyAscending, r, h, r[k]);
          var m :| 0 <= m < |Ties(JoyAscending, r, h)| && Ties(JoyAscending, r, h)[m] == r[k];
          assert g[0] == h && g[m + 1] == r[k];
        }
      }
      SortedPrependOne(JoyThenSorrow, h, r);
      assert t == [h] + r;
    }
  }

  /** After both passes the list is in the composite order: joy ascending,
      and among equal joy, sorrow descending. */
  lemma RankSorted(s: seq<Person>)
    ensures Sorted(JoyThenSorrow, Rank(s))
  {
    var u := StableSort(SorrowDescending, s);
    var v := StableSort(JoyAscending, u);
    SortSorted(JoyAscending, u);
    SortSorted(SorrowDescending, s);
    SortKeepsTies(JoyAscending, u);
    forall x ensures Sorted(SorrowDescending, Ties(JoyAscending, v, x)) {
      assert Ties(JoyAscending, v, x) == Ties(JoyAscending, u, x);
      TiesSorted(SorrowDescending, JoyAscending, u, x);
    }
    CompositeSorted(v);
  }

  /** Records equal on both joy and sorrow keep their input order. */
  lemma RankKeepsTies(s: seq<Person>)
    ensures KeepsTies(JoyThenSorrow, s, Rank(s))
  {
    var u := StableSort(SorrowDescending, s);
    var v := StableSort(JoyAscending, u);
    SortKeepsTies(SorrowDescending, s);
    SortKeepsTies(JoyAscending, u);
    forall x ensures Ties(JoyThenSorrow, v, x) == Ties(JoyThenSorrow, s, x) {
      CompositeTiesSplit(v, x);
      CompositeTiesSplit(u, x);
      CompositeTiesSplit(s, x);
      assert Ties(JoyAscending, v, x) == Ties(JoyAscending, u, x);
      assert Ties(SorrowDescending, u, x) == Ties(SorrowDescending, s, x);
    }
  }

  /** The two passes are one stable sort by the composite comparator. */
  lemma RankIsCompositeSort(s: seq<Person>)
    ensures Rank(s) == StableSort(JoyThenSorrow, s)
  {
    RankSorted(s);
    RankKeepsTies(s);
    SortIsDetermined(JoyThenSorrow, s, Rank(s));
  }

  /** Ranking neither loses, duplicates nor alters a record. */
  lemma RankPermutes(s: seq<Person>)
    ensures multiset(Rank(s)) == multiset(s)
    ensures |Rank(s)| == |s|
  {
    SortPermutes(SorrowDescending, s);
    SortPermutes(JoyAscending, StableSort(SorrowDescending, s));
  }

  /** Ranking an already ranked list gives the same list. */
  lemma RankIdempotent(s: seq<Person>)
    ensures Rank(Rank(s)) == Rank(s)
  {
    RankIsCompositeSort(Rank(s));
    RankSorted(s);
    SortOfSorted(JoyThenSorrow, Rank(s));
  }

  /** After the first pass, sorrow never increases along the list. */
  lemma FirstPassOrder(s: seq<Person>)
    ensures forall i, j :: 0 <= i < j < |StableSort(SorrowDescending, s)| ==>
      StableSort(SorrowDescending, s)[i].sorrow >= StableSort(SorrowDescending, s)[j].sorrow
  {
    SortSorted(SorrowDescending, s);
  }

  /** After both passes joy never decreases along the list, and among equal
      joy sorrow never increases. */
  lemma RankOrder(s: seq<Person>)
    ensures forall i, j :: 0 <= i < j < |Rank(s)| ==>
      Rank(s)[i].joy <= Rank(s)[j].joy
      && (Rank(s)[i].joy == Rank(s)[j].joy ==> Rank(s)[i].sorrow >= Rank(s)[j].sorrow)
  {
    RankSorted(s);
  }

  /** Two faces with joy 1 (sorrow 5, then 3) and one with joy 0 (sorrow 1)
      rank as: the joy-0 face, then sorrow 5, then sorrow 3. */
  lemma RankExample()
    ensures Rank([Person(5, 1, [], None), Person(3, 1, [], None), Person(1, 0, [], None)])
         == [Person(1, 0, [], None), Person(5, 1, [], None), Person(3, 1, [], None)]
  {
    var a, b, c := Person(5, 1, [], None), Person(3, 1, [], None), Person(1, 0, [], None);
    assert [a, b, c][..2] == [a, b] && [a, b][..1] == [a] && [a][..0] == [];
    assert StableSort(SorrowDescending, [a]) == [a];
    assert StableSort(SorrowDescending, [a, b]) == Insert(SorrowDescending, [a], b) == [a, b];
    assert StableSort(SorrowDescending, [a, b, c]) == Insert(SorrowDescending, [a, b], c) == [a, b, c];
    assert StableSort(JoyAscending, [a]) == [a];
    assert StableSort(JoyAscending, [a, b]) == Insert(JoyAscending, [a], b) == [a, b];
    assert Insert(JoyAscending, [a], c) == Insert(JoyAscending, [], c) + [a] == [c, a];
    assert Insert(JoyAscending, [a, b], c) == Insert(JoyAscending, [a], c) + [b];
  }
}
