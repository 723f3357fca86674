/** The merge order: `sorted(files, key=date or datetime.min,
    reverse=(order == "desc"))`. Python's sort is stable in both
    directions, so invoices with the same date keep their input order. */
module Ordering {
  import opened Wrappers
  import opened Dates
  import opened Conversion
  import opened Seqs

  /** The two choices of the sort-direction radio buttons. */
  datatype SortOrder = Asc | Desc

  /** The sort key: the invoice date, or `datetime.min` when there is none. */
  function SortKey(p: PdfInfo): (k: Date)
    ensures p.date.Some? ==> k == p.date.value
    ensures p.date.None? ==> k == MIN_DATE
  {
    match p.date
    case Some(d) => d
    case None => MIN_DATE
  }

  /** In direction `o`, the key of `a` comes strictly before the key of `b`. */
  predicate Precedes(o: SortOrder, a: PdfInfo, b: PdfInfo)
  {
    match o
    case Asc => Before(SortKey(a), SortKey(b))
    case Desc => Before(SortKey(b), SortKey(a))
  }

  /** No element is followed by one that should come strictly before it. */
  predicate SortedBy(o: SortOrder, s: seq<PdfInfo>)
  {
    forall i, j :: 0 <= i < j < |s| ==> !Precedes(o, s[j], s[i])
  }

  /** Places `x` after every element that does not come strictly after it. */
  function Insert(o: SortOrder, x: PdfInfo, s: seq<PdfInfo>): (r: seq<PdfInfo>)
    ensures multiset(r) == multiset(s) + multiset{x}
  {
    if s == [] then [x]
    else if Precedes(o, x, s[0]) then [x] + s
    else
      assert s == [s[0]] + s[1..];
      [s[0]] + Insert(o, x, s[1..])
  }

  /** The stable sort, inserting the inputs one by one in input order. */
  function SortByDate(o: SortOrder, s: seq<PdfInfo>): (r: seq<PdfInfo>)
    ensures multiset(r) == multiset(s)
  {
    if s == [] then []
    else
      assert s == s[..|s| - 1] + [s[|s| - 1]];
      Insert(o, s[|s| - 1], SortByDate(o, s[..|s| - 1]))
  }

  /** The elements of `s` whose key is `k`, in order. */
  function WithKey(s: seq<PdfInfo>, k: Date): seq<PdfInfo>
  {
    if s == [] then [] else (if SortKey(s[0]) == k then [s[0]] else []) + WithKey(s[1..], k)
  }

  // ---------------------------------------------------------------------
  // Properties

  /** `Precedes` is a strict order on keys and any two keys are comparable. */
  lemma PrecedesOrder(o: SortOrder, a: PdfInfo, b: PdfInfo, c: PdfInfo)
    ensures !Precedes(o, a, a)
    ensures Precedes(o, a, b) && Precedes(o, b, c) ==> Precedes(o, a, c)
    ensures !Precedes(o, a, b) && !Precedes(o, b, a) <==> SortKey(a) == SortKey(b)
    ensures !Precedes(o, b, a) && Precedes(o, b, c) ==> Precedes(o, a, c)
  {
  }

  lemma {:induction false} InsertSorted(o: SortOrder, x: PdfInfo, s: seq<PdfInfo>)
    requires SortedBy(o, s)
    ensures SortedBy(o, Insert(o, x, s))
  {
    if s != [] {
      if Precedes(o, x, s[0]) {
        InsertFrontSorted(o, x, s);
      } else {
        InsertSorted(o, x, s[1..]);
        InsertBehindSorted(o, x, s);
      }
    }
  }

  lemma InsertFrontSorted(o: SortOrder, x: PdfInfo, s: seq<PdfInfo>)
    requires SortedBy(o, s) && s != [] && Precedes(o, x, s[0])
    ensures SortedBy(o, [x] + s)
  {
    var r := [x] + s;
    forall j | 1 <= j < |r|
      ensures !Precedes(o, r[j], r[0])
    {
      PrecedesOrder(o, r[j], x, s[0]);
    }
  }

  lemma InsertBehindSorted(o: SortOrder, x: PdfInfo, s: seq<PdfInfo>)
    requires SortedBy(o, s) && s != [] && !Precedes(o, x, s[0])
    requires SortedBy(o, Insert(o, x, s[1..]))
    ensures SortedBy(o, [s[0]] + Insert(o, x, s[1..]))
  {
    var t := Insert(o, x, s[1..]);
    var r := [s[0]] + t;
    forall i, j | 0 <= i < j < |r|
      ensures !Precedes(o, r[j], r[i])
    {
      if i == 0 {
        BehindHead(o, x, s, j - 1);
      } else {
        assert r[i] == t[i - 1] && r[j] == t[j - 1];
        assert !Precedes(o, t[j - 1], t[i - 1]);
      }
    }
  }

  /** What goes behind the head does not come strictly before it. */
  lemma BehindHead(o: SortOrder, x: PdfInfo, s: seq<PdfInfo>, j: nat)
    requires SortedBy(o, s) && s != [] && !Precedes(o, x, s[0])
    requires j < |Insert(o, x, s[1..])|
    ensures !Precedes(o, Insert(o, x, s[1..])[j], s[0])
  {
    var y := Insert(o, x, s[1..])[j];
    InsertElement(o, x, s[1..], j);
    if y != x {
      var l :| 0 <= l < |s[1..]| && s[1..][l] == y;
      assert s[l + 1] == y;
    }
  }

  /** Every element of `Insert(o, x, s)` is `x` or an element of `s`. */
  lemma InsertElement(o: SortOrder, x: PdfInfo, s: seq<PdfInfo>, j: nat)
    requires j < |Insert(o, x, s)|
    ensures Insert(o, x, s)[j] == x || Insert(o, x, s)[j] in s
  {
    assert Insert(o, x, s)[j] in multiset(Insert(o, x, s));
  }

  /** The merge order is sorted in the requested direction. */
  lemma {:induction false} SortByDateSorted(o: SortOrder, s: seq<PdfInfo>)
    ensures SortedBy(o, SortByDate(o, s))
  {
    if s != [] {
      SortByDateSorted(o, s[..|s| - 1]);
      InsertSorted(o, s[|s| - 1], SortByDate(o, s[..|s| - 1]));
    }
  }

  lemma {:induction false} WithKeyAppend(a: seq<PdfInfo>, b: seq<PdfInfo>, k: Date)
    ensures WithKey(a + b, k) == WithKey(a, k) + WithKey(b, k)
  {
    if a != [] {
      WithKeyAppend(a[1..], b, k);
      assert (a + b)[1..] == a[1..] + b;
    } else {
      assert a + b == b;
    }
  }

  lemma {:induction false} WithKeyNone(s: seq<PdfInfo>, k: Date)
    requires forall i :: 0 <= i < |s| ==> SortKey(s[i]) != k
    ensures WithKey(s, k) == []
  {
    if s != [] {
      WithKeyNone(s[1..], k);
    }
  }

  /** Inserting `x` appends it to the elements of its key, after the ones
      already there. */
  lemma {:induction false} InsertWithKey(o: SortOrder, x: PdfInfo, s: seq<PdfInfo>, k: Date)
    requires SortedBy(o, s)
    ensures WithKey(Insert(o, x, s), k) == WithKey(s, k) + if SortKey(x) == k then [x] else []
  {
    var own: seq<PdfInfo> := if SortKey(x) == k then [x] else [];
    if s == [] {
      assert WithKey([x], k) == own + WithKey([], k);
    } else if Precedes(o, x, s[0]) {
      InsertAtFrontWithKey(o, x, s, k);
    } else {
      var t := Insert(o, x, s[1..]);
      var head: seq<PdfInfo> := if SortKey(s[0]) == k then [s[0]] else [];
      InsertWithKey(o, x, s[1..], k);
      assert ([s[0]] + t)[1..] == t;
      assert WithKey([s[0]] + t, k) == head + WithKey(t, k);
      assert WithKey(s, k) == head + WithKey(s[1..], k);
      AppendAssoc(head, WithKey(s[1..], k), own);
    }
  }

  /** When `x` goes in front, every later element has a key strictly after
      it, so `x` is also the last of its key. */
  lemma InsertAtFrontWithKey(o: SortOrder, x: PdfInfo, s: seq<PdfInfo>, k: Date)
    requires SortedBy(o, s) && s != [] && Precedes(o, x, s[0])
    ensures WithKey([x] + s, k) == WithKey(s, k) + if SortKey(x) == k then [x] else []
  {
    assert ([x] + s)[1..] == s;
    if SortKey(x) == k {
      forall i | 0 <= i < |s|
        ensures SortKey(s[i]) != k
      {
        PrecedesOrder(o, s[i], x, s[0]);
      }
      WithKeyNone(s, k);
    }
  }

  /** Stability: for every date, the invoices with that date appear in the
      merge order exactly as they appear in the input. */
  lemma {:induction false} SortByDateStable(o: SortOrder, s: seq<PdfInfo>, k: Date)
    ensures WithKey(SortByDate(o, s), k) == WithKey(s, k)
  {
    if s != [] {
      var front, last := s[..|s| - 1], s[|s| - 1];
      assert s == front + [last];
      SortByDateStable(o, front, k);
      SortByDateSorted(o, front);
      InsertWithKey(o, last, SortByDate(o, front), k);
      WithKeyAppend(front, [last], k);
      assert [last][1..] == [];
      assert WithKey([last], k) == if SortKey(last) == k then [last] else [];
    }
  }

  /** An undated invoice sorts like one dated `datetime.min`: first in
      ascending order, last in descending order. */
  lemma UndatedFirstAscending(a: PdfInfo, b: PdfInfo)
    requires a.date.None?
    ensures !Precedes(Asc, b, a) && !Precedes(Desc, a, b)
  {
    MinDateIsLeast(SortKey(b));
  }
}
