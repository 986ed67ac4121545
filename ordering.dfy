/** The order in which services are listed: by date, then by time. Dates are
    `YYYY-MM-DD` and times `HH:MM`, so comparing the texts character by character
    orders them as the calendar and the clock do. */
module Ordering {
  import opened Seqs
  import opened Types

  /** Character-by-character (lexicographic) order on texts. */
  predicate LexLe(a: string, b: string)
  {
    if a == [] then true
    else if b == [] then false
    else if a[0] < b[0] then true
    else a[0] == b[0] && LexLe(a[1..], b[1..])
  }

  lemma {:induction false} LexLeReflexive(a: string)
    ensures LexLe(a, a)
  {
    if a != [] {
      LexLeReflexive(a[1..]);
    }
  }

  lemma {:induction false} LexLeTotal(a: string, b: string)
    ensures LexLe(a, b) || LexLe(b, a)
  {
    if a != [] && b != [] && a[0] == b[0] {
      LexLeTotal(a[1..], b[1..]);
    }
  }

  lemma {:induction false} LexLeAntisymmetric(a: string, b: string)
    requires LexLe(a, b) && LexLe(b, a)
    ensures a == b
  {
    if a != [] {
      LexLeAntisymmetric(a[1..], b[1..]);
      assert a == [a[0]] + a[1..] && b == [b[0]] + b[1..];
    }
  }

  lemma {:induction false} LexLeTransitive(a: string, b: string, c: string)
    requires LexLe(a, b) && LexLe(b, c)
    ensures LexLe(a, c)
  {
    if a != [] && b != [] && c != [] && a[0] == b[0] && b[0] == c[0] {
      LexLeTransitive(a[1..], b[1..], c[1..]);
    }
  }

  /** `a` may be listed before `b`: an earlier date, or the same date and a time
      that is not later. */
  predicate ServiceLe(a: ChurchService, b: ChurchService)
  {
    (a.date != b.date && LexLe(a.date, b.date)) || (a.date == b.date && LexLe(a.time, b.time))
  }

  lemma ServiceLeTotal(a: ChurchService, b: ChurchService)
    ensures ServiceLe(a, b) || ServiceLe(b, a)
  {
    LexLeTotal(a.date, b.date);
    LexLeTotal(a.time, b.time);
  }

  lemma ServiceLeTransitive(a: ChurchService, b: ChurchService, c: ChurchService)
    requires ServiceLe(a, b) && ServiceLe(b, c)
    ensures ServiceLe(a, c)
  {
    if a.date == b.date && b.date == c.date {
      LexLeTransitive(a.time, b.time, c.time);
    } else {
      LexLeReflexive(a.date);
      LexLeReflexive(b.date);
      LexLeTransitive(a.date, b.date, c.date);
      if a.date == c.date {
        LexLeAntisymmetric(a.date, b.date);
      }
    }
  }

  /** Every earlier entry may be listed before every later one. */
  predicate SortedByDateTime(ss: seq<ChurchService>)
  {
    forall i, j :: 0 <= i < j < |ss| ==> ServiceLe(ss[i], ss[j])
  }

  /** Puts `x` into a sorted list after every entry that may come before it. */
  function Insert(x: ChurchService, ss: seq<ChurchService>): (r: seq<ChurchService>)
    ensures multiset(r) == multiset(ss) + multiset{x}
  {
    if ss == [] then [x]
    else if ServiceLe(ss[0], x) then
      assert ss == [ss[0]] + ss[1..];
      [ss[0]] + Insert(x, ss[1..])
    else [x] + ss
  }

  /** An entry that may come before every entry of a sorted list can head it. */
  lemma ConsKeepsSorted(y: ChurchService, t: seq<ChurchService>)
    requires SortedByDateTime(t)
    requires forall j :: 0 <= j < |t| ==> ServiceLe(y, t[j])
    ensures SortedByDateTime([y] + t)
  {
    var r := [y] + t;
    forall i, j | 0 <= i < j < |r|
      ensures ServiceLe(r[i], r[j])
    {
      if i == 0 {
        assert r[j] == t[j - 1];
      } else {
        assert r[i] == t[i - 1] && r[j] == t[j - 1];
      }
    }
  }

  /** Inserting into a sorted list keeps it sorted. */
  lemma {:induction false} InsertKeepsSorted(x: ChurchService, ss: seq<ChurchService>)
    requires SortedByDateTime(ss)
    ensures SortedByDateTime(Insert(x, ss))
  {
    if ss == [] {
    } else if ServiceLe(ss[0], x) {
      var rest := ss[1..];
      var tail := Insert(x, rest);
      SortedTail(ss);
      InsertKeepsSorted(x, rest);
      forall j | 0 <= j < |tail|
        ensures ServiceLe(ss[0], tail[j])
      {
        assert tail[j] in multiset(tail);
        if tail[j] != x {
          assert tail[j] in multiset(rest);
          var k :| 0 <= k < |rest| && rest[k] == tail[j];
          assert rest[k] == ss[k + 1];
        }
      }
      ConsKeepsSorted(ss[0], tail);
      assert Insert(x, ss) == [ss[0]] + tail;
    } else {
      ServiceLeTotal(ss[0], x);
      forall j | 0 <= j < |ss|
        ensures ServiceLe(x, ss[j])
      {
        if j > 0 {
          ServiceLeTransitive(x, ss[0], ss[j]);
        }
      }
      ConsKeepsSorted(x, ss);
    }
  }

  /** The services in listing order (Array.prototype.sort on a copy with the
      date-then-time comparator). */
  function SortServices(ss: seq<ChurchService>): (r: seq<ChurchService>)
    ensures multiset(r) == multiset(ss)
    ensures SortedByDateTime(r)
  {
    if ss == [] then []
    else
      assert ss == ss[..|ss| - 1] + [ss[|ss| - 1]];
      InsertKeepsSorted(ss[|ss| - 1], SortServices(ss[..|ss| - 1]));
      Insert(ss[|ss| - 1], SortServices(ss[..|ss| - 1]))
  }

  /** Two services in the same slot: the same date and the same time. */
  predicate SameSlot(a: ChurchService, b: ChurchService)
  {
    a.date == b.date && a.time == b.time
  }

  /** The services of a list that share the slot of `k`, in list order. */
  function SlotEntries(ss: seq<ChurchService>, k: ChurchService): seq<ChurchService>
  {
    Filter(ss, (s: ChurchService) => SameSlot(s, k))
  }

  /** The rest of a sorted list is sorted. */
  lemma SortedTail(ss: seq<ChurchService>)
    requires ss != [] && SortedByDateTime(ss)
    ensures SortedByDateTime(ss[1..])
  {
    var rest := ss[1..];
    forall i, j | 0 <= i < j < |rest|
      ensures ServiceLe(rest[i], rest[j])
    {
      assert rest[i] == ss[i + 1] && rest[j] == ss[j + 1];
    }
  }

  /** When a sorted list starts with a service that may not come before `x`, none
      of its services is in the slot of `x`. */
  lemma NoneOfSlotAfter(x: ChurchService, ss: seq<ChurchService>, k: ChurchService)
    requires ss != [] && SortedByDateTime(ss) && !ServiceLe(ss[0], x)
    requires SameSlot(x, k)
    ensures SlotEntries(ss, k) == []
  {
    forall s | s in ss
      ensures !SameSlot(s, k)
    {
      var j :| 0 <= j < |ss| && ss[j] == s;
      if j == 0 {
        LexLeReflexive(s.time);
      }
      assert ServiceLe(ss[0], s);
    }
    FilterDropsAll(ss, (s: ChurchService) => SameSlot(s, k));
  }

  /** Inserting into a sorted list puts the new service after every service of its
      slot, so the services of each slot keep their order and the new one comes last. */
  lemma {:induction false} InsertStable(x: ChurchService, ss: seq<ChurchService>, k: ChurchService)
    requires SortedByDateTime(ss)
    ensures SlotEntries(Insert(x, ss), k) == SlotEntries(ss, k) + (if SameSlot(x, k) then [x] else [])
  {
    if ss == [] {
    } else if ServiceLe(ss[0], x) {
      SortedTail(ss);
      InsertStable(x, ss[1..], k);
      var tail := Insert(x, ss[1..]);
      assert Insert(x, ss) == [ss[0]] + tail;
      assert ([ss[0]] + tail)[1..] == tail;
    } else {
      assert Insert(x, ss) == [x] + ss;
      assert ([x] + ss)[1..] == ss;
      if SameSlot(x, k) {
        NoneOfSlotAfter(x, ss, k);
      }
    }
  }

  /** The sort is stable: the services of each slot appear in the sorted list in
      the order they had before. */
  lemma {:induction false} SortServicesStableAt(ss: seq<ChurchService>, k: ChurchService)
    ensures SlotEntries(SortServices(ss), k) == SlotEntries(ss, k)
  {
    if ss != [] {
      var n := |ss| - 1;
      var pre, last := ss[..n], ss[n];
      var sortedPre := SortServices(pre);
      SortServicesLast(ss);
      SortServicesStableAt(pre, k);
      InsertStable(last, sortedPre, k);
      SlotEntriesLast(ss, k);
    }
  }

  /** The sort inserts the last service into the sorted rest. */
  lemma SortServicesLast(ss: seq<ChurchService>)
    requires ss != []
    ensures SortServices(ss) == Insert(ss[|ss| - 1], SortServices(ss[..|ss| - 1]))
  {
  }

  /** The slot entries of a list are those of all but its last service, followed by
      the last one when it is in the slot. */
  lemma SlotEntriesLast(ss: seq<ChurchService>, k: ChurchService)
    requires ss != []
    ensures SlotEntries(ss, k) == SlotEntries(ss[..|ss| - 1], k)
                                  + (if SameSlot(ss[|ss| - 1], k) then [ss[|ss| - 1]] else [])
  {
    var n := |ss| - 1;
    assert ss == ss[..n] + [ss[n]];
    FilterAppend(ss[..n], ss[n], (s: ChurchService) => SameSlot(s, k));
  }

  /** The sort is stable: for every date and time, the services in that slot come
      out in the order they had in the input. */
  lemma SortServicesStable(ss: seq<ChurchService>)
    ensures forall k :: SlotEntries(SortServices(ss), k) == SlotEntries(ss, k)
  {
    forall k
      ensures SlotEntries(SortServices(ss), k) == SlotEntries(ss, k)
    {
      SortServicesStableAt(ss, k);
    }
  }
}
