/**
 The study schedule: a list of (start, end) text pairs that the alarm keeps
 sorted with Python's ordering of tuples of strings, which compares the
 start texts character by character and the end texts on a tie. The order
 is on the texts, not on the times they spell: "9:00" sorts after "10:00".
 */
module Schedule {
  import opened Options
  import opened ClockText

  datatype Period = Period(start: string, end: string)

  /** Python's `a < b` on strings: the first differing character decides, and a proper prefix comes first. */
  predicate StrLt(a: string, b: string) {
    if a == [] then b != []
    else if b == [] then false
    else if a[0] != b[0] then a[0] < b[0]
    else StrLt(a[1..], b[1..])
  }

  predicate StrLe(a: string, b: string) {
    a == b || StrLt(a, b)
  }

  /** Python's `p <= q` on `(start, end)` tuples. */
  predicate PeriodLe(p: Period, q: Period) {
    StrLt(p.start, q.start) || (p.start == q.start && StrLe(p.end, q.end))
  }

  lemma {:induction false} StrLtIrreflexive(a: string)
    ensures !StrLt(a, a)
  {
    if a != [] {
      StrLtIrreflexive(a[1..]);
    }
  }

  lemma {:induction false} StrLtTrichotomy(a: string, b: string)
    ensures StrLt(a, b) || a == b || StrLt(b, a)
    ensures !(StrLt(a, b) && StrLt(b, a))
  {
    if a != [] && b != [] && a[0] == b[0] {
      StrLtTrichotomy(a[1..], b[1..]);
      if a[1..] == b[1..] {
        assert a == [a[0]] + a[1..] && b == [b[0]] + b[1..];
      }
    }
  }

  lemma {:induction false} StrLtTransitive(a: string, b: string, c: string)
    requires StrLt(a, b) && StrLt(b, c)
    ensures StrLt(a, c)
  {
    if a != [] && a[0] == b[0] && b[0] == c[0] {
      StrLtTransitive(a[1..], b[1..], c[1..]);
    }
  }

  /** The tuple order is total, antisymmetric and transitive. */
  lemma PeriodLeTotal(p: Period, q: Period)
    ensures PeriodLe(p, q) || PeriodLe(q, p)
    ensures PeriodLe(p, q) && PeriodLe(q, p) ==> p == q
  {
    StrLtTrichotomy(p.start, q.start);
    StrLtTrichotomy(p.end, q.end);
  }

  lemma PeriodLeTransitive(p: Period, q: Period, r: Period)
    requires PeriodLe(p, q) && PeriodLe(q, r)
    ensures PeriodLe(p, r)
  {
    if StrLt(p.start, q.start) && StrLt(q.start, r.start) {
      StrLtTransitive(p.start, q.start, r.start);
    }
    if p.start == q.start == r.start && StrLt(p.end, q.end) && StrLt(q.end, r.end) {
      StrLtTransitive(p.end, q.end, r.end);
    }
  }

  predicate Sorted(s: seq<Period>) {
    forall i | 0 <= i < |s| - 1 :: PeriodLe(s[i], s[i + 1])
  }

  /** Every entry holds two valid times: ASCII-digit times `time.strptime` accepts. */
  predicate ValidSchedule(s: seq<Period>) {
    forall i | 0 <= i < |s| :: ValidTime(s[i].start) && ValidTime(s[i].end)
  }

  /** `p` placed into the sorted `s` after every entry that orders before it. */
  function Insert(s: seq<Period>, p: Period): (r: seq<Period>)
    requires Sorted(s)
    ensures Sorted(r)
    ensures multiset(r) == multiset(s) + multiset{p}
    ensures r[0] == p || (s != [] && r[0] == s[0])
  {
    if s == [] || PeriodLe(p, s[0]) then [p] + s
    else
      PeriodLeTotal(p, s[0]);
      assert s == [s[0]] + s[1..];
      [s[0]] + Insert(s[1..], p)
  }

  /** Inserting moves no entry: the result is `s` cut in two with `p` between. */
  lemma {:induction false} InsertSplits(s: seq<Period>, p: Period)
    requires Sorted(s)
    ensures exists k | 0 <= k <= |s| :: Insert(s, p) == s[..k] + [p] + s[k..]
  {
    if s == [] || PeriodLe(p, s[0]) {
      assert Insert(s, p) == [p] + s;
      assert Insert(s, p) == s[..0] + [p] + s[0..];
    } else {
      var tail := s[1..];
      assert Sorted(tail);
      InsertSplits(tail, p);
      var k :| 0 <= k <= |tail| && Insert(tail, p) == tail[..k] + [p] + tail[k..];
      assert Insert(s, p) == [s[0]] + Insert(tail, p);
      assert s[..k + 1] == [s[0]] + tail[..k];
      assert s[k + 1..] == tail[k..];
      assert Insert(s, p) == s[..k + 1] + [p] + s[k + 1..];
    }
  }

  /** Insertion sort: a sorted rearrangement of `s`. */
  function Sort(s: seq<Period>): (r: seq<Period>)
    ensures Sorted(r)
    ensures multiset(r) == multiset(s)
  {
    if s == [] then []
    else
      assert s == [s[0]] + s[1..];
      Insert(Sort(s[1..]), s[0])
  }

  lemma {:induction false} SortedHeadLeast(s: seq<Period>)
    requires Sorted(s) && s != []
    ensures forall i | 0 <= i < |s| :: PeriodLe(s[0], s[i])
  {
    if |s| > 1 {
      SortedHeadLeast(s[1..]);
      forall i | 1 <= i < |s|
        ensures PeriodLe(s[0], s[i])
      {
        assert s[i] == s[1..][i - 1];
        PeriodLeTransitive(s[0], s[1], s[i]);
      }
    }
    StrLtIrreflexive(s[0].end);
    assert PeriodLe(s[0], s[0]);
  }

  /**
   There is only one sorted arrangement of a collection of periods, so any
   sort, stable or not, yields the list `Sort` yields.
   */
  lemma {:induction false} SortedUnique(a: seq<Period>, b: seq<Period>)
    requires Sorted(a) && Sorted(b) && multiset(a) == multiset(b)
    ensures a == b
  {
    if a != [] {
      assert a[0] in multiset(b) && b != [];
      assert b[0] in multiset(a);
      SortedHeadLeast(a);
      SortedHeadLeast(b);
      PeriodLeTotal(a[0], b[0]);
      assert a[0] == b[0];
      TailMultiset(a);
      TailMultiset(b);
      SortedUnique(a[1..], b[1..]);
      assert a == [a[0]] + a[1..] && b == [b[0]] + b[1..];
    } else {
      assert |b| == |multiset(b)| == 0;
    }
  }

  lemma TailMultiset(a: seq<Period>)
    requires a != []
    ensures multiset(a[1..]) == multiset(a) - multiset{a[0]}
  {
    assert a == [a[0]] + a[1..];
  }

  /** A dialog answer that counts as given: `askstring` returns `None` on cancel, and `""` is refused too. */
  predicate Given(answer: Option<string>) {
    answer.Some? && answer.value != []
  }

  /**
   `add_period`: when both answers are given and both are valid times, the
   period joins the schedule and the schedule is sorted; otherwise it is
   left as it was.
   */
  function AddPeriod(s: seq<Period>, start: Option<string>, end: Option<string>): (r: seq<Period>)
    ensures !(Given(start) && Given(end) && ValidTime(start.value) && ValidTime(end.value)) ==> r == s
    ensures Given(start) && Given(end) && ValidTime(start.value) && ValidTime(end.value) ==>
      Sorted(r) && multiset(r) == multiset(s) + multiset{Period(start.value, end.value)}
    ensures ValidSchedule(s) ==> ValidSchedule(r)
  {
    if !Given(start) || !Given(end) then s
    else if !ValidTime(start.value) || !ValidTime(end.value) then s
    else
      var p := Period(start.value, end.value);
      var r := Sort(s + [p]);
      assert ValidSchedule(s) ==> ValidSchedule(r) by {
        if ValidSchedule(s) {
          forall i | 0 <= i < |r|
            ensures ValidTime(r[i].start) && ValidTime(r[i].end)
          {
            assert r[i] in multiset(s + [p]);
            var j :| 0 <= j < |s + [p]| && (s + [p])[j] == r[i];
          }
        }
      }
      r
  }

  /** On a sorted schedule, adding a period inserts it in its place and moves nothing else. */
  lemma AddIsInsert(s: seq<Period>, start: string, end: string)
    requires Sorted(s) && start != [] && end != [] && ValidTime(start) && ValidTime(end)
    ensures AddPeriod(s, Some(start), Some(end)) == Insert(s, Period(start, end))
  {
    var p := Period(start, end);
    assert multiset(s + [p]) == multiset(s) + multiset{p};
    SortedUnique(AddPeriod(s, Some(start), Some(end)), Insert(s, p));
  }

  /**
   `remove_period`: with a selection, the entry at the first selected index
   is deleted. What is left keeps its order, so a sorted schedule stays
   sorted, and putting the entry back where it was gives the schedule back.
   */
  function RemovePeriod(s: seq<Period>, selected: seq<nat>): (r: seq<Period>)
    requires selected != [] ==> selected[0] < |s|
    ensures selected == [] ==> r == s
    ensures selected != [] ==> |r| == |s| - 1 && r[..selected[0]] + [s[selected[0]]] + r[selected[0]..] == s
    ensures Sorted(s) ==> Sorted(r)
    ensures ValidSchedule(s) ==> ValidSchedule(r)
  {
    if selected == [] then s
    else
      var i := selected[0];
      var r := s[..i] + s[i + 1..];
      assert r[..i] + [s[i]] + r[i..] == s;
      DeleteKeepsSorted(s, i);
      DeleteKeepsValid(s, i);
      r
  }

  lemma DeleteKeepsSorted(s: seq<Period>, i: nat)
    requires i < |s|
    ensures Sorted(s) ==> Sorted(s[..i] + s[i + 1..])
  {
    var r := s[..i] + s[i + 1..];
    if Sorted(s) {
      forall j | 0 <= j < |r| - 1
        ensures PeriodLe(r[j], r[j + 1])
      {
        if j < i - 1 {
          assert r[j] == s[j] && r[j + 1] == s[j + 1];
        } else if j == i - 1 {
          assert r[j] == s[i - 1] && r[j + 1] == s[i + 1];
          PeriodLeTransitive(s[i - 1], s[i], s[i + 1]);
        } else {
          assert r[j] == s[j + 1] && r[j + 1] == s[j + 2];
        }
      }
    }
  }

  lemma DeleteKeepsValid(s: seq<Period>, i: nat)
    requires i < |s|
    ensures ValidSchedule(s) ==> ValidSchedule(s[..i] + s[i + 1..])
  {
    var r := s[..i] + s[i + 1..];
    if ValidSchedule(s) {
      forall j | 0 <= j < |r|
        ensures ValidTime(r[j].start) && ValidTime(r[j].end)
      {
        if j < i {
          assert r[j] == s[j];
        } else {
          assert r[j] == s[j + 1];
        }
      }
    }
  }

  /** Removing a period just added to a sorted schedule, at the row where it landed, undoes the add. */
  lemma RemoveUndoesAdd(s: seq<Period>, start: string, end: string)
    requires Sorted(s) && start != [] && end != [] && ValidTime(start) && ValidTime(end)
    ensures var added := AddPeriod(s, Some(start), Some(end));
      exists k | 0 <= k < |added| :: added[k] == Period(start, end) && RemovePeriod(added, [k]) == s
  {
    var p := Period(start, end);
    AddIsInsert(s, start, end);
    InsertSplits(s, p);
    var added := Insert(s, p);
    var k :| 0 <= k <= |s| && added == s[..k] + [p] + s[k..];
    assert |added| == |s| + 1;
    assert added[k] == p;
    assert added[..k] + added[k + 1..] == s by {
      assert added[..k] == s[..k];
      assert added[k + 1..] == s[k..];
    }
    assert RemovePeriod(added, [k]) == s;
  }
}
