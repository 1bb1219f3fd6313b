/**
 One pass of the alarm loop, lifted out as a pure function of the schedule
 and the current time of day in seconds: is a study period in progress, and
 if not, when does the next one start, or is the first entry due tomorrow.
 The status texts, the beeps and the sleeping are left to the caller; the
 decision carries the sleep lengths the loop would use.
 */
module AlarmScan {
  import opened Options
  import opened ClockText
  import opened Schedule

  function StartOf(p: Period): nat
    requires ValidTime(p.start)
  {
    TimeToSeconds(p.start)
  }

  function EndOf(p: Period): nat
    requires ValidTime(p.end)
  {
    TimeToSeconds(p.end)
  }

  /** A period is in progress when it has started and not yet ended. */
  predicate InProgress(p: Period, now: nat)
    requires ValidTime(p.start) && ValidTime(p.end)
  {
    StartOf(p) <= now < EndOf(p)
  }

  /** A period is ahead when its start is still to come today. */
  predicate Ahead(p: Period, now: nat)
    requires ValidTime(p.start)
  {
    now < StartOf(p)
  }

  /** A start and end in seconds. */
  datatype Slot = Slot(start: nat, end: nat)

  /** What the `for` loop ends with: the index it broke at, or the earliest start it saw. */
  datatype ScanResult = InStudy(index: nat) | NotInStudy(next: Option<Slot>)

  /** The slot kept when `slot` is seen after `best`: the later one only when it starts strictly earlier. */
  function Earlier(best: Option<Slot>, slot: Slot): (r: Option<Slot>)
    ensures r.Some?
    ensures r.value.start <= slot.start
    ensures best.Some? ==> r.value.start <= best.value.start
    ensures r == Some(slot) || r == best
    ensures best.Some? && best.value.start <= slot.start ==> r == best
  {
    if best.None? || slot.start < best.value.start then Some(slot) else best
  }

  /**
   The `for` loop from entry `i` on, with `best` the earliest later start
   seen so far. An entry whose start is still to come replaces `best` only
   when it starts strictly earlier; the first entry in progress stops the
   loop.
   */
  function ScanFrom(s: seq<Period>, now: nat, i: nat, best: Option<Slot>): (r: ScanResult)
    requires ValidSchedule(s) && i <= |s|
    ensures r.InStudy? ==> i <= r.index < |s| && InProgress(s[r.index], now)
    ensures r.NotInStudy? && r.next.Some? ==>
      (now < r.next.value.start || (best.Some? && r.next == best))
    decreases |s| - i
  {
    if i == |s| then NotInStudy(best)
    else
      var start := StartOf(s[i]);
      var end := EndOf(s[i]);
      if now < start then ScanFrom(s, now, i + 1, Earlier(best, Slot(start, end)))
      else if now < end then InStudy(i)
      else ScanFrom(s, now, i + 1, best)
  }

  /** What `best` becomes after entry `i`, when that entry is not in progress. */
  function NextBest(s: seq<Period>, now: nat, i: nat, best: Option<Slot>): Option<Slot>
    requires ValidSchedule(s) && i < |s|
  {
    if Ahead(s[i], now) then Earlier(best, Slot(StartOf(s[i]), EndOf(s[i]))) else best
  }

  /** An entry not in progress lets the loop go on to the next one. */
  lemma ScanFromSkips(s: seq<Period>, now: nat, i: nat, best: Option<Slot>)
    requires ValidSchedule(s) && i < |s| && !InProgress(s[i], now)
    ensures ScanFrom(s, now, i, best) == ScanFrom(s, now, i + 1, NextBest(s, now, i, best))
  {
  }

  /**
   `slot` is the start and end of entry `j`, which starts earliest among the
   entries of `s[..hi]` still ahead, and is the first of them in list order
   with that start.
   */
  predicate EarliestAt(s: seq<Period>, now: nat, hi: nat, slot: Slot, j: nat)
    requires ValidSchedule(s) && hi <= |s|
  {
    && j < hi
    && Ahead(s[j], now) && StartOf(s[j]) == slot.start && EndOf(s[j]) == slot.end
    && (forall k | 0 <= k < j :: Ahead(s[k], now) ==> slot.start < StartOf(s[k]))
    && (forall k | j <= k < hi :: Ahead(s[k], now) ==> slot.start <= StartOf(s[k]))
  }

  ghost predicate Earliest(s: seq<Period>, now: nat, hi: nat, slot: Slot)
    requires ValidSchedule(s) && hi <= |s|
  {
    exists j :: EarliestAt(s, now, hi, slot, j)
  }

  /** What holds after the loop has looked at the entries before `i` without breaking. */
  ghost predicate ScannedUpTo(s: seq<Period>, now: nat, i: nat, best: Option<Slot>)
    requires ValidSchedule(s) && i <= |s|
  {
    && (forall k | 0 <= k < i :: !InProgress(s[k], now))
    && (best.None? ==> forall k | 0 <= k < i :: !Ahead(s[k], now))
    && (best.Some? ==> Earliest(s, now, i, best.value))
  }

  /** An entry still ahead that starts strictly earlier than `best` becomes the earliest. */
  lemma StepNewEarliest(s: seq<Period>, now: nat, i: nat, best: Option<Slot>)
    requires ValidSchedule(s) && i < |s|
    requires ScannedUpTo(s, now, i, best) && Ahead(s[i], now)
    requires best.None? || StartOf(s[i]) < best.value.start
    ensures EarliestAt(s, now, i + 1, Slot(StartOf(s[i]), EndOf(s[i])), i)
  {
    var start := StartOf(s[i]);
    if best.Some? {
      var j: nat :| EarliestAt(s, now, i, best.value, j);
      forall k | 0 <= k < i && Ahead(s[k], now)
        ensures start < StartOf(s[k])
      {
        if k < j {
          assert best.value.start < StartOf(s[k]);
        } else {
          assert best.value.start <= StartOf(s[k]);
        }
      }
    }
  }

  /** An entry that does not start strictly earlier leaves the earliest as it was. */
  lemma StepKeepsEarliest(s: seq<Period>, now: nat, i: nat, slot: Slot, j: nat)
    requires ValidSchedule(s) && i < |s|
    requires EarliestAt(s, now, i, slot, j)
    requires Ahead(s[i], now) ==> slot.start <= StartOf(s[i])
    ensures EarliestAt(s, now, i + 1, slot, j)
  {
  }

  /** One more entry that is not in progress keeps `ScannedUpTo`. */
  lemma ScanStep(s: seq<Period>, now: nat, i: nat, best: Option<Slot>)
    requires ValidSchedule(s) && i < |s|
    requires ScannedUpTo(s, now, i, best) && !InProgress(s[i], now)
    ensures ScannedUpTo(s, now, i + 1, NextBest(s, now, i, best))
  {
    var slot := Slot(StartOf(s[i]), EndOf(s[i]));
    if Ahead(s[i], now) && (best.None? || slot.start < best.value.start) {
      StepNewEarliest(s, now, i, best);
    } else if best.Some? {
      var j: nat :| EarliestAt(s, now, i, best.value, j);
      StepKeepsEarliest(s, now, i, best.value, j);
    }
  }

  /** No entry before index `j` is in progress at `now`. */
  predicate NoneInProgressBefore(s: seq<Period>, now: nat, j: nat)
    requires ValidSchedule(s) && j <= |s|
  {
    forall k | 0 <= k < j :: !InProgress(s[k], now)
  }

  /** The loop breaks at the first entry in progress, and runs to the end only when there is none. */
  lemma {:induction false} ScanFromBreaksFirst(s: seq<Period>, now: nat, i: nat, best: Option<Slot>)
    requires ValidSchedule(s) && i <= |s|
    requires NoneInProgressBefore(s, now, i)
    ensures var r := ScanFrom(s, now, i, best);
      && (r.InStudy? ==> NoneInProgressBefore(s, now, r.index))
      && (r.NotInStudy? ==> NoneInProgressBefore(s, now, |s|))
    decreases |s| - i
  {
    if i == |s| {
      assert ScanFrom(s, now, i, best) == NotInStudy(best);
    } else if InProgress(s[i], now) {
      assert ScanFrom(s, now, i, best) == InStudy(i);
    } else {
      var next := NextBest(s, now, i, best);
      ScanFromSkips(s, now, i, best);
      assert NoneInProgressBefore(s, now, i + 1) by {
        forall k | 0 <= k < i + 1
          ensures !InProgress(s[k], now)
        {
          if k < i {
            assert !InProgress(s[k], now);
          }
        }
      }
      ScanFromBreaksFirst(s, now, i + 1, next);
    }
  }

  /** When the loop runs to the end, `best` holds the earliest start still to come, if any. */
  lemma {:induction false} ScanFromFindsEarliest(s: seq<Period>, now: nat, i: nat, best: Option<Slot>)
    requires ValidSchedule(s) && i <= |s|
    requires ScannedUpTo(s, now, i, best)
    ensures var r := ScanFrom(s, now, i, best);
      && (r.NotInStudy? && r.next.None? ==> forall k | 0 <= k < |s| :: !Ahead(s[k], now))
      && (r.NotInStudy? && r.next.Some? ==> Earliest(s, now, |s|, r.next.value))
    decreases |s| - i
  {
    if i < |s| && !InProgress(s[i], now) {
      var next := NextBest(s, now, i, best);
      ScanFromSkips(s, now, i, best);
      ScanStep(s, now, i, best);
      ScanFromFindsEarliest(s, now, i + 1, next);
    }
  }

  /**
   Run from an entry `i` whose predecessors were neither in progress nor
   missed by `best`, the loop breaks at the first entry in progress, and
   otherwise ends with the earliest start still to come, if any.
   */
  lemma ScanFromCorrect(s: seq<Period>, now: nat, i: nat, best: Option<Slot>)
    requires ValidSchedule(s) && i <= |s|
    requires ScannedUpTo(s, now, i, best)
    ensures var r := ScanFrom(s, now, i, best);
      && (r.InStudy? <==> exists k | 0 <= k < |s| :: InProgress(s[k], now))
      && (r.InStudy? ==> forall k | 0 <= k < r.index :: !InProgress(s[k], now))
      && (r.NotInStudy? && r.next.None? ==> forall k | 0 <= k < |s| :: !Ahead(s[k], now))
      && (r.NotInStudy? && r.next.Some? ==> Earliest(s, now, |s|, r.next.value))
  {
    ScanFromBreaksFirst(s, now, i, best);
    ScanFromFindsEarliest(s, now, i, best);
  }

  /** No entry of the schedule is in progress at `now`. */
  predicate NoneInProgress(s: seq<Period>, now: nat)
    requires ValidSchedule(s)
  {
    forall k | 0 <= k < |s| :: !InProgress(s[k], now)
  }

  /** No entry of the schedule starts later today than `now`. */
  predicate NoneAhead(s: seq<Period>, now: nat)
    requires ValidSchedule(s)
  {
    forall k | 0 <= k < |s| :: !Ahead(s[k], now)
  }

  /** The loop over the whole schedule. */
  function Scan(s: seq<Period>, now: nat): (r: ScanResult)
    requires ValidSchedule(s)
    ensures r.InStudy? <==> !NoneInProgress(s, now)
    ensures r.InStudy? ==>
      r.index < |s| && InProgress(s[r.index], now) && forall k | 0 <= k < r.index :: !InProgress(s[k], now)
    ensures r.NotInStudy? ==> (r.next.None? <==> NoneAhead(s, now))
    ensures r.NotInStudy? && r.next.Some? ==> Earliest(s, now, |s|, r.next.value)
  {
    ScanFromCorrect(s, now, 0, None);
    var r := ScanFrom(s, now, 0, None);
    assert r.NotInStudy? && r.next.Some? ==> exists j :: EarliestAt(s, now, |s|, r.next.value, j);
    r
  }

  const MinuteCheck := 60
  const HourCheck := 3600

  /**
   The outcome of one pass of the alarm loop.
   `Studying`: entry `index` is in progress; the status shows its end text
   and the loop sleeps `wait` seconds until that end.
   `Upcoming`: the next start and its end in seconds; the loop sleeps
   `wait` seconds, then announces the start and sleeps `endWait` seconds
   (when that is positive) before announcing the end.
   `Tomorrow`: nothing is left today; the first entry's start tomorrow is
   `wake`, and the loop sleeps `wait` seconds.
   `Idle`: an empty schedule; the loop only pauses.
   */
  datatype Decision =
    | Studying(index: nat, until: string, wait: int)
    | Upcoming(start: nat, end: nat, wait: int, endWait: int)
    | Tomorrow(first: string, wake: nat, wait: int)
    | Idle

  function Min(a: int, b: int): int {
    if a < b then a else b
  }

  /**
   The decision `run_alarm` takes at time of day `now`. A period in progress
   wins, reported as the first one in list order; otherwise the least start
   still to come, with the end of the first entry that has it; otherwise
   the first entry's start tomorrow. The wait before "Study time start!"
   is at most a minute, whatever the distance to the start.
   */
  function Decide(s: seq<Period>, now: nat): (d: Decision)
    requires ValidSchedule(s) && now < SecondsPerDay
    ensures d.Studying? <==> !NoneInProgress(s, now)
    ensures d.Studying? ==> (
      && d.index < |s| && InProgress(s[d.index], now)
      && (forall k | 0 <= k < d.index :: !InProgress(s[k], now))
      && d.until == s[d.index].end && d.wait == EndOf(s[d.index]) - now > 0)
    ensures d.Upcoming? <==> NoneInProgress(s, now) && !NoneAhead(s, now)
    ensures d.Upcoming? ==> (
      && Earliest(s, now, |s|, Slot(d.start, d.end))
      && 0 < d.wait <= MinuteCheck && d.wait <= d.start - now
      && d.endWait == d.end - (d.start + 1))
    ensures d.Tomorrow? <==> s != [] && NoneInProgress(s, now) && NoneAhead(s, now)
    ensures d.Tomorrow? ==> (
      && d.first == s[0].start && d.wake == StartOf(s[0]) + SecondsPerDay
      && 0 < d.wait <= HourCheck && d.wait <= d.wake - now)
    ensures d.Idle? <==> s == []
  {
    match Scan(s, now)
    case InStudy(i) => Studying(i, s[i].end, EndOf(s[i]) - now)
    case NotInStudy(Some(slot)) =>
      assert exists j :: EarliestAt(s, now, |s|, slot, j);
      Upcoming(slot.start, slot.end, Min(slot.start - now, MinuteCheck), slot.end - (slot.start + 1))
    case NotInStudy(None) =>
      if s == [] then Idle
      else
        var wake := StartOf(s[0]) + SecondsPerDay;
        Tomorrow(s[0].start, wake, Min(wake - now, HourCheck))
  }

  /** The earliest start still to come is a single number: two readings of it agree. */
  lemma EarliestUnique(s: seq<Period>, now: nat, a: Slot, b: Slot)
    requires ValidSchedule(s)
    requires Earliest(s, now, |s|, a) && Earliest(s, now, |s|, b)
    ensures a == b
  {
    var i: nat :| EarliestAt(s, now, |s|, a, i);
    var j: nat :| EarliestAt(s, now, |s|, b, j);
    assert a.start <= b.start && b.start <= a.start;
    if i < j {
      assert false;
    } else if j < i {
      assert false;
    }
  }
}
