/** Sixty-second hit statistics kept in a ring of per-second counters, and how
    they relate to the plain history of hits. */
module SlidingWindow {
  import opened Domain

  /** The abstract value of a statistics object. */
  datatype Window = Window(slots: seq<nat>, last: nat, total: nat) {
    predicate Valid() {
      |slots| == 60 && Sum(slots) <= total
    }
  }

  function EmptyWindow(): Window {
    Window(seq(60, _ => 0), 0, 0)
  }

  function Sum(s: seq<nat>): nat {
    if |s| == 0 then 0 else Sum(s[..|s| - 1]) + s[|s| - 1]
  }

  /** The last second at or before `now` that falls on slot `j`. */
  function SecOf(now: int, j: nat): (sec: int)
    requires j < 60
    ensures now - 60 < sec <= now && sec % 60 == j
  {
    now - (now - j) % 60
  }

  /** The slots once every second after `last`, up to `now`, has been kept. */
  function Advanced(slots: seq<nat>, last: nat, now: nat): (r: seq<nat>)
    requires |slots| == 60
    ensures |r| == 60
  {
    seq(60, j requires 0 <= j < 60 => if last < SecOf(now, j) then 0 else slots[j])
  }

  /** One more hit, at second `now`. */
  function Recorded(w: Window, now: nat): Window
    requires w.Valid()
  {
    var kept := Advanced(w.slots, w.last, now);
    Window(kept[now % 60 := kept[now % 60] + 1], now, w.total + 1)
  }

  /** What a read at second `now` reports. */
  function LastMinute(w: Window, now: nat): nat {
    if now > w.last && now - w.last >= 60 then 0 else Sum(w.slots)
  }

  // ----- sums -----

  lemma {:induction false} SumUpdate(s: seq<nat>, i: nat, v: nat)
    requires i < |s|
    ensures Sum(s[i := v]) == Sum(s) - s[i] + v
    ensures s[i] <= Sum(s)
  {
    var last := |s| - 1;
    if i == last {
      assert s[i := v][..last] == s[..last];
    } else {
      assert s[i := v][..last] == s[..last][i := v];
      SumUpdate(s[..last], i, v);
    }
  }

  lemma {:induction false} SumZeros(s: seq<nat>)
    requires forall j :: 0 <= j < |s| ==> s[j] == 0
    ensures Sum(s) == 0
  {
    if |s| > 0 {
      SumZeros(s[..|s| - 1]);
    }
  }

  lemma {:induction false} SumMonotone(s: seq<nat>, t: seq<nat>)
    requires |s| == |t| && forall j :: 0 <= j < |s| ==> s[j] <= t[j]
    ensures Sum(s) <= Sum(t)
  {
    if |s| > 0 {
      SumMonotone(s[..|s| - 1], t[..|t| - 1]);
    }
  }

  /** Under any clock the ring holds no more hits than were recorded. */
  lemma RecordedValid(w: Window, now: nat)
    requires w.Valid()
    ensures Recorded(w, now).Valid()
    ensures Sum(Recorded(w, now).slots) == Sum(Advanced(w.slots, w.last, now)) + 1
  {
    var kept := Advanced(w.slots, w.last, now);
    SumMonotone(kept, w.slots);
    SumUpdate(kept, now % 60, kept[now % 60] + 1);
  }

  // ----- the object -----

  class SlidingWindowStats {
    const buffer: array<nat>
    var lastUpdateSec: nat
    var cachedSum: nat
    var totalHits: nat

    ghost function Value(): Window
      reads this, buffer
    {
      Window(buffer[..], lastUpdateSec, totalHits)
    }

    /** The cached sum is the sum of the slots, so the subtraction in
        `RecordHit` never underflows. */
    ghost predicate Valid()
      reads this, buffer
    {
      Value().Valid() && cachedSum == Sum(buffer[..])
    }

    constructor ()
      ensures Valid() && fresh(buffer) && Value() == EmptyWindow()
    {
      buffer := new nat[60](_ => 0);
      lastUpdateSec, cachedSum, totalHits := 0, 0, 0;
      new;
      SumZeros(buffer[..]);
      assert buffer[..] == EmptyWindow().slots;
    }

    /** Forgets the seconds that left the ring: all of them after a long
        silence, otherwise one by one. */
    method OpenSeconds(nowSec: nat)
      requires Valid()
      modifies this`cachedSum, buffer
      ensures buffer[..] == Advanced(old(buffer[..]), lastUpdateSec, nowSec)
      ensures cachedSum == Sum(buffer[..])
    {
      ghost var slots := buffer[..];
      if nowSec > lastUpdateSec + 60 {
        forall j | 0 <= j < buffer.Length {
          buffer[j] := 0;
        }
        cachedSum := 0;
        SumZeros(buffer[..]);
        AllOpened(slots, lastUpdateSec, nowSec, buffer[..]);
      } else if nowSec > lastUpdateSec {
        NoneOpened(slots, lastUpdateSec, lastUpdateSec);
        for sec: nat := lastUpdateSec + 1 to nowSec + 1
          invariant buffer[..] == Advanced(slots, lastUpdateSec, sec - 1)
          invariant cachedSum == Sum(buffer[..])
        {
          AdvancedStep(slots, lastUpdateSec, sec);
          cachedSum := ClearSlot(buffer, sec % 60, cachedSum);
        }
      } else {
        NoneOpened(slots, lastUpdateSec, nowSec);
      }
    }

    /** One loop step of `OpenSeconds`: the subtraction stays non-negative. */
    static method ClearSlot(slots: array<nat>, idx: nat, sum: nat) returns (rest: nat)
      requires idx < slots.Length && sum == Sum(slots[..])
      modifies slots
      ensures slots[..] == old(slots[..])[idx := 0] && rest == Sum(slots[..])
    {
      SumUpdate(slots[..], idx, 0);
      rest := sum - slots[idx];
      slots[idx] := 0;
      assert slots[..] == old(slots[..])[idx := 0];
    }

    /** Opens the seconds up to now, then counts the hit. */
    method RecordHit(now: Timestamp)
      requires Valid()
      modifies this, buffer
      ensures Valid() && Value() == Recorded(old(Value()), UnixSecs(now))
    {
      var nowSec := UnixSecs(now);
      RecordedValid(Value(), nowSec);
      OpenSeconds(nowSec);
      ghost var kept := buffer[..];
      var idx := nowSec % 60;
      buffer[idx] := buffer[idx] + 1;
      assert buffer[..] == kept[idx := kept[idx] + 1];
      cachedSum := cachedSum + 1;
      totalHits := totalHits + 1;
      lastUpdateSec := nowSec;
    }

    method GetLast60s(now: Timestamp) returns (hits: nat)
      requires Valid()
      ensures hits == LastMinute(Value(), UnixSecs(now))
    {
      var nowSec := UnixSecs(now);
      if nowSec > lastUpdateSec {
        var elapsed := nowSec - lastUpdateSec;
        if elapsed >= 60 {
          return 0;
        }
        return cachedSum;
      }
      return cachedSum;
    }
  }

  /** Within one window, a slot determines the second. */
  lemma SameSlot(a: int, b: int)
    requires a % 60 == b % 60 && -60 < a - b < 60
    ensures a == b
  {
  }

  lemma SecOfStep(sec: nat, j: nat)
    requires j < 60 && sec > 0
    ensures SecOf(sec, j) == if j == sec % 60 then sec else SecOf(sec - 1, j)
  {
    if j == sec % 60 {
      SameSlot(SecOf(sec, j), sec);
    } else {
      assert SecOf(sec, j) <= sec - 1;
      SameSlot(SecOf(sec, j), SecOf(sec - 1, j));
    }
  }

  /** Opening one more second clears exactly its slot. */
  lemma AdvancedStep(slots: seq<nat>, last: nat, sec: nat)
    requires |slots| == 60 && sec > last
    ensures Advanced(slots, last, sec) == Advanced(slots, last, sec - 1)[sec % 60 := 0]
  {
    forall j: nat | j < 60
      ensures Advanced(slots, last, sec)[j] == Advanced(slots, last, sec - 1)[sec % 60 := 0][j]
    {
      SecOfStep(sec, j);
    }
  }

  lemma NoneOpened(slots: seq<nat>, last: nat, now: nat)
    requires |slots| == 60 && now <= last
    ensures Advanced(slots, last, now) == slots
  {
  }

  lemma AllOpened(slots: seq<nat>, last: nat, now: nat, zeros: seq<nat>)
    requires |slots| == |zeros| == 60 && now >= last + 60
    requires forall j :: 0 <= j < 60 ==> zeros[j] == 0
    ensures Advanced(slots, last, now) == zeros
  {
  }

  // ----- the plain history -----

  /** The statistics after hits at the given seconds, oldest first. */
  function Replay(hits: seq<nat>): (w: Window)
    ensures w.Valid()
  {
    if |hits| == 0 then
      SumZeros(EmptyWindow().slots);
      EmptyWindow()
    else
      var earlier := Replay(hits[..|hits| - 1]);
      RecordedValid(earlier, hits[|hits| - 1]);
      Recorded(earlier, hits[|hits| - 1])
  }

  /** How many hits fell on second `sec`. */
  function HitsAt(hits: seq<nat>, sec: int): nat {
    if |hits| == 0 then 0
    else HitsAt(hits[..|hits| - 1], sec) + if hits[|hits| - 1] == sec then 1 else 0
  }

  /** How many hits fell on seconds lo..hi. */
  function HitsIn(hits: seq<nat>, lo: int, hi: int): nat {
    if |hits| == 0 then 0
    else HitsIn(hits[..|hits| - 1], lo, hi) + if lo <= hits[|hits| - 1] <= hi then 1 else 0
  }

  ghost predicate Nondecreasing(hits: seq<nat>) {
    forall i, j :: 0 <= i <= j < |hits| ==> hits[i] <= hits[j]
  }

  lemma {:induction false} NoHitsAfter(hits: seq<nat>, sec: int)
    requires forall i :: 0 <= i < |hits| ==> hits[i] < sec
    ensures HitsAt(hits, sec) == 0
  {
    if |hits| > 0 {
      NoHitsAfter(hits[..|hits| - 1], sec);
    }
  }

  /** Under any clock, even one that runs backwards, the total counts every
      hit and the ring never claims more than that. */
  lemma {:induction false} TotalCountsEveryHit(hits: seq<nat>)
    ensures Replay(hits).total == |hits|
    ensures Sum(Replay(hits).slots) <= |hits|
    ensures |hits| > 0 ==> Replay(hits).last == hits[|hits| - 1]
  {
    if |hits| > 0 {
      TotalCountsEveryHit(hits[..|hits| - 1]);
    }
  }

  /** The hits of the last sixty seconds, laid out by slot. */
  function Layout(hits: seq<nat>, now: int): (slots: seq<nat>)
    ensures |slots| == 60
  {
    seq(60, j requires 0 <= j < 60 => HitsAt(hits, SecOf(now, j)))
  }

  lemma KeptSlot(j: nat, last: nat, now: nat)
    requires j < 60 && last <= now && SecOf(now, j) <= last
    ensures SecOf(now, j) == SecOf(last, j)
  {
  }

  /** With a clock that never runs back, the ring is the layout of the history. */
  lemma {:induction false} RingIsLayout(hits: seq<nat>)
    requires Nondecreasing(hits)
    ensures Replay(hits).slots == Layout(hits, Replay(hits).last)
  {
    if |hits| > 0 {
      var prefix, now := hits[..|hits| - 1], hits[|hits| - 1];
      var earlier := Replay(prefix);
      RingIsLayout(prefix);
      TotalCountsEveryHit(prefix);
      forall j: nat | j < 60
        ensures Replay(hits).slots[j] == HitsAt(hits, SecOf(now, j))
      {
        if earlier.last < SecOf(now, j) {
          NoHitsAfter(prefix, SecOf(now, j));
        } else {
          KeptSlot(j, earlier.last, now);
        }
        if j == now % 60 {
          SameSlot(SecOf(now, j), now);
        }
      }
    } else {
      forall j: nat | j < 60
        ensures Layout(hits, 0)[j] == 0
      {
      }
    }
  }

  /** One more hit shows in its own slot, if it is in the window. */
  lemma LayoutStep(hits: seq<nat>, now: int)
    requires |hits| > 0
    ensures
      var hit, slots := hits[|hits| - 1], Layout(hits[..|hits| - 1], now);
      Layout(hits, now) == if now - 59 <= hit <= now then slots[hit % 60 := slots[hit % 60] + 1] else slots
  {
    var hit := hits[|hits| - 1];
    forall j: nat | j < 60
      ensures SecOf(now, j) == hit <==> now - 59 <= hit <= now && j == hit % 60
    {
      if now - 59 <= hit <= now && j == hit % 60 {
        SameSlot(SecOf(now, j), hit);
      }
    }
  }

  /** Laying out a history by slot loses none of the window's hits. */
  lemma {:induction false} LayoutSum(hits: seq<nat>, now: int)
    ensures Sum(Layout(hits, now)) == HitsIn(hits, now - 59, now)
  {
    if |hits| == 0 {
      SumZeros(Layout(hits, now));
    } else {
      var slots, slot := Layout(hits[..|hits| - 1], now), hits[|hits| - 1] % 60;
      LayoutSum(hits[..|hits| - 1], now);
      LayoutStep(hits, now);
      SumUpdate(slots, slot, slots[slot] + 1);
    }
  }

  lemma SlotHoldsSecond(hits: seq<nat>, sec: nat)
    requires Nondecreasing(hits)
    requires Replay(hits).last - 60 < sec <= Replay(hits).last
    ensures Replay(hits).slots[sec % 60] == HitsAt(hits, sec)
  {
    RingIsLayout(hits);
    SameSlot(SecOf(Replay(hits).last, sec % 60), sec);
  }

  ghost predicate SlotsMatch(w: Window, hits: seq<nat>)
    requires w.Valid()
  {
    forall sec: nat :: w.last - 60 < sec <= w.last ==> w.slots[sec % 60] == HitsAt(hits, sec)
  }

  /** The ring refines the history: each second of the last sixty has its own
      slot, and the slot holds the number of hits of that second. */
  lemma RingHoldsSeconds(hits: seq<nat>)
    requires Nondecreasing(hits)
    ensures SlotsMatch(Replay(hits), hits)
  {
    var w := Replay(hits);
    forall sec: nat | w.last - 60 < sec <= w.last
      ensures w.slots[sec % 60] == HitsAt(hits, sec)
    {
      SlotHoldsSecond(hits, sec);
    }
  }

  /** The cached sum is the number of hits in the sixty seconds that end with
      the last hit. */
  lemma RingSumIsWindow(hits: seq<nat>)
    requires Nondecreasing(hits)
    ensures var last := Replay(hits).last as int; Sum(Replay(hits).slots) == HitsIn(hits, last - 59, last)
  {
    RingIsLayout(hits);
    LayoutSum(hits, Replay(hits).last);
  }

  lemma {:induction false} HitsSplit(hits: seq<nat>, lo: int, mid: int, hi: int)
    requires lo <= mid + 1 && mid <= hi
    ensures HitsIn(hits, lo, hi) == HitsIn(hits, lo, mid) + HitsIn(hits, mid + 1, hi)
  {
    if |hits| > 0 {
      HitsSplit(hits[..|hits| - 1], lo, mid, hi);
    }
  }

  lemma {:induction false} NoHitsIn(hits: seq<nat>, lo: int, hi: int)
    requires forall i :: 0 <= i < |hits| ==> hits[i] < lo
    ensures HitsIn(hits, lo, hi) == 0
  {
    if |hits| > 0 {
      NoHitsIn(hits[..|hits| - 1], lo, hi);
    }
  }

  /** What a read at second `now` reports, whenever it comes: nothing once sixty
      seconds have gone by, and otherwise the minute of the last hit. After the
      last hit that is the true count plus exactly the hits that have left the
      window since; it is exact if and only if sixty seconds have gone by or
      there are no such hits. */
  lemma ReadExcess(hits: seq<nat>, now: nat)
    requires Nondecreasing(hits) && |hits| > 0
    ensures
      var last: int := hits[|hits| - 1];
      var read, truth := LastMinute(Replay(hits), now), HitsIn(hits, now - 59, now);
      var excess := HitsIn(hits, last - 59, now - 60);
      && read == (if now - last >= 60 then 0 else HitsIn(hits, last - 59, last))
      && (now >= last ==> read == truth + if now - last < 60 then excess else 0)
      && (now >= last ==> (read == truth <==> now - last >= 60 || excess == 0))
  {
    var last: int := hits[|hits| - 1];
    TotalCountsEveryHit(hits);
    RingSumIsWindow(hits);
    if now - last >= 60 {
      NoHitsIn(hits, now - 59, now);
    } else if now >= last {
      HitsSplit(hits, last - 59, now - 60, last);
      HitsSplit(hits, now - 59, last, now);
      NoHitsIn(hits, last + 1, now);
    }
  }

  /** A witness: at second 160 the hit of second 100 has left the window, and a
      read still counts it. */
  lemma ReadCountsExpiredHit()
    ensures HitsIn([100, 159], 101, 160) == 1
    ensures LastMinute(Replay([100, 159]), 160) == 2
  {
    var none, one, two: seq<nat> := [], [100], [100, 159];
    assert one[..0] == none && two[..1] == one;
    ReadExcess(two, 160);
    assert HitsIn(two, 100, 100) == 1;
  }

  // ----- the same in time -----

  /** A clock before the epoch is read as the epoch. */
  function Clamped(t: Timestamp): Timestamp {
    if t < 0 then 0 else t
  }

  function SecondsOf(times: seq<Timestamp>): (hits: seq<nat>)
    ensures |hits| == |times|
  {
    seq(|times|, i requires 0 <= i < |times| => UnixSecs(times[i]))
  }

  /** How many of the times lie in [from, until). */
  function TimesIn(times: seq<Timestamp>, from: int, until: int): nat {
    if |times| == 0 then 0
    else
      var last := Clamped(times[|times| - 1]);
      TimesIn(times[..|times| - 1], from, until) + if from <= last < until then 1 else 0
  }

  /** How many lie in the time of the seconds lo to hi. */
  function TimesInSeconds(times: seq<Timestamp>, lo: int, hi: int): nat {
    TimesIn(times, lo * 1_000_000_000, (hi + 1) * 1_000_000_000)
  }

  lemma {:induction false} SecondsSpan(times: seq<Timestamp>, lo: int, hi: int)
    ensures HitsIn(SecondsOf(times), lo, hi) == TimesInSeconds(times, lo, hi)
  {
    if |times| > 0 {
      SecondsSpan(times[..|times| - 1], lo, hi);
      assert SecondsOf(times)[..|times| - 1] == SecondsOf(times[..|times| - 1]);
    }
  }

  ghost predicate InTime(times: seq<Timestamp>) {
    forall i, j :: 0 <= i <= j < |times| ==> times[i] <= times[j]
  }

  lemma InTimeSeconds(times: seq<Timestamp>)
    requires InTime(times)
    ensures Nondecreasing(SecondsOf(times))
  {
    forall i, j | 0 <= i <= j < |times|
      ensures SecondsOf(times)[i] <= SecondsOf(times)[j]
    {
      assert times[i] <= times[j];
    }
  }

  lemma SecondsSum(times: seq<Timestamp>)
    requires InTime(times) && |times| > 0
    ensures
      var last: int := UnixSecs(times[|times| - 1]);
      Sum(Replay(SecondsOf(times)).slots) == HitsIn(SecondsOf(times), last - 59, last)
  {
    InTimeSeconds(times);
    TotalCountsEveryHit(SecondsOf(times));
    RingSumIsWindow(SecondsOf(times));
  }

  /** After hits in time order, the ring's sum is the number of them in the
      sixty seconds of time that end with the second of the last hit. */
  lemma RingSumInTime(times: seq<Timestamp>)
    requires InTime(times) && |times| > 0
    ensures
      var last: int := UnixSecs(times[|times| - 1]);
      Sum(Replay(SecondsOf(times)).slots) == TimesInSeconds(times, last - 59, last)
  {
    var last: int := UnixSecs(times[|times| - 1]);
    SecondsSum(times);
    SecondsSpan(times, last - 59, last);
  }

  /** What a read at instant `now` reports of such hits, and when that is the
      number of hits in the sixty seconds that end with its own second. */
  lemma ReadInTime(times: seq<Timestamp>, now: Timestamp)
    requires InTime(times) && |times| > 0
    ensures
      var last: int, sec: int := UnixSecs(times[|times| - 1]), UnixSecs(now);
      var read, truth := LastMinute(Replay(SecondsOf(times)), UnixSecs(now)), TimesInSeconds(times, sec - 59, sec);
      var expired := TimesInSeconds(times, last - 59, sec - 60);
      && read == (if sec - last >= 60 then 0 else TimesInSeconds(times, last - 59, last))
      && (sec >= last ==> read == truth + if sec - last < 60 then expired else 0)
      && (sec >= last ==> (read == truth <==> sec - last >= 60 || expired == 0))
  {
    var last: int, sec: int := UnixSecs(times[|times| - 1]), UnixSecs(now);
    InTimeSeconds(times);
    ReadExcess(SecondsOf(times), UnixSecs(now));
    SecondsSpan(times, last - 59, last);
    SecondsSpan(times, sec - 59, sec);
    SecondsSpan(times, last - 59, sec - 60);
  }

  // ----- any clock -----

  /** The hits already on second s are the ones its slot keeps when a hit at or
      after s arrives: none if the slot is opened anew, otherwise those of the
      latest second before that shares it. */
  ghost predicate SlotKeeps(hits: seq<nat>, s: nat) {
    var last := Replay(hits).last;
    HitsAt(hits, s) == if last < s then 0 else HitsAt(hits, SecOf(last, s % 60))
  }

  /** That holds for each second of the window that ends with `now`. */
  ghost predicate KeepsWindow(hits: seq<nat>, now: nat) {
    forall s: nat :: now - 60 < s <= now ==> SlotKeeps(hits, s)
  }

  lemma LatestOnSlot(last: nat, s: nat)
    requires s <= last
    ensures s <= SecOf(last, s % 60)
  {
    if SecOf(last, s % 60) < s {
      SameSlot(SecOf(last, s % 60), s);
    }
  }

  /** One hit under any clock, seen from one slot. */
  lemma SlotAfterHit(hits: seq<nat>, now: nat, s: nat)
    requires SlotsMatch(Replay(hits), hits) && now - 60 < s <= now
    ensures Replay(hits + [now]).slots[s % 60] == HitsAt(hits + [now], s) <==> SlotKeeps(hits, s)
  {
    var w := Replay(hits);
    assert (hits + [now])[..|hits|] == hits;
    assert Replay(hits + [now]) == Recorded(w, now);
    SameSlot(SecOf(now, s % 60), s);
    if now % 60 == s % 60 {
      SameSlot(now, s);
    }
    if s <= w.last {
      LatestOnSlot(w.last, s);
      assert w.slots[SecOf(w.last, s % 60) % 60] == HitsAt(hits, SecOf(w.last, s % 60));
    }
  }

  /** Under any clock, a hit keeps the ring in agreement with the history if and
      only if each second of the new window had its hits in its slot. */
  lemma HitKeepsMatchIff(hits: seq<nat>, now: nat)
    requires SlotsMatch(Replay(hits), hits)
    ensures SlotsMatch(Replay(hits + [now]), hits + [now]) <==> KeepsWindow(hits, now)
  {
    TotalCountsEveryHit(hits + [now]);
    forall s: nat | now - 60 < s <= now
      ensures Replay(hits + [now]).slots[s % 60] == HitsAt(hits + [now], s) <==> SlotKeeps(hits, s)
    {
      SlotAfterHit(hits, now, s);
    }
  }

  /** After k hits the ring agrees with the history. */
  ghost predicate MatchesAt(hits: seq<nat>, k: nat)
    requires k <= |hits|
  {
    SlotsMatch(Replay(hits[..k]), hits[..k])
  }

  ghost predicate KeptAt(hits: seq<nat>, k: nat)
    requires k < |hits|
  {
    KeepsWindow(hits[..k], hits[k])
  }

  lemma NextMatchesIff(hits: seq<nat>, k: nat)
    requires k < |hits| && MatchesAt(hits, k)
    ensures MatchesAt(hits, k + 1) <==> KeptAt(hits, k)
  {
    assert hits[..k + 1] == hits[..k] + [hits[k]];
    HitKeepsMatchIff(hits[..k], hits[k]);
  }

  lemma StartMatches(hits: seq<nat>)
    ensures MatchesAt(hits, 0)
  {
    assert hits[..0] == [];
    RingHoldsSeconds([]);
  }

  ghost predicate AllTrue(s: seq<bool>, n: nat)
    requires n <= |s|
  {
    forall k :: 0 <= k < n ==> s[k]
  }

  /** What holds at the start, and stays exactly where each step is good, holds
      throughout if and only if all steps are. */
  lemma {:induction false} StepwiseIff(holds: seq<bool>, good: seq<bool>, n: nat)
    requires |holds| == |good| + 1 && holds[0] && n <= |good|
    requires forall k :: 0 <= k < |good| && holds[k] ==> (holds[k + 1] <==> good[k])
    ensures AllTrue(holds, n + 1) <==> AllTrue(good, n)
  {
    if n > 0 {
      StepwiseIff(holds, good, n - 1);
      assert AllTrue(holds, n + 1) <==> AllTrue(holds, n) && holds[n];
      assert AllTrue(good, n) <==> AllTrue(good, n - 1) && good[n - 1];
      assert holds[n - 1] ==> (holds[n - 1 + 1] <==> good[n - 1]);
    }
  }

  /** A run of hits, whatever its clock, has the ring agree with its history
      throughout if and only if each of its hits keeps it so. */
  lemma RingMatchesIff(hits: seq<nat>)
    ensures (forall k :: 0 <= k <= |hits| ==> MatchesAt(hits, k)) <==> (forall k :: 0 <= k < |hits| ==> KeptAt(hits, k))
  {
    var holds := seq(|hits| + 1, k requires 0 <= k <= |hits| => MatchesAt(hits, k));
    var good := seq(|hits|, k requires 0 <= k < |hits| => KeptAt(hits, k));
    StartMatches(hits);
    forall k | 0 <= k < |hits| && MatchesAt(hits, k)
      ensures MatchesAt(hits, k + 1) <==> KeptAt(hits, k)
    {
      NextMatchesIff(hits, k);
    }
    StepwiseIff(holds, good, |hits|);
    assert forall k :: 0 <= k <= |hits| ==> holds[k] == MatchesAt(hits, k);
    assert forall k :: 0 <= k < |hits| ==> good[k] == KeptAt(hits, k);
  }

  /** A witness: of two hits at second 100 with one at second 70 between them,
      the ring remembers one, for the step to 70 left second 100 outside the
      window and the step back opens its slot anew. */
  lemma BackwardClockLosesHits()
    ensures HitsAt([100, 70, 100], 100) == 2
    ensures Replay([100, 70, 100]).slots[100 % 60] == 1
    ensures !KeepsWindow([100, 70], 100)
  {
    var one, two, three := [100], [100, 70], [100, 70, 100];
    assert one[..0] == [] && two[..1] == one && three[..2] == two;
    TotalCountsEveryHit(two);
    assert SecOf(100, 40) == 100;
    assert Replay(three) == Recorded(Replay(two), 100);
    assert !SlotKeeps(two, 100);
  }
}
