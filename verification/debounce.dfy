/** The event filter of the file-system watch loop: raw change notifications
    for hidden and editor-backup files are dropped, and of the rest only those
    arriving strictly more than 50 ms after the last accepted one go through.
    Time is an integer count of nanoseconds on a monotonic clock. */
module Debounce {
  import Paths

  /** The debounce window, 50 ms in nanoseconds. */
  const Window: int := 50 * 1_000_000

  /** One raw notification: when the loop saw it, and the path it names. */
  datatype RawEvent = RawEvent(time: int, name: string)

  /** The outcome of one step: whether the event goes through, and the
      timestamp of the last accepted event afterwards. */
  datatype Decision = Decision(accepted: bool, lastEvent: int)

  /** The outcome of filtering a whole sequence: one flag per event, and the
      timestamp of the last accepted event at the end. */
  datatype Filtered = Filtered(accepted: seq<bool>, lastEvent: int)

  /** A base name the identity filter drops: a hidden file (leading `.`) or
      an editor backup (trailing `~`). */
  predicate Ignored(base: string)
  {
    |base| > 0 && (base[0] == '.' || base[|base| - 1] == '~')
  }

  /** The filter is `strings.HasPrefix(base, ".") || strings.HasSuffix(base, "~")`. */
  lemma IgnoredIsDotPrefixOrTildeSuffix(base: string)
    ensures Ignored(base) <==> "." <= base || Paths.IsSuffix("~", base)
  {
  }

  /** Filtering one event against the timestamp of the last accepted one. */
  function Step(lastEvent: int, e: RawEvent): (d: Decision)
    ensures d.accepted <==> e.time - lastEvent > Window && !Ignored(Paths.BaseName(e.name))
    ensures d.lastEvent == (if d.accepted then e.time else lastEvent)
  {
    var base := Paths.BaseName(e.name);
    if e.time - lastEvent > Window && !Ignored(base) then Decision(true, e.time)
    else Decision(false, lastEvent)
  }

  /** Filtering a sequence of events, in order, starting from `start` (the
      moment the watcher was created). */
  function Fold(start: int, events: seq<RawEvent>): (r: Filtered)
    ensures |r.accepted| == |events|
    ensures r.lastEvent >= start
    ensures forall i :: 0 <= i < |events| && r.accepted[i] ==>
      events[i].time - start > Window && r.lastEvent >= events[i].time
  {
    if |events| == 0 then Filtered([], start)
    else
      var before := Fold(start, events[..|events| - 1]);
      var d := Step(before.lastEvent, events[|events| - 1]);
      Filtered(before.accepted + [d.accepted], d.lastEvent)
  }

  /** The threshold is strict: an event exactly one window after the last
      accepted one is dropped, and one nanosecond later it goes through. */
  lemma ThresholdIsStrict(lastEvent: int, name: string)
    requires !Ignored(Paths.BaseName(name))
    ensures !Step(lastEvent, RawEvent(lastEvent + Window, name)).accepted
    ensures Step(lastEvent, RawEvent(lastEvent + Window + 1, name)).accepted
  {
  }

  /** Hidden and backup files are dropped whatever their timing, and leave
      the last-accepted timestamp alone. */
  lemma IgnoredNeverAccepted(lastEvent: int, e: RawEvent)
    requires Ignored(Paths.BaseName(e.name))
    ensures Step(lastEvent, e) == Decision(false, lastEvent)
  {
  }

  /** An event that passes both filters is accepted and becomes the new last
      accepted event. */
  lemma EligibleAccepted(lastEvent: int, e: RawEvent)
    requires e.time - lastEvent > Window
    requires !Ignored(Paths.BaseName(e.name))
    ensures Step(lastEvent, e) == Decision(true, e.time)
  {
  }

  /** Filtering a prefix gives the prefix of the flags. */
  lemma {:induction false} FoldPrefix(start: int, events: seq<RawEvent>, k: nat)
    requires k <= |events|
    ensures Fold(start, events[..k]).accepted == Fold(start, events).accepted[..k]
    decreases |events| - k
  {
    if k < |events| {
      var n := |events|;
      var prefix := events[..n - 1];
      FoldPrefix(start, prefix, k);
      assert prefix[..k] == events[..k];
      var before := Fold(start, prefix);
      var d := Step(before.lastEvent, events[n - 1]);
      assert Fold(start, events).accepted == before.accepted + [d.accepted];
      assert (before.accepted + [d.accepted])[..k] == before.accepted[..k];
    } else {
      assert events[..k] == events;
    }
  }

  /** Event `k` is decided against the last-accepted timestamp left by the
      events before it. */
  lemma DecisionAt(start: int, events: seq<RawEvent>, k: nat)
    requires k < |events|
    ensures Fold(start, events).accepted[k] == Step(Fold(start, events[..k]).lastEvent, events[k]).accepted
  {
    var upTo := events[..k + 1];
    FoldPrefix(start, events, k + 1);
    assert upTo[..k] == events[..k];
    assert upTo[k] == events[k];
    var d := Step(Fold(start, events[..k]).lastEvent, events[k]);
    assert Fold(start, upTo).accepted == Fold(start, events[..k]).accepted + [d.accepted];
    assert Fold(start, upTo).accepted[k] == d.accepted;
  }

  /** After a sequence, `lastEvent` is the time of the last accepted event,
      or still `start` when none was accepted: rejected events never move it. */
  lemma {:induction false} FoldLastEvent(start: int, events: seq<RawEvent>)
    ensures (forall j :: 0 <= j < |events| ==> !Fold(start, events).accepted[j]) ==>
      Fold(start, events).lastEvent == start
    ensures forall i ::
      (0 <= i < |events| && Fold(start, events).accepted[i] &&
       (forall j :: i < j < |events| ==> !Fold(start, events).accepted[j])) ==>
      Fold(start, events).lastEvent == events[i].time
  {
    if |events| > 0 {
      var n := |events|;
      var prefix := events[..n - 1];
      FoldLastEvent(start, prefix);
      var before := Fold(start, prefix);
      var d := Step(before.lastEvent, events[n - 1]);
      var r := Fold(start, events);
      assert r.accepted == before.accepted + [d.accepted];
      assert r.lastEvent == d.lastEvent;
      if d.accepted {
        assert r.accepted[n - 1];
      } else {
        assert r.lastEvent == before.lastEvent;
        forall i | 0 <= i < n && r.accepted[i] && (forall j :: i < j < n ==> !r.accepted[j])
          ensures r.lastEvent == events[i].time
        {
          assert i < n - 1;
          assert before.accepted[i];
          assert forall j :: i < j < n - 1 ==> before.accepted[j] == r.accepted[j];
          assert prefix[i] == events[i];
        }
        if forall j :: 0 <= j < n ==> !r.accepted[j] {
          assert forall j :: 0 <= j < n - 1 ==> before.accepted[j] == r.accepted[j];
        }
      }
    }
  }

  /** Hidden and backup files are never accepted anywhere in a sequence. */
  lemma IgnoredNeverAcceptedInFold(start: int, events: seq<RawEvent>, k: nat)
    requires k < |events|
    requires Ignored(Paths.BaseName(events[k].name))
    ensures !Fold(start, events).accepted[k]
  {
    DecisionAt(start, events, k);
  }

  /** A rejected event does not restart the window: once event `i` is
      accepted, a later event `k` is accepted exactly when it is eligible and
      more than one window after event `i`, whatever the rejected events in
      between. With the watcher started at 0 and eligible events at 60, 90 and
      120 ms, the one at 90 is dropped and the one at 120 goes through,
      although it is only 30 ms after 90. */
  lemma RejectedEventDoesNotRestartWindow(start: int, events: seq<RawEvent>, i: nat, k: nat)
    requires i < k < |events|
    requires Fold(start, events).accepted[i]
    requires forall j :: i < j < k ==> !Fold(start, events).accepted[j]
    ensures Fold(start, events).accepted[k] <==>
      events[k].time - events[i].time > Window && !Ignored(Paths.BaseName(events[k].name))
  {
    var r := Fold(start, events);
    var prefix := events[..k];
    DecisionAt(start, events, k);
    FoldPrefix(start, events, k);
    var before := Fold(start, prefix);
    assert before.accepted[i];
    assert forall j :: i < j < k ==> !before.accepted[j];
    FoldLastEvent(start, prefix);
    assert before.lastEvent == prefix[i].time;
  }

  /** Any two accepted events, not only neighbouring ones, are more than one
      window apart, the later one later in time. */
  lemma AcceptedAreSpaced(start: int, events: seq<RawEvent>, i: nat, j: nat)
    requires i < j < |events|
    requires Fold(start, events).accepted[i] && Fold(start, events).accepted[j]
    ensures events[j].time - events[i].time > Window
  {
    var r := Fold(start, events);
    DecisionAt(start, events, j);
    FoldPrefix(start, events, j);
    var before := Fold(start, events[..j]);
    assert before.accepted[i];
    assert before.lastEvent >= events[i].time;
  }

  /** A burst of events that all fall within one window yields at most one
      accepted event. */
  lemma BurstAcceptsAtMostOne(start: int, events: seq<RawEvent>, low: int)
    requires forall k :: 0 <= k < |events| ==> low <= events[k].time <= low + Window
    ensures forall i, j ::
      (0 <= i < |events| && 0 <= j < |events| &&
       Fold(start, events).accepted[i] && Fold(start, events).accepted[j]) ==> i == j
  {
    var r := Fold(start, events);
    forall i, j | 0 <= i < |events| && 0 <= j < |events| && r.accepted[i] && r.accepted[j]
      ensures i == j
    {
      if i < j {
        AcceptedAreSpaced(start, events, i, j);
      } else if j < i {
        AcceptedAreSpaced(start, events, j, i);
      }
    }
  }

  /** Since the last-accepted timestamp starts at the watcher's creation, no
      event within the first window after it is ever accepted. */
  lemma StartupWindowDropped(start: int, events: seq<RawEvent>, k: nat)
    requires k < |events|
    requires events[k].time <= start + Window
    ensures !Fold(start, events).accepted[k]
  {
  }

  /** Each event comes more than one window after the one before it, and the
      first more than one window after `start`. */
  predicate Spaced(start: int, events: seq<RawEvent>)
  {
    if |events| == 0 then true
    else
      var n := |events|;
      var previous := if n > 1 then events[n - 2].time else start;
      events[n - 1].time - previous > Window && Spaced(start, events[..n - 1])
  }

  /** Events that are neither hidden nor backups and are spaced more than one
      window apart are each accepted. */
  lemma {:induction false} SpacedEventsAllAccepted(start: int, events: seq<RawEvent>)
    requires forall k :: 0 <= k < |events| ==> !Ignored(Paths.BaseName(events[k].name))
    requires Spaced(start, events)
    ensures false !in Fold(start, events).accepted
    ensures |events| > 0 ==> Fold(start, events).lastEvent == events[|events| - 1].time
  {
    if |events| > 0 {
      var n := |events|;
      var prefix := events[..n - 1];
      assert forall k :: 0 <= k < n - 1 ==> prefix[k] == events[k];
      SpacedEventsAllAccepted(start, prefix);
      var before := Fold(start, prefix);
      assert before.lastEvent == if n > 1 then prefix[n - 2].time else start;
      EligibleAccepted(before.lastEvent, events[n - 1]);
      assert Fold(start, events) == Filtered(before.accepted + [true], events[n - 1].time);
    }
  }
}
