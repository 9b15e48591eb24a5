/** The keepalive loop of one SSH client, over every order of ticks, probe replies and the client's end. */
module Keepalives {
  import opened Inventory

  /** `Reply(failed)` is the return of the outstanding probe; `Ended` the end of the client's connection. */
  datatype Event = Tick | Reply(failed: bool) | Ended

  /** The ticks since the last reply. */
  function Silence(events: seq<Event>): nat {
    if events == [] then 0
    else
      var last, init := events[|events| - 1], events[..|events| - 1];
      if last.Reply? then 0 else if last.Tick? then Silence(init) + 1 else Silence(init)
  }

  /** A probe returns once: a reply needs a tick since the one before. */
  ghost predicate Plausible(events: seq<Event>) {
    forall j :: 0 <= j < |events| && events[j].Reply? ==> Silence(events[..j]) > 0
  }

  ghost predicate Running(events: seq<Event>) {
    Ended !in events
  }

  /** The moments at which the loop must give the connection up: the tick that finds the probe failed,
      and the tick that makes `maxMisses` of them in a row with the probe unanswered. The first tick
      after a reply sends the probe, so it is not one of them. A limit of 0 acts as 1. */
  ghost predicate Dead(events: seq<Event>, maxMisses: nat) {
    && events != [] && events[|events| - 1] == Tick
    && (Silence(events) > (if maxMisses == 0 then 1 else maxMisses)
        || (|events| > 1 && events[|events| - 2] == Reply(true)))
  }

  /** The first `k` events are the first that call for closing. */
  ghost predicate DiesAt(events: seq<Event>, maxMisses: nat, k: nat) {
    && k <= |events| && Running(events[..k]) && Dead(events[..k], maxMisses)
    && forall j :: 0 <= j < k ==> !Dead(events[..j], maxMisses)
  }

  /** Nothing has ended the loop so far. */
  ghost predicate Alive(part: seq<Event>, maxMisses: nat) {
    Running(part) && forall j :: 0 <= j <= |part| ==> !Dead(part[..j], maxMisses)
  }

  lemma AliveOneMore(part: seq<Event>, event: Event, maxMisses: nat, longer: seq<Event>)
    requires Alive(part, maxMisses) && longer == part + [event]
    ensures event != Ended && !Dead(longer, maxMisses) ==> Alive(longer, maxMisses)
    ensures event != Ended && Dead(longer, maxMisses) ==> DiesAt(longer, maxMisses, |longer|)
  {
    assert longer[..|part|] == part && longer[..|longer|] == longer;
    forall j | 0 <= j <= |part| ensures !Dead(longer[..j], maxMisses) {
      assert longer[..j] == part[..j];
    }
  }

  lemma DiesInWhole(events: seq<Event>, maxMisses: nat, n: nat)
    requires n <= |events| && DiesAt(events[..n], maxMisses, n)
    ensures DiesAt(events, maxMisses, n)
  {
    assert events[..n][..n] == events[..n];
    forall j | 0 <= j < n ensures !Dead(events[..j], maxMisses) {
      assert events[..n][..j] == events[..j];
    }
  }

  lemma NeverDies(events: seq<Event>, maxMisses: nat, n: nat)
    requires n <= |events| && Alive(events[..n], maxMisses) && (n < |events| ==> events[n] == Ended)
    ensures forall k :: !DiesAt(events, maxMisses, k)
  {
    forall k | 0 <= k <= |events| ensures !DiesAt(events, maxMisses, k) {
      if k <= n {
        assert events[..n][..k] == events[..k];
      } else {
        assert events[..k][n] == Ended;
      }
    }
  }

  /** The loop's variables against what it has read: a probe is out, or its reply waits, or nothing was read. */
  ghost predicate Tracks(part: seq<Event>, inflight: bool, misses: nat, probes: nat, replies: Option<bool>) {
    && probes <= 1 && inflight == (probes == 1 || replies.Some?)
    && (probes == 1 ==> replies.None? && Silence(part) == misses + 1)
    && (probes == 0 ==> Silence(part) == 0)
    && (replies.Some? ==> part != [] && part[|part| - 1] == Reply(replies.value))
    && (replies.None? && probes == 0 ==> part == [] && misses == 0)
  }

  /** A tick with a probe out or its reply waiting: when it calls for closing. */
  lemma TickInFlight(part: seq<Event>, longer: seq<Event>, misses: nat, probes: nat, replies: Option<bool>, maxMisses: nat)
    requires Tracks(part, true, misses, probes, replies) && longer == part + [Tick]
    ensures Dead(longer, maxMisses) <==> if replies.Some? then replies.value else misses + 1 >= maxMisses
  {
    assert longer[..|longer| - 1] == part && longer[|longer| - 1] == Tick;
    assert part != [] ==> longer[|longer| - 2] == part[|part| - 1];
    assert part != [] && part[|part| - 1].Reply? ==> Silence(part) == 0;
  }

  lemma SilenceNext(part: seq<Event>, event: Event, longer: seq<Event>)
    requires longer == part + [event]
    ensures Silence(longer) == if event.Reply? then 0 else if event.Tick? then Silence(part) + 1 else Silence(part)
  {
    assert longer[..|longer| - 1] == part;
  }

  /** What the loop does at a tick: close, wait on, or send the next probe. */
  method OnTick(inflight: bool, misses: nat, replies: Option<bool>, maxMisses: nat,
                ghost probes: nat, ghost part: seq<Event>, ghost longer: seq<Event>)
    returns (close: bool, nextInflight: bool, nextMisses: nat, nextReplies: Option<bool>, ghost nextProbes: nat)
    requires Tracks(part, inflight, misses, probes, replies) && longer == part + [Tick]
    ensures close <==> Dead(longer, maxMisses)
    ensures !close ==> Tracks(longer, nextInflight, nextMisses, nextProbes, nextReplies)
  {
    close, nextInflight, nextMisses, nextReplies, nextProbes := false, inflight, misses, replies, probes;
    SilenceNext(part, Tick, longer);
    if inflight {
      TickInFlight(part, longer, misses, probes, replies, maxMisses);
      if replies.Some? {
        if replies.value {
          close := true;
          return;
        }
        nextReplies, nextMisses := None, 0;
      } else {
        nextMisses := misses + 1;
        close := nextMisses >= maxMisses;
        return;
      }
    }
    nextInflight := true;
    nextProbes := nextProbes + 1;
  }

  /** Follows the loop until it closes the client, the client ends, or the events run out. */
  method RunKeepalive(events: seq<Event>, maxMisses: nat)
    returns (closed: bool, read: nat, ghost mostProbes: nat, ghost blocked: bool)
    requires Plausible(events)
    ensures closed ==> DiesAt(events, maxMisses, read)
    ensures !closed ==> forall k :: !DiesAt(events, maxMisses, k)
    ensures mostProbes <= 1 && !blocked
  {
    var replies: Option<bool> := None;
    var inflight := false;
    var misses: nat := 0;
    ghost var probes: nat, part: seq<Event> := 0, [];
    closed, read, mostProbes, blocked := false, 0, 0, false;
    while read < |events| && events[read] != Ended
      invariant 0 <= read <= |events| && part == events[..read] && !closed && !blocked && probes <= mostProbes <= 1
      invariant Tracks(part, inflight, misses, probes, replies) && Alive(part, maxMisses)
    {
      var event := events[read];
      ghost var before := part;
      part := events[..read + 1];
      AliveOneMore(before, event, maxMisses, part);
      read := read + 1;
      if event.Reply? {
        assert events[read - 1].Reply? && Silence(before) > 0;
        SilenceNext(before, event, part);
        blocked := replies.Some?;
        replies := Some(event.failed);
        probes := probes - 1;
      } else {
        closed, inflight, misses, replies, probes := OnTick(inflight, misses, replies, maxMisses, probes, before, part);
        if closed {
          DiesInWhole(events, maxMisses, read);
          return;
        }
        mostProbes := if probes > mostProbes then probes else mostProbes;
      }
    }
    NeverDies(events, maxMisses, read);
  }

  lemma {:induction false} SilenceGrows(events: seq<Event>, ticks: nat)
    ensures Silence(events + seq(ticks, _ => Tick)) == Silence(events) + ticks
  {
    var more := events + seq(ticks, _ => Tick);
    if ticks == 0 {
      assert more == events;
    } else {
      SilenceGrows(events, ticks - 1);
      assert more[..|more| - 1] == events + seq(ticks - 1, _ => Tick);
    }
  }

  /** After a good reply, or from the start, the loop waits one tick longer than the limit, which is at least
      one, and gives up at that tick and every later one. */
  lemma WaitsExactly(events: seq<Event>, ticks: nat, maxMisses: nat)
    requires (events == [] || events[|events| - 1] == Reply(false)) && ticks > 0
    ensures Dead(events + seq(ticks, _ => Tick), maxMisses) <==> ticks > maxMisses && ticks > 1
  {
    var all := events + seq(ticks, _ => Tick);
    SilenceGrows(events, ticks);
    assert all[|all| - 1] == Tick;
    assert ticks > 1 ==> all[|all| - 2] == Tick;
  }

  /** A failed reply is noticed at the next tick. */
  lemma FailureIsNoticed(events: seq<Event>, event: Event, maxMisses: nat)
    ensures Dead(events + [Reply(true), event], maxMisses) <==> event == Tick
  {
    var all := events + [Reply(true), event];
    assert all[|all| - 1] == event && all[|all| - 2] == Reply(true);
  }

  /** A peer that falls silent is given up within maxMisses + 1 more ticks, unless it was before. */
  lemma SilentPeerIsClosed(events: seq<Event>, maxMisses: nat, all: seq<Event>)
    requires Running(events) && maxMisses > 0 && all == events + seq(maxMisses + 1, _ => Tick)
    ensures exists k :: DiesAt(all, maxMisses, k)
  {
    SilenceGrows(events, maxMisses + 1);
    assert all[..|all|] == all;
    assert Running(all);
    FirstDeath(all, maxMisses, |all|);
  }

  lemma {:induction false} FirstDeath(events: seq<Event>, maxMisses: nat, n: nat)
    requires n <= |events| && Running(events) && Dead(events[..n], maxMisses)
    ensures exists k :: DiesAt(events, maxMisses, k)
  {
    if j :| 0 <= j < n && Dead(events[..j], maxMisses) {
      FirstDeath(events, maxMisses, j);
    } else {
      assert Running(events[..n]);
      assert DiesAt(events, maxMisses, n);
    }
  }

  /** A peer that answers every probe before the next tick, and never with an error, is never given up. */
  lemma AnsweringPeerIsKept(events: seq<Event>, maxMisses: nat, k: nat)
    requires forall j :: 0 <= j < |events| ==> events[j] != Reply(true)
    requires forall j :: 0 < j < |events| && events[j] == Tick ==> events[j - 1] == Reply(false)
    ensures !DiesAt(events, maxMisses, k)
  {
    if k <= |events| && k > 0 {
      var part := events[..k];
      if part[k - 1] == Tick && k > 1 {
        assert part[..k - 1][k - 2] == Reply(false);
        assert Silence(part[..k - 1]) == 0;
      } else if k == 1 {
        assert Silence(part[..0]) == 0;
      }
    }
  }
}
