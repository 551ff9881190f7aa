/**
 Sending tracked events (codex-rs/analytics/src/client.rs, events.rs): which events may be sent
 under the current sign-in, and how they are grouped into requests.
 */
module EventBatches {
  import opened JsonValue

  datatype Kind =
    | PluginUsed(plugin: Option<string>) | SkillInvocation(plugin: Option<string>) | McpToolCall(plugin: Option<string>)
    | ArtifactOperation(pluginId: string) | PluginMeasurement(pluginId: string)
    | AcceptedLineFingerprints | Another(name: string)

  datatype Event = Event(kind: Kind, payload: string)

  datatype Auth = Auth(apiKey: bool, codexBackend: bool)

  predicate Isolated(e: Event) {
    e.kind.AcceptedLineFingerprints?
  }

  predicate SendableWithApiKey(e: Event) {
    match e.kind
    case PluginUsed(plugin) => plugin.Some?
    case SkillInvocation(plugin) => plugin.Some?
    case McpToolCall(plugin) => plugin.Some?
    case ArtifactOperation(id) => id != ""
    case PluginMeasurement(id) => id != ""
    case _ => false
  }

  predicate Sendable(auth: Option<Auth>, e: Event) {
    auth.Some? && if auth.value.apiKey then SendableWithApiKey(e) else auth.value.codexBackend
  }

  // ---------------------------------------------------------------- specification

  function Concat(batches: seq<seq<Event>>): seq<Event> {
    if batches == [] then [] else Concat(batches[..|batches| - 1]) + batches[|batches| - 1]
  }

  /** A batch that may be sent: not empty, and accepted-line fingerprints have it to themselves. */
  predicate Legal(batch: seq<Event>) {
    batch != [] && ((exists e | e in batch :: e.kind == AcceptedLineFingerprints) ==> |batch| == 1)
  }

  /** A way of sending the events: all of them, once each and in order, in legal batches. */
  predicate Splits(batches: seq<seq<Event>>, events: seq<Event>) {
    Concat(batches) == events && forall b | b in batches :: Legal(b)
  }

  /** The split with the fewest requests, and the only one with so few. */
  ghost predicate Fewest(batches: seq<seq<Event>>, events: seq<Event>) {
    Splits(batches, events)
    && forall other | Splits(other, events) :: |batches| <= |other| && (|other| == |batches| ==> other == batches)
  }

  /** The events that may be sent, in order. */
  function Kept(auth: Option<Auth>, events: seq<Event>): seq<Event> {
    if events == [] then []
    else
      var e := events[|events| - 1];
      Kept(auth, events[..|events| - 1]) + if Sendable(auth, e) then [e] else []
  }

  // ---------------------------------------------------------------- the grouping loop

  /** The batches closed so far and the one still open. */
  datatype Grouped = Grouped(closed: seq<seq<Event>>, current: seq<Event>)

  function Close(g: Grouped): seq<seq<Event>> {
    if g.current == [] then g.closed else g.closed + [g.current]
  }

  function GroupOne(g: Grouped, e: Event): Grouped {
    if Isolated(e) then Grouped(Close(g) + [[e]], []) else g.(current := g.current + [e])
  }

  function Group(events: seq<Event>): Grouped {
    if events == [] then Grouped([], [])
    else GroupOne(Group(events[..|events| - 1]), events[|events| - 1])
  }

  lemma GroupAppend(events: seq<Event>, e: Event)
    ensures Group(events + [e]) == GroupOne(Group(events), e)
  {
    assert (events + [e])[..|events|] == events;
  }

  /** What the loop keeps: the closed batches are legal, the open one has no isolated event, nothing is lost. */
  predicate Holds(g: Grouped, events: seq<Event>) {
    (forall b | b in g.closed :: Legal(b)) && (forall e | e in g.current :: !Isolated(e))
    && Concat(g.closed) + g.current == events
  }

  lemma CloseSplits(g: Grouped, events: seq<Event>)
    requires Holds(g, events)
    ensures Splits(Close(g), events)
  {
    hide Concat;
    ConcatAppend(g.closed, g.current);
    assert g.current == [] ==> Concat(g.closed) + [] == Concat(g.closed);
  }

  lemma GroupOneHolds(g: Grouped, events: seq<Event>, e: Event)
    requires Holds(g, events)
    ensures Holds(GroupOne(g, e), events + [e])
  {
    hide Concat, Isolated;
    if Isolated(e) {
      CloseSplits(g, events);
      ConcatAppend(Close(g), [e]);
      assert Concat(Close(g) + [[e]]) + [] == events + [e];
    } else {
      assert Concat(g.closed) + (g.current + [e]) == Concat(g.closed) + g.current + [e];
    }
  }

  lemma {:induction false} GroupHolds(events: seq<Event>)
    ensures Holds(Group(events), events)
  {
    if events != [] {
      hide Holds, GroupOne;
      var front, e := events[..|events| - 1], events[|events| - 1];
      GroupHolds(front);
      GroupOneHolds(Group(front), front, e);
      assert events == front + [e];
    }
  }

  lemma ConcatAppend(batches: seq<seq<Event>>, b: seq<Event>)
    ensures Concat(batches + [b]) == Concat(batches) + b
  {
    assert (batches + [b])[..|batches|] == batches;
  }

  lemma {:induction false} GroupPlain(events: seq<Event>, more: seq<Event>)
    requires forall e | e in more :: !Isolated(e)
    ensures Group(events + more) == Group(events).(current := Group(events).current + more)
  {
    hide Group, Isolated;
    if more == [] {
      assert events + more == events;
    } else {
      var front, e := more[..|more| - 1], more[|more| - 1];
      assert more == front + [e];
      assert e in more;
      GroupPlain(events, front);
      GroupAppend(events + front, e);
      assert events + more == events + front + [e];
      assert Group(events).current + more == Group(events).current + front + [e];
    }
  }

  /** One more batch in any split costs one more batch in the grouping at most. */
  lemma GroupBatch(before: seq<Event>, b: seq<Event>)
    requires Legal(b)
    ensures
      var g, h := Group(before), Group(before + b);
      Close(h) == Close(g) + [b] || (g.current != [] && |Close(h)| == |Close(g)|)
  {
    hide Group;
    if e :| e in b && Isolated(e) {
      assert b == [e];
      GroupAppend(before, e);
    } else {
      GroupPlain(before, b);
      assert [] + b == b;
    }
  }

  lemma {:induction false} GroupIsFewest(batches: seq<seq<Event>>, events: seq<Event>)
    requires Splits(batches, events)
    ensures |Close(Group(events))| <= |batches|
    ensures |Close(Group(events))| == |batches| ==> Close(Group(events)) == batches
    decreases |batches|
  {
    hide Group, Close, Legal;
    if batches == [] {
      assert Close(Group([])) == [] by { GroupNothing(); }
    } else {
      var front, b := batches[..|batches| - 1], batches[|batches| - 1];
      assert b in batches;
      GroupIsFewest(front, Concat(front));
      GroupBatch(Concat(front), b);
      assert batches == front + [b];
    }
  }

  lemma GroupNothing()
    ensures Close(Group([])) == []
  {
  }

  lemma BatchesFewest(events: seq<Event>)
    ensures Fewest(Close(Group(events)), events)
  {
    GroupHolds(events);
    CloseSplits(Group(events), events);
    forall other | Splits(other, events)
      ensures |Close(Group(events))| <= |other|
           && (|other| == |Close(Group(events))| ==> other == Close(Group(events)))
    {
      GroupIsFewest(other, events);
    }
  }

  method TrackEventRequestBatches(events: seq<Event>) returns (batches: seq<seq<Event>>)
    ensures Fewest(batches, events)
  {
    batches := [];
    var current := [];
    for i := 0 to |events|
      invariant Grouped(batches, current) == Group(events[..i])
    {
      assert events[..i + 1][..i] == events[..i];
      if Isolated(events[i]) {
        if current != [] {
          batches := batches + [current];
          current := [];
        }
        batches := batches + [[events[i]]];
      } else {
        current := current + [events[i]];
      }
    }
    assert events[..|events|] == events;
    BatchesFewest(events);
    if current != [] {
      batches := batches + [current];
    }
  }

  // ---------------------------------------------------------------- sending

  lemma {:induction false} KeptAllOrNothing(auth: Option<Auth>, events: seq<Event>)
    requires auth.None? || !auth.value.apiKey
    ensures Kept(auth, events) == if auth.Some? && auth.value.codexBackend then events else []
  {
    if events != [] {
      KeptAllOrNothing(auth, events[..|events| - 1]);
    }
  }

  lemma NothingToSend()
    ensures Fewest([], [])
  {
    BatchesFewest([]);
  }

  method Retain(auth: Option<Auth>, events: seq<Event>) returns (kept: seq<Event>)
    requires auth.Some? && auth.value.apiKey
    ensures kept == Kept(auth, events)
  {
    kept := [];
    for i := 0 to |events|
      invariant kept == Kept(auth, events[..i])
    {
      assert events[..i + 1][..i] == events[..i];
      if SendableWithApiKey(events[i]) {
        kept := kept + [events[i]];
      }
    }
    assert events[..|events|] == events;
  }

  /** The requests made for a list of events: exactly the events that may be sent, in the fewest requests. */
  method SendTrackEvents(auth: Option<Auth>, events: seq<Event>) returns (requests: seq<seq<Event>>)
    ensures Fewest(requests, Kept(auth, events))
  {
    NothingToSend();
    if events == [] {
      return [];
    }
    if auth.None? {
      KeptAllOrNothing(auth, events);
      return [];
    }
    var kept := events;
    if auth.value.apiKey {
      kept := Retain(auth, events);
    } else {
      KeptAllOrNothing(auth, events);
      if !auth.value.codexBackend {
        return [];
      }
    }
    if kept == [] {
      return [];
    }
    requests := TrackEventRequestBatches(kept);
  }

  /** The event is about a plugin that it names. */
  ghost predicate NamesPlugin(e: Event) {
    exists id ::
      e.kind == PluginUsed(Some(id)) || e.kind == SkillInvocation(Some(id)) || e.kind == McpToolCall(Some(id))
      || (id != "" && (e.kind == ArtifactOperation(id) || e.kind == PluginMeasurement(id)))
  }

  /** An API key sends what names a plugin; any other sign-in sends all or nothing. */
  ghost predicate MaySend(auth: Option<Auth>, e: Event) {
    auth.Some? && (auth.value.apiKey ==> NamesPlugin(e)) && (!auth.value.apiKey ==> auth.value.codexBackend)
  }

  lemma SendableIff(auth: Option<Auth>, e: Event)
    ensures Sendable(auth, e) <==> MaySend(auth, e)
  {
    assert SendableWithApiKey(e) <==> NamesPlugin(e) by {
      match e.kind {
        case PluginUsed(plugin) => assert plugin.Some? ==> e.kind == PluginUsed(Some(plugin.value));
        case SkillInvocation(plugin) => assert plugin.Some? ==> e.kind == SkillInvocation(Some(plugin.value));
        case McpToolCall(plugin) => assert plugin.Some? ==> e.kind == McpToolCall(Some(plugin.value));
        case ArtifactOperation(id) => assert e.kind == ArtifactOperation(id);
        case PluginMeasurement(id) => assert e.kind == PluginMeasurement(id);
        case _ =>
      }
    }
  }

  /** Whether an event is kept depends on it alone, and the events kept stay in order. */
  lemma {:induction false} KeptInOrder(auth: Option<Auth>, before: seq<Event>, e: Event, after: seq<Event>)
    ensures Kept(auth, before + [e] + after)
         == Kept(auth, before) + (if MaySend(auth, e) then [e] else []) + Kept(auth, after)
    decreases |after|
  {
    hide Sendable, MaySend;
    var all := before + [e] + after;
    if after == [] {
      SendableIff(auth, e);
      assert all[..|all| - 1] == before && all[|all| - 1] == e;
    } else {
      var n := |after| - 1;
      KeptInOrder(auth, before, e, after[..n]);
      assert all[..|all| - 1] == before + [e] + after[..n] && all[|all| - 1] == after[n];
    }
  }

  /** An event is among those kept as often as it was tracked if it may be sent, and never otherwise. */
  lemma {:induction false} KeptExactly(auth: Option<Auth>, events: seq<Event>, e: Event)
    ensures multiset(Kept(auth, events))[e] == if MaySend(auth, e) then multiset(events)[e] else 0
  {
    hide Sendable, MaySend;
    if events != [] {
      var front, last := events[..|events| - 1], events[|events| - 1];
      KeptExactly(auth, front, e);
      SendableIff(auth, last);
      assert events == front + [last];
    }
  }
}
