/**
 * The start-up latch of `SchedulerLauncher`: the index-update service is scheduled only once
 * all three start-up events have been seen, whatever their order and however often each
 * arrives.
 */
module SchedulerLaunchers {
  import opened Wrappers

  const PLUGIN_KEY: string := "com.atlassian.jira.plugin.ext.subversion"

  /** `UpdateSvnIndexService.SERVICE_NAME`. */
  const SERVICE_NAME: string := "Subversion Index Update Service"

  /** The scheduling interval of the service, one hour in milliseconds. */
  const DEFAULT_SERVICE_DELAY: int := 60 * 60 * 1000

  datatype LifecycleEvent = AfterPropertiesSet | PluginEnabled | LifecycleAwareOnStart

  const ALL_EVENTS: set<LifecycleEvent> := {AfterPropertiesSet, PluginEnabled, LifecycleAwareOnStart}

  /** The latch's state: the events seen so far. */
  type Latch = set<LifecycleEvent>

  /** `isLifecycleReady`: the event is added; the answer is true when it was new and the set
      is now complete. */
  function IsLifecycleReady(seen: Latch, e: LifecycleEvent): (r: (Latch, bool))
    ensures r.0 == seen + {e}
    ensures r.1 <==> e !in seen && r.0 == ALL_EVENTS
  {
    (seen + {e}, e !in seen && seen + {e} == ALL_EVENTS)
  }

  /** What the launcher does to the outside world, in order. */
  datatype Effect = RegisterListener | UnregisterListener | AddService(name: string, delay: int)

  /** `registerService`: the service is added only when none of that name exists. `existing`
      is the service manager's answer, `None` when asking throws; every exception is logged,
      so a failure shows only as a missing effect. */
  function RegisterService(existing: Option<bool>): (r: seq<Effect>)
    ensures r == [AddService(SERVICE_NAME, DEFAULT_SERVICE_DELAY)] <==> existing == Some(false)
    ensures r == [] <==> existing != Some(false)
  {
    if existing == Some(false) then [AddService(SERVICE_NAME, DEFAULT_SERVICE_DELAY)] else []
  }

  /** `onLifecycleEvent`: when the latch opens, the listener is unregistered and then the
      service registered. */
  function OnLifecycleEvent(seen: Latch, e: LifecycleEvent, existing: Option<bool>): (r: (Latch, seq<Effect>))
    ensures r.0 == seen + {e}
    ensures IsLifecycleReady(seen, e).1 ==> |r.1| > 0 && r.1[0] == UnregisterListener
    ensures !IsLifecycleReady(seen, e).1 ==> r.1 == []
    ensures AddService(SERVICE_NAME, DEFAULT_SERVICE_DELAY) in r.1 <==> IsLifecycleReady(seen, e).1 && existing == Some(false)
  {
    var (next, ready) := IsLifecycleReady(seen, e);
    (next, if ready then [UnregisterListener] + RegisterService(existing) else [])
  }

  /** `afterPropertiesSet`: the listener is registered before the first event is counted. */
  function AfterPropertiesSetCall(seen: Latch, existing: Option<bool>): (r: (Latch, seq<Effect>))
    ensures r.0 == seen + {AfterPropertiesSet}
    ensures |r.1| > 0 && r.1[0] == RegisterListener
  {
    var (next, effects) := OnLifecycleEvent(seen, AfterPropertiesSet, existing);
    (next, [RegisterListener] + effects)
  }

  /** `onPluginEnabled`: only the enabling of this plugin counts. */
  function OnPluginEnabled(seen: Latch, pluginKey: string, existing: Option<bool>): (r: (Latch, seq<Effect>))
    ensures pluginKey != PLUGIN_KEY ==> r == (seen, [])
    ensures pluginKey == PLUGIN_KEY ==> r == OnLifecycleEvent(seen, PluginEnabled, existing)
  {
    if pluginKey == PLUGIN_KEY then OnLifecycleEvent(seen, PluginEnabled, existing) else (seen, [])
  }

  // ---------------------------------------------------------------------------------------------
  // The latch over a run of events.

  /** The answers of `isLifecycleReady` to each event of a run, in order. */
  function Answers(seen: Latch, events: seq<LifecycleEvent>): (r: seq<bool>)
    ensures |r| == |events|
    decreases |events|
  {
    if |events| == 0 then []
    else
      var (next, ready) := IsLifecycleReady(seen, events[0]);
      [ready] + Answers(next, events[1..])
  }

  /** The events seen after a prefix of the run. */
  function SeenAfter(seen: Latch, events: seq<LifecycleEvent>): (r: Latch)
    ensures seen <= r
    decreases |events|
  {
    if |events| == 0 then seen else SeenAfter(seen + {events[0]}, events[1..])
  }

  lemma {:induction false} SeenAfterSnoc(seen: Latch, events: seq<LifecycleEvent>, e: LifecycleEvent)
    ensures SeenAfter(seen, events + [e]) == SeenAfter(seen, events) + {e}
    decreases |events|
  {
    if |events| == 0 {
      assert (events + [e])[1..] == [];
    } else {
      assert (events + [e])[1..] == events[1..] + [e];
      SeenAfterSnoc(seen + {events[0]}, events[1..], e);
    }
  }

  /** The latch answers true exactly at the event that completes the set. */
  lemma {:induction false} AnswerIsCompletion(seen: Latch, events: seq<LifecycleEvent>, j: nat)
    requires j < |events|
    ensures Answers(seen, events)[j] <==>
              SeenAfter(seen, events[..j + 1]) == ALL_EVENTS && SeenAfter(seen, events[..j]) != ALL_EVENTS
    decreases j
  {
    var next := seen + {events[0]};
    if j == 0 {
      assert events[..1] == [events[0]];
      assert SeenAfter(seen, events[..1]) == SeenAfter(next, []);
    } else {
      AnswerIsCompletion(next, events[1..], j - 1);
      assert events[1..][..j] == events[1..j + 1];
      assert events[1..][..j - 1] == events[1..j];
      assert SeenAfter(seen, events[..j + 1]) == SeenAfter(next, events[1..j + 1]);
      assert SeenAfter(seen, events[..j]) == SeenAfter(next, events[1..j]);
    }
  }

  lemma EveryEventCounted(e: LifecycleEvent)
    ensures e in ALL_EVENTS
  {
    match e
    case AfterPropertiesSet =>
    case PluginEnabled =>
    case LifecycleAwareOnStart =>
  }

  /** Once the set is complete it stays complete. */
  lemma {:induction false} CompleteStaysComplete(seen: Latch, events: seq<LifecycleEvent>, i: nat, j: nat)
    requires i <= j <= |events|
    requires SeenAfter(seen, events[..i]) == ALL_EVENTS
    ensures SeenAfter(seen, events[..j]) == ALL_EVENTS
    decreases j - i
  {
    if i < j {
      CompleteStaysComplete(seen, events, i, j - 1);
      assert events[..j] == events[..j - 1] + [events[j - 1]];
      SeenAfterSnoc(seen, events[..j - 1], events[j - 1]);
      assert events[j - 1] in ALL_EVENTS by { EveryEventCounted(events[j - 1]); }
    }
  }

  /** Over any run of events the latch opens at most once. */
  lemma LatchOpensAtMostOnce(seen: Latch, events: seq<LifecycleEvent>, i: nat, j: nat)
    requires i < j < |events|
    ensures !(Answers(seen, events)[i] && Answers(seen, events)[j])
  {
    AnswerIsCompletion(seen, events, i);
    AnswerIsCompletion(seen, events, j);
    if Answers(seen, events)[i] {
      CompleteStaysComplete(seen, events, i + 1, j);
    }
  }

  /** An event already seen never opens the latch. */
  lemma RepeatedEventNeverOpens(seen: Latch, e: LifecycleEvent)
    requires e in seen
    ensures !IsLifecycleReady(seen, e).1
  {
  }

  /** From a fresh start, any order of the three distinct events opens the latch on the third
      event and only then. */
  lemma ThirdDistinctEventOpens(a: LifecycleEvent, b: LifecycleEvent, c: LifecycleEvent)
    requires a != b && b != c && a != c
    ensures Answers({}, [a, b, c]) == [false, false, true]
  {
    EveryEventCounted(a);
    EveryEventCounted(b);
    EveryEventCounted(c);
    assert {a, b, c} == ALL_EVENTS by {
      forall e | e in ALL_EVENTS ensures e in {a, b, c} {
        if e != a && e != b && e != c {
          assert e in {AfterPropertiesSet, PluginEnabled, LifecycleAwareOnStart};
        }
      }
    }
    assert c !in {a, b} && b !in {a};
    assert {a} != ALL_EVENTS && {a, b} != ALL_EVENTS;
    assert [a, b, c][1..] == [b, c];
    assert [b, c][1..] == [c];
    assert Answers({a, b}, [c]) == [true];
    assert Answers({a}, [b, c]) == [false, true];
    var empty: Latch := {};
    assert empty + {a} == {a};
    assert Answers(empty, [a, b, c]) == [false] + Answers({a}, [b, c]);
  }

  /** Events for another plugin leave the latch unchanged, so they never open it. */
  lemma OtherPluginIgnored(seen: Latch, pluginKey: string, existing: Option<bool>)
    requires pluginKey != PLUGIN_KEY
    ensures OnPluginEnabled(seen, pluginKey, existing).0 == seen
    ensures OnPluginEnabled(seen, pluginKey, existing).1 == []
  {
  }
}
