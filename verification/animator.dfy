/** UIAnimator (Runtime/UIAnimator.cs): timelines played by name on a PlayableDirector, with a
    callback that fires when the director stops. Callbacks are values; the callbacks a step
    invokes are returned in the order it invokes them. */
module Animator {
  import opened Wrappers

  /** A PlayableAsset, known by its name. */
  datatype Timeline = Timeline(name: string)

  /** An `Action` handed in by a caller. */
  datatype Callback = Callback(id: nat)

  /** The PlayableDirector: its asset, how many times `Play` was called, and whether
      `OnPlayableStop` is subscribed to its `stopped` event. */
  datatype Director = Director(asset: Option<Timeline>, plays: nat, subscribed: bool)

  /** The component: the public `timelines` list, whose entries the inspector may leave
      empty (`None`), the name-to-index dictionary built on Awake, the director and the stored
      stop callback. */
  datatype UIAnimator = UIAnimator(
    timelines: seq<Option<Timeline>>,
    nameToIndex: map<string, nat>,
    director: Director,
    stopCallback: Option<Callback>)

  /** Why Awake stopped early: `timeline.name` on an empty entry throws, and so does the
      dictionary's `Add` of a name seen before. `index` is the entry it stopped at. */
  datatype AwakeFault = NullTimeline(index: nat) | DuplicateName(index: nat)

  /** The entries of `ts[..n]` are all present and their names pairwise different. */
  predicate NamedDistinct(ts: seq<Option<Timeline>>, n: nat)
    requires n <= |ts|
  {
    && (forall i :: 0 <= i < n ==> ts[i].Some?)
    && (forall i, j :: 0 <= i < j < n && ts[i].Some? && ts[j].Some? ==> ts[i].value.name != ts[j].value.name)
  }

  /** `m` maps exactly the names of `ts[..n]`, each to its own position. */
  ghost predicate IndexesPrefix(m: map<string, nat>, ts: seq<Option<Timeline>>, n: nat)
    requires n <= |ts|
  {
    && (forall i :: 0 <= i < n && ts[i].Some? ==> ts[i].value.name in m && m[ts[i].value.name] == i)
    && (forall name :: name in m ==> m[name] < n && ts[m[name]].Some? && ts[m[name]].value.name == name)
  }

  /** Awake, on the component's director as the inspector left it: subscribe to `stopped`, then add every timeline's name with its index. It stops
      with a fault at the first empty entry or the first name seen twice; the subscription
      has happened and the dictionary keeps the names added before that entry. */
  method Awake(timelines: seq<Option<Timeline>>, director: Director) returns (a: UIAnimator, fault: Option<AwakeFault>)
    ensures a.timelines == timelines && a.stopCallback.None?
    ensures a.director == director.(subscribed := true)
    ensures fault.None? <==> NamedDistinct(timelines, |timelines|)
    ensures fault.None? ==> IndexesPrefix(a.nameToIndex, timelines, |timelines|)
    ensures fault.Some? ==>
      && fault.value.index < |timelines|
      && NamedDistinct(timelines, fault.value.index)
      && IndexesPrefix(a.nameToIndex, timelines, fault.value.index)
      && (fault.value.NullTimeline? <==> timelines[fault.value.index].None?)
    ensures fault.Some? && fault.value.DuplicateName? ==>
      exists i :: 0 <= i < fault.value.index && timelines[i].Some? && timelines[fault.value.index].Some? &&
        timelines[i].value.name == timelines[fault.value.index].value.name
  {
    var m: map<string, nat> := map[];
    var i := 0;
    while i < |timelines|
      invariant i <= |timelines|
      invariant NamedDistinct(timelines, i)
      invariant IndexesPrefix(m, timelines, i)
    {
      if timelines[i].None? {
        a := UIAnimator(timelines, m, director.(subscribed := true), None);
        fault := Some(NullTimeline(i));
        return;
      }
      var name := timelines[i].value.name;
      if name in m {
        a := UIAnimator(timelines, m, director.(subscribed := true), None);
        fault := Some(DuplicateName(i));
        return;
      }
      m := m[name := i];
      i := i + 1;
    }
    a := UIAnimator(timelines, m, director.(subscribed := true), None);
    fault := None;
  }

  /** The dictionary agrees with the list: every key names the timeline at its index. After
      Awake this holds until the list is changed. */
  ghost predicate Indexed(a: UIAnimator) {
    forall name :: name in a.nameToIndex ==>
      a.nameToIndex[name] < |a.timelines| && a.timelines[a.nameToIndex[name]].Some? &&
      a.timelines[a.nameToIndex[name]].value.name == name
  }

  /** The timeline `PlayAnim` would play for `name`: none for an unknown name or an index at
      or beyond the end of the list. */
  function Lookup(a: UIAnimator, name: string): (r: Option<nat>)
    ensures r.Some? <==> name in a.nameToIndex && a.nameToIndex[name] < |a.timelines|
    ensures r.Some? ==> r.value == a.nameToIndex[name]
  {
    if name !in a.nameToIndex then None
    else if a.nameToIndex[name] >= |a.timelines| then None
    else Some(a.nameToIndex[name])
  }

  /** The director plays the entry at `i`; an empty entry becomes a null asset. */
  function Play(a: UIAnimator, i: nat): (r: UIAnimator)
    requires i < |a.timelines|
    ensures r.director.asset == a.timelines[i] && r.director.plays == a.director.plays + 1
    ensures r.director.subscribed == a.director.subscribed
    ensures r.timelines == a.timelines && r.nameToIndex == a.nameToIndex && r.stopCallback == a.stopCallback
  {
    a.(director := a.director.(asset := a.timelines[i], plays := a.director.plays + 1))
  }

  /** PlayAnim(name): an unknown name or a stale index changes nothing; otherwise the
      timeline is played. A callback stored earlier stays stored. */
  function PlayAnim(a: UIAnimator, name: string): (r: UIAnimator)
    ensures Lookup(a, name).None? ==> r == a
    ensures Lookup(a, name).Some? ==>
      && r.director.asset == a.timelines[a.nameToIndex[name]]
      && r.director.plays == a.director.plays + 1
    ensures r.stopCallback == a.stopCallback && r.director.subscribed == a.director.subscribed
    ensures r.timelines == a.timelines && r.nameToIndex == a.nameToIndex
  {
    match Lookup(a, name)
    case None => a
    case Some(i) => Play(a, i)
  }

  /** PlayAnim(name, callback): on failure the callback is invoked at once, exactly once, and
      neither stored nor anything played; on success the timeline plays and the callback is
      stored, replacing any earlier one, without being invoked. */
  function PlayAnimWithCallback(a: UIAnimator, name: string, cb: Callback): (r: (UIAnimator, seq<Callback>))
    ensures Lookup(a, name).None? ==> r == (a, [cb])
    ensures Lookup(a, name).Some? ==>
      && r.1 == []
      && r.0.stopCallback == Some(cb)
      && r.0.director.asset == a.timelines[a.nameToIndex[name]]
      && r.0.director.plays == a.director.plays + 1
    ensures r.0.director.subscribed == a.director.subscribed
    ensures r.0.timelines == a.timelines && r.0.nameToIndex == a.nameToIndex
  {
    match Lookup(a, name)
    case None => (a, [cb])
    case Some(i) => (Play(a, i).(stopCallback := Some(cb)), [])
  }

  /** The director's `stopped` event: OnPlayableStop runs while subscribed and invokes the
      stored callback, which it does not clear. */
  function Stopped(a: UIAnimator): (r: (UIAnimator, seq<Callback>))
    ensures r.0 == a
    ensures |r.1| <= 1
    ensures r.1 != [] <==> a.director.subscribed && a.stopCallback.Some?
    ensures r.1 != [] ==> r.1[0] == a.stopCallback.value
  {
    if a.director.subscribed && a.stopCallback.Some? then (a, [a.stopCallback.value]) else (a, [])
  }

  /** OnDestroy: the callback is dropped and the handler unsubscribed. */
  function OnDestroy(a: UIAnimator): (r: UIAnimator)
    ensures r.stopCallback.None? && !r.director.subscribed
    ensures r.timelines == a.timelines && r.nameToIndex == a.nameToIndex
    ensures r.director.asset == a.director.asset && r.director.plays == a.director.plays
  {
    a.(stopCallback := None, director := a.director.(subscribed := false))
  }

  /** What can happen to the component after Awake. */
  datatype Event = PlayName(name: string) | PlayWith(name: string, cb: Callback) | Stop | Destroy

  /** The component after a sequence of events, and the callbacks invoked, in order. */
  function Run(a: UIAnimator, events: seq<Event>): (r: (UIAnimator, seq<Callback>))
    ensures r.0.timelines == a.timelines && r.0.nameToIndex == a.nameToIndex
    decreases |events|
  {
    if events == [] then (a, [])
    else
      var (a1, fired1) := Step(a, events[0]);
      var (a2, fired2) := Run(a1, events[1..]);
      (a2, fired1 + fired2)
  }

  function Step(a: UIAnimator, ev: Event): (r: (UIAnimator, seq<Callback>))
    ensures r.0.timelines == a.timelines && r.0.nameToIndex == a.nameToIndex
  {
    match ev
    case PlayName(name) => (PlayAnim(a, name), [])
    case PlayWith(name, cb) => PlayAnimWithCallback(a, name, cb)
    case Stop => Stopped(a)
    case Destroy => (OnDestroy(a), [])
  }

  function CountStops(events: seq<Event>): nat {
    if events == [] then 0 else (if events[0].Stop? then 1 else 0) + CountStops(events[1..])
  }

  function Repeat(cb: Callback, n: nat): (r: seq<Callback>)
    ensures |r| == n && forall i :: 0 <= i < n ==> r[i] == cb
  {
    if n == 0 then [] else [cb] + Repeat(cb, n - 1)
  }

  predicate NoCallbackEvents(events: seq<Event>) {
    forall i :: 0 <= i < |events| ==> events[i].PlayName? || events[i].Stop?
  }

  /** A stored callback is never cleared by playing without one: until the component is
      destroyed or given another callback, every stop fires it again. */
  lemma {:induction false} CallbackFiresOnEveryStop(a: UIAnimator, events: seq<Event>)
    requires a.director.subscribed && a.stopCallback.Some?
    requires NoCallbackEvents(events)
    ensures Run(a, events).1 == Repeat(a.stopCallback.value, CountStops(events))
    ensures Run(a, events).0.stopCallback == a.stopCallback
    decreases |events|
  {
    if events != [] {
      var a1 := Step(a, events[0]).0;
      assert NoCallbackEvents(events[1..]) by {
        forall i | 0 <= i < |events[1..]| ensures events[1..][i].PlayName? || events[1..][i].Stop? {
          assert events[1..][i] == events[i + 1];
        }
      }
      CallbackFiresOnEveryStop(a1, events[1..]);
    }
  }

  /** The callbacks of the `PlayWith` events whose name does not look up, in order: what a
      destroyed component still invokes. */
  function FailedPlays(a: UIAnimator, events: seq<Event>): (r: seq<Callback>)
    ensures |r| <= |events|
  {
    if events == [] then []
    else
      (if events[0].PlayWith? && Lookup(a, events[0].name).None? then [events[0].cb] else [])
      + FailedPlays(a, events[1..])
  }

  /** After OnDestroy the stop handler is gone: no stop fires a callback, not even one stored
      by a later successful play. The only callbacks still invoked are those of failed plays
      with a callback, at once and in order. */
  lemma {:induction false} DestroyedIsSilent(a: UIAnimator, events: seq<Event>)
    requires !a.director.subscribed
    ensures Run(a, events).1 == FailedPlays(a, events)
    ensures !Run(a, events).0.director.subscribed
    decreases |events|
  {
    if events != [] {
      var (a1, fired1) := Step(a, events[0]);
      DestroyedIsSilent(a1, events[1..]);
      FailedPlaysFrame(a, a1, events[1..]);
    }
  }

  /** The failed plays depend only on the list and the dictionary. */
  lemma {:induction false} FailedPlaysFrame(a: UIAnimator, b: UIAnimator, events: seq<Event>)
    requires a.timelines == b.timelines && a.nameToIndex == b.nameToIndex
    ensures FailedPlays(a, events) == FailedPlays(b, events)
    decreases |events|
  {
    if events != [] {
      FailedPlaysFrame(a, b, events[1..]);
    }
  }

  /** A callback handed to a successful play fires on the next stop, and only then. */
  lemma CallbackWaitsForStop(a: UIAnimator, name: string, cb: Callback)
    requires a.director.subscribed && Lookup(a, name).Some?
    ensures Run(a, [PlayWith(name, cb)]).1 == []
    ensures Run(a, [PlayWith(name, cb), Stop]).1 == [cb]
  {
    var a1 := PlayAnimWithCallback(a, name, cb).0;
    assert [PlayWith(name, cb), Stop][1..] == [Stop];
    assert [Stop][1..] == [];
    assert Run(a1, [Stop]) == (a1, [cb] + []);
  }

  /** While the dictionary agrees with the list, a name plays the timeline of that name and
      the stale-index guard never applies. */
  lemma PlayByName(a: UIAnimator, name: string)
    requires Indexed(a) && name in a.nameToIndex
    ensures Lookup(a, name).Some?
    ensures PlayAnim(a, name).director.asset.Some? && PlayAnim(a, name).director.asset.value.name == name
  {
  }

  /** Awake leaves the dictionary in agreement with the list, duplicate or not. */
  lemma PrefixIndexed(a: UIAnimator, n: nat)
    requires n <= |a.timelines| && IndexesPrefix(a.nameToIndex, a.timelines, n)
    ensures Indexed(a)
  {
  }
}
