/**
 * The global `hubs` dictionary of the bridge and the three functions that
 * touch it: `connect` (split at its asynchronous boundary into `Register`
 * and `CapabilitiesArrived`), `processConfig` and the polling tick
 * `checkState`.
 */
module HubRegistry {
  import opened Wrappers
  import opened Normalise
  import opened LabelMaps

  /** What the discovery feed reports about a hub; only these two fields are read. */
  datatype DiscoveredHub = DiscoveredHub(hostName: string, ip: string)

  /** The descriptor `getAvailableCommands` resolves to: its activity and device lists. */
  datatype Capabilities = Capabilities(activity: seq<Entry>, device: seq<Entry>)

  /** The four maps `connect` attaches to a registry entry. */
  datatype Tables = Tables(
    activities: map<string, string>,
    activitiesReverse: map<string, string>,
    devices: map<string, string>,
    devicesReverse: map<string, string>)

  /** A connected hub client, as an opaque handle. */
  type ClientId = nat

  /**
   * A registry entry: the object discovery delivered, plus the fields that
   * `connect` adds to it later (`None` while the field is still `undefined`).
   */
  datatype Hub = Hub(info: DiscoveredHub, tables: Option<Tables>, client: Option<ClientId>)

  const EmptyTables := Tables(map[], map[], map[], map[])

  /** The maps `t` become once `processConfig` has written every activity and then every device. */
  function Processed(t: Tables, config: Capabilities): (r: Tables)
    ensures t.activities.Keys <= r.activities.Keys && t.activitiesReverse.Keys <= r.activitiesReverse.Keys
    ensures t.devices.Keys <= r.devices.Keys && t.devicesReverse.Keys <= r.devicesReverse.Keys
    ensures config.activity == [] ==> r.activities == t.activities && r.activitiesReverse == t.activitiesReverse
    ensures config.device == [] ==> r.devices == t.devices && r.devicesReverse == t.devicesReverse
  {
    Tables(
      Build(Forward, t.activities, config.activity),
      Build(Reverse, t.activitiesReverse, config.activity),
      Build(Forward, t.devices, config.device),
      Build(Reverse, t.devicesReverse, config.device))
  }

  /** What connect leaves on a hub once its capabilities have arrived: four maps built from empty ones. */
  lemma ProcessedFromEmpty(config: Capabilities)
    ensures var t := Processed(EmptyTables, config);
      && t.activities.Keys == (set j | 0 <= j < |config.activity| :: config.activity[j].id)
      && t.activitiesReverse.Keys == (set j | 0 <= j < |config.activity| :: Norm(config.activity[j].rawLabel))
      && t.devices.Keys == (set j | 0 <= j < |config.device| :: config.device[j].id)
      && t.devicesReverse.Keys == (set j | 0 <= j < |config.device| :: Norm(config.device[j].rawLabel))
  {
    FreshMapKeys(config.activity);
    FreshMapKeys(config.device);
  }

  /** The keys of `keys` whose entry has a client, in order: the hubs a `checkState` tick queries. */
  function WithClient(keys: seq<string>, hubs: map<string, Hub>): (r: seq<string>)
    ensures |r| <= |keys|
    ensures forall i :: 0 <= i < |r| ==> r[i] in keys && r[i] in hubs && hubs[r[i]].client.Some?
    decreases |keys|
  {
    if keys == [] then []
    else
      var k := keys[|keys| - 1];
      WithClient(keys[..|keys| - 1], hubs) + (if k in hubs && hubs[k].client.Some? then [k] else [])
  }

  /** A tick queries exactly the listed hubs that have a client. */
  lemma {:induction false} WithClientExactly(keys: seq<string>, hubs: map<string, Hub>, h: string)
    ensures h in WithClient(keys, hubs) <==> h in keys && h in hubs && hubs[h].client.Some?
    decreases |keys|
  {
    if keys != [] {
      var init := keys[..|keys| - 1];
      WithClientExactly(init, hubs, h);
      assert keys == init + [keys[|keys| - 1]];
    }
  }

  predicate Distinct(s: seq<string>) {
    forall i, j :: 0 <= i < j < |s| ==> s[i] != s[j]
  }

  /** No hub is queried twice in one tick. */
  lemma {:induction false} WithClientDistinct(keys: seq<string>, hubs: map<string, Hub>)
    requires Distinct(keys)
    ensures Distinct(WithClient(keys, hubs))
    decreases |keys|
  {
    if keys != [] {
      var init, k := keys[..|keys| - 1], keys[|keys| - 1];
      assert Distinct(init) by {
        forall i, j | 0 <= i < j < |init| ensures init[i] != init[j] {
          assert init[i] == keys[i] && init[j] == keys[j];
        }
      }
      WithClientDistinct(init, hubs);
      WithClientExactly(init, hubs, k);
      assert k !in init by {
        forall i | 0 <= i < |init| ensures init[i] != k {
          assert init[i] == keys[i];
        }
      }
    }
  }

  /** One log line of a tick, or the TypeError thrown by reading `.activities` of `undefined`. */
  datatype LogLine = Logged(hub: string, activity: Option<string>) | TypeError

  function Lookup(m: map<string, string>, k: string): Option<string> {
    if k in m then Some(m[k]) else None
  }

  /** The line the query callback writes when it resolves activity id `a` through hub `h`'s `activities`. */
  function Report(hubs: map<string, Hub>, h: string, a: string): (r: LogLine)
    ensures r.Logged? <==> h in hubs && hubs[h].tables.Some?
    ensures r.Logged? ==> r.hub == h && (r.activity.Some? <==> a in hubs[h].tables.value.activities)
  {
    if h in hubs && hubs[h].tables.Some? then Logged(h, Lookup(hubs[h].tables.value.activities, a))
    else TypeError
  }

  /**
   * The lines of one tick, each callback resolving through its own hub.  A
   * hub whose query was rejected (absent from `answers`) writes nothing.
   */
  function Reports(hubs: map<string, Hub>, queried: seq<string>, answers: map<string, string>): (r: seq<LogLine>)
    ensures |r| <= |queried|
    ensures forall i :: 0 <= i < |r| ==> r[i] == TypeError || (r[i].hub in queried && r[i].hub in answers)
    decreases |queried|
  {
    if queried == [] then []
    else
      var q := queried[|queried| - 1];
      Reports(hubs, queried[..|queried| - 1], answers)
        + (if q in answers then [Report(hubs, q, answers[q])] else [])
  }

  /**
   * The lines of one tick as `checkState` is written: the callbacks close over
   * the function-scoped loop variable `hub`, which holds the last key
   * enumerated by the time any promise settles, so every answer is resolved
   * through, and logged under, that last key.
   */
  function ReportsAsWritten(hubs: map<string, Hub>, lastKey: string, queried: seq<string>, answers: map<string, string>): (r: seq<LogLine>)
    ensures |r| <= |queried|
    ensures forall i :: 0 <= i < |r| ==> r[i] == TypeError || (r[i].Logged? && r[i].hub == lastKey)
    decreases |queried|
  {
    if queried == [] then []
    else
      var q := queried[|queried| - 1];
      ReportsAsWritten(hubs, lastKey, queried[..|queried| - 1], answers)
        + (if q in answers then [Report(hubs, lastKey, answers[q])] else [])
  }

  /** The as-written tick writes as many lines as the corrected one: the same callbacks fire, under the wrong key. */
  lemma {:induction false} AsWrittenSameCallbacks(hubs: map<string, Hub>, lastKey: string, queried: seq<string>, answers: map<string, string>)
    ensures |ReportsAsWritten(hubs, lastKey, queried, answers)| == |Reports(hubs, queried, answers)|
    decreases |queried|
  {
    if queried != [] {
      AsWrittenSameCallbacks(hubs, lastKey, queried[..|queried| - 1], answers);
    }
  }

  /**
   * Each answered query yields one line under its own hub, resolved through
   * that hub's own `activities`; a rejected query costs only its own line.
   */
  lemma {:induction false} ReportsResolveOwnHub(hubs: map<string, Hub>, queried: seq<string>, answers: map<string, string>)
    requires forall q :: q in queried ==> q in hubs && hubs[q].tables.Some?
    ensures forall i :: 0 <= i < |Reports(hubs, queried, answers)| ==>
      var line := Reports(hubs, queried, answers)[i];
      line.Logged? && line.hub in queried && line.hub in answers
      && line.activity == Lookup(hubs[line.hub].tables.value.activities, answers[line.hub])
    ensures forall q :: q in queried && q in answers ==>
      Logged(q, Lookup(hubs[q].tables.value.activities, answers[q])) in Reports(hubs, queried, answers)
    decreases |queried|
  {
    if queried != [] {
      var init, q := queried[..|queried| - 1], queried[|queried| - 1];
      assert forall x :: x in init ==> x in queried;
      ReportsResolveOwnHub(hubs, init, answers);
      assert queried == init + [q];
    }
  }

  /** Hubs queried once each get at most one line each: no two logged lines share a hub. */
  lemma {:induction false} ReportsNoDup(hubs: map<string, Hub>, queried: seq<string>, answers: map<string, string>)
    requires Distinct(queried)
    ensures forall i, j :: 0 <= i < j < |Reports(hubs, queried, answers)| ==>
      Reports(hubs, queried, answers)[i] == TypeError || Reports(hubs, queried, answers)[j] == TypeError
      || Reports(hubs, queried, answers)[i].hub != Reports(hubs, queried, answers)[j].hub
    decreases |queried|
  {
    if queried != [] {
      var init, q := queried[..|queried| - 1], queried[|queried| - 1];
      assert Distinct(init) by {
        forall i, j | 0 <= i < j < |init| ensures init[i] != init[j] {
          assert init[i] == queried[i] && init[j] == queried[j];
        }
      }
      assert q !in init by {
        forall i | 0 <= i < |init| ensures init[i] != q {
          assert init[i] == queried[i];
        }
      }
      ReportsNoDup(hubs, init, answers);
      var pre := Reports(hubs, init, answers);
      var r := Reports(hubs, queried, answers);
      assert r == pre + (if q in answers then [Report(hubs, q, answers[q])] else []);
      forall i, j | 0 <= i < j < |r| && r[i] != TypeError && r[j] != TypeError
        ensures r[i].hub != r[j].hub
      {
        assert r[i] == pre[i];
        if j < |pre| {
          assert r[j] == pre[j];
        } else {
          assert r[j] == Report(hubs, q, answers[q]) && r[j].hub == q;
          assert pre[i].hub in init;
        }
      }
    }
  }

  /** The facts about the hubs one tick selects that `CheckState` states. */
  lemma TickSelection(order: seq<string>, hubs: map<string, Hub>, pending: set<string>, queried: seq<string>)
    requires Distinct(order) && (forall k :: k in order <==> k in hubs)
    requires forall k :: k in pending ==> k in hubs && hubs[k].client.None?
    requires queried == WithClient(order, hubs)
    ensures forall h :: h in queried <==> h in hubs && hubs[h].client.Some?
    ensures forall h :: h in pending ==> h !in queried
    ensures Distinct(queried)
  {
    forall h ensures h in queried <==> h in hubs && hubs[h].client.Some? {
      WithClientExactly(order, hubs, h);
    }
    WithClientDistinct(order, hubs);
  }

  /** The facts about both readings of one tick's log that `CheckState` states. */
  lemma TickLogs(hubs: map<string, Hub>, lastKey: string, queried: seq<string>, answers: map<string, string>,
                 log: seq<LogLine>, logAsWritten: seq<LogLine>)
    requires Distinct(queried)
    requires forall q :: q in queried ==> q in hubs && hubs[q].tables.Some?
    requires log == Reports(hubs, queried, answers)
    requires logAsWritten == ReportsAsWritten(hubs, lastKey, queried, answers)
    ensures forall i :: 0 <= i < |log| ==>
      && log[i].Logged? && log[i].hub in queried && log[i].hub in answers
      && log[i].hub in hubs && hubs[log[i].hub].tables.Some?
      && log[i].activity == Lookup(hubs[log[i].hub].tables.value.activities, answers[log[i].hub])
    ensures forall h :: h in queried && h in answers ==>
      h in hubs && hubs[h].tables.Some? && Logged(h, Lookup(hubs[h].tables.value.activities, answers[h])) in log
    ensures forall i, j :: 0 <= i < j < |log| ==> log[i].hub != log[j].hub
    ensures forall i :: 0 <= i < |logAsWritten| ==>
      logAsWritten[i] == TypeError || (logAsWritten[i].Logged? && logAsWritten[i].hub == lastKey)
    ensures |logAsWritten| == |log|
  {
    ReportsResolveOwnHub(hubs, queried, answers);
    ReportsNoDup(hubs, queried, answers);
    AsWrittenSameCallbacks(hubs, lastKey, queried, answers);
  }

  /**
   * The as-written callbacks go wrong with two connected hubs: "A" answers
   * activity "1", which only its own map knows, yet both answers are looked
   * up in, and logged under, "B".
   */
  lemma ClosureResolvesThroughLastKey()
    ensures var hubs := map[
        "A" := Hub(DiscoveredHub("A", "10.0.0.5"), Some(Tables(map["1" := "TV"], map["TV" := "1"], map[], map[])), Some(1)),
        "B" := Hub(DiscoveredHub("B", "10.0.0.6"), Some(EmptyTables), Some(2))];
      var answers := map["A" := "1", "B" := "-1"];
      && ReportsAsWritten(hubs, "B", ["A", "B"], answers) == [Logged("B", None), Logged("B", None)]
      && Reports(hubs, ["A", "B"], answers) == [Logged("A", Some("TV")), Logged("B", None)]
  {
  }

  /** When the last key is still waiting for its capabilities, every as-written callback throws. */
  lemma ClosureThrowsOnPendingLastKey()
    ensures var hubs := map[
        "A" := Hub(DiscoveredHub("A", "10.0.0.5"), Some(Tables(map["1" := "TV"], map["TV" := "1"], map[], map[])), Some(1)),
        "B" := Hub(DiscoveredHub("B", "10.0.0.6"), None, None)];
      && ReportsAsWritten(hubs, "B", ["A"], map["A" := "1"]) == [TypeError]
      && Reports(hubs, ["A"], map["A" := "1"]) == [Logged("A", Some("TV"))]
  {
  }

  /** The registry: hub entries keyed by normalised host name. */
  class Registry {
    var hubs: map<string, Hub>
    /** The order in which `for…in` enumerates the keys of `hubs`. */
    var order: seq<string>
    /** Names whose connect call is still waiting for the hub's capabilities. */
    ghost var pending: set<string>

    ghost predicate Valid()
      reads this
    {
      && Distinct(order)
      && (forall k :: k in order <==> k in hubs)
      && pending <= hubs.Keys
      && (forall k :: k in hubs ==> k == Norm(hubs[k].info.hostName))
      && (forall k :: k in pending ==> hubs[k].tables.None? && hubs[k].client.None?)
      && (forall k :: k in hubs && hubs[k].client.Some? ==> hubs[k].tables.Some?)
    }

    constructor ()
      ensures Valid() && hubs == map[] && order == [] && pending == {}
    {
      hubs, order, pending := map[], [], {};
    }

    /**
     * The synchronous part of `connect`: the entry is inserted under the
     * normalised host name only when that name is absent, and then the
     * connection is started (it completes in `CapabilitiesArrived`, or never).
     */
    method Register(hub: DiscoveredHub) returns (name: string, inserted: bool)
      requires Valid()
      modifies this
      ensures Valid()
      ensures name == Norm(hub.hostName)
      ensures inserted <==> name !in old(hubs)
      ensures hubs == if inserted then old(hubs)[name := Hub(hub, None, None)] else old(hubs)
      ensures order == if inserted then old(order) + [name] else old(order)
      ensures pending == if inserted then old(pending) + {name} else old(pending)
    {
      name := Norm(hub.hostName);
      inserted := name !in hubs;
      if inserted {
        hubs := hubs[name := Hub(hub, None, None)];
        order := order + [name];
        pending := pending + {name};
      }
    }

    /**
     * The continuation of `connect` once the client is connected and its
     * capabilities have arrived: fresh maps, `processConfig`, then the client.
     */
    method CapabilitiesArrived(name: string, client: ClientId, config: Capabilities)
      requires Valid() && name in pending
      modifies this
      ensures Valid()
      ensures hubs == old(hubs)[name := old(hubs)[name].(tables := Some(Processed(EmptyTables, config)), client := Some(client))]
      ensures order == old(order) && pending == old(pending) - {name}
    {
      hubs := hubs[name := hubs[name].(tables := Some(EmptyTables))];
      ProcessConfig(name, config);
      hubs := hubs[name := hubs[name].(client := Some(client))];
      pending := pending - {name};
      assert hubs == old(hubs)[name := old(hubs)[name].(tables := Some(Processed(EmptyTables, config)), client := Some(client))];
      assert hubs.Keys == old(hubs).Keys;
      assert hubs[name].info == old(hubs)[name].info && hubs[name].tables.Some?;
    }

    /** `processConfig`: writes every activity, then every device, into the entry's four maps. */
    method ProcessConfig(name: string, config: Capabilities)
      requires name in hubs && hubs[name].tables.Some?
      modifies this`hubs
      ensures hubs == old(hubs)[name := old(hubs)[name].(tables := Some(Processed(old(hubs)[name].tables.value, config)))]
    {
      WriteActivities(name, config.activity);
      WriteDevices(name, config.device);
    }

    /** The activity loop of `processConfig`; the device maps are left alone. */
    method WriteActivities(name: string, acts: seq<Entry>)
      requires name in hubs && hubs[name].tables.Some?
      modifies this`hubs
      ensures var t := old(hubs)[name].tables.value;
        hubs == old(hubs)[name := old(hubs)[name].(tables := Some(t.(
          activities := Build(Forward, t.activities, acts),
          activitiesReverse := Build(Reverse, t.activitiesReverse, acts))))]
    {
      ghost var t := hubs[name].tables.value;
      var i := 0;
      while i < |acts|
        invariant 0 <= i <= |acts|
        invariant hubs == old(hubs)[name := old(hubs)[name].(tables := Some(t.(
          activities := Build(Forward, t.activities, acts[..i]),
          activitiesReverse := Build(Reverse, t.activitiesReverse, acts[..i]))))]
      {
        var activityLabel := Norm(acts[i].rawLabel);
        var tb := hubs[name].tables.value;
        tb := tb.(activities := tb.activities[acts[i].id := activityLabel]);
        tb := tb.(activitiesReverse := tb.activitiesReverse[activityLabel := acts[i].id]);
        hubs := hubs[name := hubs[name].(tables := Some(tb))];
        BuildStep(Forward, t.activities, acts, i);
        BuildStep(Reverse, t.activitiesReverse, acts, i);
        i := i + 1;
      }
      assert acts[..i] == acts;
    }

    /** The device loop of `processConfig`; the activity maps are left alone. */
    method WriteDevices(name: string, devs: seq<Entry>)
      requires name in hubs && hubs[name].tables.Some?
      modifies this`hubs
      ensures var t := old(hubs)[name].tables.value;
        hubs == old(hubs)[name := old(hubs)[name].(tables := Some(t.(
          devices := Build(Forward, t.devices, devs),
          devicesReverse := Build(Reverse, t.devicesReverse, devs))))]
    {
      ghost var t := hubs[name].tables.value;
      var i := 0;
      while i < |devs|
        invariant 0 <= i <= |devs|
        invariant hubs == old(hubs)[name := old(hubs)[name].(tables := Some(t.(
          devices := Build(Forward, t.devices, devs[..i]),
          devicesReverse := Build(Reverse, t.devicesReverse, devs[..i]))))]
      {
        var deviceLabel := Norm(devs[i].rawLabel);
        var tb := hubs[name].tables.value;
        tb := tb.(devices := tb.devices[devs[i].id := deviceLabel]);
        tb := tb.(devicesReverse := tb.devicesReverse[deviceLabel := devs[i].id]);
        hubs := hubs[name := hubs[name].(tables := Some(tb))];
        BuildStep(Forward, t.devices, devs, i);
        BuildStep(Reverse, t.devicesReverse, devs, i);
        i := i + 1;
      }
      assert devs[..i] == devs;
    }

    /**
     * One `checkState` tick: the `for…in` loop over the registry selects the
     * entries that have a client, and each selected hub's query callback logs
     * the label of the answered activity id.  `answers` holds what each
     * query resolved to; a rejected query has no entry.  `logAsWritten` is
     * what the callbacks log as the code is written: every answer goes
     * through the value the loop variable holds once the loop has ended, the
     * last enumerated key.  `log` is the corrected reading, each answer
     * resolved through the hub that was queried.
     */
    method CheckState(answers: map<string, string>) returns (queried: seq<string>, logAsWritten: seq<LogLine>, log: seq<LogLine>)
      requires Valid()
      ensures queried == WithClient(order, hubs)
      ensures forall h :: h in queried <==> h in hubs && hubs[h].client.Some?
      ensures forall h :: h in pending ==> h !in queried
      ensures Distinct(queried)
      ensures log == Reports(hubs, queried, answers)
      ensures forall i :: 0 <= i < |log| ==>
        && log[i].Logged? && log[i].hub in queried && log[i].hub in answers
        && log[i].hub in hubs && hubs[log[i].hub].tables.Some?
        && log[i].activity == Lookup(hubs[log[i].hub].tables.value.activities, answers[log[i].hub])
      ensures forall h :: h in queried && h in answers ==>
        h in hubs && hubs[h].tables.Some? && Logged(h, Lookup(hubs[h].tables.value.activities, answers[h])) in log
      ensures order == [] ==> logAsWritten == []
      ensures order != [] ==> logAsWritten == ReportsAsWritten(hubs, order[|order| - 1], queried, answers)
      ensures forall i :: 0 <= i < |logAsWritten| ==>
        logAsWritten[i] == TypeError || (logAsWritten[i].Logged? && logAsWritten[i].hub == order[|order| - 1])
      ensures |logAsWritten| == |log|
      ensures forall i, j :: 0 <= i < j < |log| ==> log[i].hub != log[j].hub
    {
      var hub;
      queried, hub := Select();
      TickSelection(order, hubs, pending, queried);
      log := Reports(hubs, queried, answers);
      logAsWritten := ReportsAsWritten(hubs, hub, queried, answers);
      TickLogs(hubs, hub, queried, answers, log, logAsWritten);
    }

    /**
     * The `for…in` loop of a tick: the keys, in enumeration order, of the
     * entries that have a client, and the value the loop variable holds
     * once the loop has ended.
     */
    method Select() returns (queried: seq<string>, hub: string)
      ensures queried == WithClient(order, hubs)
      ensures order != [] ==> hub == order[|order| - 1]
    {
      queried := [];
      hub := "";
      var i := 0;
      while i < |order|
        invariant 0 <= i <= |order|
        invariant queried == WithClient(order[..i], hubs)
        invariant i > 0 ==> hub == order[i - 1]
      {
        hub := order[i];
        ghost var prefix := order[..i + 1];
        assert prefix[..i] == order[..i] && prefix[i] == hub;
        assert WithClient(prefix, hubs)
          == WithClient(order[..i], hubs) + (if hub in hubs && hubs[hub].client.Some? then [hub] else []);
        if hub in hubs && hubs[hub].client.Some? {
          queried := queried + [hub];
        }
        i := i + 1;
      }
      assert order[..i] == order;
    }
  }
}
