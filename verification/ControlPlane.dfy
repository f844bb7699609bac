/** The app-owned keys of `enhance/mod.rs`. */
module ControlPlane {
  import opened Yaml

  const TUN := "tun"

  /** The control-plane keys on Linux. */
  const CONTROL_KEYS := [
    "external-controller", "external-controller-unix", "external-controller-cors", "secret", "mixed-port",
    "socks-port", "port", "redir-port", "tproxy-port", "tun", "mode", "allow-lan", "log-level", "ipv6",
    "unified-delay"
  ]

  predicate IsControl(key: Value) {
    key.Str? && key.s in CONTROL_KEYS
  }

  lemma TunIsControl()
    ensures IsControl(Str(TUN))
  {
    assert CONTROL_KEYS[9] == TUN;
  }

  /** Both mappings give `key` the same value, or neither has it. */
  ghost predicate Agree(a: Mapping, b: Mapping, key: Value) {
    (key in a <==> key in b) && (key in a ==> a[key] == b[key])
  }

  /** `snapshot_control_plane`. */
  method SnapshotControlPlane(config: Mapping) returns (snapshot: Mapping)
    ensures forall k | IsControl(k) :: Agree(snapshot, config, k)
    ensures forall k | k in snapshot :: IsControl(k)
    ensures snapshot == Snapshot(config)
  {
    snapshot := map[];
    for i := 0 to |CONTROL_KEYS|
      invariant forall k | k in snapshot :: IsControl(k) && k in config && snapshot[k] == config[k]
      invariant forall n | 0 <= n < i :: Str(CONTROL_KEYS[n]) in config ==> Str(CONTROL_KEYS[n]) in snapshot
    {
      var key := Str(CONTROL_KEYS[i]);
      if key in config {
        snapshot := snapshot[key := config[key]];
      }
    }
    forall k | IsControl(k)
      ensures Agree(snapshot, config, k)
    {
      var n :| 0 <= n < |CONTROL_KEYS| && CONTROL_KEYS[n] == k.s;
      assert k == Str(CONTROL_KEYS[n]);
    }
  }

  function Snapshot(config: Mapping): Mapping {
    map k | k in config && IsControl(k) :: config[k]
  }

  /** `enforce_control_plane`: control keys missing from the snapshot go, the snapshot's values win. */
  method EnforceControlPlane(config: Mapping, snapshot: Mapping) returns (r: Mapping)
    ensures r == Enforced(config, snapshot)
  {
    r := config;
    for i := 0 to |CONTROL_KEYS|
      invariant r.Keys <= config.Keys
      invariant forall k | k in r :: r[k] == config[k]
      invariant forall k | k in config && !(IsControl(k) && k !in snapshot) :: k in r
      invariant forall n | 0 <= n < i && Str(CONTROL_KEYS[n]) !in snapshot :: Str(CONTROL_KEYS[n]) !in r
    {
      var key := Str(CONTROL_KEYS[i]);
      if key !in snapshot {
        r := r - {key};
      }
    }
    forall k | IsControl(k) && k !in snapshot
      ensures k !in r
    {
      var n :| 0 <= n < |CONTROL_KEYS| && CONTROL_KEYS[n] == k.s;
      assert k == Str(CONTROL_KEYS[n]);
    }
    r := r + snapshot;
  }

  function Enforced(config: Mapping, snapshot: Mapping): Mapping {
    (map k | k in config && !(IsControl(k) && k !in snapshot) :: config[k]) + snapshot
  }

  /** Enforcing a snapshot of `app` gives every control key the app's value and leaves the rest to `config`. */
  lemma EnforcedAgrees(config: Mapping, app: Mapping, key: Value)
    ensures IsControl(key) ==> Agree(Enforced(config, Snapshot(app)), app, key)
    ensures !IsControl(key) ==> Agree(Enforced(config, Snapshot(app)), config, key)
    ensures Enforced(Enforced(config, Snapshot(app)), Snapshot(app)) == Enforced(config, Snapshot(app))
    ensures Enforced(app, Snapshot(app)) == app
  {
    var once := Enforced(config, Snapshot(app));
    assert Enforced(once, Snapshot(app)).Keys == once.Keys;
    assert Enforced(app, Snapshot(app)).Keys == app.Keys;
  }
}

/** `compose_profile_with_controls` of `runtime_config.rs`: a profile, its fragments and
    hooks, and the app's authority over the control plane. */
module Compose {
  import opened Wrappers
  import opened Yaml
  import opened ControlPlane

  /** What applying a resolved fragment does to a profile: a merge, a list patch or a user
      script, of which nothing is known but that it may fail. */
  type Hook = Mapping -> Result<Mapping>

  /** A stored fragment profile; `chain` is what resolving its file gives. */
  datatype Item = Item(uid: Option<string>, itype: Option<string>, chain: Result<Hook>)

  /** One entry of the step table: the expected type, the default UID and the configured UID. */
  datatype Step = Step(expected: string, defaultUid: string, configured: Option<string>)

  datatype Options = Options(rules: Option<string>, proxies: Option<string>, groups: Option<string>,
                             merge: Option<string>, script: Option<string>)

  function Steps(options: Options): (steps: seq<Step>)
    ensures |steps| == 7
  {
    [ Step("rules", "Rules", options.rules),
      Step("proxies", "Proxies", options.proxies),
      Step("groups", "Groups", options.groups),
      Step("merge", "Merge", None),
      Step("script", "Script", None),
      Step("merge", "Merge", options.merge),
      Step("script", "Script", options.script) ]
  }

  function Find(items: seq<Item>, uid: string): Option<Item> {
    if items == [] then None
    else if items[0].uid == Some(uid) then Some(items[0])
    else Find(items[1..], uid)
  }

  /** One step: a missing default is skipped, everything else that is wrong is an error. */
  function RunStep(items: seq<Item>, step: Step, profile: Mapping): Result<Mapping> {
    var uid := if step.configured.Some? then step.configured.value else step.defaultUid;
    match Find(items, uid)
    case None =>
      if step.configured.Some? then Err(step.expected + " fragment profile not found") else Ok(profile)
    case Some(fragment) =>
      if fragment.itype != Some(step.expected) then Err(step.expected + " fragment profile has wrong type")
      else match fragment.chain
        case Err(error) => Err(error)
        case Ok(hook) => hook(profile)
  }

  /** A tun section: the profile's entries under the app's. */
  function LayeredTun(profile: Mapping, app: Mapping): Value {
    Map(GetMapOrEmpty(profile, TUN) + GetMapOrEmpty(app, TUN))
  }

  /** The profile handed to the first hook. */
  function Pinned(profile: Mapping, app: Mapping): Mapping {
    Enforced(profile, Snapshot(app)[Str(TUN) := LayeredTun(profile, app)])
  }

  function WithRules(profile: Mapping, rulesOverride: Option<seq<Value>>): Mapping {
    match rulesOverride
    case Some(rules) => profile[Str("rules") := Sequence(rules)]
    case None => profile
  }

  /** The app owns every control key but `tun`, and every entry of its own `tun` section;
      all the rest is what the hooks left. */
  ghost predicate AppOwns(result: Mapping, hooked: Mapping, app: Mapping) {
    && (forall k | IsControl(k) && k != Str(TUN) :: Agree(result, app, k))
    && (forall k | !IsControl(k) :: Agree(result, hooked, k))
    && Str("tun") in result && result[Str("tun")].Map?
    && (forall k, v :: TunHas(app, k, v) ==> TunHas(result, k, v))
    && (forall k, v | !TunKey(app, k) :: TunHas(result, k, v) <==> TunHas(hooked, k, v))
  }

  /** The mapping has a `tun` section with this entry. */
  predicate TunHas(config: Mapping, key: Value, value: Value) {
    TunKey(config, key) && config[Str("tun")].entries[key] == value
  }

  predicate TunKey(config: Mapping, key: Value) {
    Str("tun") in config && config[Str("tun")].Map? && key in config[Str("tun")].entries
  }

  lemma LayeredIsOwned(result: Mapping, hooked: Mapping, app: Mapping)
    requires Get(result, TUN) == Some(LayeredTun(hooked, app))
    ensures Str("tun") in result && result[Str("tun")].Map?
    ensures forall k, v :: TunHas(app, k, v) ==> TunHas(result, k, v)
    ensures forall k, v | !TunKey(app, k) :: TunHas(result, k, v) <==> TunHas(hooked, k, v)
  {
    assert forall k :: TunKey(app, k) <==> k in GetMapOrEmpty(app, TUN);
    assert forall k :: TunKey(hooked, k) <==> k in GetMapOrEmpty(hooked, TUN);
    assert forall k :: TunKey(result, k) <==> k in GetMapOrEmpty(result, TUN);
  }

  /** The profile and the authority over it after the first `n` entries of the step table. */
  function After(items: seq<Item>, options: Options, app: Option<Mapping>, base: Mapping, n: nat): Result<(Mapping, Option<Mapping>)>
    requires n <= 7
  {
    if n == 0 then Ok((base, None))
    else match After(items, options, app, base, n - 1)
      case Err(error) => Err(error)
      case Ok((profile, authority)) =>
        var pinned := if n - 1 == 3 && app.Some? then Pinned(profile, app.value) else profile;
        match RunStep(items, Steps(options)[n - 1], pinned)
        case Err(error) => Err(error)
        case Ok(next) => Ok((next, if n - 1 == 3 && app.Some? then Some(Snapshot(pinned)) else authority))
  }

  /** What composition returns. */
  function Composed(items: seq<Item>, options: Options, app: Option<Mapping>, base: Mapping): Result<Mapping> {
    match After(items, options, app, base, 7)
    case Err(error) => Err(error)
    case Ok((profile, None)) => Ok(profile)
    case Ok((profile, Some(authority))) =>
      Ok(Enforced(profile, authority[Str(TUN) := LayeredTun(profile, if app.Some? then app.value else map[])]))
  }

  /** `compose_profile_with_controls`; `loaded` is the parsed profile file. */
  method ComposeProfileWithControls(loaded: Result<Mapping>, items: seq<Item>, options: Options,
                                    app: Option<Mapping>, rulesOverride: Option<seq<Value>>)
    returns (result: Result<Mapping>)
    ensures loaded.Err? ==> result == loaded
    ensures loaded.Ok? && rulesOverride.None? ==> result == Composed(items, options, app, loaded.value)
    ensures loaded.Ok? && rulesOverride.Some? ==>
      result == Composed(items, options, app, loaded.value[Str("rules") := Sequence(rulesOverride.value)])
  {
    if loaded.Err? {
      return loaded;
    }
    ghost var base := WithRules(loaded.value, rulesOverride);
    var profile := WithRules(loaded.value, rulesOverride);
    var authority: Option<Mapping> := None;
    var steps := Steps(options);
    for index := 0 to |steps|
      invariant After(items, options, app, base, index) == Ok((profile, authority))
    {
      if index == 3 && app.Some? {
        var control := SnapshotControlPlane(app.value);
        control := control[Str(TUN) := LayeredTun(profile, app.value)];
        profile := EnforceControlPlane(profile, control);
        var snapshot := SnapshotControlPlane(profile);
        authority := Some(snapshot);
      }
      var next := RunStep(items, steps[index], profile);
      if next.Err? {
        ErrorStays(items, options, app, base, index + 1);
        return next;
      }
      profile := next.value;
    }
    if authority.Some? {
      var tun := LayeredTun(profile, if app.Some? then app.value else map[]);
      profile := EnforceControlPlane(profile, authority.value[Str(TUN) := tun]);
    }
    return Ok(profile);
  }

  lemma {:induction false} ErrorStays(items: seq<Item>, options: Options, app: Option<Mapping>, base: Mapping, n: nat)
    requires n <= 7 && After(items, options, app, base, n).Err?
    ensures After(items, options, app, base, 7) == Err(After(items, options, app, base, n).error)
    decreases 7 - n
  {
    if n < 7 {
      ErrorStays(items, options, app, base, n + 1);
    }
  }

  lemma PinnedControl(profile: Mapping, app: Mapping)
    ensures forall k | IsControl(k) && k != Str(TUN) :: Agree(Snapshot(Pinned(profile, app)), app, k)
  {
    TunIsControl();
    forall k | IsControl(k) && k != Str(TUN)
      ensures Agree(Pinned(profile, app), app, k)
    {
    }
  }

  /** From the first hook on, the authority holds the app's control values whatever the hooks do. */
  lemma {:induction false} AuthorityIsTheApps(items: seq<Item>, options: Options, app: Mapping, base: Mapping, n: nat)
    requires 4 <= n <= 7 && After(items, options, Some(app), base, n).Ok?
    ensures var authority := After(items, options, Some(app), base, n).value.1;
      && authority.Some?
      && (forall k | k in authority.value :: IsControl(k))
      && (forall k | IsControl(k) && k != Str(TUN) :: Agree(authority.value, app, k))
  {
    if n == 4 {
      PinnedControl(After(items, options, Some(app), base, 3).value.0, app);
    } else {
      AuthorityIsTheApps(items, options, app, base, n - 1);
    }
  }

  // ---------- what runs, and in which order ----------

  /** The first item with this UID. */
  ghost predicate FoundAt(items: seq<Item>, uid: string, i: int) {
    0 <= i < |items| && items[i].uid == Some(uid) && forall j | 0 <= j < i :: items[j].uid != Some(uid)
  }

  predicate Absent(items: seq<Item>, uid: string) {
    forall i | 0 <= i < |items| :: items[i].uid != Some(uid)
  }

  function OrDefault(configured: Option<string>, defaultUid: string): string {
    if configured.Some? then configured.value else defaultUid
  }

  /** What an item of the expected type makes of a profile: what its resolved hook returns. */
  ghost predicate Runs(item: Item, expected: string, before: Mapping, after: Result<Mapping>) {
    if item.itype != Some(expected) then after == Err(expected + " fragment profile has wrong type")
    else match item.chain
      case Ok(hook) => after == hook(before)
      case Err(error) => after == Err(error)
  }

  /** What one entry makes of a profile: an absent default leaves it, an absent configured UID is
      an error, and the item that is found runs. */
  ghost predicate Entry(items: seq<Item>, expected: string, defaultUid: string, configured: Option<string>,
                        before: Mapping, after: Result<Mapping>)
  {
    var uid := OrDefault(configured, defaultUid);
    || (Absent(items, uid) && configured.None? && after == Ok(before))
    || (Absent(items, uid) && configured.Some? && after == Err(expected + " fragment profile not found"))
    || exists i :: FoundAt(items, uid, i) && Runs(items[i], expected, before, after)
  }

  /** The seven entries in their order. */
  ghost predicate EntryAt(items: seq<Item>, options: Options, n: nat, before: Mapping, after: Result<Mapping>)
    requires n < 7
  {
    match n
    case 0 => Entry(items, "rules", "Rules", options.rules, before, after)
    case 1 => Entry(items, "proxies", "Proxies", options.proxies, before, after)
    case 2 => Entry(items, "groups", "Groups", options.groups, before, after)
    case 3 => Entry(items, "merge", "Merge", None, before, after)
    case 4 => Entry(items, "script", "Script", None, before, after)
    case 5 => Entry(items, "merge", "Merge", options.merge, before, after)
    case _ => Entry(items, "script", "Script", options.script, before, after)
  }

  lemma {:induction false} FindExactly(items: seq<Item>, uid: string)
    ensures Find(items, uid).None? <==> Absent(items, uid)
    ensures forall i | FoundAt(items, uid, i) :: Find(items, uid) == Some(items[i])
    ensures Find(items, uid).Some? ==> exists i :: FoundAt(items, uid, i)
  {
    if items != [] {
      var rest := items[1..];
      FindExactly(rest, uid);
      assert items == [items[0]] + rest;
      if items[0].uid == Some(uid) {
        assert FoundAt(items, uid, 0);
      } else {
        forall i | FoundAt(items, uid, i)
          ensures Find(items, uid) == Some(items[i])
        {
          assert rest[i - 1] == items[i];
          assert FoundAt(rest, uid, i - 1);
        }
        if i: int :| FoundAt(rest, uid, i) {
          assert FoundAt(items, uid, i + 1);
        }
      }
    }
  }

  lemma StepIsEntry(items: seq<Item>, step: Step, before: Mapping, after: Result<Mapping>)
    ensures Entry(items, step.expected, step.defaultUid, step.configured, before, after)
      <==> after == RunStep(items, step, before)
  {
    var uid := OrDefault(step.configured, step.defaultUid);
    FindExactly(items, uid);
    if i: int :| FoundAt(items, uid, i) {
      assert Find(items, uid) == Some(items[i]);
      assert forall j | FoundAt(items, uid, j) :: items[j] == items[i];
      assert Runs(items[i], step.expected, before, after) <==> after == RunStep(items, step, before);
    }
  }

  lemma EntryIsStep(items: seq<Item>, options: Options, n: nat, before: Mapping, after: Result<Mapping>)
    requires n < 7
    ensures EntryAt(items, options, n, before, after) <==> after == RunStep(items, Steps(options)[n], before)
  {
    StepIsEntry(items, Steps(options)[n], before, after);
  }

  /** The profile an entry is given: the app's controls are pinned before the fourth. */
  function Given(app: Option<Mapping>, n: nat, profile: Mapping): Mapping {
    if n == 3 && app.Some? then Pinned(profile, app.value) else profile
  }

  /** The profiles before each entry up to the last one that runs, and what that one made: the
      first error, or the last profile. */
  ghost predicate Trace(items: seq<Item>, options: Options, app: Option<Mapping>, base: Mapping,
                        profiles: seq<Mapping>, last: Result<Mapping>)
  {
    && 1 <= |profiles| <= 7 && profiles[0] == base && (last.Ok? ==> |profiles| == 7)
    && (forall i | 0 < i < |profiles| :: EntryAt(items, options, i - 1, Given(app, i - 1, profiles[i - 1]), Ok(profiles[i])))
    && EntryAt(items, options, |profiles| - 1, Given(app, |profiles| - 1, profiles[|profiles| - 1]), last)
  }

  lemma {:induction false} TraceReaches(items: seq<Item>, options: Options, app: Option<Mapping>, base: Mapping,
                                        profiles: seq<Mapping>, last: Result<Mapping>, n: nat)
    requires Trace(items, options, app, base, profiles, last) && n < |profiles|
    ensures After(items, options, app, base, n).Ok? && After(items, options, app, base, n).value.0 == profiles[n]
  {
    if n > 0 {
      TraceReaches(items, options, app, base, profiles, last, n - 1);
      EntryIsStep(items, options, n - 1, Given(app, n - 1, profiles[n - 1]), Ok(profiles[n]));
    }
  }

  lemma TraceEnds(items: seq<Item>, options: Options, app: Option<Mapping>, base: Mapping,
                  profiles: seq<Mapping>, last: Result<Mapping>)
    requires Trace(items, options, app, base, profiles, last)
    ensures last.Err? ==> After(items, options, app, base, 7) == Err(last.error)
    ensures last.Ok? ==> After(items, options, app, base, 7).Ok? && After(items, options, app, base, 7).value.0 == last.value
  {
    var n := |profiles| - 1;
    TraceReaches(items, options, app, base, profiles, last, n);
    EntryIsStep(items, options, n, Given(app, n, profiles[n]), last);
    if last.Err? {
      ErrorStays(items, options, app, base, n + 1);
    }
  }

  /** Some profiles are always passed through. */
  lemma {:induction false} TraceExists(items: seq<Item>, options: Options, app: Option<Mapping>, base: Mapping, n: nat)
    returns (profiles: seq<Mapping>, last: Result<Mapping>)
    requires n < 7
    ensures 1 <= |profiles| <= n + 1 && profiles[0] == base && (last.Ok? ==> |profiles| == n + 1)
    ensures forall i | 0 < i < |profiles| :: EntryAt(items, options, i - 1, Given(app, i - 1, profiles[i - 1]), Ok(profiles[i]))
    ensures EntryAt(items, options, |profiles| - 1, Given(app, |profiles| - 1, profiles[|profiles| - 1]), last)
    ensures n == 6 ==> Trace(items, options, app, base, profiles, last)
  {
    profiles := [base];
    if n > 0 {
      profiles, last := TraceExists(items, options, app, base, n - 1);
      if last.Err? {
        return;
      }
      profiles := profiles + [last.value];
    }
    last := RunStep(items, Steps(options)[n], Given(app, n, profiles[n]));
    EntryIsStep(items, options, n, Given(app, n, profiles[n]), last);
  }

  /** Without app controls a composition runs the seven entries one after another, and the first
      error decides. */
  lemma ComposedIsTrace(items: seq<Item>, options: Options, base: Mapping, profiles: seq<Mapping>, last: Result<Mapping>)
    requires Trace(items, options, None, base, profiles, last)
    ensures Composed(items, options, None, base) == last
  {
    TraceEnds(items, options, None, base, profiles, last);
    if last.Ok? {
      NoAuthority(items, options, base, 7);
    }
  }

  lemma {:induction false} NoAuthority(items: seq<Item>, options: Options, base: Mapping, n: nat)
    requires n <= 7 && After(items, options, None, base, n).Ok?
    ensures After(items, options, None, base, n).value.1 == None
  {
    if n > 0 {
      NoAuthority(items, options, base, n - 1);
    }
  }

  /** The UIDs and types of the seven entries. */
  function Uids(options: Options): (uids: seq<string>)
    ensures |uids| == 7
  {
    [ OrDefault(options.rules, "Rules"), OrDefault(options.proxies, "Proxies"), OrDefault(options.groups, "Groups"),
      "Merge", "Script", OrDefault(options.merge, "Merge"), OrDefault(options.script, "Script") ]
  }

  const TYPES := ["rules", "proxies", "groups", "merge", "script", "merge", "script"]

  /** Seven items found under the UIDs, each of its type and resolved, whose hooks all succeed:
      the composition is those hooks applied one after another, the fourth to the pinned profile. */
  lemma HooksRunInOrder(items: seq<Item>, options: Options, app: Option<Mapping>, base: Mapping,
                        at: seq<nat>, hooks: seq<Hook>, profiles: seq<Mapping>)
    requires |at| == |hooks| == 7 && |profiles| == 8 && profiles[0] == base
    requires forall n | 0 <= n < 7 ::
      FoundAt(items, Uids(options)[n], at[n]) && items[at[n]].itype == Some(TYPES[n]) && items[at[n]].chain == Ok(hooks[n])
    requires forall n | 0 <= n < 7 :: hooks[n](Given(app, n, profiles[n])) == Ok(profiles[n + 1])
    ensures Composed(items, options, app, base).Ok?
    ensures app.None? ==> Composed(items, options, app, base).value == profiles[7]
    ensures app.Some? ==> AppOwns(Composed(items, options, app, base).value, profiles[7], app.value)
  {
    forall n | 0 <= n < 7
      ensures EntryAt(items, options, n, Given(app, n, profiles[n]), Ok(profiles[n + 1]))
    {
      assert FoundAt(items, Uids(options)[n], at[n]);
      assert Runs(items[at[n]], TYPES[n], Given(app, n, profiles[n]), Ok(profiles[n + 1]));
    }
    assert Trace(items, options, app, base, profiles[..7], Ok(profiles[7]));
    if app.Some? {
      AppKeepsControl(items, options, app.value, base, profiles[..7], Ok(profiles[7]));
    } else {
      ComposedIsTrace(items, options, base, profiles[..7], Ok(profiles[7]));
    }
  }

  // ---------- the app's authority ----------

  /** The profile handed to the fourth entry: the app's control plane over everything else. */
  lemma PinnedIsTheApps(profile: Mapping, app: Mapping)
    ensures AppOwns(Pinned(profile, app), profile, app)
  {
    TunIsControl();
    PinnedControl(profile, app);
    LayeredIsOwned(Pinned(profile, app), profile, app);
    forall k | IsControl(k) && k != Str(TUN)
      ensures Agree(Pinned(profile, app), app, k)
    {
      assert Agree(Snapshot(Pinned(profile, app)), app, k);
    }
  }

  /** Whatever fragments merge and scripts return, a composition with the app's controls runs the
      seven entries one after another, the fourth on the pinned profile. The first error decides;
      otherwise the app gets exactly its control plane, and the rest is what the last entry made. */
  lemma AppKeepsControl(items: seq<Item>, options: Options, app: Mapping, base: Mapping,
                        profiles: seq<Mapping>, last: Result<Mapping>)
    requires Trace(items, options, Some(app), base, profiles, last)
    ensures last.Err? ==> Composed(items, options, Some(app), base) == last
    ensures last.Ok? ==> Composed(items, options, Some(app), base).Ok?
    ensures last.Ok? ==> AppOwns(Composed(items, options, Some(app), base).value, last.value, app)
  {
    TraceEnds(items, options, Some(app), base, profiles, last);
    if last.Ok? {
      HookedIsTheApps(items, options, app, base);
    }
  }

  lemma HookedIsTheApps(items: seq<Item>, options: Options, app: Mapping, base: Mapping)
    requires After(items, options, Some(app), base, 7).Ok?
    ensures Composed(items, options, Some(app), base).Ok?
    ensures AppOwns(Composed(items, options, Some(app), base).value, After(items, options, Some(app), base, 7).value.0, app)
  {
    var (hooked, authority) := After(items, options, Some(app), base, 7).value;
    AuthorityIsTheApps(items, options, app, base, 7);
    TunIsControl();
    var final := authority.value[Str(TUN) := LayeredTun(hooked, app)];
    var result := Enforced(hooked, final);
    forall k | IsControl(k) && k != Str(TUN)
      ensures Agree(result, app, k)
    {
      assert Agree(authority.value, app, k);
    }
    LayeredIsOwned(result, hooked, app);
  }
}
