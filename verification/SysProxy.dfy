/** The desktop-proxy lifecycle of `sys_proxy.rs`: the GNOME and KDE key stores, the
    snapshot marker file, and enable, disable and release over them. Desktop tools that are
    present are taken to succeed; what `gsettings` prints for a written text is a parameter. */
module SysProxy {
  import opened Wrappers
  import opened Text

  const PORT_BOUND := 0x1_0000

  datatype Kind = Http | Https | Socks

  /** The keys of both backends: eight GSettings keys, then five of kioslaverc. */
  datatype Key =
    | Mode | IgnoreHosts | Host(kind: Kind) | Port(kind: Kind)
    | ProxyType | ProxyUrl(kind: Kind) | NoProxyFor

  datatype Backend = Gnome | Kde

  type Store = map<Key, string>

  const GNOME_KEYS: seq<Key> :=
    [Mode, IgnoreHosts, Host(Http), Port(Http), Host(Https), Port(Https), Host(Socks), Port(Socks)]

  const KDE_KEYS: seq<Key> := [ProxyType, ProxyUrl(Http), ProxyUrl(Https), ProxyUrl(Socks), NoProxyFor]

  function KeysOf(b: Backend): seq<Key> {
    if b == Gnome then GNOME_KEYS else KDE_KEYS
  }

  datatype ProxySettings = ProxySettings(endpoint: Endpoint, bypass: seq<string>)

  type U16 = n: nat | n < PORT_BOUND

  datatype Endpoint = Endpoint(host: string, port: U16)

  /** The marker file; an unreadable one counts as an empty snapshot. */
  datatype Snapshot = Snapshot(applied: Option<Endpoint>, gnome: Store, kde: Store)

  const EMPTY := Snapshot(None, map[], map[])

  datatype State = State(gnome: Store, kde: Store, marker: Option<Snapshot>)

  /** Which tools exist, and the text `gsettings get` prints after `set` of a text. A
      kioslaverc key reads back as written, with "" for an unset one. */
  datatype Tools = Tools(gsettings: bool, kde: bool, echo: (Key, string) -> string)

  const MANUAL := "manual"
  const MANUAL_TEXT := "'manual'"
  const NONE := "none"
  const NONE_TEXT := "'none'"
  const KDE_MANUAL := "1"
  const KDE_OFF := "0"

  function Echo(t: Tools, b: Backend, key: Key, value: string): string {
    if b == Gnome then t.echo(key, value) else value
  }

  function EscapeQuotes(s: string): string {
    if s == [] then ""
    else (if s[0] == '\\' || s[0] == '\'' then ['\\', s[0]] else [s[0]]) + EscapeQuotes(s[1..])
  }

  /** `gvariant_string`. */
  function GVariantString(s: string): string {
    "'" + EscapeQuotes(s) + "'"
  }

  function JoinText(items: seq<string>, sep: string): string {
    if items == [] then "" else if |items| == 1 then items[0] else items[0] + sep + JoinText(items[1..], sep)
  }

  function GVariantStringArray(items: seq<string>): string {
    "[" + JoinText(seq(|items|, i requires 0 <= i < |items| => GVariantString(items[i])), ", ") + "]"
  }

  function Scheme(kind: Kind): string {
    if kind == Socks then "socks" else "http"
  }

  /** `Kde::endpoint`. */
  function KdeEndpoint(scheme: string, e: Endpoint): string {
    scheme + "://" + e.host + " " + Decimal(e.port)
  }

  // ---------- the specification of each backend operation ----------

  function LookupOr(m: Store, key: Key, other: string): string {
    if key in m then m[key] else other
  }

  function StoreOf(st: State, b: Backend): Store {
    if b == Gnome then st.gnome else st.kde
  }

  function StoredIn(snap: Snapshot, b: Backend): Store {
    if b == Gnome then snap.gnome else snap.kde
  }

  /** `Gnome::available` and `Kde::detect`. */
  predicate Available(t: Tools, st: State, b: Backend) {
    if b == Gnome then t.gsettings && Mode in st.gnome else t.kde
  }

  /** `is_ours`: the store routes through the endpoint. */
  predicate PointsAt(m: Store, b: Backend, e: Endpoint) {
    if b == Gnome then
      && Lookup(m, Mode) == Some(MANUAL_TEXT)
      && Lookup(m, Host(Http)) == Some(GVariantString(e.host))
      && Lookup(m, Port(Http)) == Some(Decimal(e.port))
    else LookupOr(m, ProxyType, "") == KDE_MANUAL && LookupOr(m, ProxyUrl(Http), "") == KdeEndpoint(Scheme(Http), e)
  }

  /** `snapshot`: every key that can be read. */
  function Taken(m: Store, b: Backend): Store {
    if b == Gnome then map k | k in GNOME_KEYS && k in m :: m[k]
    else map k | k in KDE_KEYS :: LookupOr(m, k, "")
  }

  /** The `set` calls of `apply`, in order: the switch to manual mode comes last. */
  function Writes(b: Backend, s: ProxySettings): (ws: seq<(Key, string)>)
    ensures |ws| == |KeysOf(b)|
  {
    if b == Gnome then
      [(Host(Http), s.endpoint.host), (Port(Http), Decimal(s.endpoint.port)),
       (Host(Https), s.endpoint.host), (Port(Https), Decimal(s.endpoint.port)),
       (Host(Socks), s.endpoint.host), (Port(Socks), Decimal(s.endpoint.port)),
       (IgnoreHosts, GVariantStringArray(s.bypass)), (Mode, MANUAL)]
    else
      [(ProxyUrl(Http), KdeEndpoint(Scheme(Http), s.endpoint)), (ProxyUrl(Https), KdeEndpoint(Scheme(Http), s.endpoint)),
       (ProxyUrl(Socks), KdeEndpoint(Scheme(Socks), s.endpoint)), (NoProxyFor, JoinText(s.bypass, ",")),
       (ProxyType, KDE_MANUAL)]
  }

  /** The store after the first `n` of the writes. */
  function Written(t: Tools, b: Backend, m: Store, ws: seq<(Key, string)>, n: nat): Store
    requires n <= |ws|
  {
    if n == 0 then m else Written(t, b, m, ws, n - 1)[ws[n - 1].0 := Echo(t, b, ws[n - 1].0, ws[n - 1].1)]
  }

  /** `apply`. */
  function Applied(t: Tools, b: Backend, m: Store, s: ProxySettings): Store {
    Written(t, b, m, Writes(b, s), |Writes(b, s)|)
  }

  /** `restore`. */
  function Restored(t: Tools, b: Backend, m: Store, stored: Store): Store {
    if b == Gnome then
      if stored == map[] then m[Mode := t.echo(Mode, NONE)]
      else (m + GnomeEntries(t, stored, stored.Keys))[Mode := t.echo(Mode, LookupOr(stored, Mode, NONE_TEXT))]
    else if stored == map[] then m[ProxyType := KDE_OFF]
    else (m + KdeEntries(stored, KDE_KEYS))[ProxyType := OrOff(LookupOr(stored, ProxyType, KDE_OFF))]
  }

  /** The stored entries of the given keys, as they read after being written back. */
  function GnomeEntries(t: Tools, stored: Store, keys: set<Key>): Store {
    map k | k in stored && k in keys && k != Mode :: t.echo(k, stored[k])
  }

  function KdeEntries(stored: Store, keys: seq<Key>): Store {
    map k | k in keys && k != ProxyType :: LookupOr(stored, k, "")
  }

  lemma AddGnomeEntry(t: Tools, m: Store, stored: Store, keys: set<Key>, key: Key)
    requires key in stored && key != Mode
    ensures m + GnomeEntries(t, stored, keys + {key}) == (m + GnomeEntries(t, stored, keys))[key := t.echo(key, stored[key])]
  {
    assert GnomeEntries(t, stored, keys + {key}) == GnomeEntries(t, stored, keys)[key := t.echo(key, stored[key])];
  }

  lemma AddKdeEntry(m: Store, stored: Store, keys: seq<Key>, key: Key)
    ensures m + KdeEntries(stored, keys + [key])
         == if key == ProxyType then m + KdeEntries(stored, keys)
            else (m + KdeEntries(stored, keys))[key := LookupOr(stored, key, "")]
  {
    if key == ProxyType {
      assert KdeEntries(stored, keys + [key]) == KdeEntries(stored, keys);
    } else {
      assert KdeEntries(stored, keys + [key]) == KdeEntries(stored, keys)[key := LookupOr(stored, key, "")];
    }
  }

  function OrOff(value: string): string {
    if value == "" then KDE_OFF else value
  }

  // ---------- the specification of the lifecycle ----------

  function MarkerOr(st: State): Snapshot {
    if st.marker.Some? then st.marker.value else EMPTY
  }

  /** The endpoint recorded in the marker is in use by the backend. */
  predicate PointsAtLast(st: State, b: Backend) {
    var last := MarkerOr(st).applied;
    last.Some? && PointsAt(StoreOf(st, b), b, last.value)
  }

  predicate PointsAtAny(m: Store, b: Backend, endpoints: seq<Endpoint>) {
    endpoints != [] && (PointsAt(m, b, endpoints[0]) || PointsAtAny(m, b, endpoints[1..]))
  }

  lemma OursIsNewOrLast(st: State, b: Backend, e: Endpoint, ours: seq<Endpoint>)
    requires ours == [e] + if MarkerOr(st).applied.Some? then [MarkerOr(st).applied.value] else []
    ensures PointsAtAny(StoreOf(st, b), b, ours) <==> PointsAt(StoreOf(st, b), b, e) || PointsAtLast(st, b)
  {
    assert PointsAtAny(StoreOf(st, b), b, ours[1..]) <==> PointsAtLast(st, b) by {
      if MarkerOr(st).applied.Some? {
        assert ours[1..][1..] == [];
      }
    }
  }

  /** The snapshot of one backend that an enable leaves in the marker. */
  function Kept(t: Tools, st: State, b: Backend, e: Endpoint): Store {
    var stored := StoredIn(MarkerOr(st), b);
    if Available(t, st, b) && stored == map[] && !PointsAt(StoreOf(st, b), b, e) && !PointsAtLast(st, b)
    then Taken(StoreOf(st, b), b) else stored
  }

  predicate AnyBackend(t: Tools, st: State) {
    Available(t, st, Gnome) || Available(t, st, Kde)
  }

  /** An enable that stops after some of each backend's writes; all of them when it finishes. */
  function EnabledUpTo(t: Tools, st: State, s: ProxySettings, gnomeWrites: nat, kdeWrites: nat): State
    requires gnomeWrites <= |GNOME_KEYS| && kdeWrites <= |KDE_KEYS|
  {
    if !AnyBackend(t, st) then st
    else State(
      if Available(t, st, Gnome) then Written(t, Gnome, st.gnome, Writes(Gnome, s), gnomeWrites) else st.gnome,
      if Available(t, st, Kde) then Written(t, Kde, st.kde, Writes(Kde, s), kdeWrites) else st.kde,
      Some(Snapshot(Some(s.endpoint), Kept(t, st, Gnome, s.endpoint), Kept(t, st, Kde, s.endpoint))))
  }

  function Enabled(t: Tools, st: State, s: ProxySettings): State {
    EnabledUpTo(t, st, s, |GNOME_KEYS|, |KDE_KEYS|)
  }

  function Disabled(t: Tools, st: State): State {
    if !AnyBackend(t, st) then st
    else State(
      if Available(t, st, Gnome) then Restored(t, Gnome, st.gnome, MarkerOr(st).gnome) else st.gnome,
      if Available(t, st, Kde) then Restored(t, Kde, st.kde, MarkerOr(st).kde) else st.kde,
      None)
  }

  /** The endpoint a release compares the desktop with. */
  function Recorded(st: State, fallback: Endpoint): Endpoint {
    if MarkerOr(st).applied.Some? then MarkerOr(st).applied.value else fallback
  }

  predicate Ours(t: Tools, st: State, b: Backend, e: Endpoint) {
    Available(t, st, b) && PointsAt(StoreOf(st, b), b, e)
  }

  /** Whether a release acts. */
  predicate Acts(t: Tools, st: State, fallback: Endpoint) {
    st.marker.Some? && exists b :: Ours(t, st, b, Recorded(st, fallback))
  }

  function Released(t: Tools, st: State, fallback: Endpoint): State {
    var e := Recorded(st, fallback);
    if !Acts(t, st, fallback) then st
    else State(
      if Ours(t, st, Gnome, e) then Restored(t, Gnome, st.gnome, MarkerOr(st).gnome) else st.gnome,
      if Ours(t, st, Kde, e) then Restored(t, Kde, st.kde, MarkerOr(st).kde) else st.kde,
      None)
  }

  // ---------- the methods ----------

  /** The desktop's two key stores and the marker file. */
  class Desktop {
    const tools: Tools
    var gnome: Store
    var kde: Store
    var marker: Option<Snapshot>

    constructor (tools: Tools, st: State)
      ensures this.tools == tools && Now() == st
    {
      this.tools := tools;
      gnome, kde, marker := st.gnome, st.kde, st.marker;
    }

    function Now(): State
      reads this
    {
      State(gnome, kde, marker)
    }

    method SetGnome(key: Key, value: string)
      modifies `gnome
      ensures gnome == old(gnome)[key := Echo(tools, Gnome, key, value)]
    {
      gnome := gnome[key := tools.echo(key, value)];
    }

    method SetKde(key: Key, value: string)
      modifies `kde
      ensures kde == old(kde)[key := Echo(tools, Kde, key, value)]
    {
      kde := kde[key := value];
    }

    /** `Gnome::snapshot`. */
    method TakeGnome() returns (taken: Store)
      ensures taken == Taken(gnome, Gnome)
    {
      taken := map[];
      for i := 0 to |GNOME_KEYS|
        invariant taken == map k | k in GNOME_KEYS[..i] && k in gnome :: gnome[k]
      {
        var key := GNOME_KEYS[i];
        assert GNOME_KEYS[..i + 1] == GNOME_KEYS[..i] + [key];
        if key in gnome {
          taken := taken[key := gnome[key]];
        }
      }
      assert GNOME_KEYS[..|GNOME_KEYS|] == GNOME_KEYS;
    }

    /** `Kde::snapshot`. */
    method TakeKde() returns (taken: Store)
      ensures taken == Taken(kde, Kde)
    {
      taken := map[];
      for i := 0 to |KDE_KEYS|
        invariant taken == map k | k in KDE_KEYS[..i] :: LookupOr(kde, k, "")
      {
        assert KDE_KEYS[..i + 1] == KDE_KEYS[..i] + [KDE_KEYS[i]];
        taken := taken[KDE_KEYS[i] := LookupOr(kde, KDE_KEYS[i], "")];
      }
      assert KDE_KEYS[..|KDE_KEYS|] == KDE_KEYS;
    }

    /** `Gnome::apply`. */
    method ApplyGnome(s: ProxySettings)
      modifies `gnome
      ensures gnome == Applied(tools, Gnome, old(gnome), s)
    {
      var kinds := [Http, Https, Socks];
      ghost var ws := Writes(Gnome, s);
      for i := 0 to |kinds|
        invariant gnome == Written(tools, Gnome, old(gnome), ws, 2 * i)
      {
        SetGnome(Host(kinds[i]), s.endpoint.host);
        assert gnome == Written(tools, Gnome, old(gnome), ws, 2 * i + 1);
        SetGnome(Port(kinds[i]), Decimal(s.endpoint.port));
      }
      SetGnome(IgnoreHosts, GVariantStringArray(s.bypass));
      assert gnome == Written(tools, Gnome, old(gnome), ws, 7);
      SetGnome(Mode, MANUAL);
    }

    /** `Kde::apply`. */
    method ApplyKde(s: ProxySettings)
      modifies `kde
      ensures kde == Applied(tools, Kde, old(kde), s)
    {
      ghost var ws := Writes(Kde, s);
      var http := KdeEndpoint(Scheme(Http), s.endpoint);
      SetKde(ProxyUrl(Http), http);
      assert kde == Written(tools, Kde, old(kde), ws, 1);
      SetKde(ProxyUrl(Https), http);
      assert kde == Written(tools, Kde, old(kde), ws, 2);
      SetKde(ProxyUrl(Socks), KdeEndpoint(Scheme(Socks), s.endpoint));
      assert kde == Written(tools, Kde, old(kde), ws, 3);
      SetKde(NoProxyFor, JoinText(s.bypass, ","));
      assert kde == Written(tools, Kde, old(kde), ws, 4);
      SetKde(ProxyType, KDE_MANUAL);
    }

    /** `Gnome::restore`. */
    method RestoreGnome(stored: Store)
      modifies `gnome
      ensures gnome == Restored(tools, Gnome, old(gnome), stored)
    {
      if stored == map[] {
        SetGnome(Mode, NONE);
        return;
      }
      var todo := stored.Keys - {Mode};
      assert gnome + GnomeEntries(tools, stored, stored.Keys - todo) == gnome;
      while todo != {}
        invariant todo <= stored.Keys - {Mode}
        invariant gnome == old(gnome) + GnomeEntries(tools, stored, stored.Keys - todo)
        decreases |todo|
      {
        var key :| key in todo;
        SetGnome(key, stored[key]);
        AddGnomeEntry(tools, old(gnome), stored, stored.Keys - todo, key);
        assert stored.Keys - (todo - {key}) == stored.Keys - todo + {key};
        todo := todo - {key};
      }
      assert stored.Keys - todo == stored.Keys;
      SetGnome(Mode, LookupOr(stored, Mode, NONE_TEXT));
    }

    /** `Kde::restore`. */
    method RestoreKde(stored: Store)
      modifies `kde
      ensures kde == Restored(tools, Kde, old(kde), stored)
    {
      if stored == map[] {
        SetKde(ProxyType, KDE_OFF);
        return;
      }
      assert kde + KdeEntries(stored, []) == kde;
      for i := 0 to |KDE_KEYS|
        invariant kde == old(kde) + KdeEntries(stored, KDE_KEYS[..i])
      {
        var key := KDE_KEYS[i];
        assert KDE_KEYS[..i + 1] == KDE_KEYS[..i] + [key];
        AddKdeEntry(old(kde), stored, KDE_KEYS[..i], key);
        if key != ProxyType {
          SetKde(key, LookupOr(stored, key, ""));
        }
      }
      assert KDE_KEYS[..|KDE_KEYS|] == KDE_KEYS;
      var proxyType := LookupOr(stored, ProxyType, KDE_OFF);
      if proxyType == "" {
        proxyType := KDE_OFF;
      }
      SetKde(ProxyType, proxyType);
    }

    /** `enable_with`. */
    method EnableWith(s: ProxySettings) returns (ok: bool)
      modifies this
      ensures Now() == Enabled(tools, old(Now()), s)
      ensures ok <==> AnyBackend(tools, old(Now()))
    {
      var hasGnome, hasKde := tools.gsettings && Mode in gnome, tools.kde;
      if !hasGnome && !hasKde {
        return false;
      }
      var snapshot := MarkerOr(Now());
      var ours := [s.endpoint] + if snapshot.applied.Some? then [snapshot.applied.value] else [];
      OursIsNewOrLast(Now(), Gnome, s.endpoint, ours);
      OursIsNewOrLast(Now(), Kde, s.endpoint, ours);
      if hasGnome && snapshot.gnome == map[] && !PointsAtAny(gnome, Gnome, ours) {
        var taken := TakeGnome();
        snapshot := snapshot.(gnome := taken);
      }
      if hasKde && snapshot.kde == map[] && !PointsAtAny(kde, Kde, ours) {
        var taken := TakeKde();
        snapshot := snapshot.(kde := taken);
      }
      assert snapshot.gnome == Kept(tools, Now(), Gnome, s.endpoint);
      assert snapshot.kde == Kept(tools, Now(), Kde, s.endpoint);
      snapshot := snapshot.(applied := Some(s.endpoint));
      marker := Some(snapshot);
      if hasGnome {
        ApplyGnome(s);
      }
      if hasKde {
        ApplyKde(s);
      }
      return true;
    }

    /** `disable_with`. */
    method DisableWith() returns (ok: bool)
      modifies this
      ensures Now() == Disabled(tools, old(Now()))
      ensures ok <==> AnyBackend(tools, old(Now()))
    {
      var hasGnome, hasKde := tools.gsettings && Mode in gnome, tools.kde;
      if !hasGnome && !hasKde {
        return false;
      }
      var snapshot := MarkerOr(Now());
      if hasGnome {
        RestoreGnome(snapshot.gnome);
      }
      if hasKde {
        RestoreKde(snapshot.kde);
      }
      marker := None;
      return true;
    }

    /** `release_with`; a release that does not act leaves everything alone, and one that acts
        writes only the backends that point at the recorded endpoint. */
    method ReleaseWith(fallback: Endpoint) returns (changed: bool)
      modifies this
      ensures Now() == Released(tools, old(Now()), fallback)
      ensures changed <==> Acts(tools, old(Now()), fallback)
      ensures !changed ==> Now() == old(Now())
      ensures changed ==> marker == None && forall b | !Ours(tools, old(Now()), b, Recorded(old(Now()), fallback)) ::
        StoreOf(Now(), b) == StoreOf(old(Now()), b)
    {
      if marker.None? {
        return false;
      }
      var snapshot := marker.value;
      var e := if snapshot.applied.Some? then snapshot.applied.value else fallback;
      ghost var before := Now();
      var gnomeOurs := tools.gsettings && Mode in gnome && PointsAt(gnome, Gnome, e);
      var kdeOurs := tools.kde && PointsAt(kde, Kde, e);
      assert e == Recorded(before, fallback);
      assert gnomeOurs <==> Ours(tools, before, Gnome, e);
      assert kdeOurs <==> Ours(tools, before, Kde, e);
      if !gnomeOurs && !kdeOurs {
        return false;
      }
      if gnomeOurs {
        RestoreGnome(snapshot.gnome);
      }
      if kdeOurs {
        RestoreKde(snapshot.kde);
      }
      marker := None;
      return true;
    }
  }

  // ---------- what the tools do ----------

  /** Printed texts read back as themselves; modes and port numbers print as expected. */
  ghost predicate Faithful(t: Tools) {
    && (forall k, v :: t.echo(k, t.echo(k, v)) == t.echo(k, v))
    && t.echo(Mode, MANUAL) == MANUAL_TEXT
    && t.echo(Mode, NONE) == NONE_TEXT
    && (forall kind, port: U16 :: t.echo(Port(kind), Decimal(port)) == Decimal(port))
  }

  /** `gsettings` prints the host the way `gvariant_string` writes it. */
  predicate Recognised(t: Tools, e: Endpoint) {
    t.echo(Host(Http), e.host) == GVariantString(e.host)
  }

  /** The store has exactly the backend's keys, with texts the backend's tool prints. */
  predicate WellFormed(t: Tools, b: Backend, m: Store) {
    m.Keys == (set k | k in KeysOf(b)) && forall k | k in m :: Echo(t, b, k, m[k]) == m[k]
  }

  lemma {:induction false} WrittenValue(t: Tools, b: Backend, m: Store, ws: seq<(Key, string)>, n: nat, i: nat)
    requires i < n <= |ws|
    requires forall j | i < j < n :: ws[j].0 != ws[i].0
    ensures Lookup(Written(t, b, m, ws, n), ws[i].0) == Some(Echo(t, b, ws[i].0, ws[i].1))
    decreases n
  {
    if i < n - 1 {
      WrittenValue(t, b, m, ws, n - 1, i);
    }
  }

  lemma {:induction false} WrittenKeys(t: Tools, b: Backend, m: Store, ws: seq<(Key, string)>, n: nat)
    requires n <= |ws|
    requires forall i | 0 <= i < |ws| :: ws[i].0 in m
    ensures Written(t, b, m, ws, n).Keys == m.Keys
    decreases n
  {
    if n > 0 {
      WrittenKeys(t, b, m, ws, n - 1);
    }
  }

  /** Writing settings touches only the backend's own keys. */
  lemma WritesAreOwnKeys(b: Backend, s: ProxySettings, m: Store)
    requires m.Keys == (set k | k in KeysOf(b))
    ensures forall i | 0 <= i < |Writes(b, s)| :: Writes(b, s)[i].0 in m
  {
    var ws := Writes(b, s);
    if b == Gnome {
      assert forall i | 0 <= i < |ws| :: ws[i].0 in GNOME_KEYS by {
        assert GNOME_KEYS[0] == Mode && GNOME_KEYS[1] == IgnoreHosts && GNOME_KEYS[2] == Host(Http)
            && GNOME_KEYS[3] == Port(Http) && GNOME_KEYS[4] == Host(Https) && GNOME_KEYS[5] == Port(Https)
            && GNOME_KEYS[6] == Host(Socks) && GNOME_KEYS[7] == Port(Socks);
      }
    } else {
      assert KDE_KEYS[0] == ProxyType && KDE_KEYS[1] == ProxyUrl(Http) && KDE_KEYS[2] == ProxyUrl(Https)
          && KDE_KEYS[3] == ProxyUrl(Socks) && KDE_KEYS[4] == NoProxyFor;
    }
  }

  /** After a whole apply KDE always points at the endpoint; GNOME does exactly when the host
      is recognised, and is in manual mode either way. */
  lemma AppliedPoints(t: Tools, b: Backend, m: Store, s: ProxySettings)
    requires Faithful(t)
    ensures PointsAt(Applied(t, b, m, s), b, s.endpoint) <==> b == Kde || Recognised(t, s.endpoint)
    ensures b == Gnome ==> Lookup(Applied(t, b, m, s), Mode) == Some(MANUAL_TEXT)
  {
    var ws := Writes(b, s);
    if b == Gnome {
      WrittenValue(t, b, m, ws, |ws|, 0);
      WrittenValue(t, b, m, ws, |ws|, 1);
      WrittenValue(t, b, m, ws, |ws|, 7);
    } else {
      WrittenValue(t, b, m, ws, |ws|, 0);
      WrittenValue(t, b, m, ws, |ws|, 4);
    }
  }

  /** After a whole apply every protocol of the backend is routed through the endpoint, and the
      bypass list is published. */
  lemma AppliedPublishes(t: Tools, b: Backend, m: Store, s: ProxySettings, kind: Kind)
    ensures var applied := Applied(t, b, m, s);
      if b == Gnome then
        && Lookup(applied, Host(kind)) == Some(t.echo(Host(kind), s.endpoint.host))
        && Lookup(applied, Port(kind)) == Some(t.echo(Port(kind), Decimal(s.endpoint.port)))
        && Lookup(applied, IgnoreHosts) == Some(t.echo(IgnoreHosts, GVariantStringArray(s.bypass)))
      else
        && Lookup(applied, ProxyUrl(kind))
             == Some((if kind == Socks then "socks" else "http") + "://" + s.endpoint.host + " " + Decimal(s.endpoint.port))
        && Lookup(applied, NoProxyFor) == Some(JoinText(s.bypass, ","))
  {
    var ws := Writes(b, s);
    var place := if kind == Http then 0 else if kind == Https then 1 else 2;
    if b == Gnome {
      WrittenValue(t, b, m, ws, |ws|, 2 * place);
      WrittenValue(t, b, m, ws, |ws|, 2 * place + 1);
      WrittenValue(t, b, m, ws, |ws|, 6);
    } else {
      WrittenValue(t, b, m, ws, |ws|, place);
      WrittenValue(t, b, m, ws, |ws|, 3);
    }
  }

  // ---------- the written texts determine what they stand for ----------

  /** The string in single quotes that a text starts with, and what follows it. */
  function ReadQuoted(text: string): Option<(string, string)> {
    if text == "" || text[0] != '\'' then None else ReadQuotedTail(text[1..])
  }

  function ReadQuotedTail(text: string): Option<(string, string)> {
    if text == "" then None
    else if text[0] == '\'' then Some(("", text[1..]))
    else
      var n := if text[0] == '\\' then 2 else 1;
      if |text| < n then None
      else match ReadQuotedTail(text[n..])
        case Some((read, rest)) => Some(([text[n - 1]] + read, rest))
        case None => None
  }

  lemma {:induction false} EscapedTail(s: string, rest: string)
    ensures ReadQuotedTail(EscapeQuotes(s) + ['\''] + rest) == Some((s, rest))
  {
    var text := EscapeQuotes(s) + ['\''] + rest;
    if s == [] {
      assert text == ['\''] + rest;
    } else {
      EscapedTail(s[1..], rest);
      var n := if s[0] == '\\' || s[0] == '\'' then 2 else 1;
      var tail := EscapeQuotes(s[1..]) + ['\''] + rest;
      assert text == (if n == 2 then ['\\', s[0]] else [s[0]]) + tail;
      assert text[n..] == tail && text[n - 1] == s[0];
      assert [s[0]] + s[1..] == s;
    }
  }

  /** A quoted string reads back, whatever follows it. */
  lemma QuotedReadsBack(s: string, rest: string)
    ensures ReadQuoted(GVariantString(s) + rest) == Some((s, rest))
  {
    EscapedTail(s, rest);
    assert (GVariantString(s) + rest)[1..] == EscapeQuotes(s) + ['\''] + rest;
  }

  /** The strings of an array text after its opening bracket. */
  function ReadItems(text: string): Option<seq<string>>
    decreases |text|
  {
    match ReadQuoted(text)
    case None => None
    case Some((item, rest)) =>
      if rest == "]" then Some([item])
      else if |rest| < 2 || rest[..2] != ", " || |rest| - 2 >= |text| then None
      else match ReadItems(rest[2..])
        case Some(items) => Some([item] + items)
        case None => None
  }

  function ReadArray(text: string): Option<seq<string>> {
    if text == "[]" then Some([]) else if text != "" && text[0] == '[' then ReadItems(text[1..]) else None
  }

  function Quoted(items: seq<string>): seq<string> {
    seq(|items|, i requires 0 <= i < |items| => GVariantString(items[i]))
  }

  lemma {:induction false} ItemsReadBack(items: seq<string>)
    requires items != []
    ensures ReadItems(JoinText(Quoted(items), ", ") + "]") == Some(items)
    decreases |items|
  {
    var text := JoinText(Quoted(items), ", ") + "]";
    if |items| == 1 {
      QuotedReadsBack(items[0], "]");
      assert text == GVariantString(items[0]) + "]";
      assert items == [items[0]];
    } else {
      ItemsReadBack(items[1..]);
      assert Quoted(items)[1..] == Quoted(items[1..]);
      var tail := JoinText(Quoted(items[1..]), ", ") + "]";
      QuotedReadsBack(items[0], ", " + tail);
      assert text == GVariantString(items[0]) + (", " + tail);
      assert (", " + tail)[..2] == ", " && (", " + tail)[2..] == tail;
      assert items == [items[0]] + items[1..];
    }
  }

  /** The bypass list reads back from what is written for GNOME, and for KDE when no entry holds a
      comma. */
  lemma BypassReadsBack(items: seq<string>)
    ensures ReadArray(GVariantStringArray(items)) == Some(items)
    ensures items != [] && (forall item | item in items :: ',' !in item) ==> Split(JoinText(items, ","), ',') == items
  {
    assert GVariantStringArray(items) == "[" + JoinText(Quoted(items), ", ") + "]";
    if items != [] {
      ItemsReadBack(items);
      assert GVariantStringArray(items)[1..] == JoinText(Quoted(items), ", ") + "]";
      QuotedStart(items);
    }
    JoinTextIsJoin(items);
    if items != [] && forall item | item in items :: ',' !in item {
      SplitJoin(items, ',');
    }
  }

  lemma QuotedStart(items: seq<string>)
    requires items != []
    ensures JoinText(Quoted(items), ", ") != "" && JoinText(Quoted(items), ", ")[0] == '\''
  {
    assert Quoted(items)[0][0] == '\'';
  }

  lemma {:induction false} JoinTextIsJoin(items: seq<string>)
    ensures JoinText(items, ",") == Join(items, ',')
  {
    if |items| > 1 {
      JoinTextIsJoin(items[1..]);
    }
  }

  lemma LastSpaceSplits(a: string, b: string, c: string, d: string)
    requires a + [' '] + b == c + [' '] + d && ' ' !in b && ' ' !in d
    ensures a == c && b == d
  {
    var text := a + [' '] + b;
    assert text[|a|] == ' ' && text[|c|] == ' ';
    assert forall i | |a| < i < |text| :: text[i] == b[i - |a| - 1];
    assert forall i | |c| < i < |text| :: text[i] == d[i - |c| - 1];
    assert text[..|a|] == a && text[..|c|] == c;
    assert text[|a| + 1..] == b && text[|c| + 1..] == d;
  }

  /** A store routes through one endpoint at most. */
  lemma PointsAtOne(m: Store, b: Backend, e: Endpoint, f: Endpoint)
    requires PointsAt(m, b, e) && PointsAt(m, b, f)
    ensures e == f
  {
    DecimalRoundTrip(e.port);
    DecimalRoundTrip(f.port);
    if b == Gnome {
      QuotedReadsBack(e.host, "");
      QuotedReadsBack(f.host, "");
      assert GVariantString(e.host) + "" == GVariantString(f.host) + "";
    } else {
      KdeEndpointTail(Scheme(Http), e);
      KdeEndpointTail(Scheme(Http), f);
      LastSpaceSplits(e.host, Decimal(e.port), f.host, Decimal(f.port));
    }
  }

  lemma KdeEndpointTail(scheme: string, e: Endpoint)
    ensures |KdeEndpoint(scheme, e)| >= |scheme| + 3
    ensures KdeEndpoint(scheme, e)[|scheme| + 3..] == e.host + [' '] + Decimal(e.port)
    ensures ' ' !in Decimal(e.port)
  {
    assert KdeEndpoint(scheme, e) == (scheme + "://") + (e.host + [' '] + Decimal(e.port));
  }

  /** The key that switches a backend to the manual proxy. */
  function SwitchKey(b: Backend): Key {
    if b == Gnome then Mode else ProxyType
  }

  /** Until its last write an apply has not switched the backend, so a half-written proxy is
      never in use that was not in use before. */
  lemma {:induction false} SwitchedLast(t: Tools, b: Backend, m: Store, s: ProxySettings, n: nat)
    requires n < |Writes(b, s)|
    ensures Lookup(Written(t, b, m, Writes(b, s), n), SwitchKey(b)) == Lookup(m, SwitchKey(b))
    decreases n
  {
    if n > 0 {
      SwitchedLast(t, b, m, s, n - 1);
      assert Writes(b, s)[n - 1].0 != SwitchKey(b);
    }
  }

  /** What a restore leaves: the original, with an unset KDE proxy type as "0". */
  function Back(b: Backend, original: Store): Store {
    if b == Kde && Lookup(original, ProxyType) == Some("") then original[ProxyType := "0"] else original
  }

  lemma TakenIsWhole(t: Tools, b: Backend, m: Store)
    requires WellFormed(t, b, m)
    ensures Taken(m, b) == m
  {
  }

  lemma GnomeRestoreUndoes(t: Tools, m: Store, original: Store)
    requires m.Keys == (set k | k in GNOME_KEYS) && WellFormed(t, Gnome, original)
    ensures Restored(t, Gnome, m, original) == original
  {
    assert GNOME_KEYS[0] == Mode && Mode in GNOME_KEYS;
    assert Mode in original;
    var r := Restored(t, Gnome, m, original);
    assert r.Keys == original.Keys;
    forall k | k in original
      ensures r[k] == original[k]
    {
      assert Echo(t, Gnome, k, original[k]) == original[k];
    }
  }

  lemma KdeRestoreUndoes(t: Tools, m: Store, original: Store)
    requires m.Keys == (set k | k in KDE_KEYS) && WellFormed(t, Kde, original)
    ensures Restored(t, Kde, m, original) == Back(Kde, original)
  {
    assert KDE_KEYS[0] == ProxyType && ProxyType in KDE_KEYS;
    assert ProxyType in original;
    var r := Restored(t, Kde, m, original);
    assert r.Keys == original.Keys;
  }

  /** Restoring a snapshot of a well-formed store puts that store back. */
  lemma RestoreUndoes(t: Tools, b: Backend, m: Store, original: Store)
    requires m.Keys == (set k | k in KeysOf(b)) && WellFormed(t, b, original)
    ensures Restored(t, b, m, original) == Back(b, original)
  {
    if b == Gnome {
      GnomeRestoreUndoes(t, m, original);
    } else {
      KdeRestoreUndoes(t, m, original);
    }
  }

  // ---------- runs ----------

  /** Enables, enables cut short after the marker was written, the other operations, and user
      edits. */
  datatype Event =
    | Enable(settings: ProxySettings)
    | Interrupted(settings: ProxySettings, gnomeWrites: nat, kdeWrites: nat)
    | Disable
    | Release(fallback: Endpoint)
    | Edit(backend: Backend, key: Key, value: string)

  function Min(a: nat, b: nat): nat {
    if a < b then a else b
  }

  function Step(t: Tools, st: State, event: Event): State {
    match event
    case Enable(s) => Enabled(t, st, s)
    case Interrupted(s, gnomeWrites, kdeWrites) =>
      EnabledUpTo(t, st, s, Min(gnomeWrites, |GNOME_KEYS|), Min(kdeWrites, |KDE_KEYS|))
    case Disable => Disabled(t, st)
    case Release(fallback) => Released(t, st, fallback)
    case Edit(b, key, value) =>
      if key !in KeysOf(b) then st
      else if b == Gnome then st.(gnome := st.gnome[key := Echo(t, b, key, value)])
      else st.(kde := st.kde[key := value])
  }

  function After(t: Tools, st: State, events: seq<Event>): State {
    if events == [] then st else Step(t, After(t, st, events[..|events| - 1]), events[|events| - 1])
  }

  predicate IsAttempt(event: Event) {
    event.Enable? || event.Interrupted?
  }

  /** No marker, and no backend in use routes through the endpoint. */
  predicate Untouched(t: Tools, st: State, e: Endpoint) {
    st.marker.None? && !Ours(t, st, Gnome, e) && !Ours(t, st, Kde, e)
  }

  predicate StoresWellFormed(t: Tools, st: State) {
    WellFormed(t, Gnome, st.gnome) && WellFormed(t, Kde, st.kde)
  }

  function OriginalOf(t: Tools, st: State, b: Backend): Store {
    if Available(t, st, b) then StoreOf(st, b) else map[]
  }

  predicate AllAttempts(events: seq<Event>) {
    forall i | 0 <= i < |events| :: IsAttempt(events[i])
  }

  function EndpointOf(event: Event): Endpoint
    requires IsAttempt(event)
  {
    event.settings.endpoint
  }

  /** What every run of attempts keeps: the stores keep their keys, a backend without its tool
      is never written, and the marker holds the original settings of the others. */
  predicate KeepsOriginal(t: Tools, origin: State, st: State, b: Backend) {
    && StoreOf(st, b).Keys == StoreOf(origin, b).Keys
    && (!Available(t, origin, b) ==> StoreOf(st, b) == StoreOf(origin, b))
    && (st == origin || (st.marker.Some? && StoredIn(st.marker.value, b) == OriginalOf(t, origin, b)))
  }

  lemma OriginalNotEmpty(t: Tools, b: Backend, m: Store)
    requires WellFormed(t, b, m)
    ensures m != map[] && (b == Gnome ==> Mode in m) && (b == Kde ==> ProxyType in m)
  {
    assert GNOME_KEYS[0] == Mode && KDE_KEYS[0] == ProxyType;
    assert b == Gnome ==> Mode in KeysOf(b);
    assert b == Kde ==> ProxyType in KeysOf(b);
    assert if b == Gnome then Mode in m else ProxyType in m;
  }

  lemma KeptIsOriginal(t: Tools, origin: State, st: State, b: Backend, e: Endpoint)
    requires WellFormed(t, b, StoreOf(origin, b)) && KeepsOriginal(t, origin, st, b)
    requires st == origin ==> st.marker.None? && !Ours(t, st, b, e)
    ensures Kept(t, st, b, e) == OriginalOf(t, origin, b)
  {
    OriginalNotEmpty(t, b, StoreOf(origin, b));
    TakenIsWhole(t, b, StoreOf(origin, b));
  }

  lemma WrittenKeepsKeys(t: Tools, b: Backend, m: Store, s: ProxySettings, n: nat)
    requires m.Keys == (set k | k in KeysOf(b)) && n <= |KeysOf(b)|
    ensures Written(t, b, m, Writes(b, s), n).Keys == m.Keys
  {
    WritesAreOwnKeys(b, s, m);
    WrittenKeys(t, b, m, Writes(b, s), n);
  }

  function AttemptWrites(event: Event, b: Backend): (n: nat)
    requires IsAttempt(event)
    ensures n <= |KeysOf(b)|
  {
    if event.Enable? then |KeysOf(b)|
    else Min(if b == Gnome then event.gnomeWrites else event.kdeWrites, |KeysOf(b)|)
  }

  /** One attempt, seen from one backend. */
  lemma AttemptStep(t: Tools, origin: State, st: State, event: Event, b: Backend)
    requires WellFormed(t, b, StoreOf(origin, b)) && AnyBackend(t, origin) && IsAttempt(event)
    requires KeepsOriginal(t, origin, st, Gnome) && KeepsOriginal(t, origin, st, Kde)
    requires st == origin ==> Untouched(t, origin, EndpointOf(event))
    ensures KeepsOriginal(t, origin, Step(t, st, event), b)
    ensures MarkerOr(Step(t, st, event)).applied == Some(EndpointOf(event))
    ensures Step(t, st, event).marker.Some?
  {
    assert AnyBackend(t, st);
    KeptIsOriginal(t, origin, st, b, EndpointOf(event));
    WrittenKeepsKeys(t, b, StoreOf(st, b), event.settings, AttemptWrites(event, b));
    var next := EnabledUpTo(t, st, event.settings, AttemptWrites(event, Gnome), AttemptWrites(event, Kde));
    assert Step(t, st, event) == next;
    assert StoreOf(next, b) == if Available(t, st, b)
      then Written(t, b, StoreOf(st, b), Writes(b, event.settings), AttemptWrites(event, b)) else StoreOf(st, b);
  }

  /** Through any attempts the marker keeps the original settings of every backend in use. */
  lemma {:induction false} AttemptsKeepOriginal(t: Tools, st: State, events: seq<Event>)
    requires StoresWellFormed(t, st) && AnyBackend(t, st) && AllAttempts(events)
    requires events != [] ==> Untouched(t, st, EndpointOf(events[0]))
    ensures KeepsOriginal(t, st, After(t, st, events), Gnome) && KeepsOriginal(t, st, After(t, st, events), Kde)
    ensures events != [] ==> After(t, st, events).marker.Some?
    ensures events != [] ==> MarkerOr(After(t, st, events)).applied == Some(EndpointOf(events[|events| - 1]))
    decreases |events|
  {
    if events != [] {
      var front, last := events[..|events| - 1], events[|events| - 1];
      AttemptsKeepOriginal(t, st, front);
      var before := After(t, st, front);
      AttemptStep(t, st, before, last, Gnome);
      AttemptStep(t, st, before, last, Kde);
    }
  }

  lemma EnabledStore(t: Tools, st: State, s: ProxySettings, b: Backend)
    requires Available(t, st, b)
    ensures StoreOf(Enabled(t, st, s), b) == Applied(t, b, StoreOf(st, b), s)
  {
  }

  /** The last enable of a run of attempts, seen from one backend. */
  lemma LastEnable(t: Tools, origin: State, before: State, last: ProxySettings, b: Backend)
    requires Faithful(t) && WellFormed(t, b, StoreOf(origin, b)) && Available(t, origin, b)
    requires KeepsOriginal(t, origin, before, b)
    ensures var m := StoreOf(Enabled(t, before, last), b);
      && m.Keys == StoreOf(origin, b).Keys
      && (PointsAt(m, b, last.endpoint) <==> b == Kde || Recognised(t, last.endpoint))
      && (b == Gnome ==> Lookup(m, Mode) == Some(MANUAL_TEXT))
      && Restored(t, b, m, StoreOf(origin, b)) == Back(b, StoreOf(origin, b))
  {
    AppliedPoints(t, b, StoreOf(before, b), last);
    WrittenKeepsKeys(t, b, StoreOf(before, b), last, |KeysOf(b)|);
    RestoreUndoes(t, b, Applied(t, b, StoreOf(before, b), last), StoreOf(origin, b));
    assert Available(t, before, b);
    EnabledStore(t, before, last, b);
  }

  /** After any attempts ending in a whole enable, a release under any fallback puts the whole
      desktop back and removes the marker, provided GNOME recognises the last host. If it does
      not, the release leaves GNOME in manual mode with our values, and without KDE the marker
      stays too. */
  lemma ReleaseRestores(t: Tools, st: State, attempts: seq<Event>, last: ProxySettings, fallback: Endpoint)
    requires Faithful(t) && StoresWellFormed(t, st) && AnyBackend(t, st)
    requires AllAttempts(attempts)
    requires Untouched(t, st, if attempts == [] then last.endpoint else EndpointOf(attempts[0]))
    ensures var applied := After(t, st, attempts + [Enable(last)]);
      var released := Released(t, applied, fallback);
      && released.kde == (if t.kde then Back(Kde, st.kde) else st.kde)
      && (Recognised(t, last.endpoint) || !t.gsettings ==>
            Acts(t, applied, fallback) && released.gnome == st.gnome && released.marker == None)
      && (!Recognised(t, last.endpoint) && t.gsettings ==>
            && released.gnome == applied.gnome && Lookup(released.gnome, Mode) == Some(MANUAL_TEXT)
            && (Acts(t, applied, fallback) <==> t.kde) && (released.marker.None? <==> t.kde))
  {
    var events := attempts + [Enable(last)];
    assert events[..|events| - 1] == attempts;
    AttemptsKeepOriginal(t, st, attempts);
    AttemptsKeepOriginal(t, st, events);
    var before, applied := After(t, st, attempts), After(t, st, events);
    assert applied == Enabled(t, before, last);
    OriginalNotEmpty(t, Gnome, st.gnome);
    if t.gsettings {
      LastEnable(t, st, before, last, Gnome);
    }
    if t.kde {
      LastEnable(t, st, before, last, Kde);
    }
    assert Recorded(applied, fallback) == last.endpoint;
    assert applied.marker.value.gnome == OriginalOf(t, st, Gnome);
    assert applied.marker.value.kde == OriginalOf(t, st, Kde);
    assert Ours(t, applied, Gnome, last.endpoint) <==> t.gsettings && Recognised(t, last.endpoint);
    assert Ours(t, applied, Kde, last.endpoint) <==> t.kde;
  }

  /** The marker holds the original settings of a backend in use, whose store has its keys. */
  predicate HoldsOriginal(t: Tools, origin: State, st: State, b: Backend) {
    && StoreOf(st, b).Keys == StoreOf(origin, b).Keys
    && st.marker.Some? && StoredIn(st.marker.value, b) == OriginalOf(t, origin, b)
  }

  /** Neither a further attempt nor a user edit replaces what the marker holds. */
  lemma HoldsOriginalStep(t: Tools, origin: State, st: State, event: Event, b: Backend)
    requires WellFormed(t, b, StoreOf(origin, b)) && (IsAttempt(event) || event.Edit?)
    requires HoldsOriginal(t, origin, st, b)
    ensures HoldsOriginal(t, origin, Step(t, st, event), b)
  {
    OriginalNotEmpty(t, b, StoreOf(origin, b));
    if IsAttempt(event) {
      WrittenKeepsKeys(t, b, StoreOf(st, b), event.settings, AttemptWrites(event, b));
      AttemptShape(t, st, event, b);
    }
  }

  lemma {:induction false} OriginalIsHeld(t: Tools, st: State, events: seq<Event>, b: Backend)
    requires StoresWellFormed(t, st) && AnyBackend(t, st) && events != []
    requires IsAttempt(events[0]) && Untouched(t, st, EndpointOf(events[0]))
    requires forall i | 0 <= i < |events| :: IsAttempt(events[i]) || events[i].Edit?
    ensures HoldsOriginal(t, st, After(t, st, events), b)
    decreases |events|
  {
    var front, last := events[..|events| - 1], events[|events| - 1];
    if front == [] {
      AttemptStep(t, st, st, last, b);
      KeptIsOriginal(t, st, st, b, EndpointOf(last));
      AttemptShape(t, st, last, b);
    } else {
      OriginalIsHeld(t, st, front, b);
      HoldsOriginalStep(t, st, After(t, st, front), last, b);
    }
  }

  /** From the first attempt on, through any further attempts, whole or interrupted, at any
      endpoints, and any edits in between, a disable puts every backend in use back as it was
      before the first attempt, leaves the others alone and removes the marker; no endpoint
      needs to be recognised for this. */
  lemma DisableRestores(t: Tools, st: State, events: seq<Event>)
    requires StoresWellFormed(t, st) && AnyBackend(t, st) && events != []
    requires IsAttempt(events[0]) && Untouched(t, st, EndpointOf(events[0]))
    requires forall i | 0 <= i < |events| :: IsAttempt(events[i]) || events[i].Edit?
    ensures var before := After(t, st, events);
      && Disabled(t, before).marker == None
      && (forall b :: StoreOf(Disabled(t, before), b)
            == if Available(t, st, b) then Back(b, StoreOf(st, b)) else StoreOf(before, b))
      && (AllAttempts(events) ==>
            Disabled(t, before) == State(st.gnome, if t.kde then Back(Kde, st.kde) else st.kde, None))
  {
    var before := After(t, st, events);
    forall b
      ensures Available(t, before, b) <==> Available(t, st, b)
      ensures StoreOf(Disabled(t, before), b) == if Available(t, st, b) then Back(b, StoreOf(st, b)) else StoreOf(before, b)
    {
      OriginalIsHeld(t, st, events, b);
      OriginalIsHeld(t, st, events, Gnome);
      if Available(t, st, b) {
        RestoreUndoes(t, b, StoreOf(before, b), StoreOf(st, b));
      }
    }
    assert Available(t, before, Gnome) <==> Available(t, st, Gnome);
    assert StoreOf(Disabled(t, before), Gnome) == Disabled(t, before).gnome;
    assert StoreOf(Disabled(t, before), Kde) == Disabled(t, before).kde;
    if AllAttempts(events) {
      AttemptsKeepOriginal(t, st, events);
    }
  }

  /** Without its tool a backend is never written, nor is GNOME without the key that switches it. */
  lemma AbsentIsLeftAlone(t: Tools, st: State, event: Event)
    requires !event.Edit?
    ensures !t.gsettings || Mode !in st.gnome ==> Step(t, st, event).gnome == st.gnome
    ensures !t.kde ==> Step(t, st, event).kde == st.kde
    ensures (!t.gsettings || Mode !in st.gnome) && !t.kde ==> Step(t, st, event) == st
  {
  }

  /** The text a backend's tool reads back for a switched-off proxy. */
  function OffText(b: Backend): string {
    if b == Gnome then NONE_TEXT else KDE_OFF
  }

  /** With nothing stored, a disable switches each backend in use off and changes no other key. */
  lemma DisableSwitchesOff(t: Tools, st: State, b: Backend, key: Key)
    requires Faithful(t) && StoredIn(MarkerOr(st), b) == map[]
    ensures Lookup(StoreOf(Disabled(t, st), b), key)
         == if Available(t, st, b) && key == SwitchKey(b) then Some(OffText(b)) else Lookup(StoreOf(st, b), key)
    ensures Disabled(t, st).marker == if AnyBackend(t, st) then None else st.marker
  {
  }

  /** A marker that records no endpoint is released by comparing with the fallback, and a
      recorded endpoint makes the fallback irrelevant. */
  lemma FallbackCounts(t: Tools, st: State, fallback: Endpoint)
    requires st.marker.Some?
    ensures st.marker.value.applied.None? ==>
      (Acts(t, st, fallback) <==>
         || (Available(t, st, Gnome) && PointsAt(st.gnome, Gnome, fallback))
         || (Available(t, st, Kde) && PointsAt(st.kde, Kde, fallback)))
    ensures st.marker.value.applied.Some? ==> forall other :: Released(t, st, fallback) == Released(t, st, other)
  {
    assert Ours(t, st, Gnome, Recorded(st, fallback)) || Ours(t, st, Kde, Recorded(st, fallback))
       <==> exists b :: Ours(t, st, b, Recorded(st, fallback)) by {
      if b :| Ours(t, st, b, Recorded(st, fallback)) {
        assert b == Gnome || b == Kde;
      }
    }
    forall other | st.marker.value.applied.Some?
      ensures Released(t, st, fallback) == Released(t, st, other)
    {
      assert Recorded(st, fallback) == Recorded(st, other);
    }
  }

  // ---------- which hosts GNOME recognises ----------

  predicate Printable(s: string) {
    forall i | 0 <= i < |s| :: ' ' <= s[i] && s[i] != 0x7F as char
  }

  /** Backslashes before the quote and before backslashes. */
  function EscapeFor(quote: char, s: string): string {
    if s == [] then ""
    else (if s[0] == quote || s[0] == '\\' then ['\\', s[0]] else [s[0]]) + EscapeFor(quote, s[1..])
  }

  /** What `gsettings get` prints for a string of printable characters: in single quotes, or in
      double quotes when it holds a single quote. */
  function PrintedString(s: string): string {
    var quote := if '\'' in s then '"' else '\'';
    [quote] + EscapeFor(quote, s) + [quote]
  }

  lemma {:induction false} EscapesAgree(s: string)
    ensures EscapeFor('\'', s) == EscapeQuotes(s)
  {
    if s != [] {
      EscapesAgree(s[1..]);
    }
  }

  /** The printed text is the expected one exactly for strings without a single quote. */
  lemma PrintedAsExpected(s: string)
    ensures PrintedString(s) == GVariantString(s) <==> '\'' !in s
  {
    EscapesAgree(s);
    assert GVariantString(s)[0] == '\'';
  }

  /** A host that the tool stores as it is given is recognised exactly if it has no single quote. */
  lemma RecognisedExactly(t: Tools, e: Endpoint)
    requires Printable(e.host) && t.echo(Host(Http), e.host) == PrintedString(e.host)
    ensures Recognised(t, e) <==> '\'' !in e.host
  {
    PrintedAsExpected(e.host);
  }

  /** An endpoint whose host has a single quote is enabled and never taken back: the release
      leaves GNOME in manual mode as the enable left it, and without KDE does nothing at all. */
  lemma QuotedHostStaysManual(t: Tools, st: State, s: ProxySettings, fallback: Endpoint)
    requires Faithful(t) && StoresWellFormed(t, st) && t.gsettings && Untouched(t, st, s.endpoint)
    requires Printable(s.endpoint.host) && '\'' in s.endpoint.host
    requires t.echo(Host(Http), s.endpoint.host) == PrintedString(s.endpoint.host)
    ensures var enabled := Enabled(t, st, s);
      var released := Released(t, enabled, fallback);
      && Lookup(released.gnome, Mode) == Some(MANUAL_TEXT) && released.gnome == enabled.gnome
      && (!t.kde ==> !Acts(t, enabled, fallback) && released == enabled && enabled.marker.Some?)
  {
    RecognisedExactly(t, s.endpoint);
    GnomeIsInUse(t, st);
    OneEnable(t, st, s);
    ReleaseRestores(t, st, [], s, fallback);
  }

  lemma GnomeIsInUse(t: Tools, st: State)
    requires StoresWellFormed(t, st) && t.gsettings
    ensures AnyBackend(t, st)
  {
    OriginalNotEmpty(t, Gnome, st.gnome);
  }

  lemma OneEnable(t: Tools, st: State, s: ProxySettings)
    ensures After(t, st, [] + [Enable(s)]) == Enabled(t, st, s)
  {
    var events := [] + [Enable(s)];
    assert events[..|events| - 1] == [];
  }

  /** Tools that store what they are given, a text in quotes being a string already. */
  function PlainTools(): Tools {
    Tools(true, false, (key: Key, value: string) =>
      if key.Port? || key.IgnoreHosts? || (value != "" && (value[0] == '\'' || value[0] == '"')) then value
      else PrintedString(value))
  }

  lemma {:induction false} NothingToEscape(quote: char, s: string)
    requires quote !in s && '\\' !in s
    ensures EscapeFor(quote, s) == s
  {
    if s != [] {
      NothingToEscape(quote, s[1..]);
      assert [s[0]] + s[1..] == s;
    }
  }

  lemma PlainEchoStays(key: Key, value: string)
    ensures PlainTools().echo(key, PlainTools().echo(key, value)) == PlainTools().echo(key, value)
  {
    assert PrintedString(value)[0] == if '\'' in value then '"' else '\'';
  }

  lemma PlainWord(word: string)
    requires word != "" && '\'' !in word && '"' !in word && '\\' !in word
    ensures PlainTools().echo(Mode, word) == ['\''] + word + ['\'']
  {
    NothingToEscape('\'', word);
  }

  lemma PlainModes()
    ensures PlainTools().echo(Mode, MANUAL) == MANUAL_TEXT && PlainTools().echo(Mode, NONE) == NONE_TEXT
  {
    PlainWord(MANUAL);
    PlainWord(NONE);
    assert ['\''] + MANUAL + ['\''] == MANUAL_TEXT;
    assert ['\''] + NONE + ['\''] == NONE_TEXT;
  }

  lemma PlainToolsAreFaithful()
    ensures Faithful(PlainTools())
  {
    var t := PlainTools();
    PlainModes();
    forall key, value
      ensures t.echo(key, t.echo(key, value)) == t.echo(key, value)
    {
      PlainEchoStays(key, value);
    }
  }

  const QUOTED_HOST := "o'brien"

  lemma QuotedHostPrints()
    ensures Printable(QUOTED_HOST) && '\'' in QUOTED_HOST
    ensures PlainTools().echo(Host(Http), QUOTED_HOST) == PrintedString(QUOTED_HOST)
  {
    assert QUOTED_HOST[0] == 'o' && QUOTED_HOST[1] == '\'';
  }

  /** Such tools and such a host: enabled once, GNOME stays in manual mode. */
  lemma QuotedHostExample(st: State, fallback: Endpoint)
    requires StoresWellFormed(PlainTools(), st) && Untouched(PlainTools(), st, Endpoint(QUOTED_HOST, 7897))
    ensures var s := ProxySettings(Endpoint(QUOTED_HOST, 7897), []);
      && Released(PlainTools(), Enabled(PlainTools(), st, s), fallback) == Enabled(PlainTools(), st, s)
      && Lookup(Enabled(PlainTools(), st, s).gnome, Mode) == Some(MANUAL_TEXT)
  {
    PlainToolsAreFaithful();
    QuotedHostPrints();
    QuotedHostStaysManual(PlainTools(), st, ProxySettings(Endpoint(QUOTED_HOST, 7897), []), fallback);
  }

  // ---------- the snapshot over all runs ----------

  /** While the marker exists, a backend's stored snapshot does not change. */
  lemma {:induction false} StoredStays(t: Tools, st: State, events: seq<Event>, b: Backend)
    requires forall n | 0 <= n <= |events| :: After(t, st, events[..n]).marker.Some?
    requires StoredIn(MarkerOr(st), b) != map[]
    ensures StoredIn(MarkerOr(After(t, st, events)), b) == StoredIn(MarkerOr(st), b)
    decreases |events|
  {
    assert events[..|events|] == events;
    if events != [] {
      var front := events[..|events| - 1];
      forall n | 0 <= n <= |front|
        ensures After(t, st, front[..n]).marker.Some?
      {
        assert front[..n] == events[..n];
      }
      StoredStays(t, st, front, b);
    }
  }

  /** Event `i` of the run is the attempt that took the snapshot of `b` the marker holds now:
      the backend then pointed neither at the endpoint being applied nor at the one applied
      last, and the marker has kept that snapshot ever since. */
  ghost predicate TakenBy(t: Tools, st: State, events: seq<Event>, b: Backend, i: nat)
    requires i < |events|
  {
    var before := After(t, st, events[..i]);
    && IsAttempt(events[i]) && Available(t, before, b)
    && !PointsAt(StoreOf(before, b), b, events[i].settings.endpoint) && !PointsAtLast(before, b)
    && forall n | i < n <= |events| :: HoldsStored(t, st, events, n, b, Taken(StoreOf(before, b), b))
  }

  predicate HoldsStored(t: Tools, st: State, events: seq<Event>, n: nat, b: Backend, stored: Store)
    requires n <= |events|
  {
    After(t, st, events[..n]).marker.Some? && StoredIn(MarkerOr(After(t, st, events[..n])), b) == stored
  }

  lemma HoldsLonger(t: Tools, st: State, events: seq<Event>, n: nat, b: Backend, stored: Store)
    requires n < |events| && HoldsStored(t, st, events[..|events| - 1], n, b, stored)
    ensures HoldsStored(t, st, events, n, b, stored)
  {
    assert events[..|events| - 1][..n] == events[..n];
  }

  /** The event takes the snapshot of `b`, away from our own endpoints. */
  predicate Takes(t: Tools, st: State, event: Event, b: Backend) {
    && IsAttempt(event) && Available(t, st, b)
    && !PointsAt(StoreOf(st, b), b, EndpointOf(event)) && !PointsAtLast(st, b)
    && StoredIn(MarkerOr(Step(t, st, event)), b) == Taken(StoreOf(st, b), b)
  }

  /** One event either keeps a stored snapshot or takes it in an attempt. */
  lemma StoredStep(t: Tools, st: State, event: Event, b: Backend)
    requires StoredIn(MarkerOr(Step(t, st, event)), b) != map[]
    ensures Step(t, st, event).marker.Some?
    ensures StoredIn(MarkerOr(st), b) == map[] ==> Takes(t, st, event, b)
    ensures StoredIn(MarkerOr(st), b) != map[] ==> StoredIn(MarkerOr(Step(t, st, event)), b) == StoredIn(MarkerOr(st), b)
  {
  }

  /** The last event of a run is the one that took the snapshot. */
  lemma TakenNow(t: Tools, st: State, events: seq<Event>, b: Backend)
    requires events != []
    requires Takes(t, After(t, st, events[..|events| - 1]), events[|events| - 1], b)
    requires After(t, st, events).marker.Some?
    ensures TakenBy(t, st, events, b, |events| - 1)
  {
    assert events[..|events|] == events;
  }

  /** The run so far plus one more event that keeps the snapshot. */
  lemma TakenByLonger(t: Tools, st: State, events: seq<Event>, b: Backend, i: nat)
    requires events != [] && i < |events| - 1 && TakenBy(t, st, events[..|events| - 1], b, i)
    requires HoldsStored(t, st, events, |events|, b, StoredIn(MarkerOr(After(t, st, events[..|events| - 1])), b))
    ensures TakenBy(t, st, events, b, i)
  {
    var front := events[..|events| - 1];
    assert front[..i] == events[..i] && front[..|front|] == front;
    var stored := Taken(StoreOf(After(t, st, events[..i]), b), b);
    assert HoldsStored(t, st, front, |front|, b, stored);
    forall n | i < n <= |events|
      ensures HoldsStored(t, st, events, n, b, stored)
    {
      if n < |events| {
        HoldsLonger(t, st, events, n, b, stored);
      }
    }
  }

  /** Every stored snapshot in every run has such an origin. */
  lemma {:induction false} Provenance(t: Tools, st: State, events: seq<Event>, b: Backend) returns (i: nat)
    requires st.marker.None? && events != []
    requires StoredIn(MarkerOr(After(t, st, events)), b) != map[]
    ensures i < |events| && TakenBy(t, st, events, b, i)
    decreases |events|
  {
    var front, last := events[..|events| - 1], events[|events| - 1];
    StoredStep(t, After(t, st, front), last, b);
    if StoredIn(MarkerOr(After(t, st, front)), b) == map[] {
      i := |front|;
      TakenNow(t, st, events, b);
    } else {
      i := Provenance(t, st, front, b);
      assert events[..|events|] == events;
      assert HoldsStored(t, st, events, |events|, b, StoredIn(MarkerOr(After(t, st, front)), b));
      TakenByLonger(t, st, events, b, i);
    }
  }

  // ---------- never left pointing at a dead port ----------

  /** A stored snapshot the tool can write back: empty, or the whole of a well-formed store. */
  predicate StoredWellFormed(t: Tools, st: State, b: Backend) {
    StoredIn(MarkerOr(st), b) == map[] || WellFormed(t, b, StoredIn(MarkerOr(st), b))
  }

  /** After a release that acts, a backend points at the recorded endpoint exactly when it did
      before and its stored snapshot does too. */
  lemma ReleasedPointsExactly(t: Tools, st: State, fallback: Endpoint, b: Backend)
    requires Faithful(t) && Acts(t, st, fallback) && StoredWellFormed(t, st, b)
    requires StoreOf(st, b).Keys == (set k | k in KeysOf(b))
    ensures var e := Recorded(st, fallback);
      Ours(t, Released(t, st, fallback), b, e) <==> Ours(t, st, b, e) && PointsAt(StoredIn(MarkerOr(st), b), b, e)
  {
    var stored := StoredIn(MarkerOr(st), b);
    if stored != map[] {
      RestoreUndoes(t, b, StoreOf(st, b), stored);
      assert b == Gnome ==> Mode in stored by { assert GNOME_KEYS[0] == Mode; }
    }
  }

  /** What a run that always applies the same endpoint keeps. */
  predicate NeverStoresOwn(t: Tools, st: State, e: Endpoint) {
    && StoresWellFormed(t, st)
    && (st.marker.Some? ==>
          && st.marker.value.applied == Some(e)
          && (forall b :: StoredWellFormed(t, st, b) && !PointsAt(StoredIn(st.marker.value, b), b, e)))
  }

  /** With one endpoint throughout, whatever the user edits and wherever an enable was cut
      short, after a release that acts no backend points at the endpoint. */
  lemma {:induction false} NeverLeftPointing(t: Tools, st: State, events: seq<Event>, e: Endpoint, fallback: Endpoint)
    requires Faithful(t) && StoresWellFormed(t, st) && st.marker.None?
    requires forall event | event in events && IsAttempt(event) :: event.settings.endpoint == e
    requires Acts(t, After(t, st, events), fallback)
    ensures forall b :: !Ours(t, Released(t, After(t, st, events), fallback), b, e)
  {
    OwnIsNeverStored(t, st, events, e);
    forall b
      ensures !Ours(t, Released(t, After(t, st, events), fallback), b, e)
    {
      ReleasedPointsExactly(t, After(t, st, events), fallback, b);
    }
  }

  /** A run that always applies the same endpoint never stores a snapshot pointing at it. */
  lemma {:induction false} OwnIsNeverStored(t: Tools, st: State, events: seq<Event>, e: Endpoint)
    requires Faithful(t) && StoresWellFormed(t, st) && st.marker.None?
    requires forall event | event in events && IsAttempt(event) :: event.settings.endpoint == e
    ensures NeverStoresOwn(t, After(t, st, events), e)
    decreases |events|
  {
    if events != [] {
      var front, last := events[..|events| - 1], events[|events| - 1];
      OwnIsNeverStored(t, st, front, e);
      OwnStep(t, After(t, st, front), last, e);
    }
  }

  lemma {:induction false} WrittenWellFormed(t: Tools, b: Backend, m: Store, ws: seq<(Key, string)>, n: nat)
    requires Faithful(t) && WellFormed(t, b, m) && n <= |ws|
    requires forall i | 0 <= i < |ws| :: ws[i].0 in m
    ensures WellFormed(t, b, Written(t, b, m, ws, n))
    decreases n
  {
    if n > 0 {
      WrittenWellFormed(t, b, m, ws, n - 1);
      SetWellFormed(t, b, Written(t, b, m, ws, n - 1), ws[n - 1].0, ws[n - 1].1);
    }
  }

  lemma SetWellFormed(t: Tools, b: Backend, m: Store, key: Key, value: string)
    requires Faithful(t) && WellFormed(t, b, m) && key in m
    ensures WellFormed(t, b, m[key := Echo(t, b, key, value)])
  {
  }

  lemma RestoredWellFormed(t: Tools, b: Backend, m: Store, stored: Store)
    requires Faithful(t) && WellFormed(t, b, m)
    requires stored == map[] || WellFormed(t, b, stored)
    ensures WellFormed(t, b, Restored(t, b, m, stored))
  {
    OriginalNotEmpty(t, b, m);
    if stored != map[] {
      RestoreUndoes(t, b, m, stored);
      OriginalNotEmpty(t, b, stored);
    }
  }

  /** One attempt keeps one backend's store and stored snapshot well formed and not our own. */
  lemma OwnAttempt(t: Tools, st: State, event: Event, b: Backend)
    requires Faithful(t) && IsAttempt(event) && NeverStoresOwn(t, st, EndpointOf(event))
    ensures var next := Step(t, st, event);
      && WellFormed(t, b, StoreOf(next, b))
      && (next.marker.Some? ==> StoredWellFormed(t, next, b) && !PointsAt(StoredIn(next.marker.value, b), b, EndpointOf(event)))
  {
    var m, s := StoreOf(st, b), event.settings;
    assert WellFormed(t, b, m);
    WritesAreOwnKeys(b, s, m);
    WrittenWellFormed(t, b, m, Writes(b, s), AttemptWrites(event, b));
    KeptIsNotOwn(t, st, b, s.endpoint);
    AttemptShape(t, st, event, b);
  }

  /** An attempt writes a prefix of its writes, or nothing, and stores what it keeps. */
  lemma AttemptShape(t: Tools, st: State, event: Event, b: Backend)
    requires IsAttempt(event)
    ensures var next := Step(t, st, event);
      && (StoreOf(next, b) == StoreOf(st, b)
          || StoreOf(next, b) == Written(t, b, StoreOf(st, b), Writes(b, event.settings), AttemptWrites(event, b)))
      && (next == st || (next.marker.Some? && StoredIn(next.marker.value, b) == Kept(t, st, b, EndpointOf(event))))
  {
    assert Step(t, st, event)
        == EnabledUpTo(t, st, event.settings, AttemptWrites(event, Gnome), AttemptWrites(event, Kde));
  }

  lemma KeptIsNotOwn(t: Tools, st: State, b: Backend, e: Endpoint)
    requires NeverStoresOwn(t, st, e)
    ensures var kept := Kept(t, st, b, e);
      (kept == map[] || WellFormed(t, b, kept)) && !PointsAt(kept, b, e)
  {
    assert WellFormed(t, b, StoreOf(st, b));
    TakenIsWhole(t, b, StoreOf(st, b));
    if st.marker.Some? {
      assert StoredWellFormed(t, st, b);
    }
  }

  lemma OwnOther(t: Tools, st: State, event: Event, e: Endpoint, b: Backend)
    requires Faithful(t) && !IsAttempt(event) && NeverStoresOwn(t, st, e)
    ensures var next := Step(t, st, event);
      && WellFormed(t, b, StoreOf(next, b))
      && (next.marker.Some? ==> StoredWellFormed(t, next, b) && !PointsAt(StoredIn(next.marker.value, b), b, e))
  {
    var m := StoreOf(st, b);
    assert WellFormed(t, b, m);
    assert st.marker.Some? ==> StoredWellFormed(t, st, b) && !PointsAt(StoredIn(st.marker.value, b), b, e);
    var next := Step(t, st, event);
    if event.Edit? {
      assert next.marker == st.marker;
      EditWellFormed(t, st, event, b);
    } else {
      RestoredWellFormed(t, b, m, StoredIn(MarkerOr(st), b));
      RestoreShape(t, st, event, b);
    }
  }

  /** A disable or release changes nothing, or removes the marker and restores what it touches. */
  lemma RestoreShape(t: Tools, st: State, event: Event, b: Backend)
    requires event.Disable? || event.Release?
    ensures var next := Step(t, st, event);
      && (next == st || next.marker.None?)
      && (StoreOf(next, b) == StoreOf(st, b)
          || StoreOf(next, b) == Restored(t, b, StoreOf(st, b), StoredIn(MarkerOr(st), b)))
  {
  }

  lemma EditWellFormed(t: Tools, st: State, event: Event, b: Backend)
    requires Faithful(t) && event.Edit? && WellFormed(t, b, StoreOf(st, b))
    ensures WellFormed(t, b, StoreOf(Step(t, st, event), b))
  {
    var key := event.key;
    if event.backend == b && key in KeysOf(b) {
      assert key in StoreOf(st, b);
      assert StoreOf(Step(t, st, event), b) == StoreOf(st, b)[key := Echo(t, b, key, event.value)];
    }
  }

  lemma OwnStep(t: Tools, st: State, event: Event, e: Endpoint)
    requires Faithful(t) && NeverStoresOwn(t, st, e)
    requires IsAttempt(event) ==> EndpointOf(event) == e
    ensures NeverStoresOwn(t, Step(t, st, event), e)
  {
    var next := Step(t, st, event);
    forall b
      ensures WellFormed(t, b, StoreOf(next, b))
      ensures next.marker.Some? ==> StoredWellFormed(t, next, b)
      ensures next.marker.Some? ==> !PointsAt(StoredIn(next.marker.value, b), b, e)
    {
      if IsAttempt(event) {
        OwnAttempt(t, st, event, b);
      } else {
        OwnOther(t, st, event, e, b);
      }
    }
    assert WellFormed(t, Gnome, StoreOf(next, Gnome)) && WellFormed(t, Kde, StoreOf(next, Kde));
    assert next.marker.Some? ==> next.marker.value.applied == Some(e);
  }

  /** With two endpoints it can happen: a desktop that already points at the second one is
      snapshotted before the first is applied, and gets that snapshot back. */
  lemma MovedEndpointLeftPointing(t: Tools, st: State, first: ProxySettings, second: ProxySettings, fallback: Endpoint)
    requires Faithful(t) && StoresWellFormed(t, st) && t.kde
    requires Untouched(t, st, first.endpoint) && PointsAt(st.kde, Kde, second.endpoint)
    ensures Ours(t, Released(t, After(t, st, [Enable(first), Enable(second)]), fallback), Kde, second.endpoint)
  {
    assert [Enable(first)] + [Enable(second)] == [Enable(first), Enable(second)];
    OriginalPointsAgain(t, st, [Enable(first)], second, fallback, second.endpoint);
  }

  /** Where KDE pointed before the first attempt it points again after the release. */
  lemma OriginalPointsAgain(t: Tools, st: State, attempts: seq<Event>, last: ProxySettings, fallback: Endpoint, e: Endpoint)
    requires Faithful(t) && StoresWellFormed(t, st) && t.kde && AllAttempts(attempts)
    requires Untouched(t, st, if attempts == [] then last.endpoint else EndpointOf(attempts[0]))
    requires PointsAt(st.kde, Kde, e)
    ensures Ours(t, Released(t, After(t, st, attempts + [Enable(last)]), fallback), Kde, e)
  {
    ReleaseRestores(t, st, attempts, last, fallback);
    PointingComesBack(st.kde, e);
  }

  lemma PointingComesBack(original: Store, e: Endpoint)
    requires PointsAt(original, Kde, e)
    ensures Back(Kde, original) == original
  {
  }
}
