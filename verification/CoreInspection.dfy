/** Selecting and acquiring a managed core, from `mihomo_manager/binary.rs`: the offline
    inspection of every candidate, the installation of a verified payload, and the
    acquisition that ties them together under the install lock. */
module CoreInspection {
  import opened Wrappers
  import opened Text
  import opened CorePolicy
  import opened InstallProtocol

  datatype Kind = Mihomo | SingBox

  const MAX_PAYLOAD := 512 * 1024 * 1024
  const ELF: Bytes := [0x7F as char, 'E', 'L', 'F']

  function TargetSeries(kind: Kind): string {
    if kind == Mihomo then "v1.19" else "v1.14"
  }

  function TargetPatch(kind: Kind): (patch: string)
    ensures patch != "" && |patch| < 3 && '.' !in patch
  {
    if kind == Mihomo then "32" else "2"
  }

  /** The pinned versions v1.19.32 and v1.14.2. */
  function TargetVersion(kind: Kind): string {
    TargetSeries(kind) + "." + TargetPatch(kind)
  }

  function PinnedVersion(kind: Kind): Version {
    Version(1, if kind == Mihomo then 19 else 14, if kind == Mihomo then 32 else 2, [])
  }

  lemma TwoDigits(n: nat)
    requires 10 <= n < 100
    ensures Decimal(n) == [DigitChar(n / 10), DigitChar(n % 10)]
  {
  }

  lemma PinnedText(kind: Kind)
    ensures TargetVersion(kind) == ['v'] + Render(PinnedVersion(kind))
  {
    var minor, patch := PinnedVersion(kind).minor, PinnedVersion(kind).patch;
    var parts := [Decimal(1), Decimal(minor), Decimal(patch)];
    TwoDigits(minor);
    if kind == Mihomo {
      TwoDigits(patch);
    }
    assert Join(parts[1..][1..], '.') == Decimal(patch);
    assert ['v'] + Join(parts, '.') == ['v', '1', '.'] + Decimal(minor) + ['.'] + Decimal(patch);
    assert TargetSeries(kind) == ['v', '1', '.'] + Decimal(minor);
    assert TargetPatch(kind) == Decimal(patch);
  }

  /** The pinned target parses as the pinned version, with or without its `v`, and is usable. */
  lemma PinnedIsUsable(kind: Kind)
    ensures Parse(TargetVersion(kind)) == Parse(TargetVersion(kind)[1..]) == Some(PinnedVersion(kind))
    ensures Usable(TargetVersion(kind), TargetVersion(kind)) && Usable(TargetVersion(kind)[1..], TargetVersion(kind))
  {
    var v := PinnedVersion(kind);
    PinnedText(kind);
    assert TargetVersion(kind)[1..] == Render(v);
    CoreReadsBack(v);
    assert IsTextOf(Render(v), v, "");
    ParseExactly(Render(v), v);
    ParseExactly(TargetVersion(kind), v);
    CompareIsPrecedence(v, v);
  }

  /** The hash, what `Uuid::parse_str` accepts, and the version a file reports when run, which
      depends on its bytes alone. */
  datatype Env = Env(sha: Bytes -> string, isUuid: string -> bool, probe: Bytes -> Option<string>)

  ghost predicate EnvOk(env: Env) {
    Digest(env.sha) && forall s | env.isUuid(s) :: '.' !in s
  }

  // ---------- candidate names ----------

  function ManagedName(kind: Kind): string {
    if kind == Mihomo then "mihomo" else "sing-box"
  }

  /** `versioned_path`. */
  function VersionedName(kind: Kind): string {
    ManagedName(kind) + "-" + TargetVersion(kind)
  }

  const CANDIDATE := "candidate-"

  function SiblingName(kind: Kind, uuid: string): string {
    VersionedName(kind) + "." + (CANDIDATE + uuid)
  }

  predicate IsSibling(env: Env, kind: Kind, name: string) {
    match StripPrefix(name, SiblingName(kind, ""))
    case Some(suffix) => env.isUuid(suffix)
    case None => false
  }

  predicate IsCandidate(env: Env, kind: Kind, name: string) {
    name == VersionedName(kind) || name == ManagedName(kind) || IsSibling(env, kind, name)
  }

  lemma SiblingHasUuid(env: Env, kind: Kind, uuid: string)
    ensures IsSibling(env, kind, SiblingName(kind, uuid)) <==> env.isUuid(uuid)
  {
    var name, prefix := SiblingName(kind, uuid), SiblingName(kind, "");
    assert name == prefix + uuid;
    assert name[|prefix|..] == uuid;
  }

  lemma VersionedIsBinary(kind: Kind)
    ensures BinaryName(VersionedName(kind))
  {
    var front := ManagedName(kind) + "-" + TargetSeries(kind);
    assert VersionedName(kind) == front + "." + TargetPatch(kind);
    ExtensionOf(front, TargetPatch(kind));
    assert |SHA256| == 6;
  }

  lemma SiblingIsBinary(env: Env, kind: Kind, name: string)
    requires EnvOk(env) && IsSibling(env, kind, name)
    ensures BinaryName(name)
  {
    var suffix := name[|SiblingName(kind, "")|..];
    var ext := CANDIDATE + suffix;
    assert name == VersionedName(kind) + "." + ext;
    assert CANDIDATE[0] == 'c' && CANDIDATE[2] == 'n' && '.' !in CANDIDATE && SHA256[0] == 's';
    assert ext[0] == 'c' && ext[2] == 'n' && '.' !in ext;
    ExtensionOf(VersionedName(kind), ext);
    assert !IsHexDigit(ext[2]);
  }

  /** No candidate is named like a receipt. */
  lemma CandidatesAreBinaries(env: Env, kind: Kind, name: string)
    requires EnvOk(env) && IsCandidate(env, kind, name)
    ensures BinaryName(name)
  {
    if name == ManagedName(kind) {
      DotlessExtension(name);
    } else if name == VersionedName(kind) {
      VersionedIsBinary(kind);
    } else {
      SiblingIsBinary(env, kind, name);
    }
  }

  // ---------- the list of candidates ----------

  predicate Before(a: string, b: string) {
    CompareText(a, b) == Less
  }

  predicate Ascending(names: seq<string>) {
    forall i | 0 < i < |names| :: Before(names[i - 1], names[i])
  }

  lemma {:induction false} CompareFlips(a: string, b: string)
    ensures CompareText(a, b) == Greater <==> CompareText(b, a) == Less
    ensures CompareText(a, b) == Equal <==> a == b
    decreases |a|
  {
    if a != "" && b != "" && a[0] == b[0] {
      CompareFlips(a[1..], b[1..]);
      assert a == [a[0]] + a[1..] && b == [b[0]] + b[1..];
    }
  }

  /** Inserting into an ascending list. */
  function Insert(name: string, names: seq<string>): seq<string> {
    if names == [] || Before(name, names[0]) then [name] + names else [names[0]] + Insert(name, names[1..])
  }

  lemma {:induction false} InsertFacts(name: string, names: seq<string>)
    requires Ascending(names) && name !in names
    ensures Ascending(Insert(name, names)) && Insert(name, names) != []
    ensures forall x :: x in Insert(name, names) <==> x == name || x in names
    ensures Insert(name, names)[0] == name || (names != [] && Insert(name, names)[0] == names[0])
    decreases |names|
  {
    if names != [] && !Before(name, names[0]) {
      var rest := names[1..];
      assert forall i | 0 < i < |rest| :: rest[i - 1] == names[i] && rest[i] == names[i + 1];
      assert names == [names[0]] + rest;
      InsertFacts(name, rest);
      CompareFlips(name, names[0]);
      var result := Insert(name, names);
      assert result[1..] == Insert(name, rest);
      forall i | 0 < i < |result|
        ensures Before(result[i - 1], result[i])
      {
        if i > 1 {
          assert Before(result[1..][i - 2], result[1..][i - 1]);
        } else if result[1] != name {
          assert Before(names[0], names[1]);
        }
      }
    }
  }

  /** The sorted siblings that `read_dir` finds. */
  ghost predicate Lists(env: Env, kind: Kind, disk: Disk, siblings: seq<string>) {
    Ascending(siblings) && forall name :: name in siblings <==> Managed(name) in disk && IsSibling(env, kind, name)
  }

  function Places(names: seq<string>): (places: seq<Place>)
    ensures |places| == |names| && forall i | 0 <= i < |names| :: places[i] == Managed(names[i])
  {
    seq(|names|, i requires 0 <= i < |names| => Managed(names[i]))
  }

  function SystemPlaces(paths: seq<string>): (places: seq<Place>)
    ensures |places| == |paths| && forall i | 0 <= i < |paths| :: places[i] == System(paths[i])
  {
    seq(|paths|, i requires 0 <= i < |paths| => System(paths[i]))
  }

  /** System binaries, then the pinned version, its siblings, and the plain managed name. */
  function Candidates(kind: Kind, systems: seq<string>, siblings: seq<string>): seq<Place> {
    SystemPlaces(systems) + Places([VersionedName(kind)] + siblings + [ManagedName(kind)])
  }

  /** `managed_candidates`, with the directory read in any order. */
  method ListSiblings(env: Env, kind: Kind, disk: Disk) returns (siblings: seq<string>)
    ensures Lists(env, kind, disk, siblings)
  {
    siblings := [];
    var todo := disk.Keys;
    while todo != {}
      invariant todo <= disk.Keys && Ascending(siblings)
      invariant forall name :: name in siblings <==> Managed(name) in disk.Keys - todo && IsSibling(env, kind, name)
      decreases |todo|
    {
      var place :| place in todo;
      todo := todo - {place};
      if place.Managed? && IsSibling(env, kind, place.name) {
        InsertFacts(place.name, siblings);
        siblings := Insert(place.name, siblings);
      }
    }
  }

  // ---------- inspection ----------

  datatype Finding = Missing | Fit(version: string) | Older(version: string) | Refused(version: string) | Broken

  predicate IsElf(bytes: Bytes) {
    ELF <= bytes
  }

  /** What the loop body finds out about a file; a managed one must be trusted by its receipt. */
  function ExamineFile(env: Env, kind: Kind, file: File, trusted: bool): Finding {
    if !file.executable then Broken
    else if !trusted then Broken
    else if !IsElf(file.bytes) then Broken
    else match env.probe(file.bytes)
      case None => Broken
      case Some(version) => Judge(version, TargetVersion(kind))
  }

  /** What the loop body finds out about one candidate. */
  function Examine(env: Env, kind: Kind, disk: Disk, place: Place): Finding {
    if place !in disk then Missing
    else ExamineFile(env, kind, disk[place], place.Managed? ==> Verified(env.sha, disk, place.name))
  }

  function Judge(version: string, target: string): Finding {
    match Classify(version, target)
    case None => Broken
    case Some(policy) =>
      if IsUsable(policy) then Fit(version) else if policy == OlderThanPinned then Older(version) else Refused(version)
  }

  datatype Source = FromSystem | Cached | Downloaded | Absent

  datatype Prepared = Prepared(place: Place, source: Source, version: string)

  datatype Inspection =
    | Ready(prepared: Prepared)
    | NeedsUpdate(observed: Option<string>, source: Source, required: string, destination: string)
    | Review(places: seq<Place>)

  function SourceOf(place: Place): Source {
    if place.System? then FromSystem else Cached
  }

  function Findings(env: Env, kind: Kind, disk: Disk, places: seq<Place>): (found: seq<Finding>)
    ensures |found| == |places| && forall i | 0 <= i < |places| :: found[i] == Examine(env, kind, disk, places[i])
  {
    seq(|places|, i requires 0 <= i < |places| => Examine(env, kind, disk, places[i]))
  }

  /** The refused ones among the first `n` candidates, in order. */
  function RefusedOf(places: seq<Place>, found: seq<Finding>, n: nat): seq<Place>
    requires n <= |places| == |found|
  {
    if n == 0 then []
    else RefusedOf(places, found, n - 1) + if found[n - 1].Refused? then [places[n - 1]] else []
  }

  predicate FirstFit(found: seq<Finding>, i: int) {
    0 <= i < |found| && found[i].Fit? && forall j | 0 <= j < i :: !found[j].Fit?
  }

  predicate FirstOlder(found: seq<Finding>, i: int) {
    0 <= i < |found| && found[i].Older? && forall j | 0 <= j < i :: !found[j].Older?
  }

  predicate NoneFits(found: seq<Finding>) {
    forall i | 0 <= i < |found| :: !found[i].Fit?
  }

  predicate NoneRefused(found: seq<Finding>) {
    forall i | 0 <= i < |found| :: !found[i].Refused?
  }

  predicate NoneOlder(found: seq<Finding>) {
    forall i | 0 <= i < |found| :: !found[i].Older?
  }

  ghost predicate PreparedAt(places: seq<Place>, found: seq<Finding>, prepared: Prepared, i: int)
    requires |places| == |found|
  {
    FirstFit(found, i) && prepared == Prepared(places[i], SourceOf(places[i]), found[i].version)
  }

  ghost predicate ObservedAt(places: seq<Place>, found: seq<Finding>, version: string, source: Source, i: int)
    requires |places| == |found|
  {
    FirstOlder(found, i) && version == found[i].version && source == SourceOf(places[i])
  }

  /** Any refused candidate wins; otherwise the first that fits; otherwise the first older one
      is reported and an update asked for. */
  ghost predicate Selects(kind: Kind, places: seq<Place>, found: seq<Finding>, r: Inspection)
    requires |places| == |found|
  {
    match r
    case Review(refused) => refused != [] && refused == RefusedOf(places, found, |places|)
    case Ready(prepared) => NoneRefused(found) && exists i :: PreparedAt(places, found, prepared, i)
    case NeedsUpdate(observed, source, required, destination) =>
      && NoneFits(found) && NoneRefused(found)
      && required == TargetVersion(kind) && destination == VersionedName(kind)
      && (observed.None? ==> source == Absent && NoneOlder(found))
      && (observed.Some? ==> exists i :: ObservedAt(places, found, observed.value, source, i))
  }

  ghost predicate Inspects(env: Env, kind: Kind, disk: Disk, systems: seq<string>, r: Inspection) {
    exists siblings :: InspectsWith(env, kind, disk, systems, siblings, r)
  }

  ghost predicate InspectsWith(env: Env, kind: Kind, disk: Disk, systems: seq<string>, siblings: seq<string>, r: Inspection) {
    var places := Candidates(kind, systems, siblings);
    Lists(env, kind, disk, siblings) && Selects(kind, places, Findings(env, kind, disk, places), r)
  }

  lemma {:induction false} RefusedExactly(places: seq<Place>, found: seq<Finding>, n: nat)
    requires n <= |places| == |found|
    ensures RefusedOf(places, found, n) == [] <==> forall i | 0 <= i < n :: !found[i].Refused?
  {
    if n > 0 {
      RefusedExactly(places, found, n - 1);
    }
  }

  /** `inspect_candidates`. */
  method InspectCandidates(env: Env, kind: Kind, disk: Disk, systems: seq<string>) returns (r: Inspection)
    ensures Inspects(env, kind, disk, systems, r)
  {
    var siblings := ListSiblings(env, kind, disk);
    var places := Candidates(kind, systems, siblings);
    r := InspectPlaces(kind, places, place => Examine(env, kind, disk, place), Findings(env, kind, disk, places));
    assert InspectsWith(env, kind, disk, systems, siblings, r);
  }

  /** The loop over the candidates, for any examination of one candidate. */
  method InspectPlaces(kind: Kind, places: seq<Place>, examine: Place -> Finding, ghost found: seq<Finding>)
    returns (r: Inspection)
    requires |found| == |places| && forall i | 0 <= i < |places| :: found[i] == examine(places[i])
    ensures Selects(kind, places, found, r)
  {
    var ready: Option<Prepared>, observed: Option<string>, source := None, None, Absent;
    var reviews: seq<Place> := [];
    ghost var fit, older := 0, 0;
    for i := 0 to |places|
      invariant reviews == RefusedOf(places, found, i)
      invariant ready.None? ==> forall j | 0 <= j < i :: !found[j].Fit?
      invariant ready.Some? ==> PreparedAt(places, found, ready.value, fit)
      invariant observed.None? ==> source == Absent && forall j | 0 <= j < i :: !found[j].Older?
      invariant observed.Some? ==> ObservedAt(places, found, observed.value, source, older)
    {
      var finding := examine(places[i]);
      assert finding == found[i];
      match finding {
        case Fit(version) =>
          if ready.None? {
            ready, fit := Some(Prepared(places[i], SourceOf(places[i]), version)), i;
          }
        case Older(version) =>
          if observed.None? {
            observed, source, older := Some(version), SourceOf(places[i]), i;
          }
        case Refused(_) => reviews := reviews + [places[i]];
        case _ =>
      }
    }
    RefusedExactly(places, found, |places|);
    if reviews != [] {
      r := Review(reviews);
    } else if ready.Some? {
      r := Ready(ready.value);
    } else {
      r := NeedsUpdate(observed, source, TargetVersion(kind), VersionedName(kind));
    }
  }

  /** Whatever an inspection offers is an executable on disk with a compatible version, and a
      managed one carries its receipt. */
  lemma PreparedIsSound(env: Env, kind: Kind, disk: Disk, systems: seq<string>, prepared: Prepared)
    requires Inspects(env, kind, disk, systems, Ready(prepared))
    ensures prepared.place in disk && disk[prepared.place].executable && IsElf(disk[prepared.place].bytes)
    ensures prepared.place.Managed? ==> Verified(env.sha, disk, prepared.place.name)
    ensures env.probe(disk[prepared.place].bytes) == Some(prepared.version)
    ensures Usable(prepared.version, TargetVersion(kind))
    ensures Digest(env.sha) ==> Reports(env, disk, prepared.place, prepared.version)
  {
    var siblings :| InspectsWith(env, kind, disk, systems, siblings, Ready(prepared));
    var places := Candidates(kind, systems, siblings);
    var i :| PreparedAt(places, Findings(env, kind, disk, places), prepared, i);
    assert Examine(env, kind, disk, places[i]) == Fit(prepared.version);
    if Digest(env.sha) {
      FindingExactly(env, kind, disk, places[i], prepared.version);
    }
  }

  /** The file at a place is an executable that reports this version and, in the managed
      directory, has receipts that name its digest. */
  ghost predicate Reports(env: Env, disk: Disk, place: Place, version: string) {
    && place in disk && disk[place].executable && IsElf(disk[place].bytes)
    && env.probe(disk[place].bytes) == Some(version)
    && (place.Managed? ==>
          var digest := env.sha(disk[place].bytes);
          ReceiptsName(digest, Lookup(disk, Managed(ReceiptName(place.name, digest))), Lookup(disk, Managed(LegacyName(place.name)))))
  }

  /** What an inspection finds out about a candidate: it fits as a release of the pinned major
      from the pin on, is older as one before the pin, and is refused as a prerelease or a
      release of another major. */
  lemma FindingExactly(env: Env, kind: Kind, disk: Disk, place: Place, version: string)
    requires Digest(env.sha)
    ensures Examine(env, kind, disk, place) == Missing <==> place !in disk
    ensures Examine(env, kind, disk, place) == Fit(version)
      <==> && Reports(env, disk, place, version) && Parse(version).Some?
           && var v := Parse(version).value;
              v.prerelease == [] && v.major == 1 && !Precedes(v, PinnedVersion(kind))
    ensures Examine(env, kind, disk, place) == Older(version)
      <==> && Reports(env, disk, place, version) && Parse(version).Some?
           && var v := Parse(version).value;
              v.prerelease == [] && v.major == 1 && Precedes(v, PinnedVersion(kind))
    ensures Examine(env, kind, disk, place) == Refused(version)
      <==> && Reports(env, disk, place, version) && Parse(version).Some?
           && var v := Parse(version).value;
              v.prerelease != [] || v.major != 1
  {
    ExamineExactly(env, kind, disk, place, version);
    JudgeExactly(kind, version);
  }

  predicate Decides(finding: Finding) {
    finding.Fit? || finding.Older? || finding.Refused?
  }

  lemma JudgeNames(version: string, target: string)
    ensures !Judge(version, target).Missing?
    ensures Decides(Judge(version, target)) ==> Judge(version, target).version == version
  {
  }

  lemma ExaminedFile(env: Env, kind: Kind, file: File, trusted: bool, version: string)
    ensures var (finding, reports) := (ExamineFile(env, kind, file, trusted),
        file.executable && IsElf(file.bytes) && env.probe(file.bytes) == Some(version) && trusted);
      && !finding.Missing?
      && (reports ==> finding == Judge(version, TargetVersion(kind)))
      && (!reports && Decides(finding) ==> finding.version != version)
  {
    if env.probe(file.bytes).Some? {
      JudgeNames(env.probe(file.bytes).value, TargetVersion(kind));
    }
  }

  /** A file that reports a version is judged by it. */
  lemma ExamineExactly(env: Env, kind: Kind, disk: Disk, place: Place, version: string)
    requires Digest(env.sha)
    ensures var finding := Examine(env, kind, disk, place);
      && (finding == Missing <==> place !in disk)
      && (Reports(env, disk, place, version) ==> finding == Judge(version, TargetVersion(kind)))
      && (!Reports(env, disk, place, version) && Decides(finding) ==> finding.version != version)
  {
    if place in disk {
      ExaminedFile(env, kind, disk[place], place.Managed? ==> Verified(env.sha, disk, place.name), version);
      if place.Managed? {
        VerifiedExactly(env.sha, disk, place.name);
      }
    }
  }

  lemma JudgeExactly(kind: Kind, version: string)
    ensures Judge(version, TargetVersion(kind)) == match Parse(version)
      case None => Broken
      case Some(v) =>
        if v.prerelease != [] || v.major != 1 then Refused(version)
        else if Precedes(v, PinnedVersion(kind)) then Older(version) else Fit(version)
  {
    PinnedIsUsable(kind);
    if Parse(version).Some? {
      CompareIsPrecedence(Parse(version).value, PinnedVersion(kind));
    }
  }

  /** A managed binary without receipts, or with another file's receipt text in their places, is
      never offered. */
  lemma UnreceiptedIsNeverOffered(env: Env, kind: Kind, disk: Disk, systems: seq<string>, name: string, other: Bytes, prepared: Prepared)
    requires Digest(env.sha) && Managed(name) in disk
    requires var digest := env.sha(disk[Managed(name)].bytes);
      && env.sha(other) != digest
      && OtherText(env.sha, other, Lookup(disk, Managed(ReceiptName(name, digest))))
      && OtherText(env.sha, other, Lookup(disk, Managed(LegacyName(name))))
    ensures Inspects(env, kind, disk, systems, Ready(prepared)) ==> prepared.place != Managed(name)
  {
    var digest := env.sha(disk[Managed(name)].bytes);
    OtherReceipts(env.sha, digest, other, Lookup(disk, Managed(ReceiptName(name, digest))), Lookup(disk, Managed(LegacyName(name))));
    if Inspects(env, kind, disk, systems, Ready(prepared)) {
      PreparedIsSound(env, kind, disk, systems, prepared);
    }
  }

  /** The receipt is absent, or holds another file's text. */
  predicate OtherText(sha: Bytes -> string, other: Bytes, receipt: Option<File>) {
    receipt.Some? ==> receipt.value.bytes == ReceiptText(sha, other)
  }

  lemma OtherReceipts(sha: Bytes -> string, digest: string, other: Bytes, receipt: Option<File>, legacy: Option<File>)
    requires Digest(sha) && sha(other) != digest && OtherText(sha, other, receipt) && OtherText(sha, other, legacy)
    ensures !ReceiptsName(digest, receipt, legacy)
  {
    ReceiptTextIsTrimmed(sha, other);
    OtherDigits(sha(other), digest);
    assert (PREFIX + sha(other))[|PREFIX|..] == sha(other);
    assert forall hex :: (PREFIX + hex)[|PREFIX|..] == hex;
    assert PREFIX == "sha256:";
  }

  /** Two lower-case digests have the same digits only if they are equal. */
  lemma OtherDigits(hex: string, digest: string)
    requires HexText(hex) && Lower(hex) == hex && hex != digest
    ensures !SameDigits(hex, digest)
  {
    assert forall i | 0 <= i < |hex| :: Lower(hex)[i] == hex[i];
  }

  // ---------- when it offers one ----------

  lemma CandidatesExactly(kind: Kind, systems: seq<string>, siblings: seq<string>, place: Place)
    ensures place in Candidates(kind, systems, siblings)
      <==> || (place.System? && place.path in systems)
           || (place.Managed? && (place.name == VersionedName(kind) || place.name == ManagedName(kind) || place.name in siblings))
  {
    var names := [VersionedName(kind)] + siblings + [ManagedName(kind)];
    assert forall name :: name in names <==> name == VersionedName(kind) || name == ManagedName(kind) || name in siblings;
    if place.System? && place.path in systems {
      var i :| 0 <= i < |systems| && systems[i] == place.path;
      assert SystemPlaces(systems)[i] == place;
    }
    if place.Managed? && place.name in names {
      var i :| 0 <= i < |names| && names[i] == place.name;
      assert Places(names)[i] == place;
    }
  }

  /** A candidate of the core, whether or not its file exists. */
  predicate IsListed(env: Env, kind: Kind, systems: seq<string>, place: Place) {
    (place.System? && place.path in systems) || (place.Managed? && IsCandidate(env, kind, place.name))
  }

  /** An inspection examines exactly the candidates that exist, and perhaps some that do not. */
  lemma ListedExactly(env: Env, kind: Kind, disk: Disk, systems: seq<string>, siblings: seq<string>, place: Place)
    requires Lists(env, kind, disk, siblings) && place in disk
    ensures place in Candidates(kind, systems, siblings) <==> IsListed(env, kind, systems, place)
  {
    CandidatesExactly(kind, systems, siblings, place);
  }

  /** The place is a candidate, and an inspection refuses it. */
  predicate RefusedAt(env: Env, kind: Kind, disk: Disk, systems: seq<string>, place: Place) {
    IsListed(env, kind, systems, place) && Examine(env, kind, disk, place).Refused?
  }

  ghost predicate AnyRefused(env: Env, kind: Kind, disk: Disk, systems: seq<string>) {
    exists place :: RefusedAt(env, kind, disk, systems, place)
  }

  /** An inspection asks for a review exactly if some existing candidate is refused. */
  lemma ReviewExactly(env: Env, kind: Kind, disk: Disk, systems: seq<string>, siblings: seq<string>, r: Inspection)
    requires InspectsWith(env, kind, disk, systems, siblings, r)
    ensures r.Review? <==> AnyRefused(env, kind, disk, systems)
  {
    var places := Candidates(kind, systems, siblings);
    var found := Findings(env, kind, disk, places);
    RefusedExactly(places, found, |places|);
    if AnyRefused(env, kind, disk, systems) {
      var place :| RefusedAt(env, kind, disk, systems, place);
      ListedExactly(env, kind, disk, systems, siblings, place);
      var i :| 0 <= i < |places| && places[i] == place;
      assert found[i].Refused?;
    } else {
      forall i | 0 <= i < |places|
        ensures !found[i].Refused?
      {
        if found[i].Refused? {
          ListedExactly(env, kind, disk, systems, siblings, places[i]);
          assert RefusedAt(env, kind, disk, systems, places[i]);
        }
      }
    }
  }

  /** The place is a candidate, and it fits. */
  predicate FitsAt(env: Env, kind: Kind, disk: Disk, systems: seq<string>, place: Place) {
    IsListed(env, kind, systems, place) && Examine(env, kind, disk, place).Fit?
  }

  ghost predicate AnyFits(env: Env, kind: Kind, disk: Disk, systems: seq<string>) {
    exists place :: FitsAt(env, kind, disk, systems, place)
  }

  /** An inspection finds a core exactly if nothing is refused and some candidate fits, and asks
      for an update exactly if nothing is refused and none fits. */
  lemma OutcomeExactly(env: Env, kind: Kind, disk: Disk, systems: seq<string>, r: Inspection)
    requires Inspects(env, kind, disk, systems, r)
    ensures r.Review? <==> AnyRefused(env, kind, disk, systems)
    ensures r.Ready? <==> !AnyRefused(env, kind, disk, systems) && AnyFits(env, kind, disk, systems)
  {
    var siblings :| InspectsWith(env, kind, disk, systems, siblings, r);
    ReviewExactly(env, kind, disk, systems, siblings, r);
    var places := Candidates(kind, systems, siblings);
    var found := Findings(env, kind, disk, places);
    if r.Ready? {
      var i :| PreparedAt(places, found, r.prepared, i);
      ListedExactly(env, kind, disk, systems, siblings, places[i]);
      assert FitsAt(env, kind, disk, systems, places[i]);
    }
    if place: Place :| FitsAt(env, kind, disk, systems, place) {
      ListedExactly(env, kind, disk, systems, siblings, place);
      var i :| 0 <= i < |places| && places[i] == place;
      assert found[i].Fit?;
    }
  }

  /** Where a place stands among the candidates: system binaries in their order, the pinned
      version, its siblings in ascending order, and the plain name. */
  predicate Preferred(kind: Kind, systems: seq<string>, a: Place, b: Place) {
    match (a, b)
    case (System(p), System(q)) => exists i :: 0 <= i < |systems| && systems[i] == p && q !in systems[..i + 1]
    case (System(_), Managed(_)) => true
    case (Managed(m), Managed(n)) =>
      || (m == VersionedName(kind) && n != VersionedName(kind))
      || (n == ManagedName(kind) && m != ManagedName(kind))
      || (m != ManagedName(kind) && n != VersionedName(kind) && Before(m, n))
    case _ => false
  }

  lemma {:induction false} RefusedMembers(places: seq<Place>, found: seq<Finding>, n: nat, place: Place)
    requires n <= |places| == |found|
    ensures place in RefusedOf(places, found, n) <==> exists i :: 0 <= i < n && found[i].Refused? && places[i] == place
  {
    if n > 0 {
      RefusedMembers(places, found, n - 1, place);
    }
  }

  /** The review lists exactly the refused candidates. */
  lemma ReviewListsRefused(env: Env, kind: Kind, disk: Disk, systems: seq<string>, review: seq<Place>, place: Place)
    requires Inspects(env, kind, disk, systems, Review(review))
    ensures place in review <==> RefusedAt(env, kind, disk, systems, place)
  {
    var siblings :| InspectsWith(env, kind, disk, systems, siblings, Review(review));
    var places := Candidates(kind, systems, siblings);
    var found := Findings(env, kind, disk, places);
    RefusedMembers(places, found, |places|, place);
    if place in disk {
      ListedExactly(env, kind, disk, systems, siblings, place);
      if place in places {
        var i :| 0 <= i < |places| && places[i] == place;
        assert found[i] == Examine(env, kind, disk, place);
      }
    }
  }

  lemma {:induction false} AscendingBefore(names: seq<string>, i: nat, j: nat)
    requires Ascending(names) && i < j < |names|
    ensures Before(names[i], names[j])
    decreases j
  {
    if i < j - 1 {
      AscendingBefore(names, i, j - 1);
      var (a, b, c) := (names[i], names[j - 1], names[j]);
      TextTransitive(a, b, c);
      CompareFlips(a, b);
      CompareFlips(b, c);
      CompareFlips(a, c);
    }
  }

  lemma SiblingIsNotPlain(env: Env, kind: Kind, name: string)
    requires IsSibling(env, kind, name)
    ensures name != ManagedName(kind) && name != VersionedName(kind)
  {
    assert SiblingName(kind, "") <= name;
    assert CANDIDATE[0] == 'c';
  }

  /** An earlier candidate is preferred to the first occurrence of a later one. */
  lemma EarlierIsPreferred(env: Env, kind: Kind, disk: Disk, systems: seq<string>, siblings: seq<string>, i: nat, j: nat)
    requires Lists(env, kind, disk, siblings)
    requires var places := Candidates(kind, systems, siblings);
      i < j < |places| && forall k | 0 <= k < j :: places[k] != places[j]
    ensures var places := Candidates(kind, systems, siblings);
      Preferred(kind, systems, places[i], places[j])
  {
    var places, n := Candidates(kind, systems, siblings), |systems|;
    var names := [VersionedName(kind)] + siblings + [ManagedName(kind)];
    if j < n {
      forall k | 0 <= k < i + 1
        ensures systems[k] != systems[j]
      {
        assert places[k] == System(systems[k]);
      }
      assert systems[i] == places[i].path;
    } else if i >= n {
      NamesArePreferred(env, kind, disk, siblings, i - n, j - n);
      assert places[i] == Managed(names[i - n]) && places[j] == Managed(names[j - n]);
    }
  }

  lemma NamesArePreferred(env: Env, kind: Kind, disk: Disk, siblings: seq<string>, i: nat, j: nat)
    requires Lists(env, kind, disk, siblings) && i < j < |siblings| + 2
    ensures var names := [VersionedName(kind)] + siblings + [ManagedName(kind)];
      Preferred(kind, [], Managed(names[i]), Managed(names[j]))
  {
    var names := [VersionedName(kind)] + siblings + [ManagedName(kind)];
    if 0 < i <= |siblings| {
      assert names[i] == siblings[i - 1] && siblings[i - 1] in siblings;
      SiblingIsNotPlain(env, kind, names[i]);
    }
    if 0 < j <= |siblings| {
      assert names[j] == siblings[j - 1] && siblings[j - 1] in siblings;
      SiblingIsNotPlain(env, kind, names[j]);
    }
    if 0 < i && j <= |siblings| {
      AscendingBefore(siblings, i - 1, j - 1);
    }
    assert |VersionedName(kind)| > |ManagedName(kind)|;
  }

  /** What is offered is preferred to every other candidate that fits. */
  lemma OfferedIsPreferred(env: Env, kind: Kind, disk: Disk, systems: seq<string>, prepared: Prepared, place: Place)
    requires Inspects(env, kind, disk, systems, Ready(prepared)) && FitsAt(env, kind, disk, systems, place)
    ensures prepared.place == place || Preferred(kind, systems, prepared.place, place)
    ensures FitsAt(env, kind, disk, systems, prepared.place)
    ensures prepared.source == if prepared.place.System? then FromSystem else Cached
  {
    var siblings :| InspectsWith(env, kind, disk, systems, siblings, Ready(prepared));
    var places := Candidates(kind, systems, siblings);
    var i :| PreparedAt(places, Findings(env, kind, disk, places), prepared, i);
    ListedExactly(env, kind, disk, systems, siblings, places[i]);
    ListedExactly(env, kind, disk, systems, siblings, place);
    var j := FirstPlace(places, place);
    FitsNoEarlier(env, kind, disk, places, prepared, i, j);
    if i < j {
      EarlierIsPreferred(env, kind, disk, systems, siblings, i, j);
    }
  }

  lemma FitsNoEarlier(env: Env, kind: Kind, disk: Disk, places: seq<Place>, prepared: Prepared, i: int, j: nat)
    requires PreparedAt(places, Findings(env, kind, disk, places), prepared, i)
    requires j < |places| && Examine(env, kind, disk, places[j]).Fit?
    ensures i <= j
  {
    assert Findings(env, kind, disk, places)[j].Fit?;
  }

  lemma {:induction false} FirstPlace(places: seq<Place>, place: Place) returns (j: nat)
    requires place in places
    ensures j < |places| && places[j] == place && forall k | 0 <= k < j :: places[k] != place
  {
    if places[0] == place {
      j := 0;
    } else {
      j := FirstPlace(places[1..], place);
      j := j + 1;
    }
  }

  // ---------- installation ----------

  /** `version_matches_target`. */
  predicate VersionMatchesTarget(version: string, target: string) {
    (if version != "" && version[0] == 'v' then version else "v" + version) == target
  }

  /** The checks an install makes before it publishes anything. */
  predicate Publishable(env: Env, kind: Kind, payload: Bytes, expected: string) {
    && |payload| <= MAX_PAYLOAD && IsElf(payload)
    && env.probe(payload).Some?
    && VersionMatchesTarget(env.probe(payload).value, expected)
    && Usable(env.probe(payload).value, TargetVersion(kind))
  }

  /** An install of the pinned target publishes exactly the payloads within the limit that are
      executables reporting the pinned version, with or without its `v`. */
  lemma PublishableExactly(env: Env, kind: Kind, payload: Bytes)
    ensures Publishable(env, kind, payload, TargetVersion(kind))
      <==> && |payload| <= 0x2000_0000 && |payload| >= 4 && payload[..4] == [0x7F as char, 'E', 'L', 'F']
           && (|| env.probe(payload) == Some(TargetVersion(kind))
               || env.probe(payload) == Some(Render(PinnedVersion(kind))))
  {
    PinnedIsUsable(kind);
    PinnedText(kind);
    CoreReadsBack(PinnedVersion(kind));
    var target := TargetVersion(kind);
    assert ['v'] + target[1..] == target && target[1..] == Render(PinnedVersion(kind));
    assert "v" == ['v'];
    assert IsElf(payload) <==> |payload| >= 4 && payload[..4] == ELF;
    if env.probe(payload).Some? {
      var version := env.probe(payload).value;
      assert VersionMatchesTarget(version, target) <==> version == target || version == target[1..];
    }
  }

  function WithReceipt(env: Env, disk: Disk, dest: string, payload: Bytes): Disk {
    disk[ReceiptOf(env.sha, dest, payload) := File(ReceiptText(env.sha, payload), false)]
  }

  function Installed(env: Env, disk: Disk, dest: string, payload: Bytes): Disk {
    WithReceipt(env, disk, dest, payload)[Managed(dest) := File(payload, true)]
  }

  lemma DropStaged(disk: Disk, staged: Place, file: File)
    requires staged !in disk
    ensures disk[staged := file] - {staged} == disk
  {
  }

  /** Publishing beside a staging file and dropping that file commute. */
  lemma PublishAround(env: Env, disk: Disk, staged: Place, dest: string, payload: Bytes)
    requires staged.Temp? && staged !in disk
    ensures var around := WithReceipt(env, disk[staged := File(payload, true)], dest, payload);
      && around - {staged} == WithReceipt(env, disk, dest, payload)
      && around[Managed(dest) := File(payload, true)] - {staged} == Installed(env, disk, dest, payload)
      && staged in around && around[staged] == File(payload, true)
  {
    var receipt := ReceiptOf(env.sha, dest, payload);
    var file := File(ReceiptText(env.sha, payload), false);
    assert disk[staged := File(payload, true)][receipt := file] == disk[receipt := file][staged := File(payload, true)];
    DropStaged(disk[receipt := file], staged, File(payload, true));
    var published := disk[receipt := file][Managed(dest) := File(payload, true)];
    assert disk[receipt := file][staged := File(payload, true)][Managed(dest) := File(payload, true)]
        == published[staged := File(payload, true)];
    DropStaged(published, staged, File(payload, true));
  }

  /** `acquisition_destination`. */
  function AcquisitionDestination(disk: Disk, kind: Kind, uuid: string): string {
    if Managed(VersionedName(kind)) in disk then SiblingName(kind, uuid) else VersionedName(kind)
  }

  /** What an acquisition left: nothing, a receipt, or the published executable. */
  datatype Ending = Unchanged | ReceiptOnly | Published

  datatype Acquisition = Acquisition(kind: Kind, uuid: string, payload: Bytes, ending: Ending)

  /** The directory after an acquisition that ended so. */
  function AfterAcquisition(env: Env, disk: Disk, a: Acquisition): Disk {
    var dest := AcquisitionDestination(disk, a.kind, a.uuid);
    match a.ending
    case Unchanged => disk
    case ReceiptOnly => WithReceipt(env, disk, dest, a.payload)
    case Published => Installed(env, disk, dest, a.payload)
  }

  ghost predicate AsksForUpdate(env: Env, kind: Kind, disk: Disk, systems: seq<string>) {
    exists r :: Inspects(env, kind, disk, systems, r) && r.NeedsUpdate?
  }

  lemma PreparedIsNotDownloaded(env: Env, kind: Kind, disk: Disk, systems: seq<string>, prepared: Prepared)
    requires Inspects(env, kind, disk, systems, Ready(prepared))
    ensures prepared.source != Downloaded
  {
  }

  /** The managed directory and the system binaries. */
  class Storage {
    var disk: Disk

    constructor (disk: Disk)
      ensures this.disk == disk
    {
      this.disk := disk;
    }

    /** `install_verified_payload`, which may stop at any of its six file operations; dropping a
        staging file removes it. */
    method InstallVerifiedPayload(env: Env, kind: Kind, dest: string, payload: Bytes, expected: string, id: nat, stop: nat)
      returns (r: Result<string>)
      requires Temp(id, false) !in disk && Temp(id, true) !in disk
      modifies this
      ensures r.Ok? <==> Publishable(env, kind, payload, expected) && stop >= 6
      ensures r.Ok? ==> r.value == env.probe(payload).value && disk == Installed(env, old(disk), dest, payload)
      ensures r.Err? ==> disk == if Publishable(env, kind, payload, expected) && stop == 5
        then WithReceipt(env, old(disk), dest, payload) else old(disk)
    {
      if |payload| > MAX_PAYLOAD || !IsElf(payload) || stop == 0 {
        return Err("nothing staged");
      }
      var staged := Temp(id, false);
      disk := disk[staged := File("", false)];
      DropStaged(old(disk), staged, File("", false));
      if stop == 1 {
        disk := disk - {staged};
        return Err("payload not written");
      }
      disk := disk[staged := File(payload, false)];
      assert disk == old(disk)[staged := File(payload, false)];
      DropStaged(old(disk), staged, File(payload, false));
      if stop == 2 {
        disk := disk - {staged};
        return Err("not made executable");
      }
      disk := disk[staged := File(payload, true)];
      assert disk == old(disk)[staged := File(payload, true)];
      DropStaged(old(disk), staged, File(payload, true));
      var reported := env.probe(payload);
      if reported.None? || !VersionMatchesTarget(reported.value, expected) || !Usable(reported.value, TargetVersion(kind)) {
        disk := disk - {staged};
        return Err("not the reviewed version");
      }
      var written := WriteDigestReceipt(env, dest, payload, id, stop);
      PublishAround(env, old(disk), staged, dest, payload);
      if !written || stop == 5 {
        disk := disk - {staged};
        return Err("not published");
      }
      disk := disk[Managed(dest) := disk[staged]] - {staged};
      return Ok(reported.value);
    }

    /** `acquire`, with the install lock held: nothing else writes the directory meanwhile.
        `download` is the payload whose archive digest was verified, if the download succeeds. */
    method Acquire(env: Env, kind: Kind, authorized: Kind, systems: seq<string>, uuid: string,
        download: Option<Bytes>, id: nat, stop: nat)
      returns (r: Result<Prepared>)
      requires Temp(id, false) !in disk && Temp(id, true) !in disk
      modifies this
      ensures r.Ok? <==>
        (&& authorized == kind && !AnyRefused(env, kind, old(disk), systems)
         && (|| AnyFits(env, kind, old(disk), systems)
             || (download.Some? && Publishable(env, kind, download.value, TargetVersion(kind)) && stop >= 6)))
      ensures r.Ok? ==> (r.value.source == Downloaded <==> !AnyFits(env, kind, old(disk), systems))
      ensures r.Err? && disk != old(disk) ==>
        && authorized == kind && !AnyRefused(env, kind, old(disk), systems) && !AnyFits(env, kind, old(disk), systems)
        && download.Some? && Publishable(env, kind, download.value, TargetVersion(kind)) && stop == 5
        && disk == WithReceipt(env, old(disk), AcquisitionDestination(old(disk), kind, uuid), download.value)
      ensures r.Ok? && r.value.source != Downloaded ==>
        disk == old(disk) && Inspects(env, kind, old(disk), systems, Ready(r.value))
      ensures r.Ok? && r.value.source == Downloaded ==>
        && download.Some? && Publishable(env, kind, download.value, TargetVersion(kind))
        && r.value.place == Managed(AcquisitionDestination(old(disk), kind, uuid))
        && disk == Installed(env, old(disk), AcquisitionDestination(old(disk), kind, uuid), download.value)
        && AsksForUpdate(env, kind, old(disk), systems)
    {
      if authorized != kind {
        return Err("authorization belongs to a different core");
      }
      var inspection := InspectCandidates(env, kind, disk, systems);
      OutcomeExactly(env, kind, disk, systems, inspection);
      match inspection {
        case Ready(prepared) =>
          PreparedIsNotDownloaded(env, kind, disk, systems, prepared);
          return Ok(prepared);
        case Review(_) => return Err("refusing automatic replacement");
        case NeedsUpdate(_, _, _, _) =>
      }
      var dest := AcquisitionDestination(disk, kind, uuid);
      if download.None? {
        return Err("download failed");
      }
      var version := InstallVerifiedPayload(env, kind, dest, download.value, TargetVersion(kind), id, stop);
      if version.Err? {
        return Err(version.error);
      }
      return Ok(Prepared(Managed(dest), Downloaded, version.value));
    }

    /** `write_digest_receipt`. */
    method WriteDigestReceipt(env: Env, dest: string, payload: Bytes, id: nat, stop: nat) returns (written: bool)
      requires Temp(id, true) !in disk
      modifies this
      ensures written <==> stop != 3 && stop != 4
      ensures disk == if written then WithReceipt(env, old(disk), dest, payload) else old(disk)
    {
      var staged := Temp(id, true);
      disk := disk[staged := File("", false)];
      if stop == 3 {
        disk := disk - {staged};
        return false;
      }
      disk := disk[staged := File(ReceiptText(env.sha, payload), false)];
      if stop == 4 {
        disk := disk - {staged};
        return false;
      }
      disk := disk[ReceiptOf(env.sha, dest, payload) := disk[staged]] - {staged};
      return true;
    }
  }

  // ---------- the installation as a run of the protocol ----------

  ghost predicate Reaches(sha: Bytes -> string, from: State, to: State) {
    exists states, actions :: RunBetween(sha, states, actions, from, to)
  }

  ghost predicate RunBetween(sha: Bytes -> string, states: seq<State>, actions: seq<Action>, from: State, to: State) {
    Run(sha, states, actions) && states[0] == from && states[|states| - 1] == to
  }

  lemma OneMoreStep(sha: Bytes -> string, from: State, s: State, a: Action)
    requires Reaches(sha, from, s) && Can(sha, s, a)
    ensures Reaches(sha, from, Apply(sha, s, a))
  {
    var states, actions :| RunBetween(sha, states, actions, from, s);
    var longer, more := states + [Apply(sha, s, a)], actions + [a];
    forall i | 0 <= i < |more|
      ensures Follows(sha, longer[i], more[i], longer[i + 1])
    {
      if i < |actions| {
        assert Follows(sha, states[i], actions[i], states[i + 1]);
      }
    }
    assert RunBetween(sha, longer, more, from, Apply(sha, s, a));
  }

  /** One job up to the point where its receipt is staged. */
  lemma StagesReceipt(env: Env, disk: Disk, dest: string, payload: Bytes, id: nat)
    requires BinaryName(dest) && Temp(id, false) !in disk && Temp(id, true) !in disk
    ensures Reaches(env.sha, State(disk, map[]),
      State(disk[Temp(id, false) := File(payload, true)][Temp(id, true) := File(ReceiptText(env.sha, payload), false)],
        map[id := Job(dest, payload, WritingReceipt)]))
  {
    var sha, from, text := env.sha, State(disk, map[]), ReceiptText(env.sha, payload);
    assert RunBetween(sha, [from], [], from, from);
    var s1 := State(disk[Temp(id, false) := File("", false)], map[id := Job(dest, payload, Writing)]);
    assert Apply(sha, from, Begin(id, dest, payload)) == s1;
    OneMoreStep(sha, from, from, Begin(id, dest, payload));
    assert payload[..|payload|] == payload && text[..|text|] == text;
    var s2 := State(disk[Temp(id, false) := File(payload, false)], s1.jobs);
    assert Apply(sha, s1, WriteStaged(id, |payload|)).disk == s2.disk;
    OneMoreStep(sha, from, s1, WriteStaged(id, |payload|));
    var s3 := State(disk[Temp(id, false) := File(payload, true)], map[id := Job(dest, payload, Staged)]);
    assert Apply(sha, s2, MakeExecutable(id)).disk == s3.disk;
    assert Apply(sha, s2, MakeExecutable(id)).jobs == s3.jobs;
    OneMoreStep(sha, from, s2, MakeExecutable(id));
    assert Apply(sha, s3, WriteReceipt(id, |text|)).jobs == map[id := Job(dest, payload, WritingReceipt)];
    OneMoreStep(sha, from, s3, WriteReceipt(id, |text|));
  }

  /** Whatever an install leaves, a run of the protocol with one job leaves too. */
  lemma InstallFollowsProtocol(env: Env, disk: Disk, dest: string, payload: Bytes, id: nat)
    requires BinaryName(dest) && Temp(id, false) !in disk && Temp(id, true) !in disk
    ensures Reaches(env.sha, State(disk, map[]), State(disk, map[]))
    ensures Reaches(env.sha, State(disk, map[]), State(WithReceipt(env, disk, dest, payload), map[]))
    ensures Reaches(env.sha, State(disk, map[]), State(Installed(env, disk, dest, payload), map[]))
  {
    var sha, from, text := env.sha, State(disk, map[]), ReceiptText(env.sha, payload);
    assert RunBetween(sha, [from], [], from, from);
    StagesReceipt(env, disk, dest, payload, id);
    var around := disk[Temp(id, false) := File(payload, true)];
    var s4 := State(around[Temp(id, true) := File(text, false)], map[id := Job(dest, payload, WritingReceipt)]);
    var s5 := State(WithReceipt(env, around, dest, payload), map[id := Job(dest, payload, Receipted)]);
    assert Apply(sha, s4, RenameReceipt(id)).disk == s5.disk;
    assert Apply(sha, s4, RenameReceipt(id)).jobs == s5.jobs;
    OneMoreStep(sha, from, s4, RenameReceipt(id));
    PublishAround(env, disk, Temp(id, false), dest, payload);
    OneMoreStep(sha, from, s5, Stop(id, true));
    assert s5.disk - {Temp(id, false), Temp(id, true)} == s5.disk - {Temp(id, false)};
    assert map[id := Job(dest, payload, Receipted)] - {id} == map[];
    OneMoreStep(sha, from, s5, RenameStaged(id));
  }

  // ---------- what an acquisition keeps and what it achieves ----------

  /** With a fresh identifier, neither the destination nor any receipt is an existing candidate
      of either core. */
  lemma AcquireKeepsCandidates(env: Env, kind: Kind, disk: Disk, uuid: string, payload: Bytes, place: Place)
    requires EnvOk(env) && env.isUuid(uuid) && Managed(SiblingName(kind, uuid)) !in disk
    requires place in disk && (place.System? || (place.Managed? && exists k :: IsCandidate(env, k, place.name)))
    ensures var dest := AcquisitionDestination(disk, kind, uuid);
      && Managed(dest) !in disk
      && Lookup(WithReceipt(env, disk, dest, payload), place) == Some(disk[place])
      && Lookup(Installed(env, disk, dest, payload), place) == Some(disk[place])
  {
    var dest := AcquisitionDestination(disk, kind, uuid);
    ReceiptNamesDigest(dest, env.sha(payload));
    if place.Managed? {
      var k :| IsCandidate(env, k, place.name);
      CandidatesAreBinaries(env, k, place.name);
    }
  }

  lemma DestinationIsCandidate(env: Env, kind: Kind, disk: Disk, uuid: string)
    requires env.isUuid(uuid)
    ensures var dest := AcquisitionDestination(disk, kind, uuid);
      dest == VersionedName(kind) || IsSibling(env, kind, dest)
  {
    SiblingHasUuid(env, kind, uuid);
  }

  /** The installed payload itself fits. */
  lemma InstalledFits(env: Env, kind: Kind, disk: Disk, dest: string, payload: Bytes)
    requires EnvOk(env) && BinaryName(dest) && Publishable(env, kind, payload, TargetVersion(kind))
    ensures Examine(env, kind, Installed(env, disk, dest, payload), Managed(dest)).Fit?
  {
    ReceiptNamesDigest(dest, env.sha(payload));
    InstalledVerifies(env, disk, dest, payload);
    ExaminedFile(env, kind, File(payload, true), true, env.probe(payload).value);
    UsableIsFit(env.probe(payload).value, TargetVersion(kind));
  }

  lemma InstalledVerifies(env: Env, disk: Disk, dest: string, payload: Bytes)
    requires EnvOk(env) && BinaryName(dest)
    ensures Verified(env.sha, Installed(env, disk, dest, payload), dest)
  {
    ReceiptNamesDigest(dest, env.sha(payload));
    ReceiptTextIsTrimmed(env.sha, payload);
  }

  lemma UsableIsFit(version: string, target: string)
    requires Usable(version, target)
    ensures Judge(version, target).Fit?
  {
  }

  // ---------- what any number of acquisitions keep ----------

  /** The identifier names no file yet, and a published payload passed the checks. */
  predicate Fresh(env: Env, disk: Disk, a: Acquisition) {
    && env.isUuid(a.uuid) && Managed(SiblingName(a.kind, a.uuid)) !in disk
    && (a.ending.Published? ==> Publishable(env, a.kind, a.payload, TargetVersion(a.kind)))
  }

  /** The directory after acquisitions of either core, one after another under the lock. */
  function AfterAll(env: Env, disk: Disk, all: seq<Acquisition>): Disk {
    if all == [] then disk else AfterAcquisition(env, AfterAll(env, disk, all[..|all| - 1]), all[|all| - 1])
  }

  predicate AllFresh(env: Env, disk: Disk, all: seq<Acquisition>) {
    all == [] || (AllFresh(env, disk, all[..|all| - 1]) && Fresh(env, AfterAll(env, disk, all[..|all| - 1]), all[|all| - 1]))
  }

  /** A receipt for some payload makes a binary with the same receipt verify, and leaves what
      every other binary verifies as it was. */
  lemma ReceiptVerifiesExactly(env: Env, disk: Disk, dest: string, payload: Bytes, after: Disk, name: string)
    requires EnvOk(env) && BinaryName(dest) && BinaryName(name) && Managed(name) in disk
    requires after == WithReceipt(env, disk, dest, payload) || after == Installed(env, disk, dest, payload)
    requires Lookup(after, Managed(name)) == Lookup(disk, Managed(name))
    ensures Verified(env.sha, after, name)
      <==> (|| Verified(env.sha, disk, name)
            || ReceiptOf(env.sha, name, disk[Managed(name)].bytes) == ReceiptOf(env.sha, dest, payload))
  {
    var bytes := disk[Managed(name)].bytes;
    ReceiptNamesDigest(dest, env.sha(payload));
    ReceiptNamesDigest(name, env.sha(bytes));
    LegacyNamesNoReceipt(name, dest, env.sha(payload));
    ReceiptTextIsTrimmed(env.sha, payload);
  }

  /** The two cores have no candidate in common. */
  lemma CandidatesDiffer(env: Env, name: string)
    ensures !(IsCandidate(env, Mihomo, name) && IsCandidate(env, SingBox, name))
  {
    assert ManagedName(Mihomo)[0] == 'm' && ManagedName(SingBox)[0] == 's';
    assert forall kind :: IsCandidate(env, kind, name) ==> name != "" && name[0] == ManagedName(kind)[0];
  }

  /** An existing candidate keeps its file through an acquisition of either core. */
  lemma CandidateStays(env: Env, kind: Kind, disk: Disk, a: Acquisition, name: string)
    requires EnvOk(env) && Fresh(env, disk, a) && IsCandidate(env, kind, name) && Managed(name) in disk
    ensures Lookup(AfterAcquisition(env, disk, a), Managed(name)) == Some(disk[Managed(name)])
  {
    AcquireKeepsCandidates(env, a.kind, disk, a.uuid, a.payload, Managed(name));
  }

  /** A candidate with these bytes is refused once it verifies. */
  predicate WouldRefuse(env: Env, kind: Kind, file: File) {
    && file.executable && IsElf(file.bytes)
    && env.probe(file.bytes).Some? && Judge(env.probe(file.bytes).value, TargetVersion(kind)).Refused?
  }

  /** An acquisition that writes the receipt of an existing candidate which would be refused: the
      candidate has the payload's digest and, with a version to refuse, other bytes. */
  ghost predicate Revives(env: Env, kind: Kind, disk: Disk, a: Acquisition) {
    && !a.ending.Unchanged?
    && exists name :: RevivesName(env, kind, disk, a, name)
  }

  predicate RevivesName(env: Env, kind: Kind, disk: Disk, a: Acquisition, name: string) {
    && Managed(name) in disk && IsCandidate(env, kind, name) && WouldRefuse(env, kind, disk[Managed(name)])
    && ReceiptOf(env.sha, name, disk[Managed(name)].bytes)
         == ReceiptOf(env.sha, AcquisitionDestination(disk, a.kind, a.uuid), a.payload)
  }

  lemma TrustDecides(env: Env, kind: Kind, file: File)
    ensures ExamineFile(env, kind, file, false) == Broken
    ensures ExamineFile(env, kind, file, true).Refused? <==> WouldRefuse(env, kind, file)
  {
  }

  /** What is found out about an existing candidate after one more acquisition. */
  lemma ExaminedAfter(env: Env, kind: Kind, disk: Disk, a: Acquisition, name: string)
    requires EnvOk(env) && Fresh(env, disk, a) && IsCandidate(env, kind, name) && Managed(name) in disk
    ensures var before, after := Examine(env, kind, disk, Managed(name)), Examine(env, kind, AfterAcquisition(env, disk, a), Managed(name));
      && (before.Fit? ==> after.Fit?)
      && (after.Refused? <==> before.Refused? || (!a.ending.Unchanged? && RevivesName(env, kind, disk, a, name)))
  {
    TrustDecides(env, kind, disk[Managed(name)]);
    if !a.ending.Unchanged? {
      CandidateStays(env, kind, disk, a, name);
      CandidatesAreBinaries(env, kind, name);
      var dest := AcquisitionDestination(disk, a.kind, a.uuid);
      DestinationIsCandidate(env, a.kind, disk, a.uuid);
      CandidatesAreBinaries(env, a.kind, dest);
      ReceiptVerifiesExactly(env, disk, dest, a.payload, AfterAcquisition(env, disk, a), name);
    }
  }

  /** A candidate that fits stays on disk and keeps fitting. */
  lemma {:induction false} FitStays(env: Env, kind: Kind, disk: Disk, all: seq<Acquisition>, name: string)
    requires EnvOk(env) && AllFresh(env, disk, all) && IsCandidate(env, kind, name)
    requires Examine(env, kind, disk, Managed(name)).Fit?
    ensures Examine(env, kind, AfterAll(env, disk, all), Managed(name)).Fit?
    decreases |all|
  {
    if all != [] {
      FitStays(env, kind, disk, all[..|all| - 1], name);
      ExaminedAfter(env, kind, AfterAll(env, disk, all[..|all| - 1]), all[|all| - 1], name);
    }
  }

  // ---------- what the next inspections find ----------

  /** With a candidate that fits, an inspection does not ask for an update. */
  lemma FitIsFound(env: Env, kind: Kind, disk: Disk, systems: seq<string>, siblings: seq<string>, name: string, r: Inspection)
    requires InspectsWith(env, kind, disk, systems, siblings, r)
    requires IsCandidate(env, kind, name) && Examine(env, kind, disk, Managed(name)).Fit?
    ensures !r.NeedsUpdate?
  {
    var places := Candidates(kind, systems, siblings);
    ListedExactly(env, kind, disk, systems, siblings, Managed(name));
    var i :| 0 <= i < |places| && places[i] == Managed(name);
    assert Findings(env, kind, disk, places)[i].Fit?;
  }

  /** After a successful download no inspection of this core asks for an update again, whatever
      acquisitions of either core follow and however they end. */
  lemma AcquiredIsFound(env: Env, disk: Disk, a: Acquisition, later: seq<Acquisition>, systems: seq<string>, r: Inspection)
    requires EnvOk(env) && Fresh(env, disk, a) && a.ending.Published?
    requires AllFresh(env, AfterAcquisition(env, disk, a), later)
    requires Inspects(env, a.kind, AfterAll(env, AfterAcquisition(env, disk, a), later), systems, r)
    ensures !r.NeedsUpdate?
  {
    var dest := AcquisitionDestination(disk, a.kind, a.uuid);
    var after := AfterAcquisition(env, disk, a);
    DestinationIsCandidate(env, a.kind, disk, a.uuid);
    CandidatesAreBinaries(env, a.kind, dest);
    InstalledFits(env, a.kind, disk, dest, a.payload);
    FitStays(env, a.kind, after, later, dest);
    var siblings :| InspectsWith(env, a.kind, AfterAll(env, after, later), systems, siblings, r);
    FitIsFound(env, a.kind, AfterAll(env, after, later), systems, siblings, dest, r);
  }

  /** What an acquisition adds is not refused. */
  lemma RefusedWasThere(env: Env, kind: Kind, disk: Disk, a: Acquisition, name: string)
    requires EnvOk(env) && Fresh(env, disk, a) && IsCandidate(env, kind, name)
    requires Examine(env, kind, AfterAcquisition(env, disk, a), Managed(name)).Refused?
    ensures Managed(name) in disk
  {
    var dest := AcquisitionDestination(disk, a.kind, a.uuid);
    CandidatesAreBinaries(env, kind, name);
    AddedIsDestination(env, disk, a, name);
    if name == dest && a.ending.Published? {
      DestinationIsCandidate(env, a.kind, disk, a.uuid);
      CandidatesDiffer(env, name);
      InstalledFits(env, a.kind, disk, dest, a.payload);
    }
  }

  /** The one binary an acquisition adds is a published destination. */
  lemma AddedIsDestination(env: Env, disk: Disk, a: Acquisition, name: string)
    requires EnvOk(env) && BinaryName(name)
    ensures Managed(name) in AfterAcquisition(env, disk, a) && Managed(name) !in disk ==>
      name == AcquisitionDestination(disk, a.kind, a.uuid) && a.ending.Published?
  {
    ReceiptNamesDigest(AcquisitionDestination(disk, a.kind, a.uuid), env.sha(a.payload));
  }

  lemma SystemFileStays(env: Env, disk: Disk, a: Acquisition, path: string)
    ensures Lookup(AfterAcquisition(env, disk, a), System(path)) == Lookup(disk, System(path))
  {
  }

  lemma SystemStays(env: Env, kind: Kind, disk: Disk, after: Disk, path: string)
    requires Lookup(after, System(path)) == Lookup(disk, System(path))
    ensures Examine(env, kind, after, System(path)) == Examine(env, kind, disk, System(path))
  {
  }

  lemma ManagedRefusedAfter(env: Env, kind: Kind, disk: Disk, a: Acquisition, name: string)
    requires EnvOk(env) && Fresh(env, disk, a) && IsCandidate(env, kind, name)
    ensures Examine(env, kind, AfterAcquisition(env, disk, a), Managed(name)).Refused?
      <==> (|| Examine(env, kind, disk, Managed(name)).Refused?
            || (!a.ending.Unchanged? && RevivesName(env, kind, disk, a, name)))
  {
    if Managed(name) in disk {
      ExaminedAfter(env, kind, disk, a, name);
    } else if Examine(env, kind, AfterAcquisition(env, disk, a), Managed(name)).Refused? {
      RefusedWasThere(env, kind, disk, a, name);
    }
  }

  /** One candidate is refused after an acquisition exactly if it was before or is revived. */
  lemma RefusedAtAfter(env: Env, kind: Kind, disk: Disk, a: Acquisition, systems: seq<string>, place: Place)
    requires EnvOk(env) && Fresh(env, disk, a)
    ensures RefusedAt(env, kind, AfterAcquisition(env, disk, a), systems, place)
      <==> (|| RefusedAt(env, kind, disk, systems, place)
            || (place.Managed? && !a.ending.Unchanged? && RevivesName(env, kind, disk, a, place.name)))
  {
    match place
    case System(path) =>
      SystemFileStays(env, disk, a, path);
      SystemStays(env, kind, disk, AfterAcquisition(env, disk, a), path);
    case Managed(name) =>
      if IsCandidate(env, kind, name) {
        ManagedRefusedAfter(env, kind, disk, a, name);
      }
    case Temp(_, _) =>
  }

  /** One acquisition makes a core's candidates refused exactly if it revives one. */
  lemma RefusedAfter(env: Env, kind: Kind, disk: Disk, a: Acquisition, systems: seq<string>)
    requires EnvOk(env) && Fresh(env, disk, a)
    ensures AnyRefused(env, kind, AfterAcquisition(env, disk, a), systems)
      <==> AnyRefused(env, kind, disk, systems) || Revives(env, kind, disk, a)
  {
    var after := AfterAcquisition(env, disk, a);
    forall place
      ensures RefusedAt(env, kind, after, systems, place)
        <==> (|| RefusedAt(env, kind, disk, systems, place)
              || (place.Managed? && !a.ending.Unchanged? && RevivesName(env, kind, disk, a, place.name)))
    {
      RefusedAtAfter(env, kind, disk, a, systems, place);
    }
    if Revives(env, kind, disk, a) {
      var name :| RevivesName(env, kind, disk, a, name);
      assert RefusedAt(env, kind, after, systems, Managed(name));
    }
    if AnyRefused(env, kind, disk, systems) {
      var place :| RefusedAt(env, kind, disk, systems, place);
      assert RefusedAt(env, kind, after, systems, place);
    }
  }

  /** Some acquisition revives a refused candidate of the directory it finds. */
  ghost predicate AnyRevives(env: Env, kind: Kind, disk: Disk, all: seq<Acquisition>) {
    all != []
    && (AnyRevives(env, kind, disk, all[..|all| - 1]) || Revives(env, kind, AfterAll(env, disk, all[..|all| - 1]), all[|all| - 1]))
  }

  lemma {:induction false} RefusedAfterAll(env: Env, kind: Kind, disk: Disk, all: seq<Acquisition>, systems: seq<string>)
    requires EnvOk(env) && AllFresh(env, disk, all)
    ensures AnyRefused(env, kind, AfterAll(env, disk, all), systems)
      <==> AnyRefused(env, kind, disk, systems) || AnyRevives(env, kind, disk, all)
    decreases |all|
  {
    if all != [] {
      var n := |all| - 1;
      RefusedAfterAll(env, kind, disk, all[..n], systems);
      RefusedAfter(env, kind, AfterAll(env, disk, all[..n]), all[n], systems);
    }
  }

  /** If an inspection asked for an update before the download, every later one is ready exactly
      if none of the acquisitions since then revived a refused candidate. */
  lemma AcquiredIsReady(env: Env, disk: Disk, a: Acquisition, later: seq<Acquisition>, systems: seq<string>, r: Inspection)
    requires EnvOk(env) && Fresh(env, disk, a) && a.ending.Published? && AsksForUpdate(env, a.kind, disk, systems)
    requires AllFresh(env, AfterAcquisition(env, disk, a), later)
    requires Inspects(env, a.kind, AfterAll(env, AfterAcquisition(env, disk, a), later), systems, r)
    ensures r.Ready? <==> !Revives(env, a.kind, disk, a) && !AnyRevives(env, a.kind, AfterAcquisition(env, disk, a), later)
  {
    var after := AfterAcquisition(env, disk, a);
    AcquiredIsFound(env, disk, a, later, systems, r);
    var before :| Inspects(env, a.kind, disk, systems, before) && before.NeedsUpdate?;
    var earlier :| InspectsWith(env, a.kind, disk, systems, earlier, before);
    ReviewExactly(env, a.kind, disk, systems, earlier, before);
    var siblings :| InspectsWith(env, a.kind, AfterAll(env, after, later), systems, siblings, r);
    ReviewExactly(env, a.kind, AfterAll(env, after, later), systems, siblings, r);
    RefusedAfter(env, a.kind, disk, a, systems);
    RefusedAfterAll(env, a.kind, after, later, systems);
  }
}
