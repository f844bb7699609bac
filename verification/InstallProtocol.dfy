/** The publication protocol of `mihomo_manager/binary.rs`: a staged executable, an immutable
    digest-qualified receipt renamed into place first, then the executable renamed over its
    destination. Any number of installs run interleaved, and each may stop at any step. */
module InstallProtocol {
  import opened Wrappers
  import opened Text

  type Bytes = string

  datatype File = File(bytes: Bytes, executable: bool)

  /** Where a file is: a system binary, a name in the managed directory, or the uniquely named
      staging file of one install. */
  datatype Place = System(path: string) | Managed(name: string) | Temp(job: nat, receipt: bool)

  type Disk = map<Place, File>

  // ---------- names ----------

  /** The text after the last dot. */
  function Extension(name: string): Option<string> {
    if name == "" then None
    else if name[|name| - 1] == '.' then Some("")
    else match Extension(name[..|name| - 1])
      case Some(ext) => Some(ext + [name[|name| - 1]])
      case None => None
  }

  /** The text before the last dot; a leading dot does not count. */
  function Stem(name: string): string {
    match Extension(name)
    case Some(ext) => if |ext| + 1 < |name| then name[..|name| - |ext| - 1] else name
    case None => name
  }

  /** `path.with_extension(ext)`. */
  function WithExtension(name: string, ext: string): string {
    Stem(name) + "." + ext
  }

  predicate IsHexDigit(c: char) {
    IsDigit(c) || 'a' <= c <= 'f' || 'A' <= c <= 'F'
  }

  predicate AllHex(s: string) {
    forall i | 0 <= i < |s| :: IsHexDigit(s[i])
  }

  predicate HexText(s: string) {
    |s| == 64 && AllHex(s)
  }

  /** SHA-256 as lower-case hexadecimal text. */
  ghost predicate Digest(sha: Bytes -> string) {
    forall bytes :: HexText(sha(bytes)) && Lower(sha(bytes)) == sha(bytes)
  }

  const SHA256 := "sha256"
  const PREFIX := "sha256:"

  /** `digest_receipt_path`. */
  function ReceiptName(name: string, digest: string): string {
    WithExtension(name, SHA256 + "." + digest)
  }

  /** The receipt of earlier releases. */
  function LegacyName(name: string): string {
    WithExtension(name, SHA256)
  }

  /** A name that is no receipt name of either kind. */
  predicate BinaryName(name: string) {
    Extension(name).Some? ==> Extension(name).value != SHA256 && !HexText(Extension(name).value)
  }

  lemma {:induction false} ExtensionOf(front: string, ext: string)
    requires '.' !in ext
    ensures Extension(front + "." + ext) == Some(ext)
    decreases |ext|
  {
    var name := front + "." + ext;
    if ext != "" {
      var n := |ext| - 1;
      ExtensionOf(front, ext[..n]);
      assert name[..|name| - 1] == front + "." + ext[..n];
      assert ext[..n] + [ext[n]] == ext;
      assert name[|name| - 1] == ext[n];
    }
  }

  /** A receipt name ends in its digest, so it names no binary, no legacy receipt, and no
      receipt of another digest. */
  lemma ReceiptNamesDigest(name: string, digest: string)
    requires HexText(digest)
    ensures Extension(ReceiptName(name, digest)) == Some(digest)
    ensures !BinaryName(ReceiptName(name, digest))
  {
    var front := Stem(name) + "." + SHA256;
    assert '.' !in digest;
    assert ReceiptName(name, digest) == front + "." + digest;
    ExtensionOf(front, digest);
  }

  /** A legacy receipt is neither a qualified receipt nor a binary. */
  lemma LegacyNamesNoReceipt(name: string, other: string, digest: string)
    requires HexText(digest)
    ensures Extension(LegacyName(name)) == Some(SHA256)
    ensures LegacyName(name) != ReceiptName(other, digest) && !BinaryName(LegacyName(name))
  {
    ExtensionOf(Stem(name), SHA256);
    ReceiptNamesDigest(other, digest);
  }

  /** Beside `front.ext` the receipts are `front.sha256.<digest>` and `front.sha256`; beside a name
      without a dot they extend the name. */
  lemma ReceiptsBeside(name: string, front: string, ext: string, digest: string)
    requires (name == front && '.' !in name) || (front != "" && '.' !in ext && name == front + "." + ext)
    ensures ReceiptName(name, digest) == front + ".sha256." + digest
    ensures LegacyName(name) == front + ".sha256"
  {
    if '.' in name {
      ExtensionOf(front, ext);
    } else {
      DotlessExtension(name);
    }
    assert Stem(name) == front;
    assert ".sha256." == "." + SHA256 + ".";
  }

  lemma {:induction false} DotlessExtension(name: string)
    requires '.' !in name
    ensures Extension(name) == None
  {
    if name != "" {
      DotlessExtension(name[..|name| - 1]);
    }
  }

  // ---------- verification ----------

  function StripPrefix(s: string, prefix: string): Option<string> {
    if prefix <= s then Some(s[|prefix|..]) else None
  }

  /** `verify_sha256_digest`, for a computed digest and the trimmed text of a receipt. */
  predicate DigestMatches(digest: string, expected: string) {
    match StripPrefix(expected, PREFIX)
    case Some(hex) => HexText(hex) && EqIgnoreCase(digest, hex)
    case None => false
  }

  /** `verify_cached_digest` on what its three reads returned. */
  predicate Accepts(sha: Bytes -> string, bytes: Bytes, receipt: Option<File>, legacy: Option<File>) {
    match receipt
    case Some(file) => Trim(file.bytes) == PREFIX + sha(bytes)
    case None => legacy.Some? && DigestMatches(sha(bytes), Trim(legacy.value.bytes))
  }

  function ReceiptOf(sha: Bytes -> string, name: string, bytes: Bytes): Place {
    Managed(ReceiptName(name, sha(bytes)))
  }

  /** `verify_cached_digest` with nothing in between its reads. */
  predicate Verified(sha: Bytes -> string, disk: Disk, name: string) {
    && Managed(name) in disk
    && var bytes := disk[Managed(name)].bytes;
       Accepts(sha, bytes, Lookup(disk, ReceiptOf(sha, name, bytes)), Lookup(disk, Managed(LegacyName(name))))
  }

  /** The same hexadecimal digits as a lower-case digest, in either case. */
  predicate SameDigits(hex: string, digest: string) {
    |hex| == |digest|
    && forall i | 0 <= i < |hex| :: hex[i] == digest[i] || ('A' <= hex[i] <= 'F' && hex[i] as int + 32 == digest[i] as int)
  }

  /** What the two receipts must be: the qualified one holds the digest, or it is absent and the
      legacy one holds its digits. */
  ghost predicate ReceiptsName(digest: string, receipt: Option<File>, legacy: Option<File>) {
    || (receipt.Some? && Trim(receipt.value.bytes) == "sha256:" + digest)
    || (receipt.None? && legacy.Some? && exists hex :: SameDigits(hex, digest) && Trim(legacy.value.bytes) == "sha256:" + hex)
  }

  lemma SameDigitsExactly(digest: string, hex: string)
    requires HexText(digest) && Lower(digest) == digest
    ensures SameDigits(hex, digest) <==> HexText(hex) && EqIgnoreCase(digest, hex)
  {
    assert forall i | 0 <= i < 64 :: Lower(digest)[i] == digest[i];
    if |hex| == 64 {
      assert Lower(hex) == Lower(digest) <==> forall i | 0 <= i < 64 :: Lower(hex)[i] == Lower(digest)[i];
      forall i | 0 <= i < 64
        ensures hex[i] == digest[i] || ('A' <= hex[i] <= 'F' && hex[i] as int + 32 == digest[i] as int)
          <==> IsHexDigit(hex[i]) && LowerChar(hex[i]) == digest[i]
      {
        assert IsHexDigit(digest[i]) && LowerChar(digest[i]) == digest[i];
      }
    }
  }

  /** What `verify_cached_digest` accepts. */
  lemma AcceptsExactly(sha: Bytes -> string, bytes: Bytes, receipt: Option<File>, legacy: Option<File>)
    requires Digest(sha)
    ensures Accepts(sha, bytes, receipt, legacy) <==> ReceiptsName(sha(bytes), receipt, legacy)
  {
    if receipt.None? && legacy.Some? {
      var text := Trim(legacy.value.bytes);
      forall hex
        ensures SameDigits(hex, sha(bytes)) <==> HexText(hex) && EqIgnoreCase(sha(bytes), hex)
      {
        SameDigitsExactly(sha(bytes), hex);
      }
      if PREFIX <= text {
        assert text == PREFIX + text[|PREFIX|..];
      }
      assert forall hex :: text == PREFIX + hex ==> text[|PREFIX|..] == hex;
    }
  }

  /** A managed file verifies exactly if it exists and its receipts name its digest. */
  lemma VerifiedExactly(sha: Bytes -> string, disk: Disk, name: string)
    requires Digest(sha)
    ensures Verified(sha, disk, name)
      <==> && Managed(name) in disk
           && var digest := sha(disk[Managed(name)].bytes);
              ReceiptsName(digest, Lookup(disk, Managed(ReceiptName(name, digest))), Lookup(disk, Managed(LegacyName(name))))
  {
    if Managed(name) in disk {
      var bytes := disk[Managed(name)].bytes;
      AcceptsExactly(sha, bytes, Lookup(disk, ReceiptOf(sha, name, bytes)), Lookup(disk, Managed(LegacyName(name))));
    }
  }

  function ReceiptText(sha: Bytes -> string, bytes: Bytes): string {
    PREFIX + sha(bytes)
  }

  lemma ReceiptTextIsTrimmed(sha: Bytes -> string, bytes: Bytes)
    requires Digest(sha)
    ensures Trim(ReceiptText(sha, bytes)) == ReceiptText(sha, bytes)
  {
    var text := ReceiptText(sha, bytes);
    assert text[0] == 's' && text[|text| - 1] == sha(bytes)[63];
    assert IsHexDigit(sha(bytes)[63]);
    assert Trimmed(text);
  }

  // ---------- the transition system ----------

  datatype Stage = Writing | Staged | WritingReceipt | Receipted

  datatype Job = Job(dest: string, payload: Bytes, stage: Stage)

  datatype State = State(disk: Disk, jobs: map<nat, Job>)

  /** The file operations of `install_verified_payload` and `write_digest_receipt`. Writing a
      staging file passes through every length; `Stop` is an error, a cancellation or a crash,
      which may leave the staging files behind. */
  datatype Action =
    | Begin(id: nat, dest: string, payload: Bytes)
    | WriteStaged(id: nat, length: nat)
    | MakeExecutable(id: nat)
    | WriteReceipt(id: nat, length: nat)
    | RenameReceipt(id: nat)
    | RenameStaged(id: nat)
    | Stop(id: nat, cleaned: bool)

  predicate Holds(disk: Disk, place: Place, bytes: Bytes) {
    place in disk && disk[place].bytes == bytes
  }

  predicate Can(sha: Bytes -> string, s: State, a: Action) {
    if a.Begin? then
      a.id !in s.jobs && BinaryName(a.dest) && Temp(a.id, false) !in s.disk && Temp(a.id, true) !in s.disk
    else (
      && a.id in s.jobs
      && var job := s.jobs[a.id];
        match a
        case WriteStaged(id, length) => job.stage == Writing && length <= |job.payload|
        case MakeExecutable(id) => job.stage == Writing && Holds(s.disk, Temp(id, false), job.payload)
        case WriteReceipt(id, length) =>
          (job.stage == Staged || job.stage == WritingReceipt) && length <= |ReceiptText(sha, job.payload)|
        case RenameReceipt(id) =>
          job.stage == WritingReceipt && Holds(s.disk, Temp(id, true), ReceiptText(sha, job.payload))
        case RenameStaged(id) => job.stage == Receipted && Temp(id, false) in s.disk
        case Stop(_, _) => true)
  }

  /** The file an executed `RenameReceipt` or `RenameStaged` publishes, and where. */
  function Destination(sha: Bytes -> string, s: State, a: Action): Place
    requires Can(sha, s, a) && (a.RenameReceipt? || a.RenameStaged?)
  {
    var job := s.jobs[a.id];
    if a.RenameReceipt? then ReceiptOf(sha, job.dest, job.payload) else Managed(job.dest)
  }

  function Apply(sha: Bytes -> string, s: State, a: Action): State
    requires Can(sha, s, a)
  {
    match a
    case Begin(id, dest, payload) =>
      State(s.disk[Temp(id, false) := File("", false)], s.jobs[id := Job(dest, payload, Writing)])
    case WriteStaged(id, length) =>
      State(s.disk[Temp(id, false) := File(s.jobs[id].payload[..length], false)], s.jobs)
    case MakeExecutable(id) =>
      State(s.disk[Temp(id, false) := File(s.jobs[id].payload, true)], s.jobs[id := s.jobs[id].(stage := Staged)])
    case WriteReceipt(id, length) =>
      State(s.disk[Temp(id, true) := File(ReceiptText(sha, s.jobs[id].payload)[..length], false)],
        s.jobs[id := s.jobs[id].(stage := WritingReceipt)])
    case RenameReceipt(id) =>
      State(s.disk[Destination(sha, s, a) := s.disk[Temp(id, true)]] - {Temp(id, true)},
        s.jobs[id := s.jobs[id].(stage := Receipted)])
    case RenameStaged(id) =>
      State(s.disk[Destination(sha, s, a) := s.disk[Temp(id, false)]] - {Temp(id, false)}, s.jobs - {id})
    case Stop(id, cleaned) =>
      State(if cleaned then s.disk - {Temp(id, false), Temp(id, true)} else s.disk, s.jobs - {id})
  }

  /** A staged payload is whole, and a job about to publish has its receipt on disk. */
  predicate JobReady(sha: Bytes -> string, disk: Disk, id: nat, job: Job) {
    && BinaryName(job.dest)
    && (job.stage != Writing ==> Temp(id, false) in disk && disk[Temp(id, false)] == File(job.payload, true))
    && (job.stage == Receipted ==> Holds(disk, ReceiptOf(sha, job.dest, job.payload), ReceiptText(sha, job.payload)))
  }

  predicate Valid(sha: Bytes -> string, s: State) {
    forall id | id in s.jobs :: JobReady(sha, s.disk, id, s.jobs[id])
  }

  /** What one step does to the managed directory: nothing, a whole receipt, or a whole
      executable whose receipt is already there. */
  lemma StepOnManaged(sha: Bytes -> string, s: State, a: Action, place: Place)
    requires Valid(sha, s) && Can(sha, s, a) && !place.Temp?
    requires a.RenameReceipt? || a.RenameStaged? ==> Destination(sha, s, a) != place
    ensures Lookup(Apply(sha, s, a).disk, place) == Lookup(s.disk, place)
  {
  }

  lemma StepPublishes(sha: Bytes -> string, s: State, a: Action)
    requires Valid(sha, s) && Can(sha, s, a) && (a.RenameReceipt? || a.RenameStaged?)
    ensures var job := s.jobs[a.id];
      var published := Lookup(Apply(sha, s, a).disk, Destination(sha, s, a));
      && published.Some?
      && (a.RenameReceipt? ==> published.value.bytes == ReceiptText(sha, job.payload))
      && (a.RenameStaged? ==> published == Some(File(job.payload, true)))
  {
    assert JobReady(sha, s.disk, a.id, s.jobs[a.id]);
  }

  /** Receipts never change once they are whole, whoever writes the same one again. */
  lemma ReceiptStays(sha: Bytes -> string, s: State, a: Action, name: string, bytes: Bytes)
    requires Digest(sha) && Valid(sha, s) && Can(sha, s, a)
    ensures var place := ReceiptOf(sha, name, bytes);
      var after := Lookup(Apply(sha, s, a).disk, place);
      after == Lookup(s.disk, place) || (after.Some? && after.value.bytes == ReceiptText(sha, bytes))
  {
    var place := ReceiptOf(sha, name, bytes);
    ReceiptNamesDigest(name, sha(bytes));
    if (a.RenameReceipt? || a.RenameStaged?) && Destination(sha, s, a) == place {
      var job := s.jobs[a.id];
      assert JobReady(sha, s.disk, a.id, job);
      ReceiptNamesDigest(job.dest, sha(job.payload));
      StepPublishes(sha, s, a);
    } else {
      StepOnManaged(sha, s, a, place);
    }
  }

  lemma StepValid(sha: Bytes -> string, s: State, a: Action)
    requires Digest(sha) && Valid(sha, s) && Can(sha, s, a)
    ensures Valid(sha, Apply(sha, s, a))
  {
    var next := Apply(sha, s, a);
    forall id | id in next.jobs
      ensures JobReady(sha, next.disk, id, next.jobs[id])
    {
      var job := next.jobs[id];
      if id in s.jobs {
        assert JobReady(sha, s.disk, id, s.jobs[id]);
        ReceiptStays(sha, s, a, job.dest, job.payload);
        if id == a.id && a.RenameReceipt? {
          StepPublishes(sha, s, a);
        }
      }
    }
  }

  /** A binary keeps its file through a step, or is replaced by one job's whole payload. */
  lemma StepOnBinary(sha: Bytes -> string, s: State, a: Action, name: string)
    requires Digest(sha) && Valid(sha, s) && Can(sha, s, a) && BinaryName(name)
    ensures var after := Lookup(Apply(sha, s, a).disk, Managed(name));
      || after == Lookup(s.disk, Managed(name))
      || (a.RenameStaged? && s.jobs[a.id].dest == name && after == Some(File(s.jobs[a.id].payload, true)))
  {
    if a.RenameReceipt? {
      ReceiptNamesDigest(s.jobs[a.id].dest, sha(s.jobs[a.id].payload));
    }
    if (a.RenameReceipt? || a.RenameStaged?) && Destination(sha, s, a) == Managed(name) {
      StepPublishes(sha, s, a);
    } else {
      StepOnManaged(sha, s, a, Managed(name));
    }
  }

  /** No step touches a legacy receipt. */
  lemma LegacyStays(sha: Bytes -> string, s: State, a: Action, name: string)
    requires Digest(sha) && Valid(sha, s) && Can(sha, s, a)
    ensures Lookup(Apply(sha, s, a).disk, Managed(LegacyName(name))) == Lookup(s.disk, Managed(LegacyName(name)))
  {
    if a.RenameReceipt? || a.RenameStaged? {
      var job := s.jobs[a.id];
      assert JobReady(sha, s.disk, a.id, job);
      LegacyNamesNoReceipt(name, job.dest, sha(job.payload));
    }
    StepOnManaged(sha, s, a, Managed(LegacyName(name)));
  }

  /** A file that verifies still verifies after any step of any install. */
  lemma StepKeepsVerified(sha: Bytes -> string, s: State, a: Action, name: string)
    requires Digest(sha) && Valid(sha, s) && Can(sha, s, a) && BinaryName(name)
    requires Verified(sha, s.disk, name)
    ensures Verified(sha, Apply(sha, s, a).disk, name)
  {
    var bytes, next := s.disk[Managed(name)].bytes, Apply(sha, s, a).disk;
    StepOnBinary(sha, s, a, name);
    if Lookup(next, Managed(name)) == Lookup(s.disk, Managed(name)) {
      ReceiptStays(sha, s, a, name, bytes);
      LegacyStays(sha, s, a, name);
      ReceiptTextIsTrimmed(sha, bytes);
    } else {
      var payload := s.jobs[a.id].payload;
      assert JobReady(sha, s.disk, a.id, s.jobs[a.id]);
      ReceiptStays(sha, s, a, name, payload);
      ReceiptTextIsTrimmed(sha, payload);
    }
  }

  // ---------- runs ----------

  /** `states` is a run: every state follows from the one before by one step of some install. */
  ghost predicate Run(sha: Bytes -> string, states: seq<State>, actions: seq<Action>) {
    && |states| == |actions| + 1
    && Valid(sha, states[0])
    && forall i | 0 <= i < |actions| :: Follows(sha, states[i], actions[i], states[i + 1])
  }

  ghost predicate Follows(sha: Bytes -> string, s: State, a: Action, next: State) {
    Can(sha, s, a) && next == Apply(sha, s, a)
  }

  lemma {:induction false} RunValid(sha: Bytes -> string, states: seq<State>, actions: seq<Action>, k: nat)
    requires Digest(sha) && Run(sha, states, actions) && k < |states|
    ensures Valid(sha, states[k])
    decreases k
  {
    if k > 0 {
      RunValid(sha, states, actions, k - 1);
      assert Follows(sha, states[k - 1], actions[k - 1], states[k]);
      StepValid(sha, states[k - 1], actions[k - 1]);
    }
  }

  /** Job `id` of state `k` was begun, with this destination and payload, by an action of the run. */
  ghost predicate BegunBy(actions: seq<Action>, k: nat, dest: string, payload: Bytes) {
    exists i :: 0 <= i < |actions| && i < k && actions[i].Begin? && actions[i].dest == dest && actions[i].payload == payload
  }

  lemma {:induction false} JobsWereBegun(sha: Bytes -> string, states: seq<State>, actions: seq<Action>, k: nat, id: nat)
    requires Digest(sha) && Run(sha, states, actions) && states[0].jobs == map[]
    requires k < |states| && id in states[k].jobs
    ensures BegunBy(actions, k, states[k].jobs[id].dest, states[k].jobs[id].payload)
    decreases k
  {
    assert Follows(sha, states[k - 1], actions[k - 1], states[k]);
    var before := states[k - 1].jobs;
    if id in before && before[id].dest == states[k].jobs[id].dest && before[id].payload == states[k].jobs[id].payload {
      JobsWereBegun(sha, states, actions, k - 1, id);
    } else {
      assert actions[k - 1].Begin?;
    }
  }

  /** At every point of every run a binary holds its file from the start, or the whole payload
      of an install to it that began before. */
  lemma {:induction false} OldOrWhole(sha: Bytes -> string, states: seq<State>, actions: seq<Action>, k: nat, name: string)
    requires Digest(sha) && Run(sha, states, actions) && states[0].jobs == map[]
    requires k < |states| && BinaryName(name)
    ensures var now := Lookup(states[k].disk, Managed(name));
      || now == Lookup(states[0].disk, Managed(name))
      || (now.Some? && now.value.executable && BegunBy(actions, k, name, now.value.bytes))
    decreases k
  {
    if k > 0 {
      OldOrWhole(sha, states, actions, k - 1, name);
      RunValid(sha, states, actions, k - 1);
      assert Follows(sha, states[k - 1], actions[k - 1], states[k]);
      StepOnBinary(sha, states[k - 1], actions[k - 1], name);
      var a := actions[k - 1];
      if a.RenameStaged? && states[k - 1].jobs[a.id].dest == name {
        JobsWereBegun(sha, states, actions, k - 1, a.id);
      }
    }
  }

  /** Once a binary verifies it verifies at every later point, whatever installs do or where
      they stop. */
  lemma {:induction false} StaysVerified(sha: Bytes -> string, states: seq<State>, actions: seq<Action>, i: nat, k: nat, name: string)
    requires Digest(sha) && Run(sha, states, actions) && i <= k < |states| && BinaryName(name)
    requires Verified(sha, states[i].disk, name)
    ensures Verified(sha, states[k].disk, name)
    decreases k
  {
    if i < k {
      StaysVerified(sha, states, actions, i, k - 1, name);
      RunValid(sha, states, actions, k - 1);
      assert Follows(sha, states[k - 1], actions[k - 1], states[k]);
      StepKeepsVerified(sha, states[k - 1], actions[k - 1], name);
    }
  }

  /** Between two points of a run a receipt is unchanged, or whole. */
  lemma {:induction false} ReceiptStaysLater(sha: Bytes -> string, states: seq<State>, actions: seq<Action>, i: nat, k: nat, name: string, bytes: Bytes)
    requires Digest(sha) && Run(sha, states, actions) && i <= k < |states|
    ensures var place := ReceiptOf(sha, name, bytes);
      var later := Lookup(states[k].disk, place);
      later == Lookup(states[i].disk, place) || (later.Some? && later.value.bytes == ReceiptText(sha, bytes))
    decreases k
  {
    if i < k {
      ReceiptStaysLater(sha, states, actions, i, k - 1, name, bytes);
      RunValid(sha, states, actions, k - 1);
      assert Follows(sha, states[k - 1], actions[k - 1], states[k]);
      ReceiptStays(sha, states[k - 1], actions[k - 1], name, bytes);
    }
  }

  lemma {:induction false} LegacyStaysLater(sha: Bytes -> string, states: seq<State>, actions: seq<Action>, i: nat, k: nat, name: string)
    requires Digest(sha) && Run(sha, states, actions) && i <= k < |states|
    ensures Lookup(states[k].disk, Managed(LegacyName(name))) == Lookup(states[i].disk, Managed(LegacyName(name)))
    decreases k
  {
    if i < k {
      LegacyStaysLater(sha, states, actions, i, k - 1, name);
      RunValid(sha, states, actions, k - 1);
      assert Follows(sha, states[k - 1], actions[k - 1], states[k]);
      LegacyStays(sha, states[k - 1], actions[k - 1], name);
    }
  }

  /** A reader that takes no lock reads the binary, then the qualified receipt of what it read,
      then the legacy receipt, with any steps of any installs in between. If the binary verified
      at the start, the reader accepts what it read. */
  lemma LockFreeReaderAccepts(sha: Bytes -> string, states: seq<State>, actions: seq<Action>, name: string, i: nat, j: nat, k: nat)
    requires Digest(sha) && Run(sha, states, actions) && i <= j <= k < |states| && BinaryName(name)
    requires Verified(sha, states[0].disk, name)
    ensures Managed(name) in states[i].disk
    ensures var bytes := states[i].disk[Managed(name)].bytes;
      var (receipt, legacy) := (Lookup(states[j].disk, ReceiptOf(sha, name, bytes)), Lookup(states[k].disk, Managed(LegacyName(name))));
      Accepts(sha, bytes, receipt, legacy) && ReceiptsName(sha(bytes), receipt, legacy)
  {
    StaysVerified(sha, states, actions, 0, i, name);
    var bytes := states[i].disk[Managed(name)].bytes;
    ReceiptStaysLater(sha, states, actions, i, j, name, bytes);
    ReceiptTextIsTrimmed(sha, bytes);
    LegacyStaysLater(sha, states, actions, i, k, name);
    AcceptsExactly(sha, bytes, Lookup(states[j].disk, ReceiptOf(sha, name, bytes)), Lookup(states[k].disk, Managed(LegacyName(name))));
  }
}
