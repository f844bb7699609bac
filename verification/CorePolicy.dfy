/** The core version policy of `core_policy.rs`: parsing, precedence and the decision
    against the pinned version. */
module CorePolicy {
  import opened Wrappers
  import opened Text

  datatype Identifier = Numeric(n: nat) | Alpha(text: string)

  datatype Version = Version(major: nat, minor: nat, patch: nat, prerelease: seq<Identifier>)

  datatype Ordering = Less | Equal | Greater

  /** `u64` numbers. */
  const U64_BOUND := 0x1_0000_0000_0000_0000

  // ---------- parsing ----------

  predicate IsIdentifierChar(c: char) {
    'a' <= c <= 'z' || 'A' <= c <= 'Z' || IsDigit(c) || c == '-'
  }

  predicate IdentifierText(s: string) {
    s != "" && forall i | 0 <= i < |s| :: IsIdentifierChar(s[i])
  }

  predicate LeadingZero(s: string) {
    |s| > 1 && s[0] == '0'
  }

  /** One number of the version core. */
  function ParseNumber(s: string): Option<nat> {
    if s == "" || LeadingZero(s) || !AllDigits(s) || DecimalValue(s) >= U64_BOUND then None else Some(DecimalValue(s))
  }

  function ParseIdentifier(s: string): Option<Identifier> {
    if !IdentifierText(s) then None
    else if !AllDigits(s) then Some(Alpha(s))
    else match ParseNumber(s)
      case Some(n) => Some(Numeric(n))
      case None => None
  }

  function ParseIdentifiers(parts: seq<string>): Option<seq<Identifier>> {
    if parts == [] then Some([])
    else match (ParseIdentifier(parts[0]), ParseIdentifiers(parts[1..]))
      case (Some(first), Some(rest)) => Some([first] + rest)
      case _ => None
  }

  function StripV(s: string): string {
    if s != "" && s[0] == 'v' then s[1..] else s
  }

  predicate EndsWith(s: string, c: char) {
    s != "" && s[|s| - 1] == c
  }

  /** `split_once(sep).unwrap_or((text, ""))`. */
  function SplitOnceOr(s: string, sep: char): (string, string) {
    match SplitOnce(s, sep)
    case Some(pair) => pair
    case None => (s, "")
  }

  predicate BuildText(build: string) {
    build == "" || forall part | part in Split(build, '.') :: IdentifierText(part)
  }

  /** `Version::parse`. */
  function Parse(input: string): Option<Version> {
    var raw := StripV(input);
    var (withoutBuild, build) := SplitOnceOr(raw, '+');
    var (core, pre) := SplitOnceOr(withoutBuild, '-');
    var nums := Split(core, '.');
    if '+' in build || !BuildText(build) then None
    else if EndsWith(raw, '-') || EndsWith(raw, '+') then None
    else if |nums| != 3 then None
    else match (ParseNumber(nums[0]), ParseNumber(nums[1]), ParseNumber(nums[2]))
      case (Some(major), Some(minor), Some(patch)) =>
        (match if pre == "" then Some([]) else ParseIdentifiers(Split(pre, '.'))
         case Some(prerelease) => Some(Version(major, minor, patch, prerelease))
         case None => None)
      case _ => None
  }

  // ---------- precedence ----------

  function CompareNat(a: nat, b: nat): Ordering {
    if a < b then Less else if a == b then Equal else Greater
  }

  /** Byte-wise comparison of ASCII text. */
  function CompareText(a: string, b: string): Ordering {
    if a == "" && b == "" then Equal
    else if a == "" then Less
    else if b == "" then Greater
    else if a[0] != b[0] then CompareNat(a[0] as int, b[0] as int)
    else CompareText(a[1..], b[1..])
  }

  function CompareIdentifier(a: Identifier, b: Identifier): Ordering {
    match (a, b)
    case (Numeric(m), Numeric(n)) => CompareNat(m, n)
    case (Numeric(_), Alpha(_)) => Less
    case (Alpha(_), Numeric(_)) => Greater
    case (Alpha(s), Alpha(t)) => CompareText(s, t)
  }

  /** The zipped loop over two nonempty prereleases, then their lengths. */
  function CompareIdentifiers(a: seq<Identifier>, b: seq<Identifier>): Ordering {
    if a == [] || b == [] then CompareNat(|a|, |b|)
    else if CompareIdentifier(a[0], b[0]) != Equal then CompareIdentifier(a[0], b[0])
    else CompareIdentifiers(a[1..], b[1..])
  }

  function Then(first: Ordering, second: Ordering): Ordering {
    if first == Equal then second else first
  }

  /** `Version::cmp`. */
  function Compare(a: Version, b: Version): Ordering {
    Then(CompareNat(a.major, b.major),
    Then(CompareNat(a.minor, b.minor),
    Then(CompareNat(a.patch, b.patch),
      if a.prerelease == [] && b.prerelease == [] then Equal
      else if a.prerelease == [] then Greater
      else if b.prerelease == [] then Less
      else CompareIdentifiers(a.prerelease, b.prerelease))))
  }

  // ---------- section 11 of Semantic Versioning 2.0.0, stated on its own ----------

  /** ASCII sort order: a proper prefix, or a smaller character at the first difference. */
  ghost predicate TextBefore(a: string, b: string) {
    || a < b
    || exists i | 0 <= i < |a| && i < |b| :: a[..i] == b[..i] && a[i] as int < b[i] as int
  }

  /** Numbers compare numerically and below text; text compares in ASCII order. */
  ghost predicate IdentifierBefore(a: Identifier, b: Identifier) {
    match (a, b)
    case (Numeric(m), Numeric(n)) => m < n
    case (Numeric(_), Alpha(_)) => true
    case (Alpha(_), Numeric(_)) => false
    case (Alpha(s), Alpha(t)) => TextBefore(s, t)
  }

  /** The first differing identifier decides; a longer list wins when all earlier ones agree. */
  ghost predicate PrereleaseBefore(a: seq<Identifier>, b: seq<Identifier>) {
    || a < b
    || exists i :: DecidedAt(a, b, i)
  }

  /** Lower precedence. */
  ghost predicate Precedes(a: Version, b: Version) {
    || a.major < b.major
    || (a.major == b.major && a.minor < b.minor)
    || (a.major == b.major && a.minor == b.minor && a.patch < b.patch)
    || (a.major == b.major && a.minor == b.minor && a.patch == b.patch
        && (if b.prerelease == [] then a.prerelease != []
            else a.prerelease != [] && PrereleaseBefore(a.prerelease, b.prerelease)))
  }

  lemma {:induction false} TextMatches(a: string, b: string)
    ensures CompareText(a, b) == Less <==> TextBefore(a, b)
    ensures CompareText(a, b) == Equal <==> a == b
    ensures CompareText(a, b) == Greater <==> TextBefore(b, a)
  {
    if a != "" && b != "" {
      if a[0] == b[0] {
        TextMatches(a[1..], b[1..]);
        TextBeforeTail(a, b);
        TextBeforeTail(b, a);
        assert a == [a[0]] + a[1..] && b == [b[0]] + b[1..];
      } else {
        assert a[..0] == b[..0];
        TextBeforeHead(a, b);
        TextBeforeHead(b, a);
      }
    }
  }

  lemma TextBeforeHead(a: string, b: string)
    requires a != "" && b != "" && a[0] != b[0]
    ensures TextBefore(a, b) <==> a[0] as int < b[0] as int
  {
    forall i | 0 < i <= |a| && i <= |b|
      ensures a[..i] != b[..i]
    {
      assert a[..i][0] == a[0] && b[..i][0] == b[0];
    }
    assert a[..0] == b[..0];
  }

  lemma TextBeforeTail(a: string, b: string)
    requires a != "" && b != "" && a[0] == b[0]
    ensures TextBefore(a, b) <==> TextBefore(a[1..], b[1..])
  {
    var x, y := a[1..], b[1..];
    assert a == [a[0]] + x && b == [b[0]] + y;
    if TextBefore(x, y) && !(x < y) {
      var i :| 0 <= i < |x| && i < |y| && x[..i] == y[..i] && x[i] as int < y[i] as int;
      assert a[..i + 1] == [a[0]] + x[..i] && b[..i + 1] == [b[0]] + y[..i];
    }
    if TextBefore(a, b) && !(a < b) {
      var i :| 0 <= i < |a| && i < |b| && a[..i] == b[..i] && a[i] as int < b[i] as int;
      assert x[..i - 1] == a[..i][1..] && y[..i - 1] == b[..i][1..];
      assert x[i - 1] == a[i] && y[i - 1] == b[i];
    }
  }

  lemma IdentifierMatches(a: Identifier, b: Identifier)
    ensures CompareIdentifier(a, b) == Less <==> IdentifierBefore(a, b)
    ensures CompareIdentifier(a, b) == Equal <==> a == b
    ensures CompareIdentifier(a, b) == Greater <==> IdentifierBefore(b, a)
  {
    if a.Alpha? && b.Alpha? {
      TextMatches(a.text, b.text);
    }
  }

  lemma {:induction false} PrereleaseMatches(a: seq<Identifier>, b: seq<Identifier>)
    ensures CompareIdentifiers(a, b) == Less <==> PrereleaseBefore(a, b)
    ensures CompareIdentifiers(a, b) == Equal <==> a == b
    ensures CompareIdentifiers(a, b) == Greater <==> PrereleaseBefore(b, a)
  {
    if a != [] && b != [] {
      IdentifierMatches(a[0], b[0]);
      if a[0] == b[0] {
        PrereleaseMatches(a[1..], b[1..]);
        PrereleaseTail(a, b);
        PrereleaseTail(b, a);
        assert a == [a[0]] + a[1..] && b == [b[0]] + b[1..];
      } else {
        PrereleaseHead(a, b);
        PrereleaseHead(b, a);
      }
    }
  }

  lemma PrereleaseHead(a: seq<Identifier>, b: seq<Identifier>)
    requires a != [] && b != [] && a[0] != b[0]
    ensures PrereleaseBefore(a, b) <==> IdentifierBefore(a[0], b[0])
  {
    forall i | 0 < i <= |a| && i <= |b|
      ensures a[..i] != b[..i]
    {
      assert a[..i][0] == a[0] && b[..i][0] == b[0];
    }
    assert a[..0] == b[..0];
    assert DecidedAt(a, b, 0) <==> IdentifierBefore(a[0], b[0]);
  }

  /** The lists agree before place `i`, which decides. */
  ghost predicate DecidedAt(a: seq<Identifier>, b: seq<Identifier>, i: int) {
    0 <= i < |a| && i < |b| && a[..i] == b[..i] && IdentifierBefore(a[i], b[i])
  }

  lemma DecidedBehind(a: seq<Identifier>, b: seq<Identifier>, i: nat)
    requires a != [] && b != [] && a[0] == b[0]
    ensures DecidedAt(a, b, i + 1) <==> DecidedAt(a[1..], b[1..], i)
  {
    if i < |a| - 1 && i < |b| - 1 {
      assert a[..i + 1] == [a[0]] + a[1..][..i] && b[..i + 1] == [b[0]] + b[1..][..i];
      assert a[1..][..i] == a[..i + 1][1..] && b[1..][..i] == b[..i + 1][1..];
    }
  }

  lemma PrereleaseTail(a: seq<Identifier>, b: seq<Identifier>)
    requires a != [] && b != [] && a[0] == b[0]
    ensures PrereleaseBefore(a, b) <==> PrereleaseBefore(a[1..], b[1..])
  {
    var x, y := a[1..], b[1..];
    assert a == [a[0]] + x && b == [b[0]] + y;
    if i: int :| DecidedAt(x, y, i) {
      DecidedBehind(a, b, i);
    }
    if i: int :| DecidedAt(a, b, i) {
      IdentifierMatches(a[i], b[i]);
      DecidedBehind(a, b, i - 1);
    }
  }

  /** `Version::cmp` is the precedence of section 11, and equal only on equal versions. */
  lemma CompareIsPrecedence(a: Version, b: Version)
    ensures Compare(a, b) == Less <==> Precedes(a, b)
    ensures Compare(a, b) == Equal <==> a == b
    ensures Compare(a, b) == Greater <==> Precedes(b, a)
  {
    PrereleaseMatches(a.prerelease, b.prerelease);
  }

  // ---------- a total order ----------

  lemma {:induction false} TextTransitive(a: string, b: string, c: string)
    requires CompareText(a, b) != Greater && CompareText(b, c) != Greater
    ensures CompareText(a, c) != Greater
  {
    if a != "" && b != "" && c != "" && a[0] == b[0] == c[0] {
      TextTransitive(a[1..], b[1..], c[1..]);
    }
  }

  lemma {:induction false} IdentifiersTransitive(a: seq<Identifier>, b: seq<Identifier>, c: seq<Identifier>)
    requires CompareIdentifiers(a, b) != Greater && CompareIdentifiers(b, c) != Greater
    ensures CompareIdentifiers(a, c) != Greater
  {
    if a != [] && b != [] && c != [] {
      IdentifierMatches(a[0], b[0]);
      IdentifierMatches(b[0], c[0]);
      IdentifierMatches(a[0], c[0]);
      if a[0].Alpha? && b[0].Alpha? && c[0].Alpha? {
        TextTransitive(a[0].text, b[0].text, c[0].text);
        if a[0] == c[0] {
          TextMatches(a[0].text, b[0].text);
          TextMatches(c[0].text, b[0].text);
        }
      }
      if a[0] == b[0] == c[0] {
        IdentifiersTransitive(a[1..], b[1..], c[1..]);
      }
    }
  }

  /** Precedence is total, antisymmetric and transitive. */
  lemma CompareIsTotalOrder(a: Version, b: Version, c: Version)
    ensures Compare(a, b) != Greater || Compare(b, a) != Greater
    ensures Compare(a, b) != Greater && Compare(b, a) != Greater ==> a == b
    ensures Compare(a, b) != Greater && Compare(b, c) != Greater ==> Compare(a, c) != Greater
  {
    CompareIsPrecedence(a, b);
    CompareIsPrecedence(b, a);
    if Compare(a, b) != Greater && Compare(b, c) != Greater
      && a.prerelease != [] && b.prerelease != [] && c.prerelease != []
      && CompareIdentifiers(a.prerelease, b.prerelease) != Greater
      && CompareIdentifiers(b.prerelease, c.prerelease) != Greater {
      IdentifiersTransitive(a.prerelease, b.prerelease, c.prerelease);
    }
  }

  // ---------- the decision ----------

  datatype VersionPolicy = Exact | NewerWithinMajor | OlderThanPinned | UnsupportedMajor | Prerelease

  predicate IsUsable(policy: VersionPolicy) {
    policy == Exact || policy == NewerWithinMajor
  }

  function Decide(got: Version, pin: Version): VersionPolicy {
    if got.prerelease != [] then Prerelease
    else if got.major != pin.major then UnsupportedMajor
    else match Compare(got, pin)
      case Equal => Exact
      case Greater => NewerWithinMajor
      case Less => OlderThanPinned
  }

  /** `classify`: no value when either text is no version. */
  function Classify(observed: string, required: string): Option<VersionPolicy> {
    match (Parse(observed), Parse(required))
    case (Some(got), Some(pin)) => Some(Decide(got, pin))
    case _ => None
  }

  /** `is_newer_than`. */
  function IsNewerThan(observed: string, target: string): Option<bool> {
    match (Parse(observed), Parse(target))
    case (Some(got), Some(pin)) => Some(Compare(got, pin) == Greater)
    case _ => None
  }

  /** `is_newer_than` is strict precedence of the target. */
  lemma IsNewerThanExactly(observed: string, target: string)
    ensures IsNewerThan(observed, target) == Some(true)
      <==> Parse(observed).Some? && Parse(target).Some? && Precedes(Parse(target).value, Parse(observed).value)
  {
    if Parse(observed).Some? && Parse(target).Some? {
      CompareIsPrecedence(Parse(observed).value, Parse(target).value);
    }
  }

  predicate Usable(observed: string, required: string) {
    Classify(observed, required).Some? && IsUsable(Classify(observed, required).value)
  }

  /** A usable version is a release of the pinned major that the pin does not exceed, and nothing else is usable. */
  lemma UsableExactly(observed: string, required: string)
    ensures Usable(observed, required)
      <==> && Parse(observed).Some? && Parse(required).Some?
           && Parse(observed).value.prerelease == []
           && Parse(observed).value.major == Parse(required).value.major
           && !Precedes(Parse(observed).value, Parse(required).value)
  {
    if Parse(observed).Some? && Parse(required).Some? {
      CompareIsPrecedence(Parse(observed).value, Parse(required).value);
    }
  }

  /** Usability is upward closed among the releases of the pinned major; prereleases never are usable. */
  lemma UsableUpwardClosed(observed: string, newer: string, required: string)
    requires Usable(observed, required) && Parse(newer).Some?
    ensures (&& Parse(newer).value.prerelease == []
             && Parse(newer).value.major == Parse(observed).value.major
             && !Precedes(Parse(newer).value, Parse(observed).value)) ==> Usable(newer, required)
    ensures Parse(newer).value.prerelease != [] ==> !Usable(newer, required)
  {
    var low, high, pin := Parse(observed).value, Parse(newer).value, Parse(required).value;
    CompareIsPrecedence(high, low);
    CompareIsPrecedence(low, high);
    CompareIsPrecedence(low, pin);
    CompareIsPrecedence(pin, low);
    CompareIsPrecedence(high, pin);
    CompareIsPrecedence(pin, high);
    CompareIsTotalOrder(pin, low, high);
  }

  // ---------- printing and parsing ----------

  /** Identifiers as the grammar of section 9 allows them. */
  predicate ValidIdentifier(id: Identifier) {
    match id
    case Numeric(n) => n < U64_BOUND
    case Alpha(text) => IdentifierText(text) && !AllDigits(text)
  }

  predicate ValidVersion(v: Version) {
    && v.major < U64_BOUND && v.minor < U64_BOUND && v.patch < U64_BOUND
    && forall i | 0 <= i < |v.prerelease| :: ValidIdentifier(v.prerelease[i])
  }

  function IdentifierString(id: Identifier): string {
    match id
    case Numeric(n) => Decimal(n)
    case Alpha(text) => text
  }

  function IdentifierStrings(ids: seq<Identifier>): seq<string> {
    seq(|ids|, i requires 0 <= i < |ids| => IdentifierString(ids[i]))
  }

  function CoreString(v: Version): string {
    Join([Decimal(v.major), Decimal(v.minor), Decimal(v.patch)], '.')
  }

  /** The text of a version without build metadata. */
  function Render(v: Version): string {
    if v.prerelease == [] then CoreString(v) else CoreString(v) + ['-'] + Join(IdentifierStrings(v.prerelease), '.')
  }

  /** The text of a version with the given build metadata, if any. */
  function RenderWith(v: Version, build: string): string {
    if build == "" then Render(v) else Render(v) + ['+'] + build
  }

  lemma {:induction false} ParsedIdentifierIsValid(parts: seq<string>)
    ensures ParseIdentifiers(parts).Some? ==>
      |ParseIdentifiers(parts).value| == |parts|
      && forall i | 0 <= i < |parts| :: ValidIdentifier(ParseIdentifiers(parts).value[i])
  {
    if parts != [] {
      ParsedIdentifierIsValid(parts[1..]);
    }
  }

  /** Everything the parser returns satisfies the grammar's limits. */
  lemma ParsedIsValid(input: string)
    ensures Parse(input).Some? ==> ValidVersion(Parse(input).value)
  {
    var (withoutBuild, _) := SplitOnceOr(StripV(input), '+');
    var (_, pre) := SplitOnceOr(withoutBuild, '-');
    ParsedIdentifierIsValid(Split(pre, '.'));
  }

  lemma NumberReadsBack(n: nat)
    requires n < U64_BOUND
    ensures ParseNumber(Decimal(n)) == Some(n)
    ensures forall c | c in Decimal(n) :: IsDigit(c)
  {
    DecimalRoundTrip(n);
  }

  lemma IdentifierReadsBack(id: Identifier)
    requires ValidIdentifier(id)
    ensures ParseIdentifier(IdentifierString(id)) == Some(id)
    ensures IdentifierString(id) != ""
    ensures forall c | c in IdentifierString(id) :: IsIdentifierChar(c)
  {
    if id.Numeric? {
      NumberReadsBack(id.n);
    }
  }

  lemma {:induction false} IdentifiersReadBack(ids: seq<Identifier>)
    requires forall i | 0 <= i < |ids| :: ValidIdentifier(ids[i])
    ensures ParseIdentifiers(IdentifierStrings(ids)) == Some(ids)
    ensures forall p | p in IdentifierStrings(ids) :: p != "" && forall c | c in p :: IsIdentifierChar(c)
  {
    if ids != [] {
      IdentifierReadsBack(ids[0]);
      assert IdentifierStrings(ids)[1..] == IdentifierStrings(ids[1..]);
      IdentifiersReadBack(ids[1..]);
      assert [ids[0]] + ids[1..] == ids;
      assert forall p | p in IdentifierStrings(ids) :: p == IdentifierString(ids[0]) || p in IdentifierStrings(ids[1..]);
    }
  }

  lemma {:induction false} JoinChars(parts: seq<string>, sep: char, c: char)
    requires c != sep && forall p | p in parts :: c !in p
    ensures c !in Join(parts, sep)
  {
    if |parts| > 1 {
      JoinChars(parts[1..], sep, c);
    }
  }

  lemma CoreReadsBack(v: Version)
    requires ValidVersion(v)
    ensures Split(CoreString(v), '.') == [Decimal(v.major), Decimal(v.minor), Decimal(v.patch)]
    ensures '+' !in CoreString(v) && '-' !in CoreString(v)
    ensures CoreString(v) != "" && IsDigit(CoreString(v)[0]) && IsDigit(CoreString(v)[|CoreString(v)| - 1])
  {
    var parts := [Decimal(v.major), Decimal(v.minor), Decimal(v.patch)];
    NumberReadsBack(v.major);
    NumberReadsBack(v.minor);
    NumberReadsBack(v.patch);
    assert forall p | p in parts :: forall c | c in p :: IsDigit(c);
    SplitJoin(parts, '.');
    JoinChars(parts, '.', '+');
    JoinChars(parts, '.', '-');
    assert Join(parts[1..][1..], '.') == Decimal(v.patch);
  }

  lemma PrereleaseReadsBack(ids: seq<Identifier>)
    requires ids != [] && forall i | 0 <= i < |ids| :: ValidIdentifier(ids[i])
    ensures var text := Join(IdentifierStrings(ids), '.');
      && text != "" && '+' !in text && ParseIdentifiers(Split(text, '.')) == Some(ids)
  {
    IdentifiersReadBack(ids);
    var parts := IdentifierStrings(ids);
    assert parts[0] in parts && parts[0] != "";
    assert forall p | p in parts :: '.' !in p && '+' !in p by {
      assert !IsIdentifierChar('.') && !IsIdentifierChar('+');
    }
    SplitJoin(parts, '.');
    JoinChars(parts, '.', '+');
  }

  lemma {:induction false} SplitKeepsChar(text: string, sep: char, c: char)
    requires c in text && c != sep
    ensures exists part :: part in Split(text, sep) && c in part
  {
    var rest := Split(text[1..], sep);
    var parts := Split(text, sep);
    if text[0] != sep {
      assert parts[0] == [text[0]] + rest[0] && parts[1..] == rest[1..];
    } else {
      assert parts[1..] == rest;
    }
    if text[0] == c {
      assert parts[0] in parts && c in parts[0];
    } else {
      SplitKeepsChar(text[1..], sep, c);
      var part :| part in rest && c in part;
      var i :| 0 <= i < |rest| && rest[i] == part;
      if text[0] == sep {
        assert parts[i + 1] == part;
      } else if i == 0 {
        assert parts[0] in parts && c in parts[0];
      } else {
        assert parts[1..][i - 1] == rest[1..][i - 1] == part;
        assert parts[i] == part;
      }
    }
  }

  lemma BuildHasNoPlus(build: string)
    requires BuildText(build)
    ensures '+' !in build
  {
    if '+' in build {
      SplitKeepsChar(build, '.', '+');
    }
  }

  lemma RenderedPieces(v: Version)
    requires ValidVersion(v)
    ensures Render(v) != "" && Render(v)[0] != 'v' && '+' !in Render(v) && !EndsWith(Render(v), '+')
    ensures SplitOnceOr(Render(v), '-').0 == CoreString(v)
    ensures v.prerelease == [] ==> SplitOnceOr(Render(v), '-').1 == ""
    ensures v.prerelease != [] ==> SplitOnceOr(Render(v), '-').1 == Join(IdentifierStrings(v.prerelease), '.')
  {
    CoreReadsBack(v);
    NumberReadsBack(v.major);
    var core, raw := CoreString(v), Render(v);
    assert raw[0] == core[0];
    if v.prerelease == [] {
      SplitOnceAt(core, "", '-');
    } else {
      PrereleaseReadsBack(v.prerelease);
      SplitOnceAt(core, Join(IdentifierStrings(v.prerelease), '.'), '-');
    }
  }

  /** A valid version's text, with or without build metadata, parses back to the version, except
      when the text ends in a hyphen: the grammar allows it, the parser refuses it. */
  lemma RenderParses(v: Version, build: string)
    requires ValidVersion(v) && BuildText(build)
    ensures Parse(RenderWith(v, build)) == if EndsWith(RenderWith(v, build), '-') then None else Some(v)
  {
    CoreReadsBack(v);
    NumberReadsBack(v.major);
    NumberReadsBack(v.minor);
    NumberReadsBack(v.patch);
    RenderedPieces(v);
    BuildHasNoPlus(build);
    var raw := RenderWith(v, build);
    SplitOnceAt(Render(v), build, '+');
    assert SplitOnceOr(raw, '+') == (Render(v), build);
    assert raw[0] == Render(v)[0];
    assert !EndsWith(raw, '+') by {
      if build != "" {
        assert raw[|raw| - 1] == build[|build| - 1];
      }
    }
    if v.prerelease != [] {
      PrereleaseReadsBack(v.prerelease);
    }
  }

  // ---------- the accepted texts ----------

  lemma NumberIsPrinted(s: string)
    ensures ParseNumber(s).Some? ==> s == Decimal(ParseNumber(s).value)
  {
    if ParseNumber(s).Some? {
      DigitsPrintBack(s);
    }
  }

  lemma {:induction false} IdentifiersArePrinted(parts: seq<string>)
    ensures ParseIdentifiers(parts).Some? ==> parts == IdentifierStrings(ParseIdentifiers(parts).value)
  {
    if parts != [] && ParseIdentifiers(parts).Some? {
      IdentifiersArePrinted(parts[1..]);
      NumberIsPrinted(parts[0]);
      var ids := ParseIdentifiers(parts).value;
      assert parts[0] == IdentifierString(ids[0]);
      assert IdentifierStrings(ids)[1..] == IdentifierStrings(ids[1..]);
      assert parts == [parts[0]] + parts[1..];
    }
  }

  /** The texts of a version: the grammar's, with or without build metadata; and, for a release
      with build metadata, one with a hyphen before the plus, which the grammar does not allow.
      None of them may end in a hyphen. */
  predicate IsTextOf(raw: string, v: Version, build: string) {
    && BuildText(build) && !EndsWith(raw, '-')
    && (|| raw == RenderWith(v, build)
        || (v.prerelease == [] && build != "" && raw == CoreString(v) + ['-', '+'] + build))
  }

  lemma HyphenPlusParses(v: Version, build: string)
    requires ValidVersion(v) && v.prerelease == [] && BuildText(build) && build != "" && !EndsWith(build, '-')
    ensures Parse(CoreString(v) + ['-', '+'] + build) == Some(v)
  {
    CoreReadsBack(v);
    NumberReadsBack(v.major);
    NumberReadsBack(v.minor);
    NumberReadsBack(v.patch);
    BuildHasNoPlus(build);
    var raw := CoreString(v) + ['-', '+'] + build;
    assert raw == (CoreString(v) + ['-']) + ['+'] + build && CoreString(v) + ['-'] == CoreString(v) + ['-'] + "";
    SplitOnceAt(CoreString(v) + ['-'], build, '+');
    SplitOnceAt(CoreString(v), "", '-');
    assert raw[0] == CoreString(v)[0] && raw[|raw| - 1] == build[|build| - 1];
    assert build[|build| - 1] in build;
  }

  lemma TextStartsWithDigit(raw: string, v: Version, build: string)
    requires IsTextOf(raw, v, build) && ValidVersion(v)
    ensures raw != "" && IsDigit(raw[0])
  {
    CoreReadsBack(v);
    assert Render(v)[0] == CoreString(v)[0];
  }

  /** A text of a version parses as that version. */
  lemma TextParses(raw: string, v: Version, build: string)
    requires IsTextOf(raw, v, build) && ValidVersion(v)
    ensures Parse(raw) == Some(v)
  {
    if raw == RenderWith(v, build) {
      RenderParses(v, build);
    } else {
      assert raw[|raw| - 1] == build[|build| - 1];
      HyphenPlusParses(v, build);
    }
  }

  lemma ThreeNumbersArePrinted(core: string, nums: seq<string>, v: Version)
    requires nums == Split(core, '.') && |nums| == 3
    requires ParseNumber(nums[0]) == Some(v.major) && ParseNumber(nums[1]) == Some(v.minor) && ParseNumber(nums[2]) == Some(v.patch)
    ensures core == CoreString(v)
  {
    JoinSplit(core, '.');
    NumberIsPrinted(nums[0]);
    NumberIsPrinted(nums[1]);
    NumberIsPrinted(nums[2]);
    assert nums == [Decimal(v.major), Decimal(v.minor), Decimal(v.patch)];
  }

  /** The piece before the build metadata is the version's text, or that of a release and a hyphen. */
  lemma PiecesArePrinted(withoutBuild: string, core: string, pre: string, v: Version)
    requires (core, pre) == SplitOnceOr(withoutBuild, '-') && core == CoreString(v)
    requires if pre == "" then v.prerelease == [] else ParseIdentifiers(Split(pre, '.')) == Some(v.prerelease)
    ensures withoutBuild == Render(v) || (v.prerelease == [] && withoutBuild == CoreString(v) + ['-'])
  {
    SplitOnceExactly(withoutBuild, '-');
    if pre != "" {
      JoinSplit(pre, '.');
      IdentifiersArePrinted(Split(pre, '.'));
      ParsedIdentifierIsValid(Split(pre, '.'));
    }
  }

  /** What parses is a text of the version it parses as. */
  lemma ParsedIsText(input: string)
    requires Parse(input).Some?
    ensures exists build :: IsTextOf(StripV(input), Parse(input).value, build)
  {
    var raw, v := StripV(input), Parse(input).value;
    var (withoutBuild, build) := SplitOnceOr(raw, '+');
    var (core, pre) := SplitOnceOr(withoutBuild, '-');
    ThreeNumbersArePrinted(core, Split(core, '.'), v);
    PiecesArePrinted(withoutBuild, core, pre, v);
    AddBuild(raw, withoutBuild, build, v);
  }

  lemma AddBuild(raw: string, withoutBuild: string, build: string, v: Version)
    requires (withoutBuild, build) == SplitOnceOr(raw, '+') && BuildText(build)
    requires !EndsWith(raw, '-') && !EndsWith(raw, '+')
    requires withoutBuild == Render(v) || (v.prerelease == [] && withoutBuild == CoreString(v) + ['-'])
    ensures IsTextOf(raw, v, build)
  {
    SplitOnceExactly(raw, '+');
    if SplitOnce(raw, '+').Some? {
      assert raw == withoutBuild + ['+'] + build;
      assert CoreString(v) + ['-'] + ['+'] + build == CoreString(v) + ['-', '+'] + build;
    }
  }

  /** The parser accepts exactly the texts of valid versions, with or without a leading `v`. */
  lemma ParseExactly(input: string, v: Version)
    ensures Parse(input) == Some(v)
      <==> ValidVersion(v) && exists raw, build :: (input == raw || input == ['v'] + raw) && IsTextOf(raw, v, build)
  {
    if Parse(input) == Some(v) {
      ParsedIsValid(input);
      ParsedIsText(input);
      var build :| IsTextOf(StripV(input), v, build);
      assert input == StripV(input) || input == ['v'] + StripV(input);
    }
    if ValidVersion(v) {
      forall raw, build | (input == raw || input == ['v'] + raw) && IsTextOf(raw, v, build)
        ensures Parse(input) == Some(v)
      {
        TextParses(raw, v, build);
        TextStartsWithDigit(raw, v, build);
        assert StripV(input) == raw == StripV(raw);
      }
    }
  }

  /** Two valid versions the parser refuses: 1.0.0-a- and 1.0.0+b-. */
  lemma HyphenIsRefused()
    ensures ValidVersion(Version(1, 0, 0, [Alpha("a-")])) && Parse(Render(Version(1, 0, 0, [Alpha("a-")]))) == None
    ensures BuildText("b-") && Parse(RenderWith(Version(1, 0, 0, []), "b-")) == None
  {
    var v, w := Version(1, 0, 0, [Alpha("a-")]), Version(1, 0, 0, []);
    assert !IsDigit("a-"[0]) && IsIdentifierChar('a') && IsIdentifierChar('b') && IsIdentifierChar('-');
    SplitHead("b-", "", '.');
    RenderParses(v, "");
    var pre := Join(IdentifierStrings(v.prerelease), '.');
    assert IdentifierStrings(v.prerelease) == ["a-"] && pre == "a-";
    assert Render(v)[|Render(v)| - 1] == pre[|pre| - 1] == '-';
    RenderParses(w, "b-");
    assert RenderWith(w, "b-")[|RenderWith(w, "b-")| - 1] == "b-"[1];
  }
}
