/** Rotating a weak controller secret in place, fail closed (`enhance/mod.rs`). */
module ControllerSecret {
  import opened Wrappers
  import opened Text
  import opened Yaml
  import opened SecretLine

  // ---------- layouts the line edit refuses ----------

  datatype Refusal = MultiDocument | FlowRoot | QuotedKey | DuplicateKey | UnsafeValue

  /** `line.trim_end_matches(['\n', '\r'])`. */
  function Bare(line: string): string {
    if line != [] && (line[|line| - 1] == '\n' || line[|line| - 1] == '\r') then Bare(line[..|line| - 1]) else line
  }

  predicate StartsWith(s: string, prefix: string) {
    prefix <= s
  }

  /** What one line means for the layout check, given how many root `secret` lines came before. */
  datatype Verdict = Refuse(reason: Refusal) | Skip | Counted

  /** The verdict on a root entry by its trimmed key and value. */
  function InspectEntry(key: string, value: string, seen: nat): Verdict {
    if key == "'secret'" || key == "\"secret\"" then Refuse(QuotedKey)
    else if key != "secret" then Skip
    else if seen > 0 then Refuse(DuplicateKey)
    else if value == "" || value[0] in {'|', '>', '*', '&'} then Refuse(UnsafeValue)
    else Counted
  }

  predicate DocumentMarker(trimmed: string) {
    trimmed == "---" || trimmed == "..." || StartsWith(trimmed, "--- ")
  }

  function InspectBare(bare: string, seen: nat): Verdict {
    var trimmed := Trim(bare);
    if DocumentMarker(trimmed) then Refuse(MultiDocument)
    else if trimmed == "" || trimmed[0] == '#' || Indented(bare) then Skip
    else if trimmed[0] == '{' || trimmed[0] == '[' then Refuse(FlowRoot)
    else match SplitOnce(bare, ':')
      case None => Skip
      case Some((key, value)) => InspectEntry(TrimKey(key, false), Trim(value), seen)
  }

  function Inspect(line: string, seen: nat): Verdict {
    InspectBare(Bare(line), seen)
  }

  /** The first refusal from line `i` on. */
  function RefusalFrom(lines: seq<string>, i: nat, seen: nat): Option<Refusal>
    requires i <= |lines|
    decreases |lines| - i
  {
    if i == |lines| then None
    else match Inspect(lines[i], seen)
      case Refuse(reason) => Some(reason)
      case Skip => RefusalFrom(lines, i + 1, seen)
      case Counted => RefusalFrom(lines, i + 1, seen + 1)
  }

  /** `secret_layout_refusal`. */
  method SecretLayoutRefusal(body: string) returns (reason: Option<Refusal>)
    ensures reason == RefusalFrom(Lines(body), 0, 0)
  {
    var lines := Lines(body);
    var rootSecretLines := 0;
    for i := 0 to |lines|
      invariant rootSecretLines >= 0
      invariant RefusalFrom(lines, i, rootSecretLines) == RefusalFrom(lines, 0, 0)
    {
      match Inspect(lines[i], rootSecretLines)
      case Refuse(why) => return Some(why);
      case Skip =>
      case Counted => rootSecretLines := rootSecretLines + 1;
    }
    return None;
  }

  /** A line that the rewriter takes for the secret and the layout check for some other key: they
      trim the key differently. */
  predicate Hidden(line: string) {
    IsRootSecret(line) && TrimKey(SplitOnce(line, ':').value.0, false) != "secret"
  }

  /** A line the layout check counts when it comes first. */
  predicate IsCounted(line: string) {
    Inspect(line, 0).Counted?
  }

  function HiddenCount(lines: seq<string>): nat {
    if lines == [] then 0
    else HiddenCount(lines[..|lines| - 1]) + if Hidden(lines[|lines| - 1]) then 1 else 0
  }

  function CountedCount(lines: seq<string>): nat {
    if lines == [] then 0
    else CountedCount(lines[..|lines| - 1]) + if IsCounted(lines[|lines| - 1]) then 1 else 0
  }

  lemma {:induction false} SplitOnceKey(text: string, sep: char)
    requires SplitOnce(text, sep).Some?
    ensures var (before, after) := SplitOnce(text, sep).value;
      text == before + [sep] + after && sep !in before
  {
    if text[0] != sep {
      SplitOnceKey(text[1..], sep);
    } else {
      assert text == [sep] + text[1..];
    }
  }

  lemma {:induction false} BareIsPrefix(line: string)
    ensures Bare(line) <= line
    ensures forall i | |Bare(line)| <= i < |line| :: line[i] == '\n' || line[i] == '\r'
  {
    if line != [] && (line[|line| - 1] == '\n' || line[|line| - 1] == '\r') {
      BareIsPrefix(line[..|line| - 1]);
    }
  }

  lemma {:induction false} TrimKeyPrefix(key: string, cr: bool)
    ensures TrimKey(key, cr) <= key
    ensures TrimKey(key, false) == "secret" ==> TrimKey(key, true) == "secret"
  {
    if key != [] {
      TrimKeyPrefix(key[..|key| - 1], cr);
    }
  }

  lemma TrimKeepsStart(s: string)
    requires s != [] && !IsWhitespace(s[0])
    ensures Trim(s) != [] && Trim(s)[0] == s[0]
  {
    TrimEndKeepsStart(s);
  }

  lemma {:induction false} TrimEndKeepsStart(s: string)
    requires s != [] && !IsWhitespace(s[0])
    ensures TrimEnd(s) != [] && TrimEnd(s)[0] == s[0]
  {
    if IsWhitespace(s[|s| - 1]) {
      TrimEndKeepsStart(s[..|s| - 1]);
    }
  }

  lemma LetterIsNoMarker(trimmed: string)
    requires trimmed != "" && trimmed[0] == 's'
    ensures !DocumentMarker(trimmed)
  {
    assert "---"[0] == '-' && "..."[0] == '.' && "--- "[0] == '-';
  }

  /** A bare line starting with an `s` is judged by its key and value. */
  lemma InspectKeyed(key: string, value: string, seen: nat)
    requires key != "" && key[0] == 's' && ':' !in key
    ensures InspectBare(key + [':'] + value, seen) == InspectEntry(TrimKey(key, false), Trim(value), seen)
  {
    var bare := key + [':'] + value;
    SplitOnceAt(key, value, ':');
    assert bare[0] == 's';
    TrimKeepsStart(bare);
    LetterIsNoMarker(Trim(bare));
  }

  lemma SecretEntry(value: string, seen: nat)
    ensures InspectEntry("secret", value, seen).Counted? || InspectEntry("secret", value, seen).Refuse?
    ensures seen > 0 ==> InspectEntry("secret", value, seen) == Refuse(DuplicateKey)
  {
    assert "'secret'"[0] == '\'' && "\"secret\""[0] == '"' && "secret"[0] == 's';
  }

  /** A root `secret` line of the rewriter that is not hidden is counted or refused. */
  lemma RootSecretIsCounted(line: string, seen: nat)
    requires IsRootSecret(line) && !Hidden(line)
    ensures Inspect(line, seen).Counted? || Inspect(line, seen).Refuse?
    ensures seen > 0 ==> Inspect(line, seen) == Refuse(DuplicateKey)
  {
    var (key, after) := SplitOnce(line, ':').value;
    SplitOnceKey(line, ':');
    TrimKeyPrefix(key, true);
    assert line[|key|] == ':' && line[0] == key[0] == 's';
    var bare := Bare(line);
    BareIsPrefix(line);
    assert |bare| > |key|;
    var value := bare[|key| + 1..];
    assert bare == key + [':'] + value;
    InspectKeyed(key, value, seen);
    SecretEntry(Trim(value), seen);
  }

  /** And only such a line is counted. */
  lemma CountedIsRootSecret(line: string, seen: nat)
    requires Inspect(line, seen).Counted?
    ensures IsRootSecret(line) && !Hidden(line)
  {
    var bare := Bare(line);
    BareIsPrefix(line);
    var (key, value) := SplitOnce(bare, ':').value;
    SplitOnceKey(bare, ':');
    var after := value + line[|bare|..];
    assert line == key + [':'] + after;
    SplitOnceAt(key, after, ':');
    TrimKeyPrefix(key, true);
    assert line[0] == bare[0];
  }

  /** How many root `secret` lines came before matters for the refusal alone. */
  lemma SeenOnlyRefuses(line: string, seen: nat)
    requires !Inspect(line, seen).Refuse?
    ensures Inspect(line, 0) == Inspect(line, seen)
    ensures Inspect(line, seen).Counted? ==> seen == 0
  {
  }

  /** On a line that passes, the rewriter and the layout check differ exactly if it is hidden. */
  lemma PassedLine(line: string, seen: nat)
    requires !Inspect(line, seen).Refuse?
    ensures IsRootSecret(line) <==> IsCounted(line) || Hidden(line)
    ensures !(IsCounted(line) && Hidden(line))
    ensures Inspect(line, seen).Counted? <==> IsCounted(line)
    ensures IsCounted(line) ==> seen == 0
  {
    SeenOnlyRefuses(line, seen);
    if IsRootSecret(line) && !Hidden(line) {
      RootSecretIsCounted(line, seen);
    }
    if IsCounted(line) {
      CountedIsRootSecret(line, 0);
    }
  }

  lemma {:induction false} AcceptedCount(lines: seq<string>, i: nat, seen: nat)
    requires i <= |lines| && RefusalFrom(lines, i, seen).None?
    requires CountedCount(lines[..i]) == seen <= 1
    requires SecretCount(lines[..i]) == CountedCount(lines[..i]) + HiddenCount(lines[..i])
    ensures SecretCount(lines) == CountedCount(lines) + HiddenCount(lines) && CountedCount(lines) <= 1
    decreases |lines| - i
  {
    if i == |lines| {
      assert lines[..i] == lines;
    } else {
      var longer := lines[..i + 1];
      assert longer[..i] == lines[..i] && longer[i] == lines[i];
      PassedLine(lines[i], seen);
      AcceptedCount(lines, i + 1, if Inspect(lines[i], seen).Counted? then seen + 1 else seen);
    }
  }

  /** In an accepted layout the lines the rewriter replaces are the counted one, if any, and the
      hidden ones. There is at most one of them, and a rewrite drops no line, exactly when no line
      is hidden, or a single one and nothing is counted. */
  lemma AcceptedHasOneSecretLine(body: string, secret: string)
    requires RefusalFrom(Lines(body), 0, 0).None?
    ensures SecretCount(Lines(body)) == CountedCount(Lines(body)) + HiddenCount(Lines(body))
    ensures SecretCount(Lines(body)) <= 1
      <==> HiddenCount(Lines(body)) == 0 || (HiddenCount(Lines(body)) == 1 && CountedCount(Lines(body)) == 0)
    ensures |Lines(Rewritten(body, secret))| >= |Lines(body)|
      <==> HiddenCount(Lines(body)) == 0 || (HiddenCount(Lines(body)) == 1 && CountedCount(Lines(body)) == 0)
  {
    assert Lines(body)[..0] == [];
    AcceptedCount(Lines(body), 0, 0);
    RewrittenSplits(body, secret);
    KeptLength(Lines(body), secret);
  }

  /** The loop leaves one of the secret lines, where there is any. */
  lemma {:induction false} KeptLength(lines: seq<string>, secret: string)
    ensures |Kept(lines, secret)| + SecretCount(lines) == |lines| + if SecretCount(lines) > 0 then 1 else 0
  {
    if lines != [] {
      KeptLength(lines[..|lines| - 1], secret);
    }
  }

  lemma SecretKeys()
    ensures TrimKey("secret", true) == "secret" && TrimKey("secret", false) == "secret"
    ensures TrimKey("secret\r", true) == "secret" && TrimKey("secret\r", false) == "secret\r"
  {
    assert "secret\r"[..6] == "secret";
  }

  // ---------- which lines are refused ----------

  /** A line feed ends the line that a bare text is. */
  lemma BareOf(bare: string)
    requires bare != "" ==> bare[|bare| - 1] != '\n' && bare[|bare| - 1] != '\r'
    ensures Bare(bare + ['\n']) == bare
  {
    var line := bare + ['\n'];
    assert line[|line| - 1] == '\n' && line[..|line| - 1] == bare;
    assert Bare(bare) == bare;
  }

  /** A character that opens neither a comment, an indentation, a flow collection nor a document
      marker. */
  predicate OpensKey(c: char) {
    !IsWhitespace(c) && c !in {'#', '{', '[', '-', '.'}
  }

  /** A root entry is judged by its key and its trimmed value. */
  lemma EntryIsJudged(key: string, value: string, seen: nat)
    requires key != "" && OpensKey(key[0]) && ':' !in key
    requires value != "" ==> value[|value| - 1] != '\n' && value[|value| - 1] != '\r'
    ensures Inspect(EntryLine(key, value), seen) == InspectEntry(TrimKey(key, false), Trim(value), seen)
  {
    var bare := key + [':'] + value;
    BareOf(bare);
    SplitOnceAt(key, value, ':');
    assert bare[0] == key[0];
    TrimKeepsStart(bare);
    assert "---"[0] == '-' && "..."[0] == '.' && "--- "[0] == '-';
  }

  lemma QuotedKeys(quote: char)
    requires quote == '\'' || quote == '"'
    ensures TrimKey([quote] + "secret" + [quote], false) == [quote] + "secret" + [quote]
    ensures [quote] + "secret" + [quote] == if quote == '"' then "\"secret\"" else "'secret'"
  {
  }

  /** A quoted `secret` key is refused, a repeated one too, and a first one exactly if its value is
      missing, a block scalar, an alias or an anchor; otherwise it is counted. */
  lemma SecretLinesAreJudged(quote: char, value: string, seen: nat)
    requires (quote == '\'' || quote == '"') && Trimmed(value)
    requires value != "" ==> value[|value| - 1] != '\n' && value[|value| - 1] != '\r'
    ensures Inspect(EntryLine([quote] + "secret" + [quote], value), seen) == Refuse(QuotedKey)
    ensures Inspect(EntryLine("secret", value), seen + 1) == Refuse(DuplicateKey)
    ensures Inspect(EntryLine("secret", value), 0)
         == if value == "" || value[0] == '|' || value[0] == '>' || value[0] == '*' || value[0] == '&' then Refuse(UnsafeValue)
            else Counted
  {
    TrimmedStays(value);
    SecretKeys();
    QuotedKeys(quote);
    EntryIsJudged([quote] + "secret" + [quote], value, seen);
    EntryIsJudged("secret", value, 0);
    EntryIsJudged("secret", value, seen + 1);
    assert "'secret'"[0] == '\'' && "\"secret\""[0] == '"' && "secret"[0] == 's';
  }

  /** A document marker, alone on its line or with content, is refused. */
  lemma MarkersAreRefused(content: string, seen: nat)
    requires Trimmed(content) && content != "" && '\n' !in content && '\r' !in content
    ensures Inspect("---" + ['\n'], seen) == Inspect("..." + ['\n'], seen) == Refuse(MultiDocument)
    ensures Inspect("--- " + content + ['\n'], seen) == Refuse(MultiDocument)
  {
    BareOf("---");
    BareOf("...");
    assert content[|content| - 1] in content;
    BareOf("--- " + content);
    TrimmedStays("---");
    TrimmedStays("...");
    TrimmedStays("--- " + content);
  }

  /** Comments, and indented lines that are no document marker, are passed over. */
  lemma OtherLinesPass(bare: string, seen: nat)
    requires bare != "" && bare[|bare| - 1] != '\n' && bare[|bare| - 1] != '\r'
    requires bare[0] == '#' || ((bare[0] == ' ' || bare[0] == '\t') && !DocumentMarker(Trim(bare)))
    ensures Inspect(bare + ['\n'], seen) == Skip
  {
    BareOf(bare);
    if bare[0] == '#' {
      TrimKeepsStart(bare);
      assert "---"[0] == '-' && "..."[0] == '.' && "--- "[0] == '-';
    }
  }

  /** A root line that starts with a brace or a bracket is refused. */
  lemma FlowRootsAreRefused(bare: string, seen: nat)
    requires bare != "" && (bare[0] == '{' || bare[0] == '[')
    requires bare[|bare| - 1] != '\n' && bare[|bare| - 1] != '\r'
    ensures Inspect(bare + ['\n'], seen) == Refuse(FlowRoot)
  {
    BareOf(bare);
    TrimKeepsStart(bare);
    assert "---"[0] == '-' && "..."[0] == '.' && "--- "[0] == '-';
  }

  predicate Passes(line: string) {
    !Inspect(line, 0).Refuse?
  }

  predicate AllPass(lines: seq<string>, i: nat)
    requires i <= |lines|
    decreases |lines| - i
  {
    i == |lines| || (Passes(lines[i]) && AllPass(lines, i + 1))
  }

  lemma {:induction false} AllPassExactly(lines: seq<string>, i: nat)
    requires i <= |lines|
    ensures AllPass(lines, i) <==> forall k | i <= k < |lines| :: Passes(lines[k])
    decreases |lines| - i
  {
    if i < |lines| {
      AllPassExactly(lines, i + 1);
    }
  }

  /** The layout is accepted exactly if no line is refused on its own and at most one is counted. */
  lemma AcceptedExactly(body: string)
    ensures RefusalFrom(Lines(body), 0, 0).None?
      <==> (forall i | 0 <= i < |Lines(body)| :: !Inspect(Lines(body)[i], 0).Refuse?) && CountedCount(Lines(body)) <= 1
  {
    var lines := Lines(body);
    assert lines[..0] == [];
    AcceptedFrom(lines, 0, 0);
    AllPassExactly(lines, 0);
    assert forall i | 0 <= i < |lines| :: Passes(lines[i]) <==> !Inspect(lines[i], 0).Refuse?;
  }

  lemma {:induction false} AcceptedFrom(lines: seq<string>, i: nat, seen: nat)
    requires i <= |lines| && seen == CountedCount(lines[..i]) <= 1
    ensures RefusalFrom(lines, i, seen).None? <==> AllPass(lines, i) && CountedCount(lines) <= 1
    decreases |lines| - i
  {
    if i == |lines| {
      assert lines[..i] == lines;
    } else {
      var longer := lines[..i + 1];
      assert longer[..i] == lines[..i] && longer[i] == lines[i];
      CountedGrows(lines, i + 1);
      AcceptedStep(lines[i], seen, Inspect(lines[i], seen));
      if Inspect(lines[i], seen).Skip? {
        AcceptedFrom(lines, i + 1, seen);
      } else if Inspect(lines[i], seen).Counted? {
        AcceptedFrom(lines, i + 1, seen + 1);
      }
    }
  }

  lemma AcceptedStep(line: string, seen: nat, verdict: Verdict)
    requires verdict == Inspect(line, seen)
    ensures verdict.Refuse? <==> !Passes(line) || (seen > 0 && IsCounted(line))
    ensures !verdict.Refuse? ==> (verdict.Counted? <==> IsCounted(line))
    ensures verdict.Counted? ==> seen == 0
  {
    JudgedLater(line, seen);
    if !verdict.Refuse? {
      SeenOnlyRefuses(line, seen);
    }
  }

  lemma {:induction false} CountedGrows(lines: seq<string>, n: nat)
    requires n <= |lines|
    ensures CountedCount(lines[..n]) <= CountedCount(lines)
  {
    if n == |lines| {
      assert lines[..n] == lines;
    } else {
      assert lines[..|lines| - 1][..n] == lines[..n];
      CountedGrows(lines[..|lines| - 1], n);
    }
  }

  /** After a counted line, a line is refused if it is on its own, or is another one to count. */
  lemma JudgedLater(line: string, seen: nat)
    ensures Inspect(line, seen).Refuse? <==> Inspect(line, 0).Refuse? || (seen > 0 && Inspect(line, 0).Counted?)
    ensures !Inspect(line, seen).Refuse? ==> Inspect(line, seen) == Inspect(line, 0)
  {
  }

  /** The line `key:value` with its line feed. */
  function EntryLine(key: string, value: string): string {
    key + [':'] + value + ['\n']
  }

  lemma EntryLineFacts(key: string, value: string)
    requires ':' !in key && '\n' !in key && key != "" && !Indented(key)
    requires value != "" && '\n' !in value && '\r' !in value
    ensures FullLine(EntryLine(key, value)) && Bare(EntryLine(key, value)) == key + [':'] + value
    ensures IsRootSecret(EntryLine(key, value)) <==> TrimKey(key, true) == "secret"
  {
    var bare, line := key + [':'] + value, EntryLine(key, value);
    assert line[..|line| - 1] == bare && bare[|bare| - 1] == value[|value| - 1] && value[|value| - 1] in value;
    assert line == key + [':'] + (value + ['\n']);
    SplitOnceAt(key, value + ['\n'], ':');
    assert line[0] == key[0];
  }

  lemma TwoLineCount(one: string, two: string)
    requires IsRootSecret(one) && IsRootSecret(two)
    ensures SecretCount([one, two]) == 2
  {
    Snoc([one], two, "");
    Snoc([], one, "");
    assert [] + [one] == [one] && [one] + [two] == [one, two];
  }

  lemma TwoLinesPass(one: string, two: string)
    requires Inspect(one, 0) == Counted && Inspect(two, 1) == Skip
    ensures RefusalFrom([one, two], 0, 0).None?
  {
    assert RefusalFrom([one, two], 2, 1) == None;
    assert RefusalFrom([one, two], 1, 1) == RefusalFrom([one, two], 2, 1);
  }

  /** A carriage return before the colon hides a second secret line from the layout check. */
  lemma StrayCrHidesSecretLine()
    ensures var lines := [EntryLine("secret", "a"), EntryLine("secret\r", "b")];
      && LineList(lines)
      && RefusalFrom(lines, 0, 0).None?
      && SecretCount(lines) == 2
  {
    SecretKeys();
    EntryLineFacts("secret", "a");
    EntryLineFacts("secret\r", "b");
    InspectKeyed("secret", "a", 0);
    InspectKeyed("secret\r", "b", 1);
    TrimmedStays("a");
    HiddenEntry();
    TwoLinesPass(EntryLine("secret", "a"), EntryLine("secret\r", "b"));
    TwoLineCount(EntryLine("secret", "a"), EntryLine("secret\r", "b"));
  }

  lemma HiddenEntry()
    ensures forall value :: InspectEntry("secret\r", value, 1) == Skip
    ensures InspectEntry("secret", "a", 0) == Counted
  {
    assert "secret\r"[0] == 's' && "'secret'"[0] == '\'' && "\"secret\""[0] == '"';
    assert |"secret\r"| == 7 && |"secret"| == 6;
  }

  // ---------- the verified rewrite ----------

  /** What the YAML library is used for: parsing, printing a whole file, and expanding the merge
      keys of a root mapping. */
  datatype Library = Library(parse: string -> Result<Value>, render: Mapping -> string, expand: Mapping -> Result<Mapping>)

  /** `rewrite_secret_line`: refuse unsafe layouts, then verify that only the secret changed. */
  function RewriteChecked(lib: Library, body: string, secret: string): Result<string> {
    if RefusalFrom(Lines(body), 0, 0).Some? then Err("layout cannot be rewritten")
    else match lib.parse(body)
      case Ok(Map(before)) =>
        var candidate := Rewritten(body, secret);
        if lib.parse(candidate) == Ok(Map(before[Str("secret") := Str(secret)])) then Ok(candidate)
        else Err("the rewritten body would change more than the secret")
      case _ => Err("the document is not a YAML mapping")
  }

  /** `raw_secret(..).unwrap_or_default()`. */
  function RawSecret(config: Mapping): string {
    match Get(config, "secret")
    case Some(Str(s)) => s
    case Some(Bool(b)) => if b then "true" else "false"
    case Some(Number(text)) => text
    case _ => ""
  }

  const PLACEHOLDER := "set-your-secret"

  predicate IsPlaceholder(secret: string) {
    Trim(secret) == "" || Trim(secret) == PLACEHOLDER
  }

  /** The secret is a text with whitespace around it. */
  predicate Surrounds(secret: string, front: string, text: string, back: string) {
    AllWhitespace(front) && AllWhitespace(back) && secret == front + text + back
  }

  /** A placeholder is whitespace alone, or the shipped text with any whitespace around it. */
  lemma PlaceholderExactly(secret: string)
    ensures IsPlaceholder(secret)
      <==> AllWhitespace(secret) || exists front, back :: Surrounds(secret, front, "set-your-secret", back)
  {
    var front, back := TrimSplits(secret);
    assert Surrounds(secret, front, Trim(secret), back);
    if AllWhitespace(secret) {
      assert secret + [] + [] == secret;
      TrimRemoves(secret, "", "");
    }
    assert Trimmed(PLACEHOLDER) by {
      assert PLACEHOLDER[0] == 's' && PLACEHOLDER[14] == 't' && |PLACEHOLDER| == 15;
    }
    forall before, after | Surrounds(secret, before, PLACEHOLDER, after)
      ensures Trim(secret) == PLACEHOLDER
    {
      TrimRemoves(before, PLACEHOLDER, after);
    }
    if Trim(secret) == "" {
      assert secret == front + back;
    }
  }

  /** The outcomes of the file system in one resolve. */
  datatype Io = Io(saved: bool, tightened: bool)

  /** `read_mapping` of an existing file. */
  function ReadMapping(lib: Library, body: string): Result<Mapping> {
    match lib.parse(body)
    case Ok(Map(root)) => lib.expand(root)
    case _ => Err("not a YAML mapping")
  }

  /** File content and result of one resolve; `generated` is the random secret it would use. */
  function Resolved(lib: Library, template: Mapping, file: Option<string>, generated: string, io: Io): (Option<string>, Result<string>) {
    match file
    case None =>
      if io.saved then (Some(lib.render(template[Str("secret") := Str(generated)])), Ok(generated))
      else (None, Err("failed to compose the config"))
    case Some(body) =>
      match ReadMapping(lib, body)
      case Err(error) => (file, Err(error))
      case Ok(config) =>
        if !IsPlaceholder(RawSecret(config)) then
          (file, if io.tightened then Ok(RawSecret(config)) else Err("cannot restrict the file mode"))
        else match RewriteChecked(lib, body, generated)
          case Err(error) => (file, Err(error))
          case Ok(rewritten) => if io.saved then (Some(rewritten), Ok(generated)) else (file, Err("failed to persist the secret"))
  }

  /** The config file. */
  class ConfigFile {
    var content: Option<string>

    /** `resolve_controller_secret`. */
    method ResolveControllerSecret(lib: Library, template: Mapping, generated: string, io: Io) returns (r: Result<string>)
      modifies this
      ensures (content, r) == Resolved(lib, template, old(content), generated, io)
      ensures r.Err? ==> content == old(content)
    {
      if content.None? {
        var composed := template[Str("secret") := Str(generated)];
        if !io.saved {
          return Err("failed to compose the config");
        }
        content := Some(lib.render(composed));
        return Ok(generated);
      }
      var body := content.value;
      var config := ReadMapping(lib, body);
      if config.Err? {
        return Err(config.error);
      }
      var current := RawSecret(config.value);
      if !IsPlaceholder(current) {
        if !io.tightened {
          return Err("cannot restrict the file mode");
        }
        return Ok(current);
      }
      var rewritten := RewriteChecked(lib, body, generated);
      if rewritten.Err? {
        return Err(rewritten.error);
      }
      if !io.saved {
        return Err("failed to persist the secret");
      }
      content := Some(rewritten.value);
      return Ok(generated);
    }
  }

  /** Expanding the merge keys of a mapping neither looks at nor changes an explicit root
      `secret`, which takes precedence over a merged one. */
  ghost predicate ExpandKeepsSecret(lib: Library) {
    forall m: Mapping, secret: string :: lib.expand(m).Ok? ==>
      lib.expand(m[Str("secret") := Str(secret)]) == Ok(lib.expand(m).value[Str("secret") := Str(secret)])
  }

  /** The file composed on a fresh install, which has no merge keys, reads back. */
  predicate TemplateReadsBack(lib: Library, template: Mapping, generated: string) {
    var composed := template[Str("secret") := Str(generated)];
    ReadMapping(lib, lib.render(composed)) == Ok(composed)
  }

  /** The parsed root mapping of the file, with its merge keys expanded. */
  ghost predicate Holds(lib: Library, body: string, root: Mapping, config: Mapping) {
    lib.parse(body) == Ok(Map(root)) && lib.expand(root) == Ok(config)
  }

  /** When a resolve succeeds, and what it leaves: a missing file is composed, a secret that is no
      placeholder is returned as it is, and a placeholder is rewritten if the layout is accepted
      and the new text parses as the old document with the new secret. */
  lemma ResolveExactly(lib: Library, template: Mapping, body: string, root: Mapping, config: Mapping, generated: string, io: Io)
    requires Holds(lib, body, root, config)
    ensures Resolved(lib, template, None, generated, io).1.Ok? <==> io.saved
    ensures io.saved ==>
      (Some(lib.render(template[Str("secret") := Str(generated)])), Ok(generated)) == Resolved(lib, template, None, generated, io)
    ensures var (content, r) := Resolved(lib, template, Some(body), generated, io);
      && (!IsPlaceholder(RawSecret(config)) ==>
            content == Some(body) && (r.Ok? <==> io.tightened) && (r.Ok? ==> r.value == RawSecret(config)))
      && (IsPlaceholder(RawSecret(config)) ==>
            && (r.Ok? <==>
                  && io.saved && RefusalFrom(Lines(body), 0, 0).None?
                  && lib.parse(Rewritten(body, generated)) == Ok(Map(root[Str("secret") := Str(generated)])))
            && (r.Ok? ==> r.value == generated && content == Some(Rewritten(body, generated))))
  {
  }

  /** A text, number or boolean that is no placeholder is the secret, as its text. */
  lemma ScalarSecretIsReturned(lib: Library, template: Mapping, body: string, root: Mapping, config: Mapping,
                               secret: string, generated: string, io: Io)
    requires Holds(lib, body, root, config) && io.tightened && !IsPlaceholder(secret)
    requires Lookup(config, Str("secret")) == Some(Str(secret)) || Lookup(config, Str("secret")) == Some(Number(secret))
      || (Lookup(config, Str("secret")) == Some(Bool(true)) && secret == "true")
      || (Lookup(config, Str("secret")) == Some(Bool(false)) && secret == "false")
    ensures Resolved(lib, template, Some(body), generated, io) == (Some(body), Ok(secret))
  {
    ResolveExactly(lib, template, body, root, config, generated, io);
  }

  /** A file that is no readable mapping is left alone. */
  lemma UnreadableIsAnError(lib: Library, template: Mapping, body: string, generated: string, io: Io)
    requires forall root, config :: !Holds(lib, body, root, config)
    ensures Resolved(lib, template, Some(body), generated, io).0 == Some(body)
    ensures Resolved(lib, template, Some(body), generated, io).1.Err?
  {
    if lib.parse(body).Ok? && lib.parse(body).value.Map? && lib.expand(lib.parse(body).value.entries).Ok? {
      assert Holds(lib, body, lib.parse(body).value.entries, lib.expand(lib.parse(body).value.entries).value);
    }
  }

  /** A rotated file holds the generated secret. */
  lemma RotatedFileHoldsSecret(lib: Library, body: string, generated: string)
    requires ExpandKeepsSecret(lib) && ReadMapping(lib, body).Ok? && RewriteChecked(lib, body, generated).Ok?
    ensures var rewritten := RewriteChecked(lib, body, generated).value;
      ReadMapping(lib, rewritten).Ok? && RawSecret(ReadMapping(lib, rewritten).value) == generated
  {
    var root := lib.parse(body).value.entries;
    assert lib.expand(root).Ok?;
  }

  /** After a resolve that succeeds, the secret is no placeholder, and every later resolve returns
      the same secret and leaves the file as it is. */
  lemma ResolveIsStable(lib: Library, template: Mapping, file: Option<string>, generated: string, io: Io, later: string, io': Io)
    requires ExpandKeepsSecret(lib) && (file.None? ==> TemplateReadsBack(lib, template, generated))
    requires !IsPlaceholder(generated) && io'.tightened
    requires Resolved(lib, template, file, generated, io).1.Ok?
    ensures var (content, r) := Resolved(lib, template, file, generated, io);
      && !IsPlaceholder(r.value)
      && Resolved(lib, template, content, later, io') == (content, r)
  {
    var (content, r) := Resolved(lib, template, file, generated, io);
    if file.None? {
      assert RawSecret(ReadMapping(lib, content.value).value) == generated;
    } else if IsPlaceholder(RawSecret(ReadMapping(lib, file.value).value)) {
      RotatedFileHoldsSecret(lib, file.value, generated);
    }
  }

  /** A rotation changes the secret line and nothing else, in the text and in the parsed document. */
  lemma RotationChangesOnlyTheSecret(lib: Library, body: string, secret: string)
    requires RewriteChecked(lib, body, secret).Ok?
    ensures var rewritten := RewriteChecked(lib, body, secret).value;
      && lib.parse(body).Ok? && lib.parse(body).value.Map?
      && lib.parse(rewritten) == Ok(Map(lib.parse(body).value.entries[Str("secret") := Str(secret)]))
      && SecretCount(Lines(rewritten)) == 1
      && Others(Lines(rewritten))
         == if SecretCount(Lines(body)) > 0 then Others(Lines(body)) else Completed(Lines(body))
  {
    RewriteKeepsTheRest(body, secret);
  }
}
