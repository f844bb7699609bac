/** The controller secret of `enhance/mod.rs`: rotating one line of a YAML file while
    every other byte stays. */
module SecretLine {
  import opened Wrappers
  import opened Text

  // ---------- lines ----------

  /** `body.split_inclusive('\n')`: every line but the last ends in its line feed. */
  function Lines(body: string): seq<string> {
    if body == [] then []
    else if body[0] == '\n' then ["\n"] + Lines(body[1..])
    else
      var rest := Lines(body[1..]);
      if rest == [] then [[body[0]]] else [[body[0]] + rest[0]] + rest[1..]
  }

  function Concat(lines: seq<string>): string {
    if lines == [] then "" else lines[0] + Concat(lines[1..])
  }

  /** A line as the splitter produces it when something follows it. */
  predicate FullLine(line: string) {
    line != [] && line[|line| - 1] == '\n' && forall i | 0 <= i < |line| - 1 :: line[i] != '\n'
  }

  /** A last line: perhaps without its line feed. */
  predicate LastLine(line: string) {
    line != [] && forall i | 0 <= i < |line| - 1 :: line[i] != '\n'
  }

  predicate LineList(lines: seq<string>) {
    && (forall i | 0 <= i < |lines| - 1 :: FullLine(lines[i]))
    && (lines != [] ==> LastLine(lines[|lines| - 1]))
  }

  lemma LongerLine(c: char, line: string)
    requires c != '\n'
    ensures FullLine(line) ==> FullLine([c] + line)
    ensures LastLine(line) ==> LastLine([c] + line)
  {
    var longer := [c] + line;
    assert forall i | 1 <= i < |longer| :: longer[i] == line[i - 1];
  }

  /** A character in front of a line, and in front of the lines it starts. */
  lemma LongerFirstLine(c: char, lines: seq<string>)
    requires LineList(lines) && lines != [] && c != '\n'
    ensures LineList([[c] + lines[0]] + lines[1..])
    ensures Concat([[c] + lines[0]] + lines[1..]) == [c] + Concat(lines)
  {
    var first, rest := [c] + lines[0], lines[1..];
    var longer := [first] + rest;
    LongerLine(c, lines[0]);
    assert forall i | 1 <= i < |longer| :: longer[i] == lines[i];
    assert longer[0] == first && longer[1..] == rest;
    LongerText(c, lines[0], Concat(rest));
  }

  lemma LongerText(c: char, line: string, text: string)
    ensures [c] + line + text == [c] + (line + text)
  {
  }

  lemma OneMoreLine(lines: seq<string>)
    requires LineList(lines)
    ensures LineList(["\n"] + lines) && Concat(["\n"] + lines) == ['\n'] + Concat(lines)
  {
    var longer := ["\n"] + lines;
    assert forall i | 1 <= i < |longer| :: longer[i] == lines[i - 1];
    assert longer[1..] == lines;
  }

  lemma {:induction false} LinesAreLines(body: string)
    ensures LineList(Lines(body)) && Concat(Lines(body)) == body
    ensures body != [] ==> Lines(body) != []
  {
    if body != [] {
      LinesAreLines(body[1..]);
      var rest := Lines(body[1..]);
      assert body == [body[0]] + body[1..];
      if body[0] == '\n' {
        OneMoreLine(rest);
      } else if rest == [] {
        assert body[1..] == [];
        assert Concat([[body[0]]]) == [body[0]] + Concat([[body[0]]][1..]);
      } else {
        LongerFirstLine(body[0], rest);
      }
    }
  }

  lemma {:induction false} FirstFullLine(line: string, rest: string)
    requires FullLine(line)
    ensures Lines(line + rest) == [line] + Lines(rest)
  {
    var all := line + rest;
    assert all[1..] == line[1..] + rest;
    if |line| == 1 {
      assert line == "\n" && all[1..] == rest;
    } else {
      FirstFullLine(line[1..], rest);
      assert [line[0]] + line[1..] == line;
    }
  }

  lemma {:induction false} OnlyLine(line: string)
    requires LastLine(line)
    ensures Lines(line) == [line]
  {
    var rest := line[1..];
    var single: seq<string> := [rest];
    assert [line[0]] + rest == line && single[1..] == [];
    if rest == [] {
      assert line == [line[0]];
    } else {
      assert forall i | 0 <= i < |rest| - 1 :: rest[i] == line[i + 1];
      OnlyLine(rest);
    }
  }

  /** Splitting undoes concatenation. */
  lemma {:induction false} LinesOfConcat(lines: seq<string>)
    requires LineList(lines)
    ensures Lines(Concat(lines)) == lines
  {
    if |lines| == 1 {
      OnlyLine(lines[0]);
      assert Concat(lines) == lines[0] + Concat(lines[1..]) == lines[0];
    } else if lines != [] {
      LinesOfConcat(lines[1..]);
      FirstFullLine(lines[0], Concat(lines[1..]));
    }
  }

  lemma {:induction false} ConcatAppend(a: seq<string>, b: seq<string>)
    ensures Concat(a + b) == Concat(a) + Concat(b)
  {
    if a == [] {
      assert a + b == b;
    } else {
      ConcatAppend(a[1..], b);
      assert (a + b)[0] == a[0] && (a + b)[1..] == a[1..] + b;
      assert a[0] + (Concat(a[1..]) + Concat(b)) == (a[0] + Concat(a[1..])) + Concat(b);
    }
  }

  // ---------- the rewriter ----------

  /** `trim_end_matches` of spaces, tabs and, for the rewriter, carriage returns. */
  function TrimKey(key: string, cr: bool): string {
    if key != [] && (key[|key| - 1] == ' ' || key[|key| - 1] == '\t' || (cr && key[|key| - 1] == '\r'))
    then TrimKey(key[..|key| - 1], cr)
    else key
  }

  predicate Indented(line: string) {
    line != [] && (line[0] == ' ' || line[0] == '\t')
  }

  /** A line the rewriter takes for the root `secret` entry. */
  predicate IsRootSecret(line: string) {
    match SplitOnce(line, ':')
    case None => false
    case Some((key, _)) => TrimKey(key, true) == "secret" && !Indented(line)
  }

  function HexDigit(n: nat): char
    requires n < 16
  {
    if n < 10 then (48 + n) as char else (87 + n) as char
  }

  /** One character of a JSON string literal. */
  function Escaped(c: char): string {
    if c == '"' then "\\\"" else if c == '\\' then "\\\\"
    else if c as int == 8 then "\\b" else if c as int == 12 then "\\f"
    else if c == '\n' then "\\n" else if c == '\r' then "\\r" else if c == '\t' then "\\t"
    else if c as int < 32 then "\\u00" + [HexDigit(c as int / 16), HexDigit(c as int % 16)]
    else [c]
  }

  function EscapedAll(s: string): string {
    if s == [] then "" else Escaped(s[0]) + EscapedAll(s[1..])
  }

  /** `secret: ` and the secret as a JSON string, which is a YAML double-quoted scalar. */
  function Replacement(secret: string): string {
    "secret: \"" + EscapedAll(secret) + "\""
  }

  function LineEnding(line: string): string {
    if |line| >= 2 && line[|line| - 2..] == "\r\n" then "\r\n" else "\n"
  }

  /** How many lines are root `secret` lines. */
  function SecretCount(lines: seq<string>): nat {
    if lines == [] then 0
    else SecretCount(lines[..|lines| - 1]) + if IsRootSecret(lines[|lines| - 1]) then 1 else 0
  }

  /** The lines that are no root `secret` line, in order. */
  function Others(lines: seq<string>): seq<string> {
    if lines == [] then []
    else Others(lines[..|lines| - 1]) + if IsRootSecret(lines[|lines| - 1]) then [] else [lines[|lines| - 1]]
  }

  /** What becomes of one line; `replaced` says whether the secret was already written. */
  function KeptLine(line: string, secret: string, replaced: bool): seq<string> {
    if !IsRootSecret(line) then [line]
    else if replaced then []
    else [Replacement(secret) + LineEnding(line)]
  }

  /** The first root `secret` line replaced, later ones dropped, everything else as it was. */
  function Kept(lines: seq<string>, secret: string): seq<string> {
    if lines == [] then []
    else
      var n := |lines| - 1;
      Kept(lines[..n], secret) + KeptLine(lines[n], secret, SecretCount(lines[..n]) > 0)
  }

  /** `lines` with a line feed added to the last one when it has none. */
  function Completed(lines: seq<string>): seq<string> {
    if lines == [] || FullLine(lines[|lines| - 1]) then lines
    else lines[..|lines| - 1] + [lines[|lines| - 1] + "\n"]
  }

  /** The lines of a rewritten file: a file without a secret line gets one at its end. */
  function RewrittenLines(lines: seq<string>, secret: string): seq<string> {
    if SecretCount(lines) > 0 then Kept(lines, secret)
    else Completed(lines) + [Replacement(secret) + "\n"]
  }

  /** What `rewrite_secret_line_unchecked` returns. */
  function Rewritten(body: string, secret: string): string {
    Concat(RewrittenLines(Lines(body), secret))
  }

  lemma {:induction false} KeptWithoutSecret(lines: seq<string>, secret: string)
    requires SecretCount(lines) == 0
    ensures Kept(lines, secret) == lines && Others(lines) == lines
  {
    if lines != [] {
      KeptWithoutSecret(lines[..|lines| - 1], secret);
      assert lines == lines[..|lines| - 1] + [lines[|lines| - 1]];
    }
  }

  lemma ConcatLast(lines: seq<string>, line: string)
    ensures Concat(lines + [line]) == Concat(lines) + line
  {
    ConcatAppend(lines, [line]);
    assert Concat([line]) == line + Concat([line][1..]);
  }

  /** `text` with a final line feed, unless it is empty or has one. */
  function WithFinalLineFeed(text: string): string {
    if text != [] && text[|text| - 1] != '\n' then text + "\n" else text
  }

  lemma LastCharacter(front: string, last: string)
    requires last != []
    ensures (front + last)[|front + last| - 1] == last[|last| - 1]
  {
  }

  lemma CompletedLast(front: seq<string>, last: string)
    requires LastLine(last)
    ensures Concat(Completed(front + [last])) == WithFinalLineFeed(Concat(front + [last]))
  {
    var lines := front + [last];
    assert lines[..|lines| - 1] == front && lines[|lines| - 1] == last;
    ConcatLast(front, last);
    LastCharacter(Concat(front), last);
    if !FullLine(last) {
      ConcatLast(front, last + "\n");
      assert Concat(front) + (last + "\n") == (Concat(front) + last) + "\n";
    }
  }

  lemma CompletedText(body: string)
    ensures Concat(Completed(Lines(body))) == WithFinalLineFeed(body)
  {
    var lines := Lines(body);
    LinesAreLines(body);
    if lines != [] {
      assert lines == lines[..|lines| - 1] + [lines[|lines| - 1]];
      CompletedLast(lines[..|lines| - 1], lines[|lines| - 1]);
    }
  }

  lemma KeptStep(lines: seq<string>, i: nat, secret: string)
    requires i < |lines|
    ensures SecretCount(lines[..i + 1]) == SecretCount(lines[..i]) + if IsRootSecret(lines[i]) then 1 else 0
    ensures Concat(Kept(lines[..i + 1], secret))
      == Concat(Kept(lines[..i], secret))
         + if !IsRootSecret(lines[i]) then lines[i]
           else if SecretCount(lines[..i]) > 0 then ""
           else Replacement(secret) + LineEnding(lines[i])
  {
    assert lines[..i + 1][..i] == lines[..i];
    var before := Kept(lines[..i], secret);
    if !IsRootSecret(lines[i]) {
      ConcatLast(before, lines[i]);
    } else if SecretCount(lines[..i]) == 0 {
      ConcatLast(before, Replacement(secret) + LineEnding(lines[i]));
    } else {
      assert before + [] == before;
    }
  }

  /** `rewrite_secret_line_unchecked`. */
  method RewriteSecretLineUnchecked(body: string, secret: string) returns (rewritten: string)
    ensures rewritten == Rewritten(body, secret)
  {
    rewritten := "";
    var replaced := false;
    var lines := Lines(body);
    for i := 0 to |lines|
      invariant rewritten == Concat(Kept(lines[..i], secret))
      invariant replaced == (SecretCount(lines[..i]) > 0)
    {
      KeptStep(lines, i, secret);
      if IsRootSecret(lines[i]) {
        if !replaced {
          rewritten := rewritten + (Replacement(secret) + LineEnding(lines[i]));
          replaced := true;
        }
      } else {
        rewritten := rewritten + lines[i];
      }
    }
    assert lines[..|lines|] == lines;
    if !replaced {
      AppendedText(body, secret);
      if rewritten != [] && rewritten[|rewritten| - 1] != '\n' {
        rewritten := rewritten + "\n";
      }
      rewritten := rewritten + (Replacement(secret) + "\n");
    }
  }

  lemma AppendedText(body: string, secret: string)
    requires SecretCount(Lines(body)) == 0
    ensures Concat(Kept(Lines(body), secret)) == body
    ensures Rewritten(body, secret) == WithFinalLineFeed(body) + (Replacement(secret) + "\n")
  {
    LinesAreLines(body);
    KeptWithoutSecret(Lines(body), secret);
    CompletedText(body);
    ConcatLast(Completed(Lines(body)), Replacement(secret) + "\n");
  }

  // ---------- what a rewrite keeps ----------

  lemma {:induction false} EscapedHasNoLineBreak(s: string)
    ensures '\n' !in EscapedAll(s) && '\r' !in EscapedAll(s)
  {
    if s != [] {
      EscapedHasNoLineBreak(s[1..]);
      assert '\n' !in Escaped(s[0]) && '\r' !in Escaped(s[0]);
    }
  }

  /** Anything after an unindented `secret:` is a root secret line. */
  lemma SecretKeyLine(after: string)
    ensures IsRootSecret("secret" + [':'] + after)
  {
    var key := "secret";
    SplitOnceAt(key, after, ':');
    assert key[5] == 't' && TrimKey(key, true) == key;
    assert (key + [':'] + after)[0] == key[0] == 's';
  }

  lemma QuotedLineEnding(front: string, ending: string)
    requires ending == "\n" || ending == "\r\n"
    requires front != "" && front[|front| - 1] == '"' && '\n' !in front
    ensures FullLine(front + ending) && LineEnding(front + ending) == ending
  {
    var line := front + ending;
    if ending == "\n" {
      assert line[|line| - 2] == '"' && line[|line| - 2..][0] == '"';
    } else {
      assert line[|line| - 2..] == ending;
    }
  }

  lemma ReplacementIsRootSecret(secret: string, ending: string)
    requires ending == "\n" || ending == "\r\n"
    ensures IsRootSecret(Replacement(secret) + ending) && FullLine(Replacement(secret) + ending)
    ensures LineEnding(Replacement(secret) + ending) == ending
  {
    EscapedHasNoLineBreak(secret);
    var after := " \"" + EscapedAll(secret) + "\"" + ending;
    assert Replacement(secret) + ending == "secret" + [':'] + after;
    SecretKeyLine(after);
    QuotedLineEnding(Replacement(secret), ending);
  }

  lemma Snoc(lines: seq<string>, line: string, secret: string)
    ensures SecretCount(lines + [line]) == SecretCount(lines) + if IsRootSecret(line) then 1 else 0
    ensures Others(lines + [line]) == Others(lines) + if IsRootSecret(line) then [] else [line]
    ensures Kept(lines + [line], secret) == Kept(lines, secret) + KeptLine(line, secret, SecretCount(lines) > 0)
  {
    assert (lines + [line])[..|lines|] == lines;
  }

  predicate FullLines(lines: seq<string>) {
    forall i | 0 <= i < |lines| :: FullLine(lines[i])
  }

  /** The loop's output still consists of lines. */
  lemma {:induction false} KeptIsLineList(lines: seq<string>, secret: string)
    requires LineList(lines)
    ensures LineList(Kept(lines, secret))
    ensures FullLines(lines) ==> FullLines(Kept(lines, secret))
  {
    if lines != [] {
      var n := |lines| - 1;
      assert FullLines(lines[..n]);
      KeptIsLineList(lines[..n], secret);
      if IsRootSecret(lines[n]) {
        ReplacementIsRootSecret(secret, LineEnding(lines[n]));
      }
    }
  }

  /** The loop keeps every other line and leaves one secret line where there was any. */
  lemma {:induction false} KeptKeepsOthers(lines: seq<string>, secret: string)
    ensures Others(Kept(lines, secret)) == Others(lines)
    ensures SecretCount(Kept(lines, secret)) == if SecretCount(lines) > 0 then 1 else 0
  {
    if lines != [] {
      var n := |lines| - 1;
      KeptKeepsOthers(lines[..n], secret);
      var before := Kept(lines[..n], secret);
      if !IsRootSecret(lines[n]) {
        Snoc(before, lines[n], secret);
      } else if SecretCount(lines[..n]) == 0 {
        ReplacementIsRootSecret(secret, LineEnding(lines[n]));
        Snoc(before, Replacement(secret) + LineEnding(lines[n]), secret);
      } else {
        assert Kept(lines, secret) == before;
      }
    }
  }

  /** Running the loop again with another secret gives what that secret gives at once. */
  lemma {:induction false} KeptTwice(lines: seq<string>, first: string, second: string)
    ensures Kept(Kept(lines, first), second) == Kept(lines, second)
  {
    if lines != [] {
      var n := |lines| - 1;
      KeptTwice(lines[..n], first, second);
      KeptKeepsOthers(lines[..n], first);
      var before := Kept(lines[..n], first);
      if !IsRootSecret(lines[n]) {
        Snoc(before, lines[n], second);
      } else if SecretCount(lines[..n]) == 0 {
        ReplacementIsRootSecret(first, LineEnding(lines[n]));
        Snoc(before, Replacement(first) + LineEnding(lines[n]), second);
      } else {
        assert Kept(lines, first) == before;
      }
    }
  }

  lemma {:induction false} SplitOnceAppend(text: string, sep: char, tail: char)
    requires tail != sep
    ensures SplitOnce(text + [tail], sep).Some? == SplitOnce(text, sep).Some?
    ensures SplitOnce(text, sep).Some? ==> SplitOnce(text + [tail], sep).value.0 == SplitOnce(text, sep).value.0
  {
    if text != [] {
      assert (text + [tail])[1..] == text[1..] + [tail];
      SplitOnceAppend(text[1..], sep, tail);
    } else {
      assert (text + [tail])[1..] == "";
    }
  }

  lemma CompletedLines(lines: seq<string>)
    requires LineList(lines) && SecretCount(lines) == 0
    ensures forall i | 0 <= i < |Completed(lines)| :: FullLine(Completed(lines)[i])
    ensures SecretCount(Completed(lines)) == 0
  {
    if lines != [] && !FullLine(lines[|lines| - 1]) {
      var n := |lines| - 1;
      SplitOnceAppend(lines[n], ':', '\n');
      assert lines == lines[..n] + [lines[n]];
      Snoc(lines[..n], lines[n] + "\n", "");
      assert (lines[n] + "\n")[0] == lines[n][0];
    }
  }

  /** The rewritten text splits back into the rewritten lines. */
  lemma RewrittenSplits(body: string, secret: string)
    ensures Lines(Rewritten(body, secret)) == RewrittenLines(Lines(body), secret)
  {
    var lines := Lines(body);
    LinesAreLines(body);
    if SecretCount(lines) > 0 {
      KeptIsLineList(lines, secret);
    } else {
      CompletedLines(lines);
      ReplacementIsRootSecret(secret, "\n");
    }
    LinesOfConcat(RewrittenLines(lines, secret));
  }

  /** Every other line stays byte for byte and in order, up to one final line feed, and exactly
      one root `secret` line is left. */
  lemma RewriteKeepsTheRest(body: string, secret: string)
    ensures var before, after := Lines(body), Lines(Rewritten(body, secret));
      && SecretCount(after) == 1
      && Others(after) == if SecretCount(before) > 0 then Others(before) else Completed(before)
  {
    var lines := Lines(body);
    RewrittenSplits(body, secret);
    LinesAreLines(body);
    if SecretCount(lines) > 0 {
      KeptKeepsOthers(lines, secret);
    } else {
      CompletedLines(lines);
      ReplacementIsRootSecret(secret, "\n");
      Snoc(Completed(lines), Replacement(secret) + "\n", secret);
      KeptWithoutSecret(Completed(lines), secret);
    }
  }

  /** Rewriting again with another secret is rewriting the original with it. */
  lemma RewriteTwice(body: string, first: string, second: string)
    ensures Rewritten(Rewritten(body, first), second) == Rewritten(body, second)
  {
    var lines := Lines(body);
    RewrittenSplits(body, first);
    RewriteKeepsTheRest(body, first);
    LinesAreLines(body);
    if SecretCount(lines) > 0 {
      KeptTwice(lines, first, second);
    } else {
      CompletedLines(lines);
      ReplacementIsRootSecret(first, "\n");
      Snoc(Completed(lines), Replacement(first) + "\n", second);
      KeptWithoutSecret(Completed(lines), second);
    }
  }

  // ---------- what the secret line says ----------

  function HexValue(c: char): Option<nat> {
    if '0' <= c <= '9' then Some(c as int - 48)
    else if 'a' <= c <= 'f' then Some(c as int - 87)
    else if 'A' <= c <= 'F' then Some(c as int - 55)
    else None
  }

  /** The character of a two-character escape of section 7 of RFC 8259. */
  function ShortEscape(c: char): Option<char> {
    if c == '"' || c == '\\' || c == '/' then Some(c)
    else if c == 'b' then Some(8 as char)
    else if c == 'f' then Some(12 as char)
    else if c == 'n' then Some('\n')
    else if c == 'r' then Some('\r')
    else if c == 't' then Some('\t')
    else None
  }

  /** The character of `uXXXX`, below the surrogates. */
  function LongEscape(text: string): Option<char> {
    if |text| < 5 || text[0] != 'u' then None
    else match (HexValue(text[1]), HexValue(text[2]), HexValue(text[3]), HexValue(text[4]))
      case (Some(a), Some(b), Some(c), Some(d)) =>
        var n := 4096 * a + 256 * b + 16 * c + d;
        if n < 0xD800 then Some(n as char) else None
      case _ => None
  }

  function Prepend(c: char, rest: Option<string>): Option<string> {
    if rest.Some? then Some([c] + rest.value) else None
  }

  /** What the characters between the quotes of a JSON string mean. */
  function ReadString(text: string): Option<string> {
    if text == "" then Some("")
    else if text[0] == '"' || text[0] as int < 32 then None
    else if text[0] != '\\' then Prepend(text[0], ReadString(text[1..]))
    else if |text| < 2 then None
    else if ShortEscape(text[1]).Some? then Prepend(ShortEscape(text[1]).value, ReadString(text[2..]))
    else if LongEscape(text[1..]).Some? then Prepend(LongEscape(text[1..]).value, ReadString(text[6..]))
    else None
  }

  lemma ControlReads(n: nat, rest: string)
    requires n < 32
    ensures ReadString("\\u00" + [HexDigit(n / 16), HexDigit(n % 16)] + rest) == Prepend(n as char, ReadString(rest))
  {
    var text := "\\u00" + [HexDigit(n / 16), HexDigit(n % 16)] + rest;
    assert text[0] == '\\' && text[1] == 'u' && text[2] == '0' && text[3] == '0';
    assert text[1..][0] == 'u' && text[1..][1] == '0' && text[1..][2] == '0';
    assert text[1..][3] == HexDigit(n / 16) && text[1..][4] == HexDigit(n % 16);
    assert text[6..] == rest;
    assert LongEscape(text[1..]) == Some(n as char);
  }

  lemma PairReads(c: char, meaning: char, rest: string)
    requires ShortEscape(c) == Some(meaning)
    ensures ReadString(['\\', c] + rest) == Prepend(meaning, ReadString(rest))
  {
    assert (['\\', c] + rest)[2..] == rest;
  }

  lemma EscapedReads(c: char, rest: string)
    ensures ReadString(Escaped(c) + rest) == Prepend(c, ReadString(rest))
  {
    var n := c as int;
    if c == '"' || c == '\\' {
      PairReads(c, c, rest);
    } else if n == 8 {
      PairReads('b', c, rest);
    } else if n == 12 {
      PairReads('f', c, rest);
    } else if c == '\n' {
      PairReads('n', c, rest);
    } else if c == '\r' {
      PairReads('r', c, rest);
    } else if c == '\t' {
      PairReads('t', c, rest);
    } else if n < 32 {
      ControlReads(n, rest);
    } else {
      assert ([c] + rest)[1..] == rest;
    }
  }

  /** The written string means the secret, whatever characters it has. */
  lemma {:induction false} EscapedReadsBack(secret: string)
    ensures ReadString(EscapedAll(secret)) == Some(secret)
  {
    if secret != "" {
      EscapedReadsBack(secret[1..]);
      EscapedReads(secret[0], EscapedAll(secret[1..]));
      assert [secret[0]] + secret[1..] == secret;
    }
  }

  /** The line is a root `secret` entry whose value is a JSON string that means the secret. */
  ghost predicate Says(line: string, secret: string, ending: string) {
    exists text :: line == "secret: \"" + text + "\"" + ending && ReadString(text) == Some(secret)
  }

  lemma {:induction false} FirstIsReplaced(lines: seq<string>, secret: string, i: nat)
    requires i < |lines| && IsRootSecret(lines[i]) && forall j | 0 <= j < i :: !IsRootSecret(lines[j])
    ensures |Kept(lines, secret)| > i && Kept(lines, secret)[..i] == lines[..i]
    ensures Kept(lines, secret)[i] == Replacement(secret) + LineEnding(lines[i])
    decreases |lines|
  {
    var front := lines[..|lines| - 1];
    if i < |front| {
      assert front[..i] == lines[..i];
      FirstIsReplaced(front, secret, i);
      KeptGrows(lines, secret);
      PrefixAt(Kept(front, secret), Kept(lines, secret), i);
    } else {
      NoneCounted(front);
      KeptWithoutSecret(front, secret);
      KeptReplaces(lines, secret);
    }
  }

  lemma KeptGrows(lines: seq<string>, secret: string)
    requires lines != []
    ensures Kept(lines[..|lines| - 1], secret) <= Kept(lines, secret)
  {
  }

  lemma KeptReplaces(lines: seq<string>, secret: string)
    requires lines != []
    requires var n := |lines| - 1;
      IsRootSecret(lines[n]) && SecretCount(lines[..n]) == 0 && Kept(lines[..n], secret) == lines[..n]
    ensures var n := |lines| - 1;
      Kept(lines, secret) == lines[..n] + [Replacement(secret) + LineEnding(lines[n])]
  {
  }

  lemma PrefixAt(a: seq<string>, b: seq<string>, i: nat)
    requires a <= b && i < |a|
    ensures b[..i] == a[..i] && b[i] == a[i]
  {
  }

  lemma {:induction false} NoneCounted(lines: seq<string>)
    requires forall j | 0 <= j < |lines| :: !IsRootSecret(lines[j])
    ensures SecretCount(lines) == 0
  {
    if lines != [] {
      NoneCounted(lines[..|lines| - 1]);
    }
  }

  lemma {:induction false} AnyCounted(lines: seq<string>, i: nat)
    requires i < |lines| && IsRootSecret(lines[i])
    ensures SecretCount(lines) > 0
    decreases |lines|
  {
    if i < |lines| - 1 {
      AnyCounted(lines[..|lines| - 1], i);
    }
  }

  /** The first root `secret` line comes to say the new secret, in its place and with its line
      ending; a file without one says it on a new last line. */
  lemma RewrittenSays(body: string, secret: string, i: nat)
    requires i <= |Lines(body)| && forall j | 0 <= j < i :: !IsRootSecret(Lines(body)[j])
    ensures var before, after := Lines(body), Lines(Rewritten(body, secret));
      && (i < |before| && IsRootSecret(before[i]) ==>
            && |after| > i && after[..i] == before[..i]
            && Says(after[i], secret, if |before[i]| >= 2 && before[i][|before[i]| - 2..] == "\r\n" then "\r\n" else "\n"))
      && (i == |before| ==> |after| == i + 1 && Says(after[i], secret, "\n"))
  {
    var lines := Lines(body);
    RewrittenSplits(body, secret);
    EscapedReadsBack(secret);
    if i < |lines| && IsRootSecret(lines[i]) {
      AnyCounted(lines, i);
      FirstIsReplaced(lines, secret, i);
      assert Says(Replacement(secret) + LineEnding(lines[i]), secret, LineEnding(lines[i]));
    } else if i == |lines| {
      NoneCounted(lines);
      assert Says(Replacement(secret) + "\n", secret, "\n");
    }
  }
}
