/** The string operations of the Rust standard library that the modelled parsers use. */
module Text {
  import opened Wrappers

  // ---------- split and join ----------

  /** `text.split(sep)`: always at least one part. */
  function Split(text: string, sep: char): (parts: seq<string>)
    ensures parts != []
  {
    if text == [] then [""]
    else if text[0] == sep then [""] + Split(text[1..], sep)
    else var rest := Split(text[1..], sep); [[text[0]] + rest[0]] + rest[1..]
  }

  /** `parts.join(sep)`. */
  function Join(parts: seq<string>, sep: char): string {
    if parts == [] then ""
    else if |parts| == 1 then parts[0]
    else parts[0] + [sep] + Join(parts[1..], sep)
  }

  lemma {:induction false} SplitHead(head: string, tail: string, sep: char)
    requires sep !in head
    ensures Split(head, sep) == [head]
    ensures Split(head + [sep] + tail, sep) == [head] + Split(tail, sep)
  {
    if head == [] {
      assert head + [sep] + tail == [sep] + tail;
    } else {
      SplitHead(head[1..], tail, sep);
      assert (head + [sep] + tail)[1..] == head[1..] + [sep] + tail;
      assert [head[0]] + head[1..] == head;
    }
  }

  /** Splitting undoes joining when no part holds the separator. */
  lemma {:induction false} SplitJoin(parts: seq<string>, sep: char)
    requires parts != []
    requires forall p | p in parts :: sep !in p
    ensures Split(Join(parts, sep), sep) == parts
  {
    if |parts| == 1 {
      SplitHead(parts[0], "", sep);
    } else {
      SplitJoin(parts[1..], sep);
      SplitHead(parts[0], Join(parts[1..], sep), sep);
    }
  }

  lemma {:induction false} SplitParts(text: string, sep: char)
    ensures forall p | p in Split(text, sep) :: sep !in p
  {
    if text != [] {
      SplitParts(text[1..], sep);
    }
  }

  /** `text.split_once(sep)`: the text before and after the first separator. */
  function SplitOnce(text: string, sep: char): Option<(string, string)> {
    if text == [] then None
    else if text[0] == sep then Some(("", text[1..]))
    else match SplitOnce(text[1..], sep)
      case None => None
      case Some((before, after)) => Some(([text[0]] + before, after))
  }

  lemma {:induction false} SplitOnceAt(before: string, after: string, sep: char)
    requires sep !in before
    ensures SplitOnce(before, sep) == None
    ensures SplitOnce(before + [sep] + after, sep) == Some((before, after))
  {
    if before == [] {
      assert before + [sep] + after == [sep] + after;
    } else {
      SplitOnceAt(before[1..], after, sep);
      assert (before + [sep] + after)[1..] == before[1..] + [sep] + after;
      assert [before[0]] + before[1..] == before;
    }
  }

  /** Joining undoes splitting. */
  lemma {:induction false} JoinSplit(text: string, sep: char)
    ensures Join(Split(text, sep), sep) == text
  {
    if text != [] {
      JoinSplit(text[1..], sep);
      var rest := Split(text[1..], sep);
      assert text == [text[0]] + text[1..];
      if text[0] == sep {
        assert Split(text, sep)[1..] == rest;
      } else {
        assert Split(text, sep)[1..] == rest[1..];
      }
    }
  }

  /** Splitting once finds the first separator, if there is one. */
  lemma {:induction false} SplitOnceExactly(text: string, sep: char)
    ensures SplitOnce(text, sep).None? ==> sep !in text
    ensures SplitOnce(text, sep).Some? ==>
      var (before, after) := SplitOnce(text, sep).value;
      sep !in before && text == before + [sep] + after
  {
    if text != [] && text[0] != sep {
      SplitOnceExactly(text[1..], sep);
      assert text == [text[0]] + text[1..];
      if SplitOnce(text[1..], sep).Some? {
        var (before, after) := SplitOnce(text[1..], sep).value;
        assert [text[0]] + (before + [sep] + after) == [text[0]] + before + [sep] + after;
      }
    }
  }

  // ---------- trimming ----------

  /** The characters of the Unicode property White_Space. */
  predicate IsWhitespace(c: char) {
    var n := c as int;
    || 0x09 <= n <= 0x0D || n == 0x20 || n == 0x85 || n == 0xA0 || n == 0x1680
    || 0x2000 <= n <= 0x200A || n == 0x2028 || n == 0x2029 || n == 0x202F || n == 0x205F || n == 0x3000
  }

  function TrimStart(s: string): string {
    if s != [] && IsWhitespace(s[0]) then TrimStart(s[1..]) else s
  }

  function TrimEnd(s: string): string {
    if s != [] && IsWhitespace(s[|s| - 1]) then TrimEnd(s[..|s| - 1]) else s
  }

  /** `text.trim()`. */
  function Trim(s: string): string {
    TrimEnd(TrimStart(s))
  }

  predicate Trimmed(s: string) {
    s != [] ==> !IsWhitespace(s[0]) && !IsWhitespace(s[|s| - 1])
  }

  lemma {:induction false} TrimEndFacts(s: string)
    ensures TrimEnd(s) <= s
    ensures TrimEnd(s) != [] ==> !IsWhitespace(TrimEnd(s)[|TrimEnd(s)| - 1])
  {
    if s != [] && IsWhitespace(s[|s| - 1]) {
      TrimEndFacts(s[..|s| - 1]);
    }
  }

  lemma {:induction false} TrimStartFacts(s: string)
    ensures TrimStart(s) != [] ==> !IsWhitespace(TrimStart(s)[0])
    ensures forall c | c in TrimStart(s) :: c in s
  {
    if s != [] && IsWhitespace(s[0]) {
      TrimStartFacts(s[1..]);
    }
  }

  lemma TrimFacts(s: string)
    ensures Trimmed(Trim(s))
    ensures forall c | c in Trim(s) :: c in s
  {
    TrimStartFacts(s);
    TrimEndFacts(TrimStart(s));
  }

  predicate AllWhitespace(s: string) {
    forall i | 0 <= i < |s| :: IsWhitespace(s[i])
  }

  lemma {:induction false} TrimEndExactly(s: string, core: string, back: string)
    requires s == core + back && AllWhitespace(back) && (core != [] ==> !IsWhitespace(core[|core| - 1]))
    ensures TrimEnd(s) == core
    decreases |back|
  {
    if back != [] {
      assert s[|s| - 1] == back[|back| - 1];
      assert s[..|s| - 1] == core + back[..|back| - 1];
      TrimEndExactly(s[..|s| - 1], core, back[..|back| - 1]);
    } else {
      assert s == core;
    }
  }

  lemma {:induction false} TrimStartExactly(s: string, front: string, rest: string)
    requires s == front + rest && AllWhitespace(front) && (rest != [] ==> !IsWhitespace(rest[0]))
    ensures TrimStart(s) == rest
    decreases |front|
  {
    if front != [] {
      assert s[0] == front[0] && s[1..] == front[1..] + rest;
      TrimStartExactly(s[1..], front[1..], rest);
    } else {
      assert s == rest;
    }
  }

  /** Trimming removes the whitespace around a text that neither starts nor ends with any. */
  lemma TrimRemoves(front: string, core: string, back: string)
    requires AllWhitespace(front) && AllWhitespace(back) && Trimmed(core)
    ensures Trim(front + core + back) == core
  {
    var s := front + core + back;
    assert s == front + (core + back);
    if core == [] {
      assert AllWhitespace(s);
      assert s == s + [] && s == [] + s;
      TrimStartExactly(s, s, []);
    } else {
      TrimStartExactly(s, front, core + back);
      TrimEndExactly(core + back, core, back);
    }
  }

  lemma {:induction false} TrimEndSplits(s: string) returns (back: string)
    ensures AllWhitespace(back) && s == TrimEnd(s) + back
  {
    back := [];
    if s != [] && IsWhitespace(s[|s| - 1]) {
      back := TrimEndSplits(s[..|s| - 1]);
      back := back + [s[|s| - 1]];
      assert s == s[..|s| - 1] + [s[|s| - 1]];
    }
  }

  lemma {:induction false} TrimStartSplits(s: string) returns (front: string)
    ensures AllWhitespace(front) && s == front + TrimStart(s)
  {
    front := [];
    if s != [] && IsWhitespace(s[0]) {
      front := TrimStartSplits(s[1..]);
      front := [s[0]] + front;
      assert s == [s[0]] + s[1..];
    }
  }

  /** What trimming removes is whitespace. */
  lemma TrimSplits(s: string) returns (front: string, back: string)
    ensures AllWhitespace(front) && AllWhitespace(back) && s == front + Trim(s) + back
  {
    front := TrimStartSplits(s);
    back := TrimEndSplits(TrimStart(s));
  }

  lemma TrimmedStays(s: string)
    requires Trimmed(s)
    ensures Trim(s) == s
  {
  }

  // ---------- ASCII case ----------

  function LowerChar(c: char): char {
    if 'A' <= c <= 'Z' then (c as int + 32) as char else c
  }

  /** `text.to_ascii_lowercase()`. */
  function Lower(s: string): string {
    seq(|s|, i requires 0 <= i < |s| => LowerChar(s[i]))
  }

  /** `a.eq_ignore_ascii_case(b)`. */
  predicate EqIgnoreCase(a: string, b: string) {
    Lower(a) == Lower(b)
  }

  // ---------- decimal numbers ----------

  predicate IsDigit(c: char) {
    '0' <= c <= '9'
  }

  predicate AllDigits(s: string) {
    forall i | 0 <= i < |s| :: IsDigit(s[i])
  }

  function DigitChar(d: nat): (c: char)
    requires d < 10
    ensures IsDigit(c) && DigitValue(c) == d
  {
    (48 + d) as char
  }

  function DigitValue(c: char): nat
    requires IsDigit(c)
  {
    c as int - 48
  }

  function DecimalValue(s: string): nat
    requires AllDigits(s)
  {
    if s == [] then 0 else 10 * DecimalValue(s[..|s| - 1]) + DigitValue(s[|s| - 1])
  }

  /** `n.to_string()`. */
  function Decimal(n: nat): (s: string)
    ensures s != [] && AllDigits(s)
  {
    if n < 10 then [DigitChar(n)] else Decimal(n / 10) + [DigitChar(n % 10)]
  }

  lemma {:induction false} DecimalRoundTrip(n: nat)
    ensures DecimalValue(Decimal(n)) == n
    ensures |Decimal(n)| > 1 ==> Decimal(n)[0] != '0'
    ensures n > 0 ==> Decimal(n)[0] != '0'
  {
    if n >= 10 {
      DecimalRoundTrip(n / 10);
      assert Decimal(n)[..|Decimal(n)| - 1] == Decimal(n / 10);
    } else {
      assert Decimal(n)[..0] == "";
    }
  }

  /** Digits without a leading zero print back. */
  lemma {:induction false} DigitsPrintBack(s: string)
    requires s != [] && AllDigits(s) && (|s| > 1 ==> s[0] != '0')
    ensures Decimal(DecimalValue(s)) == s
    ensures s[0] != '0' ==> DecimalValue(s) > 0
    decreases |s|
  {
    var front := s[..|s| - 1];
    if front != [] {
      DigitsPrintBack(front);
      assert s == front + [s[|s| - 1]];
      assert DecimalValue(s) / 10 == DecimalValue(front);
    } else {
      assert DecimalValue(front) == 0;
    }
  }

  /** `text.parse::<uN>()`: an optional plus sign, then digits, below `bound`. */
  function ParseUnsigned(s: string, bound: nat): Option<nat> {
    var digits := if s != [] && s[0] == '+' then s[1..] else s;
    if digits == [] || !AllDigits(digits) then None
    else if DecimalValue(digits) >= bound then None
    else Some(DecimalValue(digits))
  }

  lemma ParseDecimal(n: nat, bound: nat)
    requires n < bound
    ensures ParseUnsigned(Decimal(n), bound) == Some(n)
    ensures Trimmed(Decimal(n)) && ',' !in Decimal(n)
  {
    DecimalRoundTrip(n);
    var s := Decimal(n);
    assert IsDigit(s[0]) && IsDigit(s[|s| - 1]);
  }
}
