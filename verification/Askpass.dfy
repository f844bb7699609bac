/** The password prompt of `askpass.rs`: a byte buffer edited one whole UTF-8 character at
    a time, decoded once at the end. */
module Askpass {
  import opened Wrappers

  type Byte = x: int | 0 <= x < 256

  /** A Unicode scalar value. */
  type Scalar = n: nat | n < 0xD800 || 0xE000 <= n < 0x11_0000

  // ---------- UTF-8, sections 3 and 4 of RFC 3629 ----------

  function Encode(c: Scalar): seq<Byte> {
    if c < 0x80 then [c]
    else if c < 0x800 then [0xC0 + c / 0x40, 0x80 + c % 0x40]
    else if c < 0x1_0000 then [0xE0 + c / 0x1000, 0x80 + c / 0x40 % 0x40, 0x80 + c % 0x40]
    else [0xF0 + c / 0x4_0000, 0x80 + c / 0x1000 % 0x40, 0x80 + c / 0x40 % 0x40, 0x80 + c % 0x40]
  }

  function EncodeAll(text: seq<Scalar>): seq<Byte> {
    if text == [] then [] else EncodeAll(text[..|text| - 1]) + Encode(text[|text| - 1])
  }

  /** `byte & 0xC0 == 0x80`. */
  predicate IsContinuation(b: Byte) {
    0x80 <= b < 0xC0
  }

  function Two(a: Byte, b: Byte): int {
    (a - 0xC0) * 0x40 + (b - 0x80)
  }

  function Three(a: Byte, b: Byte, c: Byte): int {
    (a - 0xE0) * 0x1000 + (b - 0x80) * 0x40 + (c - 0x80)
  }

  function Four(a: Byte, b: Byte, c: Byte, d: Byte): int {
    (a - 0xF0) * 0x4_0000 + (b - 0x80) * 0x1000 + (c - 0x80) * 0x40 + (d - 0x80)
  }

  /** How many bytes the character starting with `b` takes; zero for a byte that starts none. */
  function Width(b: Byte): nat {
    if b < 0x80 then 1
    else if 0xC2 <= b < 0xE0 then 2
    else if 0xE0 <= b < 0xF0 then 3
    else if 0xF0 <= b < 0xF5 then 4
    else 0
  }

  predicate Continued(bytes: seq<Byte>, width: nat)
    requires width <= |bytes|
  {
    && (width >= 2 ==> IsContinuation(bytes[1]))
    && (width >= 3 ==> IsContinuation(bytes[2]))
    && (width >= 4 ==> IsContinuation(bytes[3]))
  }

  /** The character at the front of `bytes` and its length; nothing for an ill-formed start. */
  function DecodeFirst(bytes: seq<Byte>): (r: Option<(Scalar, nat)>)
    ensures r.Some? ==> 0 < r.value.1 <= |bytes|
  {
    if bytes == [] then None
    else
      var width := Width(bytes[0]);
      if width == 0 || |bytes| < width || !Continued(bytes, width) then None
      else
        var n := match width
          case 1 => bytes[0] as int
          case 2 => Two(bytes[0], bytes[1])
          case 3 => Three(bytes[0], bytes[1], bytes[2])
          case _ => Four(bytes[0], bytes[1], bytes[2], bytes[3]);
        if (width == 3 && n < 0x800) || 0xD800 <= n < 0xE000 || (width == 4 && n < 0x1_0000) || n >= 0x11_0000
        then None
        else Some((n, width))
  }

  /** `String::from_utf8`: the whole buffer or nothing. */
  function Decode(bytes: seq<Byte>): Option<seq<Scalar>> {
    if bytes == [] then Some([])
    else match DecodeFirst(bytes)
      case None => None
      case Some((c, n)) =>
        match Decode(bytes[n..])
        case None => None
        case Some(rest) => Some([c] + rest)
  }

  /** One lead byte followed by continuation bytes. */
  predicate Shaped(e: seq<Byte>) {
    e != [] && !IsContinuation(e[0]) && forall i | 1 <= i < |e| :: IsContinuation(e[i])
  }

  lemma EncodeShape(c: Scalar)
    ensures Shaped(Encode(c)) && |Encode(c)| <= 4
  {
  }

  lemma ReadsTwo(c: Scalar, bytes: seq<Byte>)
    requires 0x80 <= c < 0x800 && |bytes| >= 2
    requires bytes[0] == 0xC0 + c / 0x40 && bytes[1] == 0x80 + c % 0x40
    ensures DecodeFirst(bytes) == Some((c, 2))
  {
  }

  lemma ReadsThree(c: Scalar, bytes: seq<Byte>)
    requires 0x800 <= c < 0x1_0000 && |bytes| >= 3
    requires bytes[0] == 0xE0 + c / 0x1000 && bytes[1] == 0x80 + c / 0x40 % 0x40 && bytes[2] == 0x80 + c % 0x40
    ensures DecodeFirst(bytes) == Some((c, 3))
  {
  }

  lemma ReadsFour(c: Scalar, bytes: seq<Byte>)
    requires 0x1_0000 <= c && |bytes| >= 4
    requires bytes[0] == 0xF0 + c / 0x4_0000 && bytes[1] == 0x80 + c / 0x1000 % 0x40
    requires bytes[2] == 0x80 + c / 0x40 % 0x40 && bytes[3] == 0x80 + c % 0x40
    ensures DecodeFirst(bytes) == Some((c, 4))
  {
    FourSum(c);
    assert Width(bytes[0]) == 4 && Continued(bytes, 4);
    assert Four(bytes[0], bytes[1], bytes[2], bytes[3]) == c;
  }

  lemma FourSum(c: nat)
    requires 0x1_0000 <= c < 0x11_0000
    ensures c / 0x4_0000 * 0x4_0000 + c / 0x1000 % 0x40 * 0x1000 + c / 0x40 % 0x40 * 0x40 + c % 0x40 == c
    ensures c / 0x4_0000 < 5
  {
    assert c / 0x1000 == c / 0x40 / 0x40 && c / 0x4_0000 == c / 0x1000 / 0x40;
  }

  lemma DecodeEncoded(c: Scalar, rest: seq<Byte>)
    ensures DecodeFirst(Encode(c) + rest) == Some((c, |Encode(c)|))
  {
    var bytes := Encode(c) + rest;
    if 0x80 <= c < 0x800 {
      ReadsTwo(c, bytes);
    } else if 0x800 <= c < 0x1_0000 {
      ReadsThree(c, bytes);
    } else if 0x1_0000 <= c {
      ReadsFour(c, bytes);
    }
  }

  lemma TwoDigits(a: Byte, b: Byte)
    requires 0xC2 <= a < 0xE0 && IsContinuation(b)
    ensures 0x80 <= Two(a, b) < 0x800 && Encode(Two(a, b)) == [a, b]
  {
  }

  lemma ThreeDigits(a: Byte, b: Byte, c: Byte)
    requires 0xE0 <= a < 0xF0 && IsContinuation(b) && IsContinuation(c)
    requires 0x800 <= Three(a, b, c) && !(0xD800 <= Three(a, b, c) < 0xE000)
    ensures Three(a, b, c) < 0x1_0000 && Encode(Three(a, b, c)) == [a, b, c]
  {
    var n := Three(a, b, c);
    assert n / 0x1000 == a - 0xE0 && n / 0x40 == (a - 0xE0) * 0x40 + (b - 0x80) && n % 0x40 == c - 0x80;
  }

  lemma FourDigits(a: Byte, b: Byte, c: Byte, d: Byte)
    requires 0xF0 <= a < 0xF5 && IsContinuation(b) && IsContinuation(c) && IsContinuation(d)
    requires 0x1_0000 <= Four(a, b, c, d) < 0x11_0000
    ensures Encode(Four(a, b, c, d)) == [a, b, c, d]
  {
    var n := Four(a, b, c, d);
    var two := (a - 0xF0) * 0x40 + (b - 0x80);
    var three := two * 0x40 + (c - 0x80);
    assert n == three * 0x40 + (d - 0x80);
    assert n / 0x40 == three && n % 0x40 == d - 0x80;
    assert n / 0x1000 == two && n / 0x4_0000 == a - 0xF0;
    assert three % 0x40 == c - 0x80 && two % 0x40 == b - 0x80;
  }

  lemma EncodeDecoded(bytes: seq<Byte>)
    requires DecodeFirst(bytes).Some?
    ensures var (c, n) := DecodeFirst(bytes).value; Encode(c) == bytes[..n]
  {
    var n := Width(bytes[0]);
    if n == 1 {
      assert bytes[..1] == [bytes[0]];
    } else if n == 2 {
      TwoDigits(bytes[0], bytes[1]);
      assert bytes[..2] == [bytes[0], bytes[1]];
    } else if n == 3 {
      ThreeDigits(bytes[0], bytes[1], bytes[2]);
      assert bytes[..3] == [bytes[0], bytes[1], bytes[2]];
    } else {
      FourDigits(bytes[0], bytes[1], bytes[2], bytes[3]);
      assert bytes[..4] == [bytes[0], bytes[1], bytes[2], bytes[3]];
    }
  }

  lemma {:induction false} EncodeAllFront(c: Scalar, rest: seq<Scalar>)
    ensures EncodeAll([c] + rest) == Encode(c) + EncodeAll(rest)
  {
    var text := [c] + rest;
    if rest == [] {
      assert text == [c] && text[..0] == [];
      assert EncodeAll(text) == [] + Encode(c) && EncodeAll(rest) == [];
    } else {
      var init, last := rest[..|rest| - 1], rest[|rest| - 1];
      EncodeAllFront(c, init);
      assert text[..|text| - 1] == [c] + init;
      assert EncodeAll(text) == EncodeAll([c] + init) + Encode(last);
      Associate(Encode(c), EncodeAll(init), Encode(last));
    }
  }

  lemma Associate(a: seq<Byte>, b: seq<Byte>, c: seq<Byte>)
    ensures (a + b) + c == a + (b + c)
  {
  }

  /** Decoding is the inverse of encoding, and accepts nothing but encoded text. */
  lemma {:induction false} DecodeInvertsEncode(text: seq<Scalar>)
    ensures Decode(EncodeAll(text)) == Some(text)
    decreases |text|
  {
    if text != [] {
      EncodeAllFront(text[0], text[1..]);
      assert [text[0]] + text[1..] == text;
      DecodeEncoded(text[0], EncodeAll(text[1..]));
      EncodeShape(text[0]);
      assert EncodeAll(text)[|Encode(text[0])|..] == EncodeAll(text[1..]);
      DecodeInvertsEncode(text[1..]);
    }
  }

  lemma DecodeUnfolds(bytes: seq<Byte>) returns (c: Scalar, n: nat, rest: seq<Scalar>)
    requires bytes != [] && Decode(bytes).Some?
    ensures DecodeFirst(bytes) == Some((c, n)) && 0 < n <= |bytes|
    ensures Decode(bytes[n..]) == Some(rest) && Decode(bytes) == Some([c] + rest)
  {
    var first := DecodeFirst(bytes).value;
    c, n := first.0, first.1;
    rest := Decode(bytes[n..]).value;
  }

  lemma EncodePieces(bytes: seq<Byte>, c: Scalar, n: nat, rest: seq<Scalar>)
    requires n <= |bytes| && Encode(c) == bytes[..n] && EncodeAll(rest) == bytes[n..]
    ensures EncodeAll([c] + rest) == bytes
  {
    EncodeAllFront(c, rest);
    assert bytes[..n] + bytes[n..] == bytes;
  }

  /** Whatever decodes is the encoding of what it decodes to. */
  lemma {:induction false} EncodeInvertsDecode(bytes: seq<Byte>)
    requires Decode(bytes).Some?
    ensures EncodeAll(Decode(bytes).value) == bytes
    decreases |bytes|
  {
    if bytes != [] {
      var c, n, rest := DecodeUnfolds(bytes);
      EncodeDecoded(bytes);
      EncodeInvertsDecode(bytes[n..]);
      EncodePieces(bytes, c, n, rest);
    }
  }

  // ---------- the edit buffer ----------

  /** The last index that is no continuation byte, or zero. */
  function LastStart(bytes: seq<Byte>, index: nat): (start: nat)
    requires index < |bytes|
    ensures start <= index
  {
    if index > 0 && IsContinuation(bytes[index]) then LastStart(bytes, index - 1) else index
  }

  function Popped(bytes: seq<Byte>): seq<Byte> {
    if bytes == [] then [] else bytes[..LastStart(bytes, |bytes| - 1)]
  }

  /** The raw password bytes typed so far. */
  class Buffer {
    var bytes: seq<Byte>

    constructor ()
      ensures bytes == []
    {
      bytes := [];
    }

    method Push(b: Byte)
      modifies this
      ensures bytes == old(bytes) + [b]
    {
      bytes := bytes + [b];
    }

    /** `pop_char`. */
    method PopChar()
      modifies this
      ensures bytes == Popped(old(bytes))
    {
      if bytes == [] {
        return;
      }
      var index := |bytes| - 1;
      while index > 0 && IsContinuation(bytes[index])
        invariant 0 <= index < |bytes|
        invariant LastStart(bytes, index) == LastStart(bytes, |bytes| - 1)
      {
        index := index - 1;
      }
      bytes := bytes[..index];
    }
  }

  /** How reading ends. */
  datatype Outcome = Submitted(password: Option<seq<Scalar>>) | Aborted

  /** What one input byte does to the buffer. */
  datatype Effect = Finish | Abort | Erase | Append | Ignore

  function EffectOf(b: Byte): Effect {
    if b == 10 || b == 13 then Finish
    else if b == 3 then Abort
    else if b == 0x7F || b == 8 then Erase
    else if b >= 0x20 then Append
    else Ignore
  }

  /** The buffer after the input so far, and whether the loop has stopped. */
  datatype Progress = Reading(bytes: seq<Byte>) | Done(bytes: seq<Byte>) | Interrupted

  function AfterByte(p: Progress, b: Byte): Progress {
    if !p.Reading? then p
    else match EffectOf(b)
      case Finish => Done(p.bytes)
      case Abort => Interrupted
      case Erase => Reading(Popped(p.bytes))
      case Append => Reading(p.bytes + [b])
      case Ignore => p
  }

  function AfterInput(p: Progress, input: seq<Byte>): Progress {
    if input == [] then p else AfterByte(AfterInput(p, input[..|input| - 1]), input[|input| - 1])
  }

  lemma {:induction false} AfterConcat(p: Progress, a: seq<Byte>, b: seq<Byte>)
    ensures AfterInput(p, a + b) == AfterInput(AfterInput(p, a), b)
  {
    if b == [] {
      assert a + b == a;
    } else {
      AfterConcat(p, a, b[..|b| - 1]);
      assert (a + b)[..|a + b| - 1] == a + b[..|b| - 1];
    }
  }

  lemma {:induction false} StoppedStays(p: Progress, input: seq<Byte>)
    requires !p.Reading?
    ensures AfterInput(p, input) == p
  {
    if input != [] {
      StoppedStays(p, input[..|input| - 1]);
    }
  }

  /** Reading goes on until the first carriage return, line feed or Ctrl-C. */
  lemma {:induction false} ReadingExactly(bytes: seq<Byte>, input: seq<Byte>)
    ensures AfterInput(Reading(bytes), input).Reading?
      <==> forall i | 0 <= i < |input| :: input[i] != 0x0A && input[i] != 0x0D && input[i] != 0x03
  {
    if input != [] {
      ReadingExactly(bytes, input[..|input| - 1]);
    }
  }

  lemma AfterOne(p: Progress, b: Byte, rest: seq<Byte>)
    ensures AfterInput(p, [b] + rest) == AfterInput(AfterByte(p, b), rest)
  {
    AfterConcat(p, [b], rest);
    assert [b][..0] == [];
    assert AfterInput(p, []) == p;
  }

  /** Whatever follows, Enter submits what is in the buffer and Ctrl-C aborts; the other control
      characters but backspace change nothing. */
  lemma ControlEnds(before: seq<Byte>, b: Byte, rest: seq<Byte>)
    requires AfterInput(Reading([]), before).Reading?
    ensures b == 0x0A || b == 0x0D ==>
      AfterInput(Reading([]), before + [b] + rest) == Done(AfterInput(Reading([]), before).bytes)
    ensures b == 0x03 ==> AfterInput(Reading([]), before + [b] + rest) == Interrupted
    ensures b < 0x20 && b != 0x0A && b != 0x0D && b != 0x03 && b != 0x08 ==>
      AfterInput(Reading([]), before + [b] + rest) == AfterInput(Reading([]), before + rest)
  {
    var p := AfterInput(Reading([]), before);
    assert before + [b] + rest == before + ([b] + rest);
    AfterConcat(Reading([]), before, [b] + rest);
    AfterConcat(Reading([]), before, rest);
    AfterOne(p, b, rest);
    if !AfterByte(p, b).Reading? {
      StoppedStays(AfterByte(p, b), rest);
    }
  }

  /** The read loop of `draw_and_read`; the end of `input` is the end of the terminal's input. */
  method ReadPassword(input: seq<Byte>) returns (r: Outcome)
    ensures match AfterInput(Reading([]), input)
      case Interrupted => r == Aborted
      case Reading(bytes) => r == Submitted(Decode(bytes))
      case Done(bytes) => r == Submitted(Decode(bytes))
  {
    var buffer := new Buffer();
    var i := 0;
    while i < |input|
      invariant 0 <= i <= |input|
      invariant fresh(buffer)
      invariant AfterInput(Reading([]), input[..i]) == Reading(buffer.bytes)
    {
      var b := input[i];
      assert input[..i + 1][..i] == input[..i];
      assert input == input[..i + 1] + input[i + 1..];
      match EffectOf(b) {
      case Finish =>
        AfterConcat(Reading([]), input[..i + 1], input[i + 1..]);
        StoppedStays(Done(buffer.bytes), input[i + 1..]);
        return Submitted(Decode(buffer.bytes));
      case Abort =>
        AfterConcat(Reading([]), input[..i + 1], input[i + 1..]);
        StoppedStays(Interrupted, input[i + 1..]);
        return Aborted;
      case Erase => buffer.PopChar();
      case Append => buffer.Push(b);
      case Ignore =>
      }
      i := i + 1;
    }
    assert input[..i] == input;
    return Submitted(Decode(buffer.bytes));
  }

  // ---------- what is typed is what is submitted ----------

  /** A keystroke: a character that is no control character, or backspace. */
  datatype Key = Type(c: Scalar) | Backspace(del: bool)

  predicate Typable(key: Key) {
    key.Type? ==> key.c >= 0x20 && key.c != 0x7F
  }

  function KeyBytes(key: Key): seq<Byte> {
    match key
    case Type(c) => Encode(c)
    case Backspace(del) => [if del then 0x7F else 8]
  }

  function InputOf(keys: seq<Key>): seq<Byte> {
    if keys == [] then [] else InputOf(keys[..|keys| - 1]) + KeyBytes(keys[|keys| - 1])
  }

  /** One keystroke on the character stack: a backspace pops one whole character. */
  function AfterKey(text: seq<Scalar>, key: Key): seq<Scalar> {
    match key
    case Type(c) => text + [c]
    case Backspace(_) => if text == [] then [] else text[..|text| - 1]
  }

  function Typed(keys: seq<Key>): seq<Scalar> {
    if keys == [] then [] else AfterKey(Typed(keys[..|keys| - 1]), keys[|keys| - 1])
  }

  lemma {:induction false} LastStartFound(bytes: seq<Byte>, start: nat, index: nat)
    requires start <= index < |bytes| && !IsContinuation(bytes[start])
    requires forall i | start < i <= index :: IsContinuation(bytes[i])
    ensures LastStart(bytes, index) == start
  {
    if index > start {
      LastStartFound(bytes, start, index - 1);
    }
  }

  /** Popping removes exactly the last encoded character. */
  lemma PopChunk(front: seq<Byte>, last: seq<Byte>)
    requires Shaped(last)
    ensures Popped(front + last) == front
  {
    var bytes := front + last;
    LastStartFound(bytes, |front|, |bytes| - 1);
    assert bytes[..|front|] == front;
  }

  lemma PopRemovesLastChar(text: seq<Scalar>)
    ensures Popped(EncodeAll(text)) == if text == [] then [] else EncodeAll(text[..|text| - 1])
  {
    if text != [] {
      EncodeShape(text[|text| - 1]);
      PopChunk(EncodeAll(text[..|text| - 1]), Encode(text[|text| - 1]));
    }
  }

  lemma EncodedBytesAppend(c: Scalar)
    requires c >= 0x20 && c != 0x7F
    ensures forall i | 0 <= i < |Encode(c)| :: EffectOf(Encode(c)[i]) == Append
  {
  }

  lemma {:induction false} AppendsAll(bytes: seq<Byte>, more: seq<Byte>)
    requires forall i | 0 <= i < |more| :: EffectOf(more[i]) == Append
    ensures AfterInput(Reading(bytes), more) == Reading(bytes + more)
  {
    if more == [] {
      assert bytes + more == bytes;
    } else {
      AppendsAll(bytes, more[..|more| - 1]);
      assert bytes + more[..|more| - 1] + [more[|more| - 1]] == bytes + more;
    }
  }

  lemma EncodeAllSnoc(text: seq<Scalar>, c: Scalar)
    ensures EncodeAll(text + [c]) == EncodeAll(text) + Encode(c)
  {
    assert (text + [c])[..|text|] == text;
  }

  lemma KeyStep(text: seq<Scalar>, key: Key)
    requires Typable(key)
    ensures AfterInput(Reading(EncodeAll(text)), KeyBytes(key)) == Reading(EncodeAll(AfterKey(text, key)))
  {
    if key.Type? {
      EncodedBytesAppend(key.c);
      AppendsAll(EncodeAll(text), Encode(key.c));
      EncodeAllSnoc(text, key.c);
    } else {
      PopRemovesLastChar(text);
      assert KeyBytes(key)[..0] == [];
      assert AfterInput(Reading(EncodeAll(text)), []) == Reading(EncodeAll(text));
    }
  }

  /** At every moment the buffer is the UTF-8 encoding of the character stack. */
  lemma {:induction false} BufferEncodesStack(keys: seq<Key>)
    requires forall i | 0 <= i < |keys| :: Typable(keys[i])
    ensures AfterInput(Reading([]), InputOf(keys)) == Reading(EncodeAll(Typed(keys)))
  {
    if keys != [] {
      var before, key := keys[..|keys| - 1], keys[|keys| - 1];
      BufferEncodesStack(before);
      AfterConcat(Reading([]), InputOf(before), KeyBytes(key));
      KeyStep(Typed(before), key);
    }
  }

  /** Submitting decodes to exactly the text on the character stack. */
  lemma SubmittedIsTyped(keys: seq<Key>, terminator: Byte, rest: seq<Byte>)
    requires forall i | 0 <= i < |keys| :: Typable(keys[i])
    requires terminator == 0x0A || terminator == 0x0D
    ensures AfterInput(Reading([]), InputOf(keys) + [terminator] + rest) == Done(EncodeAll(Typed(keys)))
    ensures Decode(EncodeAll(Typed(keys))) == Some(Typed(keys))
  {
    BufferEncodesStack(keys);
    ControlEnds(InputOf(keys), terminator, rest);
    DecodeInvertsEncode(Typed(keys));
  }
}
