/**
 The small wire decoders of the database inspector: Redis arrays, PostgreSQL error
 fields and MySQL length-encoded integers, each shown to undo its encoder.
 */
module DbDecoders {
  import opened Basics
  import opened Decimal

  type Bytes = seq<byte>

  const MAX_U64: nat := 0xffff_ffff_ffff_ffff

  // ---- Redis: RESP arrays -------------------------------------------------------------

  const CRLF: string := "\r\n"

  predicate CrlfAt(s: string, i: nat) {
    i + 1 < |s| && s[i] == '\r' && s[i + 1] == '\n'
  }

  predicate NoCrlf(s: string) {
    forall i :: 0 <= i < |s| ==> !CrlfAt(s, i)
  }

  /** Length of the first line. */
  function LineEnd(s: string): (n: nat)
    ensures n <= |s|
    ensures forall i :: 0 <= i < n ==> !CrlfAt(s, i)
    ensures n < |s| ==> CrlfAt(s, n)
  {
    if s == [] || CrlfAt(s, 0) then 0
    else
      var n := LineEnd(s[1..]);
      assert forall i :: 0 < i <= n ==> CrlfAt(s, i) == CrlfAt(s[1..], i - 1);
      1 + n
  }

  /** Split at every CRLF, leftmost first; always at least one line. */
  function Lines(s: string): (r: seq<string>)
    ensures |r| >= 1
    decreases |s|
  {
    var n := LineEnd(s);
    if n < |s| then [s[..n]] + Lines(s[n + 2..]) else [s]
  }

  function ElementCount(header: string): nat {
    if header != [] && header[0] == '*' then
      match ParseUnsigned(header[1..], MAX_U64) case Some(n) => n case None => 0
    else 0
  }

  /** Command and key: the first and second element values, empty when missing. */
  function RespArray(text: string): (string, string) {
    var lines := Lines(text);
    var count := ElementCount(lines[0]);
    if count == 0 then ("UNKNOWN", "")
    else
      (if |lines| > 2 then lines[2] else "",
       if count > 1 && |lines| > 4 then lines[4] else "")
  }

  /** Reads (length line, value line) pairs off the line iterator, as many as announced. */
  method ParseRespArray(text: string) returns (command: string, key: string)
    ensures (command, key) == RespArray(text)
  {
    var lines := Lines(text);
    var count := ElementCount(lines[0]);
    if count == 0 {
      return "UNKNOWN", "";
    }
    var next := 1;
    var args: seq<string> := [];
    var read := 0;
    while read < count
      invariant read <= count
      invariant next <= |lines|
      invariant next == 1 + 2 * read || (next == |lines| == 2 * read && |args| == read - 1)
      invariant next == 1 + 2 * read ==> |args| == read
      invariant forall j :: 0 <= j < |args| ==> 2 + 2 * j < |lines| && args[j] == lines[2 + 2 * j]
    {
      if next == |lines| {
        break;
      }
      next := next + 1;
      if next < |lines| {
        args := args + [lines[next]];
        next := next + 1;
      }
      read := read + 1;
    }
    command := if |args| > 0 then args[0] else "";
    key := if |args| > 1 then args[1] else "";
  }

  function PutElement(arg: string): string {
    "$" + Print(|arg|) + CRLF + (arg + CRLF)
  }

  function PutElements(args: seq<string>): string {
    if args == [] then "" else PutElement(args[0]) + PutElements(args[1..])
  }

  function PutRespArray(args: seq<string>): string {
    "*" + Print(|args|) + CRLF + PutElements(args)
  }

  lemma LineEndAt(s: string, n: nat)
    requires CrlfAt(s, n) && forall i :: 0 <= i < n ==> !CrlfAt(s, i)
    ensures LineEnd(s) == n
  {
  }

  /** A line ends at its first CRLF, whether its own or the one after it. */
  lemma LineThenRest(line: string, rest: string)
    ensures LineEnd(line + CRLF + rest) == LineEnd(line)
    ensures NoCrlf(line) <==> LineEnd(line) == |line|
    ensures NoCrlf(line) ==> Lines(line + CRLF + rest) == [line] + Lines(rest)
  {
    var s := line + CRLF + rest;
    var n := LineEnd(line);
    assert CrlfAt(s, n);
    assert forall i :: 0 <= i < n ==> CrlfAt(s, i) == CrlfAt(line, i);
    LineEndAt(s, n);
    if n == |line| {
      assert s[..n] == line && s[n + 2..] == rest;
    }
  }

  lemma DigitsNoCrlf(mark: char, n: nat)
    requires mark != '\r'
    ensures NoCrlf([mark] + Print(n))
  {
    PrintReads(n);
    assert forall i :: 0 < i < |[mark] + Print(n)| ==> IsDigit(([mark] + Print(n))[i]);
  }

  lemma ElementHeader(a: string, rest: string)
    ensures Lines(PutElement(a) + rest) == ["$" + Print(|a|)] + Lines(a + CRLF + rest)
  {
    DigitsNoCrlf('$', |a|);
    assert PutElement(a) + rest == ("$" + Print(|a|)) + CRLF + (a + CRLF + rest);
    LineThenRest("$" + Print(|a|), a + CRLF + rest);
  }

  lemma ConcatAssociates<T>(a: seq<T>, b: seq<T>, c: seq<T>)
    ensures (a + b) + c == a + (b + c)
  {
  }

  lemma CountIs(n: nat)
    requires n <= MAX_U64
    ensures ElementCount("*" + Print(n)) == n
  {
    ParseUnsignedReads(n, MAX_U64);
    assert ("*" + Print(n))[1..] == Print(n);
  }

  lemma HeaderLine(args: seq<string>, rest: string)
    requires |args| <= MAX_U64
    ensures Lines(PutRespArray(args) + rest) == ["*" + Print(|args|)] + Lines(PutElements(args) + rest)
    ensures ElementCount("*" + Print(|args|)) == |args|
  {
    DigitsNoCrlf('*', |args|);
    LineThenRest("*" + Print(|args|), PutElements(args) + rest);
    assert PutRespArray(args) + rest == ("*" + Print(|args|)) + CRLF + (PutElements(args) + rest);
    CountIs(|args|);
  }

  lemma FirstLine(a: string, rest: string)
    ensures Lines(a + CRLF + rest)[0] == a <==> NoCrlf(a)
  {
    var s := a + CRLF + rest;
    LineThenRest(a, rest);
    assert LineEnd(s) < |s| && Lines(s)[0] == s[..LineEnd(a)];
    assert s[..|a|] == a;
  }

  lemma ElementsCons(args: seq<string>, rest: string)
    requires args != []
    ensures PutElements(args) + rest == PutElement(args[0]) + (PutElements(args[1..]) + rest)
  {
    ConcatAssociates(PutElement(args[0]), PutElements(args[1..]), rest);
  }

  /** The lines of a non-empty array: the count, the first length, then the first argument's. */
  lemma ArrayLines(args: seq<string>, rest: string)
    requires 0 < |args| <= MAX_U64
    ensures Lines(PutRespArray(args) + rest)
         == ["*" + Print(|args|), "$" + Print(|args[0]|)]
            + Lines(args[0] + CRLF + (PutElements(args[1..]) + rest))
  {
    var count, len := "*" + Print(|args|), "$" + Print(|args[0]|);
    HeaderLine(args, rest);
    ElementsCons(args, rest);
    ElementHeader(args[0], PutElements(args[1..]) + rest);
    ConcatAssociates([count], [len], Lines(args[0] + CRLF + (PutElements(args[1..]) + rest)));
    assert [count] + [len] == [count, len];
  }

  /** The lines of an array whose first argument is whole: two lines for it, then the second's length and lines. */
  lemma KeyLines(args: seq<string>, rest: string)
    requires 1 < |args| <= MAX_U64 && NoCrlf(args[0])
    ensures Lines(PutRespArray(args) + rest)
         == ["*" + Print(|args|), "$" + Print(|args[0]|), args[0], "$" + Print(|args[1]|)]
            + Lines(args[1] + CRLF + (PutElements(args[2..]) + rest))
  {
    var tail, later := PutElements(args[1..]) + rest, PutElements(args[2..]) + rest;
    var two, a, len := ["*" + Print(|args|), "$" + Print(|args[0]|)], args[0], "$" + Print(|args[1]|);
    var more := Lines(args[1] + CRLF + later);
    ArrayLines(args, rest);
    LineThenRest(a, tail);
    assert args[1..][0] == args[1] && args[1..][1..] == args[2..];
    ElementsCons(args[1..], rest);
    ElementHeader(args[1], later);
    FourThen(two[0], two[1], a, len, more);
  }

  lemma FourThen(a: string, b: string, c: string, d: string, more: seq<string>)
    ensures [a, b] + ([c] + ([d] + more)) == [a, b, c, d] + more
  {
  }

  /** What is picked out of lines that begin with a count. */
  lemma Picked(text: string, head: seq<string>, more: seq<string>)
    requires Lines(text) == head + more && more != [] && head != [] && ElementCount(head[0]) > 0
    ensures |head| == 2 ==> RespArray(text).0 == more[0]
    ensures |head| == 4 && ElementCount(head[0]) > 1 ==> RespArray(text).1 == more[0]
  {
    var lines := Lines(text);
    assert lines[0] == head[0] && lines[|head|] == more[0];
  }

  /** Being CRLF-free is needed: value lines are cut at CRLF and the announced length is ignored. */
  lemma RespCommandIff(args: seq<string>, rest: string)
    requires 0 < |args| <= MAX_U64
    ensures RespArray(PutRespArray(args) + rest).0 == args[0] <==> NoCrlf(args[0])
  {
    var tail := PutElements(args[1..]) + rest;
    HeaderLine(args, rest);
    ArrayLines(args, rest);
    Picked(PutRespArray(args) + rest, ["*" + Print(|args|), "$" + Print(|args[0]|)], Lines(args[0] + CRLF + tail));
    FirstLine(args[0], tail);
  }

  lemma KeyIsFifthLine(args: seq<string>, rest: string)
    requires 1 < |args| <= MAX_U64 && NoCrlf(args[0])
    ensures RespArray(PutRespArray(args) + rest).1 == Lines(args[1] + CRLF + (PutElements(args[2..]) + rest))[0]
  {
    HeaderLine(args, rest);
    KeyLines(args, rest);
    Picked(PutRespArray(args) + rest,
           ["*" + Print(|args|), "$" + Print(|args[0]|), args[0], "$" + Print(|args[1]|)],
           Lines(args[1] + CRLF + (PutElements(args[2..]) + rest)));
  }

  /** Behind a command that survives, the key survives on the same condition. */
  lemma RespKeyIff(args: seq<string>, rest: string)
    requires 1 < |args| <= MAX_U64 && NoCrlf(args[0])
    ensures RespArray(PutRespArray(args) + rest).1 == args[1] <==> NoCrlf(args[1])
  {
    KeyIsFifthLine(args, rest);
    FirstLine(args[1], PutElements(args[2..]) + rest);
  }

  /**
   An encoded array gives back its command and key exactly when neither holds a CRLF, whatever the
   other arguments hold and whatever follows.
   */
  lemma RespRoundTrip(args: seq<string>, rest: string)
    requires |args| <= MAX_U64
    ensures args == [] ==> RespArray(PutRespArray(args) + rest) == ("UNKNOWN", "")
    ensures args != [] ==>
              (RespArray(PutRespArray(args) + rest) == (args[0], if |args| > 1 then args[1] else "")
               <==> NoCrlf(args[0]) && (|args| > 1 ==> NoCrlf(args[1])))
  {
    HeaderLine(args, rest);
    if args != [] {
      RespCommandIff(args, rest);
      if |args| > 1 && NoCrlf(args[0]) {
        RespKeyIff(args, rest);
      }
    }
  }

  lemma CrlfFirst(rest: string)
    ensures Lines(CRLF + CRLF + rest)[0] == ""
  {
    LineEndAt(CRLF + CRLF + rest, 0);
  }

  /** A key that is lost: a key that is itself a CRLF comes back empty. */
  lemma RespKeyLost(command: string)
    requires NoCrlf(command)
    ensures RespArray(PutRespArray([command, CRLF])) == (command, "")
  {
    var args := [command, CRLF];
    var text := PutRespArray(args);
    assert text + "" == text;
    RespCommandIff(args, "");
    KeyIsFifthLine(args, "");
    CrlfFirst(PutElements(args[2..]) + "");
  }

  /** Text that does not begin with an asterisk is no array. */
  lemma NotAnArray(text: string)
    requires text == [] || text[0] != '*'
    ensures RespArray(text) == ("UNKNOWN", "")
  {
    var line := Lines(text)[0];
    assert line != [] ==> line[0] == text[0];
  }

  /** Nor is one whose count is more than 64 bits hold. */
  lemma CountTooLarge(n: nat, rest: string)
    requires n > 18446744073709551615
    ensures RespArray("*" + Print(n) + CRLF + rest) == ("UNKNOWN", "")
  {
    DigitsNoCrlf('*', n);
    LineThenRest("*" + Print(n), rest);
    PrintReads(n);
    assert ("*" + Print(n))[1..] == Print(n) && IsDigit(Print(n)[0]);
  }

  lemma ShortLines(n: nat, command: string)
    requires NoCrlf(command)
    ensures Lines("*" + Print(n) + CRLF + PutElement(command))
         == ["*" + Print(n)] + (["$" + Print(|command|)] + ([command] + [""]))
  {
    DigitsNoCrlf('*', n);
    LineThenRest("*" + Print(n), PutElement(command));
    assert PutElement(command) + "" == PutElement(command);
    ElementHeader(command, "");
    LineThenRest(command, "");
    assert Lines("") == [""];
  }

  /** An array that announces `n` elements but ends behind the first: its command is read, its key is empty. */
  lemma ShortArray(n: nat, command: string)
    requires 0 < n <= MAX_U64 && NoCrlf(command)
    ensures RespArray("*" + Print(n) + CRLF + PutElement(command)) == (command, "")
  {
    ShortLines(n, command);
    CountIs(n);
  }

  /** One that ends behind its count has neither. */
  lemma CountOnly(n: nat)
    requires 0 < n <= MAX_U64
    ensures RespArray("*" + Print(n)) == ("", "")
  {
    DigitsNoCrlf('*', n);
    LineThenRest("*" + Print(n), "");
    CountIs(n);
    assert Lines("*" + Print(n)) == ["*" + Print(n)];
  }

  // ---- PostgreSQL: ErrorResponse --------------------------------------------------------

  const FIELD_MESSAGE: byte := 77

  /** Position of the first NUL, or the length. */
  function NulAt(d: Bytes): (n: nat)
    ensures n <= |d|
    ensures forall i :: 0 <= i < n ==> d[i] != 0
    ensures n < |d| ==> d[n] == 0
  {
    if d == [] || d[0] == 0 then 0 else 1 + NulAt(d[1..])
  }

  /** `lossy` is the decoding applied to text; its result counts in bytes. */
  function ReadNullString(d: Bytes, lossy: Bytes -> Bytes): Bytes {
    lossy(d[..NulAt(d)])
  }

  /** The first message field, if the scan meets one. */
  function MessageField(d: Bytes, lossy: Bytes -> Bytes): Option<Bytes>
    decreases |d|
  {
    if |d| < 2 || d[0] == 0 then None
    else
      var value := ReadNullString(d[1..], lossy);
      if d[0] == FIELD_MESSAGE then Some(value)
      else if 2 + |value| > |d| then None
      else MessageField(d[2 + |value|..], lossy)
  }

  function PgError(payload: Bytes, lossy: Bytes -> Bytes): Bytes {
    if |payload| < 6 then []
    else match MessageField(payload[5..], lossy)
      case Some(message) => message
      case None => lossy(payload[5..])
  }

  method ParsePgErrorResponse(payload: Bytes, lossy: Bytes -> Bytes) returns (message: Bytes)
    ensures message == PgError(payload, lossy)
  {
    if |payload| < 6 {
      return [];
    }
    var data := payload[5..];
    var i := 0;
    assert data[0..] == data;
    while i < |data|
      invariant i <= |data| ==> MessageField(data, lossy) == MessageField(data[i..], lossy)
      invariant i > |data| ==> MessageField(data, lossy) == None
    {
      ghost var rest := data[i..];
      var fieldType := data[i];
      if fieldType == 0 {
        break;
      }
      i := i + 1;
      if i >= |data| {
        break;
      }
      assert rest[1..] == data[i..];
      var value := ReadNullString(data[i..], lossy);
      if fieldType == FIELD_MESSAGE {
        return value;
      }
      i := i + |value| + 1;
      assert i <= |data| ==> rest[2 + |value|..] == data[i..];
    }
    message := lossy(data);
  }

  datatype Field = Field(kind: byte, value: Bytes)

  /** Field types and texts that the wire format can carry: no NUL in either. */
  ghost predicate ValidField(f: Field) {
    f.kind != 0 && 0 !in f.value
  }

  ghost predicate ValidFields(fs: seq<Field>) {
    forall j :: 0 <= j < |fs| ==> ValidField(fs[j])
  }

  function PutField(f: Field): Bytes {
    [f.kind] + f.value + [0]
  }

  function PutFields(fs: seq<Field>): Bytes {
    if fs == [] then [] else PutField(fs[0]) + PutFields(fs[1..])
  }

  /** Decoding never shortens text: the replacement character is as long as the longest bad sequence it stands for. */
  ghost predicate NeverShortens(lossy: Bytes -> Bytes) {
    forall v :: |lossy(v)| >= |v|
  }

  /** What the scan does on a list of fields when it enters `skip` bytes in. */
  datatype Walked = Stopped | Reads(text: Bytes) | Leaves(skip: nat)

  /** The byte `skip` bytes into a field, short of its NUL. */
  function TagAt(f: Field, skip: nat): byte
    requires skip <= |f.value|
  {
    if skip == 0 then f.kind else f.value[skip - 1]
  }

  /** How many bytes decoding adds to the text from `skip` bytes in. */
  ghost function Overshoot(f: Field, skip: nat, lossy: Bytes -> Bytes): nat
    requires skip <= |f.value| && NeverShortens(lossy)
  {
    |lossy(f.value[skip..])| - |f.value[skip..]|
  }

  /**
   The scan, field by field. It stops at a NUL, returns the rest of a text at an 'M', and otherwise
   overshoots the next field by as many bytes as decoding added to the text it skipped.
   */
  ghost function Walk(fs: seq<Field>, skip: nat, lossy: Bytes -> Bytes): Walked
    requires NeverShortens(lossy)
    decreases |fs|
  {
    if fs == [] then Leaves(skip)
    else
      var f := fs[0];
      if skip >= |f.value| + 2 then Walk(fs[1..], skip - |f.value| - 2, lossy)
      else if skip == |f.value| + 1 then Stopped
      else
        if TagAt(f, skip) == FIELD_MESSAGE then Reads(lossy(f.value[skip..]))
        else Walk(fs[1..], Overshoot(f, skip, lossy), lossy)
  }

  /** Where the scan goes on from `skip` bytes into some data. */
  function ScanFrom(d: Bytes, skip: nat, lossy: Bytes -> Bytes): Option<Bytes> {
    if skip <= |d| then MessageField(d[skip..], lossy) else None
  }

  lemma NulEnds(text: Bytes, rest: Bytes)
    requires 0 !in text
    ensures NulAt(text + [0] + rest) == |text|
  {
    var d := text + [0] + rest;
    assert forall i :: 0 <= i < |text| ==> d[i] == text[i] && d[i] in text;
    assert d[|text|] == 0;
  }

  /** What one turn of the scan reads at a type byte whose text runs up to the next NUL, and where it goes on. */
  lemma TurnShape(tag: byte, text: Bytes, rest: Bytes, lossy: Bytes -> Bytes)
    requires 0 !in text && |lossy(text)| >= |text|
    ensures var d, over := [tag] + text + [0] + rest, |lossy(text)| - |text|;
            && |d| == 2 + |text| + |rest| && d[0] == tag && ReadNullString(d[1..], lossy) == lossy(text)
            && (over <= |rest| ==> d[2 + |lossy(text)|..] == rest[over..])
  {
    var d := [tag] + text + [0] + rest;
    assert d[1..] == text + [0] + rest;
    NulEnds(text, rest);
    assert d[1..][..|text|] == text;
  }

  /** One turn of the scan. */
  lemma ScanTurn(tag: byte, text: Bytes, rest: Bytes, lossy: Bytes -> Bytes)
    requires tag != 0 && 0 !in text && |lossy(text)| >= |text|
    ensures MessageField([tag] + text + [0] + rest, lossy)
         == if tag == FIELD_MESSAGE then Some(lossy(text)) else ScanFrom(rest, |lossy(text)| - |text|, lossy)
  {
    TurnShape(tag, text, rest, lossy);
  }

  /** Entering a field `skip` bytes in, short of its NUL, is a type byte and a text. */
  lemma EnterField(f: Field, skip: nat, rest: Bytes)
    requires skip <= |f.value|
    ensures (PutField(f) + rest)[skip..] == [TagAt(f, skip)] + f.value[skip..] + [0] + rest
  {
  }

  lemma PastField(f: Field, skip: nat, rest: Bytes)
    requires skip >= |f.value| + 1
    ensures skip >= |f.value| + 2 && skip <= |PutField(f) + rest| ==>
              (PutField(f) + rest)[skip..] == rest[skip - |f.value| - 2..]
    ensures skip == |f.value| + 1 ==> (PutField(f) + rest)[skip..] == [0] + rest
  {
  }

  function Result(w: Walked, rest: Bytes, lossy: Bytes -> Bytes): Option<Bytes> {
    match w
    case Stopped => None
    case Reads(text) => Some(text)
    case Leaves(over) => ScanFrom(rest, over, lossy)
  }

  lemma ScanField(f: Field, skip: nat, rest: Bytes, lossy: Bytes -> Bytes)
    requires ValidField(f) && NeverShortens(lossy) && skip <= |f.value|
    ensures ScanFrom(PutField(f) + rest, skip, lossy)
         == if TagAt(f, skip) == FIELD_MESSAGE then Some(lossy(f.value[skip..]))
            else ScanFrom(rest, Overshoot(f, skip, lossy), lossy)
  {
    EnterField(f, skip, rest);
    ScanTurn(TagAt(f, skip), f.value[skip..], rest, lossy);
  }

  lemma PutFieldsCons(fs: seq<Field>, rest: Bytes)
    requires fs != []
    ensures PutFields(fs) + rest == PutField(fs[0]) + (PutFields(fs[1..]) + rest)
    ensures |PutFields(fs)| == |fs[0].value| + 2 + |PutFields(fs[1..])|
  {
    ConcatAssociates(PutField(fs[0]), PutFields(fs[1..]), rest);
  }

  /** The scan of the bytes is the walk over the fields, then the scan of what follows them. */
  lemma {:induction false} ScanIsWalk(fs: seq<Field>, skip: nat, rest: Bytes, lossy: Bytes -> Bytes)
    requires ValidFields(fs) && NeverShortens(lossy)
    ensures ScanFrom(PutFields(fs) + rest, skip, lossy) == Result(Walk(fs, skip, lossy), rest, lossy)
    decreases |fs|
  {
    if fs == [] {
      assert PutFields(fs) + rest == rest;
    } else {
      var f, later := fs[0], PutFields(fs[1..]) + rest;
      assert ValidField(f);
      PutFieldsCons(fs, rest);
      if skip <= |f.value| {
        ScanField(f, skip, later, lossy);
        ScanIsWalk(fs[1..], Overshoot(f, skip, lossy), rest, lossy);
      } else {
        PastField(f, skip, later);
        if skip >= |f.value| + 2 {
          ScanIsWalk(fs[1..], skip - |f.value| - 2, rest, lossy);
        }
      }
    }
  }

  // Which positions the scan looks at.

  /** The scan of `d` comes to inspect the byte at `target` as a field type. */
  ghost predicate Inspects(d: Bytes, target: nat, lossy: Bytes -> Bytes)
    decreases |d|
  {
    target == 0 || (|d| >= 2 && d[0] != 0 && d[0] != FIELD_MESSAGE && InspectsBeyond(d, target, lossy))
  }

  ghost predicate InspectsBeyond(d: Bytes, target: nat, lossy: Bytes -> Bytes)
    requires |d| >= 2
    decreases |d|, 0
  {
    var next := 2 + |ReadNullString(d[1..], lossy)|;
    next <= |d| && next <= target && Inspects(d[next..], target - next, lossy)
  }

  /** As Inspects, from `skip` bytes in. */
  ghost predicate InspectsFrom(d: Bytes, skip: nat, target: nat, lossy: Bytes -> Bytes) {
    skip <= |d| && skip <= target && Inspects(d[skip..], target - skip, lossy)
  }

  lemma InspectsTurn(tag: byte, text: Bytes, rest: Bytes, lossy: Bytes -> Bytes, target: nat)
    requires tag != 0 && 0 !in text && |lossy(text)| >= |text| && target >= |text| + 2
    ensures Inspects([tag] + text + [0] + rest, target, lossy)
       <==> tag != FIELD_MESSAGE
            && InspectsFrom(rest, |lossy(text)| - |text|, target - |text| - 2, lossy)
  {
    TurnShape(tag, text, rest, lossy);
  }

  lemma InspectsField(f: Field, skip: nat, rest: Bytes, lossy: Bytes -> Bytes, target: nat)
    requires ValidField(f) && NeverShortens(lossy) && skip <= |f.value|
    ensures InspectsFrom(PutField(f) + rest, skip, |f.value| + 2 + target, lossy)
       <==> TagAt(f, skip) != FIELD_MESSAGE && InspectsFrom(rest, Overshoot(f, skip, lossy), target, lossy)
  {
    EnterField(f, skip, rest);
    InspectsTurn(TagAt(f, skip), f.value[skip..], rest, lossy, |f.value| - skip + 2 + target);
  }

  lemma InspectsPast(f: Field, skip: nat, rest: Bytes, lossy: Bytes -> Bytes, target: nat)
    requires skip >= |f.value| + 1
    ensures InspectsFrom(PutField(f) + rest, skip, |f.value| + 2 + target, lossy)
       <==> skip >= |f.value| + 2 && InspectsFrom(rest, skip - |f.value| - 2, target, lossy)
  {
    PastField(f, skip, rest);
  }

  /**
   Entered `skip` bytes in, the scan comes to the end of the fields exactly when the walk leaves them with
   nothing over.
   */
  lemma {:induction false} InspectsEndIff(fs: seq<Field>, skip: nat, rest: Bytes, lossy: Bytes -> Bytes)
    requires ValidFields(fs) && NeverShortens(lossy)
    ensures InspectsFrom(PutFields(fs) + rest, skip, |PutFields(fs)|, lossy) <==> Walk(fs, skip, lossy) == Leaves(0)
    decreases |fs|
  {
    if fs == [] {
      assert PutFields(fs) + rest == rest;
    } else {
      var f, later, n := fs[0], PutFields(fs[1..]) + rest, |PutFields(fs[1..])|;
      assert ValidField(f);
      PutFieldsCons(fs, rest);
      if skip <= |f.value| {
        InspectsField(f, skip, later, lossy, n);
        InspectsEndIff(fs[1..], Overshoot(f, skip, lossy), rest, lossy);
      } else {
        InspectsPast(f, skip, later, lossy, n);
        if skip >= |f.value| + 2 {
          InspectsEndIff(fs[1..], skip - |f.value| - 2, rest, lossy);
        }
      }
    }
  }

  /**
   The whole outcome for any fields and anything after them: the walk over the fields says whether a text
   is returned and which, or where the scan goes on behind them; without one everything is decoded.
   */
  lemma PgErrorOutcome(header: Bytes, fs: seq<Field>, rest: Bytes, lossy: Bytes -> Bytes)
    requires |header| == 5 && fs != [] && ValidFields(fs) && NeverShortens(lossy)
    ensures var data := PutFields(fs) + rest;
            PgError(header + data, lossy)
            == match Result(Walk(fs, 0, lossy), rest, lossy) case Some(text) => text case None => lossy(data)
  {
    PutFieldsCons(fs, rest);
    PgErrorIs(header, PutFields(fs) + rest, lossy);
    ScanIsWalk(fs, 0, rest, lossy);
  }

  /**
   A message field behind any others is inspected by the scan if and only if the overshoots of the fields before
   it, added up field by field, come out at nothing left over; and then its text is what is returned.
   */
  lemma PgErrorRoundTrip(header: Bytes, before: seq<Field>, message: Bytes, after: Bytes, lossy: Bytes -> Bytes)
    requires |header| == 5 && ValidFields(before) && NeverShortens(lossy) && 0 !in message
    ensures var data := PutFields(before) + (PutField(Field(FIELD_MESSAGE, message)) + after);
            && (InspectsFrom(data, 0, |PutFields(before)|, lossy) <==> Walk(before, 0, lossy) == Leaves(0))
            && (Walk(before, 0, lossy) == Leaves(0) ==> PgError(header + data, lossy) == lossy(message))
  {
    var f := Field(FIELD_MESSAGE, message);
    var rest := PutField(f) + after;
    var data := PutFields(before) + rest;
    InspectsEndIff(before, 0, rest, lossy);
    ScanIsWalk(before, 0, rest, lossy);
    ScanField(f, 0, after, lossy);
    assert message[0..] == message;
    PgErrorIs(header, data, lossy);
  }

  lemma PgErrorIs(header: Bytes, data: Bytes, lossy: Bytes -> Bytes)
    requires |header| == 5 && data != []
    ensures PgError(header + data, lossy)
         == match ScanFrom(data, 0, lossy) case Some(text) => text case None => lossy(data)
  {
    assert (header + data)[5..] == data && data[0..] == data;
  }

  /**
   A field that the scan passes over exactly: not a message, and text that decoding keeps at its length, as
   valid UTF-8 is.
   */
  ghost predicate Skippable(f: Field, lossy: Bytes -> Bytes) {
    f.kind != FIELD_MESSAGE && |lossy(f.value)| == |f.value|
  }

  /** In particular fields of valid text never get in the way. */
  lemma {:induction false} ValidTextIsSkipped(before: seq<Field>, lossy: Bytes -> Bytes)
    requires NeverShortens(lossy) && forall j :: 0 <= j < |before| ==> Skippable(before[j], lossy)
    ensures Walk(before, 0, lossy) == Leaves(0)
    decreases |before|
  {
    if before != [] {
      assert before[0].value[0..] == before[0].value;
      ValidTextIsSkipped(before[1..], lossy);
    }
  }

  /** A message too short for a field yields nothing. */
  lemma TooShortForField(payload: Bytes, lossy: Bytes -> Bytes)
    requires |payload| <= 5
    ensures PgError(payload, lossy) == []
  {
  }

  /** "M" alone marks the message: any other field ahead of it is passed over, whatever its letter. */
  lemma MessageIsM(header: Bytes, f: Field, text: Bytes, lossy: Bytes -> Bytes)
    requires |header| == 5 && NeverShortens(lossy) && ValidField(f) && 0 !in text && |lossy(f.value)| == |f.value|
    ensures PgError(header + PutFields([f, Field('M' as byte, text)]), lossy)
         == if f.kind == 'M' as byte then lossy(f.value) else lossy(text)
  {
    var fs := [f, Field('M' as byte, text)];
    assert f.value[0..] == f.value && text[0..] == text && fs[1..] == [fs[1]];
    assert PutFields(fs) + [] == PutFields(fs);
    assert Walk([fs[1]], 0, lossy) == Reads(lossy(text));
    PgErrorOutcome(header, fs, [], lossy);
  }

  /**
   One invalid byte, decoded to three: as the only field before the message it hides the message, and
   everything is returned; with a field between them the scan falls back into step at the next NUL.
   */
  lemma InvalidTextHidesMessage(header: Bytes, lossy: Bytes -> Bytes)
    requires |header| == 5 && NeverShortens(lossy)
    requires |lossy([0xff])| == 3 && |lossy([51, 52, 53])| == 3
    ensures var bad, message := Field(83, [0xff]), Field(FIELD_MESSAGE, [104]);
            var between := Field(67, [49, 50, 51, 52, 53]);
            && PgError(header + PutFields([bad, message]), lossy) == lossy(PutFields([bad, message]))
            && PgError(header + PutFields([bad, between, message]), lossy) == lossy([104])
  {
    var bad, message := Field(83, [0xff]), Field(FIELD_MESSAGE, [104]);
    var between := Field(67, [49, 50, 51, 52, 53]);
    assert bad.value[0..] == [0xff] && between.value[2..] == [51, 52, 53] && message.value[0..] == [104];
    var short, long := [bad, message], [bad, between, message];
    assert short[1..] == [message] && long[1..] == [between, message] && [between, message][1..] == [message];
    assert Walk([message], 2, lossy) == Stopped;
    assert Walk(short, 0, lossy) == Stopped;
    assert Walk([message], 0, lossy) == Reads(lossy([104]));
    assert Walk([between, message], 2, lossy) == Reads(lossy([104]));
    assert PutFields(short) + [] == PutFields(short) && PutFields(long) + [] == PutFields(long);
    PgErrorOutcome(header, short, [], lossy);
    PgErrorOutcome(header, long, [], lossy);
  }

  // ---- MySQL: length-encoded integers ------------------------------------------------------

  function ReadLe(d: Bytes): nat {
    if d == [] then 0 else d[0] as nat + 256 * ReadLe(d[1..])
  }

  function PutLe(v: nat, width: nat): (d: Bytes)
    ensures |d| == width
  {
    if width == 0 then [] else [(v % 256) as byte] + PutLe(v / 256, width - 1)
  }

  function Power256(k: nat): nat {
    if k == 0 then 1 else 256 * Power256(k - 1)
  }

  lemma {:induction false} PutLeReads(v: nat, width: nat)
    requires v < Power256(width)
    ensures ReadLe(PutLe(v, width)) == v
  {
    if width > 0 {
      PutLeReads(v / 256, width - 1);
      assert PutLe(v, width)[1..] == PutLe(v / 256, width - 1);
    }
  }

  /** Zero for truncated input and for the prefix 0xff; 0xfb, MySQL's NULL, reads as 251. */
  function ReadLenencInt(d: Bytes): nat {
    if d == [] then 0
    else if d[0] <= 0xfb then d[0] as nat
    else if d[0] == 0xfc then (if |d| < 3 then 0 else ReadLe(d[1..3]))
    else if d[0] == 0xfd then (if |d| < 4 then 0 else ReadLe(d[1..4]))
    else if d[0] == 0xfe then (if |d| < 9 then 0 else ReadLe(d[1..9]))
    else 0
  }

  /** The shortest encoding. */
  function PutLenencInt(v: nat): Bytes
    requires v <= MAX_U64
  {
    if v < 251 then [v as byte]
    else if v < 0x1_0000 then [0xfc] + PutLe(v, 2)
    else if v < 0x100_0000 then [0xfd] + PutLe(v, 3)
    else [0xfe] + PutLe(v, 8)
  }

  lemma WidePutReads(prefix: byte, v: nat, width: nat, rest: Bytes)
    requires v < Power256(width)
    ensures var d := [prefix] + PutLe(v, width) + rest; |d| >= 1 + width && ReadLe(d[1..1 + width]) == v
  {
    var d := [prefix] + PutLe(v, width) + rest;
    assert d[1..1 + width] == PutLe(v, width);
    PutLeReads(v, width);
  }

  /** Every 64-bit value survives encoding and decoding, whatever follows it. */
  lemma LenencRoundTrip(v: nat, rest: Bytes)
    requires v <= MAX_U64
    ensures ReadLenencInt(PutLenencInt(v) + rest) == v
  {
    assert Power256(2) == 0x1_0000 && Power256(3) == 0x100_0000;
    assert Power256(8) == 0x1_0000_0000_0000_0000 by {
      assert Power256(4) == 0x1_0000_0000 && Power256(6) == 0x1_0000_0000_0000;
    }
    if v < 251 {
    } else if v < 0x1_0000 {
      WidePutReads(0xfc, v, 2, rest);
    } else if v < 0x100_0000 {
      WidePutReads(0xfd, v, 3, rest);
    } else {
      WidePutReads(0xfe, v, 8, rest);
    }
  }

  /** The bytes themselves: low byte first behind a prefix that says how many there are. */
  lemma LenencBytes(a: byte, b: byte, c: byte, rest: Bytes)
    ensures a <= 251 ==> ReadLenencInt([a] + rest) == a as nat
    ensures ReadLenencInt([252, a, b] + rest) == a as nat + 256 * b as nat
    ensures ReadLenencInt([253, a, b, c] + rest) == a as nat + 256 * b as nat + 0x1_0000 * c as nat
    ensures ReadLenencInt([255] + rest) == 0
  {
    assert ([252, a, b] + rest)[1..3] == [a, b] && ([253, a, b, c] + rest)[1..4] == [a, b, c];
    ReadTwo(a, b);
    assert [a, b, c][1..] == [b, c];
    ReadTwo(b, c);
  }

  lemma ReadTwo(a: byte, b: byte)
    ensures ReadLe([a, b]) == a as nat + 256 * b as nat
  {
    assert [a, b][1..] == [b] && [b][1..] == [];
    assert ReadLe([b]) == b as nat;
  }

  /** The widest form has eight bytes: a low word and a high one. */
  lemma LenencWide(low: Bytes, high: Bytes, rest: Bytes)
    requires |low| == 4 && |high| == 4
    ensures ReadLenencInt([254] + (low + high) + rest) == ReadLe(low) + 0x1_0000_0000 * ReadLe(high)
  {
    assert ([254] + (low + high) + rest)[1..9] == low + high;
    ReadConcat(low, high);
    assert Power256(4) == 0x1_0000_0000;
  }

  lemma {:induction false} ReadConcat(low: Bytes, high: Bytes)
    ensures ReadLe(low + high) == ReadLe(low) + Power256(|low|) * ReadLe(high)
  {
    if low == [] {
      assert low + high == high;
    } else {
      ReadConcat(low[1..], high);
      assert (low + high)[1..] == low[1..] + high;
      ScaleUp(low[0] as nat, ReadLe(low[1..]), Power256(|low| - 1), ReadLe(high));
    }
  }

  lemma ScaleUp(a: int, x: int, p: int, h: int)
    ensures a + 256 * (x + p * h) == (a + 256 * x) + 256 * p * h
  {
  }

  /** Input that ends too early reads as zero. */
  lemma LenencTruncated(d: Bytes)
    requires d == [] || (d[0] == 252 && |d| < 3) || (d[0] == 253 && |d| < 4) || (d[0] == 254 && |d| < 9)
    ensures ReadLenencInt(d) == 0
  {
  }
}
