/** Decimal printing, and the two integer readers that meet it: Rust's and Python's. */
module Decimal {
  import opened Basics

  predicate IsDigit(c: char) {
    '0' <= c <= '9'
  }

  function DigitOf(c: char): nat
    requires IsDigit(c)
  {
    c as int - '0' as int
  }

  function CharOf(d: nat): (c: char)
    requires d < 10
    ensures IsDigit(c) && DigitOf(c) == d
  {
    '0' + d as char
  }

  predicate AllDigits(s: string) {
    forall i :: 0 <= i < |s| ==> IsDigit(s[i])
  }

  function Print(n: nat): (s: string) {
    if n < 10 then [CharOf(n)] else Print(n / 10) + [CharOf(n % 10)]
  }

  function Value(s: string): nat
    requires AllDigits(s)
  {
    if s == [] then 0 else Value(s[..|s| - 1]) * 10 + DigitOf(s[|s| - 1])
  }

  lemma {:induction false} PrintReads(n: nat)
    ensures |Print(n)| >= 1 && AllDigits(Print(n)) && Value(Print(n)) == n
  {
    if n < 10 {
      assert Print(n)[..0] == [];
    } else {
      PrintReads(n / 10);
      assert Print(n)[..|Print(n)| - 1] == Print(n / 10);
    }
  }

  // ---- Rust: str::parse::<usize> ---------------------------------------------------

  /** Digits after an optional '+', no larger than `max`. */
  function ParseUnsigned(s: string, max: nat): Option<nat> {
    var t := if s != [] && s[0] == '+' then s[1..] else s;
    if t == [] || !AllDigits(t) || Value(t) > max then None else Some(Value(t))
  }

  lemma ParseUnsignedReads(n: nat, max: nat)
    requires n <= max
    ensures ParseUnsigned(Print(n), max) == Some(n)
  {
    PrintReads(n);
    assert IsDigit(Print(n)[0]);
  }

  // ---- Python: int(str) --------------------------------------------------------------

  function PrintInt(n: int): string {
    if n < 0 then "-" + Print(0 - n) else Print(n)
  }

  /** The ASCII white space that Python's reader skips: the blank and the characters 9 to 13. */
  predicate IsSpace(c: char) {
    c == ' ' || 9 <= c as int <= 13
  }

  function TrimStart(s: string): string {
    if s != [] && IsSpace(s[0]) then TrimStart(s[1..]) else s
  }

  function TrimEnd(s: string): string {
    if s != [] && IsSpace(s[|s| - 1]) then TrimEnd(s[..|s| - 1]) else s
  }

  /** Digits with single underscores allowed between them. */
  predicate Grouped(s: string) {
    && s != []
    && IsDigit(s[0]) && IsDigit(s[|s| - 1])
    && (forall i :: 0 <= i < |s| ==> IsDigit(s[i]) || s[i] == '_')
    && (forall i, j :: 0 <= i < j == i + 1 < |s| ==> IsDigit(s[i]) || IsDigit(s[j]))
  }

  function DropUnderscores(s: string): string {
    if s == [] then []
    else if s[0] == '_' then DropUnderscores(s[1..])
    else [s[0]] + DropUnderscores(s[1..])
  }

  lemma {:induction false} DropUnderscoresDigits(s: string)
    requires forall i :: 0 <= i < |s| ==> IsDigit(s[i]) || s[i] == '_'
    ensures AllDigits(DropUnderscores(s))
    ensures AllDigits(s) ==> DropUnderscores(s) == s
  {
    if s != [] {
      DropUnderscoresDigits(s[1..]);
    }
  }

  function ParseGrouped(s: string): Option<nat> {
    if !Grouped(s) then None
    else
      DropUnderscoresDigits(s);
      Some(Value(DropUnderscores(s)))
  }

  function ParseSigned(t: string): Option<int> {
    if t != [] && (t[0] == '-' || t[0] == '+') then
      match ParseGrouped(t[1..])
      case Some(v) => Some(if t[0] == '-' then 0 - v else v)
      case None => None
    else
      match ParseGrouped(t)
      case Some(v) => Some(v)
      case None => None
  }

  function ParseInt(s: string): Option<int> {
    ParseSigned(TrimEnd(TrimStart(s)))
  }

  lemma ParseGroupedReads(n: nat)
    ensures ParseGrouped(Print(n)) == Some(n)
  {
    PrintReads(n);
    DropUnderscoresDigits(Print(n));
  }

  lemma ParseSignedReads(n: int)
    ensures ParseSigned(PrintInt(n)) == Some(n)
  {
    var m := if n < 0 then 0 - n else n;
    PrintReads(m);
    ParseGroupedReads(m);
    assert n < 0 ==> PrintInt(n)[1..] == Print(m);
    assert IsDigit(Print(m)[0]);
  }

  lemma NothingToTrim(s: string)
    requires s != [] && !IsSpace(s[0]) && !IsSpace(s[|s| - 1])
    ensures TrimEnd(TrimStart(s)) == s
  {
  }

  /** Python's reader undoes the printer on every integer. */
  lemma ParseIntReads(n: int)
    ensures ParseInt(PrintInt(n)) == Some(n)
  {
    var m := if n < 0 then 0 - n else n;
    PrintReads(m);
    assert IsDigit(Print(m)[0]) && IsDigit(Print(m)[|Print(m)| - 1]);
    NothingToTrim(PrintInt(n));
    ParseSignedReads(n);
  }

  // ---- Examples, character by character -------------------------------------------------

  /** One more digit behind is ten times as much and the digit more. */
  lemma PrintDigit(n: nat, d: nat)
    requires n >= 1 && d < 10
    ensures Print(10 * n + d) == Print(n) + ["0123456789"[d]]
  {
    assert (10 * n + d) / 10 == n && (10 * n + d) % 10 == d;
    assert CharOf(d) == "0123456789"[d];
  }

  lemma PrintExample()
    ensures PrintInt(-120) == "-120" && PrintInt(7) == "7" && PrintInt(0) == "0"
  {
    PrintDigit(1, 2);
    PrintDigit(12, 0);
    assert Print(1) == "1" && Print(12) == "12" && Print(120) == "120";
  }

  /** A sign and white space around are read over, and single underscores between digits. */
  lemma PaddedReads(n: nat, front: string, back: string)
    requires forall i :: 0 <= i < |front| ==> front[i] in " \t\n\r"
    requires forall i :: 0 <= i < |back| ==> back[i] in " \t\n\r"
    ensures ParseInt(front + ("+" + Print(n)) + back) == Some(n)
    ensures ParseInt(front + ("-" + Print(n)) + back) == Some(0 - n)
  {
    PrintReads(n);
    assert IsDigit(Print(n)[|Print(n)| - 1]);
    Unpadded(front, "+" + Print(n), back);
    Unpadded(front, "-" + Print(n), back);
    SignedReads(n);
  }

  lemma SignedReads(n: nat)
    ensures ParseSigned("+" + Print(n)) == Some(n) && ParseSigned("-" + Print(n)) == Some(0 - n)
  {
    ParseGroupedReads(n);
    assert ("+" + Print(n))[1..] == Print(n) && ("-" + Print(n))[1..] == Print(n);
  }

  lemma Unpadded(front: string, s: string, back: string)
    requires forall i :: 0 <= i < |front| ==> IsSpace(front[i])
    requires forall i :: 0 <= i < |back| ==> IsSpace(back[i])
    requires s != [] && !IsSpace(s[0]) && !IsSpace(s[|s| - 1])
    ensures TrimEnd(TrimStart(front + s + back)) == s
  {
    assert front + s + back == front + (s + back);
    TrimFront(front, s + back);
    TrimBack(s, back);
  }

  lemma {:induction false} TrimFront(pad: string, s: string)
    requires (forall i :: 0 <= i < |pad| ==> IsSpace(pad[i])) && s != [] && !IsSpace(s[0])
    ensures TrimStart(pad + s) == s
  {
    if pad == [] {
      assert pad + s == s;
    } else {
      TrimFront(pad[1..], s);
      assert (pad + s)[1..] == pad[1..] + s;
    }
  }

  lemma {:induction false} TrimBack(s: string, pad: string)
    requires (forall i :: 0 <= i < |pad| ==> IsSpace(pad[i])) && s != [] && !IsSpace(s[|s| - 1])
    ensures TrimEnd(s + pad) == s
  {
    if pad == [] {
      assert s + pad == s;
    } else {
      TrimBack(s, pad[..|pad| - 1]);
      assert (s + pad)[..|s + pad| - 1] == s + pad[..|pad| - 1];
    }
  }

  /** Any other character in front makes it no number. */
  lemma OthersRefuse(c: char, n: nat)
    requires !IsDigit(c) && c !in "+- \t\n\r" && c as int != 11 && c as int != 12
    ensures ParseInt([c] + Print(n)) == None
  {
    PrintReads(n);
    var s := [c] + Print(n);
    assert IsDigit(Print(n)[|Print(n)| - 1]) && s[|s| - 1] == Print(n)[|Print(n)| - 1];
    NothingToTrim(s);
  }

  lemma DropMiddle(a: char, b: char)
    requires a != '_' && b != '_'
    ensures DropUnderscores([a, '_', b]) == [a, b]
  {
    var s := [a, '_', b];
    assert s[1..] == ['_', b] && ['_', b][1..] == [b] && [b][1..] == [];
    assert DropUnderscores([b]) == [b] + [] && DropUnderscores(['_', b]) == DropUnderscores([b]);
    assert [a] + [b] == [a, b];
  }

  lemma ValueOfTwo(a: char, b: char)
    requires IsDigit(a) && IsDigit(b)
    ensures AllDigits([a, b]) && Value([a, b]) == 10 * DigitOf(a) + DigitOf(b)
  {
    assert [a, b][..1] == [a] && [a][..0] == [];
    assert Value([a]) == DigitOf(a);
  }

  /** Underscores only count between two digits, and only one at a time. */
  lemma UnderscoresRead(a: char, b: char)
    requires IsDigit(a) && IsDigit(b)
    ensures ParseGrouped([a, '_', b]) == Some(10 * DigitOf(a) + DigitOf(b))
    ensures ParseGrouped([a, '_', '_', b]) == None && ParseGrouped([a, '_']) == None && ParseGrouped([]) == None
  {
    DropMiddle(a, b);
    ValueOfTwo(a, b);
    NotGrouped(a, b);
  }

  lemma NotGrouped(a: char, b: char)
    ensures !Grouped([a, '_', '_', b]) && !Grouped([a, '_']) && !Grouped([])
  {
    assert !IsDigit([a, '_', '_', b][1]) && !IsDigit([a, '_', '_', b][2]);
    assert !IsDigit([a, '_'][1]);
  }
}
