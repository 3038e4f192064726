/** Filesystem-safe name components. */
module FileNames {
  import opened Basics

  const MAX_COMPONENT_LEN: nat := 100

  predicate Allowed(c: char) {
    'A' <= c <= 'Z' || 'a' <= c <= 'z' || '0' <= c <= '9' || c in "._-"
  }

  predicate DotOrUnderscore(c: char) {
    c in "._"
  }

  /** Length of the run of disallowed characters at the front. */
  function Run(s: string): (n: nat)
    ensures n <= |s|
  {
    if s == [] || Allowed(s[0]) then 0 else 1 + Run(s[1..])
  }

  /** Every run of disallowed characters becomes one underscore. */
  function Collapse(s: string): string
    decreases |s|
  {
    if s == [] then []
    else if Allowed(s[0]) then [s[0]] + Collapse(s[1..])
    else "_" + Collapse(s[Run(s)..])
  }

  function TrimStart(s: string): string {
    if s != [] && DotOrUnderscore(s[0]) then TrimStart(s[1..]) else s
  }

  function TrimEnd(s: string): string {
    if s != [] && DotOrUnderscore(s[|s| - 1]) then TrimEnd(s[..|s| - 1]) else s
  }

  predicate DotsAt(s: string, i: int) {
    0 <= i < |s| - 1 && s[i] == '.' && s[i + 1] == '.'
  }

  predicate HasDots(s: string) {
    exists i :: 0 <= i < |s| && DotsAt(s, i)
  }

  lemma PrefixHasNoNewDots(s: string, t: string)
    requires t <= s
    ensures HasDots(t) ==> HasDots(s)
  {
    assert forall i :: DotsAt(t, i) ==> DotsAt(s, i);
  }

  /** One left-to-right replacement pass of ".." by "_". */
  function ReplaceDots(s: string): (r: string)
    ensures |r| <= |s|
    decreases |s|
  {
    if |s| < 2 then s
    else if s[0] == '.' && s[1] == '.' then "_" + ReplaceDots(s[2..])
    else [s[0]] + ReplaceDots(s[1..])
  }

  lemma {:induction false} ReplaceShrinks(s: string)
    requires HasDots(s)
    ensures |ReplaceDots(s)| < |s|
    decreases |s|
  {
    if !(s[0] == '.' && s[1] == '.') {
      var i :| 0 <= i < |s| && DotsAt(s, i);
      assert DotsAt(s[1..], i - 1);
      ReplaceShrinks(s[1..]);
    }
  }

  function RemoveDots(s: string): string
    decreases |s|
  {
    if HasDots(s) then
      ReplaceShrinks(s);
      RemoveDots(ReplaceDots(s))
    else s
  }

  /** The component before it is cut to length. */
  function Uncut(raw: string): string {
    var cleaned := RemoveDots(TrimEnd(TrimStart(Collapse(raw))));
    if cleaned == [] then "unnamed" else cleaned
  }

  function Sanitize(raw: string): string {
    Take(Uncut(raw), MAX_COMPONENT_LEN)
  }

  method SanitizeFilenameComponent(raw: string) returns (component: string)
    ensures component == Sanitize(raw)
  {
    var cleaned := TrimEnd(TrimStart(Collapse(raw)));
    while HasDots(cleaned)
      invariant RemoveDots(cleaned) == RemoveDots(TrimEnd(TrimStart(Collapse(raw))))
      decreases |cleaned|
    {
      ReplaceShrinks(cleaned);
      cleaned := ReplaceDots(cleaned);
    }
    if cleaned == [] {
      cleaned := "unnamed";
    }
    component := Take(cleaned, MAX_COMPONENT_LEN);
  }

  // ---- Guarantees ------------------------------------------------------------------------

  ghost predicate AllAllowed(s: string) {
    forall i :: 0 <= i < |s| ==> Allowed(s[i])
  }

  lemma {:induction false} CollapseAllowed(s: string)
    ensures AllAllowed(Collapse(s))
    ensures AllAllowed(s) ==> Collapse(s) == s
    decreases |s|
  {
    if s != [] {
      if Allowed(s[0]) {
        CollapseAllowed(s[1..]);
      } else {
        CollapseAllowed(s[Run(s)..]);
      }
    }
  }

  lemma {:induction false} TrimStartSpec(s: string)
    requires AllAllowed(s)
    ensures AllAllowed(TrimStart(s))
    ensures TrimStart(s) != [] ==> !DotOrUnderscore(TrimStart(s)[0])
  {
    if s != [] && DotOrUnderscore(s[0]) {
      TrimStartSpec(s[1..]);
    }
  }

  lemma {:induction false} TrimEndSpec(s: string)
    requires AllAllowed(s)
    ensures AllAllowed(TrimEnd(s)) && TrimEnd(s) <= s
    ensures TrimEnd(s) != [] ==> !DotOrUnderscore(TrimEnd(s)[|TrimEnd(s)| - 1])
    ensures TrimEnd(s) == [] ==> forall i :: 0 <= i < |s| ==> DotOrUnderscore(s[i])
  {
    if s != [] && DotOrUnderscore(s[|s| - 1]) {
      TrimEndSpec(s[..|s| - 1]);
    }
  }

  lemma {:induction false} ReplaceSpec(s: string)
    requires AllAllowed(s)
    ensures AllAllowed(ReplaceDots(s))
    ensures s != [] ==> ReplaceDots(s) != []
    decreases |s|
  {
    if |s| >= 2 {
      if s[0] == '.' && s[1] == '.' {
        ReplaceSpec(s[2..]);
      } else {
        ReplaceSpec(s[1..]);
      }
    }
  }

  lemma {:induction false} RemoveSpec(s: string)
    requires AllAllowed(s)
    ensures AllAllowed(RemoveDots(s)) && !HasDots(RemoveDots(s))
    ensures RemoveDots(s) == [] <==> s == []
    decreases |s|
  {
    if HasDots(s) {
      ReplaceShrinks(s);
      ReplaceSpec(s);
      RemoveSpec(ReplaceDots(s));
    }
  }

  /** Neither the first nor the last character is a dot or an underscore. */
  ghost predicate Trimmed(s: string) {
    s != [] ==> !DotOrUnderscore(s[0]) && !DotOrUnderscore(s[|s| - 1])
  }

  lemma {:induction false} ReplaceKeepsLast(s: string)
    requires s != [] && s[|s| - 1] != '.'
    ensures ReplaceDots(s) != [] && ReplaceDots(s)[|ReplaceDots(s)| - 1] == s[|s| - 1]
    decreases |s|
  {
    if |s| >= 2 {
      if s[0] == '.' && s[1] == '.' {
        ReplaceKeepsLast(s[2..]);
      } else {
        ReplaceKeepsLast(s[1..]);
      }
    }
  }

  lemma {:induction false} RemoveKeepsTrimmed(s: string)
    requires Trimmed(s)
    ensures Trimmed(RemoveDots(s))
    decreases |s|
  {
    if HasDots(s) {
      ReplaceShrinks(s);
      ReplaceKeepsLast(s);
      RemoveKeepsTrimmed(ReplaceDots(s));
    }
  }

  /** A component that can only name a visible file in its own directory. */
  ghost predicate Safe(s: string) {
    && 0 < |s| <= MAX_COMPONENT_LEN
    && AllAllowed(s) && !HasDots(s) && !DotOrUnderscore(s[0])
  }

  lemma PrefixSafe(s: string, n: nat)
    requires AllAllowed(s) && !HasDots(s) && s != [] && !DotOrUnderscore(s[0]) && 0 < n <= MAX_COMPONENT_LEN
    ensures Safe(Take(s, n))
  {
    PrefixHasNoNewDots(s, Take(s, n));
  }

  lemma TrimSpec(s: string)
    requires AllAllowed(s)
    ensures AllAllowed(TrimEnd(TrimStart(s))) && Trimmed(TrimEnd(TrimStart(s)))
  {
    TrimStartSpec(s);
    TrimEndSpec(TrimStart(s));
  }

  lemma UncutSpec(raw: string)
    ensures Uncut(raw) != [] && AllAllowed(Uncut(raw)) && !HasDots(Uncut(raw)) && Trimmed(Uncut(raw))
  {
    var trimmed := TrimEnd(TrimStart(Collapse(raw)));
    CollapseAllowed(raw);
    TrimSpec(Collapse(raw));
    RemoveSpec(trimmed);
    RemoveKeepsTrimmed(trimmed);
  }

  /** Whatever the input, the component is non-empty, bounded, in the alphabet, free of ".." and not hidden. */
  lemma SanitizedIsSafe(raw: string)
    ensures Safe(Sanitize(raw))
  {
    UncutSpec(raw);
    PrefixSafe(Uncut(raw), MAX_COMPONENT_LEN);
  }

  /** Sanitising a safe component changes it exactly when it ends in a dot or an underscore. */
  lemma SanitizeFixedIff(s: string)
    requires Safe(s)
    ensures Sanitize(s) == s <==> !DotOrUnderscore(s[|s| - 1])
  {
    CollapseAllowed(s);
    TrimEndSpec(s);
    assert TrimStart(s) == s;
    var t := TrimEnd(s);
    assert t != [];
    PrefixHasNoNewDots(s, t);
  }

  /**
   So sanitising twice is sanitising once, except where the name is too long and the cut falls just behind a dot
   or an underscore.
   */
  lemma SanitizeIdempotentIff(raw: string)
    ensures Sanitize(Sanitize(raw)) == Sanitize(raw)
       <==> !(|Uncut(raw)| > MAX_COMPONENT_LEN && DotOrUnderscore(Uncut(raw)[MAX_COMPONENT_LEN - 1]))
  {
    UncutSpec(raw);
    SanitizedIsSafe(raw);
    SanitizeFixedIff(Sanitize(raw));
  }

  /** A safe name not ending in a dot or an underscore is its own uncut form, however long. */
  lemma UncutFixed(s: string)
    requires s != [] && AllAllowed(s) && !HasDots(s) && Trimmed(s)
    ensures Uncut(s) == s
  {
    CollapseAllowed(s);
    assert TrimStart(s) == s && TrimEnd(s) == s;
  }

  lemma UndottedFixed(s: string)
    requires 0 < |s| <= MAX_COMPONENT_LEN && AllAllowed(s) && '.' !in s && s[0] != '_' && s[|s| - 1] != '_'
    ensures Sanitize(s) == s
  {
    UncutFixed(s);
  }

  /** Such a name: 99 letters, an underscore and one more letter. */
  lemma CutBehindUnderscore()
    ensures var raw := seq(99, _ => 'a') + "_b";
            && Sanitize(raw) == seq(99, _ => 'a') + "_"
            && Sanitize(Sanitize(raw)) != Sanitize(raw)
  {
    var raw := seq(99, _ => 'a') + "_b";
    assert forall i :: 0 <= i < |raw| ==> Allowed(raw[i]) && raw[i] != '.';
    UncutFixed(raw);
    SanitizeIdempotentIff(raw);
  }

  // ---- What becomes of a name -------------------------------------------------------------

  /** A word keeps as it is: allowed characters, no two dots in a row, no dot or underscore at either end. */
  ghost predicate Word(s: string) {
    s != [] && AllAllowed(s) && !HasDots(s) && Trimmed(s)
  }

  lemma WordKept(s: string)
    requires Word(s) && |s| <= 100
    ensures Sanitize(s) == s
  {
    UncutFixed(s);
  }

  ghost predicate NoneAllowed(s: string) {
    forall i :: 0 <= i < |s| ==> !Allowed(s[i])
  }

  lemma {:induction false} RunIs(bad: string, rest: string)
    requires NoneAllowed(bad) && (rest != [] ==> Allowed(rest[0]))
    ensures Run(bad + rest) == |bad|
  {
    if bad == [] {
      assert bad + rest == rest;
    } else {
      RunIs(bad[1..], rest);
      assert (bad + rest)[1..] == bad[1..] + rest;
    }
  }

  lemma {:induction false} CollapseConcat(word: string, rest: string)
    requires AllAllowed(word)
    ensures Collapse(word + rest) == word + Collapse(rest)
  {
    if word == [] {
      assert word + rest == rest;
    } else {
      CollapseConcat(word[1..], rest);
      assert (word + rest)[1..] == word[1..] + rest;
    }
  }

  /** A run of disallowed characters collapses to one underscore. */
  lemma CollapseRun(bad: string, rest: string)
    requires bad != [] && NoneAllowed(bad) && (rest != [] ==> Allowed(rest[0]))
    ensures Collapse(bad + rest) == "_" + Collapse(rest)
  {
    RunIs(bad, rest);
    assert (bad + rest)[|bad|..] == rest;
  }

  lemma Joined(a: string, b: string)
    requires Word(a) && Word(b)
    ensures Word(a + "_" + b)
  {
    var s := a + "_" + b;
    forall i | 0 <= i < |s|
      ensures !DotsAt(s, i)
    {
      if i < |a| {
        assert !DotsAt(a, i);
      } else if i > |a| {
        assert !DotsAt(b, i - |a| - 1);
      }
    }
  }

  /**
   Two words with any disallowed characters between them come out with one underscore there, cut to 100
   characters.
   */
  lemma RunBecomesUnderscore(a: string, bad: string, b: string)
    requires Word(a) && Word(b) && bad != [] && NoneAllowed(bad)
    ensures Sanitize(a + bad + b) == Take(a + "_" + b, 100)
  {
    assert a + bad + b == a + (bad + b);
    CollapseConcat(a, bad + b);
    CollapseRun(bad, b);
    CollapseAllowed(b);
    assert a + ("_" + b) == a + "_" + b;
    Joined(a, b);
    KeptAfterCollapse(a + bad + b, a + "_" + b);
  }

  lemma KeptAfterCollapse(raw: string, word: string)
    requires Collapse(raw) == word && Word(word)
    ensures Uncut(raw) == word
  {
    assert TrimStart(word) == word && TrimEnd(word) == word;
  }

  lemma {:induction false} TrimEndAway(word: string, pad: string)
    requires (forall i :: 0 <= i < |pad| ==> DotOrUnderscore(pad[i])) && Word(word)
    ensures TrimEnd(word + pad) == word
  {
    if pad == [] {
      assert word + pad == word;
    } else {
      var n := |pad| - 1;
      TrimEndAway(word, pad[..n]);
      assert (word + pad)[..|word + pad| - 1] == word + pad[..n];
    }
  }

  /** Dots and underscores around a word go. */
  lemma PaddingGoes(front: string, word: string, back: string)
    requires Word(word)
    requires forall i :: 0 <= i < |front| ==> front[i] == '.' || front[i] == '_'
    requires forall i :: 0 <= i < |back| ==> back[i] == '.' || back[i] == '_'
    ensures Sanitize(front + word + back) == Take(word, 100)
  {
    var raw := front + word + back;
    CollapseAllowed(raw);
    assert raw == front + (word + back);
    TrimStartThenWord(front, word, back);
    TrimEndAway(word, back);
  }

  lemma {:induction false} TrimStartThenWord(pad: string, word: string, rest: string)
    requires (forall i :: 0 <= i < |pad| ==> DotOrUnderscore(pad[i])) && Word(word)
    ensures TrimStart(pad + (word + rest)) == word + rest
  {
    if pad == [] {
      assert pad + (word + rest) == word + rest;
    } else {
      TrimStartThenWord(pad[1..], word, rest);
      assert (pad + (word + rest))[1..] == pad[1..] + (word + rest);
    }
  }

  lemma {:induction false} TrimStartAll(pad: string)
    requires forall i :: 0 <= i < |pad| ==> DotOrUnderscore(pad[i])
    ensures TrimStart(pad) == []
  {
    if pad != [] {
      TrimStartAll(pad[1..]);
    }
  }

  /** Nothing but dots and underscores, or nothing at all, is called "unnamed". */
  lemma NothingIsUnnamed(pad: string)
    requires forall i :: 0 <= i < |pad| ==> pad[i] == '.' || pad[i] == '_'
    ensures Sanitize(pad) == "unnamed"
  {
    CollapseAllowed(pad);
    TrimStartAll(pad);
  }

  lemma ReplaceStep(c: char, s: string)
    requires c != '.' || s == [] || s[0] != '.'
    ensures ReplaceDots([c] + s) == [c] + ReplaceDots(s)
  {
    assert ([c] + s)[1..] == s;
  }

  lemma ReplaceTwo(s: string)
    ensures ReplaceDots(".." + s) == "_" + ReplaceDots(s)
  {
    assert (".." + s)[2..] == s;
  }

  /** One pass replaces the only two dots in a row. */
  lemma {:induction false} ReplaceOnce(a: string, b: string)
    requires !HasDots(a) && (a != [] ==> a[|a| - 1] != '.') && !HasDots(b)
    ensures ReplaceDots(a + (".." + b)) == a + ("_" + b)
  {
    if a == [] {
      ReplaceTwo(b);
      NoDotsKept(b);
      assert a + (".." + b) == ".." + b && a + ("_" + b) == "_" + b;
    } else {
      var tail := a[1..];
      assert !DotsAt(a, 0);
      assert forall i :: DotsAt(tail, i) ==> DotsAt(a, i + 1);
      ReplaceOnce(tail, b);
      ReplaceStep(a[0], tail + (".." + b));
      assert [a[0]] + (tail + (".." + b)) == a + (".." + b);
      assert [a[0]] + (tail + ("_" + b)) == a + ("_" + b);
    }
  }

  lemma {:induction false} NoDotsKept(s: string)
    requires !HasDots(s)
    ensures ReplaceDots(s) == s
    decreases |s|
  {
    if |s| >= 2 {
      assert !DotsAt(s, 0);
      assert forall i :: DotsAt(s[1..], i) ==> DotsAt(s, i + 1);
      NoDotsKept(s[1..]);
    }
  }

  lemma RemovedAtOnce(s: string, word: string)
    requires HasDots(s) && ReplaceDots(s) == word && Word(word)
    ensures RemoveDots(s) == word
  {
    ReplaceShrinks(s);
  }

  /** Two dots between two words become one underscore. */
  lemma DotsBecomeUnderscore(a: string, b: string)
    requires Word(a) && Word(b)
    ensures Sanitize(a + (".." + b)) == Take(a + "_" + b, 100)
  {
    var s := a + (".." + b);
    CollapseAllowed(s);
    assert TrimStart(s) == s && TrimEnd(s) == s;
    assert DotsAt(s, |a|);
    ReplaceOnce(a, b);
    Joined(a, b);
    assert a + ("_" + b) == a + "_" + b;
    RemovedAtOnce(s, a + "_" + b);
  }

  /** The characters that are kept, one by one. */
  lemma AllowedIs(c: char)
    ensures Allowed(c) <==> 'A' <= c <= 'Z' || 'a' <= c <= 'z' || '0' <= c <= '9' || c == '.' || c == '_' || c == '-'
  {
  }
}
