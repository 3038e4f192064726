/**
 The versioned model store: a directory of artifacts where a save first moves the current
 file to a backup with the next version number. No save ever destroys an artifact, whatever
 other files the directory holds.
 */
module ModelStore {
  import opened Basics
  import opened Decimal
  import opened FileNames

  /** Artifacts are opaque: named by a number. */
  type Artifact = nat
  type Directory = map<string, Artifact>

  const EXTENSION: string := ".joblib"
  const MARK: string := "_v"

  function Base(model: string, metric: string): string {
    Sanitize(model) + "_" + Sanitize(metric)
  }

  function Filename(model: string, metric: string): string {
    Base(model, metric) + EXTENSION
  }

  function VersionedFilename(model: string, metric: string, version: int): string {
    Base(model, metric) + MARK + PrintInt(version) + EXTENSION
  }

  /** What a load of that file finds. */
  function Found(dir: Directory, file: string): Option<Artifact> {
    if file in dir then Some(dir[file]) else None
  }

  // ---- Versions found by the directory listing -------------------------------------------

  predicate EndsWith(s: string, suffix: string) {
    |suffix| <= |s| && s[|s| - |suffix|..] == suffix
  }

  /** The glob `base_v*.joblib`; sanitised names hold no glob characters. */
  predicate Matches(name: string, base: string) {
    && |base| + |MARK| + |EXTENSION| <= |name|
    && base + MARK <= name && EndsWith(name, EXTENSION)
  }

  function Stem(name: string): string
    requires |EXTENSION| <= |name|
  {
    name[..|name| - |EXTENSION|]
  }

  predicate MarkAt(s: string, i: int) {
    0 <= i && i + 1 < |s| && s[i] == '_' && s[i + 1] == 'v'
  }

  /** What follows the last "_v"; nothing if there is none. */
  function AfterLastMark(s: string, i: nat): Option<string>
    requires i <= |s|
    decreases i
  {
    if MarkAt(s, i) then Some(s[i + 2..])
    else if i == 0 then None
    else AfterLastMark(s, i - 1)
  }

  function VersionOf(name: string): Option<int>
    requires |EXTENSION| <= |name|
  {
    match AfterLastMark(Stem(name), |Stem(name)|)
    case None => None
    case Some(text) => ParseInt(text)
  }

  /** A file whose name carries version `v` of `base`. */
  predicate Carries(name: string, base: string, v: int) {
    Matches(name, base) && VersionOf(name) == Some(v)
  }

  /** One more than the largest version present; 1 when there is none. */
  ghost predicate IsNextVersion(dir: Directory, base: string, next: int) {
    && (forall name, v :: name in dir && Carries(name, base, v) ==> v < next)
    && ((exists name :: name in dir && Carries(name, base, next - 1))
        || (next == 1 && forall name, v :: name in dir ==> !Carries(name, base, v)))
  }

  // ---- The backup name is free ----------------------------------------------------------------

  lemma {:induction false} LastMarkIs(s: string, i: nat, from: nat)
    requires i <= from <= |s| && MarkAt(s, i)
    requires forall j :: i < j <= from ==> !MarkAt(s, j)
    ensures AfterLastMark(s, from) == Some(s[i + 2..])
  {
    if i < from {
      LastMarkIs(s, i, from - 1);
    }
  }

  lemma PrintedHasNoMark(v: int)
    ensures forall i :: 0 <= i < |PrintInt(v)| ==> PrintInt(v)[i] != 'v'
  {
    var m := if v < 0 then 0 - v else v;
    PrintReads(m);
    assert forall i :: 0 <= i < |Print(m)| ==> IsDigit(Print(m)[i]);
  }

  /** A versioned name is listed, and its version read back, whatever the base looks like. */
  lemma VersionedNameCarries(base: string, v: int)
    ensures Carries(base + MARK + PrintInt(v) + EXTENSION, base, v)
  {
    var digits := PrintInt(v);
    var name := base + MARK + digits + EXTENSION;
    var stem := base + MARK + digits;
    assert name[..|base + MARK|] == base + MARK;
    assert name[|name| - |EXTENSION|..] == EXTENSION && Stem(name) == stem;
    PrintedHasNoMark(v);
    assert MarkAt(stem, |base|);
    forall j | |base| < j <= |stem| ensures !MarkAt(stem, j) {
      assert |base| + 2 <= j + 1 < |stem| ==> stem[j + 1] == digits[j + 1 - |base| - 2];
    }
    LastMarkIs(stem, |base|, |stem|);
    assert stem[|base| + 2..] == digits;
    ParseIntReads(v);
  }

  lemma BackupIsFresh(dir: Directory, base: string, next: int)
    requires IsNextVersion(dir, base, next)
    ensures base + MARK + PrintInt(next) + EXTENSION !in dir
  {
    VersionedNameCarries(base, next);
  }

  // ---- The object -------------------------------------------------------------------------------

  /** Renaming replaces an existing target, as the file system does. */
  function Rename(dir: Directory, from: string, to: string): Directory
    requires from in dir
  {
    (dir - {from})[to := dir[from]]
  }

  class ForecastModelStore {
    var dir: Directory

    method NextVersion(model: string, metric: string) returns (next: int)
      ensures IsNextVersion(dir, Base(model, metric), next)
    {
      var base := Base(model, metric);
      var left := dir.Keys;
      var best: Option<int> := None;
      while left != {}
        invariant left <= dir.Keys
        invariant best.None? ==> forall name, v :: name in dir && name !in left ==> !Carries(name, base, v)
        invariant best.Some? ==>
                    forall name, v :: name in dir && name !in left && Carries(name, base, v) ==> v <= best.value
        invariant best.Some? ==> exists name :: name in dir && Carries(name, base, best.value)
        decreases left
      {
        var name :| name in left;
        left := left - {name};
        if Matches(name, base) {
          var version := VersionOf(name);
          if version.Some? && (best.None? || best.value < version.value) {
            best := version;
            assert Carries(name, base, best.value);
          }
        }
      }
      next := (if best.Some? then best.value else 0) + 1;
      assert best.Some? ==> next - 1 == best.value;
    }

    method Save(model: string, metric: string, artifact: Artifact)
      modifies this
      ensures Saved(old(dir), dir, model, metric, artifact)
    {
      var file := Filename(model, metric);
      if file in dir {
        var version := NextVersion(model, metric);
        var backup := VersionedFilename(model, metric, version);
        dir := Rename(dir, file, backup);
        assert IsNextVersion(old(dir), Base(model, metric), version);
      }
      dir := dir[file := artifact];
    }

    method Load(model: string, metric: string) returns (artifact: Option<Artifact>)
      ensures artifact == Found(dir, Filename(model, metric))
    {
      var file := Filename(model, metric);
      if file !in dir {
        return None;
      }
      return Some(dir[file]);
    }
  }

  /** The effect of one save. */
  ghost predicate Saved(before: Directory, after: Directory, model: string, metric: string, artifact: Artifact) {
    var file := Filename(model, metric);
    if file in before then
      exists v :: IsNextVersion(before, Base(model, metric), v)
                  && after == Rename(before, file, VersionedFilename(model, metric, v))[file := artifact]
    else after == before[file := artifact]
  }

  lemma NextVersionUnique(dir: Directory, base: string, m: int, n: int)
    requires IsNextVersion(dir, base, m) && IsNextVersion(dir, base, n)
    ensures m == n
  {
  }

  /** The directory a save leaves is determined by the one it finds. */
  lemma SaveDetermined(before: Directory, a: Directory, b: Directory, model: string, metric: string, artifact: Artifact)
    requires Saved(before, a, model, metric, artifact) && Saved(before, b, model, metric, artifact)
    ensures a == b
  {
    var file, base := Filename(model, metric), Base(model, metric);
    if file in before {
      var m :| IsNextVersion(before, base, m)
               && a == Rename(before, file, VersionedFilename(model, metric, m))[file := artifact];
      var n :| IsNextVersion(before, base, n)
               && b == Rename(before, file, VersionedFilename(model, metric, n))[file := artifact];
      NextVersionUnique(before, base, m, n);
    }
  }

  // ---- Nothing is ever lost -------------------------------------------------------------------------

  /** How many files hold artifact `a`. */
  function Copies(dir: Directory, a: Artifact): nat {
    |Holders(dir, a)|
  }

  function Holders(dir: Directory, a: Artifact): set<string> {
    set name | name in dir && dir[name] == a
  }

  lemma CopiesAdd(dir: Directory, name: string, x: Artifact, a: Artifact)
    requires name !in dir
    ensures Copies(dir[name := x], a) == Copies(dir, a) + if x == a then 1 else 0
    ensures |dir[name := x]| == |dir| + 1
  {
    assert Holders(dir[name := x], a) == Holders(dir, a) + if x == a then {name} else {};
  }

  lemma RenameKeepsCopies(dir: Directory, from: string, to: string, a: Artifact)
    requires from in dir && to !in dir
    ensures Copies(Rename(dir, from, to), a) == Copies(dir, a) && |Rename(dir, from, to)| == |dir|
    ensures from !in Rename(dir, from, to)
  {
    var rest := dir - {from};
    CopiesAdd(rest, to, dir[from], a);
    CopiesAdd(rest, from, dir[from], a);
    assert rest[from := dir[from]] == dir;
  }

  /** A save adds exactly one copy of its artifact and destroys none of any other. */
  lemma SaveDestroysNothing(
    before: Directory, after: Directory, model: string, metric: string, artifact: Artifact, a: Artifact)
    requires Saved(before, after, model, metric, artifact)
    ensures Copies(after, a) == Copies(before, a) + if a == artifact then 1 else 0
    ensures |after| == |before| + 1
  {
    var file := Filename(model, metric);
    if file in before {
      var v :| IsNextVersion(before, Base(model, metric), v)
               && after == Rename(before, file, VersionedFilename(model, metric, v))[file := artifact];
      var backup := VersionedFilename(model, metric, v);
      BackupIsFresh(before, Base(model, metric), v);
      RenameKeepsCopies(before, file, backup, a);
      CopiesAdd(Rename(before, file, backup), file, artifact, a);
    } else {
      CopiesAdd(before, file, artifact, a);
    }
  }

  /** After a save the new artifact is the one loaded, and every other file is as it was. */
  lemma SaveThenLoad(before: Directory, after: Directory, model: string, metric: string, artifact: Artifact)
    requires Saved(before, after, model, metric, artifact)
    ensures Filename(model, metric) in after && after[Filename(model, metric)] == artifact
    ensures forall name :: name in before && name != Filename(model, metric) ==>
              name in after && after[name] == before[name]
  {
    var file := Filename(model, metric);
    if file in before {
      var v :| IsNextVersion(before, Base(model, metric), v)
               && after == Rename(before, file, VersionedFilename(model, metric, v))[file := artifact];
      BackupIsFresh(before, Base(model, metric), v);
    }
  }

  datatype SaveCall = SaveCall(model: string, metric: string, artifact: Artifact)

  /** `dirs` are the directories before and after each of the saves in turn. */
  ghost predicate History(dirs: seq<Directory>, saves: seq<SaveCall>) {
    && |dirs| == |saves| + 1
    && forall i :: 0 <= i < |saves| ==>
         Saved(dirs[i], dirs[i + 1], saves[i].model, saves[i].metric, saves[i].artifact)
  }

  /** How many of the saves saved `a`. */
  function Given(saves: seq<SaveCall>, a: Artifact): nat {
    if saves == [] then 0
    else Given(saves[..|saves| - 1], a) + if saves[|saves| - 1].artifact == a then 1 else 0
  }

  /**
   Over any saves under any names, from any directory: every artifact ever there is still there, one file
   per save.
   */
  lemma {:induction false} SavesKeepEverything(dirs: seq<Directory>, saves: seq<SaveCall>, a: Artifact)
    requires History(dirs, saves)
    ensures Copies(dirs[|saves|], a) == Copies(dirs[0], a) + Given(saves, a)
    ensures |dirs[|saves|]| == |dirs[0]| + |saves|
  {
    if saves != [] {
      var n := |saves| - 1;
      SavesKeepEverything(dirs[..n + 1], saves[..n], a);
      SaveDestroysNothing(dirs[n], dirs[n + 1], saves[n].model, saves[n].metric, saves[n].artifact, a);
    }
  }

  /** The artifact of the last save under a file name, if there was one. */
  function LastSaved(saves: seq<SaveCall>, file: string): Option<Artifact> {
    if saves == [] then None
    else
      var last := saves[|saves| - 1];
      if Filename(last.model, last.metric) == file then Some(last.artifact)
      else LastSaved(saves[..|saves| - 1], file)
  }

  /** A save that moves the current artifact of its name to `file`. */
  ghost predicate BacksUpTo(dir: Directory, save: SaveCall, file: string) {
    && Filename(save.model, save.metric) in dir
    && exists v :: IsNextVersion(dir, Base(save.model, save.metric), v)
                   && VersionedFilename(save.model, save.metric, v) == file
  }

  /** What one save does to a file other than the one it is named for. */
  lemma SaveOnOtherFile(before: Directory, after: Directory, save: SaveCall, file: string)
    requires Saved(before, after, save.model, save.metric, save.artifact)
    requires Filename(save.model, save.metric) != file
    ensures file in after <==> file in before || BacksUpTo(before, save, file)
    ensures file in before ==> !BacksUpTo(before, save, file) && after[file] == before[file]
    ensures BacksUpTo(before, save, file) ==> after[file] == before[Filename(save.model, save.metric)]
  {
    var current, base := Filename(save.model, save.metric), Base(save.model, save.metric);
    if current in before {
      var v :| IsNextVersion(before, base, v)
               && after == Rename(before, current, VersionedFilename(save.model, save.metric, v))
                             [current := save.artifact];
      BackupIsFresh(before, base, v);
      if w :| IsNextVersion(before, base, w) && VersionedFilename(save.model, save.metric, w) == file {
        NextVersionUnique(before, base, v, w);
      }
    }
  }

  /** The artifact a save moved to `file` as its backup, if one did. */
  ghost function BackedUpTo(dirs: seq<Directory>, saves: seq<SaveCall>, file: string): Option<Artifact>
    requires |dirs| == |saves| + 1
  {
    if saves == [] then None
    else
      var n := |saves| - 1;
      if BacksUpTo(dirs[n], saves[n], file) then Some(dirs[n][Filename(saves[n].model, saves[n].metric)])
      else BackedUpTo(dirs[..n + 1], saves[..n], file)
  }

  ghost function FirstOf(a: Option<Artifact>, b: Option<Artifact>, c: Option<Artifact>): Option<Artifact> {
    if a.Some? then a else if b.Some? then b else c
  }

  /**
   Over any saves, what a load then finds under any name: the artifact last saved under that file name; if there is
   none, what was there at first; if that is nothing either, the artifact that a save under another name backed up
   there; and otherwise nothing.
   */
  lemma {:induction false} LoadFinds(dirs: seq<Directory>, saves: seq<SaveCall>, file: string)
    requires History(dirs, saves)
    ensures Found(dirs[|saves|], file)
         == FirstOf(LastSaved(saves, file), Found(dirs[0], file), BackedUpTo(dirs, saves, file))
  {
    if saves != [] {
      var n := |saves| - 1;
      var last := saves[n];
      LoadFinds(dirs[..n + 1], saves[..n], file);
      assert dirs[..n + 1][n] == dirs[n] && dirs[..n + 1][0] == dirs[0];
      if Filename(last.model, last.metric) == file {
        SaveThenLoad(dirs[n], dirs[n + 1], last.model, last.metric, last.artifact);
      } else {
        SaveOnOtherFile(dirs[n], dirs[n + 1], last, file);
      }
    }
  }

  /** In a directory with nothing but the current artifact the next version is 1. */
  lemma FirstVersion(model: string, metric: string, a: Artifact, v: int)
    requires IsNextVersion(map[Filename(model, metric) := a], Base(model, metric), v)
    ensures v == 1
  {
    assert !Matches(Filename(model, metric), Base(model, metric));
  }

  /**
   Saving twice under one name makes the first artifact the current one of another name, if that name looks like the
   backup.
   */
  method FoundUnderAnotherName(model: string, metric: string, other: string, a: Artifact, b: Artifact)
    returns (found: Option<Artifact>)
    requires Sanitize(other) == Sanitize(metric) + MARK + "1"
    ensures found == Some(a)
  {
    var store := new ForecastModelStore;
    store.dir := map[];
    store.Save(model, metric, a);
    store.Save(model, metric, b);
    OtherName(model, metric, other, a, store.dir, b);
    found := store.Load(model, other);
  }

  lemma OtherName(model: string, metric: string, other: string, a: Artifact, after: Directory, b: Artifact)
    requires Sanitize(other) == Sanitize(metric) + MARK + "1"
    requires Saved(map[Filename(model, metric) := a], after, model, metric, b)
    ensures Found(after, Filename(model, other)) == Some(a)
  {
    var before, file := map[Filename(model, metric) := a], Filename(model, metric);
    var v :| IsNextVersion(before, Base(model, metric), v)
             && after == Rename(before, file, VersionedFilename(model, metric, v))[file := b];
    FirstVersion(model, metric, a, v);
    BackupIsFresh(before, Base(model, metric), v);
    assert PrintInt(1) == "1" && Base(model, other) == Base(model, metric) + MARK + "1";
  }

  /** Such names: any plain short one, "cpu" say, and the same with "_v1" behind it. */
  lemma LooksLikeBackup(metric: string)
    requires 0 < |metric| <= MAX_COMPONENT_LEN - 3 && AllAllowed(metric) && '.' !in metric
    requires metric[0] != '_' && metric[|metric| - 1] != '_'
    ensures Sanitize(metric + MARK + "1") == Sanitize(metric) + MARK + "1"
  {
    UndottedFixed(metric);
    UndottedFixed(metric + MARK + "1");
  }

  // ---- Names ------------------------------------------------------------------------------------------

  /** For names that sanitising keeps the file is called after both, and a backup after its version as well. */
  lemma FilesAreCalled(model: string, metric: string, v: int)
    requires Sanitize(model) == model && Sanitize(metric) == metric
    ensures Filename(model, metric) == model + "_" + metric + ".joblib"
    ensures VersionedFilename(model, metric, v) == model + "_" + metric + "_v" + PrintInt(v) + ".joblib"
  {
  }

  lemma SameEnd(a: string, b: string, rest: string)
    ensures a + rest == b + rest <==> a == b
  {
    if a + rest == b + rest {
      assert a == (a + rest)[..|a|] && b == (b + rest)[..|b|];
    }
  }

  lemma SameStart(front: string, a: string, b: string)
    ensures front + a == front + b <==> a == b
  {
    if front + a == front + b {
      assert a == (front + a)[|front|..] && b == (front + b)[|front|..];
    }
  }

  /** Both the model and the metric make the difference. */
  lemma BothNamesMatter(model: string, other: string, metric: string, another: string)
    ensures Filename(model, metric) == Filename(other, metric) <==> Sanitize(model) == Sanitize(other)
    ensures Filename(model, metric) == Filename(model, another) <==> Sanitize(metric) == Sanitize(another)
  {
    var a, b, m, n := Sanitize(model), Sanitize(other), Sanitize(metric), Sanitize(another);
    FilenameIs(model, metric);
    FilenameIs(other, metric);
    FilenameIs(model, another);
    SameEnd(a, b, "_" + (m + EXTENSION));
    SameStart(a, "_" + (m + EXTENSION), "_" + (n + EXTENSION));
    SameStart("_", m + EXTENSION, n + EXTENSION);
    SameEnd(m, n, EXTENSION);
  }

  lemma FilenameIs(model: string, metric: string)
    ensures Filename(model, metric) == Sanitize(model) + ("_" + (Sanitize(metric) + EXTENSION))
  {
  }

  lemma Reassociated(a: string, b: string, c: string)
    ensures a + "_" + b + "_" + c == a + "_" + (b + "_" + c)
  {
  }

  lemma SharedFile(a: string, ab: string, c: string, bc: string)
    requires Sanitize(a) == a && Sanitize(c) == c && Sanitize(ab) == ab && Sanitize(bc) == bc
    requires ab + "_" + c == a + "_" + bc
    ensures Filename(ab, c) == Filename(a, bc)
  {
    FilesAreCalled(ab, c, 0);
    FilesAreCalled(a, bc, 0);
  }

  /** They are joined by an underscore, which either may hold: two pairs of names can share a file. */
  lemma NamesCanCollide(a: string, b: string, c: string)
    requires Word(a) && Word(b) && Word(c) && |a| + |b| < 100 && |b| + |c| < 100
    ensures Filename(a + "_" + b, c) == Filename(a, b + "_" + c)
  {
    Joined(a, b);
    Joined(b, c);
    WordKept(a);
    WordKept(c);
    WordKept(a + "_" + b);
    WordKept(b + "_" + c);
    Reassociated(a, b, c);
    SharedFile(a, a + "_" + b, c, b + "_" + c);
  }

  /** Files whose name does not begin with the base and the version mark have no say in the version. */
  lemma OnlyOwnVersionsCount(dir: Directory, base: string, next: int)
    requires IsNextVersion(dir, base, next)
    requires forall name :: name in dir ==> !(base + "_v" <= name)
    ensures next == 1
  {
  }

  /** A visible name with no directory part. */
  ghost predicate Plain(name: string) {
    name != [] && name[0] != '.' && '/' !in name
  }

  lemma PlainName(a: string, b: string, rest: string)
    requires Safe(a) && Safe(b) && '/' !in rest
    ensures Plain(a + "_" + b + rest)
  {
    SafeIsFlat(a);
    SafeIsFlat(b);
  }

  lemma SafeIsFlat(s: string)
    requires Safe(s)
    ensures '/' !in s && s != [] && s[0] != '.'
  {
    assert forall i :: 0 <= i < |s| ==> Allowed(s[i]);
  }

  lemma PrintedIsFlat(v: int)
    ensures '/' !in PrintInt(v)
  {
    var m := if v < 0 then 0 - v else v;
    PrintReads(m);
    assert forall i :: 0 <= i < |Print(m)| ==> IsDigit(Print(m)[i]);
  }

  /** Every file the store writes is a visible plain name in its own directory. */
  lemma NamesStayInside(model: string, metric: string, v: int)
    ensures Plain(Filename(model, metric)) && Plain(VersionedFilename(model, metric, v))
  {
    var a, b := Sanitize(model), Sanitize(metric);
    SanitizedIsSafe(model);
    SanitizedIsSafe(metric);
    PlainName(a, b, EXTENSION);
    PrintedIsFlat(v);
    var rest := MARK + PrintInt(v) + EXTENSION;
    PlainName(a, b, rest);
    VersionedNameParts(a + "_" + b, PrintInt(v));
  }

  lemma VersionedNameParts(base: string, digits: string)
    ensures base + MARK + digits + EXTENSION == base + (MARK + digits + EXTENSION)
  {
  }
}
