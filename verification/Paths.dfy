/** Tokenized paths: the relative-path grammar of the domain model
    (crates/reforge-domain/src/model.rs, `normalize_relative_path` and
    `paths_overlap`) and the declared-path rule of canonical JSON
    (crates/reforge-package/src/canonical.rs, `normalize_path`). */
module Paths {
  import opened Wrappers
  import opened Characters

  datatype PathError = Nul | Absolute | DrivePrefix | ControlCharacter | ParentSegment | InvalidColon

  predicate IsSeparator(c: char) {
    c == '/' || c == '\\'
  }

  // ---------------------------------------------------------------- segments

  /** Cut at every separator; never empty. */
  function Split(s: string): (segments: seq<string>)
    ensures |segments| > 0
  {
    if s == [] then [[]] else Prepend(s[0], Split(s[1..]))
  }

  /** One more character in front of text that is cut into `rest`. */
  function Prepend(c: char, rest: seq<string>): (segments: seq<string>)
    requires |rest| > 0
    ensures |segments| > 0
  {
    if IsSeparator(c) then [[]] + rest else [[c] + rest[0]] + rest[1..]
  }

  lemma PrependConcat(c: char, a: seq<string>, b: seq<string>)
    requires |a| > 0
    ensures Prepend(c, a + b) == Prepend(c, a) + b
  {
    assert (a + b)[1..] == a[1..] + b;
  }

  function Join(segments: seq<string>): string {
    if segments == [] then []
    else if |segments| == 1 then segments[0]
    else segments[0] + "/" + Join(segments[1..])
  }

  predicate Plain(segment: string) {
    forall i :: 0 <= i < |segment| ==> !IsSeparator(segment[i])
  }

  predicate AllPlain(segments: seq<string>) {
    forall i :: 0 <= i < |segments| ==> Plain(segments[i])
  }

  lemma {:induction false} SplitPlain(s: string)
    requires Plain(s)
    ensures Split(s) == [s]
  {
    if s != [] {
      SplitPlain(s[1..]);
      assert [s[0]] + s[1..] == s;
    }
  }

  lemma {:induction false} SplitIsPlain(s: string)
    ensures AllPlain(Split(s))
  {
    if s != [] { SplitIsPlain(s[1..]); }
  }

  /** Text before and after a slash is cut independently. */
  lemma {:induction false} SplitConcat(s: string, t: string)
    ensures Split(s + "/" + t) == Split(s) + Split(t)
  {
    if s == [] {
      assert (s + "/" + t)[1..] == t;
    } else {
      SplitConcat(s[1..], t);
      assert (s + "/" + t)[1..] == s[1..] + "/" + t;
      PrependConcat(s[0], Split(s[1..]), Split(t));
    }
  }

  lemma {:induction false} SplitJoin(segments: seq<string>)
    requires AllPlain(segments) && segments != []
    ensures Split(Join(segments)) == segments
  {
    SplitPlain(segments[0]);
    if |segments| > 1 {
      SplitJoin(segments[1..]);
      SplitConcat(segments[0], Join(segments[1..]));
    }
  }

  lemma {:induction false} JoinConcat(a: seq<string>, b: seq<string>)
    requires a != [] && b != []
    ensures Join(a + b) == Join(a) + "/" + Join(b)
  {
    if |a| == 1 {
      assert (a + b)[1..] == b;
    } else {
      JoinConcat(a[1..], b);
      assert (a + b)[1..] == a[1..] + b;
      assert a[0] + "/" + (Join(a[1..]) + "/" + Join(b)) == (a[0] + "/" + Join(a[1..])) + "/" + Join(b);
    }
  }

  // ---------------------------------------------------------------- normal forms

  /** What both normalizers do with the cut text: drop empty and `.` segments,
      refuse `..` and colons. */
  function Keep(segments: seq<string>): Result<seq<string>, PathError> {
    if segments == [] then Ok([])
    else
      var last := segments[|segments| - 1];
      var rest := Keep(segments[..|segments| - 1]);
      if rest.Err? then rest
      else if last == "" || last == "." then rest
      else if last == ".." then Err(ParentSegment)
      else if Contains(last, ':') then Err(InvalidColon)
      else Ok(rest.value + [last])
  }

  predicate StartsSeparated(s: string) {
    s != [] && IsSeparator(s[0])
  }

  /** The second byte of the UTF-8 text is a colon. */
  predicate SecondByteIsColon(s: string) {
    |s| >= 2 && s[0] < '\U{80}' && s[1] == ':'
  }

  function NormalizeRelative(relative: string): Result<string, PathError> {
    if Contains(relative, '\U{0}') then Err(Nul)
    else if StartsSeparated(relative) then Err(Absolute)
    else if SecondByteIsColon(relative) then Err(DrivePrefix)
    else if HasControl(relative) then Err(ControlCharacter)
    else
      match Keep(Split(relative))
      case Ok(segments) => Ok(Join(segments))
      case Err(e) => Err(e)
  }

  method NormalizeRelativePath(relative: string) returns (r: Result<string, PathError>)
    ensures r == NormalizeRelative(relative)
  {
    if Contains(relative, '\U{0}') { return Err(Nul); }
    if StartsSeparated(relative) { return Err(Absolute); }
    if SecondByteIsColon(relative) { return Err(DrivePrefix); }
    if HasControl(relative) { return Err(ControlCharacter); }
    var segments := KeepSegments(Split(relative));
    match segments
    case Ok(kept) => r := Ok(Join(kept));
    case Err(e) => r := Err(e);
  }

  method KeepSegments(cut: seq<string>) returns (r: Result<seq<string>, PathError>)
    ensures r == Keep(cut)
  {
    var segments: seq<string> := [];
    for n := 0 to |cut|
      invariant Keep(cut[..n]) == Ok(segments)
    {
      assert cut[..n + 1][..n] == cut[..n];
      var segment := cut[n];
      if segment == "" || segment == "." {
      } else if segment == ".." {
        KeepStopsAtError(cut, n + 1);
        return Err(ParentSegment);
      } else if Contains(segment, ':') {
        KeepStopsAtError(cut, n + 1);
        return Err(InvalidColon);
      } else {
        segments := segments + [segment];
      }
    }
    assert cut[..|cut|] == cut;
    r := Ok(segments);
  }

  lemma {:induction false} KeepStopsAtError(segments: seq<string>, n: nat)
    requires n <= |segments| && Keep(segments[..n]).Err?
    ensures Keep(segments) == Keep(segments[..n])
    decreases |segments|
  {
    if n < |segments| {
      var shorter := segments[..|segments| - 1];
      assert shorter[..n] == segments[..n];
      KeepStopsAtError(shorter, n);
    } else {
      assert segments[..n] == segments;
    }
  }

  function Slashed(s: string): string {
    seq(|s|, i requires 0 <= i < |s| => if s[i] == '\\' then '/' else s[i])
  }

  predicate IsAsciiAlphabetic(c: char) {
    'a' <= c <= 'z' || 'A' <= c <= 'Z'
  }

  predicate HasDrivePrefix(s: string) {
    |s| >= 2 && IsAsciiAlphabetic(s[0]) && s[1] == ':'
  }

  /** The path rule of canonical JSON. */
  function NormalizeDeclared(value: string): Result<string, PathError> {
    if Contains(value, '\U{0}') then Err(Nul)
    else
      var slashed := Slashed(value);
      if StartsSeparated(slashed) || HasDrivePrefix(slashed) then Err(Absolute)
      else
        match Keep(Split(slashed))
        case Ok(segments) => Ok(Join(segments))
        case Err(e) => Err(e)
  }

  method NormalizePath(value: string) returns (r: Result<string, PathError>)
    ensures r == NormalizeDeclared(value)
  {
    if Contains(value, '\U{0}') { return Err(Nul); }
    var slashed := Slashed(value);
    if StartsSeparated(slashed) || HasDrivePrefix(slashed) { return Err(Absolute); }
    var segments := KeepSegments(Split(slashed));
    match segments
    case Ok(kept) => r := Ok(Join(kept));
    case Err(e) => r := Err(e);
  }

  /** Segments as `Keep` leaves them. */
  predicate Clean(segments: seq<string>) {
    forall i :: 0 <= i < |segments| ==>
      segments[i] != "" && segments[i] != "." && segments[i] != ".." && Plain(segments[i]) && !Contains(segments[i], ':')
  }

  lemma {:induction false} KeptSegmentsAreClean(segments: seq<string>)
    requires AllPlain(segments) && Keep(segments).Ok?
    ensures Clean(Keep(segments).value)
  {
    if segments != [] { KeptSegmentsAreClean(segments[..|segments| - 1]); }
  }

  lemma {:induction false} CleanSegmentsAreKept(segments: seq<string>)
    requires Clean(segments)
    ensures Keep(segments) == Ok(segments)
  {
    if segments != [] {
      CleanSegmentsAreKept(segments[..|segments| - 1]);
      assert segments[..|segments| - 1] + [segments[|segments| - 1]] == segments;
    }
  }

  lemma {:induction false} SplitSlashed(s: string)
    ensures Split(Slashed(s)) == Split(s)
  {
    if s != [] {
      assert Slashed(s)[1..] == Slashed(s[1..]);
      SplitSlashed(s[1..]);
    }
  }

  /** A colon anywhere is a colon in some segment, hence refused. */
  lemma {:induction false} ColonSurvivesSplit(s: string)
    requires Contains(s, ':')
    ensures exists n :: 0 <= n < |Split(s)| && Contains(Split(s)[n], ':')
  {
    var rest := Split(s[1..]);
    if s[0] == ':' {
      assert Split(s)[0][0] == ':';
    } else {
      var i :| 0 <= i < |s| && s[i] == ':';
      assert s[1..][i - 1] == ':';
      ColonSurvivesSplit(s[1..]);
      var n :| 0 <= n < |rest| && Contains(rest[n], ':');
      if IsSeparator(s[0]) {
        assert Split(s)[n + 1] == rest[n];
      } else if n == 0 {
        var k :| 0 <= k < |rest[0]| && rest[0][k] == ':';
        assert Split(s)[0][k + 1] == ':';
      } else {
        assert Split(s)[n] == rest[n];
      }
    }
  }

  lemma {:induction false} KeepRefusesColon(segments: seq<string>, n: nat)
    requires n < |segments| && Contains(segments[n], ':')
    ensures Keep(segments).Err?
  {
    var last := |segments| - 1;
    if n < last { KeepRefusesColon(segments[..last], n); }
  }

  lemma ColonIsRefused(s: string)
    requires Contains(s, ':')
    ensures Keep(Split(s)).Err?
  {
    ColonSurvivesSplit(s);
    var n :| 0 <= n < |Split(s)| && Contains(Split(s)[n], ':');
    KeepRefusesColon(Split(s), n);
  }

  /** The two grammars differ on control characters alone: the domain accepts a
      path exactly when canonical JSON does and no character is a control, and
      then both give the same normal form. */
  lemma GrammarsAgree(s: string)
    ensures NormalizeRelative(s).Ok? <==> NormalizeDeclared(s).Ok? && !HasControl(s)
    ensures NormalizeRelative(s).Ok? ==> NormalizeDeclared(s) == NormalizeRelative(s)
  {
    SplitSlashed(s);
    assert StartsSeparated(Slashed(s)) == StartsSeparated(s);
    if Contains(s, '\U{0}') {
      var i :| 0 <= i < |s| && s[i] == '\U{0}';
      assert IsControl(s[i]);
    }
    if SecondByteIsColon(s) || HasDrivePrefix(Slashed(s)) {
      assert s[1] == ':';
      ColonIsRefused(s);
    }
  }

  lemma {:induction false} JoinedCharacters(segments: seq<string>, c: char)
    requires c != '/' && Contains(Join(segments), c)
    ensures exists n :: 0 <= n < |segments| && Contains(segments[n], c)
  {
    if |segments| == 1 {
      assert Contains(segments[0], c);
    } else {
      var i :| 0 <= i < |Join(segments)| && Join(segments)[i] == c;
      if i < |segments[0]| {
        assert segments[0][i] == c;
      } else {
        assert Join(segments[1..])[i - |segments[0]| - 1] == c;
        JoinedCharacters(segments[1..], c);
        var n :| 0 <= n < |segments[1..]| && Contains(segments[1..][n], c);
        assert segments[n + 1] == segments[1..][n];
      }
    }
  }

  lemma {:induction false} SplitCharacters(s: string, n: nat, c: char)
    requires n < |Split(s)| && Contains(Split(s)[n], c)
    ensures Contains(s, c)
  {
    if s != [] {
      var rest := Split(s[1..]);
      if IsSeparator(s[0]) {
        if n > 0 { SplitCharacters(s[1..], n - 1, c); var i :| 0 <= i < |s[1..]| && s[1..][i] == c; assert s[i + 1] == c; }
      } else if n == 0 {
        var k :| 0 <= k < |Split(s)[0]| && Split(s)[0][k] == c;
        if k == 0 { assert s[0] == c; }
        else {
          assert rest[0][k - 1] == c;
          SplitCharacters(s[1..], 0, c);
          var i :| 0 <= i < |s[1..]| && s[1..][i] == c;
          assert s[i + 1] == c;
        }
      } else {
        SplitCharacters(s[1..], n, c);
        var i :| 0 <= i < |s[1..]| && s[1..][i] == c;
        assert s[i + 1] == c;
      }
    }
  }

  lemma {:induction false} KeptCharacters(segments: seq<string>, n: nat, c: char)
    requires Keep(segments).Ok? && n < |Keep(segments).value| && Contains(Keep(segments).value[n], c)
    ensures exists k :: 0 <= k < |segments| && Contains(segments[k], c)
  {
    var last := |segments| - 1;
    var rest := Keep(segments[..last]).value;
    if n < |rest| {
      KeptCharacters(segments[..last], n, c);
      var k :| 0 <= k < |segments[..last]| && Contains(segments[..last][k], c);
      assert segments[k] == segments[..last][k];
    } else {
      assert Contains(segments[last], c);
    }
  }

  /** Normal paths are those that come out of the normalizer. */
  predicate Normal(path: string) {
    NormalizeRelative(path) == Ok(path)
  }

  lemma KeptCharactersCome(s: string, c: char)
    requires Keep(Split(s)).Ok? && c != '/' && Contains(Join(Keep(Split(s)).value), c)
    ensures Contains(s, c) && exists n :: 0 <= n < |Keep(Split(s)).value| && Contains(Keep(Split(s)).value[n], c)
  {
    var kept := Keep(Split(s)).value;
    JoinedCharacters(kept, c);
    var n :| 0 <= n < |kept| && Contains(kept[n], c);
    KeptCharacters(Split(s), n, c);
    var k :| 0 <= k < |Split(s)| && Contains(Split(s)[k], c);
    SplitCharacters(s, k, c);
  }

  lemma NormalizedCharacters(s: string, t: string, c: char)
    requires NormalizeRelative(s) == Ok(t) && c != '/' && Contains(t, c)
    ensures Contains(s, c)
  {
    KeptCharactersCome(s, c);
  }

  /** Both normalizers are idempotent and leave each other's results alone. */
  lemma NormalizationIsIdempotent(s: string)
    requires NormalizeRelative(s).Ok?
    ensures Normal(NormalizeRelative(s).value)
    ensures NormalizeDeclared(NormalizeRelative(s).value) == Ok(NormalizeRelative(s).value)
  {
    var kept := Keep(Split(s)).value;
    var t := Join(kept);
    SplitIsPlain(s);
    KeptSegmentsAreClean(Split(s));
    CleanJoinIsNormal(s, kept);
    GrammarsAgree(t);
  }

  lemma CleanJoinSplits(kept: seq<string>)
    requires Clean(kept)
    ensures Keep(Split(Join(kept))) == Ok(kept) && !StartsSeparated(Join(kept))
  {
    if kept == [] {
      assert Split(Join(kept)) == [""];
      assert [""][..0] == [];
    } else {
      SplitJoin(kept);
      CleanSegmentsAreKept(kept);
      assert Join(kept)[0] == kept[0][0];
    }
  }

  lemma CleanJoinIsNormal(s: string, kept: seq<string>)
    requires Clean(kept) && NormalizeRelative(s) == Ok(Join(kept))
    ensures Normal(Join(kept))
  {
    var t := Join(kept);
    forall i | 0 <= i < |t| ensures !IsControl(t[i]) && t[i] != ':' {
      if t[i] != '/' {
        assert Contains(t, t[i]);
        NormalizedCharacters(s, t, t[i]);
        if t[i] == ':' {
          JoinedCharacters(kept, ':');
        }
      }
    }
    CleanJoinSplits(kept);
  }

  /** The declared-path rule leaves its own results alone. */
  lemma DeclaredIsIdempotent(s: string)
    requires NormalizeDeclared(s).Ok?
    ensures NormalizeDeclared(NormalizeDeclared(s).value) == NormalizeDeclared(s)
  {
    SplitSlashed(s);
    hide Split, Join, Keep;
    var kept := Keep(Split(s)).value;
    var t := Join(kept);
    SplitIsPlain(s);
    KeptSegmentsAreClean(Split(s));
    forall i | 0 <= i < |t| ensures t[i] != '\U{0}' && t[i] != ':' && t[i] != '\\' {
      if t[i] != '/' {
        assert Contains(t, t[i]);
        KeptCharactersCome(s, t[i]);
      }
    }
    assert Slashed(t) == t;
    CleanJoinSplits(kept);
  }

  // ---------------------------------------------------------------- overlap

  datatype Root = UserProfile | RoamingAppData | LocalAppData | ProgramData | ProgramFiles | ProgramFilesX86
                | StartMenu | Startup | Desktop | Documents | UserSelected(id: string)

  datatype PathToken = PathToken(root: Root, relative: string)

  /** A token whose relative path is already in normal form. */
  predicate ValidToken(path: PathToken) {
    Normal(path.relative)
  }

  predicate PathsOverlap(left: PathToken, right: PathToken) {
    left.root == right.root
    && var l, r := Lower(left.relative), Lower(right.relative);
       l == r || (l != [] && l + "/" <= r) || (r != [] && r + "/" <= l)
  }

  /** The folders a normal path walks through, case folded; none for the root. */
  function Folders(path: string): seq<string> {
    if path == [] then [] else LowerAll(Split(path))
  }

  function LowerAll(segments: seq<string>): seq<string> {
    seq(|segments|, i requires 0 <= i < |segments| => Lower(segments[i]))
  }

  lemma LowerPrepend(c: char, rest: seq<string>)
    requires |rest| > 0
    ensures Prepend(LowerChar(c), LowerAll(rest)) == LowerAll(Prepend(c, rest))
  {
    assert Lower([c] + rest[0]) == [LowerChar(c)] + Lower(rest[0]);
    assert LowerAll(rest)[1..] == LowerAll(rest[1..]);
    if IsSeparator(c) {
      assert Lower([]) == [];
      assert LowerAll([[]] + rest) == [[]] + LowerAll(rest);
    } else {
      assert LowerAll([[c] + rest[0]] + rest[1..]) == [[LowerChar(c)] + Lower(rest[0])] + LowerAll(rest[1..]);
    }
  }

  /** Folding the case of a path folds the case of each of its folders. */
  lemma {:induction false} SplitLower(s: string)
    ensures Split(Lower(s)) == LowerAll(Split(s))
  {
    if s != [] {
      assert Lower(s)[1..] == Lower(s[1..]);
      SplitLower(s[1..]);
      LowerPrepend(s[0], Split(s[1..]));
    }
  }

  lemma {:induction false} JoinSplit(s: string)
    requires !Contains(s, '\\')
    ensures Join(Split(s)) == s
  {
    if s != [] {
      forall i | 0 <= i < |s[1..]| ensures s[1..][i] != '\\' { assert s[i + 1] != '\\'; }
      JoinSplit(s[1..]);
      var rest := Split(s[1..]);
      if IsSeparator(s[0]) {
        assert ([[]] + rest)[1..] == rest;
      } else if |rest| > 1 {
        assert Join(Split(s)) == ([s[0]] + rest[0]) + "/" + Join(rest[1..]);
        assert ([s[0]] + rest[0]) + "/" + Join(rest[1..]) == [s[0]] + (rest[0] + "/" + Join(rest[1..]));
      }
    }
  }

  /** A normal path has slashes for its only separators. */
  lemma NormalPathsHaveNoBackslash(path: string)
    requires Normal(path)
    ensures !Contains(path, '\\')
  {
    var kept := Keep(Split(path)).value;
    SplitIsPlain(path);
    KeptSegmentsAreClean(Split(path));
    if Contains(path, '\\') { JoinedCharacters(kept, '\\'); }
  }

  lemma FolderText(path: string)
    requires Normal(path)
    ensures Join(Folders(path)) == Lower(path)
    ensures AllPlain(Folders(path)) && (Folders(path) == [] <==> path == [])
  {
    NormalPathsHaveNoBackslash(path);
    SplitLower(path);
    if path != [] {
      forall i | 0 <= i < |path| ensures Lower(path)[i] != '\\' { assert path[i] != '\\'; }
      JoinSplit(Lower(path));
      SplitIsPlain(Lower(path));
    }
  }

  /** Textual prefixing up to a slash is list prefixing of the folders. */
  lemma PrefixIsFolderPrefix(a: seq<string>, b: seq<string>)
    requires AllPlain(a) && AllPlain(b) && a != []
    requires b != [] || Join(b) == []
    ensures Join(a) + "/" <= Join(b) <==> a < b
  {
    if Join(a) + "/" <= Join(b) {
      var rest := Join(b)[|Join(a)| + 1..];
      assert Join(b) == Join(a) + "/" + rest;
      SplitJoin(a);
      SplitJoin(b);
      SplitConcat(Join(a), rest);
    }
    if a < b {
      var c := b[|a|..];
      assert b == a + c;
      JoinConcat(a, c);
    }
  }

  /** On normal paths, overlap means: same root, and the folder lists are equal
      or a non-empty one is a prefix of the other. */
  lemma OverlapIsFolderPrefix(left: PathToken, right: PathToken)
    requires ValidToken(left) && ValidToken(right)
    ensures PathsOverlap(left, right) <==>
      left.root == right.root
      && var l, r := Folders(left.relative), Folders(right.relative);
         l == r || (l != [] && l < r) || (r != [] && r < l)
  {
    var l, r := Folders(left.relative), Folders(right.relative);
    FolderText(left.relative);
    FolderText(right.relative);
    if l != [] { PrefixIsFolderPrefix(l, r); }
    if r != [] { PrefixIsFolderPrefix(r, l); }
    if Join(l) == Join(r) && l != [] && r != [] {
      SplitJoin(l);
      SplitJoin(r);
    }
  }
}
