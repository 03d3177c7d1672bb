/** What the path rules of module `Paths` say of the text alone. */
module PathMeaning {
  import opened Wrappers
  import opened Characters
  import opened TextMeaning
  import opened Paths

  predicate IsSlash(c: char) {
    c in {'/', '\\'}
  }

  predicate NoControls(s: string) {
    forall c :: c in s ==> !ControlCode(c)
  }

  // ---------------------------------------------------------------- segments

  /** The segments are the stretches of text between slashes and backslashes. */
  predicate CutAtSlashes(s: string, segments: seq<string>) {
    && segments != []
    && (forall i, k :: 0 <= i < |segments| && 0 <= k < |segments[i]| ==> !IsSlash(segments[i][k]))
    && |Join(segments)| == |s|
    && forall i :: 0 <= i < |s| ==> Join(segments)[i] == if IsSlash(s[i]) then '/' else s[i]
  }

  lemma SplitIsTheCut(s: string, segments: seq<string>)
    ensures segments == Split(s) <==> CutAtSlashes(s, segments)
  {
    SplitSlashed(s);
    assert !Contains(Slashed(s), '\\');
    JoinSplit(Slashed(s));
    SplitIsPlain(s);
    if CutAtSlashes(s, segments) {
      assert AllPlain(segments) by {
        forall i, k | 0 <= i < |segments| && 0 <= k < |segments[i]| ensures !IsSeparator(segments[i][k]) {
          assert !IsSlash(segments[i][k]);
        }
      }
      assert Join(segments) == Slashed(s);
      SplitJoin(segments);
    }
  }

  predicate Nameless(segment: string) {
    segment == "" || segment == "."
  }

  predicate NamesFolder(segment: string) {
    segment != "" && segment != "." && segment != ".."
  }

  /** The segments that name something. */
  function Named(segments: seq<string>): seq<string> {
    if segments == [] then []
    else if Nameless(segments[0]) then Named(segments[1..])
    else [segments[0]] + Named(segments[1..])
  }

  lemma {:induction false} NamedOneMore(segments: seq<string>, segment: string)
    ensures Named(segments + [segment]) == Named(segments) + (if Nameless(segment) then [] else [segment])
  {
    if segments != [] {
      assert (segments + [segment])[1..] == segments[1..] + [segment];
      NamedOneMore(segments[1..], segment);
    }
  }

  predicate Refused(segment: string) {
    segment == ".." || ':' in segment
  }

  predicate FirstRefusedAt(segments: seq<string>, n: int) {
    0 <= n < |segments| && Refused(segments[n]) && forall i :: 0 <= i < n ==> !Refused(segments[i])
  }

  /** The first refused segment decides; otherwise all that name something stay. */
  lemma {:induction false} KeepMeaning(segments: seq<string>)
    ensures Keep(segments).Ok? <==> forall i :: 0 <= i < |segments| ==> !Refused(segments[i])
    ensures Keep(segments).Ok? ==> Keep(segments).value == Named(segments)
    ensures forall n :: FirstRefusedAt(segments, n) ==> Keep(segments) == Err(if segments[n] == ".." then ParentSegment else InvalidColon)
  {
    if segments != [] {
      var last := |segments| - 1;
      var shorter := segments[..last];
      KeepMeaning(shorter);
      assert segments == shorter + [segments[last]];
      NamedOneMore(shorter, segments[last]);
      assert Contains(segments[last], ':') <==> ':' in segments[last];
      hide Named, Contains;
      assert forall i :: 0 <= i < last ==> shorter[i] == segments[i];
    }
  }

  lemma ColonsOfSegments(s: string)
    ensures ':' in s <==> exists n :: 0 <= n < |Split(s)| && ':' in Split(s)[n]
  {
    if ':' in s { ColonSurvivesSplit(s); }
    forall n | 0 <= n < |Split(s)| && ':' in Split(s)[n] ensures ':' in s {
      assert Contains(Split(s)[n], ':');
      SplitCharacters(s, n, ':');
    }
  }

  // ---------------------------------------------------------------- whole paths

  /** No folder of the path leads upwards. */
  predicate ClimbsNowhere(s: string) {
    ".." !in Split(s)
  }

  predicate StartsAtSlash(s: string) {
    s != [] && IsSlash(s[0])
  }

  /** The first refused segment of the text. */
  predicate FirstRefused(s: string, segment: string) {
    exists n :: 0 <= n < |Split(s)| && Split(s)[n] == segment && FirstRefusedAt(Split(s), n)
  }

  lemma SegmentsMeaning(s: string)
    ensures Keep(Split(s)).Ok? <==> ':' !in s && ClimbsNowhere(s)
    ensures Keep(Split(s)).Ok? ==> Keep(Split(s)).value == Named(Split(s))
    ensures forall segment :: FirstRefused(s, segment) ==> Keep(Split(s)) == Err(if segment == ".." then ParentSegment else InvalidColon)
  {
    hide Split, Keep;
    KeepMeaning(Split(s));
    ColonsOfSegments(s);
  }

  lemma ControlsMeaning(s: string)
    ensures HasControl(s) <==> !NoControls(s)
    ensures Contains(s, '\U{0}') <==> '\U{0}' in s
    ensures '\U{0}' in s ==> !NoControls(s)
  {
    if HasControl(s) {
      var i :| 0 <= i < |s| && IsControl(s[i]);
      assert s[i] in s;
    }
    if !NoControls(s) {
      var c :| c in s && ControlCode(c);
      var i :| 0 <= i < |s| && s[i] == c;
      assert IsControl(s[i]);
    }
  }

  /** The domain accepts a path exactly when it holds no control character and
      no colon, does not start at a slash and climbs nowhere; it keeps the
      segments that name something, a slash between each two. */
  lemma RelativeMeaning(s: string)
    ensures NormalizeRelative(s).Ok? <==> NoControls(s) && ':' !in s && !StartsAtSlash(s) && ClimbsNowhere(s)
    ensures NormalizeRelative(s).Ok? ==> NormalizeRelative(s).value == Join(Named(Split(s)))
    ensures '\U{0}' in s ==> NormalizeRelative(s) == Err(Nul)
    ensures '\U{0}' !in s && StartsAtSlash(s) ==> NormalizeRelative(s) == Err(Absolute)
    ensures '\U{0}' !in s && |s| >= 2 && s[0] as int < 128 && s[1] == ':' && !StartsAtSlash(s) ==> NormalizeRelative(s) == Err(DrivePrefix)
    ensures '\U{0}' !in s && !NoControls(s) && !StartsAtSlash(s) && !SecondByteIsColon(s) ==> NormalizeRelative(s) == Err(ControlCharacter)
    ensures NoControls(s) && !StartsAtSlash(s) && !SecondByteIsColon(s) ==>
      forall segment :: FirstRefused(s, segment) ==> NormalizeRelative(s) == Err(if segment == ".." then ParentSegment else InvalidColon)
  {
    hide Keep, Split, Join, Named;
    SegmentsMeaning(s);
    ControlsMeaning(s);
    hide NoControls, HasControl, Contains, FirstRefused;
    if SecondByteIsColon(s) { assert s[1] in s; }
  }

  /** Canonical JSON accepts the same, and control characters but NUL as well. */
  lemma DeclaredMeaning(s: string)
    ensures NormalizeDeclared(s).Ok? <==> '\U{0}' !in s && ':' !in s && !StartsAtSlash(s) && ClimbsNowhere(s)
    ensures NormalizeDeclared(s).Ok? ==> NormalizeDeclared(s).value == Join(Named(Split(s)))
  {
    SplitSlashed(s);
    hide Keep, Split, Join, Named;
    SegmentsMeaning(s);
    ControlsMeaning(s);
    hide Contains;
    if HasDrivePrefix(Slashed(s)) { assert s[1] in s; }
  }

  /** Folders with names of their own, one slash between each two; or nothing. */
  predicate CleanPath(path: string) {
    && NoControls(path) && ':' !in path && '\\' !in path
    && (path == "" || forall segment :: segment in Split(path) ==> NamesFolder(segment))
  }

  /** Normal paths are the clean ones. */
  lemma NormalMeaning(path: string)
    ensures Normal(path) <==> CleanPath(path)
  {
    RelativeMeaning(path);
    if path == "" {
      assert Split(path) == [""] && Named([""]) == [];
    } else if Normal(path) {
      NormalPathsHaveNoBackslash(path);
      assert '\\' !in path by { assert !Contains(path, '\\'); }
      NormalSegments(path);
    } else if '\\' !in path && forall segment :: segment in Split(path) ==> NamesFolder(segment) {
      assert !Contains(path, '\\');
      JoinSplit(path);
      AllAreNamed(Split(path));
      FirstSegmentIsEmpty(path);
    }
  }

  lemma FirstSegmentIsEmpty(path: string)
    ensures StartsAtSlash(path) ==> "" in Split(path)
  {
    if StartsAtSlash(path) { assert Split(path)[0] == ""; }
  }

  lemma {:induction false} AllAreNamed(segments: seq<string>)
    requires forall segment :: segment in segments ==> !Nameless(segment)
    ensures Named(segments) == segments
  {
    if segments != [] {
      assert segments == [segments[0]] + segments[1..];
      AllAreNamed(segments[1..]);
    }
  }

  lemma {:induction false} NamedAreNamed(segments: seq<string>)
    ensures forall segment :: segment in Named(segments) ==> segment in segments && !Nameless(segment)
  {
    if segments != [] { NamedAreNamed(segments[1..]); }
  }

  lemma NormalSegments(path: string)
    requires Normal(path) && path != ""
    ensures forall segment :: segment in Split(path) ==> NamesFolder(segment)
  {
    RelativeMeaning(path);
    var named := Named(Split(path));
    NamedAreNamed(Split(path));
    SplitIsPlain(path);
    assert named != [];
    assert AllPlain(named) by {
      forall i | 0 <= i < |named| ensures Plain(named[i]) {
        assert named[i] in named;
        var k :| 0 <= k < |Split(path)| && Split(path)[k] == named[i];
      }
    }
    SplitJoin(named);
  }

  // ---------------------------------------------------------------- overlap

  /** The folders a normal path walks through; none for the root itself. */
  function FoldersOf(path: string): seq<string> {
    if path == "" then [] else Split(path)
  }

  /** The first folders are the other path's first folders, up to letter case. */
  predicate LeadsInto(folders: seq<string>, others: seq<string>) {
    |folders| <= |others| && forall i :: 0 <= i < |folders| ==> SameUpToCase(folders[i], others[i])
  }

  lemma LoweredFolders(left: string, right: string)
    ensures Folders(left) <= Folders(right) <==> LeadsInto(FoldersOf(left), FoldersOf(right))
    ensures |Folders(left)| == |FoldersOf(left)|
  {
    hide Split, SameUpToCase, Lower;
    var l, r := FoldersOf(left), FoldersOf(right);
    forall i | 0 <= i < |l| && i < |r| ensures Lower(l[i]) == Lower(r[i]) <==> SameUpToCase(l[i], r[i]) {
      LowerMeaning(l[i], r[i]);
    }
    assert Folders(left) == LowerAll(l) && Folders(right) == LowerAll(r);
    if LeadsInto(l, r) { assert LowerAll(l) == LowerAll(r)[..|l|]; }
    if LowerAll(l) <= LowerAll(r) {
      forall i | 0 <= i < |l| ensures SameUpToCase(l[i], r[i]) { assert LowerAll(l)[i] == LowerAll(r)[i]; }
    }
  }

  /** Under one root either is the other or one of the folders it lies in,
      whatever the letter case; a root itself overlaps only with itself. */
  predicate InOnePlace(left: PathToken, right: PathToken) {
    left.root == right.root
    && var l, r := FoldersOf(left.relative), FoldersOf(right.relative);
       (l == [] <==> r == []) && (LeadsInto(l, r) || LeadsInto(r, l))
  }

  lemma OverlapMeaning(left: PathToken, right: PathToken)
    requires ValidToken(left) && ValidToken(right)
    ensures PathsOverlap(left, right) <==> InOnePlace(left, right)
  {
    OverlapIsFolderPrefix(left, right);
    LoweredFolders(left.relative, right.relative);
    LoweredFolders(right.relative, left.relative);
    hide Folders, FoldersOf, LeadsInto, PathsOverlap, ValidToken;
  }
}
