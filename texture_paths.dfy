/**
 * The path handling of Model::loadMaterialTextures: the texture path from the
 * material is split at its last separator ('/' or '\') into the file name and
 * the directory segment before it, and "diffuse.png" files are looked up
 * under a name built from that segment.
 *
 * Positions are std::string positions (size_t): `npos` is the largest size_t,
 * and the arithmetic `lastSpec - 1` and `lastSpec - prevSpec - 1` wraps modulo
 * 2^64 as it does in the source.
 */
module TexturePaths {
  import opened Common

  /** The size_t range. */
  const SIZE_MOD: nat := 0x1_0000_0000_0000_0000

  /** std::string::npos, the largest size_t. */
  const NPOS: nat := SIZE_MOD - 1

  /** Unsigned subtraction on size_t: the difference, wrapped into [0, 2^64) when it is negative. */
  function SizeSub(a: nat, b: nat): (r: nat)
    requires a < SIZE_MOD && b < SIZE_MOD
    ensures r < SIZE_MOD
    ensures b <= a ==> r == a - b
    ensures a < b ==> r == a - b + SIZE_MOD
  {
    if b <= a then a - b else a - b + SIZE_MOD
  }

  /** The separators the source splits on, '\\' and '/'. */
  const SEPARATORS: set<char> := {'\\', '/'}

  predicate IsSeparator(c: char)
  {
    c in SEPARATORS
  }

  /** The last index below `n` whose character is in `chars`. */
  function LastIndexBelow(s: string, chars: set<char>, n: nat): (r: Option<nat>)
    requires n <= |s|
    ensures r.Some? ==> r.value < n && s[r.value] in chars && forall j :: r.value < j < n ==> s[j] !in chars
    ensures r.None? <==> forall j :: 0 <= j < n ==> s[j] !in chars
    decreases n
  {
    if n == 0 then None
    else if s[n - 1] in chars then Some(n - 1)
    else LastIndexBelow(s, chars, n - 1)
  }

  /**
   * std::string::find_last_of(chars, pos): the last index at or before `pos`
   * holding one of `chars` (a `pos` past the end searches the whole string);
   * None stands for npos.
   */
  function FindLastOf(s: string, chars: set<char>, pos: nat): (r: Option<nat>)
    ensures r.Some? ==>
              && r.value < |s| && r.value <= pos && s[r.value] in chars
              && forall j :: r.value < j < |s| && j <= pos ==> s[j] !in chars
    ensures r.None? <==> forall j :: 0 <= j < |s| && j <= pos ==> s[j] !in chars
  {
    LastIndexBelow(s, chars, if pos < |s| then pos + 1 else |s|)
  }

  /** A character of `chars` at `k`, and none after it up to `pos`: find_last_of answers `k`. */
  lemma FindLastOfIs(s: string, chars: set<char>, pos: nat, k: nat)
    requires k < |s| && k <= pos && s[k] in chars
    requires forall j :: k < j < |s| && j <= pos ==> s[j] !in chars
    ensures FindLastOf(s, chars, pos) == Some(k)
  {
    var r := FindLastOf(s, chars, pos);
    assert r.Some?;
  }

  /** The position of the last separator of `path`, as lastSpec combines lastBackslash and lastSlash. */
  function LastSpec(path: string): (r: Option<nat>)
    ensures r.Some? ==> r.value < |path| && IsSeparator(path[r.value])
  {
    var lastBackslash := FindLastOf(path, {'\\'}, NPOS);
    var lastSlash := FindLastOf(path, {'/'}, NPOS);
    if lastBackslash.None? then lastSlash
    else if lastSlash.None? then lastBackslash
    else Some(if lastSlash.value < lastBackslash.value then lastBackslash.value else lastSlash.value)
  }

  /** Combining the two searches finds the last separator of either kind. */
  lemma LastSpecIsLastSeparator(path: string)
    requires |path| <= NPOS
    ensures LastSpec(path) == FindLastOf(path, SEPARATORS, NPOS)
  {
    var both := FindLastOf(path, SEPARATORS, NPOS);
    var lastBackslash := FindLastOf(path, {'\\'}, NPOS);
    var lastSlash := FindLastOf(path, {'/'}, NPOS);
    if both.None? {
      assert lastBackslash.None? by {
        forall j | 0 <= j < |path| && j <= NPOS
          ensures path[j] !in {'\\'}
        {
          assert path[j] !in SEPARATORS;
        }
      }
      assert lastSlash.None? by {
        forall j | 0 <= j < |path| && j <= NPOS
          ensures path[j] !in {'/'}
        {
          assert path[j] !in SEPARATORS;
        }
      }
    } else {
      var k := both.value;
      forall j | k < j < |path|
        ensures path[j] != '/' && path[j] != '\\'
      {
        assert path[j] !in SEPARATORS;
      }
      if path[k] == '/' {
        FindLastOfIs(path, {'/'}, NPOS, k);
        if lastBackslash.Some? {
          assert lastBackslash.value < k;
        }
      } else {
        assert path[k] == '\\';
        FindLastOfIs(path, {'\\'}, NPOS, k);
        if lastSlash.Some? {
          assert lastSlash.value < k;
        }
      }
    }
  }

  /** std::string::substr(pos, count): at most `count` characters from `pos`. */
  function Substr(s: string, pos: nat, count: nat): (r: string)
    requires pos <= |s|
    ensures |r| <= count && pos + |r| <= |s| && r == s[pos..pos + |r|]
    ensures pos + count <= |s| ==> |r| == count
    ensures |s| < pos + count ==> r == s[pos..]
  {
    if pos + count <= |s| then s[pos..pos + count] else s[pos..]
  }

  /** `filename`: everything after the last separator, or the whole path when it has none. */
  function Filename(path: string): (r: string)
    ensures |r| <= |path| && path[|path| - |r|..] == r
    ensures LastSpec(path).None? ==> r == path
    ensures LastSpec(path).Some? ==> |r| == |path| - LastSpec(path).value - 1
  {
    match LastSpec(path)
    case None => path
    case Some(k) => path[k + 1..]
  }

  /** `parentDir` exactly as written: the search for the previous separator starts at `lastSpec - 1` in size_t. */
  function ParentDirAsWritten(path: string): (r: string)
    requires |path| <= NPOS
    ensures LastSpec(path).None? ==> r == ""
    ensures |r| <= |path|
  {
    match LastSpec(path)
    case None => ""
    case Some(lastSpec) =>
      match FindLastOf(path, SEPARATORS, SizeSub(lastSpec, 1))
      case None => Substr(path, 0, lastSpec)
      case Some(prevSpec) => Substr(path, prevSpec + 1, SizeSub(lastSpec, prevSpec + 1))
  }

  /**
   * `parentDir` as intended: the segment between the previous separator (or
   * the start) and the last one, empty when the last separator is the first
   * character.
   */
  function ParentDir(path: string): (r: string)
    ensures LastSpec(path).None? || LastSpec(path) == Some(0) ==> r == ""
  {
    match LastSpec(path)
    case None => ""
    case Some(lastSpec) =>
      if lastSpec == 0 then ""
      else
        match FindLastOf(path, SEPARATORS, lastSpec - 1)
        case None => path[..lastSpec]
        case Some(prevSpec) => path[prevSpec + 1..lastSpec]
  }

  /** The name looked up under the textures directory: "diffuse.png" is renamed after its directory. */
  function MappedName(filename: string, parentDir: string): (r: string)
    ensures filename != "diffuse.png" || parentDir == "" ==> r == filename
    ensures r == filename || (|r| >= 12 && r[..8] == "diffuse_" && r[|r| - 4..] == ".png")
  {
    if filename == "diffuse.png" && parentDir != "" then
      if parentDir == "helmet" then
        HelmetsName();
        "diffuse_helmets.png"
      else
        var r := "diffuse_" + parentDir + ".png";
        assert r[..8] == "diffuse_";
        assert r[|r| - 4..] == ".png";
        r
    else filename
  }

  /** The name "helmet" is mapped to, read as prefix, directory and suffix. */
  lemma HelmetsName()
    ensures var h := "diffuse_helmets.png";
            |h| == 19 && h[..8] == "diffuse_" && h[8..15] == "helmets" && h[15..] == ".png"
  {
  }

  /** The names derived from one material texture path. */
  datatype TextureNames = TextureNames(filename: string, parentDir: string, mappedName: string)

  predicate NoSeparator(s: string)
  {
    forall j :: 0 <= j < |s| ==> !IsSeparator(s[j])
  }

  /** `d` is a separator-free segment of `path` ending right before position `k`, preceded by a separator or the start. */
  predicate SegmentBefore(path: string, k: nat, d: string)
  {
    && |d| <= k < |path|
    && path[k - |d|..k] == d
    && (k == |d| || IsSeparator(path[k - |d| - 1]))
    && NoSeparator(d)
  }

  /**
   * What the texture loop derives from one material texture path: the file
   * name after the last separator, the separator-free directory segment before
   * it, and the lookup name.
   */
  predicate NamesSplitPath(path: string, r: TextureNames)
  {
    && NoSeparator(r.filename)
    && (LastSpec(path).None? ==> r.filename == path && r.parentDir == "")
    && (LastSpec(path).Some? ==>
          var k := LastSpec(path).value;
          && path == path[..k] + [path[k]] + r.filename
          && (k > 0 ==> SegmentBefore(path, k, r.parentDir)))
    && (r.filename == "diffuse.png" && r.parentDir != "" ==>
          r.mappedName == if r.parentDir == "helmet" then "diffuse_helmets.png" else "diffuse_" + r.parentDir + ".png")
    && (r.filename != "diffuse.png" || r.parentDir == "" ==> r.mappedName == r.filename)
  }

  /**
   * filename, parentDir and mappedName of a texture path, as the source
   * computes them; when the only separator is the first character, parentDir
   * comes out as the file name itself.
   */
  function NamesOf(path: string): (r: TextureNames)
    requires |path| <= NPOS
    ensures NamesSplitPath(path, r)
    ensures LastSpec(path) == Some(0) ==> r.parentDir == r.filename
  {
    FilenameSplits(path);
    ParentDirAsWrittenSplit(path);
    var filename := Filename(path);
    var parentDir := ParentDirAsWritten(path);
    TextureNames(filename, parentDir, MappedName(filename, parentDir))
  }

  /** The same names with the corrected parentDir, which is empty when the only separator comes first. */
  function NamesOfCorrected(path: string): (r: TextureNames)
    requires |path| <= NPOS
    ensures NamesSplitPath(path, r)
    ensures LastSpec(path) == Some(0) ==> r.parentDir == ""
  {
    FilenameSplits(path);
    ParentDirSplit(path);
    var filename := Filename(path);
    var parentDir := ParentDir(path);
    TextureNames(filename, parentDir, MappedName(filename, parentDir))
  }

  // ---------------------------------------------------------------------------
  // Properties

  /** The file name holds no separator, and the path is the file name after its last separator. */
  lemma FilenameSplits(path: string)
    requires |path| <= NPOS
    ensures NoSeparator(Filename(path))
    ensures LastSpec(path).None? ==> Filename(path) == path
    ensures LastSpec(path).Some? ==>
              var k := LastSpec(path).value;
              path == path[..k] + [path[k]] + Filename(path)
  {
    LastSpecIsLastSeparator(path);
    var spec := LastSpec(path);
    if spec.Some? {
      var k := spec.value;
      assert Filename(path) == path[k + 1..];
      TailAfterLast(path, k);
    } else {
      assert NoSeparator(path);
    }
  }

  /** What follows the last separator holds none, and completes the path. */
  lemma TailAfterLast(path: string, k: nat)
    requires k < |path|
    requires forall j :: k < j < |path| ==> path[j] !in SEPARATORS
    ensures NoSeparator(path[k + 1..])
    ensures path == path[..k] + [path[k]] + path[k + 1..]
  {
    var name := path[k + 1..];
    forall j | 0 <= j < |name|
      ensures !IsSeparator(name[j])
    {
      assert name[j] == path[k + 1 + j];
    }
  }

  /** The previous separator, when there is one, comes before the last one. */
  lemma PrevBeforeLast(path: string, k: nat, p: nat)
    requires LastSpec(path) == Some(k) && 0 < k && FindLastOf(path, SEPARATORS, k - 1) == Some(p)
    ensures p < k < |path| && IsSeparator(path[p])
    ensures forall j :: p < j < k ==> !IsSeparator(path[j])
  {
  }

  /** With a previous separator at p, the corrected segment is path[p+1..k]. */
  lemma CorrectedBetween(path: string, k: nat, p: nat)
    requires LastSpec(path) == Some(k) && 0 < k && FindLastOf(path, SEPARATORS, k - 1) == Some(p)
    ensures ParentDir(path) == path[p + 1..k]
  {
    PrevBeforeLast(path, k, p);
  }

  /** With a previous separator at p, the size_t arithmetic as written also cuts out path[p+1..k]. */
  lemma AsWrittenBetween(path: string, k: nat, p: nat)
    requires |path| <= NPOS
    requires LastSpec(path) == Some(k) && 0 < k && FindLastOf(path, SEPARATORS, k - 1) == Some(p)
    ensures ParentDirAsWritten(path) == path[p + 1..k]
  {
    PrevBeforeLast(path, k, p);
    assert FindLastOf(path, SEPARATORS, SizeSub(k, 1)) == Some(p) by {
      assert SizeSub(k, 1) == k - 1;
    }
    SubstrWithin(path, p + 1, SizeSub(k, p + 1), k);
  }

  /** A substr that ends inside the string is the plain slice. */
  lemma SubstrWithin(s: string, pos: nat, count: nat, end: nat)
    requires pos <= end <= |s| && count == end - pos
    ensures Substr(s, pos, count) == s[pos..end]
  {
  }

  /** Without a previous separator, both versions cut out path[..k]. */
  lemma FromStart(path: string, k: nat)
    requires |path| <= NPOS
    requires LastSpec(path) == Some(k) && 0 < k && FindLastOf(path, SEPARATORS, k - 1).None?
    ensures k < |path|
    ensures forall j :: 0 <= j < k ==> !IsSeparator(path[j])
    ensures ParentDir(path) == path[..k]
    ensures ParentDirAsWritten(path) == path[..k]
  {
    assert SizeSub(k, 1) == k - 1;
    assert ParentDirAsWritten(path) == Substr(path, 0, k);
  }

  /** When the only separator comes first, the code as written takes the file name as parentDir. */
  lemma AsWrittenLeading(path: string)
    requires |path| <= NPOS
    requires LastSpec(path) == Some(0)
    ensures ParentDirAsWritten(path) == Filename(path)
  {
    LastSpecIsLastSeparator(path);
    FindLastOfIs(path, SEPARATORS, NPOS, 0);
    assert SizeSub(0, 1) == NPOS;
    assert ParentDirAsWritten(path) == Substr(path, 1, NPOS);
  }

  /** The slice between the separators at p and k, seen as the segment ending at k. */
  lemma SegmentBetween(path: string, k: nat, p: nat)
    requires p < k < |path| && IsSeparator(path[p])
    requires forall j :: p < j < k ==> !IsSeparator(path[j])
    ensures SegmentBefore(path, k, path[p + 1..k])
  {
    var d := path[p + 1..k];
    assert k - |d| - 1 == p;
    assert path[k - |d|..k] == d;
  }

  /** The slice before the first separator at k, seen as the segment ending at k. */
  lemma SegmentFromStart(path: string, k: nat)
    requires k < |path|
    requires forall j :: 0 <= j < k ==> !IsSeparator(path[j])
    ensures SegmentBefore(path, k, path[..k])
  {
    assert path[k - k..k] == path[..k];
  }

  /** With a previous separator, the corrected parentDir is the segment between the two. */
  lemma CorrectedSegmentBetween(path: string, k: nat, p: nat)
    requires LastSpec(path) == Some(k) && 0 < k && FindLastOf(path, SEPARATORS, k - 1) == Some(p)
    ensures SegmentBefore(path, k, ParentDir(path))
  {
    PrevBeforeLast(path, k, p);
    CorrectedBetween(path, k, p);
    SegmentBetween(path, k, p);
  }

  /** Without a previous separator, the corrected parentDir is everything before the last one. */
  lemma CorrectedSegmentFromStart(path: string, k: nat)
    requires |path| <= NPOS
    requires LastSpec(path) == Some(k) && 0 < k && FindLastOf(path, SEPARATORS, k - 1).None?
    ensures SegmentBefore(path, k, ParentDir(path))
  {
    FromStart(path, k);
    SegmentFromStart(path, k);
  }

  /** With a previous separator, parentDir as written is the segment between the two. */
  lemma AsWrittenSegmentBetween(path: string, k: nat, p: nat)
    requires |path| <= NPOS
    requires LastSpec(path) == Some(k) && 0 < k && FindLastOf(path, SEPARATORS, k - 1) == Some(p)
    ensures SegmentBefore(path, k, ParentDirAsWritten(path))
  {
    PrevBeforeLast(path, k, p);
    AsWrittenBetween(path, k, p);
    SegmentBetween(path, k, p);
  }

  /** Without a previous separator, parentDir as written is everything before the last one. */
  lemma AsWrittenSegmentFromStart(path: string, k: nat)
    requires |path| <= NPOS
    requires LastSpec(path) == Some(k) && 0 < k && FindLastOf(path, SEPARATORS, k - 1).None?
    ensures SegmentBefore(path, k, ParentDirAsWritten(path))
  {
    FromStart(path, k);
    SegmentFromStart(path, k);
  }

  /** The corrected parentDir is the separator-free segment before the last separator, and empty when that comes first. */
  lemma ParentDirSplit(path: string)
    requires |path| <= NPOS
    ensures LastSpec(path).None? ==> ParentDir(path) == ""
    ensures LastSpec(path) == Some(0) ==> ParentDir(path) == ""
    ensures LastSpec(path).Some? && LastSpec(path).value > 0 ==>
              SegmentBefore(path, LastSpec(path).value, ParentDir(path))
  {
    var spec := LastSpec(path);
    if spec.Some? && spec.value > 0 {
      var k := spec.value;
      var prev := FindLastOf(path, SEPARATORS, k - 1);
      if prev.Some? {
        CorrectedSegmentBetween(path, k, prev.value);
      } else {
        CorrectedSegmentFromStart(path, k);
      }
    }
  }

  /**
   * parentDir as written is the same segment, except that when the only
   * separator comes first it is the file name.
   */
  lemma ParentDirAsWrittenSplit(path: string)
    requires |path| <= NPOS
    ensures LastSpec(path).None? ==> ParentDirAsWritten(path) == ""
    ensures LastSpec(path) == Some(0) ==> ParentDirAsWritten(path) == Filename(path)
    ensures LastSpec(path).Some? && LastSpec(path).value > 0 ==>
              SegmentBefore(path, LastSpec(path).value, ParentDirAsWritten(path))
  {
    var spec := LastSpec(path);
    if spec == Some(0) {
      AsWrittenLeading(path);
    } else if spec.Some? {
      var k := spec.value;
      var prev := FindLastOf(path, SEPARATORS, k - 1);
      if prev.Some? {
        AsWrittenSegmentBetween(path, k, prev.value);
      } else {
        AsWrittenSegmentFromStart(path, k);
      }
    }
  }

  /** The directory segment holds no separator. */
  lemma ParentDirHasNoSeparator(path: string)
    requires |path| <= NPOS
    ensures NoSeparator(ParentDir(path))
  {
    ParentDirSplit(path);
  }

  /**
   * The directory segment sits right before the last separator and is
   * preceded by a separator or the start of the path; without a separator it
   * is empty.
   */
  lemma ParentDirPrecedesLastSeparator(path: string)
    requires |path| <= NPOS
    ensures LastSpec(path).None? ==> ParentDir(path) == ""
    ensures LastSpec(path).Some? ==>
              var k := LastSpec(path).value;
              var d := ParentDir(path);
              && |d| <= k < |path|
              && path[k - |d|..k] == d
              && (k == |d| || IsSeparator(path[k - |d| - 1]))
  {
    ParentDirSplit(path);
  }

  /** Both versions of parentDir agree except when the only separator is the first character. */
  lemma ParentDirAgrees(path: string)
    requires |path| <= NPOS
    requires LastSpec(path) != Some(0)
    ensures ParentDirAsWritten(path) == ParentDir(path)
  {
    var spec := LastSpec(path);
    if spec.Some? {
      var k := spec.value;
      var prev := FindLastOf(path, SEPARATORS, k - 1);
      if prev.Some? {
        CorrectedBetween(path, k, prev.value);
        AsWrittenBetween(path, k, prev.value);
      } else {
        FromStart(path, k);
      }
    }
  }

  /** "/diffuse.png" has its only separator first, and its file name is "diffuse.png". */
  lemma LeadingSeparatorSplit()
    ensures LastSpec("/diffuse.png") == Some(0)
    ensures FindLastOf("/diffuse.png", SEPARATORS, NPOS) == Some(0)
    ensures Filename("/diffuse.png") == "diffuse.png"
  {
    var path := "/diffuse.png";
    LeadingSeparatorOnly();
    FindLastOfIs(path, SEPARATORS, NPOS, 0);
    FindLastOfIs(path, {'/'}, NPOS, 0);
    assert FindLastOf(path, {'\\'}, NPOS).None?;
    assert path[1..] == "diffuse.png";
  }

  /** Past its first character "/diffuse.png" holds no separator. */
  lemma LeadingSeparatorOnly()
    ensures var path := "/diffuse.png";
            path[0] == '/' && forall j :: 0 < j < |path| ==> path[j] != '/' && path[j] != '\\'
  {
  }

  /**
   * As written, a path whose only separator leads it ("/diffuse.png") gets
   * the file name itself as parentDir: `lastSpec - 1` wraps to npos, the
   * search finds the same separator again, and the size_t length wraps too;
   * the texture is then looked up as "diffuse_diffuse.png.png".
   */
  lemma LeadingSeparatorAsWritten()
    ensures ParentDirAsWritten("/diffuse.png") == "diffuse.png"
    ensures NamesOf("/diffuse.png") == TextureNames("diffuse.png", "diffuse.png", "diffuse_diffuse.png.png")
  {
    var path := "/diffuse.png";
    LeadingSeparatorSplit();
    ParentDirAsWrittenSplit(path);
    assert ParentDirAsWritten(path) == "diffuse.png";
    DiffuseUnderDiffuse();
  }

  /** "diffuse.png" under a directory of the same name is looked up as "diffuse_diffuse.png.png". */
  lemma DiffuseUnderDiffuse()
    ensures MappedName("diffuse.png", "diffuse.png") == "diffuse_diffuse.png.png"
  {
    assert "diffuse_" + "diffuse.png" + ".png" == "diffuse_diffuse.png.png";
  }

  /** With the corrected parentDir, "/diffuse.png" has no directory and keeps its name. */
  lemma LeadingSeparatorCorrected()
    ensures ParentDir("/diffuse.png") == ""
    ensures NamesOfCorrected("/diffuse.png") == TextureNames("diffuse.png", "", "diffuse.png")
  {
    LeadingSeparatorSplit();
  }

  /** The name is changed exactly for "diffuse.png" under a non-empty directory. */
  lemma MappedNameChanges(filename: string, parentDir: string)
    ensures MappedName(filename, parentDir) != filename <==> filename == "diffuse.png" && parentDir != ""
  {
    if filename == "diffuse.png" && parentDir != "" && parentDir != "helmet" {
      assert |MappedName(filename, parentDir)| > |filename|;
    }
  }

  /** Apart from "helmet", the directory can be read back from the mapped name. */
  lemma MappedNameRecoversDir(parentDir: string)
    requires parentDir != "" && parentDir != "helmet"
    ensures var m := MappedName("diffuse.png", parentDir);
            |m| == |parentDir| + 12 && m[8..|m| - 4] == parentDir
  {
    var m := MappedName("diffuse.png", parentDir);
    assert m == "diffuse_" + parentDir + ".png";
  }

  /** Two directories map to the same name only when they are "helmet" and "helmets". */
  lemma MappedNameInjective(d1: string, d2: string)
    requires d1 != "" && d2 != ""
    requires MappedName("diffuse.png", d1) == MappedName("diffuse.png", d2)
    ensures d1 == d2 || (d1 == "helmet" && d2 == "helmets") || (d1 == "helmets" && d2 == "helmet")
  {
    if d1 != "helmet" && d2 != "helmet" {
      MappedNameRecoversDir(d1);
      MappedNameRecoversDir(d2);
    } else if d1 == "helmet" && d2 != "helmet" {
      MappedNameRecoversDir(d2);
      HelmetsName();
    } else if d2 == "helmet" && d1 != "helmet" {
      MappedNameRecoversDir(d1);
      HelmetsName();
    }
  }
}
