/** Path normalisation helpers of the `Utilities.FileSystem` class.
    `Path.GetFullPath` and `Path.GetFileName` are platform calls and enter as
    function parameters. */
module FileSystem {
  import opened Wrappers
  import opened Text

  /** `Path.DirectorySeparatorChar` and `Path.AltDirectorySeparatorChar`. */
  const Separators: set<char> := {'\\', '/'}

  /** `NormalizePath`: null and empty paths come back unchanged; any other path
      is made absolute by `fullPath`, stripped of trailing separators and
      lower-cased. */
  function NormalizePath(path: Option<string>, fullPath: string -> string): (r: Option<string>)
    ensures path.None? ==> r.None?
    ensures path == Some([]) ==> r == path
    ensures path.Some? && |path.value| > 0 ==>
              && r.Some?
              && IsLowerCase(r.value)
              && (|r.value| > 0 ==> r.value[|r.value| - 1] !in Separators)
              && |r.value| <= |fullPath(path.value)|
              && r.value == Lower(fullPath(path.value)[..|r.value|])
              && forall k :: |r.value| <= k < |fullPath(path.value)| ==> fullPath(path.value)[k] in Separators
  {
    match path
    case None => None
    case Some(p) =>
      if |p| == 0 then path
      else
        var trimmed := TrimEnd(fullPath(p), Separators);
        LowerIsLowerCase(trimmed);
        Some(Lower(trimmed))
  }

  /** Two paths whose full forms differ only in letter case normalise to the
      same string. */
  lemma NormalizePathIgnoresCase(a: string, b: string, fullPath: string -> string)
    requires |a| > 0 && |b| > 0
    requires Lower(fullPath(a)) == Lower(fullPath(b))
    ensures NormalizePath(Some(a), fullPath) == NormalizePath(Some(b), fullPath)
  {
    LowerTrimEndCommute(fullPath(a), Separators);
    LowerTrimEndCommute(fullPath(b), Separators);
  }

  /** A drive root loses its separator: "C:\" normalises to "c:". */
  lemma NormalizeDriveRoot(fullPath: string -> string)
    requires fullPath("C:\\") == "C:\\"
    ensures NormalizePath(Some("C:\\"), fullPath) == Some("c:")
  {
    assert TrimEnd("C:\\", Separators) == "C:";
    assert TrimEnd("C:", Separators) == "C:";
    assert Lower("C:") == "c:";
  }

  /** `NormalizeFileName`: the lower-cased file name, or null for a null path. */
  function NormalizeFileName(path: Option<string>, fileName: string -> string): (r: Option<string>)
    ensures r.Some? <==> path.Some?
    ensures path.Some? ==> IsLowerCase(r.value) && |r.value| == |fileName(path.value)|
  {
    match path
    case None => None
    case Some(p) =>
      LowerIsLowerCase(fileName(p));
      Some(Lower(fileName(p)))
  }
}
