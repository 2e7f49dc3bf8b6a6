/** `DirectoryPair`: one source directory against one destination
    directory, with the two file collections that look at the pair from
    either side, and the two display names. */
module DirectoryPairs {
  import opened Wrappers
  import opened Text
  import opened DirectoryItems
  import opened FileCollections
  import opened Extensions

  /** A pair, with an object identity: pairs are reused by reference when
      the directory lists change. */
  datatype DirectoryPair = DirectoryPair(id: nat, left: DirectoryItem, right: DirectoryItem)

  /** What a `FileCollection` is built on: its directory and the other one. */
  datatype CollectionView = CollectionView(directory: DirectoryItem, otherDirectory: DirectoryItem)

  function LeftFileCollection(p: DirectoryPair): CollectionView {
    CollectionView(p.left, p.right)
  }

  function RightFileCollection(p: DirectoryPair): CollectionView {
    CollectionView(p.right, p.left)
  }

  /** The two collections see the pair from opposite sides: a pair of a
      source and a destination gives a left view and a right view, and in
      general the left view's `IsLeft` is the right view's `IsRight`. */
  lemma CollectionsAreMirrored(p: DirectoryPair, sources: seq<DirectoryItem>, destinations: seq<DirectoryItem>)
    ensures var l := LeftFileCollection(p);
            var r := RightFileCollection(p);
            && SideOf(l.directory, l.otherDirectory, sources, destinations).isLeft == SideOf(r.directory, r.otherDirectory, sources, destinations).isRight
            && SideOf(l.directory, l.otherDirectory, sources, destinations).isRight == SideOf(r.directory, r.otherDirectory, sources, destinations).isLeft
            && (p.left in sources && p.right in destinations ==>
                  SideOf(l.directory, l.otherDirectory, sources, destinations).isLeft &&
                  SideOf(r.directory, r.otherDirectory, sources, destinations).isRight)
  {
    SideOfSwapped(p.left, p.right, sources, destinations);
  }

  /** Character 8645, the up-down arrows of the long name. */
  const UpDownArrows: char := 8645 as char

  /** Character 8644, the left-right arrows of the short name. */
  const LeftRightArrows: char := 8644 as char

  /** A null string interpolates as empty. */
  function Shown(s: Option<string>): string {
    s.GetOr([])
  }

  /** `Name`: the two resolved paths on separate lines around the arrows. */
  function Name(leftPath: Option<string>, rightPath: Option<string>): (r: string)
    ensures |r| == |Shown(leftPath)| + |Shown(rightPath)| + 2 * |NewLine| + 1
  {
    Shown(leftPath) + NewLine + [UpDownArrows] + NewLine + Shown(rightPath)
  }

  /** In a text without a line break, no line break starts before the one
      appended to it. */
  lemma NoEarlierLineBreak(l: string, tail: string)
    requires !Contains(l, NewLine)
    ensures forall p :: 0 <= p < |l| ==> !StartsWith((l + NewLine + tail)[p..], NewLine)
  {
    var s := l + NewLine + tail;
    forall p | 0 <= p < |l| ensures !StartsWith(s[p..], NewLine) {
      if p + 1 < |l| {
        assert s[p..][..2] == l[p..p + 2];
        assert !OccursAt(l, NewLine, p);
      } else {
        assert s[p..][1] == '\r';
      }
    }
  }

  /** When neither path holds a line break, the lines of the name are the
      left path, the arrows and the right path: the name reads back. */
  lemma NameLines(leftPath: Option<string>, rightPath: Option<string>)
    requires !Contains(Shown(leftPath), NewLine) && !Contains(Shown(rightPath), NewLine)
    ensures Lines(Name(leftPath, rightPath), false) == [Shown(leftPath), [UpDownArrows], Shown(rightPath)]
  {
    var l, r := Shown(leftPath), Shown(rightPath);
    var tail := [UpDownArrows] + NewLine + r;
    assert Name(leftPath, rightPath) == l + NewLine + tail;
    NoEarlierLineBreak(l, tail);
    SplitPrefix(l, NewLine, tail);
    assert !Contains([UpDownArrows], NewLine);
    NoEarlierLineBreak([UpDownArrows], r);
    SplitPrefix([UpDownArrows], NewLine, r);
    SplitWithoutSeparator(r, NewLine);
  }

  /** The directory's own name when it exists, else empty. The existence
      test and `DirectoryInfo.Name` are platform calls. */
  function DisplayName(path: Option<string>, directoryExists: string -> bool, directoryName: string -> string): string {
    if path.Some? && directoryExists(path.value) then directoryName(path.value) else []
  }

  /** `ShortName`: empty for a disabled item; otherwise the two directory
      names around the left-right arrows. */
  function ShortName(enabled: bool, leftPath: Option<string>, rightPath: Option<string>,
                     directoryExists: string -> bool, directoryName: string -> string): (r: string)
    ensures !enabled <==> r == []
    ensures enabled ==>
              var ln := DisplayName(leftPath, directoryExists, directoryName);
              var rn := DisplayName(rightPath, directoryExists, directoryName);
              && |r| == |ln| + 3 + |rn|
              && r[..|ln|] == ln && r[|ln|..|ln| + 3] == [' ', LeftRightArrows, ' '] && r[|ln| + 3..] == rn
  {
    if !enabled then []
    else
      DisplayName(leftPath, directoryExists, directoryName) + [' ', LeftRightArrows, ' ']
      + DisplayName(rightPath, directoryExists, directoryName)
  }

  /** A left directory that does not exist shows as empty, so the short
      name starts with the arrows. */
  lemma ShortNameMissingDirectories(leftPath: Option<string>, rightPath: Option<string>,
                                    directoryExists: string -> bool, directoryName: string -> string)
    requires leftPath.None? || !directoryExists(leftPath.value)
    ensures ShortName(true, leftPath, rightPath, directoryExists, directoryName)[..3] == [' ', LeftRightArrows, ' ']
  {
  }
}
