/** `FileCollection.GenerateFileCollection`: the diff of one directory
    ("this side") against another ("the other side"). Every listed entry is
    tagged as excluded or not, entries of this side are paired by name with
    entries of the other side, and the result is filtered per view mode and
    per side. */
module FileCollections {
  import opened Wrappers
  import opened Text
  import opened Sequences
  import opened Options
  import opened DirectoryItems
  import Decimal

  /** `InternalFileItem`: a listed entry with the flags the diff sets. */
  datatype InternalFileItem = InternalFileItem(
    file: FileItem,
    excluded: bool,
    other: bool,
    hasOther: bool,
    overwrite: bool,
    getOverwritten: bool)

  /** What the platform lists for one directory: its files, then its
      sub-directories. */
  datatype Listing = Listing(files: seq<FileItem>, directories: seq<FileItem>)

  /** Whether a collection is a left (source → destination) view, a right
      (destination → source) view, both or neither. */
  datatype Side = Side(isLeft: bool, isRight: bool)

  /** `IsLeft` and `IsRight`: this directory is a source and the other a
      destination, or the other way round. */
  function SideOf(directory: DirectoryItem, otherDirectory: DirectoryItem,
                  sources: seq<DirectoryItem>, destinations: seq<DirectoryItem>): Side
  {
    Side(directory in sources && otherDirectory in destinations,
         directory in destinations && otherDirectory in sources)
  }

  /** The two collections of a pair see the same pair from opposite sides:
      swapping the directories swaps `IsLeft` and `IsRight`. */
  lemma SideOfSwapped(left: DirectoryItem, right: DirectoryItem,
                      sources: seq<DirectoryItem>, destinations: seq<DirectoryItem>)
    ensures SideOf(left, right, sources, destinations).isLeft == SideOf(right, left, sources, destinations).isRight
    ensures SideOf(left, right, sources, destinations).isRight == SideOf(right, left, sources, destinations).isLeft
    ensures left in sources && right in destinations ==> SideOf(left, right, sources, destinations).isLeft
  {
  }

  // ---------------------------------------------------------------------
  // Tagging

  /** Some pattern matches the name. `matches` is the wildcard matcher. */
  predicate MatchesAny(patterns: seq<string>, name: string, matches: (string, string) -> bool) {
    exists i :: 0 <= i < |patterns| && matches(patterns[i], name)
  }

  /** The exclusion rule: the name matches an exclusion pattern, or there are
      inclusion patterns and the name matches none of them. */
  predicate IsExcluded(name: string, policy: Policy, matches: (string, string) -> bool) {
    || MatchesAny(policy.exclusionPatterns, name, matches)
    || (|policy.inclusionPatterns| > 0 && !MatchesAny(policy.inclusionPatterns, name, matches))
  }

  /** A freshly created entry: no pairing flags set yet. */
  predicate Fresh(e: InternalFileItem) {
    !e.hasOther && !e.overwrite && !e.getOverwritten
  }

  /** The listed entries of one side as the diff creates them. */
  function Tag(items: seq<FileItem>, other: bool, policy: Policy, matches: (string, string) -> bool): (r: seq<InternalFileItem>)
    ensures |r| == |items|
    ensures forall i :: 0 <= i < |r| ==>
              && r[i].file == items[i] && r[i].other == other && Fresh(r[i])
              && r[i].excluded == IsExcluded(items[i].name, policy, matches)
  {
    seq(|items|, i requires 0 <= i < |items| =>
      InternalFileItem(items[i], IsExcluded(items[i].name, policy, matches), other, false, false, false))
  }

  /** The entries one side contributes: files, then directories when
      directories are included. */
  function Entries(listing: Listing, includeDirectories: bool): seq<FileItem> {
    listing.files + (if includeDirectories then listing.directories else [])
  }

  // ---------------------------------------------------------------------
  // The two comparers

  /** `FileItemEqualityComparer.Equals`: names equal after lower-casing. */
  predicate SameName(x: FileItem, y: FileItem) {
    Lower(x.name) == Lower(y.name)
  }

  /** `FileItemComparer.Compare`: the sign of the difference of the last
      write times. */
  function Compare(x: FileItem, y: FileItem): (r: int)
    ensures r == 0 <==> x.lastModified == y.lastModified
    ensures r > 0 <==> x.lastModified > y.lastModified
    ensures r < 0 <==> x.lastModified < y.lastModified
    ensures -1 <= r <= 1
  {
    if x.lastModified == y.lastModified then 0
    else if x.lastModified < y.lastModified then -1
    else 1
  }

  /** The comparer is antisymmetric, and the equality comparer is an
      equivalence. */
  lemma ComparersAreConsistent(x: FileItem, y: FileItem, z: FileItem)
    ensures Compare(x, y) == -Compare(y, x)
    ensures SameName(x, x)
    ensures SameName(x, y) == SameName(y, x)
    ensures SameName(x, y) && SameName(y, z) ==> SameName(x, z)
  {
  }

  // ---------------------------------------------------------------------
  // Pairing

  /** Position of the first entry of `pool` with the same name as `file`. */
  function FindFirst(file: FileItem, pool: seq<InternalFileItem>): (r: Option<nat>)
    ensures r.Some? ==> r.value < |pool| && SameName(file, pool[r.value].file)
    ensures r.Some? ==> forall k :: 0 <= k < r.value ==> !SameName(file, pool[k].file)
    ensures r.None? ==> forall k :: 0 <= k < |pool| ==> !SameName(file, pool[k].file)
    decreases |pool|
  {
    if |pool| == 0 then None
    else if SameName(file, pool[0].file) then Some(0)
    else
      match FindFirst(file, pool[1..])
      case None => None
      case Some(k) => Some(k + 1)
  }

  /** The flags an entry gets when paired with `twin`. */
  function Paired(e: InternalFileItem, twin: InternalFileItem): InternalFileItem {
    e.(overwrite := Compare(e.file, twin.file) > 0,
       getOverwritten := Compare(twin.file, e.file) > 0,
       hasOther := true)
  }

  /** One iteration of the pairing loop: the entry, the other-side entry it
      was paired with (if any), and the other-side list afterwards. */
  function MatchOne(e: InternalFileItem, pool: seq<InternalFileItem>): (r: (InternalFileItem, Option<InternalFileItem>, seq<InternalFileItem>))
    ensures r.1.None? ==> r.0 == e && r.2 == pool && forall k :: 0 <= k < |pool| ==> !SameName(e.file, pool[k].file)
    ensures r.1.Some? ==>
              && FindFirst(e.file, pool).Some?
              && r.1.value == pool[FindFirst(e.file, pool).value]
              && r.0 == Paired(e, r.1.value)
              && r.2 == RemoveAt(pool, FindFirst(e.file, pool).value)
  {
    match FindFirst(e.file, pool)
    case None => (e, None, pool)
    case Some(j) => (Paired(e, pool[j]), Some(pool[j]), RemoveAt(pool, j))
  }

  /** The outcome of the pairing loop: this side's entries with their flags,
      the other-side entries left unpaired, and each entry's twin. */
  datatype MatchResult = MatchResult(
    entries: seq<InternalFileItem>,
    remaining: seq<InternalFileItem>,
    twins: seq<Option<InternalFileItem>>)

  /** The twins that exist, in order. */
  function Matched(twins: seq<Option<InternalFileItem>>): (r: seq<InternalFileItem>)
    ensures |r| <= |twins|
    decreases |twins|
  {
    if |twins| == 0 then []
    else (if twins[0].Some? then [twins[0].value] else []) + Matched(twins[1..])
  }

  /** The pairing loop: every entry of this side takes the first other-side
      entry of the same name that is still unpaired, and removes it. */
  function MatchAll(entries: seq<InternalFileItem>, pool: seq<InternalFileItem>): (r: MatchResult)
    ensures |r.entries| == |entries| && |r.twins| == |entries|
    decreases |entries|
  {
    if |entries| == 0 then MatchResult([], pool, [])
    else
      var (e, twin, pool1) := MatchOne(entries[0], pool);
      var rest := MatchAll(entries[1..], pool1);
      MatchResult([e] + rest.entries, rest.remaining, [twin] + rest.twins)
  }

  /** No other-side entry is paired twice or lost: the unpaired entries and
      the twins together are exactly the other side, and the unpaired ones
      keep their order. */
  lemma {:induction false} MatchAllAccounts(entries: seq<InternalFileItem>, pool: seq<InternalFileItem>)
    ensures multiset(MatchAll(entries, pool).remaining) + multiset(Matched(MatchAll(entries, pool).twins)) == multiset(pool)
    ensures IsSubsequence(MatchAll(entries, pool).remaining, pool)
    decreases |entries|
  {
    if |entries| == 0 {
      SubsequenceReflexive(pool);
    } else {
      var (e, twin, pool1) := MatchOne(entries[0], pool);
      var rest := MatchAll(entries[1..], pool1);
      MatchAllAccounts(entries[1..], pool1);
      var r := MatchAll(entries, pool);
      assert r.twins == [twin] + rest.twins;
      assert r.twins[1..] == rest.twins;
      assert r.remaining == rest.remaining;
      var here := if twin.Some? then [twin.value] else [];
      assert Matched(r.twins) == here + Matched(rest.twins);
      if twin.Some? {
        var j := FindFirst(entries[0].file, pool).value;
        assert multiset(pool1) + multiset{pool[j]} == multiset(pool);
        RemoveAtIsSubsequence(pool, j);
        SubsequenceTransitive(rest.remaining, pool1, pool);
      }
    }
  }

  /** A paired entry carries the flags of the comparison with a same-named
      twin. */
  lemma {:induction false} MatchAllPaired(entries: seq<InternalFileItem>, pool: seq<InternalFileItem>, i: nat)
    requires i < |entries| && MatchAll(entries, pool).twins[i].Some?
    ensures MatchAll(entries, pool).entries[i] == Paired(entries[i], MatchAll(entries, pool).twins[i].value)
    ensures SameName(entries[i].file, MatchAll(entries, pool).twins[i].value.file)
    decreases i
  {
    var (e, twin, pool1) := MatchOne(entries[0], pool);
    var rest := MatchAll(entries[1..], pool1);
    var r := MatchAll(entries, pool);
    assert r.entries == [e] + rest.entries && r.twins == [twin] + rest.twins;
    if i > 0 {
      assert entries[i] == entries[1..][i - 1] && r.entries[i] == rest.entries[i - 1] && r.twins[i] == rest.twins[i - 1];
      MatchAllPaired(entries[1..], pool1, i - 1);
    }
  }

  /** An unpaired entry is unchanged, and no entry of the same name is left
      unpaired on the other side. */
  lemma {:induction false} MatchAllUnpaired(entries: seq<InternalFileItem>, pool: seq<InternalFileItem>, i: nat)
    requires i < |entries| && MatchAll(entries, pool).twins[i].None?
    ensures MatchAll(entries, pool).entries[i] == entries[i]
    ensures forall x :: x in MatchAll(entries, pool).remaining ==> !SameName(entries[i].file, x.file)
    decreases i
  {
    var (e, twin, pool1) := MatchOne(entries[0], pool);
    var rest := MatchAll(entries[1..], pool1);
    var r := MatchAll(entries, pool);
    assert r.entries == [e] + rest.entries && r.twins == [twin] + rest.twins;
    if i > 0 {
      assert entries[i] == entries[1..][i - 1] && r.entries[i] == rest.entries[i - 1] && r.twins[i] == rest.twins[i - 1];
      MatchAllUnpaired(entries[1..], pool1, i - 1);
    } else {
      MatchAllAccounts(entries[1..], pool1);
      assert forall x :: x in rest.remaining ==> x in multiset(pool);
    }
  }

  // ---------------------------------------------------------------------
  // The diff

  /** The pairing of this side's entries against the other side's. */
  function Diff(mine: seq<FileItem>, theirs: seq<FileItem>, policy: Policy, matches: (string, string) -> bool): MatchResult {
    MatchAll(Tag(mine, false, policy, matches), Tag(theirs, true, policy, matches))
  }

  /** The list before filtering: this side's entries, then the unpaired
      entries of the other side. */
  function Unfiltered(mine: seq<FileItem>, theirs: seq<FileItem>, policy: Policy, matches: (string, string) -> bool): seq<InternalFileItem> {
    var d := Diff(mine, theirs, policy, matches);
    d.entries + d.remaining
  }

  // The conditions the pending filter removes entries by.
  predicate Unchanged(e: InternalFileItem) { e.hasOther && !(e.overwrite || e.getOverwritten) }
  predicate Excluded(e: InternalFileItem) { e.excluded }
  predicate Newer(e: InternalFileItem) { e.overwrite }
  predicate Older(e: InternalFileItem) { e.getOverwritten }
  predicate Unpaired(e: InternalFileItem) { !e.hasOther }
  predicate FromOtherSide(e: InternalFileItem) { e.other }
  predicate NeitherPairedNorOther(e: InternalFileItem) { !(e.hasOther || e.other) }
  predicate NotExcluded(e: InternalFileItem) { !e.excluded }
  predicate ThisSide(e: InternalFileItem) { !e.other }

  /** The stages of the pending filter, one per `RemoveAll` the source runs
      under the given policy and side, in the source's order. */
  function PendingStages(policy: Policy, side: Side): seq<InternalFileItem -> bool> {
    [Unchanged, Excluded]
    + (if side.isLeft then LeftStages(policy) else [])
    + (if side.isRight then RightStages(policy) else [])
  }

  function LeftStages(policy: Policy): seq<InternalFileItem -> bool> {
    (if policy.newerOnLeft == ExistingFileOptions.Skip then [Newer] else [])
    + (if policy.newerOnRight == ExistingFileOptions.Skip then [Older] else [])
    + (if policy.leftButNotRight == NonExistingFileOptions.Skip then [Unpaired] else [])
    + [FromOtherSide]
  }

  function RightStages(policy: Policy): seq<InternalFileItem -> bool> {
    (if policy.newerOnRight == ExistingFileOptions.Skip then [Newer] else [])
    + (if policy.newerOnLeft == ExistingFileOptions.Skip then [Older] else [])
    + (if policy.leftButNotRight == NonExistingFileOptions.Skip then [FromOtherSide] else [])
    + [NeitherPairedNorOther]
  }

  /** `GenerateFileCollection(fileViewOptions)`. The pending filter is chosen
      by the argument, falling back to the stored view; the excluded-only
      filter is chosen by the stored view alone. */
  function GenerateFileCollection(here: Listing, there: Listing, policy: Policy, side: Side,
                                  fileViewOptions: Option<FileViewOptions>,
                                  matches: (string, string) -> bool): seq<InternalFileItem>
  {
    var all := Unfiltered(Entries(here, policy.includeDirectories), Entries(there, policy.includeDirectories), policy, matches);
    if fileViewOptions.GetOr(policy.fileView) == ViewPendingFiles then RemoveEach(all, PendingStages(policy, side))
    else if policy.fileView == ViewExcludedFiles then Keep(all, Excluded)
    else all
  }

  // ---------------------------------------------------------------------
  // Which entries the pending view keeps

  /** An entry is pending, stated per rule rather than per filter stage. */
  predicate IsPending(e: InternalFileItem, policy: Policy, side: Side) {
    // Paired entries that are neither newer nor older, and excluded entries, never show.
    && (e.hasOther ==> e.overwrite || e.getOverwritten)
    && !e.excluded
    // The left view shows what would be copied to the right.
    && (side.isLeft ==>
          && !e.other
          && (e.overwrite ==> policy.newerOnLeft == ExistingFileOptions.Replace)
          && (e.getOverwritten ==> policy.newerOnRight == ExistingFileOptions.Replace)
          && (!e.hasOther ==> policy.leftButNotRight == NonExistingFileOptions.Copy))
    // The right view shows what would be overwritten or created there.
    && (side.isRight ==>
          && (e.hasOther || e.other)
          && (e.overwrite ==> policy.newerOnRight == ExistingFileOptions.Replace)
          && (e.getOverwritten ==> policy.newerOnLeft == ExistingFileOptions.Replace)
          && (e.other ==> policy.leftButNotRight == NonExistingFileOptions.Copy))
  }

  lemma SurvivesPendingStages(e: InternalFileItem, policy: Policy, side: Side)
    ensures SurvivesAll(e, PendingStages(policy, side)) == IsPending(e, policy, side)
  {
    var first: seq<InternalFileItem -> bool> := [Unchanged, Excluded];
    var left := if side.isLeft then LeftStages(policy) else [];
    var right := if side.isRight then RightStages(policy) else [];
    SurvivesAllAppend(e, first + left, right);
    SurvivesAllAppend(e, first, left);
    SurvivesAllAppend(e, [Unchanged], [Excluded]);
    assert first == [Unchanged] + [Excluded];
    SurvivesSingle(e, Unchanged);
    SurvivesSingle(e, Excluded);
    SurvivesLeftStages(e, policy);
    SurvivesRightStages(e, policy);
  }

  lemma SurvivesLeftStages(e: InternalFileItem, policy: Policy)
    ensures SurvivesAll(e, LeftStages(policy)) == (
              && (policy.newerOnLeft == ExistingFileOptions.Skip ==> !e.overwrite)
              && (policy.newerOnRight == ExistingFileOptions.Skip ==> !e.getOverwritten)
              && (policy.leftButNotRight == NonExistingFileOptions.Skip ==> e.hasOther)
              && !e.other)
  {
    var a: seq<InternalFileItem -> bool> := if policy.newerOnLeft == ExistingFileOptions.Skip then [Newer] else [];
    var b: seq<InternalFileItem -> bool> := if policy.newerOnRight == ExistingFileOptions.Skip then [Older] else [];
    var c: seq<InternalFileItem -> bool> := if policy.leftButNotRight == NonExistingFileOptions.Skip then [Unpaired] else [];
    var d: seq<InternalFileItem -> bool> := [FromOtherSide];
    assert LeftStages(policy) == a + b + c + d;
    SurvivesSingle(e, Newer);
    SurvivesSingle(e, Older);
    SurvivesSingle(e, Unpaired);
    SurvivesSingle(e, FromOtherSide);
    SurvivesAllAppend(e, a + b + c, d);
    SurvivesAllAppend(e, a + b, c);
    SurvivesAllAppend(e, a, b);
  }

  lemma SurvivesRightStages(e: InternalFileItem, policy: Policy)
    ensures SurvivesAll(e, RightStages(policy)) == (
              && (policy.newerOnRight == ExistingFileOptions.Skip ==> !e.overwrite)
              && (policy.newerOnLeft == ExistingFileOptions.Skip ==> !e.getOverwritten)
              && (policy.leftButNotRight == NonExistingFileOptions.Skip ==> !e.other)
              && (e.hasOther || e.other))
  {
    var a: seq<InternalFileItem -> bool> := if policy.newerOnRight == ExistingFileOptions.Skip then [Newer] else [];
    var b: seq<InternalFileItem -> bool> := if policy.newerOnLeft == ExistingFileOptions.Skip then [Older] else [];
    var c: seq<InternalFileItem -> bool> := if policy.leftButNotRight == NonExistingFileOptions.Skip then [FromOtherSide] else [];
    var d: seq<InternalFileItem -> bool> := [NeitherPairedNorOther];
    assert RightStages(policy) == a + b + c + d;
    SurvivesSingle(e, Newer);
    SurvivesSingle(e, Older);
    SurvivesSingle(e, FromOtherSide);
    SurvivesSingle(e, NeitherPairedNorOther);
    SurvivesAllAppend(e, a + b + c, d);
    SurvivesAllAppend(e, a + b, c);
    SurvivesAllAppend(e, a, b);
  }

  /** The chain of `RemoveAll` calls of the pending filter keeps exactly the
      pending entries, in their original order. */
  lemma PendingFilterKeepsPending(all: seq<InternalFileItem>, policy: Policy, side: Side)
    ensures RemoveEach(all, PendingStages(policy, side)) == Keep(all, e => IsPending(e, policy, side))
    ensures IsSubsequence(RemoveEach(all, PendingStages(policy, side)), all)
  {
    var stages := PendingStages(policy, side);
    RemoveEachIsKeep(all, stages);
    forall e | e in all
      ensures SurvivesAll(e, stages) == IsPending(e, policy, side)
    {
      SurvivesPendingStages(e, policy, side);
    }
    KeepSame(all, e => SurvivesAll(e, stages), e => IsPending(e, policy, side));
    KeepIsSubsequence(all, e => IsPending(e, policy, side));
  }

  // ---------------------------------------------------------------------
  // Properties of the unfiltered list

  /** Every flag combination the diff produces is consistent: an entry is
      never both newer and older, only paired entries are newer or older,
      and other-side entries are never paired. */
  predicate FlagsConsistent(e: InternalFileItem) {
    && !(e.overwrite && e.getOverwritten)
    && (e.overwrite || e.getOverwritten ==> e.hasOther)
    && !(e.hasOther && e.other)
  }

  /** This side's entry `i` holds file `i`, is not from the other side, is
      tagged by the exclusion rule and carries consistent flags. */
  lemma DiffEntry(mine: seq<FileItem>, theirs: seq<FileItem>, policy: Policy, matches: (string, string) -> bool, i: nat)
    requires i < |mine|
    ensures var e := Diff(mine, theirs, policy, matches).entries;
            && i < |e| && e[i].file == mine[i] && !e[i].other
            && e[i].excluded == IsExcluded(e[i].file.name, policy, matches) && FlagsConsistent(e[i])
  {
    var mineTagged := Tag(mine, false, policy, matches);
    var theirsTagged := Tag(theirs, true, policy, matches);
    var d := Diff(mine, theirs, policy, matches);
    if d.twins[i].Some? {
      MatchAllPaired(mineTagged, theirsTagged, i);
    } else {
      MatchAllUnpaired(mineTagged, theirsTagged, i);
    }
  }

  /** An unpaired other-side entry is an untouched tagged entry of the other
      side. */
  lemma DiffRemaining(mine: seq<FileItem>, theirs: seq<FileItem>, policy: Policy, matches: (string, string) -> bool,
                      e: InternalFileItem)
    requires e in Diff(mine, theirs, policy, matches).remaining
    ensures e.other && Fresh(e) && e.excluded == IsExcluded(e.file.name, policy, matches)
  {
    var theirsTagged := Tag(theirs, true, policy, matches);
    var d := Diff(mine, theirs, policy, matches);
    MatchAllAccounts(Tag(mine, false, policy, matches), theirsTagged);
    assert e in multiset(d.remaining);
    assert e in multiset(theirsTagged);
  }

  /** The unfiltered list is this side's entries in listing order, then the
      unpaired other-side entries in their order; its length is the two
      listings' lengths less the number of pairs; every entry is tagged by
      the exclusion rule and carries consistent flags. */
  lemma UnfilteredShape(mine: seq<FileItem>, theirs: seq<FileItem>, policy: Policy, matches: (string, string) -> bool)
    ensures var d := Diff(mine, theirs, policy, matches);
            var all := Unfiltered(mine, theirs, policy, matches);
            && |all| == |mine| + |theirs| - |Matched(d.twins)|
            && all[..|mine|] == d.entries && all[|mine|..] == d.remaining
            && (forall i :: 0 <= i < |mine| ==> all[i].file == mine[i] && !all[i].other)
            && (forall i :: |mine| <= i < |all| ==> all[i].other)
            && IsSubsequence(d.remaining, Tag(theirs, true, policy, matches))
            && (forall e :: e in all ==> e.excluded == IsExcluded(e.file.name, policy, matches))
            && (forall e :: e in all ==> FlagsConsistent(e))
  {
    var mineTagged := Tag(mine, false, policy, matches);
    var theirsTagged := Tag(theirs, true, policy, matches);
    var d := Diff(mine, theirs, policy, matches);
    var all := Unfiltered(mine, theirs, policy, matches);
    MatchAllAccounts(mineTagged, theirsTagged);
    assert |multiset(d.remaining)| + |multiset(Matched(d.twins))| == |multiset(theirsTagged)|;
    forall i | 0 <= i < |mine|
      ensures all[i].file == mine[i] && !all[i].other
      ensures all[i].excluded == IsExcluded(all[i].file.name, policy, matches)
      ensures FlagsConsistent(all[i])
    {
      assert all[i] == d.entries[i];
      DiffEntry(mine, theirs, policy, matches, i);
    }
    forall i | |mine| <= i < |all|
      ensures all[i].other && Fresh(all[i])
      ensures all[i].excluded == IsExcluded(all[i].file.name, policy, matches)
    {
      assert all[i] == d.remaining[i - |mine|];
      DiffRemaining(mine, theirs, policy, matches, all[i]);
    }
  }

  /** What the flags of this side's entries mean: an entry is paired exactly
      when it has a twin, the twin is a same-named other-side entry, and
      `Overwrite`/`GetOverwritten` say strictly newer/strictly older. An
      unpaired entry has no same-named entry left on the other side. */
  lemma PairingMeaning(mine: seq<FileItem>, theirs: seq<FileItem>, policy: Policy, matches: (string, string) -> bool, i: nat)
    requires i < |mine|
    ensures var d := Diff(mine, theirs, policy, matches);
            var e := d.entries[i];
            && (e.hasOther <==> d.twins[i].Some?)
            && (d.twins[i].Some? ==>
                  && d.twins[i].value in Tag(theirs, true, policy, matches)
                  && SameName(mine[i], d.twins[i].value.file)
                  && (e.overwrite <==> mine[i].lastModified > d.twins[i].value.file.lastModified)
                  && (e.getOverwritten <==> mine[i].lastModified < d.twins[i].value.file.lastModified))
            && (d.twins[i].None? ==> forall x :: x in d.remaining ==> !SameName(mine[i], x.file))
  {
    var mineTagged := Tag(mine, false, policy, matches);
    var theirsTagged := Tag(theirs, true, policy, matches);
    var d := Diff(mine, theirs, policy, matches);
    if d.twins[i].Some? {
      MatchAllPaired(mineTagged, theirsTagged, i);
      MatchAllAccounts(mineTagged, theirsTagged);
      MatchedContains(d.twins, i);
      assert d.twins[i].value in multiset(theirsTagged);
    } else {
      MatchAllUnpaired(mineTagged, theirsTagged, i);
    }
  }

  lemma {:induction false} MatchedContains(twins: seq<Option<InternalFileItem>>, i: nat)
    requires i < |twins| && twins[i].Some?
    ensures twins[i].value in Matched(twins)
    decreases i
  {
    if i > 0 {
      assert twins[i] == twins[1..][i - 1];
      MatchedContains(twins[1..], i - 1);
    }
  }

  // ---------------------------------------------------------------------
  // The three views

  /** In pending mode (by the argument, or by the stored view when there is
      no argument) the result keeps exactly the pending entries of the
      unfiltered list, in order. */
  lemma PendingView(here: Listing, there: Listing, policy: Policy, side: Side,
                    fileViewOptions: Option<FileViewOptions>, matches: (string, string) -> bool)
    requires fileViewOptions.GetOr(policy.fileView) == ViewPendingFiles
    ensures var all := Unfiltered(Entries(here, policy.includeDirectories), Entries(there, policy.includeDirectories), policy, matches);
            var r := GenerateFileCollection(here, there, policy, side, fileViewOptions, matches);
            && r == Keep(all, e => IsPending(e, policy, side))
            && IsSubsequence(r, all)
            && (forall e :: e in r <==> e in all && IsPending(e, policy, side))
  {
    var all := Unfiltered(Entries(here, policy.includeDirectories), Entries(there, policy.includeDirectories), policy, matches);
    PendingFilterKeepsPending(all, policy, side);
  }

  /** Outside pending mode, the stored view alone decides: the excluded-only
      view keeps exactly the excluded entries, even when the argument asks
      for all files; any other view returns the unfiltered list. */
  lemma NonPendingViews(here: Listing, there: Listing, policy: Policy, side: Side,
                        fileViewOptions: Option<FileViewOptions>, matches: (string, string) -> bool)
    requires fileViewOptions.GetOr(policy.fileView) != ViewPendingFiles
    ensures var all := Unfiltered(Entries(here, policy.includeDirectories), Entries(there, policy.includeDirectories), policy, matches);
            var r := GenerateFileCollection(here, there, policy, side, fileViewOptions, matches);
            && (policy.fileView == ViewExcludedFiles ==>
                  r == Keep(all, Excluded) && forall e :: e in r <==> e in all && e.excluded)
            && (policy.fileView != ViewExcludedFiles ==> r == all)
  {
  }

  /** In the pending left view, nothing from the other side shows; newer
      entries show only when newer-on-left is Replace, older ones only when
      newer-on-right is Replace, unpaired ones only when left-but-not-right
      is Copy; and excluded or unchanged entries never show. */
  lemma PendingLeftView(here: Listing, there: Listing, policy: Policy, side: Side,
                        fileViewOptions: Option<FileViewOptions>, matches: (string, string) -> bool)
    requires fileViewOptions.GetOr(policy.fileView) == ViewPendingFiles && side.isLeft
    ensures forall e :: e in GenerateFileCollection(here, there, policy, side, fileViewOptions, matches) ==>
              && !e.other && !e.excluded
              && (e.hasOther ==> e.overwrite || e.getOverwritten)
              && (e.overwrite ==> policy.newerOnLeft == ExistingFileOptions.Replace)
              && (e.getOverwritten ==> policy.newerOnRight == ExistingFileOptions.Replace)
              && (!e.hasOther ==> policy.leftButNotRight == NonExistingFileOptions.Copy)
  {
    PendingView(here, there, policy, side, fileViewOptions, matches);
  }

  /** In the pending right view, every entry is paired or from the other
      side; other-side entries show only when left-but-not-right is Copy,
      and the newer/older rules are mirrored. */
  lemma PendingRightView(here: Listing, there: Listing, policy: Policy, side: Side,
                         fileViewOptions: Option<FileViewOptions>, matches: (string, string) -> bool)
    requires fileViewOptions.GetOr(policy.fileView) == ViewPendingFiles && side.isRight
    ensures forall e :: e in GenerateFileCollection(here, there, policy, side, fileViewOptions, matches) ==>
              && (e.hasOther || e.other) && !e.excluded
              && (e.hasOther ==> e.overwrite || e.getOverwritten)
              && (e.other ==> policy.leftButNotRight == NonExistingFileOptions.Copy)
              && (e.overwrite ==> policy.newerOnRight == ExistingFileOptions.Replace)
              && (e.getOverwritten ==> policy.newerOnLeft == ExistingFileOptions.Replace)
  {
    PendingView(here, there, policy, side, fileViewOptions, matches);
  }

  /** With no name in common between the two sides, the pending view of a
      directory that is only the left one is this side's non-excluded
      entries when left-but-not-right is Copy, and empty when it is Skip. */
  lemma DisjointPendingLeft(here: Listing, there: Listing, policy: Policy, side: Side, matches: (string, string) -> bool)
    requires side.isLeft && !side.isRight
    requires forall x, y :: x in Entries(here, policy.includeDirectories) && y in Entries(there, policy.includeDirectories) ==> !SameName(x, y)
    ensures var mine := Tag(Entries(here, policy.includeDirectories), false, policy, matches);
            var r := GenerateFileCollection(here, there, policy, side, Some(ViewPendingFiles), matches);
            && (policy.leftButNotRight == NonExistingFileOptions.Copy ==> r == Keep(mine, NotExcluded))
            && (policy.leftButNotRight == NonExistingFileOptions.Skip ==> r == [])
  {
    var mineItems := Entries(here, policy.includeDirectories);
    var theirsItems := Entries(there, policy.includeDirectories);
    var mine := Tag(mineItems, false, policy, matches);
    var theirs := Tag(theirsItems, true, policy, matches);
    PendingView(here, there, policy, side, Some(ViewPendingFiles), matches);
    MatchAllDisjoint(mine, theirs);
    assert Unfiltered(mineItems, theirsItems, policy, matches) == mine + theirs;
    PendingOfUnpaired(mine, theirs, policy, side);
  }

  /** The pending left view of unpaired entries followed by other-side
      entries. */
  lemma PendingOfUnpaired(mine: seq<InternalFileItem>, theirs: seq<InternalFileItem>, policy: Policy, side: Side)
    requires side.isLeft && !side.isRight
    requires forall e :: e in mine ==> !e.other && Fresh(e)
    requires forall e :: e in theirs ==> e.other
    ensures policy.leftButNotRight == NonExistingFileOptions.Copy ==>
              Keep(mine + theirs, e => IsPending(e, policy, side)) == Keep(mine, NotExcluded)
    ensures policy.leftButNotRight == NonExistingFileOptions.Skip ==>
              Keep(mine + theirs, e => IsPending(e, policy, side)) == []
  {
    var pending := e => IsPending(e, policy, side);
    KeepAppend(mine, theirs, pending);
    KeepNone(theirs, pending);
    if policy.leftButNotRight == NonExistingFileOptions.Copy {
      assert forall e :: e in mine ==> pending(e) == NotExcluded(e);
      KeepSame(mine, pending, NotExcluded);
    } else {
      KeepNone(mine, pending);
    }
  }

  /** When no name is shared, the pairing loop pairs nothing. */
  lemma {:induction false} MatchAllDisjoint(entries: seq<InternalFileItem>, pool: seq<InternalFileItem>)
    requires forall i, k :: 0 <= i < |entries| && 0 <= k < |pool| ==> !SameName(entries[i].file, pool[k].file)
    ensures MatchAll(entries, pool).entries == entries && MatchAll(entries, pool).remaining == pool
    decreases |entries|
  {
    if |entries| > 0 {
      assert forall i :: 0 <= i < |entries[1..]| ==> entries[1..][i] == entries[i + 1];
      MatchAllDisjoint(entries[1..], pool);
      assert entries == [entries[0]] + entries[1..];
    }
  }

  /** `CountLabel`: "Count: " and the number of entries not from the other
      side. */
  function CountLabel(files: seq<InternalFileItem>): string {
    "Count: " + Decimal.NatToString(CountWhere(files, ThisSide))
  }

  /** The label counts every entry of a pending left view, and never more
      entries than the list holds. */
  lemma CountLabelOfPendingLeft(here: Listing, there: Listing, policy: Policy, side: Side, matches: (string, string) -> bool)
    requires side.isLeft
    ensures var r := GenerateFileCollection(here, there, policy, side, Some(ViewPendingFiles), matches);
            CountLabel(r) == "Count: " + Decimal.NatToString(|r|)
  {
    var r := GenerateFileCollection(here, there, policy, side, Some(ViewPendingFiles), matches);
    PendingLeftView(here, there, policy, side, Some(ViewPendingFiles), matches);
    KeepAll(r, ThisSide);
  }

  // ---------------------------------------------------------------------
  // A worked example

  /** No exclusion pattern matches anything. */
  predicate NoMatch(name: string, pattern: string) { false }

  /** The source holds `a.txt` and `b.txt`, the destination `b.txt` and
      `c.txt`, with `b.txt` identical on both sides. With newer-on-left
      Replace and left-but-not-right Skip, neither pending view lists
      anything: `a.txt` exists only on the left, so the Skip rule hides it. */
  lemma WorkedExample(policy: Policy)
    requires policy.includeDirectories == false && policy.exclusionPatterns == [] && policy.inclusionPatterns == []
    requires policy.newerOnLeft == ExistingFileOptions.Replace && policy.leftButNotRight == NonExistingFileOptions.Skip
    ensures var source := Listing([FileItem("a.txt", "S\\a.txt", 5, false), FileItem("b.txt", "S\\b.txt", 1, false)], []);
            var destination := Listing([FileItem("b.txt", "D\\b.txt", 1, false), FileItem("c.txt", "D\\c.txt", 1, false)], []);
            && GenerateFileCollection(source, destination, policy, Side(true, false), Some(ViewPendingFiles), NoMatch) == []
            && GenerateFileCollection(destination, source, policy, Side(false, true), Some(ViewPendingFiles), NoMatch) == []
  {
    var a := FileItem("a.txt", "S\\a.txt", 5, false);
    var b := FileItem("b.txt", "S\\b.txt", 1, false);
    var b' := FileItem("b.txt", "D\\b.txt", 1, false);
    var c := FileItem("c.txt", "D\\c.txt", 1, false);
    assert Lower("a.txt") == "a.txt" && Lower("b.txt") == "b.txt" && Lower("c.txt") == "c.txt";
    assert !SameName(a, b') && !SameName(a, c) && SameName(b, b') && !SameName(b, c);
    assert !SameName(b', a) && SameName(b', b) && !SameName(c, a) && !SameName(c, b);
    NothingPending(Listing([a, b], []), Listing([b', c], []), policy, Side(true, false));
    NothingPending(Listing([b', c], []), Listing([a, b], []), policy, Side(false, true));
  }

  /** One side of the worked example: every entry of the unfiltered list is
      hidden by some rule. */
  lemma NothingPending(here: Listing, there: Listing, policy: Policy, side: Side)
    requires ExampleSide(here, there, policy, side)
    ensures GenerateFileCollection(here, there, policy, side, Some(ViewPendingFiles), NoMatch) == []
  {
    assert Entries(here, false) == here.files && Entries(there, false) == there.files;
    var all := Unfiltered(here.files, there.files, policy, NoMatch);
    UnfilteredShape(here.files, there.files, policy, NoMatch);
    PendingView(here, there, policy, side, Some(ViewPendingFiles), NoMatch);
    forall i | 0 <= i < |all|
      ensures !IsPending(all[i], policy, side)
    {
      if i < |here.files| {
        ExampleEntryHidden(here, there, policy, side, i);
      }
    }
    KeepNone(all, e => IsPending(e, policy, side));
  }

  /** The shape the worked example has on either side: two files a side, one
      shared name, at the same time, and left-but-not-right Skip. */
  predicate ExampleSide(here: Listing, there: Listing, policy: Policy, side: Side) {
    && policy.includeDirectories == false && policy.exclusionPatterns == [] && policy.inclusionPatterns == []
    && policy.leftButNotRight == NonExistingFileOptions.Skip
    && |here.files| == 2 && |there.files| == 2
    && (side == Side(true, false) || side == Side(false, true))
    && var (s, t) := if side.isLeft then (1, 0) else (0, 1);
       && here.files[s].lastModified == there.files[t].lastModified
       && (forall i, k :: 0 <= i < 2 && 0 <= k < 2 ==> (SameName(here.files[i], there.files[k]) <==> i == s && k == t))
  }

  lemma ExampleEntryHidden(here: Listing, there: Listing, policy: Policy, side: Side, i: nat)
    requires ExampleSide(here, there, policy, side) && i < |here.files|
    ensures !IsPending(Unfiltered(here.files, there.files, policy, NoMatch)[i], policy, side)
  {
    var d := Diff(here.files, there.files, policy, NoMatch);
    var theirs := Tag(there.files, true, policy, NoMatch);
    PairingMeaning(here.files, there.files, policy, NoMatch, i);
    UnfilteredShape(here.files, there.files, policy, NoMatch);
    if d.twins[i].Some? {
      var k :| 0 <= k < |theirs| && theirs[k] == d.twins[i].value;
      assert d.twins[i].value.file == there.files[k];
    }
  }
}
