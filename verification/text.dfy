/** String primitives of the .NET base library that the deployment code relies
    on, written out over `seq<char>`: invariant lower-casing, `TrimEnd`,
    ordinal `Replace` and `Split` with string separators. */
module Text {

  /** `Environment.NewLine` on the Windows platform the program targets. */
  const NewLine: string := "\r\n"

  // ---------------------------------------------------------------------
  // Case

  predicate IsUpper(c: char) {
    'A' <= c <= 'Z'
  }

  /** Invariant lower-casing of one character (ASCII letters only). */
  function LowerChar(c: char): char {
    if IsUpper(c) then (c as int + 32) as char else c
  }

  /** `ToLowerInvariant`, character by character. */
  function Lower(s: string): string {
    seq(|s|, i requires 0 <= i < |s| => LowerChar(s[i]))
  }

  predicate IsLowerCase(s: string) {
    forall i :: 0 <= i < |s| ==> !IsUpper(s[i])
  }

  lemma LowerIsLowerCase(s: string)
    ensures IsLowerCase(Lower(s))
    ensures |Lower(s)| == |s|
  {
  }

  lemma LowerOfLowerCase(s: string)
    requires IsLowerCase(s)
    ensures Lower(s) == s
  {
  }

  // ---------------------------------------------------------------------
  // Occurrences

  predicate StartsWith(s: string, p: string) {
    |p| <= |s| && s[..|p|] == p
  }

  /** `p` occurs in `s` starting at index `k`. */
  predicate OccursAt(s: string, p: string, k: int) {
    0 <= k && k + |p| <= |s| && s[k..k + |p|] == p
  }

  predicate Contains(s: string, p: string) {
    exists k :: 0 <= k <= |s| && OccursAt(s, p, k)
  }

  /** Number of non-overlapping occurrences of `p` in `s`, found left to right. */
  function Count(s: string, p: string): nat
    requires |p| > 0
    decreases |s|
  {
    if |s| == 0 then 0
    else if StartsWith(s, p) then 1 + Count(s[|p|..], p)
    else Count(s[1..], p)
  }

  // ---------------------------------------------------------------------
  // TrimEnd

  /** `TrimEnd(chars)`: drops every trailing character that is in `chars`. */
  function TrimEnd(s: string, chars: set<char>): (r: string)
    ensures |r| <= |s| && r == s[..|r|]
    ensures |r| > 0 ==> r[|r| - 1] !in chars
    ensures forall i :: |r| <= i < |s| ==> s[i] in chars
    decreases |s|
  {
    if |s| > 0 && s[|s| - 1] in chars then TrimEnd(s[..|s| - 1], chars) else s
  }

  predicate IsLetter(c: char) {
    IsUpper(c) || 'a' <= c <= 'z'
  }

  /** Lower-casing commutes with trimming characters that are not letters. */
  lemma {:induction false} LowerTrimEndCommute(s: string, chars: set<char>)
    requires forall c :: c in chars ==> !IsLetter(c)
    ensures Lower(TrimEnd(s, chars)) == TrimEnd(Lower(s), chars)
    decreases |s|
  {
    if |s| > 0 {
      var last := s[|s| - 1];
      assert Lower(s)[|s| - 1] == LowerChar(last);
      assert LowerChar(last) in chars <==> last in chars by {
        if IsUpper(last) {
          assert IsLetter(LowerChar(last));
        }
      }
      if last in chars {
        assert Lower(s)[..|s| - 1] == Lower(s[..|s| - 1]);
        LowerTrimEndCommute(s[..|s| - 1], chars);
      }
    }
  }

  // ---------------------------------------------------------------------
  // Replace

  /** Ordinal `String.Replace(target, replacement)`: every non-overlapping occurrence of
      `target`, scanning left to right, is replaced by `replacement`. */
  function Replace(s: string, target: string, replacement: string): string
    requires |target| > 0
    decreases |s|
  {
    if |s| == 0 then []
    else if StartsWith(s, target) then replacement + Replace(s[|target|..], target, replacement)
    else [s[0]] + Replace(s[1..], target, replacement)
  }

  /** A string in which `target` does not occur is returned unchanged. */
  lemma {:induction false} ReplaceAbsent(s: string, target: string, replacement: string)
    requires |target| > 0
    requires !Contains(s, target)
    ensures Replace(s, target, replacement) == s
    decreases |s|
  {
    if |s| > 0 {
      assert !OccursAt(s, target, 0);
      assert !StartsWith(s, target);
      assert !Contains(s[1..], target) by {
        forall k | OccursAt(s[1..], target, k)
          ensures false
        {
          assert s[1..][k..k + |target|] == s[k + 1..k + 1 + |target|];
          assert OccursAt(s, target, k + 1);
        }
      }
      ReplaceAbsent(s[1..], target, replacement);
    }
  }

  /** Replacing a string by itself changes nothing. */
  lemma {:induction false} ReplaceByItself(s: string, target: string)
    requires |target| > 0
    ensures Replace(s, target, target) == s
    decreases |s|
  {
    if |s| > 0 {
      if StartsWith(s, target) {
        ReplaceByItself(s[|target|..], target);
        assert s == target + s[|target|..];
      } else {
        ReplaceByItself(s[1..], target);
        assert s == [s[0]] + s[1..];
      }
    }
  }

  lemma MulSucc(c: int, d: int)
    ensures (c + 1) * d == c * d + d
  {
  }

  /** Every counted occurrence grows or shrinks the string by the difference
      of the two lengths. */
  lemma {:induction false} ReplaceLength(s: string, target: string, replacement: string)
    requires |target| > 0
    ensures |Replace(s, target, replacement)| == |s| + Count(s, target) * (|replacement| - |target|)
    decreases |s|
  {
    if |s| > 0 {
      var d := |replacement| - |target|;
      if StartsWith(s, target) {
        var rest := s[|target|..];
        var c := Count(rest, target);
        ReplaceLength(rest, target, replacement);
        assert Replace(s, target, replacement) == replacement + Replace(rest, target, replacement);
        assert Count(s, target) == c + 1;
        assert |s| == |target| + |rest|;
        MulSucc(c, d);
      } else {
        ReplaceLength(s[1..], target, replacement);
        assert Replace(s, target, replacement) == [s[0]] + Replace(s[1..], target, replacement);
        assert Count(s, target) == Count(s[1..], target);
      }
    }
  }

  // ---------------------------------------------------------------------
  // Split and Join

  predicate NonEmptySeparators(seps: seq<string>) {
    forall i :: 0 <= i < |seps| ==> |seps[i]| > 0
  }

  /** Length of the first separator, in array order, that `s` starts with;
      0 when none does. This is how `String.Split(string[], ...)` chooses a
      separator at each position. */
  function MatchLength(s: string, seps: seq<string>): (k: nat)
    ensures k <= |s|
  {
    if |seps| == 0 then 0
    else if |seps[0]| > 0 && StartsWith(s, seps[0]) then |seps[0]|
    else MatchLength(s, seps[1..])
  }

  /** `String.Split(seps, StringSplitOptions.None)`: the pieces between
      separator matches, scanning left to right. */
  function Split(s: string, seps: seq<string>): (r: seq<string>)
    requires NonEmptySeparators(seps)
    ensures |r| >= 1
    decreases |s|
  {
    if |s| == 0 then [[]]
    else
      var k := MatchLength(s, seps);
      if k > 0 then [[]] + Split(s[k..], seps)
      else
        var rest := Split(s[1..], seps);
        [[s[0]] + rest[0]] + rest[1..]
  }

  /** `String.Join(sep, parts)`. */
  function Join(parts: seq<string>, sep: string): string
    decreases |parts|
  {
    if |parts| == 0 then []
    else if |parts| == 1 then parts[0]
    else parts[0] + sep + Join(parts[1..], sep)
  }

  /** The concatenation of all parts. */
  function Flatten(parts: seq<string>): string
    decreases |parts|
  {
    if |parts| == 0 then [] else parts[0] + Flatten(parts[1..])
  }

  /** `StringSplitOptions.RemoveEmptyEntries`: the non-empty parts, in order. */
  function RemoveEmpty(parts: seq<string>): (r: seq<string>)
    ensures forall i :: 0 <= i < |r| ==> |r[i]| > 0
    ensures forall x :: x in r <==> x in parts && |x| > 0
    ensures |r| <= |parts|
    decreases |parts|
  {
    if |parts| == 0 then []
    else if |parts[0]| == 0 then RemoveEmpty(parts[1..])
    else [parts[0]] + RemoveEmpty(parts[1..])
  }

  lemma {:induction false} FlattenRemoveEmpty(parts: seq<string>)
    ensures Flatten(RemoveEmpty(parts)) == Flatten(parts)
    decreases |parts|
  {
    if |parts| > 0 {
      FlattenRemoveEmpty(parts[1..]);
    }
  }

  lemma MatchLengthSingle(s: string, sep: string)
    requires |sep| > 0
    ensures MatchLength(s, [sep]) == (if StartsWith(s, sep) then |sep| else 0)
  {
  }

  lemma JoinConsChar(c: char, first: string, rest: seq<string>, sep: string)
    ensures Join([[c] + first] + rest, sep) == [c] + Join([first] + rest, sep)
  {
    if |rest| > 0 {
      assert ([[c] + first] + rest)[1..] == rest;
      assert ([first] + rest)[1..] == rest;
    }
  }

  /** Joining the pieces with the separator gives back the split string. */
  lemma {:induction false} SplitJoin(s: string, sep: string)
    requires |sep| > 0
    ensures Join(Split(s, [sep]), sep) == s
    decreases |s|
  {
    if |s| > 0 {
      MatchLengthSingle(s, sep);
      if StartsWith(s, sep) {
        SplitJoin(s[|sep|..], sep);
        SplitJoinAtSeparator(s, sep);
      } else {
        SplitJoin(s[1..], sep);
        SplitJoinAtChar(s, sep);
      }
    }
  }

  lemma SplitJoinAtSeparator(s: string, sep: string)
    requires |sep| > 0 && |s| > 0 && StartsWith(s, sep)
    requires Join(Split(s[|sep|..], [sep]), sep) == s[|sep|..]
    ensures Join(Split(s, [sep]), sep) == s
  {
    MatchLengthSingle(s, sep);
    var tail := s[|sep|..];
    var rest := Split(tail, [sep]);
    assert Split(s, [sep]) == [[]] + rest;
    JoinAfterEmpty(rest, sep);
    assert Join([[]] + rest, sep) == sep + tail;
    assert sep + tail == s by {
      assert s[..|sep|] == sep;
      assert s[..|sep|] + s[|sep|..] == s;
    }
  }

  lemma SplitJoinAtChar(s: string, sep: string)
    requires |sep| > 0 && |s| > 0 && !StartsWith(s, sep)
    requires Join(Split(s[1..], [sep]), sep) == s[1..]
    ensures Join(Split(s, [sep]), sep) == s
  {
    MatchLengthSingle(s, sep);
    var rest := Split(s[1..], [sep]);
    assert Split(s, [sep]) == [[s[0]] + rest[0]] + rest[1..];
    JoinConsChar(s[0], rest[0], rest[1..], sep);
    assert [rest[0]] + rest[1..] == rest;
    assert s == [s[0]] + s[1..];
  }

  lemma JoinAfterEmpty(rest: seq<string>, sep: string)
    requires |rest| > 0
    ensures Join([[]] + rest, sep) == sep + Join(rest, sep)
  {
    assert ([[]] + rest)[1..] == rest;
  }

  /** There is one more piece than there are separator occurrences. */
  lemma {:induction false} SplitCount(s: string, sep: string)
    requires |sep| > 0
    ensures |Split(s, [sep])| == Count(s, sep) + 1
    decreases |s|
  {
    if |s| > 0 {
      MatchLengthSingle(s, sep);
      if StartsWith(s, sep) {
        SplitCount(s[|sep|..], sep);
      } else {
        SplitCount(s[1..], sep);
      }
    }
  }

  /** The first piece is a prefix of the split string. */
  lemma {:induction false} SplitFirstIsPrefix(s: string, seps: seq<string>)
    requires NonEmptySeparators(seps)
    ensures |Split(s, seps)[0]| <= |s|
    ensures Split(s, seps)[0] == s[..|Split(s, seps)[0]|]
    decreases |s|
  {
    if |s| > 0 && MatchLength(s, seps) == 0 {
      SplitFirstIsPrefix(s[1..], seps);
      var rest := Split(s[1..], seps);
      assert Split(s, seps)[0] == [s[0]] + rest[0];
      assert rest[0] == s[1..][..|rest[0]|];
      assert [s[0]] + rest[0] == s[..|rest[0]| + 1];
    }
  }

  /** No piece contains the separator. */
  lemma {:induction false} SplitPiecesFree(s: string, sep: string)
    requires |sep| > 0
    ensures forall i :: 0 <= i < |Split(s, [sep])| ==> !Contains(Split(s, [sep])[i], sep)
    decreases |s|
  {
    if |s| > 0 {
      MatchLengthSingle(s, sep);
      if StartsWith(s, sep) {
        SplitPiecesFree(s[|sep|..], sep);
        var rest := Split(s[|sep|..], [sep]);
        assert Split(s, [sep]) == [[]] + rest;
        forall i | 0 <= i < |Split(s, [sep])|
          ensures !Contains(Split(s, [sep])[i], sep)
        {
          if i > 0 {
            assert Split(s, [sep])[i] == rest[i - 1];
          }
        }
      } else {
        var rest := Split(s[1..], [sep]);
        SplitPiecesFree(s[1..], sep);
        SplitFirstIsPrefix(s[1..], [sep]);
        var head := [s[0]] + rest[0];
        assert head == s[..|head|];
        assert !Contains(head, sep) by {
          forall k | 0 <= k <= |head|
            ensures !OccursAt(head, sep, k)
          {
            if 0 < k && k + |sep| <= |head| {
              assert head[k..k + |sep|] == rest[0][k - 1..k - 1 + |sep|];
              assert !OccursAt(rest[0], sep, k - 1);
            }
          }
        }
        forall i | 0 <= i < |Split(s, [sep])|
          ensures !Contains(Split(s, [sep])[i], sep)
        {
          if i > 0 {
            assert Split(s, [sep])[i] == rest[i];
          }
        }
      }
    }
  }

  /** A string without the separator is a single piece. */
  lemma {:induction false} SplitWithoutSeparator(s: string, sep: string)
    requires |sep| > 0 && !Contains(s, sep)
    ensures Split(s, [sep]) == [s]
    decreases |s|
  {
    if |s| > 0 {
      MatchLengthSingle(s, sep);
      assert !OccursAt(s, sep, 0);
      assert |sep| <= |s| ==> s[..|sep|] == s[0..|sep|];
      assert !Contains(s[1..], sep) by {
        forall k | 0 <= k <= |s[1..]| ensures !OccursAt(s[1..], sep, k) {
          if OccursAt(s[1..], sep, k) {
            assert s[k + 1..k + 1 + |sep|] == s[1..][k..k + |sep|];
            assert OccursAt(s, sep, k + 1);
          }
        }
      }
      SplitWithoutSeparator(s[1..], sep);
      assert [s[0]] + s[1..] == s;
    }
  }

  /** A piece followed by the separator splits off as the first piece, when
      no occurrence of the separator starts inside the piece. */
  lemma {:induction false} SplitPrefix(a: string, sep: string, b: string)
    requires |sep| > 0
    requires forall p :: 0 <= p < |a| ==> !StartsWith((a + sep + b)[p..], sep)
    ensures Split(a + sep + b, [sep]) == [a] + Split(b, [sep])
    decreases |a|
  {
    var s := a + sep + b;
    MatchLengthSingle(s, sep);
    if |a| == 0 {
      assert s == sep + b && StartsWith(s, sep);
      assert s[|sep|..] == b;
    } else {
      assert s[0..] == s;
      assert s[1..] == a[1..] + sep + b;
      forall p | 0 <= p < |a[1..]| ensures !StartsWith((a[1..] + sep + b)[p..], sep) {
        assert (a[1..] + sep + b)[p..] == s[p + 1..];
      }
      SplitPrefix(a[1..], sep, b);
      assert [s[0]] + a[1..] == a;
    }
  }

  // ---------------------------------------------------------------------
  // Line-break splitting (the separator array {"\n", "\r\n", "\r"})

  const LineBreaks: seq<string> := ["\n", "\r\n", "\r"]

  predicate IsLineBreakChar(c: char) {
    c == '\n' || c == '\r'
  }

  /** `s` without its line-break characters. */
  function StripLineBreaks(s: string): string
    decreases |s|
  {
    if |s| == 0 then []
    else if IsLineBreakChar(s[0]) then StripLineBreaks(s[1..])
    else [s[0]] + StripLineBreaks(s[1..])
  }

  lemma LineBreaksNonEmpty()
    ensures NonEmptySeparators(LineBreaks)
  {
  }

  lemma LineBreakMatch(s: string)
    requires |s| > 0
    ensures MatchLength(s, LineBreaks) > 0 <==> IsLineBreakChar(s[0])
    ensures forall j :: 0 <= j < MatchLength(s, LineBreaks) ==> IsLineBreakChar(s[j])
  {
    assert LineBreaks[1..] == ["\r\n", "\r"];
    assert LineBreaks[1..][1..] == ["\r"];
    if s[0] == '\n' {
      assert StartsWith(s, "\n");
    } else if |s| >= 2 && s[0] == '\r' && s[1] == '\n' {
      assert s[..2] == "\r\n";
      assert MatchLength(s, LineBreaks) == 2;
    } else if s[0] == '\r' {
      assert s[..1] == "\r";
      assert !StartsWith(s, "\n");
      assert !StartsWith(s, "\r\n");
      assert StartsWith(s, "\r");
      assert MatchLength(s, LineBreaks) == MatchLength(s, LineBreaks[1..]);
      assert MatchLength(s, LineBreaks[1..]) == MatchLength(s, LineBreaks[1..][1..]);
    } else {
      assert !StartsWith(s, "\n");
      assert !StartsWith(s, "\r\n");
      assert !StartsWith(s, "\r");
      assert MatchLength(s, ["\r"]) == MatchLength(s, ["\r"][1..]);
    }
  }

  /** Splitting on line breaks keeps every other character, in order, and
      leaves no line-break character in any piece. */
  lemma {:induction false} SplitLineBreaks(s: string)
    ensures NonEmptySeparators(LineBreaks)
    ensures Flatten(Split(s, LineBreaks)) == StripLineBreaks(s)
    ensures forall i, j :: 0 <= i < |Split(s, LineBreaks)| && 0 <= j < |Split(s, LineBreaks)[i]| ==> !IsLineBreakChar(Split(s, LineBreaks)[i][j])
    decreases |s|
  {
    LineBreaksNonEmpty();
    if |s| > 0 {
      LineBreakMatch(s);
      var k := MatchLength(s, LineBreaks);
      if k > 0 {
        var rest := Split(s[k..], LineBreaks);
        SplitLineBreaks(s[k..]);
        assert Split(s, LineBreaks) == [[]] + rest;
        assert Flatten([[]] + rest) == Flatten(rest) by {
          assert ([[]] + rest)[1..] == rest;
        }
        StripLeadingLineBreaks(s, k);
        forall i, j | 0 <= i < |Split(s, LineBreaks)| && 0 <= j < |Split(s, LineBreaks)[i]|
          ensures !IsLineBreakChar(Split(s, LineBreaks)[i][j])
        {
          assert i > 0;
          assert Split(s, LineBreaks)[i] == rest[i - 1];
        }
      } else {
        var rest := Split(s[1..], LineBreaks);
        SplitLineBreaks(s[1..]);
        var r := Split(s, LineBreaks);
        assert r == [[s[0]] + rest[0]] + rest[1..];
        assert Flatten(r) == [s[0]] + Flatten(rest) by {
          assert r[1..] == rest[1..];
          assert [rest[0]] + rest[1..] == rest;
          assert Flatten(rest) == rest[0] + Flatten(rest[1..]);
        }
        forall i, j | 0 <= i < |r| && 0 <= j < |r[i]|
          ensures !IsLineBreakChar(r[i][j])
        {
          if i == 0 {
            if j > 0 {
              assert r[0][j] == rest[0][j - 1];
            }
          } else {
            assert r[i] == rest[i];
          }
        }
      }
    }
  }

  /** The text between single line-break characters: a reference reading
      of "the lines of `s`" that knows nothing of separator strings. */
  function BreakPieces(s: string): (r: seq<string>)
    ensures |r| >= 1
    decreases |s|
  {
    if |s| == 0 then [[]]
    else
      var rest := BreakPieces(s[1..]);
      if IsLineBreakChar(s[0]) then [[]] + rest
      else [[s[0]] + rest[0]] + rest[1..]
  }

  /** The non-empty lines do not change when leading break characters go. */
  lemma {:induction false} SkipBreakPieces(s: string, k: nat)
    requires k <= |s|
    requires forall j :: 0 <= j < k ==> IsLineBreakChar(s[j])
    ensures RemoveEmpty(BreakPieces(s)) == RemoveEmpty(BreakPieces(s[k..]))
    decreases k
  {
    if k > 0 {
      var rest := BreakPieces(s[1..]);
      assert BreakPieces(s) == [[]] + rest;
      assert ([[]] + rest)[1..] == rest;
      assert s[1..][k - 1..] == s[k..];
      SkipBreakPieces(s[1..], k - 1);
    }
  }

  /** Sequences of pieces with the same first piece and the same non-empty
      later pieces have the same non-empty pieces. */
  lemma RemoveEmptyAgree(x: seq<string>, y: seq<string>)
    requires |x| >= 1 && |y| >= 1 && x[0] == y[0]
    requires RemoveEmpty(x[1..]) == RemoveEmpty(y[1..])
    ensures RemoveEmpty(x) == RemoveEmpty(y)
  {
  }

  /** Splitting on the separator array agrees with `BreakPieces` on the first
      piece and on the non-empty later pieces: "\r\n" only ever adds an
      empty piece. */
  lemma {:induction false} SplitBreakPiecesAgree(s: string)
    ensures NonEmptySeparators(LineBreaks)
    ensures Split(s, LineBreaks)[0] == BreakPieces(s)[0]
    ensures RemoveEmpty(Split(s, LineBreaks)[1..]) == RemoveEmpty(BreakPieces(s)[1..])
    decreases |s|
  {
    LineBreaksNonEmpty();
    if |s| > 0 {
      LineBreakMatch(s);
      var k := MatchLength(s, LineBreaks);
      if k > 0 {
        var split := Split(s[k..], LineBreaks);
        assert Split(s, LineBreaks) == [[]] + split;
        assert ([[]] + split)[1..] == split;
        var pieces := BreakPieces(s[1..]);
        assert BreakPieces(s) == [[]] + pieces;
        assert ([[]] + pieces)[1..] == pieces;
        SplitBreakPiecesAgree(s[k..]);
        RemoveEmptyAgree(split, BreakPieces(s[k..]));
        assert s[1..][k - 1..] == s[k..];
        SkipBreakPieces(s[1..], k - 1);
      } else {
        var split := Split(s[1..], LineBreaks);
        var pieces := BreakPieces(s[1..]);
        SplitBreakPiecesAgree(s[1..]);
        assert Split(s, LineBreaks) == [[s[0]] + split[0]] + split[1..];
        assert BreakPieces(s) == [[s[0]] + pieces[0]] + pieces[1..];
      }
    }
  }

  /** With empty entries removed, splitting on the separator array gives the
      non-empty lines: every maximal run of non-break characters, in order. */
  lemma SplitLineBreaksIsLines(s: string)
    ensures NonEmptySeparators(LineBreaks)
    ensures RemoveEmpty(Split(s, LineBreaks)) == RemoveEmpty(BreakPieces(s))
  {
    SplitBreakPiecesAgree(s);
    RemoveEmptyAgree(Split(s, LineBreaks), BreakPieces(s));
  }

  lemma {:induction false} StripLeadingLineBreaks(s: string, k: nat)
    requires k <= |s|
    requires forall j :: 0 <= j < k ==> IsLineBreakChar(s[j])
    ensures StripLineBreaks(s) == StripLineBreaks(s[k..])
    decreases k
  {
    if k > 0 {
      assert s[1..][k - 1..] == s[k..];
      StripLeadingLineBreaks(s[1..], k - 1);
    }
  }
}
