/** The `Lines` string extension. */
module Extensions {
  import opened Text

  /** `s.Lines(options)`: `s` split on `Environment.NewLine`; with
      `removeEmpty` (`StringSplitOptions.RemoveEmptyEntries`) the empty pieces
      are dropped. */
  function Lines(s: string, removeEmpty: bool): (r: seq<string>)
    ensures !removeEmpty ==> Join(r, NewLine) == s
    ensures !removeEmpty ==> |r| == Count(s, NewLine) + 1
    ensures forall i :: 0 <= i < |r| ==> !Contains(r[i], NewLine)
    ensures removeEmpty ==> forall i :: 0 <= i < |r| ==> |r[i]| > 0
    ensures removeEmpty ==> Flatten(r) == Flatten(Lines(s, false))
  {
    var pieces := Split(s, [NewLine]);
    SplitJoin(s, NewLine);
    SplitCount(s, NewLine);
    SplitPiecesFree(s, NewLine);
    FlattenRemoveEmpty(pieces);
    if removeEmpty then RemoveEmpty(pieces) else pieces
  }

  /** Appending a line break adds exactly one line. */
  lemma {:induction false} CountAppendNewLine(s: string)
    ensures Count(s + NewLine, NewLine) == Count(s, NewLine) + 1
    decreases |s|
  {
    if |s| == 0 {
      assert s + NewLine == NewLine;
      assert NewLine[2..] == [];
    } else if |s| == 1 {
      assert !StartsWith(s + NewLine, NewLine) by {
        assert (s + NewLine)[1] == '\r';
      }
      assert (s + NewLine)[1..] == NewLine;
      assert NewLine[2..] == [];
    } else {
      assert (s + NewLine)[..2] == s[..2];
      if StartsWith(s, NewLine) {
        assert (s + NewLine)[2..] == s[2..] + NewLine;
        CountAppendNewLine(s[2..]);
      } else {
        assert (s + NewLine)[1..] == s[1..] + NewLine;
        CountAppendNewLine(s[1..]);
      }
    }
  }

  /** With the default option, `s + NewLine` has one more line than `s`. */
  lemma LinesAppendNewLine(s: string)
    ensures |Lines(s + NewLine, false)| == |Lines(s, false)| + 1
  {
    CountAppendNewLine(s);
  }
}
