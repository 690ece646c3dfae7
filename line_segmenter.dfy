/** `divide_into_lines`: groups the words an OCR engine reports, in its own order, into lines,
    starting a new line wherever a word sits clearly lower than the one before it or clearly
    to the right of it. */
module LineSegmenter {
  import opened Seqs

  /** A recognised word with its pixel bounding box. */
  datatype Word = Word(text: string, left: int, top: int, right: int, bottom: int)

  /** Word `w` starts a new line after `prev`: it is more than 0.5 % of the page height below
      it, or more than 5 % of the page width to the right of its right edge.  The source
      compares `(w.top - prev.top) / height > 0.005` and `(w.left - prev.right) / width > 0.05`;
      with positive page dimensions these are the integer comparisons below. */
  predicate StartsNewLine(prev: Word, w: Word, height: int, width: int)
  {
    200 * (w.top - prev.top) > height || 20 * (w.left - prev.right) > width
  }

  /** On a page of positive size, the test is the code's ratio test, read in exact
      arithmetic. */
  lemma StartsNewLineIsRatioTest(prev: Word, w: Word, height: int, width: int)
    requires height > 0 && width > 0
    ensures StartsNewLine(prev, w, height, width) <==>
      || (w.top - prev.top) as real / height as real > 0.005
      || (w.left - prev.right) as real / width as real > 0.05
  {
    RatioAbove(w.top - prev.top, height, 200);
    RatioAbove(w.left - prev.right, width, 20);
  }

  /** `x / d > 1 / k` exactly when `k * x > d`, for positive `d` and `k`. */
  lemma RatioAbove(x: int, d: int, k: int)
    requires d > 0 && k > 0
    ensures x as real / d as real > 1.0 / k as real <==> k * x > d
  {
    var q := x as real / d as real;
    assert q * d as real == x as real;
    assert (k * x) as real == k as real * q * d as real;
  }

  /** `lines` is what segmenting `words` must give: the lines, read in order, are the words;
      only the first line may be empty, and it is exactly when the first word, compared with
      itself, already starts a new line; no word inside a line starts a new line after its
      neighbour; and the first word of each later line starts a new line after the word
      before it. */
  ghost predicate IsSegmentation(words: seq<Word>, lines: seq<seq<Word>>, height: int, width: int)
  {
    && words != []
    && lines != []
    && Flatten(lines) == words
    && (forall j | 1 <= j < |lines| :: lines[j] != [])
    && (lines[0] == [] <==> StartsNewLine(words[0], words[0], height, width))
    && Unbroken(lines, height, width)
    && BreaksBetween(lines, height, width)
  }

  /** No word inside a line starts a new line after its neighbour. */
  ghost predicate Unbroken(lines: seq<seq<Word>>, height: int, width: int)
  {
    forall j, i | 0 <= j < |lines| && 0 < i < |lines[j]| ::
      !StartsNewLine(lines[j][i - 1], lines[j][i], height, width)
  }

  /** The first word of each non-empty line after a non-empty one starts a new line after the
      last word of that one. */
  ghost predicate BreaksBetween(lines: seq<seq<Word>>, height: int, width: int)
  {
    forall j | 1 <= j < |lines| && lines[j - 1] != [] && lines[j] != [] ::
      StartsNewLine(Last(lines[j - 1]), lines[j][0], height, width)
  }

  /** `divide_into_lines(words, height, width)`.  The source reads `words[0]` and divides by
      both page dimensions, so it needs a word and a page of positive size. */
  method DivideIntoLines(words: seq<Word>, height: int, width: int) returns (lines: seq<seq<Word>>)
    requires words != []
    requires height > 0 && width > 0
    ensures IsSegmentation(words, lines, height, width)
    ensures words[0].left <= words[0].right ==> lines[0] != []
  {
    var cur := words[0];
    lines := [];
    var line: seq<Word> := [];
    for k := 0 to |words|
      invariant k == 0 ==> cur == words[0] && lines == [] && line == []
      invariant k > 0 ==> cur == words[k - 1] && line != [] && Last(line) == cur
      invariant k > 0 ==> IsSegmentation(words[..k], lines + [line], height, width)
    {
      var word := words[k];
      if StartsNewLine(cur, word, height, width) {
        if k == 0 {
          StartWithEmptyLine(words, height, width);
        } else {
          NewLine(words, k, lines + [line], height, width);
        }
        lines := lines + [line];
        line := [word];
      } else {
        if k == 0 {
          StartWithWord(words, height, width);
        } else {
          SameLine(words, k, lines, line, height, width);
        }
        line := line + [word];
      }
      cur := word;
    }
    assert words[..|words|] == words;
    lines := lines + [line];
  }

  lemma StartWithEmptyLine(words: seq<Word>, height: int, width: int)
    requires words != []
    requires StartsNewLine(words[0], words[0], height, width)
    ensures IsSegmentation(words[..1], [[]] + [[words[0]]], height, width)
  {
    var none: seq<seq<Word>> := [];
    var empty: seq<Word> := [];
    var ls: seq<seq<Word>> := [empty, [words[0]]];
    assert [empty] + [[words[0]]] == ls;
    FlattenSnoc(none, empty);
    assert none + [empty] == [empty];
    FlattenSnoc([empty], [words[0]]);
    assert Flatten(ls) == [words[0]];
    assert words[..1] == [words[0]];
  }

  lemma StartWithWord(words: seq<Word>, height: int, width: int)
    requires words != []
    requires !StartsNewLine(words[0], words[0], height, width)
    ensures IsSegmentation(words[..1], [] + [[] + [words[0]]], height, width)
  {
    var none: seq<seq<Word>> := [];
    var empty: seq<Word> := [];
    var ls: seq<seq<Word>> := [[words[0]]];
    assert empty + [words[0]] == [words[0]];
    assert none + [empty + [words[0]]] == ls;
    FlattenSnoc(none, [words[0]]);
    assert none + [[words[0]]] == ls;
    assert words[..1] == [words[0]];
  }

  /** One step of the loop when word `k` starts a new line. */
  lemma NewLine(words: seq<Word>, k: nat, ls: seq<seq<Word>>, height: int, width: int)
    requires 0 < k < |words|
    requires IsSegmentation(words[..k], ls, height, width)
    requires Last(ls) != [] && Last(Last(ls)) == words[k - 1]
    requires StartsNewLine(words[k - 1], words[k], height, width)
    ensures IsSegmentation(words[..k + 1], ls + [[words[k]]], height, width)
  {
    var ls' := ls + [[words[k]]];
    FlattenSnoc(ls, [words[k]]);
    assert words[..k + 1] == words[..k] + [words[k]];
    assert forall j | 0 <= j < |ls| :: ls'[j] == ls[j];
    assert ls'[|ls|] == [words[k]];
  }

  /** One step of the loop when word `k` joins the current line. */
  lemma SameLine(words: seq<Word>, k: nat, lines: seq<seq<Word>>, line: seq<Word>, height: int, width: int)
    requires 0 < k < |words|
    requires IsSegmentation(words[..k], lines + [line], height, width)
    requires line != [] && Last(line) == words[k - 1]
    requires !StartsNewLine(words[k - 1], words[k], height, width)
    ensures IsSegmentation(words[..k + 1], lines + [line + [words[k]]], height, width)
  {
    FlattenSnoc(lines, line);
    FlattenSnoc(lines, line + [words[k]]);
    assert words[..k + 1] == words[..k] + [words[k]];
    assert forall j | 1 <= j < |lines| :: (lines + [line + [words[k]]])[j] == (lines + [line])[j];
    UnbrokenExtend(lines, line, words[k], height, width);
    BreaksExtend(lines, line, words[k], height, width);
    if lines == [] {
      assert words[..k + 1][0] == words[..k][0];
    }
  }

  /** Appending a word that does not start a new line keeps the last line unbroken. */
  lemma UnbrokenExtend(lines: seq<seq<Word>>, line: seq<Word>, w: Word, height: int, width: int)
    requires Unbroken(lines + [line], height, width)
    requires line != [] && !StartsNewLine(Last(line), w, height, width)
    ensures Unbroken(lines + [line + [w]], height, width)
  {
    var ls := lines + [line];
    var ls' := lines + [line + [w]];
    forall j, i | 0 <= j < |ls'| && 0 < i < |ls'[j]|
      ensures !StartsNewLine(ls'[j][i - 1], ls'[j][i], height, width)
    {
      if j < |lines| {
        assert ls'[j] == ls[j];
      } else {
        assert ls'[j] == line + [w];
        if i < |line| {
          assert ls'[j][i - 1] == ls[j][i - 1] && ls'[j][i] == ls[j][i];
        }
      }
    }
  }

  /** Appending a word to the last line keeps every break before it. */
  lemma BreaksExtend(lines: seq<seq<Word>>, line: seq<Word>, w: Word, height: int, width: int)
    requires BreaksBetween(lines + [line], height, width)
    requires line != []
    ensures BreaksBetween(lines + [line + [w]], height, width)
  {
    var ls := lines + [line];
    var ls' := lines + [line + [w]];
    forall j | 1 <= j < |ls'| && ls'[j - 1] != [] && ls'[j] != []
      ensures StartsNewLine(Last(ls'[j - 1]), ls'[j][0], height, width)
    {
      assert ls'[j - 1] == ls[j - 1];
      assert ls'[j][0] == ls[j][0];
    }
  }

  /** Whether word `k` is the first word of one of the lines after the first. */
  ghost predicate BeginsLaterLine(lines: seq<seq<Word>>, k: nat)
  {
    exists j | 1 <= j < |lines| :: StartOf(lines, j) == k && lines[j] != []
  }

  /** The segmentation, read word by word: every word after the first begins a new line
      exactly when it starts a new line after the word just before it. */
  lemma {:induction false} NewLineExactlyAtBreaks(words: seq<Word>, lines: seq<seq<Word>>,
                                                  height: int, width: int, k: nat)
    requires IsSegmentation(words, lines, height, width)
    requires 0 < k < |words|
    ensures BeginsLaterLine(lines, k) <==> StartsNewLine(words[k - 1], words[k], height, width)
  {
    var j, i := Locate(lines, k);
    FlattenAt(lines, j, i);
    assert lines[..0] == [];
    if i > 0 {
      FlattenAt(lines, j, i - 1);
      if BeginsLaterLine(lines, k) {
        var j' :| 1 <= j' < |lines| && StartOf(lines, j') == k && lines[j'] != [];
        if j < j' {
          StartOfMonotone(lines, j, j');
        } else if j' < j {
          StartOfMonotone(lines, j', j);
        }
        assert false;
      }
    } else {
      StartOfNext(lines, j - 1);
      var prev := lines[j - 1];
      FlattenAt(lines, j - 1, |prev| - 1);
      assert StartOf(lines, j - 1) + |prev| - 1 == k - 1;
    }
  }

  /** Finds the line `j` and the position `i` in it of word `k`. */
  lemma {:induction false} Locate(lines: seq<seq<Word>>, k: nat) returns (j: nat, i: nat)
    requires k < |Flatten(lines)|
    ensures j < |lines| && i < |lines[j]| && StartOf(lines, j) + i == k
    decreases |lines|
  {
    var init := lines[..|lines| - 1];
    FlattenSnoc(init, Last(lines));
    assert init + [Last(lines)] == lines;
    if k < |Flatten(init)| {
      j, i := Locate(init, k);
      assert lines[..j] == init[..j];
    } else {
      j, i := |lines| - 1, k - |Flatten(init)|;
      assert lines[..j] == init;
    }
  }

  lemma {:induction false} StartOfMonotone(lines: seq<seq<Word>>, a: nat, b: nat)
    requires a < b <= |lines|
    ensures StartOf(lines, a) + |lines[a]| <= StartOf(lines, b)
    decreases b - a
  {
    StartOfNext(lines, a);
    if a + 1 < b {
      StartOfMonotone(lines, a + 1, b);
    }
  }

  /** Where no word starts a new line after its neighbour, the words form one line. */
  lemma {:induction false} NoBreakOneLine(words: seq<Word>, lines: seq<seq<Word>>, height: int, width: int)
    requires IsSegmentation(words, lines, height, width)
    requires !StartsNewLine(words[0], words[0], height, width)
    requires forall k | 0 < k < |words| :: !StartsNewLine(words[k - 1], words[k], height, width)
    ensures lines == [words]
  {
    if |lines| > 1 {
      FirstBreak(words, lines, height, width);
      assert false;
    }
    SingleLine(lines);
  }

  lemma SingleLine(lines: seq<seq<Word>>)
    requires |lines| == 1
    ensures Flatten(lines) == lines[0]
  {
    var none: seq<seq<Word>> := [];
    assert lines == none + [lines[0]];
    FlattenSnoc(none, lines[0]);
  }

  /** When the first line holds words and a second line follows, the word that opens the
      second line starts a new line after the last word of the first. */
  lemma FirstBreak(words: seq<Word>, lines: seq<seq<Word>>, height: int, width: int)
    requires IsSegmentation(words, lines, height, width)
    requires |lines| > 1 && lines[0] != []
    ensures var k := |lines[0]|;
      0 < k < |words| && StartsNewLine(words[k - 1], words[k], height, width)
  {
    StartOfNext(lines, 0);
    assert lines[..0] == [];
    FlattenAt(lines, 1, 0);
    FlattenAt(lines, 0, |lines[0]| - 1);
  }

  /** A vertical gap that is zero or negative never breaks a line by itself. */
  lemma NoVerticalBreakUpwards(prev: Word, w: Word, height: int, width: int)
    requires height > 0
    requires w.top <= prev.top
    ensures StartsNewLine(prev, w, height, width) <==> 20 * (w.left - prev.right) > width
  {
  }

  /** On a page 1000 wide and 100 high, a word 50 pixels to the right of the previous one
      (a gap of exactly 5 % of the width) stays on its line; 51 pixels starts a new one. */
  lemma PageExample(lines: seq<seq<Word>>, lines': seq<seq<Word>>)
    requires IsSegmentation([Word("a", 0, 0, 10, 0), Word("b", 60, 0, 70, 0)], lines, 100, 1000)
    requires IsSegmentation([Word("a", 0, 0, 10, 0), Word("b", 61, 0, 71, 0)], lines', 100, 1000)
    ensures lines == [[Word("a", 0, 0, 10, 0), Word("b", 60, 0, 70, 0)]]
    ensures BeginsLaterLine(lines', 1)
  {
    var words := [Word("a", 0, 0, 10, 0), Word("b", 60, 0, 70, 0)];
    assert !StartsNewLine(words[0], words[1], 100, 1000);
    NoBreakOneLine(words, lines, 100, 1000);
    var words' := [Word("a", 0, 0, 10, 0), Word("b", 61, 0, 71, 0)];
    NewLineExactlyAtBreaks(words', lines', 100, 1000, 1);
  }
}
