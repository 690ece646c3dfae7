/** The character loop of `pdfminer_extract_words`: the items of one PDF text line, letters
    and the virtual spaces the layout analysis inserts, grouped into words. */
module PdfWords {
  import opened Wrappers
  import opened Seqs

  /** One item of a text line: an `LTChar` with its text, or an `LTAnno`. */
  datatype LayoutItem = Char(text: string) | Anno

  /** The loop's final `assert len(word) == 0` failing: the line ended inside a word. */
  datatype PdfError = PendingWord(chars: seq<LayoutItem>)

  /** An item that ends the current word: an `LTAnno`, or a character whose text is one space. */
  predicate IsSeparator(x: LayoutItem)
  {
    x.Anno? || x.text == " "
  }

  /** `get_text()` of a container holding `items`: their texts, concatenated. */
  function Text(items: seq<LayoutItem>): string
  {
    if items == [] then [] else Text(items[..|items| - 1]) + ItemText(Last(items))
  }

  function ItemText(x: LayoutItem): string
  {
    if x.Anno? then [] else x.text
  }

  /** The texts of the non-separator items of `items`, concatenated. */
  function LetterText(items: seq<LayoutItem>): string
  {
    if items == [] then []
    else LetterText(items[..|items| - 1]) + (if IsSeparator(Last(items)) then [] else ItemText(Last(items)))
  }

  /** The texts of `words`, concatenated. */
  function WordsText(words: seq<seq<LayoutItem>>): string
  {
    if words == [] then [] else WordsText(words[..|words| - 1]) + Text(Last(words))
  }

  /** The pieces whose text is not empty, in order. */
  function NonEmptyPieces(pieces: seq<seq<LayoutItem>>): (r: seq<seq<LayoutItem>>)
    ensures forall i | 0 <= i < |r| :: Text(r[i]) != []
  {
    if pieces == [] then []
    else NonEmptyPieces(pieces[..|pieces| - 1]) + (if Text(Last(pieces)) != [] then [Last(pieces)] else [])
  }

  /** The kept pieces keep their order: filtering a concatenation filters each part. */
  lemma {:induction false} NonEmptyAppend(a: seq<seq<LayoutItem>>, b: seq<seq<LayoutItem>>)
    ensures NonEmptyPieces(a + b) == NonEmptyPieces(a) + NonEmptyPieces(b)
    decreases |b|
  {
    if b == [] {
      assert a + b == a;
    } else {
      var init := b[..|b| - 1];
      assert a + b == (a + init) + [Last(b)];
      assert b == init + [Last(b)];
      NonEmptySnoc(a + init, Last(b));
      NonEmptySnoc(init, Last(b));
      NonEmptyAppend(a, init);
    }
  }

  /** Nothing that carries text is dropped. */
  lemma {:induction false} NonEmptyKeeps(pieces: seq<seq<LayoutItem>>)
    ensures forall i | 0 <= i < |pieces| && Text(pieces[i]) != [] :: pieces[i] in NonEmptyPieces(pieces)
  {
    if pieces != [] {
      var init := pieces[..|pieces| - 1];
      NonEmptyKeeps(init);
      assert pieces == init + [Last(pieces)];
      NonEmptySnoc(init, Last(pieces));
      forall i | 0 <= i < |pieces| && Text(pieces[i]) != []
        ensures pieces[i] in NonEmptyPieces(pieces)
      {
        if i < |init| {
          assert pieces[i] == init[i];
        }
      }
    }
  }

  /** Keeping some of the pieces keeps them free of separators. */
  lemma {:induction false} NonEmptyPiecesFree(pieces: seq<seq<LayoutItem>>)
    requires SeparatorFree(pieces, IsSeparator)
    ensures SeparatorFree(NonEmptyPieces(pieces), IsSeparator)
  {
    if pieces != [] {
      var init := pieces[..|pieces| - 1];
      assert SeparatorFree(init, IsSeparator) by {
        forall j, k | 0 <= j < |init| && 0 <= k < |init[j]|
          ensures !IsSeparator(init[j][k])
        {
          assert init[j] == pieces[j];
        }
      }
      NonEmptyPiecesFree(init);
    }
  }

  /** The words the loop emits from `line`: the runs of items between separators, except the
      run after the last separator, keeping those whose text is not empty. */
  function LineWords(line: seq<LayoutItem>): (r: seq<seq<LayoutItem>>)
    ensures forall i | 0 <= i < |r| :: Text(r[i]) != [] && r[i] != []
    ensures forall i, k | 0 <= i < |r| && 0 <= k < |r[i]| :: !IsSeparator(r[i][k])
  {
    var pieces := Split(line, IsSeparator);
    SplitPieces(line, IsSeparator);
    var init := AllButLast(pieces);
    assert SeparatorFree(init, IsSeparator) by {
      forall j, k | 0 <= j < |init| && 0 <= k < |init[j]|
        ensures !IsSeparator(init[j][k])
      {
        assert init[j] == pieces[j];
      }
    }
    NonEmptyPiecesFree(init);
    NonEmptyPieces(init)
  }

  /** The characters collected after the last separator: what the final assert inspects. */
  function Pending(line: seq<LayoutItem>): seq<LayoutItem>
  {
    Last(Split(line, IsSeparator))
  }

  /** The splitting loop of `pdfminer_extract_words` over one line.  It succeeds exactly when no
      character is pending at the end, and then returns `LineWords(line)`, which hold, in order,
      all the letter text of the line. */
  method ExtractWords(line: seq<LayoutItem>) returns (r: Result<seq<seq<LayoutItem>>, PdfError>)
    ensures r.Ok? <==> Pending(line) == []
    ensures r.Ok? ==> r.value == LineWords(line)
    ensures r.Ok? ==> WordsText(r.value) == LetterText(line)
    ensures r.Err? ==> r.error == PendingWord(Pending(line))
  {
    var words: seq<seq<LayoutItem>> := [];
    var word: seq<LayoutItem> := [];
    ghost var pieces: seq<seq<LayoutItem>> := [[]];
    for k := 0 to |line|
      invariant pieces == Split(line[..k], IsSeparator)
      invariant IsLoopState(pieces, words, word)
      invariant WordsText(words) + Text(word) == LetterText(line[..k])
    {
      var item := line[k];
      PrefixSnoc(line, k);
      SplitSnoc(line[..k], item, IsSeparator);
      if IsSeparator(item) {
        SeparatorStep(pieces, words, word);
        SeparatorKeepsText(line[..k], item, words, word);
        if Text(word) != [] {
          words := words + [word];
        }
        word := [];
      } else {
        LetterStep(pieces, item, words, word);
        LetterKeepsText(line[..k], item, words, word);
        word := word + [item];
      }
      pieces := SnocPieces(pieces, item, IsSeparator);
    }
    assert line[..|line|] == line;
    FinalState(line, pieces, words, word);
    if |word| != 0 {
      return Err(PendingWord(word));
    }
    return Ok(words);
  }

  /** What the loop keeps for the pieces read so far: `word` is the last piece, and `words`
      the pieces before it that carry text. */
  ghost predicate IsLoopState(pieces: seq<seq<LayoutItem>>, words: seq<seq<LayoutItem>>, word: seq<LayoutItem>)
  {
    && pieces != []
    && word == Last(pieces)
    && words == NonEmptyPieces(AllButLast(pieces))
  }

  /** After the whole line, the loop state is what the method promises. */
  lemma FinalState(line: seq<LayoutItem>, pieces: seq<seq<LayoutItem>>, words: seq<seq<LayoutItem>>, word: seq<LayoutItem>)
    requires pieces == Split(line, IsSeparator)
    requires IsLoopState(pieces, words, word)
    ensures word == Pending(line)
    ensures words == LineWords(line)
  {
  }

  /** A separator flushes the word if it carries text, and opens an empty one. */
  lemma SeparatorStep(pieces: seq<seq<LayoutItem>>, words: seq<seq<LayoutItem>>, word: seq<LayoutItem>)
    requires IsLoopState(pieces, words, word)
    ensures IsLoopState(pieces + [[]], if Text(word) != [] then words + [word] else words, [])
  {
    var after := pieces + [[]];
    assert AllButLast(after) == pieces;
    assert pieces == AllButLast(pieces) + [word];
    NonEmptySnoc(AllButLast(pieces), word);
  }

  /** Any other item joins the current word. */
  lemma LetterStep(pieces: seq<seq<LayoutItem>>, item: LayoutItem, words: seq<seq<LayoutItem>>, word: seq<LayoutItem>)
    requires IsLoopState(pieces, words, word) && !IsSeparator(item)
    ensures IsLoopState(SnocPieces(pieces, item, IsSeparator), words, word + [item])
  {
    var after := AllButLast(pieces) + [word + [item]];
    assert SnocPieces(pieces, item, IsSeparator) == after;
    assert AllButLast(after) == AllButLast(pieces);
  }

  /** A separator adds no letter text, and flushing the word moves its text into the words. */
  lemma SeparatorKeepsText(prefix: seq<LayoutItem>, item: LayoutItem, words: seq<seq<LayoutItem>>, word: seq<LayoutItem>)
    requires IsSeparator(item)
    requires WordsText(words) + Text(word) == LetterText(prefix)
    ensures WordsText(if Text(word) != [] then words + [word] else words) + Text([]) == LetterText(prefix + [item])
  {
    LetterTextSnoc(prefix, item);
    WordsTextSnoc(words, word);
    assert Text([]) == [];
  }

  /** A letter adds its text to the word and to the letter text alike. */
  lemma LetterKeepsText(prefix: seq<LayoutItem>, item: LayoutItem, words: seq<seq<LayoutItem>>, word: seq<LayoutItem>)
    requires !IsSeparator(item)
    requires WordsText(words) + Text(word) == LetterText(prefix)
    ensures WordsText(words) + Text(word + [item]) == LetterText(prefix + [item])
  {
    LetterTextSnoc(prefix, item);
    TextSnoc(word, item);
    ConcatAssoc(WordsText(words), Text(word), ItemText(item));
  }

  lemma ConcatAssoc(a: string, b: string, c: string)
    ensures a + (b + c) == (a + b) + c
  {
  }

  lemma TextSnoc(items: seq<LayoutItem>, x: LayoutItem)
    ensures Text(items + [x]) == Text(items) + ItemText(x)
  {
    assert (items + [x])[..|items|] == items;
  }

  lemma LetterTextSnoc(items: seq<LayoutItem>, x: LayoutItem)
    ensures LetterText(items + [x]) == LetterText(items) + (if IsSeparator(x) then [] else ItemText(x))
  {
    assert (items + [x])[..|items|] == items;
  }

  lemma WordsTextSnoc(words: seq<seq<LayoutItem>>, w: seq<LayoutItem>)
    ensures WordsText(words + [w]) == WordsText(words) + Text(w)
  {
    assert (words + [w])[..|words|] == words;
  }

  lemma NonEmptySnoc(pieces: seq<seq<LayoutItem>>, w: seq<LayoutItem>)
    ensures NonEmptyPieces(pieces + [w]) == NonEmptyPieces(pieces) + (if Text(w) != [] then [w] else [])
  {
    assert (pieces + [w])[..|pieces|] == pieces;
  }

  function AllButLast<T>(s: seq<T>): seq<T>
    requires s != []
  {
    s[..|s| - 1]
  }

  /** The final assert holds exactly when the line is empty or ends with a separator. */
  lemma {:induction false} PendingIffNoFinalSeparator(line: seq<LayoutItem>)
    ensures Pending(line) == [] <==> line == [] || IsSeparator(Last(line))
  {
    if line != [] {
      var init := line[..|line| - 1];
      assert init + [Last(line)] == line;
      SplitSnoc(init, Last(line), IsSeparator);
    }
  }
}
