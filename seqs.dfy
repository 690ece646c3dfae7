/** Sequence operations the modelled code gets from Python's built-ins:
    list concatenation, `str.split`, `list(set(...))` and `str.replace` of one character. */
module Seqs {

  function Last<T>(s: seq<T>): T
    requires s != []
  {
    s[|s| - 1]
  }

  /** The concatenation of `ss`, in order. */
  function Flatten<T>(ss: seq<seq<T>>): seq<T>
  {
    if ss == [] then [] else Flatten(ss[..|ss| - 1]) + Last(ss)
  }

  lemma FlattenSnoc<T>(ss: seq<seq<T>>, x: seq<T>)
    ensures Flatten(ss + [x]) == Flatten(ss) + x
  {
    assert (ss + [x])[..|ss|] == ss;
  }

  /** Where the `j`-th piece of `ss` starts inside `Flatten(ss)`. */
  function StartOf<T>(ss: seq<seq<T>>, j: nat): nat
    requires j <= |ss|
  {
    |Flatten(ss[..j])|
  }

  lemma {:induction false} StartOfNext<T>(ss: seq<seq<T>>, j: nat)
    requires j < |ss|
    ensures StartOf(ss, j + 1) == StartOf(ss, j) + |ss[j]|
  {
    assert ss[..j + 1] == ss[..j] + [ss[j]];
    FlattenSnoc(ss[..j], ss[j]);
  }

  /** Element `i` of piece `j` sits at offset `StartOf(ss, j) + i` of the concatenation. */
  lemma {:induction false} FlattenAt<T>(ss: seq<seq<T>>, j: nat, i: nat)
    requires j < |ss| && i < |ss[j]|
    ensures StartOf(ss, j) + i < |Flatten(ss)|
    ensures Flatten(ss)[StartOf(ss, j) + i] == ss[j][i]
    decreases |ss|
  {
    if j == |ss| - 1 {
      assert ss[..j] == ss[..|ss| - 1];
    } else {
      FlattenAt(ss[..|ss| - 1], j, i);
      assert ss[..|ss| - 1][..j] == ss[..j];
    }
  }

  predicate NoDuplicates<T(==)>(s: seq<T>)
  {
    forall i, j | 0 <= i < j < |s| :: s[i] != s[j]
  }

  /** `list(set(s))`: the same elements, each once.  Python leaves the order unspecified;
      this definition keeps first occurrences, and callers rely only on the ensures. */
  function Dedup<T(==)>(s: seq<T>): (r: seq<T>)
    ensures NoDuplicates(r)
    ensures forall i | 0 <= i < |r| :: r[i] in s
    ensures forall i | 0 <= i < |s| :: s[i] in r
    ensures |r| <= |s|
  {
    if s == [] then []
    else
      var r := Dedup(s[..|s| - 1]);
      assert s == s[..|s| - 1] + [Last(s)];
      if Last(s) in r then r else r + [Last(s)]
  }

  /** Index of the first element satisfying `p`, or `|s|` when there is none. */
  function FirstIndex<T>(s: seq<T>, p: T -> bool): (r: nat)
    ensures r <= |s|
    ensures r < |s| ==> p(s[r])
    ensures forall k | 0 <= k < r :: !p(s[k])
  {
    if s == [] then 0 else if p(s[0]) then 0 else 1 + FirstIndex(s[1..], p)
  }

  /** Python's `s.split(sep)` generalised: the pieces between separators, in order.
      There is always one more piece than there are separators. */
  function Split<T>(s: seq<T>, isSep: T -> bool): (r: seq<seq<T>>)
    ensures |r| >= 1
  {
    if s == [] then [[]] else ConsPieces(s[0], Split(s[1..], isSep), isSep)
  }

  /** No piece holds a separator. */
  predicate SeparatorFree<T>(pieces: seq<seq<T>>, isSep: T -> bool)
  {
    forall j, k | 0 <= j < |pieces| && 0 <= k < |pieces[j]| :: !isSep(pieces[j][k])
  }

  /** The pieces of a split hold no separator. */
  lemma {:induction false} SplitPieces<T>(s: seq<T>, isSep: T -> bool)
    ensures SeparatorFree(Split(s, isSep), isSep)
  {
    if s != [] {
      SplitPieces(s[1..], isSep);
      var rest := Split(s[1..], isSep);
      var r := Split(s, isSep);
      forall j, k | 0 <= j < |r| && 0 <= k < |r[j]|
        ensures !isSep(r[j][k])
      {
        if isSep(s[0]) {
          assert r[j] == rest[j - 1];
        } else if j == 0 {
          if k > 0 {
            assert r[0][k] == rest[0][k - 1];
          }
        } else {
          assert r[j] == rest[j];
        }
      }
    }
  }

  /** What putting `y` in front does to a split: a separator opens a new first piece,
      anything else joins the first piece. */
  function ConsPieces<T>(y: T, r: seq<seq<T>>, isSep: T -> bool): seq<seq<T>>
    requires r != []
  {
    if isSep(y) then [[]] + r else [[y] + r[0]] + r[1..]
  }

  /** The separators of `s`, in order. */
  function Separators<T>(s: seq<T>, isSep: T -> bool): seq<T>
  {
    if s == [] then [] else (if isSep(s[0]) then [s[0]] else []) + Separators(s[1..], isSep)
  }

  /** Pieces glued back together with the given separators between them. */
  function Join<T>(pieces: seq<seq<T>>, seps: seq<T>): seq<T>
    requires |pieces| == |seps| + 1
  {
    if seps == [] then pieces[0] else pieces[0] + [seps[0]] + Join(pieces[1..], seps[1..])
  }

  /** Splitting loses nothing: the pieces and the separators give back the input. */
  lemma {:induction false} SplitJoin<T>(s: seq<T>, isSep: T -> bool)
    ensures |Split(s, isSep)| == |Separators(s, isSep)| + 1
    ensures Join(Split(s, isSep), Separators(s, isSep)) == s
  {
    if s != [] {
      SplitJoin(s[1..], isSep);
      var rest := Split(s[1..], isSep);
      var seps := Separators(s[1..], isSep);
      if isSep(s[0]) {
        assert Split(s, isSep) == [[]] + rest;
        assert Separators(s, isSep) == [s[0]] + seps;
        JoinConsSeparator(s[0], rest, seps);
      } else {
        assert Split(s, isSep) == [[s[0]] + rest[0]] + rest[1..];
        assert Separators(s, isSep) == seps;
        JoinConsLetter(s[0], rest, seps);
      }
      assert s == [s[0]] + s[1..];
    }
  }

  /** Joining after a new empty first piece and a new first separator. */
  lemma JoinConsSeparator<T>(y: T, rest: seq<seq<T>>, seps: seq<T>)
    requires |rest| == |seps| + 1
    ensures Join([[]] + rest, [y] + seps) == [y] + Join(rest, seps)
  {
    assert ([[]] + rest)[1..] == rest;
    assert ([y] + seps)[1..] == seps;
  }

  /** Joining after `y` is put in front of the first piece. */
  lemma JoinConsLetter<T>(y: T, rest: seq<seq<T>>, seps: seq<T>)
    requires |rest| == |seps| + 1
    ensures Join([[y] + rest[0]] + rest[1..], seps) == [y] + Join(rest, seps)
  {
    var r := [[y] + rest[0]] + rest[1..];
    if seps != [] {
      assert r[1..] == rest[1..];
      assert Join(r, seps) == ([y] + rest[0]) + [seps[0]] + Join(rest[1..], seps[1..]);
    }
  }

  /** A sequence without separators is one piece. */
  lemma {:induction false} SplitSeparatorFree<T>(b: seq<T>, isSep: T -> bool)
    requires forall k | 0 <= k < |b| :: !isSep(b[k])
    ensures Split(b, isSep) == [b]
    decreases |b|
  {
    if b != [] {
      var init := b[..|b| - 1];
      assert init + [Last(b)] == b;
      SplitSnoc(init, Last(b), isSep);
      SplitSeparatorFree(init, isSep);
    }
  }

  /** Text after a last separator, holding no separator itself, is the last piece. */
  lemma {:induction false} SplitAfterSeparator<T>(a: seq<T>, sep: T, b: seq<T>, isSep: T -> bool)
    requires isSep(sep)
    requires forall k | 0 <= k < |b| :: !isSep(b[k])
    ensures Split(a + [sep] + b, isSep) == Split(a, isSep) + [b]
    decreases |b|
  {
    if b == [] {
      assert a + [sep] + b == a + [sep];
      SplitSnoc(a, sep, isSep);
    } else {
      var init := b[..|b| - 1];
      var y := Last(b);
      assert a + [sep] + b == (a + [sep] + init) + [y];
      SplitSnoc(a + [sep] + init, y, isSep);
      SplitAfterSeparator(a, sep, init, isSep);
      var r := Split(a, isSep) + [init];
      assert r[..|r| - 1] == Split(a, isSep);
      assert init + [y] == b;
    }
  }

  /** What appending `x` does to a split: a separator opens a new piece, anything else
      extends the last piece. */
  function SnocPieces<T>(r: seq<seq<T>>, x: T, isSep: T -> bool): seq<seq<T>>
    requires r != []
  {
    if isSep(x) then r + [[]] else r[..|r| - 1] + [Last(r) + [x]]
  }

  lemma {:induction false} SplitSnoc<T>(s: seq<T>, x: T, isSep: T -> bool)
    ensures Split(s + [x], isSep) == SnocPieces(Split(s, isSep), x, isSep)
  {
    if s == [] {
      assert s + [x] == [x];
      assert [x][1..] == [];
      var e: seq<seq<T>> := [[]];
      assert e[1..] == [] && e[..0] == [];
      assert [x] + e[0] == e[0] + [x];
      assert Split([x], isSep) == ConsPieces(x, e, isSep);
    } else {
      var sx := s + [x];
      assert sx[1..] == s[1..] + [x];
      SplitSnoc(s[1..], x, isSep);
      ConsSnoc(s[0], Split(s[1..], isSep), x, isSep);
    }
  }

  /** The step of SplitSnoc: adding an element in front commutes with appending one. */
  lemma ConsSnoc<T>(y: T, r: seq<seq<T>>, x: T, isSep: T -> bool)
    requires r != []
    ensures ConsPieces(y, SnocPieces(r, x, isSep), isSep) == SnocPieces(ConsPieces(y, r, isSep), x, isSep)
  {
    var q := SnocPieces(r, x, isSep);
    if !isSep(y) && !isSep(x) {
      if |r| > 1 {
        assert q[0] == r[0];
        assert q[1..] == r[1..|r| - 1] + [Last(r) + [x]];
      } else {
        assert q == [r[0] + [x]];
        assert [y] + q[0] == ([y] + r[0]) + [x];
      }
    } else if !isSep(y) {
      assert q[0] == r[0];
      assert q[1..] == r[1..] + [[]];
    }
  }

  /** The first piece is everything before the first separator, and the other pieces are the
      split of what follows it. */
  lemma {:induction false} SplitHead<T>(s: seq<T>, isSep: T -> bool)
    ensures var i := FirstIndex(s, isSep);
      && Split(s, isSep)[0] == s[..i]
      && (i == |s| ==> Split(s, isSep) == [s])
      && (i < |s| ==> Split(s, isSep)[1..] == Split(s[i + 1..], isSep))
  {
    if s != [] && !isSep(s[0]) {
      SplitHead(s[1..], isSep);
      assert s[..FirstIndex(s, isSep)] == [s[0]] + s[1..][..FirstIndex(s[1..], isSep)];
      if FirstIndex(s, isSep) < |s| {
        assert s[FirstIndex(s, isSep) + 1..] == s[1..][FirstIndex(s[1..], isSep) + 1..];
      }
      assert s == [s[0]] + s[1..];
    }
  }

  /** Python's `s.replace(c, "")`. */
  function Remove<T(==)>(s: seq<T>, c: T): (r: seq<T>)
    ensures c !in r
    ensures forall i | 0 <= i < |r| :: r[i] in s
    ensures forall i | 0 <= i < |s| && s[i] != c :: s[i] in r
    ensures c !in s ==> r == s
  {
    if s == [] then [] else (if s[0] == c then [] else [s[0]]) + Remove(s[1..], c)
  }

  lemma ConcatAssoc<T>(a: seq<T>, b: seq<T>, c: seq<T>)
    ensures (a + b) + c == a + (b + c)
  {
  }

  /** A prefix one element longer is the prefix with that element appended. */
  lemma PrefixSnoc<T>(s: seq<T>, k: nat)
    requires k < |s|
    ensures s[..k + 1] == s[..k] + [s[k]]
  {
  }

  /** `replace` works piece by piece: removing from a concatenation removes from each part. */
  lemma {:induction false} RemoveAppend<T>(a: seq<T>, b: seq<T>, c: T)
    ensures Remove(a + b, c) == Remove(a, c) + Remove(b, c)
  {
    if a == [] {
      assert a + b == b;
    } else {
      assert (a + b)[0] == a[0];
      assert (a + b)[1..] == a[1..] + b;
      RemoveAppend(a[1..], b, c);
    }
  }

  /** On one element: the element goes exactly when it is the one removed. */
  lemma RemoveOne<T>(x: T, c: T)
    ensures Remove([x], c) == if x == c then [] else [x]
  {
    assert [x][1..] == [];
  }

  /** Python's `s[:n]`. */
  function Take<T>(s: seq<T>, n: nat): (r: seq<T>)
    ensures |r| == if |s| <= n then |s| else n
    ensures r == s[..|r|]
    ensures |s| <= n ==> r == s
  {
    if |s| <= n then s else s[..n]
  }
}
