/**
 * Strings as sequences of characters: joining pieces with a delimiter, and
 * cutting a string at a separator character the way Java's `String.split`
 * does for a one-character pattern.
 */
module Strings {

  // ---------------------------------------------------------------------
  // Joining

  /** `xs[0] + d + xs[1] + ... + d + xs[n-1]`, and the empty string for no pieces. */
  function Interleave(d: string, xs: seq<string>): (r: string)
    ensures xs != [] ==> xs[0] <= r
    ensures xs == [] ==> r == ""
  {
    if xs == [] then ""
    else if |xs| == 1 then xs[0]
    else Interleave(d, xs[..|xs| - 1]) + d + xs[|xs| - 1]
  }

  /** `d + xs[0] + d + xs[1] + ... + d + xs[n-1]`: each piece preceded by the delimiter. */
  function Prefixed(d: string, xs: seq<string>): (r: string)
  {
    if xs == [] then "" else Prefixed(d, xs[..|xs| - 1]) + d + xs[|xs| - 1]
  }

  /** Putting the delimiter before every piece is one delimiter followed by the interleaving. */
  lemma {:induction false} PrefixedIsDelimiterThenInterleave(d: string, xs: seq<string>)
    requires xs != []
    ensures Prefixed(d, xs) == d + Interleave(d, xs)
  {
    if |xs| == 1 {
      assert xs[..0] == [];
    } else {
      var ys, z := xs[..|xs| - 1], xs[|xs| - 1];
      PrefixedIsDelimiterThenInterleave(d, ys);
      assert Prefixed(d, xs) == Prefixed(d, ys) + d + z;
      assert Interleave(d, xs) == Interleave(d, ys) + d + z;
      assert Prefixed(d, xs) == d + (Interleave(d, ys) + d + z);
    }
  }

  /** `k` copies of `d`. */
  function Repeat(d: string, k: nat): (r: string)
  {
    if k == 0 then "" else Repeat(d, k - 1) + d
  }

  // ---------------------------------------------------------------------
  // Splitting

  /** The pieces of `s` between occurrences of `c`, empty pieces included. */
  function Split(s: string, c: char): (r: seq<string>)
    ensures |r| >= 1
  {
    if s == [] then [""]
    else
      var pieces := Split(s[..|s| - 1], c);
      if s[|s| - 1] == c then pieces + [""]
      else pieces[..|pieces| - 1] + [pieces[|pieces| - 1] + [s[|s| - 1]]]
  }

  /** No piece contains the separator. */
  lemma {:induction false} SplitPiecesAreFree(s: string, c: char)
    ensures forall i :: 0 <= i < |Split(s, c)| ==> c !in Split(s, c)[i]
  {
    if s != [] {
      SplitPiecesAreFree(s[..|s| - 1], c);
    }
  }

  /** Splitting one more character either opens a new piece or extends the last one. */
  lemma {:induction false} SplitSnoc(t: string, c: char, x: char)
    ensures x == c ==> Split(t + [x], c) == Split(t, c) + [""]
    ensures x != c ==>
      Split(t + [x], c) == Split(t, c)[..|Split(t, c)| - 1] + [Split(t, c)[|Split(t, c)| - 1] + [x]]
  {
    assert (t + [x])[..|t|] == t;
  }

  /** Joining one more piece appends the delimiter and the piece. */
  lemma {:induction false} InterleaveSnoc(d: string, xs: seq<string>, x: string)
    requires xs != []
    ensures Interleave(d, xs + [x]) == Interleave(d, xs) + d + x
  {
    assert (xs + [x])[..|xs|] == xs;
  }

  /** Joining the pieces with the separator gives back the string. */
  lemma {:induction false} InterleaveSplit(s: string, c: char)
    ensures Interleave([c], Split(s, c)) == s
  {
    if s != [] {
      var t, x := s[..|s| - 1], s[|s| - 1];
      assert s == t + [x];
      InterleaveSplit(t, c);
      SplitSnoc(t, c, x);
      var pieces := Split(t, c);
      var n := |pieces| - 1;
      if x == c {
        InterleaveSnoc([c], pieces, "");
      } else if n == 0 {
        assert Split(s, c) == [pieces[0] + [x]];
      } else {
        var init := pieces[..n];
        assert pieces == init + [pieces[n]];
        InterleaveSnoc([c], init, pieces[n]);
        InterleaveSnoc([c], init, pieces[n] + [x]);
      }
    }
  }

  /** A string without the separator is a single piece. */
  lemma {:induction false} SplitWithoutSeparator(x: string, c: char)
    requires c !in x
    ensures Split(x, c) == [x]
  {
    if x != [] {
      SplitWithoutSeparator(x[..|x| - 1], c);
      assert x == x[..|x| - 1] + [x[|x| - 1]];
    }
  }

  /** A separator followed by separator-free text adds exactly one piece. */
  lemma {:induction false} SplitAfterSeparator(s: string, c: char, x: string)
    requires c !in x
    ensures Split(s + [c] + x, c) == Split(s, c) + [x]
  {
    if x == [] {
      assert s + [c] + x == s + [c];
      assert (s + [c])[..|s|] == s;
    } else {
      var x' := x[..|x| - 1];
      SplitAfterSeparator(s, c, x');
      assert (s + [c] + x)[..|s + [c] + x| - 1] == s + [c] + x';
      assert x == x' + [x[|x| - 1]];
    }
  }

  /** Splitting a join of separator-free pieces gives back the pieces. */
  lemma {:induction false} SplitInterleave(xs: seq<string>, c: char)
    requires xs != [] && forall i :: 0 <= i < |xs| ==> c !in xs[i]
    ensures Split(Interleave([c], xs), c) == xs
  {
    if |xs| == 1 {
      SplitWithoutSeparator(xs[0], c);
    } else {
      var ys, x := xs[..|xs| - 1], xs[|xs| - 1];
      assert forall i :: 0 <= i < |ys| ==> ys[i] == xs[i];
      SplitInterleave(ys, c);
      assert Interleave([c], xs) == Interleave([c], ys) + [c] + x;
      SplitAfterSeparator(Interleave([c], ys), c, x);
      assert xs == ys + [x];
    }
  }

  // ---------------------------------------------------------------------
  // Java's split on a line break

  /** `xs` without the empty pieces at its end. */
  function StripTrailingEmpty(xs: seq<string>): (r: seq<string>)
    ensures |r| <= |xs|
  {
    if xs != [] && xs[|xs| - 1] == "" then StripTrailingEmpty(xs[..|xs| - 1]) else xs
  }

  /** The stripped pieces are a prefix of `xs` and, if there are any, the last one is not empty. */
  lemma {:induction false} StripTrailingEmptyShape(xs: seq<string>)
    ensures StripTrailingEmpty(xs) == xs[..|StripTrailingEmpty(xs)|]
    ensures StripTrailingEmpty(xs) != [] ==> StripTrailingEmpty(xs)[|StripTrailingEmpty(xs)| - 1] != ""
  {
    if xs != [] && xs[|xs| - 1] == "" {
      var ys := xs[..|xs| - 1];
      StripTrailingEmptyShape(ys);
      assert ys[..|StripTrailingEmpty(ys)|] == xs[..|StripTrailingEmpty(ys)|];
    }
  }

  /** Dropping trailing empty pieces drops only delimiters from the end of the join. */
  lemma {:induction false} StripTrailingEmptyLosesDelimiters(d: string, xs: seq<string>)
    ensures exists k: nat :: Interleave(d, xs) == Interleave(d, StripTrailingEmpty(xs)) + Repeat(d, k)
  {
    var stripped := StripTrailingEmpty(xs);
    if xs != [] && xs[|xs| - 1] == "" {
      var ys := xs[..|xs| - 1];
      assert stripped == StripTrailingEmpty(ys);
      StripTrailingEmptyLosesDelimiters(d, ys);
      var k: nat :| Interleave(d, ys) == Interleave(d, stripped) + Repeat(d, k);
      if |xs| == 1 {
        assert Interleave(d, xs) == "" == Interleave(d, ys);
        assert Interleave(d, xs) == Interleave(d, stripped) + Repeat(d, k);
      } else {
        assert Interleave(d, xs) == Interleave(d, ys) + d + "";
        assert Repeat(d, k + 1) == Repeat(d, k) + d;
        assert Interleave(d, xs) == Interleave(d, stripped) + Repeat(d, k + 1);
      }
    } else {
      assert stripped == xs;
      assert Interleave(d, xs) == Interleave(d, stripped) + Repeat(d, 0);
    }
  }

  /**
   * `s.split("\n")` in Java: a string without a line break is returned whole
   * (even when empty); otherwise the pieces between line breaks, without the
   * empty pieces at the end.
   */
  function Lines(s: string): (r: seq<string>)
    ensures forall i :: 0 <= i < |r| ==> '\n' !in r[i]
    ensures '\n' in s && r != [] ==> r[|r| - 1] != ""
  {
    if '\n' !in s then [s]
    else
      var pieces := Split(s, '\n');
      SplitPiecesAreFree(s, '\n');
      StripTrailingEmptyShape(pieces);
      var r := StripTrailingEmpty(pieces);
      assert forall i :: 0 <= i < |r| ==> r[i] == pieces[i];
      r
  }

  /**
   * The lines hold no line break, the last one is non-empty when the string
   * had a line break, and joining them with line breaks gives `s` up to
   * line breaks it ended with.
   */
  lemma {:induction false} LinesRecover(s: string)
    ensures forall i :: 0 <= i < |Lines(s)| ==> '\n' !in Lines(s)[i]
    ensures '\n' in s && Lines(s) != [] ==> Lines(s)[|Lines(s)| - 1] != ""
    ensures exists k: nat :: s == Interleave("\n", Lines(s)) + Repeat("\n", k)
  {
    if '\n' !in s {
      assert s == Interleave("\n", Lines(s)) + Repeat("\n", 0);
    } else {
      InterleaveSplit(s, '\n');
      StripTrailingEmptyLosesDelimiters("\n", Split(s, '\n'));
    }
  }
}
