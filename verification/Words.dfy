// Words in a text: what String::words and String::subword are about.
module Words {

  // The white argument: a null pointer, or the characters of a C string.
  datatype Delimiters = Default | Custom(chars: seq<char>)

  // is_white(). A custom set makes the terminating null character white, since
  // strchr() finds the terminator of the set.
  predicate IsWhite(ch: char, white: Delimiters) {
    match white
    case Default => ch in [' ', '\t', '\U{0B}', '\r', '\n', '\U{0C}']
    case Custom(chars) => ch == '\0' || ch in chars
  }

  // Characters start to finish - 1.
  datatype Run = Run(start: nat, finish: nat)

  // A run of characters that are not white and cannot be made longer.
  ghost predicate Maximal(t: seq<char>, white: Delimiters, r: Run) {
    && r.start < r.finish <= |t|
    && (forall k :: r.start <= k < r.finish ==> !IsWhite(t[k], white))
    && (r.start > 0 ==> IsWhite(t[r.start - 1], white))
    && (r.finish < |t| ==> IsWhite(t[r.finish], white))
  }

  function SkipWhite(t: seq<char>, i: nat, white: Delimiters): (r: nat)
    requires i <= |t|
    ensures i <= r <= |t|
    ensures forall k :: i <= k < r ==> IsWhite(t[k], white)
    ensures r < |t| ==> !IsWhite(t[r], white)
    decreases |t| - i
  {
    if i < |t| && IsWhite(t[i], white) then SkipWhite(t, i + 1, white) else i
  }

  function SkipWord(t: seq<char>, i: nat, white: Delimiters): (r: nat)
    requires i <= |t|
    ensures i <= r <= |t|
    ensures forall k :: i <= k < r ==> !IsWhite(t[k], white)
    ensures r < |t| ==> IsWhite(t[r], white)
    decreases |t| - i
  {
    if i < |t| && !IsWhite(t[i], white) then SkipWord(t, i + 1, white) else i
  }

  // The words from position i on.
  function Runs(t: seq<char>, i: nat, white: Delimiters): seq<Run>
    requires i <= |t|
    decreases |t| - i
  {
    var a := SkipWhite(t, i, white);
    if a == |t| then [] else
    var b := SkipWord(t, a, white);
    [Run(a, b)] + Runs(t, b, white)
  }

  ghost predicate Ordered(rs: seq<Run>) {
    forall j, k :: 0 <= j < k < |rs| ==> rs[j].finish < rs[k].start
  }

  // The words are in order and apart.
  lemma {:induction false} RunsInOrder(t: seq<char>, i: nat, white: Delimiters)
    requires i <= |t|
    ensures forall r :: r in Runs(t, i, white) ==> i <= r.start
    ensures Ordered(Runs(t, i, white))
    decreases |t| - i
  {
    hide IsWhite;
    var a := SkipWhite(t, i, white);
    if a < |t| {
      var b := SkipWord(t, a, white);
      RunsInOrder(t, b, white);
      var rest := Runs(t, b, white);
      forall k | 0 <= k < |rest| ensures b < rest[k].start {
        assert rest[k] in rest;
        RunsMaximal(t, b, white);
        assert !IsWhite(t[rest[k].start], white);
      }
    }
  }

  // Every word is a maximal run ...
  lemma {:induction false} RunsMaximal(t: seq<char>, i: nat, white: Delimiters)
    requires i <= |t| && (0 < i < |t| ==> IsWhite(t[i - 1], white) || IsWhite(t[i], white))
    ensures forall r :: r in Runs(t, i, white) ==> Maximal(t, white, r)
    decreases |t| - i
  {
    hide IsWhite;
    var a := SkipWhite(t, i, white);
    if a < |t| { RunsMaximal(t, SkipWord(t, a, white), white); }
  }

  lemma StartsAtWord(t: seq<char>, i: nat, white: Delimiters, r: Run)
    requires i <= |t| && Maximal(t, white, r) && i <= r.start
    ensures var a := SkipWhite(t, i, white); r.start == a || SkipWord(t, a, white) <= r.start
  {
    hide IsWhite, SkipWhite, SkipWord;
    assert !IsWhite(t[r.start], white);
    if r.start > 0 { assert IsWhite(t[r.start - 1], white); }
  }

  // ... and every maximal run is a word.
  lemma {:induction false} RunsComplete(t: seq<char>, i: nat, white: Delimiters, r: Run)
    requires i <= |t| && Maximal(t, white, r) && i <= r.start
    ensures r in Runs(t, i, white)
    decreases |t| - i
  {
    hide IsWhite;
    var a := SkipWhite(t, i, white);
    var b := SkipWord(t, a, white);
    StartsAtWord(t, i, white, r);
    if r.start == a {
      assert r.finish == b;
    } else {
      RunsComplete(t, b, white, r);
    }
  }

  // The words are exactly the maximal runs, in order.
  lemma WordsAreRuns(t: seq<char>, white: Delimiters, r: Run)
    ensures r in Runs(t, 0, white) <==> Maximal(t, white, r)
    ensures Ordered(Runs(t, 0, white))
  {
    RunsInOrder(t, 0, white);
    RunsMaximal(t, 0, white);
    if Maximal(t, white, r) { RunsComplete(t, 0, white, r); }
  }

  // From the start of word number offset to the end of the last of count words;
  // nothing for positions and counts that make no sense.
  function Subword(t: seq<char>, offset: int, count: int, white: Delimiters): (r: seq<char>)
    ensures r == [] <==> offset < 1 || count < 1 || offset > |Runs(t, 0, white)|
  {
    var rs := Runs(t, 0, white);
    if offset < 1 || count < 1 || offset > |rs| then []
    else
      var last := if count > |rs| - offset + 1 then |rs| else offset - 1 + count;
      RunsSpan(t, offset - 1, last - 1, white);
      t[rs[offset - 1].start..rs[last - 1].finish]
  }

  lemma RunsSpan(t: seq<char>, j: nat, k: nat, white: Delimiters)
    requires j <= k < |Runs(t, 0, white)|
    ensures var rs := Runs(t, 0, white); rs[j].start < rs[k].finish <= |t|
  {
    var rs := Runs(t, 0, white);
    assert rs[j] in rs && rs[k] in rs;
    RunsInOrder(t, 0, white);
    RunsMaximal(t, 0, white);
  }

  // A word alone is a single word again.
  lemma WordOfWord(t: seq<char>, offset: int, white: Delimiters)
    requires 1 <= offset <= |Runs(t, 0, white)|
    ensures var w := Subword(t, offset, 1, white);
            |Runs(w, 0, white)| == 1 && Subword(w, 1, 1, white) == w
  {
    var r := Runs(t, 0, white)[offset - 1];
    assert r in Runs(t, 0, white);
    WordsAreRuns(t, white, r);
    var w := Subword(t, offset, 1, white);
    assert w == t[r.start..r.finish];
    assert SkipWhite(w, 0, white) == 0 && SkipWord(w, 0, white) == |w|;
    assert Runs(w, |w|, white) == [];
  }

  // ----- The same in terms of characters and of pieces of a text -----

  // Space, tab, line feed, vertical tab, form feed and carriage return; of a
  // custom set its characters and the null character.
  lemma WhiteCharacters(ch: char, chars: seq<char>)
    ensures IsWhite(ch, Default) <==> ch as int == 32 || 9 <= ch as int <= 13
    ensures IsWhite(ch, Custom(chars)) <==> ch as int == 0 || exists k :: 0 <= k < |chars| && chars[k] == ch
  {
  }

  // No word reaches from a into b.
  predicate Apart(a: seq<char>, b: seq<char>, white: Delimiters) {
    a == [] || b == [] || IsWhite(a[|a| - 1], white) || IsWhite(b[0], white)
  }

  function Shifted(rs: seq<Run>, n: nat): (r: seq<Run>)
    ensures |r| == |rs| && forall k :: 0 <= k < |rs| ==> r[k] == Run(rs[k].start + n, rs[k].finish + n)
  {
    seq(|rs|, k requires 0 <= k < |rs| => Run(rs[k].start + n, rs[k].finish + n))
  }

  lemma RunsStep(t: seq<char>, i: nat, white: Delimiters)
    requires i <= |t|
    ensures var x := SkipWhite(t, i, white);
            Runs(t, i, white) ==
            if x == |t| then [] else [Run(x, SkipWord(t, x, white))] + Runs(t, SkipWord(t, x, white), white)
  {
    hide IsWhite, SkipWhite, SkipWord;
  }

  lemma ShiftedMore(r: Run, rs: seq<Run>, n: nat)
    ensures Shifted([r] + rs, n) == [Run(n + r.start, n + r.finish)] + Shifted(rs, n)
  {
  }

  lemma NoneShifted(n: nat)
    ensures Shifted([], n) == []
  {
  }

  lemma {:induction false} RunsBehind(a: seq<char>, b: seq<char>, j: nat, white: Delimiters)
    requires j <= |b|
    ensures Runs(a + b, |a| + j, white) == Shifted(Runs(b, j, white), |a|)
    decreases |b| - j
  {
    hide IsWhite, SkipWhite, SkipWord, Shifted, Runs;
    SkipsBehind(a, b, j, white);
    RunsStep(b, j, white);
    RunsStep(a + b, |a| + j, white);
    var x := SkipWhite(b, j, white);
    if x < |b| {
      var y := SkipWord(b, x, white);
      WordEnds(b, x, white);
      SkipsBehind(a, b, x, white);
      RunsBehind(a, b, y, white);
      ShiftedMore(Run(x, y), Runs(b, y, white), |a|);
    } else {
      NoneShifted(|a|);
    }
  }

  lemma SkipWhiteIs(t: seq<char>, i: nat, r: nat, white: Delimiters)
    requires i <= r <= |t| && (r < |t| ==> !IsWhite(t[r], white)) && forall k :: i <= k < r ==> IsWhite(t[k], white)
    ensures SkipWhite(t, i, white) == r
  {
    hide IsWhite, SkipWhite;
  }

  lemma SkipWordIs(t: seq<char>, i: nat, r: nat, white: Delimiters)
    requires i <= r <= |t| && (r < |t| ==> IsWhite(t[r], white)) && forall k :: i <= k < r ==> !IsWhite(t[k], white)
    ensures SkipWord(t, i, white) == r
  {
    hide IsWhite, SkipWord;
  }

  lemma SkipsBehind(a: seq<char>, b: seq<char>, j: nat, white: Delimiters)
    requires j <= |b|
    ensures SkipWhite(a + b, |a| + j, white) == |a| + SkipWhite(b, j, white)
    ensures SkipWord(a + b, |a| + j, white) == |a| + SkipWord(b, j, white)
  {
    hide IsWhite, SkipWhite, SkipWord;
    var t := a + b;
    assert forall k :: |a| <= k < |t| ==> t[k] == b[k - |a|];
    SkipWhiteIs(t, |a| + j, |a| + SkipWhite(b, j, white), white);
    SkipWordIs(t, |a| + j, |a| + SkipWord(b, j, white), white);
  }

  lemma SkipsInFront(a: seq<char>, b: seq<char>, i: nat, white: Delimiters)
    requires i <= |a|
    ensures var x := SkipWhite(a, i, white);
            SkipWhite(a + b, i, white) == if x < |a| then x else SkipWhite(a + b, |a|, white)
    ensures SkipWord(a, i, white) < |a| || (i < |a| && Apart(a, b, white) && !IsWhite(a[|a| - 1], white)) ==>
              SkipWord(a + b, i, white) == SkipWord(a, i, white)
  {
    hide IsWhite, SkipWhite, SkipWord;
    var t := a + b;
    assert forall k :: 0 <= k < |a| ==> t[k] == a[k];
    assert b != [] ==> t[|a|] == b[0];
    var x := SkipWhite(a, i, white);
    SkipWhiteIs(t, i, if x < |a| then x else SkipWhite(t, |a|, white), white);
    var u := SkipWord(a, i, white);
    if u < |a| || (i < |a| && Apart(a, b, white) && !IsWhite(a[|a| - 1], white)) { SkipWordIs(t, i, u, white); }
  }

  lemma {:induction false} RunsInFront(a: seq<char>, b: seq<char>, i: nat, white: Delimiters)
    requires i <= |a| && Apart(a, b, white)
    ensures Runs(a + b, i, white) == Runs(a, i, white) + Runs(a + b, |a|, white)
    decreases |a| - i
  {
    hide IsWhite, SkipWhite, SkipWord, Apart;
    SkipsInFront(a, b, i, white);
    var x := SkipWhite(a, i, white);
    if x < |a| {
      WordEnds(a, x, white);
      SkipsInFront(a, b, x, white);
      RunsInFront(a, b, SkipWord(a, x, white), white);
    } else {
      SkipsInFront(a, b, |a|, white);
      RunsSkip(a + b, i, |a|, white);
    }
  }

  // A word that reaches the end of a ends in its last character.
  lemma WordEnds(a: seq<char>, x: nat, white: Delimiters)
    requires x < |a| && !IsWhite(a[x], white)
    ensures x < SkipWord(a, x, white) <= |a|
    ensures SkipWord(a, x, white) == |a| ==> !IsWhite(a[|a| - 1], white)
  {
    hide IsWhite, SkipWord;
    assert SkipWord(a, x, white) > x;
  }

  lemma RunsSkip(t: seq<char>, i: nat, j: nat, white: Delimiters)
    requires i <= |t| && j <= |t| && SkipWhite(t, i, white) == SkipWhite(t, j, white)
    ensures Runs(t, i, white) == Runs(t, j, white)
  {
    hide IsWhite, SkipWhite, SkipWord;
  }

  // The words of two pieces are the words of the first and those of the second.
  lemma JoinedWords(a: seq<char>, b: seq<char>, white: Delimiters)
    requires Apart(a, b, white)
    ensures Runs(a + b, 0, white) == Runs(a, 0, white) + Shifted(Runs(b, 0, white), |a|)
  {
    RunsInFront(a, b, 0, white);
    RunsBehind(a, b, 0, white);
  }

  // A piece without white characters is one word, one without others none.
  lemma OnePiece(a: seq<char>, white: Delimiters)
    ensures a != [] && (forall k :: 0 <= k < |a| ==> !IsWhite(a[k], white)) ==> Runs(a, 0, white) == [Run(0, |a|)]
    ensures (forall k :: 0 <= k < |a| ==> IsWhite(a[k], white)) <==> Runs(a, 0, white) == []
  {
    hide IsWhite;
    if a != [] && forall k :: 0 <= k < |a| ==> !IsWhite(a[k], white) {
      assert SkipWhite(a, 0, white) == 0 && SkipWord(a, 0, white) == |a|;
      assert Runs(a, |a|, white) == [];
    }
  }

  // subword() cuts out the words behind those in front: of a text in three pieces
  // the middle one, if it begins and ends with a word; any greater count does as
  // well when no word follows.
  lemma SubwordIsMiddle(front: seq<char>, middle: seq<char>, back: seq<char>, count: int, white: Delimiters)
    requires middle != [] && !IsWhite(middle[0], white) && !IsWhite(middle[|middle| - 1], white)
    requires Apart(front, middle, white) && Apart(middle, back, white)
    requires var m := |Runs(middle, 0, white)|;
             count == m || (count > m && forall k :: 0 <= k < |back| ==> IsWhite(back[k], white))
    ensures Subword(front + middle + back, |Runs(front, 0, white)| + 1, count, white) == middle
  {
    hide IsWhite, Runs, Apart, Subword;
    var t, a, m := front + middle + back, Runs(front, 0, white), Runs(middle, 0, white);
    ThreePieces(front, middle, back, white);
    FirstAndLast(middle, white);
    OnePiece(back, white);
    SubwordSpan(t, a, Shifted(m, |front|), Shifted(Runs(back, 0, white), |front| + |middle|), count, white);
    assert t[|front|..|front| + |middle|] == middle;
  }

  lemma SubwordSpan(t: seq<char>, a: seq<Run>, m: seq<Run>, b: seq<Run>, count: int, white: Delimiters)
    requires Runs(t, 0, white) == a + m + b && m != [] && (count == |m| || (count > |m| && b == []))
    ensures m[0].start <= m[|m| - 1].finish <= |t|
    ensures Subword(t, |a| + 1, count, white) == t[m[0].start..m[|m| - 1].finish]
  {
    hide IsWhite, Runs;
    RunsSpan(t, |a|, |a| + |m| - 1, white);
  }

  lemma ThreePieces(a: seq<char>, b: seq<char>, c: seq<char>, white: Delimiters)
    requires Apart(a, b, white) && Apart(b, c, white) && b != []
    ensures Runs(a + b + c, 0, white) ==
            Runs(a, 0, white) + Shifted(Runs(b, 0, white), |a|) + Shifted(Runs(c, 0, white), |a| + |b|)
  {
    hide IsWhite, Runs;
    assert (a + b)[|a + b| - 1] == b[|b| - 1];
    JoinedWords(a, b, white);
    JoinedWords(a + b, c, white);
  }

  // A text that begins and ends with a word.
  lemma FirstAndLast(t: seq<char>, white: Delimiters)
    requires t != [] && !IsWhite(t[0], white) && !IsWhite(t[|t| - 1], white)
    ensures var rs := Runs(t, 0, white); rs != [] && rs[0].start == 0 && rs[|rs| - 1].finish == |t|
  {
    hide IsWhite, SkipWhite, SkipWord;
    SkipWhiteIs(t, 0, 0, white);
    LastWordEnds(t, 0, white);
  }

  lemma {:induction false} LastWordEnds(t: seq<char>, i: nat, white: Delimiters)
    requires i < |t| && !IsWhite(t[|t| - 1], white)
    ensures var rs := Runs(t, i, white); rs != [] && rs[|rs| - 1].finish == |t|
    decreases |t| - i
  {
    hide IsWhite, SkipWhite, SkipWord;
    var x := SkipWhite(t, i, white);
    WordEnds(t, x, white);
    var y := SkipWord(t, x, white);
    if y < |t| { LastWordEnds(t, y, white); } else { assert SkipWhite(t, y, white) == |t|; }
  }

  // Two words with one of the six characters between them.
  lemma TwoWords(a: seq<char>, ch: char, b: seq<char>)
    requires a != [] && b != [] && (ch as int == 32 || 9 <= ch as int <= 13)
    requires forall k :: 0 <= k < |a| ==> a[k] as int != 32 && !(9 <= a[k] as int <= 13)
    requires forall k :: 0 <= k < |b| ==> b[k] as int != 32 && !(9 <= b[k] as int <= 13)
    ensures var t := a + [ch] + b;
            && |Runs(t, 0, Default)| == 2
            && Subword(t, 1, 1, Default) == a && Subword(t, 2, 1, Default) == b && Subword(t, 1, 2, Default) == t
  {
    hide IsWhite, Runs, Subword;
    WhiteCharacters(ch, []);
    forall k | 0 <= k < |a| ensures !IsWhite(a[k], Default) { WhiteCharacters(a[k], []); }
    forall k | 0 <= k < |b| ensures !IsWhite(b[k], Default) { WhiteCharacters(b[k], []); }
    PieceEnds(a, Default);
    PieceEnds(b, Default);
    TwoPieces(a, ch, b, Default);
  }

  lemma PieceEnds(a: seq<char>, white: Delimiters)
    requires a != [] && forall k :: 0 <= k < |a| ==> !IsWhite(a[k], white)
    ensures Runs(a, 0, white) == [Run(0, |a|)] && !IsWhite(a[0], white) && !IsWhite(a[|a| - 1], white)
  {
    OnePiece(a, white);
  }

  lemma TwoPieces(a: seq<char>, ch: char, b: seq<char>, white: Delimiters)
    requires a != [] && Runs(a, 0, white) == [Run(0, |a|)] && !IsWhite(a[0], white) && !IsWhite(a[|a| - 1], white)
    requires b != [] && Runs(b, 0, white) == [Run(0, |b|)] && !IsWhite(b[0], white) && !IsWhite(b[|b| - 1], white)
    requires IsWhite(ch, white)
    ensures var t := a + [ch] + b;
            && |Runs(t, 0, white)| == 2
            && Subword(t, 1, 1, white) == a && Subword(t, 2, 1, white) == b && Subword(t, 1, 2, white) == t
  {
    hide IsWhite, Runs, Subword, Shifted;
    var t, none: seq<char> := a + [ch] + b, [];
    OnePiece([ch], white);
    OnePiece(none, white);
    ThreePieces(a, [ch], b, white);
    JoinedWords(a, [ch], white);
    assert Shifted([], |a|) == [] by { NoneShifted(|a|); }
    assert none + a + ([ch] + b) == t && a + [ch] + b + none == t && none + t + none == t;
    SubwordIsMiddle(none, a, [ch] + b, 1, white);
    SubwordIsMiddle(a + [ch], b, none, 1, white);
    SubwordIsMiddle(none, t, none, 2, white);
  }
}
