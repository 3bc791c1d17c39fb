/** The whole-word substitution behind `swap_pronouns`: `re.sub` with the
    pattern `\b(k1|k2|...)\b` over the keys of a table, each match replaced
    by `table.get(match, match)`. Since every key is a run of word bytes, a
    match is exactly a maximal run of word bytes that is a key. */
module PronounSwap {
  import opened Streams
  import opened PronounTable

  /** What the substitution needs of its table: an involution without fixed
      points whose keys are runs of word bytes. */
  ghost predicate IsSwapTable(table: map<Word, Word>)
  {
    Involutive(table) && NoFixedPoint(table) && forall k | k in table :: IsWordRun(k)
  }

  /** Length of the maximal run of word bytes at the start of `s`. */
  function RunLength(s: seq<byte>): (n: nat)
    ensures n <= |s|
    ensures forall i | 0 <= i < n :: IsWordByte(s[i])
    ensures n < |s| ==> !IsWordByte(s[n])
  {
    if s == [] || !IsWordByte(s[0]) then 0 else 1 + RunLength(s[1..])
  }

  /** `table.get(w, w)`. */
  function Lookup(table: map<Word, Word>, w: Word): Word
  {
    if w in table then table[w] else w
  }

  /** Every maximal run of word bytes that is a key is replaced by its value;
      everything else is copied. */
  function Swap(table: map<Word, Word>, line: seq<byte>): seq<byte>
    decreases |line|
  {
    if line == [] then []
    else if !IsWordByte(line[0]) then [line[0]] + Swap(table, line[1..])
    else Lookup(table, line[..RunLength(line)]) + Swap(table, line[RunLength(line)..])
  }

  /** Positions i..j of `line` hold a word run bounded by non-word bytes or
      the ends of the line: a whole word for `\b...\b`. */
  ghost predicate IsMaximalRun(line: seq<byte>, i: int, j: int)
  {
    && 0 <= i < j <= |line|
    && (forall p | i <= p < j :: IsWordByte(line[p]))
    && (i == 0 || !IsWordByte(line[i - 1]))
    && (j == |line| || !IsWordByte(line[j]))
  }

  /** Some whole word of the line is a key of the table. */
  ghost predicate HasKeyWord(table: map<Word, Word>, line: seq<byte>)
  {
    exists i, j :: IsMaximalRun(line, i, j) && line[i..j] in table
  }

  lemma RunLengthUnique(s: seq<byte>, n: nat)
    requires n <= |s|
    requires forall i | 0 <= i < n :: IsWordByte(s[i])
    requires n < |s| ==> !IsWordByte(s[n])
    ensures RunLength(s) == n
  {
  }

  /** One step of SwapSplit at a leading non-word byte. */
  lemma SplitNonWordStep(table: map<Word, Word>, a: seq<byte>, b: seq<byte>)
    requires a != [] && !IsWordByte(a[0])
    requires Swap(table, a[1..] + b) == Swap(table, a[1..]) + Swap(table, b)
    ensures Swap(table, a + b) == Swap(table, a) + Swap(table, b)
  {
    assert (a + b)[1..] == a[1..] + b;
    assert Swap(table, a) == [a[0]] + Swap(table, a[1..]);
    AppendAssoc([a[0]], Swap(table, a[1..]), Swap(table, b));
  }

  /** A leading non-word byte is copied. */
  lemma SwapNonWordThen(table: map<Word, Word>, c: byte, b: seq<byte>)
    requires !IsWordByte(c)
    ensures Swap(table, [c] + b) == [c] + Swap(table, b)
  {
    assert ([c] + b)[1..] == b;
  }

  /** A whole word followed by anything that does not continue it is
      replaced by its lookup. */
  lemma SwapWordThen(table: map<Word, Word>, w: Word, b: seq<byte>)
    requires IsWordRun(w)
    requires b == [] || !IsWordByte(b[0])
    ensures Swap(table, w + b) == Lookup(table, w) + Swap(table, b)
  {
    RunLengthUnique(w + b, |w|);
    assert (w + b)[..|w|] == w;
    assert (w + b)[|w|..] == b;
  }

  /** One step of SwapSplit at a leading word run `w`, followed by the rest
      `r` of the first part and then `b`. */
  lemma SplitWordStep(table: map<Word, Word>, w: Word, r: seq<byte>, b: seq<byte>)
    requires IsWordRun(w)
    requires r == [] || !IsWordByte(r[0])
    requires r == [] ==> b == [] || !IsWordByte(b[0])
    requires Swap(table, r + b) == Swap(table, r) + Swap(table, b)
    ensures Swap(table, (w + r) + b) == Swap(table, w + r) + Swap(table, b)
  {
    SwapWordThen(table, w, r + b);
    SwapWordThen(table, w, r);
    AppendAssoc(w, r, b);
    AppendAssoc(Lookup(table, w), Swap(table, r), Swap(table, b));
  }

  /** The substitution can be done piecewise at any point where a word does
      not continue across the cut. */
  lemma {:induction false} SwapSplit(table: map<Word, Word>, a: seq<byte>, b: seq<byte>)
    requires a == [] || b == [] || !IsWordByte(a[|a| - 1]) || !IsWordByte(b[0])
    ensures Swap(table, a + b) == Swap(table, a) + Swap(table, b)
    decreases |a|
  {
    if a == [] {
      assert a + b == b;
    } else if !IsWordByte(a[0]) {
      var r := a[1..];
      assert r == [] || r[|r| - 1] == a[|a| - 1];
      SwapSplit(table, r, b);
      SplitNonWordStep(table, a, b);
    } else {
      var n := RunLength(a);
      var w, r := a[..n], a[n..];
      assert a == w + r;
      assert r == [] || r[|r| - 1] == a[|a| - 1];
      assert r == [] ==> w[|w| - 1] == a[|a| - 1];
      SwapSplit(table, r, b);
      SplitWordStep(table, w, r, b);
    }
  }



  /** A non-word byte, a newline included, stays where it is between the
      swapped text before and after it. */
  lemma SwapKeepsNonWordByte(table: map<Word, Word>, a: seq<byte>, c: byte, b: seq<byte>)
    requires !IsWordByte(c)
    ensures Swap(table, a + [c] + b) == Swap(table, a) + [c] + Swap(table, b)
  {
    SwapSplit(table, a, [c] + b);
    SwapNonWordThen(table, c, b);
    AppendAssoc(a, [c], b);
    AppendAssoc(Swap(table, a), [c], Swap(table, b));
  }

  /** A whole word is replaced by its lookup, independently of the rest. */
  lemma SwapWholeWord(table: map<Word, Word>, a: seq<byte>, w: Word, b: seq<byte>)
    requires IsWordRun(w)
    requires a == [] || !IsWordByte(a[|a| - 1])
    requires b == [] || !IsWordByte(b[0])
    ensures Swap(table, a + w + b) == Swap(table, a) + Lookup(table, w) + Swap(table, b)
  {
    SwapWordThen(table, w, b);
    SwapSplit(table, a, w + b);
    AppendAssoc(a, w, b);
    AppendAssoc(Swap(table, a), Lookup(table, w), Swap(table, b));
  }

  /** A line that does not start inside a word is swapped into one that
      does not either. */
  lemma SwapStartsOutsideWord(table: map<Word, Word>, s: seq<byte>)
    requires s == [] || !IsWordByte(s[0])
    ensures Swap(table, s) == [] || !IsWordByte(Swap(table, s)[0])
  {
  }

  lemma LookupTwice(table: map<Word, Word>, w: Word)
    requires IsSwapTable(table) && IsWordRun(w)
    ensures IsWordRun(Lookup(table, w)) && Lookup(table, Lookup(table, w)) == w
  {
  }

  /** One step of SwapTwice at a leading non-word byte. */
  lemma SwapTwiceNonWord(table: map<Word, Word>, c: byte, rest: seq<byte>)
    requires !IsWordByte(c)
    requires Swap(table, Swap(table, rest)) == rest
    ensures Swap(table, Swap(table, [c] + rest)) == [c] + rest
  {
    SwapNonWordThen(table, c, rest);
    SwapNonWordThen(table, c, Swap(table, rest));
  }

  /** One step of SwapTwice at a leading whole word. */
  lemma SwapTwiceWord(table: map<Word, Word>, w: Word, rest: seq<byte>)
    requires IsSwapTable(table) && IsWordRun(w)
    requires rest == [] || !IsWordByte(rest[0])
    requires Swap(table, Swap(table, rest)) == rest
    ensures Swap(table, Swap(table, w + rest)) == w + rest
  {
    LookupTwice(table, w);
    SwapWordThen(table, w, rest);
    SwapStartsOutsideWord(table, rest);
    SwapWordThen(table, Lookup(table, w), Swap(table, rest));
  }

  /** Swapping twice gives the line back. */
  lemma {:induction false} SwapTwice(table: map<Word, Word>, line: seq<byte>)
    requires IsSwapTable(table)
    ensures Swap(table, Swap(table, line)) == line
    decreases |line|
  {
    if line == [] {
    } else if !IsWordByte(line[0]) {
      var rest := line[1..];
      SwapTwice(table, rest);
      assert line == [line[0]] + rest;
      SwapTwiceNonWord(table, line[0], rest);
    } else {
      var n := RunLength(line);
      var w, rest := line[..n], line[n..];
      SwapTwice(table, rest);
      assert line == w + rest;
      SwapTwiceWord(table, w, rest);
    }
  }

  /** Length of the first token of a line: its leading word run, or its
      leading non-word byte. */
  function TokenLength(line: seq<byte>): (n: nat)
    requires line != []
    ensures 0 < n <= |line|
  {
    if IsWordByte(line[0]) then RunLength(line) else 1
  }

  lemma PrefixCancel(x: seq<byte>, y: seq<byte>, z: seq<byte>)
    ensures x + y == x + z <==> y == z
  {
    if x + y == x + z {
      assert y == (x + y)[|x|..];
    }
  }

  /** A text that starts with a word run and then leaves the word splits
      there in one way only. */
  lemma WordPrefixUnique(u: Word, x: seq<byte>, v: Word, y: seq<byte>)
    requires IsWordRun(u) && IsWordRun(v)
    requires x == [] || !IsWordByte(x[0])
    requires y == [] || !IsWordByte(y[0])
    requires u + x == v + y
    ensures u == v && x == y
  {
    RunLengthUnique(u + x, |u|);
    RunLengthUnique(v + y, |v|);
    assert u == (u + x)[..|u|];
    assert v == (v + y)[..|v|];
    PrefixCancel(u, x, y);
  }

  /** A whole word of the part after the first token is a whole word of the
      line, shifted by the token's length. */
  lemma ShiftUp(line: seq<byte>, n: nat, i: nat, j: int)
    requires 0 < n <= |line|
    requires IsMaximalRun(line[n..], i, j)
    requires i == 0 ==> !IsWordByte(line[n - 1])
    ensures IsMaximalRun(line, n + i, n + j) && line[n + i..n + j] == line[n..][i..j]
  {
    var rest := line[n..];
    assert forall p | i <= p < j :: rest[p] == line[n + p];
    assert 0 < i ==> rest[i - 1] == line[n + i - 1];
    assert j < |rest| ==> rest[j] == line[n + j];
  }

  /** A whole word of the line that starts at or after position n is a
      whole word of the part after n, shifted back. */
  lemma ShiftDown(line: seq<byte>, n: nat, i: nat, j: int)
    requires 0 < n <= i
    requires IsMaximalRun(line, i, j)
    ensures IsMaximalRun(line[n..], i - n, j - n) && line[n..][i - n..j - n] == line[i..j]
  {
    var rest := line[n..];
    assert forall p | i - n <= p < j - n :: rest[p] == line[n + p];
    assert n < i ==> rest[i - n - 1] == line[i - 1];
    assert j - n < |rest| ==> rest[j - n] == line[j];
  }

  lemma KeyWordStepUp(table: map<Word, Word>, line: seq<byte>)
    requires line != []
    ensures HasKeyWord(table, line[TokenLength(line)..]) ==> HasKeyWord(table, line)
  {
    var n := TokenLength(line);
    var rest := line[n..];
    if HasKeyWord(table, rest) {
      var i, j :| IsMaximalRun(rest, i, j) && rest[i..j] in table;
      if IsWordByte(line[0]) {
        assert !IsWordByte(rest[0]);
      }
      ShiftUp(line, n, i, j);
    }
  }

  lemma KeyWordFirst(table: map<Word, Word>, line: seq<byte>)
    requires line != [] && IsWordByte(line[0]) && line[..RunLength(line)] in table
    ensures HasKeyWord(table, line)
  {
    assert IsMaximalRun(line, 0, RunLength(line));
  }

  lemma KeyWordStepDown(table: map<Word, Word>, line: seq<byte>)
    requires line != [] && HasKeyWord(table, line)
    ensures (IsWordByte(line[0]) && line[..RunLength(line)] in table) || HasKeyWord(table, line[TokenLength(line)..])
  {
    var n := TokenLength(line);
    var i, j :| IsMaximalRun(line, i, j) && line[i..j] in table;
    if i == 0 {
      RunLengthUnique(line, j);
    } else {
      assert !IsWordByte(line[i - 1]);
      ShiftDown(line, n, i, j);
    }
  }

  /** One step of SwapUnchangedIff at a leading non-word byte. */
  lemma UnchangedNonWordStep(table: map<Word, Word>, line: seq<byte>)
    requires line != [] && !IsWordByte(line[0])
    requires Swap(table, line[1..]) == line[1..] <==> !HasKeyWord(table, line[1..])
    ensures Swap(table, line) == line <==> !HasKeyWord(table, line)
  {
    var rest := line[1..];
    KeyWordStepUp(table, line);
    if HasKeyWord(table, line) {
      KeyWordStepDown(table, line);
    }
    assert line == [line[0]] + rest;
    SwapNonWordThen(table, line[0], rest);
    PrefixCancel([line[0]], Swap(table, rest), rest);
  }

  /** One step of SwapUnchangedIff at a leading word run. */
  lemma UnchangedWordStep(table: map<Word, Word>, line: seq<byte>)
    requires IsSwapTable(table)
    requires line != [] && IsWordByte(line[0])
    requires Swap(table, line[RunLength(line)..]) == line[RunLength(line)..] <==> !HasKeyWord(table, line[RunLength(line)..])
    ensures Swap(table, line) == line <==> !HasKeyWord(table, line)
  {
    var n := RunLength(line);
    var first, rest := line[..n], line[n..];
    KeyWordStepUp(table, line);
    if HasKeyWord(table, line) {
      KeyWordStepDown(table, line);
    }
    assert line == first + rest;
    SwapWordThen(table, first, rest);
    SwapStartsOutsideWord(table, rest);
    if first in table {
      KeyWordFirst(table, line);
      LookupTwice(table, first);
      if Swap(table, line) == line {
        WordPrefixUnique(Lookup(table, first), Swap(table, rest), first, rest);
      }
    } else {
      PrefixCancel(first, Swap(table, rest), rest);
    }
  }

  /** A line is left as it is exactly when none of its whole words is a key;
      a key inside a longer word does not count. */
  lemma {:induction false} SwapUnchangedIff(table: map<Word, Word>, line: seq<byte>)
    requires IsSwapTable(table)
    ensures Swap(table, line) == line <==> !HasKeyWord(table, line)
    decreases |line|
  {
    if line != [] {
      SwapUnchangedIff(table, line[TokenLength(line)..]);
      if IsWordByte(line[0]) {
        UnchangedWordStep(table, line);
      } else {
        UnchangedNonWordStep(table, line);
      }
    }
  }
}
