/** How the proxy's pronoun table is built: a dict given as a list of
    lower-case pairs, then `update`d with the list of their upper-case copies
    followed by the list of their title-case copies, as `bytes.upper()` and
    `bytes.title()` produce them; and why the result is an involution. */
module PronounTable {
  import opened Streams

  type Word = seq<byte>

  predicate IsLowerByte(b: byte) { 0x61 <= b <= 0x7A }
  predicate IsUpperByte(b: byte) { 0x41 <= b <= 0x5A }
  predicate IsLetter(b: byte) { IsLowerByte(b) || IsUpperByte(b) }

  /** `[A-Za-z0-9_]`: the word characters of `\b` in a bytes pattern. */
  predicate IsWordByte(b: byte)
  {
    IsLetter(b) || 0x30 <= b <= 0x39 || b == 0x5F
  }

  function ToUpperByte(b: byte): byte { if IsLowerByte(b) then b - 0x20 else b }
  function ToLowerByte(b: byte): byte { if IsUpperByte(b) then b + 0x20 else b }

  /** `bytes.upper()`. */
  function Upper(w: Word): Word
  {
    seq(|w|, i requires 0 <= i < |w| => ToUpperByte(w[i]))
  }

  /** `bytes.title()`: a letter is upper-cased at the start or after a
      non-letter, and lower-cased after a letter. */
  function Title(w: Word): Word
  {
    seq(|w|, i requires 0 <= i < |w| => if 0 < i && IsLetter(w[i - 1]) then ToLowerByte(w[i]) else ToUpperByte(w[i]))
  }

  // ---------------------------------------------------------------------
  // Words

  /** A lower-case word of at least two letters. */
  ghost predicate IsLowerWord(w: Word)
  {
    2 <= |w| && forall i | 0 <= i < |w| :: IsLowerByte(w[i])
  }

  /** A non-empty run of word bytes. */
  ghost predicate IsWordRun(w: Word)
  {
    w != [] && forall i | 0 <= i < |w| :: IsWordByte(w[i])
  }

  lemma UpperInjective(a: Word, b: Word)
    requires IsLowerWord(a) && IsLowerWord(b) && Upper(a) == Upper(b)
    ensures a == b
  {
    assert |a| == |Upper(a)| == |Upper(b)| == |b|;
    forall i | 0 <= i < |a|
      ensures a[i] == b[i]
    {
      assert Upper(a)[i] == ToUpperByte(a[i]) && Upper(b)[i] == ToUpperByte(b[i]);
    }
  }

  lemma TitleInjective(a: Word, b: Word)
    requires IsLowerWord(a) && IsLowerWord(b) && Title(a) == Title(b)
    ensures a == b
  {
    assert |a| == |Title(a)| == |Title(b)| == |b|;
    forall i | 0 <= i < |a|
      ensures a[i] == b[i]
    {
      assert Title(a)[i] == Title(b)[i];
      if 0 < i {
        assert IsLetter(a[i - 1]) && IsLetter(b[i - 1]);
      }
    }
  }

  /** The three case patterns never produce the same word. */
  lemma CasePatternsDisjoint(a: Word, b: Word)
    requires IsLowerWord(a) && IsLowerWord(b)
    ensures a != Upper(b) && a != Title(b) && Upper(a) != Title(b)
  {
    assert Upper(b)[0] != a[0];
    assert Title(b)[0] != a[0];
    assert Upper(a)[1] != Title(b)[1];
  }

  lemma CaseVariantsAreWordRuns(k: Word)
    requires IsLowerWord(k)
    ensures IsWordRun(k) && IsWordRun(Upper(k)) && IsWordRun(Title(k))
  {
  }

  // ---------------------------------------------------------------------
  // Dicts built from lists of pairs

  type Item = (Word, Word)

  /** `m.update(items)`, and a dict display when `m` is empty: the pairs are
      stored in turn, a later pair overriding an earlier one. */
  function Update(m: map<Word, Word>, items: seq<Item>): map<Word, Word>
    decreases |items|
  {
    if items == [] then m else Update(m[items[0].0 := items[0].1], items[1..])
  }

  /** No key occurs twice in the list. */
  ghost predicate DistinctKeys(items: seq<Item>)
  {
    forall i, j | 0 <= i < j < |items| :: items[i].0 != items[j].0
  }

  /** Every pair occurs reversed in the list. */
  ghost predicate Reversible(items: seq<Item>)
  {
    forall i | 0 <= i < |items| :: (items[i].1, items[i].0) in items
  }

  ghost predicate NoSelfPair(items: seq<Item>)
  {
    forall i | 0 <= i < |items| :: items[i].0 != items[i].1
  }

  /** Every key and value is a lower-case word. */
  ghost predicate LowerItems(items: seq<Item>)
  {
    forall i | 0 <= i < |items| :: IsLowerWord(items[i].0) && IsLowerWord(items[i].1)
  }

  /** Every value is a key, and looking a value up gives back its key. */
  ghost predicate Involutive(m: map<Word, Word>)
  {
    forall k | k in m :: m[k] in m && m[m[k]] == k
  }

  ghost predicate NoFixedPoint(m: map<Word, Word>)
  {
    forall k | k in m :: m[k] != k
  }

  /** A key the list does not mention keeps its entry. */
  lemma {:induction false} UpdateOther(m: map<Word, Word>, items: seq<Item>, k: Word)
    requires forall i | 0 <= i < |items| :: items[i].0 != k
    ensures k in Update(m, items) <==> k in m
    ensures k in m ==> Update(m, items)[k] == m[k]
    decreases |items|
  {
    if items != [] {
      UpdateOther(m[items[0].0 := items[0].1], items[1..], k);
    }
  }

  /** With distinct keys, every pair of the list is an entry of the result. */
  lemma {:induction false} UpdateItem(m: map<Word, Word>, items: seq<Item>, i: nat)
    requires DistinctKeys(items) && i < |items|
    ensures items[i].0 in Update(m, items) && Update(m, items)[items[i].0] == items[i].1
    decreases |items|
  {
    var m', rest := m[items[0].0 := items[0].1], items[1..];
    if i == 0 {
      UpdateOther(m', rest, items[0].0);
    } else {
      UpdateItem(m', rest, i - 1);
    }
  }

  /** Storing distinct new keys adds one entry each. */
  lemma {:induction false} UpdateSize(m: map<Word, Word>, items: seq<Item>)
    requires DistinctKeys(items)
    requires forall i | 0 <= i < |items| :: items[i].0 !in m
    ensures |Update(m, items)| == |m| + |items|
    decreases |items|
  {
    if items != [] {
      var m', rest := m[items[0].0 := items[0].1], items[1..];
      assert forall i | 0 <= i < |rest| :: rest[i] == items[i + 1];
      UpdateSize(m', rest);
    }
  }

  /** Updating with two lists in turn is updating with the one after the
      other. */
  lemma {:induction false} UpdateAppend(m: map<Word, Word>, a: seq<Item>, b: seq<Item>)
    ensures Update(Update(m, a), b) == Update(m, a + b)
    decreases |a|
  {
    if a == [] {
      assert a + b == b;
    } else {
      var m' := m[a[0].0 := a[0].1];
      assert (a + b)[0] == a[0] && (a + b)[1..] == a[1..] + b;
      assert Update(m, a + b) == Update(m', a[1..] + b);
      assert Update(m, a) == Update(m', a[1..]);
      UpdateAppend(m', a[1..], b);
    }
  }

  /** A dict built from a reversible list of distinct keys without a pair
      of equal words is an involution without fixed points, with one entry
      per pair, and its keys are the keys of the list. */
  lemma DictInvolutive(items: seq<Item>)
    requires DistinctKeys(items) && Reversible(items) && NoSelfPair(items)
    ensures Involutive(Update(map[], items)) && NoFixedPoint(Update(map[], items))
    ensures |Update(map[], items)| == |items|
    ensures forall k | k in Update(map[], items) :: exists i | 0 <= i < |items| :: items[i].0 == k
  {
    var m := Update(map[], items);
    forall k | k in m
      ensures m[k] in m && m[m[k]] == k && m[k] != k
      ensures exists i | 0 <= i < |items| :: items[i].0 == k
    {
      if forall i | 0 <= i < |items| :: items[i].0 != k {
        UpdateOther(map[], items, k);
      }
      var i :| 0 <= i < |items| && items[i].0 == k;
      UpdateItem(map[], items, i);
      var j :| 0 <= j < |items| && items[j] == (items[i].1, items[i].0);
      UpdateItem(map[], items, j);
    }
    UpdateSize(map[], items);
  }

  // ---------------------------------------------------------------------
  // The case copies

  /** `[(a.upper(), b.upper()) for a, b in items]`. */
  function UpperItems(items: seq<Item>): (r: seq<Item>)
    ensures |r| == |items|
    ensures forall i | 0 <= i < |items| :: r[i] == (Upper(items[i].0), Upper(items[i].1))
  {
    seq(|items|, i requires 0 <= i < |items| => (Upper(items[i].0), Upper(items[i].1)))
  }

  /** `[(a.title(), b.title()) for a, b in items]`. */
  function TitleItems(items: seq<Item>): (r: seq<Item>)
    ensures |r| == |items|
    ensures forall i | 0 <= i < |items| :: r[i] == (Title(items[i].0), Title(items[i].1))
  {
    seq(|items|, i requires 0 <= i < |items| => (Title(items[i].0), Title(items[i].1)))
  }

  /** The dict of `items`, then `update`d with the upper-case copies
      followed by the title-case copies of its pairs. */
  function WithCaseVariants(items: seq<Item>): map<Word, Word>
  {
    Update(Update(map[], items), UpperItems(items) + TitleItems(items))
  }

  /** All the pairs stored, in order. */
  function CaseItems(items: seq<Item>): seq<Item>
  {
    items + UpperItems(items) + TitleItems(items)
  }

  /** The word in case pattern `part`: 0 as it is, 1 upper case, 2 title
      case. */
  function Variant(part: nat, w: Word): Word
  {
    if part == 0 then w else if part == 1 then Upper(w) else Title(w)
  }

  function Offset(part: nat, n: nat): nat
  {
    if part == 0 then 0 else if part == 1 then n else n + n
  }

  /** Where the copy in pattern `part` of pair `p` sits in CaseItems. */
  lemma CaseItemsAt(items: seq<Item>, part: nat, p: nat)
    requires part < 3 && p < |items|
    ensures |CaseItems(items)| == 3 * |items|
    ensures Offset(part, |items|) + p < |CaseItems(items)|
    ensures CaseItems(items)[Offset(part, |items|) + p] == (Variant(part, items[p].0), Variant(part, items[p].1))
  {
  }

  /** Every position of CaseItems is the copy of some pair in some pattern. */
  lemma CaseItemsSplit(items: seq<Item>, x: nat) returns (part: nat, p: nat)
    requires x < |CaseItems(items)|
    ensures part < 3 && p < |items| && x == Offset(part, |items|) + p
    ensures CaseItems(items)[x] == (Variant(part, items[p].0), Variant(part, items[p].1))
  {
    var n := |items|;
    if x < n {
      part, p := 0, x;
    } else if x < n + n {
      part, p := 1, x - n;
    } else {
      part, p := 2, x - n - n;
    }
    CaseItemsAt(items, part, p);
  }

  lemma VariantInjective(part: nat, a: Word, b: Word)
    requires IsLowerWord(a) && IsLowerWord(b) && Variant(part, a) == Variant(part, b)
    ensures a == b
  {
    if part == 1 {
      UpperInjective(a, b);
    } else if part != 0 {
      TitleInjective(a, b);
    }
  }

  lemma VariantsDisjoint(part: nat, part': nat, a: Word, b: Word)
    requires part < 3 && part' < 3 && part != part'
    requires IsLowerWord(a) && IsLowerWord(b)
    ensures Variant(part, a) != Variant(part', b)
  {
    CasePatternsDisjoint(a, b);
    CasePatternsDisjoint(b, a);
  }

  lemma CaseItemsDistinct(items: seq<Item>)
    requires LowerItems(items) && DistinctKeys(items)
    ensures DistinctKeys(CaseItems(items))
  {
    var c := CaseItems(items);
    forall x, y | 0 <= x < y < |c|
      ensures c[x].0 != c[y].0
    {
      var part, p := CaseItemsSplit(items, x);
      var part', q := CaseItemsSplit(items, y);
      if part == part' {
        if c[x].0 == c[y].0 {
          VariantInjective(part, items[p].0, items[q].0);
        }
      } else {
        VariantsDisjoint(part, part', items[p].0, items[q].0);
      }
    }
  }

  lemma CaseItemsReversible(items: seq<Item>)
    requires Reversible(items)
    ensures Reversible(CaseItems(items))
  {
    var c := CaseItems(items);
    forall x | 0 <= x < |c|
      ensures (c[x].1, c[x].0) in c
    {
      var part, p := CaseItemsSplit(items, x);
      var q :| 0 <= q < |items| && items[q] == (items[p].1, items[p].0);
      CaseItemsAt(items, part, q);
    }
  }

  lemma CaseItemsNoSelfPair(items: seq<Item>)
    requires LowerItems(items) && NoSelfPair(items)
    ensures NoSelfPair(CaseItems(items))
    ensures forall x | 0 <= x < |CaseItems(items)| :: IsWordRun(CaseItems(items)[x].0)
  {
    var c := CaseItems(items);
    forall x | 0 <= x < |c|
      ensures c[x].0 != c[x].1 && IsWordRun(c[x].0)
    {
      var part, p := CaseItemsSplit(items, x);
      CaseVariantsAreWordRuns(items[p].0);
      if c[x].0 == c[x].1 {
        VariantInjective(part, items[p].0, items[p].1);
      }
    }
  }

  /** The update stores the pairs of CaseItems in order. */
  lemma CaseVariantsAsDict(items: seq<Item>)
    ensures WithCaseVariants(items) == Update(map[], CaseItems(items))
  {
    UpdateAppend(map[], items, UpperItems(items) + TitleItems(items));
    assert items + (UpperItems(items) + TitleItems(items)) == CaseItems(items);
  }

  /** Each pair of a lower-case list with distinct keys is in the result in
      all three case patterns. */
  lemma CaseVariantsLookup(items: seq<Item>, part: nat, p: nat)
    requires LowerItems(items) && DistinctKeys(items)
    requires part < 3 && p < |items|
    ensures Variant(part, items[p].0) in WithCaseVariants(items)
    ensures WithCaseVariants(items)[Variant(part, items[p].0)] == Variant(part, items[p].1)
  {
    CaseVariantsAsDict(items);
    CaseItemsDistinct(items);
    CaseItemsAt(items, part, p);
    UpdateItem(map[], CaseItems(items), Offset(part, |items|) + p);
  }

  /** And nothing else is: every key is a key of the list in one of the
      three case patterns. */
  lemma CaseVariantsKeys(items: seq<Item>, k: Word) returns (part: nat, p: nat)
    requires k in WithCaseVariants(items)
    ensures part < 3 && p < |items| && k == Variant(part, items[p].0)
  {
    CaseVariantsAsDict(items);
    var c := CaseItems(items);
    if forall x | 0 <= x < |c| :: c[x].0 != k {
      UpdateOther(map[], c, k);
    }
    var x :| 0 <= x < |c| && c[x].0 == k;
    part, p := CaseItemsSplit(items, x);
  }

  /** Updating a reversible lower-case dict without a self-pair by its upper-
      and title-case copies gives an involution without fixed points, three
      times the size, keyed by word runs only. */
  lemma CaseVariantsInvolutive(items: seq<Item>)
    requires LowerItems(items) && DistinctKeys(items) && Reversible(items) && NoSelfPair(items)
    ensures Involutive(WithCaseVariants(items)) && NoFixedPoint(WithCaseVariants(items))
    ensures |WithCaseVariants(items)| == 3 * |items|
    ensures forall k | k in WithCaseVariants(items) :: IsWordRun(k)
  {
    var c := CaseItems(items);
    CaseVariantsAsDict(items);
    CaseItemsDistinct(items);
    CaseItemsReversible(items);
    CaseItemsNoSelfPair(items);
    DictInvolutive(c);
  }
}
