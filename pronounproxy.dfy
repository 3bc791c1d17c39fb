/** The pronoun proxy's text side: the table `pronoun_map`, the
    `swap_pronouns` filter applied to each line sent back to the client, and
    the line-by-line copy loop `copy_stream` of the relay. */
module PronounProxy {
  import opened Streams
  import opened PronounTable
  import opened PronounSwap

  // ---------------------------------------------------------------------
  // pronoun_map

  const He: Word := [0x68, 0x65]
  const Him: Word := [0x68, 0x69, 0x6D]
  const His: Word := [0x68, 0x69, 0x73]
  const She: Word := [0x73, 0x68, 0x65]
  const Her: Word := [0x68, 0x65, 0x72]
  const Hers: Word := [0x68, 0x65, 0x72, 0x73]

  /** The dict display `pronoun_map` starts from, in its order: three
      pronouns of each gender, each paired with its counterpart. */
  const BaseItems: seq<Item> := [(He, She), (Him, Her), (His, Hers), (She, He), (Her, Him), (Hers, His)]

  /** `pronoun_map`: the display, then `update` with the upper-case copies
      of its pairs followed by their title-case copies. */
  const PronounMap: map<Word, Word> := WithCaseVariants(BaseItems)

  /** The display lists each of six distinct lower-case words once as a key,
      and each pair also reversed. */
  lemma BaseItemsWellFormed()
    ensures |BaseItems| == 6
    ensures LowerItems(BaseItems) && DistinctKeys(BaseItems) && Reversible(BaseItems) && NoSelfPair(BaseItems)
  {
    var b := BaseItems;
    assert (b[0].1, b[0].0) == b[3] && (b[1].1, b[1].0) == b[4] && (b[2].1, b[2].0) == b[5];
    assert (b[3].1, b[3].0) == b[0] && (b[4].1, b[4].0) == b[1] && (b[5].1, b[5].0) == b[2];
  }

  /** pronoun_map has 18 entries (6 pairs, each in lower, upper and title
      case); every value is a key that maps back; no pronoun maps to
      itself; every key is a word run. */
  lemma PronounMapIsInvolution()
    ensures |PronounMap| == 18
    ensures Involutive(PronounMap) && NoFixedPoint(PronounMap)
    ensures forall k | k in PronounMap :: IsWordRun(k)
  {
    BaseItemsWellFormed();
    CaseVariantsInvolutive(BaseItems);
  }

  /** For instance "he" becomes "she", "HIM" becomes "HER" and "Hers"
      becomes "His". */
  lemma PronounMapExamples()
    ensures He in PronounMap && PronounMap[He] == She
    ensures Upper(Him) in PronounMap && PronounMap[Upper(Him)] == Upper(Her)
    ensures Title(Hers) in PronounMap && PronounMap[Title(Hers)] == Title(His)
  {
    BaseItemsWellFormed();
    CaseVariantsLookup(BaseItems, 0, 0);
    CaseVariantsLookup(BaseItems, 1, 1);
    CaseVariantsLookup(BaseItems, 2, 5);
  }

  // ---------------------------------------------------------------------
  // swap_pronouns

  /** `swap_pronouns`: every whole word that is a key of `pronoun_map` is
      replaced by its value. */
  function SwapPronouns(line: seq<byte>): seq<byte>
  {
    Swap(PronounMap, line)
  }

  /** Swapping pronouns twice gives the line back. */
  lemma SwapPronounsTwice(line: seq<byte>)
    ensures SwapPronouns(SwapPronouns(line)) == line
  {
    PronounMapIsInvolution();
    SwapTwice(PronounMap, line);
  }

  /** A line comes back unchanged exactly when none of its whole words is a
      pronoun of the table. */
  lemma SwapPronounsUnchangedIff(line: seq<byte>)
    ensures SwapPronouns(line) == line <==> !HasKeyWord(PronounMap, line)
  {
    PronounMapIsInvolution();
    SwapUnchangedIff(PronounMap, line);
  }

  /** A word that starts in lower case and is none of the six lower-case
      pronouns is not a key of pronoun_map. */
  lemma NotAPronoun(w: Word)
    requires w != [] && IsLowerByte(w[0])
    requires forall p | 0 <= p < |BaseItems| :: BaseItems[p].0 != w
    ensures w !in PronounMap
  {
    if w in PronounMap {
      BaseItemsWellFormed();
      var part, p := CaseVariantsKeys(BaseItems, w);
    }
  }

  const Said: Word := [0x73, 0x61, 0x69, 0x64]
  const Hi: Word := [0x68, 0x69]

  /** In a line "w0 w1 w2\n" whose last two words are not keys, only the
      first word can change. */
  lemma SwapThreeWords(t: map<Word, Word>, w0: Word, w1: Word, w2: Word)
    requires IsWordRun(w0) && IsWordRun(w1) && IsWordRun(w2)
    requires w1 !in t && w2 !in t
    ensures Swap(t, w0 + ([0x20] + (w1 + ([0x20] + (w2 + [Newline])))))
         == Lookup(t, w0) + ([0x20] + (w1 + ([0x20] + (w2 + [Newline]))))
  {
    var s4: seq<byte> := [Newline];
    SwapNonWordThen(t, Newline, []);
    assert [Newline] + [] == s4;
    var s3 := w2 + s4;
    SwapWordThen(t, w2, s4);
    var s2 := [0x20 as byte] + s3;
    SwapNonWordThen(t, 0x20, s3);
    var s1 := w1 + s2;
    SwapWordThen(t, w1, s2);
    var s0 := [0x20 as byte] + s1;
    SwapNonWordThen(t, 0x20, s1);
    SwapWordThen(t, w0, s0);
  }

  /** "he said hi\n" becomes "she said hi\n": a pronoun is swapped, other
      words, spaces and the newline stay. */
  lemma SwapExample()
    ensures SwapPronouns(He + ([0x20] + (Said + ([0x20] + (Hi + [Newline])))))
         == She + ([0x20] + (Said + ([0x20] + (Hi + [Newline]))))
  {
    NotAPronoun(Said);
    NotAPronoun(Hi);
    PronounMapExamples();
    SwapThreeWords(PronounMap, He, Said, Hi);
  }

  // ---------------------------------------------------------------------
  // copy_stream

  /** The default filter. */
  function Identity(line: seq<byte>): seq<byte>
  {
    line
  }

  /** Each line through the filter. */
  function MapLines(filter: seq<byte> -> seq<byte>, lines: seq<seq<byte>>): (r: seq<seq<byte>>)
    ensures |r| == |lines|
    ensures forall i | 0 <= i < |lines| :: r[i] == filter(lines[i])
  {
    seq(|lines|, i requires 0 <= i < |lines| => filter(lines[i]))
  }

  /** What copy_stream writes for a stream carrying `s`. */
  function Relayed(filter: seq<byte> -> seq<byte>, s: seq<byte>): seq<seq<byte>>
  {
    MapLines(filter, Lines(s))
  }

  /** One round of copy_stream: the line read moves from the unread lines
      to the written ones. */
  lemma CopyStep(filter: seq<byte> -> seq<byte>, log: seq<WriterEvent>, done: seq<seq<byte>>, line: seq<byte>, rest: seq<seq<byte>>)
    ensures done + ([line] + rest) == (done + [line]) + rest
    ensures (log + DataEvents(MapLines(filter, done))) + [Data(filter(line))] == log + DataEvents(MapLines(filter, done + [line]))
  {
    assert MapLines(filter, done + [line]) == MapLines(filter, done) + [filter(line)];
    assert DataEvents(MapLines(filter, done + [line])) == DataEvents(MapLines(filter, done)) + [Data(filter(line))];
  }

  /** The end of copy_stream: with nothing left to read, every line of the
      input has been written. */
  lemma CopyEnd(filter: seq<byte> -> seq<byte>, input: seq<byte>, done: seq<seq<byte>>, rest: seq<byte>)
    requires rest == [] && Lines(input) == done + Lines(rest)
    ensures MapLines(filter, done) == Relayed(filter, input)
  {
    assert done + [] == done;
  }

  /** With the default filter, what is written is what was read. */
  lemma RelayIdentity(s: seq<byte>)
    ensures Flatten(Relayed(Identity, s)) == s
  {
    assert Relayed(Identity, s) == Lines(s);
    FlattenLines(s);
  }

  /** Reads lines until the first empty read, writing each through `filter`,
      then signals end of output once. */
  method CopyStream(reader: Reader, writer: Writer, filter: seq<byte> -> seq<byte>)
    requires reader.Valid()
    modifies reader, writer
    ensures reader.Valid() && reader.Unread() == []
    ensures writer.log == old(writer.log) + DataEvents(Relayed(filter, old(reader.Unread()))) + [Eof]
  {
    ghost var input := reader.Unread();
    ghost var done: seq<seq<byte>> := [];
    while true
      invariant reader.Valid()
      invariant Lines(input) == done + Lines(reader.Unread())
      invariant writer.log == old(writer.log) + DataEvents(MapLines(filter, done))
      decreases |reader.Unread()|
    {
      var line := reader.ReadLine();
      if line == [] {
        CopyEnd(filter, input, done, reader.Unread());
        writer.WriteEof();
        break;
      }
      writer.Write(filter(line));
      CopyStep(filter, old(writer.log), done, line, Lines(reader.Unread()));
      done := done + [line];
    }
  }
}
