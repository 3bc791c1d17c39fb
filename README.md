# Pronoun Proxy in Dafny

Pronoun Proxy is a small SOCKS5 proxy. It accepts a client and does the server
side of the SOCKS5 negotiation of RFC 1928:

- the version identifier / method selection message of section 3, where only
  "no authentication required" (X'00') is accepted;
- the CONNECT request of section 4, with the address types of section 5;
- the reply of section 6.

It then relays the two streams line by line. Each line going back to the
client passes through `swap_pronouns`, which replaces every whole word that is
a gendered pronoun ("he", "HIM", "Hers", ...) by its counterpart.

The project models that core in five files.

- `streams.dfy` (module `Streams`) covers the part of asyncio's streams the
  code uses.
  - A `Reader` is the bytes the peer will send plus a cursor. `readexactly`
    and `readline` are specified by functions on the unread bytes.
  - A `Writer` is the log of `write` / `write_eof` calls.
  - A Python exception is a value of `Outcome`.
- `s5.dfy` (module `S5`) is the SOCKS5 negotiation of `s5.py`. Each handler
  appears twice:
  - a function on the bytes the client sends, returning an `Exchange`: the
    outcome, the number of bytes consumed, the replies written and the
    destinations dialled;
  - a method over `Reader`, `Writer` and `Dialer` objects proved to do
    exactly what that function says.

  The wire encoders (`EncodeRequest`, `EncodeAddress`, ...) are the partners
  of the parsers. The round-trip lemmas connect the two.
- `pronoun_table.dfy` (module `PronounTable`) builds a dict from a list of
  pairs, as Python's dict display and `dict.update` do. It adds the
  upper-case and title-case copies of each pair. Lemmas prove that the
  result is an involution without fixed points, with three times as many
  entries as the list.
- `pronoun_swap.dfy` (module `PronounSwap`) is the regex substitution. The
  pattern `\b(he|him|...)\b` matches exactly the maximal runs of
  `[A-Za-z0-9_]` that are keys of the table. `Swap` replaces each such run
  and keeps every other byte. It is proved, for any table that is an
  involution on words:
  - to be its own inverse;
  - to leave a line unchanged exactly when the line holds no key word.
- `pronounproxy.dfy` (module `PronounProxy`) holds:
  - the concrete `pronoun_map` and `swap_pronouns`;
  - the `copy_stream` loop, proved to write one filtered chunk per line of
    the input and then end the output once.

## Model

| member | source | states |
|---|---|---|
| Streams.ReadExactlyOn | s5.py:5 | `readexactly(n)` on the unread bytes: the first n bytes, or IncompleteReadError with everything left consumed. No contract of its own; `Streams.Reader.ReadExactly` implements it and `S5.AddressTruncated` uses its error path. |
| Streams.Reader.ReadExactly | s5.py:5 | `readexactly(n)` returns the next n bytes and advances by n. On a short stream it raises IncompleteReadError and leaves nothing unread. |
| Streams.LineLength | pronounproxy.py:65 | A line ends at its first newline, which it includes, or at the end of the stream. It is non-empty unless the stream is empty. |
| Streams.Reader.ReadLine | pronounproxy.py:65 | `readline()` returns the next line and advances past it. It returns empty exactly at the end of the stream. It yields the first of the stream's `Lines`. |
| Streams.Lines | pronounproxy.py:64-66 | The lines successive `readline()` calls return until the empty read. No contract of its own; its properties are `Streams.LinesAreLines` and `Streams.FlattenLines`. |
| Streams.LinesAreLines | pronounproxy.py:64-69 | Every line read is non-empty. None holds a newline before its end. All but the last end in a newline. |
| Streams.FlattenLines | pronounproxy.py:64-69 | The lines read, joined, are the whole stream: nothing is lost or added. |
| Streams.Writer.Write | pronounproxy.py:69 | `write` appends one data event to the writer's log. |
| Streams.Writer.WriteEof | pronounproxy.py:67 | `write_eof` appends the end-of-output event. |
| S5.SuccessReply | s5.py:101-110 | The success reply is 10 bytes for an IPv4 local end and 22 for IPv6. It starts 05 00 00, then ATYP 01 or 04. |
| S5.SuccessReplyRoundTrip | s5.py:101-110 | The reply parses back, as an RFC 1928 address and port, to the local endpoint's address and port, with no byte left over. |
| S5.ParsePString | s5.py:3-7 | `read_pstring` succeeds exactly when the length byte and that many bytes are present. It then consumes 1 + length bytes, which are the encoding of the result. Otherwise it raises IncompleteReadError and drains the stream. |
| S5.PStringRoundTrip | s5.py:3-7 | Parsing an encoded Pascal string, whatever follows it, gives back the string and consumes exactly its encoding. |
| S5.ParseAtypAddr | s5.py:9-23 | `read_atyp_addr` only returns an address whose encoding is exactly the bytes it consumed. Its only errors are ValueError and IncompleteReadError; an IncompleteReadError drains the stream. |
| S5.AtypAddrCases | s5.py:15-23 | ATYP 01 reads 4 bytes, 03 a Pascal string, 04 16 bytes. Any other ATYP raises ValueError after one byte. ValueError arises exactly for an unknown ATYP or an undecodable domain name. A returned domain name always decodes. |
| S5.AddressRoundTrip | s5.py:15-23 | Every address the protocol can carry (a domain name that decodes) parses back from its encoding, whatever follows it. |
| S5.IPv4RoundTrip | s5.py:16-17 | The IPv4 case of the round trip: five bytes consumed. |
| S5.DomainRoundTrip | s5.py:18-19 | The domain-name case of the round trip: 2 + length bytes consumed. |
| S5.IPv6RoundTrip | s5.py:20-21 | The IPv6 case of the round trip: seventeen bytes consumed. |
| S5.AddressTruncated | s5.py:15-21 | Every proper prefix of an encoded address raises IncompleteReadError and consumes the whole prefix. |
| S5.ParsePort | s5.py:87 | The port is read as two bytes and succeeds exactly when two bytes are present. The two bytes consumed are the port's big-endian encoding. |
| S5.PortRoundTrip | s5.py:87 | Every port in 0..65535 parses back from its big-endian encoding. |
| S5.RequestPort | s5.py:87 | The parsed port is 256 × the first port byte + the second, the `>H` unpacking. |
| S5.ParseRequest | s5.py:83-87 | Reading a request never consumes more than the client sent. |
| S5.RequestCases | s5.py:83-87 | A request returned is exactly the bytes consumed. A version other than 5 or a non-zero reserved byte raises ValueError after 3 bytes. ValueError arises exactly then or from the address. Every other error is IncompleteReadError, which drains the stream. |
| S5.RequestRoundTrip | s5.py:83-87 | Every request whose domain name decodes parses back from its encoding, whatever follows it. |
| S5.VersionMethodExchange | s5.py:46-59 | A wrong version returns False after one byte and writes nothing. The result is True exactly when the method list arrived and contains 00; then the version byte and the method list are consumed and 05 00 is written. A list without 00 returns False and writes 05 FF. It raises exactly when the greeting is cut short (no version byte, or version 5 with an incomplete method list); the error is IncompleteReadError, the stream is drained and nothing is written. Nothing is dialled. |
| S5.NoAuthGreeting | s5.py:46-54 | The greeting 05 01 00 is accepted with reply 05 00 after three bytes, whatever follows. |
| S5.RequestExchange | s5.py:83-116 | A parse error propagates with no reply and no dial. A non-CONNECT command writes "command not supported" and dials nothing. CONNECT dials the destination once. A failed connection writes "general failure" and returns no connection. A successful one writes the success reply for the local end and returns the destination. |
| S5.UnsupportedCommandNeverDials | s5.py:113-116 | For a command other than CONNECT the exchange does not depend on the network at all and dials nothing. |
| S5.ConnectSucceeds | s5.py:89-112 | An encoded CONNECT request whose connection opens consumes exactly its encoding, writes the success reply, dials the destination once and returns it. |
| S5.ExampleRequestBytes | s5.py:68-73 | CONNECT to 93.184.216.34:80 is encoded as 05 01 00 01 5D B8 D8 22 00 50. |
| S5.Socks5Exchange | s5.py:119-131 | ValueError never escapes `handle_socks5`; only IncompleteReadError does, and it drains the stream. If negotiation fails (wrong version or no acceptable method) the result is False and only the method reply is written; a truncated greeting raises IncompleteReadError. Otherwise the request is handled on the bytes after the greeting, and a ValueError there becomes False. |
| S5.CatchValueError | s5.py:129-131 | `except ValueError: return False`: a ValueError becomes False (`None`), and any other outcome passes through unchanged, so the result is never ValueError. |
| S5.ConnectIPv4Scenario | s5.py:119-131 | Greeting plus CONNECT to 93.184.216.34:80 consumes 13 bytes, writes 05 00 then the success reply, dials once and returns the destination. |
| S5.VersionMethodAsWritten | s5.py:46-59 | `handle_version_method` as written, whose reject branch raises TypeError. No contract of its own; `S5.RejectAsWrittenRaisesTypeError` and `S5.RejectAsWrittenExample` state how it differs from the corrected handler. |
| S5.RejectAsWrittenRaisesTypeError | s5.py:55-57 | As written, a method list without 00 raises TypeError and nothing reaches the client. The corrected handler returns False after writing 05 FF. |
| S5.RejectAsWrittenExample | s5.py:56 | For the greeting 05 01 02 the code as written raises TypeError, and the corrected handler writes 05 FF. |
| S5.Dialer.OpenConnection | s5.py:91-97 | `open_connection` gives the network's answer for the destination and records the attempt. |
| S5.ReadPString | s5.py:3-7 | The method does what `ParsePString` says: the same outcome and the same bytes consumed. |
| S5.ReadAtypAddr | s5.py:9-23 | The method does what `ParseAtypAddr` says. |
| S5.HandleVersionMethod | s5.py:25-59 | The method's outcome, bytes consumed and writes are those of `VersionMethodExchange`. |
| S5.ReadRequest | s5.py:83-87 | The method reads the request header, address and port as `ParseRequest` says. |
| S5.HandleConnectionRequest | s5.py:61-116 | The method's outcome, bytes consumed, writes and dials are those of `RequestExchange`. |
| S5.HandleSocks5 | s5.py:119-131 | The method's outcome, bytes consumed, writes and dials are those of `Socks5Exchange`. |
| PronounTable.Upper | pronounproxy.py:26 | `bytes.upper()`. No contract of its own; `PronounTable.UpperInjective`, `PronounTable.CasePatternsDisjoint` and `PronounTable.CaseVariantsAreWordRuns` state what the table needs of it. |
| PronounTable.Title | pronounproxy.py:27 | `bytes.title()`. No contract of its own; `PronounTable.TitleInjective`, `PronounTable.CasePatternsDisjoint` and `PronounTable.CaseVariantsAreWordRuns` state what the table needs of it. |
| PronounTable.UpperInjective | pronounproxy.py:26 | Distinct lower-case words have distinct upper-case copies. |
| PronounTable.TitleInjective | pronounproxy.py:27 | Distinct lower-case words have distinct title-case copies. |
| PronounTable.CasePatternsDisjoint | pronounproxy.py:25-27 | A lower-case, an upper-case and a title-case copy of letter words never coincide, so the update adds new keys. |
| PronounTable.CaseVariantsAreWordRuns | pronounproxy.py:29-30 | Every case copy of a lower-case letter word is a run of word bytes. |
| PronounTable.Update | pronounproxy.py:16-28 | A dict display and `dict.update`: pairs stored in turn, a later one overriding. No contract of its own; its properties are `PronounTable.UpdateOther`, `PronounTable.UpdateItem`, `PronounTable.UpdateSize` and `PronounTable.UpdateAppend`. |
| PronounTable.UpdateOther | pronounproxy.py:25-28 | `update` leaves keys it does not list untouched. |
| PronounTable.UpdateItem | pronounproxy.py:25-28 | After `update` with distinct keys, each listed key maps to its listed value. |
| PronounTable.UpdateSize | pronounproxy.py:25-28 | `update` with distinct new keys adds exactly that many entries. |
| PronounTable.UpdateAppend | pronounproxy.py:25-28 | Updating with one list and then another is updating with their concatenation. |
| PronounTable.DictInvolutive | pronounproxy.py:16-23 | A dict built from distinct, reversible pairs with no self-pair maps every value back to its key and fixes nothing. Its keys are the listed keys. |
| PronounTable.WithCaseVariants | pronounproxy.py:16-28 | The display, then `update` with the upper-case copies followed by the title-case copies. No contract of its own; its properties are `PronounTable.CaseVariantsLookup`, `PronounTable.CaseVariantsKeys` and `PronounTable.CaseVariantsInvolutive`. |
| PronounTable.CaseItemsAt | pronounproxy.py:25-27 | The full item list is the pairs, then the upper-case pairs, then the title-case pairs. |
| PronounTable.CaseItemsSplit | pronounproxy.py:25-27 | Every item of the full list is one case copy of one original pair. |
| PronounTable.VariantInjective | pronounproxy.py:25-27 | Each case copy is injective on lower-case words. |
| PronounTable.VariantsDisjoint | pronounproxy.py:25-27 | Different case copies never produce the same word. |
| PronounTable.CaseItemsDistinct | pronounproxy.py:25-28 | The full list has no repeated key. |
| PronounTable.CaseItemsReversible | pronounproxy.py:25-28 | Each pair of the full list appears reversed in it too. |
| PronounTable.CaseItemsNoSelfPair | pronounproxy.py:25-28 | No pair of the full list maps a word to itself, and every key is a word run. |
| PronounTable.CaseVariantsAsDict | pronounproxy.py:25-28 | The display followed by the update is one dict built from the full list. |
| PronounTable.CaseVariantsLookup | pronounproxy.py:25-28 | Each case copy of a key maps to the same case copy of its value. |
| PronounTable.CaseVariantsKeys | pronounproxy.py:25-28 | Every key of the finished dict is a case copy of an original key. |
| PronounTable.CaseVariantsInvolutive | pronounproxy.py:16-28 | The finished dict has three entries per pair, is an involution without fixed points, and has only word runs as keys. |
| PronounSwap.Lookup | pronounproxy.py:34 | `pronoun_map.get(w, w)`. No contract of its own; `PronounSwap.LookupTwice` states its involution. |
| PronounSwap.Swap | pronounproxy.py:29-36 | `re.sub` with `\b(keys)\b` and `get`: each maximal word run that is a key is replaced, every other byte copied. No contract of its own; its properties are `PronounSwap.SwapTwice`, `PronounSwap.SwapUnchangedIff`, `PronounSwap.SwapWholeWord`, `PronounSwap.SwapKeepsNonWordByte` and `PronounSwap.SwapSplit`. |
| PronounSwap.RunLength | pronounproxy.py:29-30 | The word run at the start of a line is as long as possible: all word bytes, followed by a non-word byte or the end. |
| PronounSwap.RunLengthUnique | pronounproxy.py:29-30 | There is only one such maximal run length. |
| PronounSwap.SwapNonWordThen | pronounproxy.py:31-36 | A non-word byte is kept, and the rest of the line is substituted independently. |
| PronounSwap.SwapWordThen | pronounproxy.py:31-36 | A whole word is replaced by its table value, or kept when it is not a key. |
| PronounSwap.SplitNonWordStep | pronounproxy.py:31-36 | One step of `SwapSplit` when the line starts with a non-word byte. |
| PronounSwap.SplitWordStep | pronounproxy.py:31-36 | One step of `SwapSplit` when the line starts with a word. |
| PronounSwap.SwapSplit | pronounproxy.py:31-36 | Substitution distributes over two pieces that meet at a word boundary. |
| PronounSwap.SwapKeepsNonWordByte | pronounproxy.py:31-36 | Bytes outside words survive substitution, in place. |
| PronounSwap.SwapWholeWord | pronounproxy.py:31-36 | A word bounded by `\b` on both sides is replaced by its lookup, and the two sides are substituted independently. |
| PronounSwap.SwapStartsOutsideWord | pronounproxy.py:31-36 | Substitution keeps a leading non-word byte. |
| PronounSwap.LookupTwice | pronounproxy.py:34 | In an involutive table, looking up a word twice gives it back, and the replacement is again a word run. |
| PronounSwap.SwapTwiceNonWord | pronounproxy.py:31-36 | One step of `SwapTwice`: a leading non-word byte survives both substitutions. |
| PronounSwap.SwapTwiceWord | pronounproxy.py:31-36 | One step of `SwapTwice`: a leading whole word is replaced and then replaced back. |
| PronounSwap.SwapTwice | pronounproxy.py:31-36 | With an involutive table of words, substituting twice gives the line back. |
| PronounSwap.TokenLength | pronounproxy.py:29-30 | Each step of the scan moves forward by at least one byte. |
| PronounSwap.WordPrefixUnique | pronounproxy.py:29-30 | A line splits only one way into a leading whole word and a rest. |
| PronounSwap.ShiftUp | pronounproxy.py:29-30 | A whole word of a line's tail is a whole word of the line. |
| PronounSwap.ShiftDown | pronounproxy.py:29-30 | A whole word past a line's first token is a whole word of the tail. |
| PronounSwap.KeyWordStepUp | pronounproxy.py:29-30 | A key word in the tail is a key word of the line. |
| PronounSwap.KeyWordFirst | pronounproxy.py:29-30 | A leading word that is a key is a key word of the line. |
| PronounSwap.KeyWordStepDown | pronounproxy.py:29-30 | A key word of the line is its leading word or lies in the tail. |
| PronounSwap.UnchangedNonWordStep | pronounproxy.py:29-36 | One step of `SwapUnchangedIff` at a leading non-word byte. |
| PronounSwap.UnchangedWordStep | pronounproxy.py:29-36 | One step of `SwapUnchangedIff` at a leading word: the line changes there exactly when that word is a key. |
| PronounSwap.SwapUnchangedIff | pronounproxy.py:29-36 | With an involutive table, substitution leaves a line unchanged exactly when no whole word of it is a key. |
| PronounProxy.PronounMap | pronounproxy.py:16-28 | `pronoun_map`. A constant; its properties are `PronounProxy.PronounMapIsInvolution` and `PronounProxy.PronounMapExamples`. |
| PronounProxy.BaseItemsWellFormed | pronounproxy.py:16-23 | The display lists six distinct lower-case pronouns as keys, each pair also reversed, with none mapped to itself. |
| PronounProxy.PronounMapIsInvolution | pronounproxy.py:16-28 | `pronoun_map` has 18 entries. It maps every value back to its key, maps no pronoun to itself, and has only word runs as keys. |
| PronounProxy.PronounMapExamples | pronounproxy.py:16-28 | "he" maps to "she", "HIM" to "HER" and "Hers" to "His". |
| PronounProxy.SwapPronouns | pronounproxy.py:31-36 | `swap_pronouns`. No contract of its own; its properties are `PronounProxy.SwapPronounsTwice`, `PronounProxy.SwapPronounsUnchangedIff` and `PronounProxy.SwapExample`. |
| PronounProxy.SwapPronounsTwice | pronounproxy.py:31-36 | Swapping pronouns twice gives the line back. |
| PronounProxy.SwapPronounsUnchangedIff | pronounproxy.py:29-36 | A line comes back unchanged exactly when none of its whole words is a pronoun of the table. |
| PronounProxy.NotAPronoun | pronounproxy.py:16-28 | A word that starts in lower case and is none of the six pronouns is not a key of `pronoun_map`. |
| PronounProxy.SwapThreeWords | pronounproxy.py:31-36 | In "w0 w1 w2\n" with w1 and w2 not keys, only w0 is replaced. |
| PronounProxy.SwapExample | pronounproxy.py:31-36 | "he said hi\n" becomes "she said hi\n". |
| PronounProxy.Relayed | pronounproxy.py:64-69 | The chunks `copy_stream` writes for a stream: each line through the filter. No contract of its own; `PronounProxy.CopyStream` is proved against it and `PronounProxy.RelayIdentity` states its identity case. |
| PronounProxy.CopyStep | pronounproxy.py:64-69 | One round of the loop moves the line read from the unread lines to the written ones. |
| PronounProxy.CopyEnd | pronounproxy.py:65-68 | At the empty read, every line of the input has been written. |
| PronounProxy.RelayIdentity | pronounproxy.py:61 | With the default filter, the bytes written are exactly the bytes read. |
| PronounProxy.CopyStream | pronounproxy.py:61-69 | `copy_stream` reads the whole stream. It writes each line, in order, through the filter as one chunk, then calls `write_eof` once. |

## Left out

- `handle_socks_client` (pronounproxy.py:38-59) is not modelled. It runs two `copy_stream` calls concurrently with `asyncio.gather` and closes the writers. Concurrency and teardown are outside this model. Each `copy_stream` is modelled on its own.
- The server start-up under `__main__` is not modelled.
- Every `print` call is left out, and the model assumes that `print` never fails. This matters at s5.py:90, which prints the decoded domain name. If standard output cannot encode that name (an ASCII or latin-1 locale, say), `print` raises UnicodeEncodeError, a subclass of ValueError. s5.py:129 catches it, so `handle_socks5` returns False without a reply and without dialling. The model instead dials and replies as for any other CONNECT.
- `writer.drain()` is not modelled. Flow control does not change what is written.
- `asyncio.open_connection` is not modelled as network I/O. It is a function `route` from destination to "connection failed" or "connected, with this local endpoint". The bare `except:` at s5.py:93 makes every failure the same.
- `get_extra_info('sockname')` is an input: the local endpoint that `route` reports. Its default `('0.0.0.0', 0)` is the endpoint `LocalV4([0,0,0,0], 0)`.
- `socket.inet_ntop` / `inet_pton` are not modelled. Addresses stay the 4 or 16 raw bytes that those calls convert to and from text. The conversions are bijections on valid addresses.
- UTF-8 decoding of a domain name (s5.py:19) is not modelled. It is an opaque predicate `decodes`, and a name that does not decode raises ValueError, as `UnicodeDecodeError` is a subclass of `ValueError`.
- Python's `re` engine is not modelled. `swap_pronouns` is modelled as substitution of whole maximal word runs that are keys. That is what `\b(alternation)\b` matches: backtracking tries every alternative, and both `\b` anchors make a match a whole run.
- Streams.Reader.ReadLine: the 64 KiB line limit of asyncio's `readline` is not modelled. Lines of any length are returned whole.
- S5.ParsePString: the `assert` at s5.py:6 is not modelled. It always holds, because one byte is below 256.
- Destinations are returned as `Some(destination)`. The `(dest_reader, dest_writer)` pair that the source returns is represented by the destination it connects to.

## Findings

| source | as written | input that shows it | evidently intended | confidence | as-written member | corrected member |
|---|---|---|---|---|---|---|
| s5.py:56 | `writer.write("\x05\xFF")` passes a `str`. A stream writer only accepts bytes, so this raises TypeError. TypeError is not caught by `handle_socks5`, and the client never gets the RFC 1928 section 3 "no acceptable methods" reply. | greeting bytes 05 01 02 (one method, username/password) | write the two bytes 05 FF and return False | not executed | S5.RejectAsWrittenRaisesTypeError | S5.VersionMethodExchange |
