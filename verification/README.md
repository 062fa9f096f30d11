# lexindex, verified

`lexindex` is a set of immutable string-to-id indexes. This project models the algorithms its compact layouts
rest on, in Dafny, and proves what each one is for. `dafny verify dfyconfig.toml` checks the whole project.

- **The order-keeping character code** (`Lex`, `Utf8`, `Spellings`, `Decoding`, `CodeTable`, `StoredCodes`,
  `CharIndex`, `CharCodes`, `CharCodeOps`, `LeadWidths`, `BestLayout`, `CodeChoice`). `Spellings` says what a code
  means: which characters have a codeword of one or two bytes. Everything else is proved against it: the two-level
  word table, the lead table the decoder reads, coding, probing, both decoders with their four-byte stores, the stored
  table, and the choice of layout by binary search, which `BestLayout` judges against every code there could be.
- **The string arena** (`ArenaTable`, `ArenaBuild`, `ArenaWrite`, `ArenaOpen`; merged: `MergedShapes`,
  `ArenaMerged`, `MergedRead`; the choice between the two: `ArenaCheapest`; the bytes of both, place by place:
  `ArenaFormat`, `MergedFormat`). What the writer leaves is settled by the keys; the reader is separate code and is
  proved to undo it, for blocks of 16 and 256, narrow and wide bases, overflow tables, flat tables, fingerprint rows,
  and the bit-packed superstring layout.
- **The streaming hash build** (`Pairs`, `RunSort`, `StreamPairs`, `FpTable`, `FpPlace`, `FpStage`, `SideTables`,
  `HashIndexes`, `ClosedHash`). The perfect hash is a function of 64-bit hashes given to the build; the build is
  proved to succeed exactly where that function is minimal and perfect on the representatives. The threads that
  place fingerprints take turns in any order, which is a parameter of the build.
- **The external sort** (`KeyLists`, `KeyRuns`, `RunFiles`, `ExtSort`): runs with 32-bit spans, run files as bytes,
  the collapse in groups and the replayed stream.
- **Smaller cores**: the streaming digest (`BlockHash`, and in `Digests` what it tells apart), the subsequence
  automaton (`Subsequence`), the tests of eight bytes at once (`HighBits`), and the UTF-8 check they stand in for
  (`Utf8Check`).

`Bits` holds the arithmetic all of these share: shifts, masks and little-endian bytes on natural numbers. Machine
widths are explicit where they matter: an offset is cut to the bytes its field has, a run's spans are cut to 32 bits,
an arithmetic result that does not fit a `usize` is refused where the source checks it, the byte count's multiply
wraps at 64 bits, and the digest is computed on 64-bit words.
UTF-8 follows RFC 3629 (sections 1, 3 and 4).

Four things the code does that its comments or its callers' messages do not say:

- A streaming builder refuses a key that does not fit the run budget only when it is the first. Any later one starts
  a fresh run, which takes it whatever its length, under a span cut to 32 bits: a key of 4 GiB or more is replayed as
  what its length is cut to, or the build panics where that cut splits a character. The refusal of such a key by the
  run file's writer is never reached, for it is handed the cut key. Under a budget below 4 GiB (the shipped one is
  256 MiB) the distinct keys come out exactly where every key is shorter than 4 GiB (`ExtSort.Replayed`);
  `ExtSort.LongKeyReplaysAsItsPrefix` and `ExtSort.LongKeyCutInACharacter` are inputs where they do not. A run filled
  to exactly 4 GiB, which the comment over the spans allows, cannot be read either (`KeyRuns.FillToFourGiB`).
- The arena's layout is not always the cheapest for the lengths: with few keys and nothing to overflow, a flat
  table would be smaller. `ArenaBuild.NotCheapestForOneKey` is one case and `ArenaBuild.CheapestIff` says exactly
  when the choice is the cheapest.
- The digest's comment says that folding in the length keeps a zero pad from aliasing a shorter stream. Where the
  stream ends inside a word it does (`Digests.DigestTellsZeros`); after whole words the zeros are a word of their
  own, and `Digests.ZeroAfterAWordMissed` is eight bytes whose digest one zero more leaves as it is.
  `Digests.ZerosAfterWholeWords` says exactly when that happens.
- `assemble` is said to return nothing where the iterator disagrees with either total. The code checks the count
  only; a wrong length changes no byte, which is what `ArenaWrite.BuildExactLimited` proves for every hint.

## Model

| member | source | states |
|---|---|---|
| `Lex.LessIff` | src/charcode.rs:1-40 | one string sorts before another exactly where it is a shorter prefix of it or lower at the first place they differ |
| `Lex.OrderedCodeKeepsOrder` | src/charcode.rs:1-40 | ascending codewords, none a prefix of another, make the codes of whole keys compare, coincide and prefix one another exactly as the keys do |
| `Utf8.TextKeepsOrder` | src/charcode.rs:1-40 | UTF-8 bytes sort, and are prefixes of each other, exactly as the characters are |
| `Utf8.PackedSpells` | src/charcode.rs:217-237 | a packed character unpacks to itself, and its four bytes begin with its UTF-8, the rest zero |
| `Utf8.PackedOrderIsCharOrder` | src/charcode.rs:239-244 | comparing byte-swapped packed characters orders them as characters |
| `Spellings.SpellAscends` | src/charcode.rs:248-294 | codewords ascend with their characters and stay apart however extended, in both modes and for any widths |
| `Spellings.CodewordIs` | src/charcode.rs:248-294 | a character's codeword is its lead's byte, counted from zero or from `0x80`, and behind it the place under the lead where others share it |
| `Spellings.CodewordBytes` | src/charcode.rs:37-66 | a codeword is one or two bytes: in the seven-bit mode below `0x80`, in the other ASCII is itself and all else starts at `0x80` or above |
| `Spellings.LeadTellsLength` | src/charcode.rs:374-382 | the first byte of a codeword settles how many it has |
| `Spellings.SevenBitCode` | src/charcode.rs:37-41 | no byte of any key's code in the seven-bit mode is above `0x7f`, for codes built and codes loaded |
| `Spellings.EightKeepsAscii` | src/charcode.rs:42-45 | in the other mode an ASCII key is its own code |
| `Spellings.Holds` | src/charcode.rs:37-62 | a valid code spells at most 16,384 characters in seven bits and 32,768 past ASCII in the other mode |
| `Spellings.CodedKeysSortAsKeysDo` | src/charcode.rs:307-320 | over spellable keys, codes compare, coincide and prefix exactly as the keys' UTF-8 does |
| `Spellings.BumpIsTheBoundary` | src/charcode.rs:552-559 | `bump` is the least string above every extension of its argument: what sorts below it is what sorts below the argument or starts with it; none only where nothing sorts above them |
| `Spellings.NextSpeltStandsIn` | src/charcode.rs:330-338 | putting the next spelled character for an unspelled one, and dropping the rest, moves no key across the query |
| `Spellings.ProbeOrdersAsItsQuery` | src/charcode.rs:324-347 | a probe compares with every key's code as its query does with the key; absent means no key is the query, last that every key is below it |
| `Decoding.CharAtIff` | src/charcode.rs:374-382 | a character is read at a position exactly where its codeword lies there, whatever the bytes: no byte string has two readings |
| `Decoding.DecodedIff` | src/charcode.rs:388-403 | arbitrary bytes decode to a key exactly where they are that key's code |
| `Decoding.RoundTrip` | src/charcode.rs:388-403 | decoding a key's code returns the key |
| `CharIndex.WidenNarrow` | src/charcode.rs:118-132 | narrowing a codeword to sixteen bits loses nothing it writes |
| `CharIndex.Build` | src/charcode.rs:134-161 | the two-level table answers, for every character, what a plain map of the pairs given would, the last pair winning |
| `CharIndex.GetAgrees` | src/charcode.rs:166-178 | a lookup through both levels agrees with that map, absence included |
| `CharCodes.New` | src/charcode.rs:248-297 | the tables built stand for the spelling they were built from |
| `CharCodes.LeadTable` | src/charcode.rs:276-287 | each lead byte's entry names the first character under it and how many there are |
| `CharCodes.Utf8AtReadsTheCharacter` | src/charcode.rs:374-382 | the table-driven read is the spelling's reading: packed character and codeword length, or nothing |
| `CharCodeOps.EncodeKey` | src/charcode.rs:307-320 | answers true exactly for spellable keys; appends the code, or that of the longest spellable prefix; in the seven-bit mode no byte appended is above `0x7f` |
| `CharCodeOps.Prefixes` | src/charcode.rs:353-369 | every cut of the query's spellable prefix: its byte length and where its code ends |
| `CharCodeOps.PartitionPoint` | src/charcode.rs:334-336 | the binary search over packed characters counts those below the query's character |
| `CharCodeOps.BumpInPlace` | src/charcode.rs:552-559 | the edit in the buffer is `bump` of what it held |
| `CharCodeOps.ProbeInto` | src/charcode.rs:324-347 | what is left in the caller's buffer, twice the query's length, is the order-faithful probe |
| `CharCodeOps.DecodeInto` | src/charcode.rs:388-403 | appends the key's UTF-8 where the bytes are a key's code, fails exactly where they are not |
| `CharCodeOps.DecodeOneInPlace` | src/charcode.rs:432-440 | one step in place: the four-byte store stays in the buffer, reaches no unread code byte, and the write head stays within four bytes a code byte |
| `CharCodeOps.DecodeInPlace` | src/charcode.rs:419-443 | decoding inside one buffer gives what decoding into a fresh one does, and fails where it does |
| `CharCodeOps.WriteTo` | src/charcode.rs:475-492 | writes the stored form of the code, of the length known beforehand |
| `CharCodeOps.Read` | src/charcode.rs:497-544 | loads exactly what parses, and the tables loaded stand for the spelling parsed |
| `StoredCodes.VarintIs` | src/dict_index.rs:451-457 | a varint is groups of seven bits that spell its number, the low one first, all but the last marked, and the last of several not zero |
| `StoredCodes.VarintAtIff` | src/dict_index.rs:459-478 | what reads as a varint: at most ten bytes, all but the last marked, whose groups spell a number of 64 bits; and no other bytes |
| `CodeTable.VarintReadsBack` | src/dict_index.rs:451-492 | every `usize` reads back from its varint, with where it ends |
| `CodeTable.VarintLenIsLength` | src/charcode.rs:546-550 | the length counted from the bit length is the varint's |
| `CodeTable.SerializedLenIsLength` | src/charcode.rs:267-276 | the stored length counted while building is the number of bytes written |
| `StoredCodes.StoredEight` | src/charcode.rs:475-492 | the stored bytes of a code past ASCII: three Cyrillic letters, the first a lead of its own |
| `StoredCodes.StoredSeven` | src/charcode.rs:475-492 | the stored bytes of a seven-bit code: three characters on one page |
| `CodeTable.WrittenReadsBack` | src/charcode.rs:479-544 | every well-formed nonempty code parses back from its stored form |
| `CodeTable.ParsedIsValid` | src/charcode.rs:497-544 | any bytes that parse give widths covering strictly ascending scalar values, so all results hold of loaded tables |
| `StoredCodes.ParsedIff` | src/charcode.rs:497-544 | bytes load as a code exactly where they are the fields of a valid nonempty one with nothing behind them, each number in any string of seven-bit groups that spells it |
| `LeadWidths.WidthsSum` | src/charcode.rs:725-745 | the widths cover the alphabet, each character once |
| `LeadWidths.WidthsMonotone` | src/charcode.rs:684-703 | granting more characters a byte never takes fewer leads |
| `LeadWidths.PagesFit` | src/charcode.rs:684-703 | with no singles, an alphabet of at most 128 pages fits 128 leads, so the search starts from a layout that fits |
| `LeadWidths.CutWidths` | src/charcode.rs:725-745 | the loop cuts the alphabet as specified, every width from 1 to a page |
| `LeadWidths.MostSingles` | src/charcode.rs:684-703 | the binary search finds the largest frequency-ranked set of singles that fits 128 leads |
| `CodeChoice.LaidOutIsACode` | src/charcode.rs:666-705 | every layout chosen is a well-formed code of at most 128 leads that spells each counted character |
| `CodeChoice.LaidOutIsForText` | src/charcode.rs:646-705 | the layout is the one for the text: seven bits exactly up to 16,384 characters; the largest number of its most frequent characters that any code of the alphabet gives a byte each, each in one byte where those are a tenth of all that is written and none otherwise; every other lead a whole page unless the alphabet or a single ends it |
| `CodeChoice.CodedIsCode` | src/charcode.rs:704-709 | the coded size counted by character is the length of the whole text's code |
| `BestLayout.NoFewerLeads` | src/charcode.rs:684-745 | no code that gives those characters a byte each, however its pages are cut, has fewer leads than the layout's widths |
| `BestLayout.RoomIff` | src/charcode.rs:684-703 | some code gives those characters a byte each exactly where the layout's widths fit 128 leads, so the search's test is the right one |
| `BestLayout.WidthsLayoutIs` | src/charcode.rs:725-745 | the widths make a valid code that gives each of those characters a byte and cuts pages only where one is whole, the alphabet ends or a single stands |
| `CodeChoice.Tally.Add` | src/charcode.rs:605-611 | the keys counted so far, end to end, gain the key: each character's count and the UTF-8 bytes rise as it says, and no other count changes |
| `CodeChoice.Tally.Merge` | src/charcode.rs:614-626 | counts add up, so tallies of parts merge into the tally of the whole text |
| `CodeChoice.CountCoded` | src/charcode.rs:704-709 | the coded size is each character's codeword length times its occurrences |
| `CodeChoice.Tally.ChooseFor` | src/charcode.rs:646-720 | no layout exactly for an empty text or one with over 16,384 distinct characters, over 32,768 of them past ASCII; else the layout is `BestLayout.LaidOutFor` the text counted, and a code is kept exactly where the text's own coded length, scaled, with the stored form is at most nine tenths of the total and a twentieth of the saving covers the stored form |
| `HighBits.HighBytes` | src/charcode.rs:569-587 | the multiply-and-shift count is the number of bytes past ASCII, at every length |
| `HighBits.AllAsciiIff` | src/arena.rs:161-188 | the overlapping-word test is true exactly where every byte is below 0x80 |
| `ArenaTable.RunBound` | src/arena.rs:1705-1768 | a slot past the last adds nothing, so a padded block repeats its total |
| `ArenaTable.SpilledFits` | src/arena.rs:1733-1743 | an overflow table is no longer than the keys it is for, so its indices fit a base-wide word |
| `ArenaTable.BlockReads` | src/arena.rs:1187-1257 | a slot of any block, plain or sent to the overflow table, reads back its own span and fingerprint |
| `ArenaTable.FlatReads` | src/arena.rs:1168-1182 | a slot of a flat table reads back its own span and fingerprint |
| `ArenaTable.TableReadsBack` | src/arena.rs:1132-1183 | under every tag whose offsets reach the data, slot i reads exactly where key i starts and ends, and a wrong fingerprint reads none |
| `ArenaBuild.TagForSuits` | src/arena.rs:1314-1347 | the tag picked carries the overflow flag exactly where some block overflows, and its offsets reach every byte |
| `ArenaBuild.PricedIsWritten` | src/arena.rs:1319-1331 | each candidate is priced at exactly the bytes its offsets and tail take |
| `ArenaBuild.CheapestIff` | src/arena.rs:1306-1347 | the tag picked is the cheapest of the three exactly where some run of 16 keys overflows, or there are no keys, or at least 5, 7, 3 or 4 by base width and fingerprints; ties go to the narrower |
| `ArenaBuild.NotCheapestForOneKey` | src/arena.rs:1306-1347 | one short key takes 21 bytes of offsets where a flat table takes 8 |
| `ArenaBuild.BlockedLenIsLength` | src/arena.rs:1349-1370 | the length foretold from the key lengths is the built arena's, and there is none exactly where that passes a `usize` |
| `ArenaWrite.WriteOffsets` | src/arena.rs:1699-1768 | whatever bytes the prefix held, it is overwritten with the offset structure whole, the data behind it untouched, and the tail returned is the overflow table with its length |
| `ArenaWrite.MoveData` | src/arena.rs:1689-1697 | growing or shrinking, the data arrives intact |
| `ArenaWrite.LayOutBlocked` | src/arena.rs:369-407 | one pass and at most one move give the arena that is a function of keys and fingerprints; none exactly for a wrong count or a key too long |
| `ArenaWrite.BuildExactLimited` | src/arena.rs:253-276 | the same bytes for every hint of count and length |
| `ArenaWrite.PrefixForLengths` | src/arena.rs:431-443 | prefix and tail made from lengths alone complete, around the keys, to the arena the build in memory makes |
| `ArenaOpen.ArenaOpens` | src/arena.rs:903-992 | what a build leaves passes every check of the load, with its data and overflow table found where they are |
| `ArenaOpen.OpenedReadsInside` | src/arena.rs:745-799 | for any bytes that open, every span handed out lies inside the data, a key is given exactly where the span's bytes are some string's UTF-8, and the last key ends the data |
| `ArenaOpen.BlockInTable` | src/arena.rs:551-563 | for any bytes that open, the block of every slot below the count ends before the data: the bound the unchecked block read relies on |
| `ArenaOpen.HoldsInIsHolds` | src/arena.rs:508-549 | the lookup that skips the bounds checks answers as the checked one does, for any bytes, slot, key and fingerprint |
| `ArenaOpen.ArenaReadsBack` | src/arena.rs:475-549 | built, opened and asked: slot i gives key i where that is UTF-8, and holds a key exactly where it is key i and any fingerprint asked for is the slot's own |
| `ArenaFormat.ArenaIsLaid` | src/arena.rs:7-63 | the format, each place and number spelled out: header and tag bits; blocks of 16 as they are exactly where no 16 keys outgrow 255 bytes, eight-byte bases exactly past the limit; every slot's base, offsets, fingerprint and key where its layout puts them, for blocks of 16 and 256, overflowing blocks and flat tables; the overflow table and trailer behind the data |
| `ArenaFormat.OpensIff` | src/arena.rs:903-992 | bytes load as an arena exactly where their tag is a known one, the front is whole as far as the data, the trailer counts whole entries that fit, and the first key starts the data and the last ends it |
| `Utf8Check.EncodedIff` | src/charcode.rs:217-220 | bytes are one character's UTF-8 exactly where the grammar of RFC 3629, section 4, derives them |
| `Utf8Check.EncodedIsShortest` | src/charcode.rs:217-220 | no shorter sequence of a lead and continuation bytes carries the same character |
| `Utf8Check.TextIsOctets` | src/arena.rs:861-868 | bytes spell a string exactly where they are characters of that grammar end to end: shortest forms, no surrogates, nothing past U+10FFFF |
| `Utf8Check.CharactersIff` | src/arena.rs:861-868 | the check passes exactly the bytes that spell a string |
| `Utf8Check.CheckedIff` | src/arena.rs:861-868 | with the ASCII shortcut in front, the check still passes exactly UTF-8, so the unchecked conversion it allows is of a string |
| `MergedShapes.BitLengthIff` | src/arena.rs:1580-1586 | a number's bit length is at most n exactly where it is below 2^n, so all ones is the escape |
| `MergedShapes.NeedCountsEscapes` | src/arena.rs:1414-1425 | what the per-width counts leave past a field's width is exactly the number of lengths whose excess is at least 2^len_bits - 1 |
| `MergedShapes.FromNeed` | src/arena.rs:1404-1453 | the shape found takes the fewest bytes over every admissible field width, not only those tried, the narrowest of equals; none where no width is admitted |
| `MergedShapes.ShapeOf` | src/arena.rs:1386-1453 | every start and length fits the shape's fields, its escapes and bytes are exact, and no shape at all that the spans fit takes fewer bytes; none only where there are no spans or no shape fits |
| `ArenaMerged.EntrySplits` | src/arena.rs:1644-1655 | an entry fits its width and splits back into start and length field |
| `ArenaMerged.PackingEntry` | src/arena.rs:1655-1657 | or-ing an entry above the pending bits appends it to the packed table, within 64 bits of accumulator |
| `ArenaMerged.Pack` | src/arena.rs:1640-1666 | the bytes pushed are the packed table of all entries, and the overflow table lists just the escaped slots |
| `ArenaMerged.PackedTableHolds` | src/arena.rs:1640-1666 | the packed entries are a table of the shape's width, each entry fitting it |
| `ArenaMerged.LayOutMerged` | src/arena.rs:1627-1682 | the blob is a function of superstring, spans, fingerprints and shape, laid out in the data's own buffer, of exactly the length the shape foretold |
| `ArenaMerged.BuildMerged` | src/arena.rs:310-336 | a merged arena is made exactly where its least shape exists and is smaller than the size to beat, and has that shape's size |
| `MergedFormat.MergedIsLaid` | src/arena.rs:26-47 | the merged format, each place and number spelled out: header fields, fingerprint row, every slot's start and length as bits of the packed table, the seven zeros, the data, and each escaped length's slot and length in order behind it with the trailer |
| `MergedFormat.OpensIff` | src/arena.rs:903-992 | bytes load as a merged arena exactly where entries have 1 to 57 bits, the front is whole, the data is as long as the header says, and the trailer counts whole entries that fit |
| `MergedRead.ReadInTable` | src/arena.rs:828-843 | for any bytes that open, every eight-byte entry read ends before the data starts |
| `MergedRead.OpenMerged` | src/arena.rs:903-992 | whatever the bytes, an arena that opens reads inside itself: ranges in order, entries of 1 to 57 bits, table and padding where the data starts |
| `MergedRead.EscapedLen` | src/arena.rs:1259-1285 | the binary search finds a slot's length in an ascending table exactly where it is listed; in any table only a length listed for the slot |
| `MergedRead.EightBytesHold` | src/arena.rs:829-844 | eight unaligned bytes, shifted and masked, are the entry, the padding serving the last ones |
| `MergedRead.ReadEntry` | src/arena.rs:810-853 | the whole read, search included, is the specified one, and any span it gives lies in the data |
| `MergedRead.MergedReadsBack` | src/arena.rs:810-853 | built, opened and read: slot i is span i of the data under any shape, and a wrong fingerprint reads none |
| `ArenaCheapest.BlockedServes` | src/arena.rs:303-306 | the blocked arena loads, and slot i answers for key i and its own fingerprint alone |
| `ArenaCheapest.MergedServes` | src/arena.rs:310-336 | so does the merged arena of any superstring of the keys, under any shape that fits |
| `ArenaCheapest.BuildCheapest` | src/arena.rs:280-308 | whatever the sampling estimate said, the arena is no longer than the blocked one, is as short as the least merged shape where that was tried and wins, is the blocked one on a tie, and serves every key |
| `Pairs.StrictIsUnique` | src/compact_hash.rs:704-734 | a strictly sorted sequence is settled by its elements |
| `Pairs.CanonicalIs` | src/compact_hash.rs:706-734 | sorting then dropping equal neighbours keeps exactly the distinct pairs, strictly ascending |
| `RunSort.FreeSlot` | src/compact_hash.rs:92-104 | while a part has a pair of another, that other part has an unfilled slot: no swap passes a part's end |
| `RunSort.SwapPlaces` | src/compact_hash.rs:92-104 | a swap keeps the pairs, the parts' bounds and what is placed, and places one more |
| `RunSort.Partition` | src/compact_hash.rs:92-104 | the loop ends with every slot of every part holding one of that part's pairs, the run permuted |
| `RunSort.SortRun` | src/compact_hash.rs:72-112 | the run is left a sorted permutation of itself, for every length and thread count |
| `StreamPairs.CountBins` | src/compact_hash.rs:165-191 | a spilled run's offsets say where each bin of the hash starts in it |
| `StreamPairs.Cut` | src/compact_hash.rs:205-219 | the cuts tile the bins, each in one range, in order |
| `StreamPairs.MergeRange` | src/compact_hash.rs:306-342 | the merge of strictly sorted slices is strictly sorted, holds exactly their pairs, and counts them and those sharing the hash before them |
| `StreamPairs.Scratch.Spill` | src/compact_hash.rs:165-191 | a run spilled adds exactly its pairs to those held |
| `StreamPairs.Scratch.Merge` | src/compact_hash.rs:198-282 | the range files end to end are strictly ascending and hold exactly the spilled pairs, every hash of a file is below those of the files after it, and the summed counts are right |
| `StreamPairs.StreamAll` | src/compact_hash.rs:706-757 | for every budget and thread count the stream is the sorted distinct input, its counts exact and no hash in two of its files; it stays in memory exactly where the input does not fill a run |
| `FpTable.WriteFp` | src/compact_hash.rs:1892-1923 | at any width from 1 to 64, writing an empty slot sets it and disturbs no other, ninth byte and tail included |
| `FpTable.ReadFpIsTheField` | src/compact_hash.rs:1844-1890 | a read is the slot's bits of the table taken as one number, whichever path it takes, and none past the end |
| `FpTable.TableReadsBack` | src/compact_hash.rs:1844-1923 | every slot of a table reads back its own fingerprint |
| `FpTable.TableUnique` | src/compact_hash.rs:1844-1923 | a table's bytes are settled by its fingerprints |
| `FpPlace.FilledInAnyOrder` | src/compact_hash.rs:597-645 | the same fingerprints put in any order fill the same slots |
| `FpPlace.SegmentsConcat` | src/compact_hash.rs:1276-1314 | segments of a multiple of eight slots, end to end, are one table |
| `FpPlace.PlaceInMemory` | src/compact_hash.rs:536-591 | placing straight into the table fills it |
| `FpPlace.JoinRanges` | src/compact_hash.rs:1276-1314 | the range files' segments, each filled from its records, are end to end the table of all the puts |
| `FpStage.StagedBatch` | src/compact_hash.rs:567-578 | emptying a stage into its range's file appends exactly those records to it |
| `FpStage.TakeTurn` | src/compact_hash.rs:536-591 | a turn of any thread loses no put and makes none up, between the files, the stages and what is still to come, and brings the end nearer |
| `FpStage.StageAll` | src/compact_hash.rs:597-645 | whichever thread goes next, the range files end holding every put of every thread once, each in the range of its slot |
| `FpStage.PutsPermuted` | src/compact_hash.rs:597-645 | puts that reach the files in another order still go to different slots |
| `FpStage.PlaceInRanges` | src/compact_hash.rs:1192-1314 | for any lists of puts, one to a thread, and any order of turns, the table is the one made in memory |
| `FpPlace.SameTableEitherWay` | src/compact_hash.rs:1276-1314 | so the two give the same bytes, in whatever order the fingerprints came |
| `SideTables.SlotsInPlace` | src/compact_hash.rs:653-685 | every pair's hash is replaced by its slot, and a follower's by none, for any chunking, as one pass would |
| `SideTables.CollectSide` | src/compact_hash.rs:1003-1013 | the followers in order with the ids after the representatives' slots, and the number of those |
| `SideTables.ListedIff` | src/compact_hash.rs:1335-1341 | the side lookup answers for exactly the pairs listed |
| `SideTables.NotListed` | src/compact_hash.rs:1414-1423 | the side table never answers for a representative, so probing it first rejects no member |
| `SideTables.GivenTo` | src/compact_hash.rs:1398-1423 | every id below the count was given to some pair |
| `SideTables.GivenIs` | src/compact_hash.rs:1003-1013 | the first pair of a hash is given its slot, and any other the number of hashes and so many more as there are pairs before it that are not the first of theirs |
| `SideTables.PerfectIff` | src/compact_hash.rs:1016-1043 | a hash is minimal and perfect on the representatives exactly where it sends the distinct hashes to different numbers below as many |
| `HashIndexes.SetBitSets` | src/compact_hash.rs:1034-1040 | marking a slot marks it and no other |
| `HashIndexes.FillTable` | src/compact_hash.rs:1016-1043 | the fill succeeds exactly for a hash minimal and perfect on the representatives, and leaves their fingerprints at their slots |
| `HashIndexes.BuildFromPairs` | src/compact_hash.rs:972-1051 | built exactly for a width of 1 to 64 bits, at most `u32::MAX` distinct pairs and such a hash, and then it represents the distinct pairs |
| `HashIndexes.MembersAreFound` | src/compact_hash.rs:1398-1423 | every member gets the id it was given, at any fingerprint width and with any number of keys sharing its hash |
| `HashIndexes.IdsAreABijection` | src/compact_hash.rs:1398-1441 | ids map the distinct pairs one to one onto [0, n) |
| `HashIndexes.NoPairsNoAnswer` | src/compact_hash.rs:1398-1441 | the index of no pairs answers no key, and zero where nothing is matched |
| `HashIndexes.AnswersNameAPair` | src/compact_hash.rs:1398-1423 | for any key at all, an answer is some pair's id: a follower's only for that very pair, a representative's only where the key shares its slot and the second hashes leave the same remainder by 2 to the fingerprint width |
| `HashIndexes.FingerprintDecides` | src/compact_hash.rs:1355-1423 | a key that is no follower and shares a representative's slot is answered exactly where the second hashes leave the same remainder by 2 to the width, so at 64 bits only where they are equal |
| `HashIndexes.RepresentsIsUnique` | src/compact_hash.rs:1134-1326 | two indexes of the same pairs, hash and width are the same, table bytes included |
| `HashIndexes.SplitSource` | src/compact_hash.rs:597-645 | one thread's walk, begun with no hash behind it, puts its source's representatives and sets its followers aside |
| `HashIndexes.SourcesSplit` | src/compact_hash.rs:1192-1203 | sources that share no hash, each walked from the start, give between them what one walk over all of them gives |
| `HashIndexes.SplitSources` | src/compact_hash.rs:1223-1250 | the threads' puts together are the representatives', and their followers numbered in file order are the side table |
| `HashIndexes.BuildToFile` | src/compact_hash.rs:1134-1326 | under any run budget, table budget, thread count, range size and order of the threads' turns the streaming build makes an index of the distinct pairs, which is therefore the one built in memory |
| `ClosedHash.CheckSlots` | src/closed_hash.rs:111-129 | the one-bit-a-slot check passes exactly for a minimal perfect hash |
| `ClosedHash.BuildClosed` | src/closed_hash.rs:79-131 | built exactly for at most `u32::MAX` distinct pairs and a minimal perfect hash, and then the index they settle |
| `ClosedHash.BuildClosedToFile` | src/closed_hash.rs:192-275 | the streaming build succeeds where the one in memory does, with the same index |
| `ClosedHash.ClosedIdsAreABijection` | src/closed_hash.rs:301-331 | ids map the distinct pairs one to one onto [0, n) |
| `KeyLists.StrictIsUnique` | src/extsort.rs:318-321 | a set of keys has one strictly ascending listing |
| `KeyLists.OneStream` | src/extsort.rs:324-359 | so the distinct stream is one, and budget, fan-in and input order do not matter to it |
| `KeyRuns.Run.Push` | src/extsort.rs:81-90 | the bytes go in whole and the span cut to 32 bits: it reads back the key exactly where bytes and key are together under 4 GiB, and an over-long key alone in its run as what its length is cut to |
| `KeyRuns.Run.Sorted` | src/extsort.rs:93-101 | the keys come off strictly ascending over the same set exactly where every span's end fits 32 bits and every key read is UTF-8; otherwise it panics |
| `KeyRuns.FillToFourGiB` | src/extsort.rs:77-101 | two keys that fill a run to exactly 4 GiB both fit, and the run cannot be read |
| `RunFiles.WriteKeys` | src/extsort.rs:163-195 | a file is written whole exactly where every key is shorter than 4 GiB; a longer one stops it there, the count still zero |
| `RunFiles.FileOfTwo` | src/extsort.rs:163-195 | the bytes of a run file of two keys, one of them empty |
| `RunFiles.FileReadsBack` | src/extsort.rs:163-316 | a run file reads back the keys written, unless one of them is not UTF-8, which is refused |
| `RunFiles.UncountedIsEmpty` | src/extsort.rs:163-195 | a file abandoned before its count was filled in reads as holding nothing |
| `RunFiles.FileKeys` | src/extsort.rs:287-316 | whatever bytes read as a run file, its keys are UTF-8 and short enough to be written again |
| `RunFiles.RunReader.Next` | src/extsort.rs:299-315 | each step gives the next key, the end where the count is spent, or corruption exactly where no whole UTF-8 record stands next |
| `ExtSort.MergeRuns` | src/extsort.rs:245-272 | merging ascending run files through their readers gives an ascending stream of all their keys, repeats kept |
| `ExtSort.Runs.WriteRun` | src/extsort.rs:163-195 | a run takes a name no file has and is read back as written; a key of 4 GiB or more leaves the name untaken and an empty file under it |
| `ExtSort.Runs.CollapseGroup` | src/extsort.rs:203-229 | a group merged into one file keeps the multiset of keys held and every other run |
| `ExtSort.Runs.CollapseRound` | src/extsort.rs:203-229 | a round keeps the keys held, and strictly fewer runs are left |
| `ExtSort.Runs.Collapse` | src/extsort.rs:203-229 | it ends with no more runs than the fan-in, the keys unchanged, and touches nothing where they were few |
| `ExtSort.Runs.Each` | src/extsort.rs:336-359 | the replayed stream is strictly ascending and holds exactly the keys spilled |
| `ExtSort.Take` | src/string_index.rs:212-245 | a key goes into the run as it is exactly where its bytes and one more span fit the budget, and otherwise into a fresh one after the run is spilled: a run of more than one key never outgrows the budget |
| `ExtSort.Replayed` | src/string_index.rs:212-245 | a stream is refused exactly where its first key does not fit the budget, and what is replayed was spilled exactly where the keys' bytes or their spans outgrow it; under a budget below 4 GiB any other replays its keys cut to 32 bits of length, distinct and ascending, panics exactly where such a cut is not UTF-8, and so replays its distinct keys exactly where each is shorter than 4 GiB |
| `ExtSort.LongKeyReplaysAsItsPrefix` | src/string_index.rs:212-226 | a letter, then a key of 2^32 + 1 of it: what is replayed is the letter alone |
| `ExtSort.LongKeyCutInACharacter` | src/extsort.rs:93-101 | a key of 2^32 + 1 bytes whose cut splits its first character, which no string can be made of |
| `BlockHash.BlockHasher.Update` | src/blob.rs:395-414 | the state is the words the bytes given so far make, in order, and the bytes short of a word wait in the buffer, stale buffer bytes never mattering |
| `BlockHash.BlockHasher.Finish` | src/blob.rs:416-428 | the digest is that of the bytes held |
| `BlockHash.HashInParts` | src/blob.rs:389-436 | however a byte string is cut into updates, the digest is the whole string's |
| `BlockHash.HashBlock` | src/blob.rs:430-436 | hashing in one call is that digest too |
| `Digests.DigestTellsAWord` | src/blob.rs:345-428 | two strings of one length that differ inside one aligned eight-byte word only, the last short one included, have different digests |
| `Digests.DigestTellsZeros` | src/blob.rs:345-351 | zeros that fill up a last short word change the digest |
| `Digests.ZerosAfterWholeWords` | src/blob.rs:345-351 | up to eight zeros behind whole words leave the digest as it is exactly where the mixed states and lengths meet, the condition given as an equation |
| `Digests.ZeroAfterAWordMissed` | src/blob.rs:345-351 | eight bytes whose digest one zero behind them does not change |
| `Digests.PinnedDigests` | src/blob.rs:538-551 | the four digests the repository pins |
| `Subsequence.CharStart` | src/subsequence.rs:26-32 | the backward walk finds where the character holding a byte starts |
| `Subsequence.CharacterStep` | src/subsequence.rs:57-75 | one haystack character's bytes move the state past the query's next character where they are equal and back to its start where not |
| `Subsequence.StateIsABoundary` | src/subsequence.rs:57-75 | at each haystack character boundary the state is on a query character boundary, the one greedy matching reaches |
| `Subsequence.AcceptedStays` | src/subsequence.rs:54-57 | an accepting state stays accepting whatever follows |
| `Subsequence.AcceptsExactlySubsequences` | src/subsequence.rs:26-75 | over UTF-8 the automaton ends accepting exactly where the query's characters are a subsequence of the haystack's |

## Left out

- HashIndexes.BuildToFile: requires the hash to be perfect, since this build, unlike the one in memory, does not check it.
- CodeChoice.Tally.ChooseFor: counts and their sums are unbounded, where the source keeps them in 64 bits.
- ExtSort.Replayed: at most 2^64 - 1 keys, since a run file counts its keys in 64 bits; under a budget of 4 GiB or more, which nothing in the repository sets, only the refusal and the order of what is replayed are stated.
- ExtSort.Runs.Each: a disk error is not modelled; a run file that does not read is what `RunFiles.RunReader.Next` reports, and no run written here is one.
- StreamPairs.Scratch.Merge: reads each run's slice whole; the read-ahead buffers of `Slice`, `Sink` and `Segments` are not modelled.
- ArenaTable.TableReadsBack: the batched readers (`spans_of` and what it calls) read the same blocks and are not modelled.
- The construction of the perfect hash (`src/mphf.rs`): a function of the hash, whose perfection the builds check.
- Key hashing (`src/hash.rs`): pairs of 64-bit hashes are given.
- The superstring merge (`src/superstring.rs`): a superstring, and where each key lies in it, are given.
- `merge_cannot_win`, `priced` and the sampling they do: estimates, either answer of which is allowed for.
- `decode_front` and `decode_owned`: variations on the two decoders modelled.
- The serialised frames of the hash indexes (headers, section lengths, `parse_frame`): field checks, easy members.
- `SharedBytes::subslice` and `run_on`: two range checks.
- Threads: those that share the range files take turns in any order; workers on disjoint slices or files are modelled one after another.
- Files, memory maps, prefetching, huge pages, atomic rename: the operating system's, not the model's.
- `DictIndex`, `StringIndex`, the command line and the foreign-function interface: built on what is modelled here.
