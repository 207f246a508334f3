# Verified models of algorithms in Dillo

Dillo is a small graphical web browser with plugins in separate processes. Most of it is user
interface and input/output, but it contains several self-contained algorithms whose correctness
depends on subtle invariants. This project models those algorithms in Dafny, in the form the C and
C++ code has (classes with fields that are updated, arrays that are overwritten in place, loops),
and proves what the code relies on.

- **Hyphenation** (`Trie`, `TrieBuilding`, `Hyphenation`). Sorted patterns are packed into one
  overlapping array of trie nodes. The array answers like a dictionary, although states share it;
  hyphenating a word computes the maximum digit over all occurrences of all patterns and returns
  exactly the odd positions that leave two characters on each side.
- **Floats** (`VectorSearch`, `FloatOrder`, `Floats`, `FloatBorders`). The comparator of floats is
  the lexicographic order of paths in the tree of text blocks. A layout pass puts every float at the
  highest position that clears all earlier ones, so that no two floats overlap, and this makes the
  queries by binary search correct.
- **Plugin protocol** (`Dpip`, `DpipAttr`, `DpipQueries`, `DpipStream`). Printing and reading of tags
  with stuffed quotes undo each other, and it is settled for every query and every name when they do; a
  stream of commands is cut into exactly these commands, however it arrives in pieces, and all of them
  arrive.
- **Find text** (`Kmp`, `KmpTables`, `FindTrials`, `FindText`, `FindSessions`, `TextCursors`,
  `CharIterators`, `DeepIterators`, `OofIterators`). Iterators over a widget tree are cursors over its
  flattened contents and over its characters. A search session (Knuth-Morris-Pratt modulo an
  equivalence of characters) enumerates all occurrences in order; it is settled for every key and every
  failure table when a search is right.
- **Cookies** (`Cookies`, `CookieMatch`). The flat list and the lists of the domains stay two views of
  the same cookies under all operations, with their limits; the walk over the suffixes of a host
  collects what a plain filter over all cookies would collect, in an order that is determined.
- **Images** (`ImageRows`, `ImageScaling`, `ImageRuns`, `ImageBuffers`, `ImageBytes`). Scaling an image
  row by row, in whichever order the rows arrive, writes each scaled row at most once, when it is
  finished, with the pixels of its block of root rows. The buffers are arrays of bytes.
- **Base64** (`Base64`), **bookmarks** (`Bookmarks`), **lists** (`Dlists`) and **crossing events**
  (`Crossing`): in-place decoding, in-place renumbering, the quicksort with a tracked pivot and the
  sorted lists, and the notifications sent when the pointer moves between widgets.

`Common` and `Lexicographic` hold small vocabulary. A method is proved against a function or a
predicate on values; what the code is for is then proved about these.

## Where the code does not do what one expects

In these places a property that the comments or the design suggest is false of the code. The model
follows the code, gives a concrete case, and proves when the property does hold.

- Breaks leave two characters on each side of a word (dw/hyphenator.cc:339-364): not in words of one
  or two characters, in which nothing is cleared, as `nextUtf8Char` returns NULL at the end of a
  string (`Hyphenation.BreaksLeaveTwo`: if and only if the word is empty or has three characters).
- Two candidates are enough to find the first float that meets a line (dw/ooffloatsmgr.cc:261-276):
  when the binary search ends at a float without height at the start of the line, this float hides
  later ones (`FloatBorders.CandidatesAreEnough`, `FloatBorders.FindFirst` and `FloatBorders.GetBorder`,
  equivalences for the index at which the search ends; `FloatBorders.BlindSpotExample`).
- The comparator of floats is an order (dw/ooffloatsmgr.cc:129-182): a point within a child block and
  the external index of this block are called equal (`FloatOrder.CompareIsDocumentOrder`, an
  equivalence). So the last float before a point is found, if and only if no float lies within a child
  block at this very point; otherwise the result is a float within this block, hence behind the point
  (`FloatOrder.FindFloatIndex`; `FloatOrder.WithinExample`).
- Any names without quotes may be used for attributes (dpip/dpip.c:45-58): names with `=`, a space or
  `<` anywhere in them are not read back reliably (`DpipQueries.NameIsReadable`, an equivalence for every
  name), and a query that contains `=` may be answered from within a value or across two attributes
  (`DpipQueries.QueryIsAnswered`, an equivalence for every query).
- Only `cmd='start_send_page'` switches a connection to raw data (dpip/dpip.c:474): so does every
  attribute whose name merely ends with `cmd` (`DpipStream.SwitchesExactly`, an equivalence).
- A cookie can always be added (dpi/cookies.c:765-790): when the total limit evicts the last cookie of
  the very domain, the node is used after it has been freed. This happens if and only if the store is
  full, nothing has expired, the cookie replaces none, and the only cookie of its domain is the first
  one of the flat list among those unused for the longest time (`Cookies.CookieStore.AddCookie`, with
  `WouldLose` before the call; the run `Cookies.LastOfItsDomainIsEvicted`).
- Cookies are found if and only if their domain matches the host (dpi/cookies.c:1339-1381). For a host
  like an IP address only the host itself is looked up, so that a cookie it has set with a leading dot
  is never sent (`CookieMatch.IpHostExample`, `CookieMatch.IpNeedsNoDot`); a domain without a leading dot
  behind an empty label of the host may be left out (`CookieMatch.EmptyLabelExample`); and one that looks
  like an IP address is also found for a host below it (`CookieMatch.IpSuffixExample`). These are all
  cases, for all hosts and domains (`CookieMatch.LookupsAreMatches`), and what is collected is right if
  and only if none of them is among the cookies that may be sent (`CookieMatch.GetIsFilter`).
- Positions of iterators are ordered by `compareTo` (dw/oofawarewidget_iterator.cc:118-126). Two that are
  both at START, or both at END, are equal only if they have got there in the same way: made there, or
  by a step. A START comes before an END, unless the widget has no parts, the END has been made there,
  and the START has been made there, too, or is the clone of such an END
  (`OofIterators.OOFAwareWidgetIterator.CompareTo`, an equivalence; `OofIterators.StartsDiffer`,
  `OofIterators.EmptyEndsDiffer`). The clone of an END iterator made for a widget without parts is at
  START (`OofIterators.OOFAwareWidgetIterator.Clone`).
- Searching goes on with the next occurrence (dw/findtext.cc:75-146). There are three exceptions.
  Backwards, a key of one character that is found at the very end of the text is found there again and
  again, which is wrong if and only if it occurs elsewhere (`FindTrials.WhenStuckIsRight`). After a change
  of the direction with the same key, the failure table is that of the other direction: an occurrence
  may be missed, so that even the assertion that the second search succeeds fails
  (`FindSessions.TurnExample`), or a place that is no occurrence is highlighted
  (`FindSessions.FalseHitExample`). Such a table is right for all texts if and only if each mismatch leads
  to the longest border that is followed by another character, which is a condition on the key and the
  table alone (`KmpTables.WhenSearchIsRight`, `FindText.WhenTurnIsSafe`). And backwards START and END are
  taken for the characters 2 and 1: the key of the character 2 is found behind every text
  (`FindSessions.MarkExample`), that of the character 1 is found again and again at the beginning of a
  text, if it is there, but not at its end (`FindSessions.EndlessExample`); no other session meets them
  (`FindSessions.WhenMarkIsMet`). With a table that suits the key, the answer is right if and only if the
  search does not begin at a mark that the key matches (`FindText.FindtextState.Search`).
- Scaling row by row gives the same as scaling the whole image (dw/fltkimgbuf.cc:249-293): when the image
  is made higher, only by an integral factor (`ImageScaling.IncrementalIsOneStep`,
  `ImageScaling.OtherwiseDifferent`).
- A scaled image is complete when all rows have arrived (dw/fltkimgbuf.cc:249-293): for an order that is
  not that of the rows, as in interlaced images, if and only if the image is made higher, or its height
  is divided by an integer (`ImageRuns.WhenOrderDoesNotMatter`).
- After a further scan a scaled image shows this scan (dw/fltkimgbuf.cc:381-395): a scaled row is done
  with the first root row that belongs to it, and shows the former scan in the others
  (`ImageRuns.FurtherScan`); it is right if and only if there are no others (`ImageRuns.RenewedRow`,
  `ImageRuns.NotRenewedRow`).

## Model

| member | source | states |
|---|---|---|
| `Trie.GetData` | dw/hyphenator.hh:31-45 | From a safe state of a closed array, the reader stays within the array and reaches a safe state, for every byte. |
| `Trie.PackedIsClosed` | dw/hyphenator.cc:411-459 | An array that packs an index of states can be read with any byte from any stored state without leaving it. |
| `Trie.PackedAfterWrite` | dw/hyphenator.cc:446-454 | Writing a state at a suitable base keeps all states stored before, claims no slot twice, and the base is new. |
| `Trie.WalkIsSem` | dw/hyphenator.hh:31-45 | If all bases fit into 16 bits, reading the packed array from a state yields for every word what the index of separate states says. |
| `TrieBuilding.LessAsymmetric` | dw/hyphenator.cc:403-409 | Byte order of keys is asymmetric. |
| `TrieBuilding.Sorted` | dw/hyphenator.cc:490-492 | Sorting the collected entries gives the same entries with keys in byte order. |
| `TrieBuilding.TrieBuilder.constructor` | dw/hyphenator.cc:378-386 | A new builder has one open, empty root state and knows no keys. |
| `TrieBuilding.TrieBuilder.FindSlot` | dw/hyphenator.cc:431-444 | The slot search ends, at the first base from its start on at which the state clashes with no stored one, and which no other state has; for the root state at 0; the array grows just so far as needed. |
| `Trie.WhenBlocked` | dw/hyphenator.cc:435-440 | A base is not free if and only if one of its slots is in use at this very base, or is taken although the state needs it. |
| `TrieBuilding.TrieBuilder.InsertState` | dw/hyphenator.cc:411-459 | A non-empty state is stored under a new base, the first free one from the end of the array less the packing, plus twice the transitions, and from 256 on, or 0 exactly for the root; nothing else of the index changes. |
| `TrieBuilding.TrieBuilder.StateStackPush` | dw/hyphenator.cc:461-467 | Opening a state beyond the used transitions keeps the invariant of the open states. |
| `TrieBuilding.TrieBuilder.StateStackPop` | dw/hyphenator.cc:469-486 | The two assertions hold; the left state is moved into its parent so that all known keys keep their values; leaving the root makes the stored index answer for all keys. |
| `TrieBuilding.TrieBuilder.InsertSorted` | dw/hyphenator.cc:508-528 | For a key not before the last one, its path becomes the open path and the known keys are those before and this one. |
| `TrieBuilding.TrieBuilder.InsertAll` | dw/hyphenator.cc:494-497 | After the loop the known keys are exactly those of the sorted list, each with one of its values. |
| `TrieBuilding.TrieBuilder.CreateTrie` | dw/hyphenator.cc:488-506 | The array is closed; if it fits 16 bits, reading any word in it finds a value inserted for this word, or nothing if there is none. |
| `TrieBuilding.TrieAnswers` | dw/hyphenator.hh:31-45 | A packed array for the known keys answers every word like a search in the list of entries. |
| `Hyphenation.InsertPattern` | dw/hyphenator.cc:149-182 | A pattern is split into its letters and one digit before each letter and after the last one (`PatternRoundTrip`). |
| `Hyphenation.LoadPatterns` | dw/hyphenator.cc:68-88 | From the lines of a pattern file, a trie is built that represents the patterns of these lines (`PatternsStep`), as the hyphenation needs it. |
| `Hyphenation.PatternRoundTrip` | dw/hyphenator.cc:149-182 | A text written of letters with a digit before each and after the last one, each digit as its own byte, or left out if it is 0, is split into exactly these letters and these digits. |
| `Hyphenation.PatternExample` | dw/hyphenator.cc:151-152 | The example of the source, "a1bc3d4". |
| `Hyphenation.PatternsStep` | dw/hyphenator.cc:73-83 | A further line adds its pattern at the end, unless it begins with '%'. |
| `Hyphenation.TrieIsDictionary` | dw/hyphenator.hh:31-45 | With distinct keys, the value read for a word is that of the one entry with this key, or none. |
| `Hyphenation.LevelIsUnique` | dw/hyphenator.cc:323-335 | The maximum digit over all occurrences of all patterns at a position is unique. |
| `Hyphenation.ReadStep` | dw/hyphenator.cc:326-333 | A value found while reading ends one position behind the byte that has been read, so that no point is set out of range. |
| `Hyphenation.ReadFrom` | dw/hyphenator.cc:326-334 | Reading from a start position adds all occurrences that begin there to the maxima, even if it stops early. |
| `Hyphenation.ComputeLevels` | dw/hyphenator.cc:319-335 | For each position, the point is the maximum digit over all occurrences of all patterns in the work string. |
| `Hyphenation.NumUtf8Chars` | lout/unicode.cc:162-168 | The number of characters that are walked through. |
| `Hyphenation.ClearEnds` | dw/hyphenator.cc:341-364 | In words of three characters and more, exactly the points that leave two characters on each side keep their values; in shorter ones all do. |
| `Hyphenation.SelectOdd` | dw/hyphenator.cc:366-373 | The breaks are appended in strictly increasing order, without touching those found before. |
| `Hyphenation.HyphenateByPatterns` | dw/hyphenator.cc:314-374 | The appended positions are exactly the odd maxima allowed in the word, strictly increasing. |
| `Hyphenation.HyphenateSingleWord` | dw/hyphenator.cc:293-374 | Exceptions take precedence and are shifted by the offset; without a trie there is nothing; otherwise the breaks of the patterns. |
| `Hyphenation.WhenBreak` | dw/hyphenator.cc:314-374 | There is a break at a position, if and only if among all digits that a pattern has there, where it occurs in the word between two dots, the greatest is odd, and, in words of three characters or more, two characters are left on each side. |
| `Hyphenation.WhenDigitAt` | dw/hyphenator.cc:319-335 | A pattern has a digit at a position exactly if its letters stand in the word between two dots around it; this is the digit that has been read there. |
| `Hyphenation.BreaksLeaveTwo` | dw/hyphenator.cc:339-364 | Whatever the patterns are, breaks leave two characters on each side, if and only if the word is empty or has three characters or more. |
| `Hyphenation.StartsAreOffsets` | lout/unicode.cc:110-137 | In a text of characters written as UTF-8 (section 3 of RFC 3629), the starts that are walked through are the places where these begin. |
| `Hyphenation.Utf8Length` | lout/unicode.cc:110-137 | A code has one byte up to 127, two up to 2047, three up to 65535, and four beyond. |
| `Hyphenation.FormIs` | lout/unicode.cc:95-106 | The bytes of a code without their marks are its digits in base 64. |
| `Hyphenation.CodesExample` | lout/unicode.cc:110-137 | Texts with codes of one, two, three and four bytes. |
| `Hyphenation.WhenNext` | lout/unicode.cc:110-137 | In any C string, valid UTF-8 or not: a value in two, three or four bytes is one character, any other byte is one by itself, and there is no next one at the end. |
| `Hyphenation.WhenLeavesTwo` | dw/hyphenator.cc:341-364 | In such a word a place leaves two characters on each side, if and only if the word has three characters or more and the place is that of one of them from the third to the one before the last. |
| `Hyphenation.ShyIs` | dw/hyphenator.cc:190-197 | The soft hyphen of exceptions is the character U+00AD in UTF-8. |
| `Hyphenation.InsertException` | dw/hyphenator.cc:184-206 | The word without soft hyphens is mapped to the places where they were. |
| `Hyphenation.ExceptionRoundTrip` | dw/hyphenator.cc:184-206 | Reading parts joined by soft hyphens gives back the word and the lengths of its proper prefixes. |
| `VectorSearch.BSearch` | lout/container.cc:227-279 | The index is that of a fixed function of the comparisons; in a list sorted for the key it is an index of an equal element, or the first index whose element is greater. |
| `FloatOrder.CompareLoops` | dw/ooffloatsmgr.cc:129-182 | The two upward loops compute the comparison by the one child block on the chain. |
| `FloatOrder.CompareIsDocumentOrder` | dw/ooffloatsmgr.cc:129-182 | The comparator has the sign of the lexicographic order of paths if and only if the points do not clash; clashing ones it calls equal. |
| `FloatOrder.CompareTransitive` | dw/ooffloatsmgr.cc:129-182 | Among points without clashes it is a total order: transitive, antisymmetric, and zero only for equal points. |
| `FloatOrder.ListIsSearchable` | dw/ooffloatsmgr.cc:190-193 | Floats registered in document order, at indices where no block stands, are sorted for every key. |
| `FloatOrder.FindFloatIndex` | dw/ooffloatsmgr.cc:184-224 | For every key: exactly the floats up to the result are at or before the point, if and only if no float lies within a child block at this point; otherwise the result is a float within this block, and no float at or before the point is behind it. |
| `FloatOrder.WithinIsBelow` | dw/ooffloatsmgr.cc:129-182 | A float lies within a child block at a point exactly if its path properly extends that of the point; so it comes after the point. |
| `FloatOrder.NothingWithinStart` | dw/ooffloatsmgr.cc:1300-1306 | At the index -1, the start of a block, no child block stands, so that the search for it is exact. |
| `FloatOrder.WithinExample` | dw/ooffloatsmgr.cc:129-182 | A float in a child block at index 0 lies after the point at index 0, but within this block, so that the search for this point is not exact. |
| `Floats.Float.Covers` | dw/ooffloatsmgr.cc:106-116 | Whether a float meets a line, with its size up to date. |
| `Floats.CollidesV` | dw/ooffloatsmgr.cc:870-899 | True if and only if the float starts above the y plus the height of the other one, with this sum as the new position. |
| `Floats.CollidesH` | dw/ooffloatsmgr.cc:902-923 | True if and only if x plus width of the left one is greater than the x of the right one. |
| `Floats.FindLastBefore` | dw/ooffloatsmgr.cc:278-285 | Exactly the floats up to the index precede the given one in the order of both sides. |
| `Floats.OOFFloatsMgr.AddWidgetOOF` | dw/ooffloatsmgr.cc:545-596 | A float becomes the last one of its side and of both sides together; the lists stay consistently numbered. |
| `Floats.OOFFloatsMgr.ClearSameSide` | dw/ooffloatsmgr.cc:773-783 | The float moves to the bottom of the previous one of its side, if it starts above it. |
| `Floats.OOFFloatsMgr.SameSideCleared` | dw/ooffloatsmgr.cc:773-783 | Who is below the previous float of a side is below all earlier ones of it. |
| `Floats.OOFFloatsMgr.OppositeClearedByList` | dw/ooffloatsmgr.cc:810-826 | Where the loop over the opposite side stops, the floats not looked at need not be. |
| `Floats.OOFFloatsMgr.ClearOppositeSide` | dw/ooffloatsmgr.cc:810-826 | The float ends up below all earlier floats of the other side that it has to clear, moved only to the bottom of such a float. |
| `Floats.OOFFloatsMgr.TellPosition1` | dw/ooffloatsmgr.cc:751-851 | The float gets the highest position at or below the requested one that clears all earlier floats; if it is below its request, it stands at the bottom of an earlier float of its side, or one of the other side that it crosses horizontally; the others keep their positions; the result tells whether the position has changed. |
| `Floats.OOFFloatsMgr.LayoutPass` | dw/ooffloatsmgr.cc:751-851 | After all positions have been told in order, whatever they were before, each float is at its highest admissible position: at its request, or below, at the bottom of an earlier float of its side or one that it crosses horizontally; no two overlap. |
| `Floats.WhenMustClear` | dw/ooffloatsmgr.cc:902-923 | A float has to clear those of its side, and those of the other side, if x plus width of the left one is greater than the x of the right one. |
| `Floats.OOFFloatsMgr.WhenStandsBelow` | dw/ooffloatsmgr.cc:773-826 | Where a float that has moved stands: at the bottom of an earlier one of its side, or of one of the other side, if x plus width of the left one is greater than the x of the right one. |
| `Floats.HighestIsRequested` | dw/ooffloatsmgr.cc:751-851 | Below its request, a highest position is the bottom of an earlier float that has to be cleared. |
| `Floats.StaysAtRequest` | dw/ooffloatsmgr.cc:751-851 | A float stays at its request if the earlier ones of its side end above it and those of the other side leave room beside it. |
| `Floats.StackedNoOverlap` | dw/ooffloatsmgr.cc:773-826 | Floats that clear earlier ones do not share a point: one is beside or below the other (section 9.5.1 of CSS 2.1). |
| `FloatBorders.PlacedOnLadder` | dw/ooffloatsmgr.cc:751-851 | After a layout pass the floats of each side are ordered and do not overlap vertically, as the queries need it. |
| `FloatBorders.CandidateIsFirst` | dw/ooffloatsmgr.cc:261-276 | For the index the search returns: the chosen candidate is the first float that meets the line, if and only if the search has not ended at a float without height that hides another one. |
| `FloatBorders.CandidatesAreEnough` | dw/ooffloatsmgr.cc:261-276 | The two candidates give the first float that meets the line, if and only if the binary search does not end at a float without height that hides it. |
| `FloatBorders.BlindSpotExample` | dw/ooffloatsmgr.cc:261-276 | A float without height at 0 hides the float below it from a line that the latter meets. |
| `FloatBorders.MeetingIsContiguous` | dw/ooffloatsmgr.cc:1135-1141 | The floats that meet a line follow each other in the list. |
| `FloatBorders.FindFirst` | dw/ooffloatsmgr.cc:242-276 | The result is the first float up to the limiting one that meets the line, or none, if and only if the search has not ended in a blind spot; in a blind spot it is none. |
| `FloatBorders.WidestFrom` | dw/ooffloatsmgr.cc:1131-1177 | From the first float on, the run gives the maximum border over all floats up to the limiting one. |
| `FloatBorders.WhenWidest` | dw/ooffloatsmgr.cc:1131-1177 | The widest border is the maximum of width plus the difference of the borders over the floats that share a line with the given stripe, or 0. |
| `FloatBorders.GetBorder` | dw/ooffloatsmgr.cc:1118-1181 | The maximum border over all floats at or before the limiting one that meet the line, 0 without any, if and only if no border is lost in a blind spot; then the result is 0. |
| `FloatBorders.GetClearPosition` | dw/ooffloatsmgr.cc:1292-1319 | The lowest position, at least 0, that is below all floats before the widget; the assertion on the generator holds. |
| `FloatBorders.AfterStartOfBlock` | dw/ooffloatsmgr.cc:1300-1306 | No float generated by a block is before the start of this block. |
| `Dpip.StrStr` | dpip/dpip.c:97 | The first place of a pattern, or none. |
| `Dpip.UnstuffedStuffed` | dpip/dpip.c:108-115 | Removing the stuffing undoes stuffing, for every value. |
| `Dpip.StuffedParts` | dpip/dpip.c:108-115 | Stuffing doubles each quote and keeps every other character, one after the other. |
| `Dpip.StuffedPaired` | dpip/dpip.c:108-115 | In a stuffed value each quote has another one beside it. |
| `Dpip.BuildCmd` | dpip/dpip.c:83-126 | A format with quotes is refused; otherwise the literal parts with the quoted and stuffed arguments between them, and the end mark. |
| `Dpip.CommandEnds` | dpip/dpip.c:60-66 | For quote-free literal parts: whatever the arguments are, the end mark occurs only at the end, if and only if no argument follows a space and no '>' follows an argument. |
| `Dpip.LiteralsUnquoted` | dpip/dpip.c:89-91 | The parts of an accepted format have no quotes. |
| `DpipAttr.UnstuffInPlace` | dpip/dpip.c:180-182 | The loop with two cursors on one C string leaves the unstuffed string with its terminator. |
| `DpipAttr.GetAttrL` | dpip/dpip.c:134-186 | The scan and the search of the closing quote compute the value defined by the state machine, or nothing. |
| `DpipAttr.ScanValue` | dpip/dpip.c:161-167 | A stuffed value is skipped exactly up to its closing quote, whatever it contains. |
| `DpipQueries.AttributesRoundTrip` | dpip/dpip.c:83-186 | Reading a command built for a list of attributes gives the value of each name (the first one for repeated names) and nothing for an absent name, for all values and all queries that cannot be mistaken. |
| `DpipAttr.FormatLiterals` | dpip/dpip.c:96-106 | The parts of a format like `a=%s b=%s` are those of its names, if and only if no name contains "%s". |
| `DpipAttr.TagExample` | dpip/dpip.c:45-66 | The text of a tag with two attributes, for all names and values. |
| `DpipAttr.LookupIs` | dpip/dpip.c:134-186 | With distinct names the value that is looked up for a name is its own. |
| `DpipQueries.QueryIsAnswered` | dpip/dpip.c:153-159 | A query is answered well for all names and values, if and only if it is not a name followed by '=' that can stand, with an equals sign behind it, in the text of attributes, from a name or from within a value on. |
| `DpipQueries.NameIsReadable` | dpip/dpip.c:45-58 | A quote-free name is read back, for all values and all queries, if and only if it has no space, '=' or '<' in it. |
| `DpipQueries.NotFound` | dpip/dpip.c:134-186 | A query that fits at no place of any text of attributes is not found. |
| `DpipQueries.MistakenInValue` | dpip/dpip.c:148-160 | A query that fits within a value is answered from there. |
| `DpipQueries.MistakenForName` | dpip/dpip.c:148-160 | A query that fits from a name on is answered in place of it. |
| `DpipStream.Dsh.constructor` | dpip/dpip.c:247-265 | A new handle has an empty buffer and reads tags. |
| `DpipStream.Dsh.ReadToken2` | dpip/dpip.c:438-487 | One call without waiting changes the buffer and the mode, and returns a token, as the function on states says. |
| `DpipStream.BytesConserved` | dpip/dpip.c:438-487 | Over any run on any input, the tokens followed by the buffer are the bytes received. |
| `DpipStream.ReadCommand` | dpip/dpip.c:468-476 | While tags are read, the next command of a stream is returned as soon as it is complete. |
| `DpipStream.ReadNothing` | dpip/dpip.c:468-476 | Before this, nothing is returned. |
| `DpipStream.RunOnStream` | dpip/dpip.c:438-487 | For any stream of commands and any chunking of it, the tokens are the first commands in order; raw data come only after all commands, the last of which switches the mode. |
| `DpipStream.AllCommandsCome` | dpip/dpip.c:438-487 | After all bytes and as many further calls as there are commands, all commands have been returned, and after one more call also the raw data. |
| `DpipStream.SwitchesExactly` | dpip/dpip.c:474-475 | A command built from attributes switches the mode if and only if it has the value start_send_page in an attribute whose name ends with "cmd". |
| `DpipStream.BuiltIsTag` | dpip/dpip.c:83-126 | Commands built from attributes are cut correctly from a stream: the first end mark is their end. |
| `Kmp.CandidateExtends` | dw/findtext.cc:189-197 | Extending a candidate border gives the longest border of the next prefix. |
| `Kmp.CandidateFails` | dw/findtext.cc:195-196 | When a candidate cannot be extended, the next one is its own longest border. |
| `Kmp.SearchFails` | dw/findtext.cc:275-276 | After a mismatch no occurrence is skipped by going on with the failure table. |
| `Kmp.OccursReversed` | dw/findtext.cc:163-175 | Occurrences of the reversed key in the reversed text are those of the key, counted from the end. |
| `KmpTables.WhenSearchIsRight` | dw/findtext.cc:271-277 | For every table that leads to smaller candidates: the search finds the first occurrence in every text and from every start, or nothing without one, if and only if every mismatch leads to the longest border that is followed by another character. |
| `KmpTables.MissedOccurrence` | dw/findtext.cc:275-276 | Where a table leads below such a border, there is a text in which an occurrence is missed. |
| `KmpTables.FalseOccurrence` | dw/findtext.cc:271-289 | Where it leads to a candidate that is no border, there is a text in which something is found that is no occurrence. |
| `KmpTables.OwnTableSuits` | dw/findtext.cc:177-203 | The table of longest borders of a key suits this key. |
| `FindTrials.EqualIsSameCanonical` | dw/findtext.hh:68-70 | Equality of characters is the equality of a canonical form, hence an equivalence, on which the table relies (`WhenCharsEqual`). |
| `FindTrials.WhenCharsEqual` | dw/findtext.hh:68-70 | Two characters are equal without regard to case, if and only if they are the same, or one is a letter from A to Z and the other is 32 greater, or both are among 9 to 13 and 32; with regard to case, if and only if they are the same. |
| `FindTrials.OccursIsPlace` | dw/findtext.cc:271-289 | The key occurs at a place modulo the canonical form, if and only if each of its characters is equal to that of the text there in this sense. |
| `FindTrials.ScanFromIsRight` | dw/findtext.cc:271-289 | With a table that suits the key, one pass over the text finds the first occurrence from its start on, or none, if and only if the key does not match the mark START or END at which it begins. |
| `FindTrials.TrialIsRight` | dw/findtext.cc:225-295 | With such a table, from the place behind an occurrence or from the first place, the search in either direction finds the next occurrence beyond it, or none, if and only if it does not begin at such a mark. |
| `FindTrials.SearchIsRight` | dw/findtext.cc:75-146 | With both trials: NOT_FOUND exactly without any occurrence, SUCCESS at the next one, RESTART at the first one when there is no further one, and the assertion on the second search holds (stuck at the end of the text, RESTART there), if and only if no trial begins at such a mark. |
| `FindTrials.WhenStuckIsRight` | dw/findtext.cc:225-228 | To find the last character again is right if and only if it is the only occurrence. |
| `FindText.CreateNexttab` | dw/findtext.cc:177-203 | Each entry is the length of the longest proper border modulo the equivalence, forwards or backwards. |
| `FindText.WhenTurnIsSafe` | dw/findtext.cc:84-110 | With the table of the other direction, searches are right in every text and from every start, if and only if this table suits the key. |
| `FindText.Scan` | dw/findtext.cc:271-277 | For every table, the loop ends where the definition of a pass says, or at the end of the text. |
| `FindText.FindtextState.SetWidget` | dw/findtext.cc:55-73 | A new widget makes the next search start anew. |
| `FindText.FindtextState.Search0` | dw/findtext.cc:225-295 | For every table, what is found, and where the iterator stands then, is that of one trial; otherwise it stands at the end of the text in the direction of the search. |
| `FindText.FindtextState.HighlightFound` | dw/findtext.cc:115-124 | What has been found is highlighted, up to its end, or to the last character if this is the end of the text; the iterator stands one character behind its start. |
| `FindText.FindtextState.Search` | dw/findtext.cc:75-146 | For every key and every table the result and the highlighted place are those of the trials. If the key is new, or the table suits it and the iterator stands behind an occurrence, they are right exactly if no trial begins at a mark that the key matches, and then the iterator stands behind an occurrence again. |
| `FindText.FindtextState.AnswersInText` | dw/findtext.cc:75-146 | A right answer in terms of places of the text whose characters equal those of the key: without any, NOT_FOUND; otherwise the next one in the direction of the search, or the first one. |
| `FindSessions.WhenMarkIsMet` | dw/findtext.cc:225-289 | In some search of a session with one key and one direction a mark is matched, if and only if it goes backwards with the key of the character 2, or of the character 1 and this is at the beginning of the text and not at its end. |
| `FindSessions.FindAll` | dw/findtext.cc:75-146 | In all other sessions, repeated searches highlight every occurrence, overlapping ones included, once and in order, which are exactly the places whose characters equal those of the key; then they restart at the first one; backwards, a key of one character at the end of the text is the only one that is ever found. |
| `FindSessions.MarkExample` | dw/findtext.cc:266-282 | Backwards, the key of the character 2 is highlighted behind every text. |
| `FindSessions.FoundAgain` | dw/findtext.cc:255-282 | Backwards, the key of the character 1 that is highlighted at the beginning of a text is found there again. |
| `FindSessions.EndlessExample` | dw/findtext.cc:255-282 | A session in which each of any number of searches finds the same place. |
| `FindSessions.TurnExample` | dw/findtext.cc:129-143 | A session in which the direction changes, and the assertion on the second search fails. |
| `FindSessions.FalseHitExample` | dw/findtext.cc:84-124 | A session in which the direction changes, and a place that is no occurrence is highlighted. |
| `Dlists.Partition` | dlib/dlib.c:752-774 | Neither scan leaves the range although the pivot moves; everything left of p is at most the pivot, everything right of q at least it, both parts are smaller, and elements are only exchanged. |
| `Dlists.QuickSort` | dlib/dlib.c:752-780 | For every total preorder the range is sorted and a permutation of what it was, and the rest is untouched. |
| `Dlists.RankedIsPreorder` | dlib/dlib.c:752-780 | Every comparison by a number is a total preorder, so that the sort may be used with it. |
| `Dlists.Sort` | dlib/dlib.c:785-790 | The list is sorted and a permutation. |
| `Dlists.Dlist.InsertPos` | dlib/dlib.c:603-619 | The element is inserted at the position and the rest moves, in an array of twice the size if it was full; outside the range nothing changes. |
| `Dlists.Dlist.Append` | dlib/dlib.c:624-627 | The element is put at the end. |
| `Dlists.Dlist.RemoveFast` | dlib/dlib.c:650-663 | The first such element is replaced by the last one; an absent element changes nothing. |
| `Dlists.Dlist.Remove` | dlib/dlib.c:668-683 | The first such element is removed and the order is kept; an absent element changes nothing. |
| `Dlists.Dlist.FindIdx` | dlib/dlib.c:710-724 | The first index of an element, or -1 if it is absent. |
| `Dlists.Dlist.FindSorted` | dlib/dlib.c:823-846 | In a list sorted for the key: an equal element, or nothing if there is none. |
| `Dlists.Dlist.InsertSorted` | dlib/dlib.c:796-816 | The element is inserted where the earlier ones are at most, the later ones at least as great. |
| `Dlists.RemovedFastPermutes` | dlib/dlib.c:647-683 | Both ways of removing leave the same elements. |
| `Dlists.InsertedStaysSorted` | dlib/dlib.c:796-816 | Sorted insertion keeps a list sorted. |
| `Dlists.SortedIsSearchable` | dlib/dlib.c:823-846 | A sorted list may be searched for any key. |
| `Cookies.NodesAreSearchable` | dpi/cookies.c:158-174 | The nodes, sorted without regard to case, may be searched by binary search, which finds the one node of a domain. |
| `Cookies.SameKey` | dpi/cookies.c:158-174 | Two domains have the same key, if and only if they are of the same length and each character is the same or the same letter in the other case. |
| `Cookies.HolderIsUnique` | dpi/cookies.c:121-124 | A cookie is in the list of a node if and only if it is stored and has the domain of the node: the flat list is their disjoint union. |
| `Cookies.GetLRU` | dpi/cookies.c:656-668 | The first one of the cookies that have not been used for the longest time. |
| `Cookies.CookieStore.RmExpiredOfNode` | dpi/cookies.c:677-702 | Exactly the expired cookies of the node are removed and counted, from both views; the node goes with its last cookie. |
| `Cookies.CookieStore.RmExpiredOfAll` | dpi/cookies.c:677-702 | Exactly the expired cookies are removed and counted; nodes go with their last cookies. |
| `Cookies.CookieStore.TooManyOfNode` | dpi/cookies.c:708-723 | The first one in the list of the node of those unused for the longest time is removed from both views. |
| `Cookies.CookieStore.TooManyOfAll` | dpi/cookies.c:708-723 | The first one in the flat list of those unused for the longest time is removed, with its node if it was the last one there. |
| `Cookies.CookieStore.RemoveReplaced` | dpi/cookies.c:734-741 | Exactly the cookies of the domain equal in host-only flag, name and path are removed. |
| `Cookies.CookieStore.LimitNode` | dpi/cookies.c:753-764 | At the limit of 20 for a domain exactly its expired cookies are removed, or, without any, the first one in its list of those unused for the longest time; below it nothing changes; whether the node exists afterwards is known. |
| `Cookies.CookieStore.LimitTotal` | dpi/cookies.c:765-774 | At the limit of 1200 exactly the expired cookies are removed, or, without any, the first one in the flat list of those unused for the longest time; the node is lost if and only if, before the call, the store is full without expired cookies and this one is the only cookie of the domain. |
| `Cookies.WhenReplaced` | dpi/cookies.c:1015-1022 | A cookie is replaced by one of the same domain with the same name, path and host-only flag. |
| `Cookies.OthersAreKept` | dpi/cookies.c:725-794 | With fewer than 20 cookies of the domain and fewer than 1200 in all, only replaced ones are removed. |
| `Cookies.LimitsRemove` | dpi/cookies.c:753-774 | A limit removes something if and only if there are 20 cookies of the domain, or 1200 in all; there are never more. |
| `Cookies.WhatLimitsRemove` | dpi/cookies.c:656-723 | At a limit exactly the expired cookies of the list go, or, without any, the first one of those with the least mark of use. |
| `Cookies.OrderIsTransitive` | dpi/cookies.c:677-794 | What keeps the order of all lists may be done in sequence; this is how the order is carried over all steps. |
| `Cookies.CookieStore.AddCookie` | dpi/cookies.c:725-794 | The store stays consistent and within its limits; its new contents are exactly what replacement and the two limits leave of the old ones, with the new cookie, behind all others in the list of its domain, whose order stays; an expired one only removes those it replaces; while no limit is reached, all cookies are kept but those of the domain with the same name, path and host-only flag; whether it fails is told by a condition on the store before the call, in both directions. |
| `Cookies.LastOfItsDomainIsEvicted` | dpi/cookies.c:765-790 | A run of 1201 additions in which the last one fails. |
| `CookieMatch.LookupsAreMatches` | dpi/cookies.c:1339-1381 | For every host and every domain: a domain is looked up if and only if it matches the host and is not missed, or is extra. Missed are, for a host like an IP address, all but the host itself, and otherwise domains without a leading dot behind a dot at the beginning of the host or directly behind one that has been tried; extra are domains like an IP address at such places, and a host like an IP address that begins with a dot. |
| `CookieMatch.NothingMissed` | dpi/cookies.c:1367-1381 | For a host that is no IP address and has no empty labels but perhaps the last one, no matching domain is missed. |
| `CookieMatch.IpNeedsNoDot` | dpi/cookies.c:1339-1362 | For a host like an IP address, a matching domain like one is looked up if and only if it has no leading dot. |
| `CookieMatch.IpHostExample` | dpi/cookies.c:1351-1356 | The domain ".1.2.3.4" matches the host "1.2.3.4", for which it is not looked up. |
| `CookieMatch.EmptyLabelExample` | dpi/cookies.c:1368-1381 | The domain "b" matches the host "a..b", for which it is not looked up. |
| `CookieMatch.IpSuffixExample` | dpi/cookies.c:1115-1116 | The domain "3.4" is looked up for the host "a.3.4", which it does not match. |
| `CookieMatch.AddMatching` | dpi/cookies.c:1274-1317 | One lookup drops the expired cookies of the domain, marks the matching ones as used, and inserts them behind those with paths at least as long. |
| `CookieMatch.InsertMatchingSorted` | dpi/cookies.c:1305-1310 | The collected cookies stay in the order of non-increasing path length and without repetition. |
| `CookieMatch.Get` | dpi/cookies.c:1322-1381 | Every cookie that is unexpired, allowed by path and scheme and looked up is collected exactly once: longest paths first, then those of earlier lookups, then those added earlier; exactly these are marked as used; expired ones of the domains are dropped, all others stay, in their order. |
| `CookieMatch.WhoIsSent` | dpi/cookies.c:1026-1072 | A stored cookie is collected if and only if it has not expired, is not a secure one without TLS, the segments of its path are the first ones of the path of the request (not all of them, if it ends with a slash), and it has been set by this very host, or its domain is found. |
| `CookieMatch.PathMatchesIs` | dpi/cookies.c:1055-1072 | A cookie path without a slash at its end matches if and only if its segments are a prefix of those of the request; one with a slash, if and only if those before it are a proper prefix; nothing matches without a path of the request. |
| `CookieMatch.SegmentsJoin` | dpi/cookies.c:1055-1072 | The segments of a path have no slashes, and make it up again when they are joined by slashes. |
| `CookieMatch.WhenIp` | dpi/cookies.c:1027-1046 | A host looks like an IP address, if and only if it consists of digits and dots, or has a colon and consists of hexadecimal digits, colons and dots. |
| `CookieMatch.OneComesFirst` | dpi/cookies.c:1305-1381 | Of two cookies that are found exactly one comes first. |
| `CookieMatch.AnswerIsUnique` | dpi/cookies.c:1305-1381 | So what is collected, and in which order, is determined by the store, the lookups and the request. |
| `CookieMatch.GetIsFilter` | dpi/cookies.c:1339-1381 | For every host, what is collected is what the filter of RFC 6265, sections 5.1.3, 5.1.4 and 5.4 would collect, without the missed cookies and with the extra ones; it is the same if and only if no cookie that may be sent is missed or extra. |
| `OofIterators.OOFAwareWidgetIterator.constructor` | dw/oofawarewidget_iterator.cc:36-53 | A new iterator is before the first or behind the last item, and known to have been made there. |
| `OofIterators.OOFAwareWidgetIterator.Clone` | dw/oofawarewidget_iterator.cc:55-67 | A clone is at the same position, if and only if it is not cloned from the END that was made for a widget without parts. |
| `OofIterators.OOFAwareWidgetIterator.Next` | dw/oofawarewidget_iterator.cc:128-175 | Exactly one step forward over the parts of all sections that pass the mask, with the content there. |
| `OofIterators.OOFAwareWidgetIterator.Prev` | dw/oofawarewidget_iterator.cc:177-223 | Exactly one step back. |
| `OofIterators.ItemsInOrder` | dw/oofawarewidget_iterator.cc:128-175 | The items are those parts in flow that pass the mask, then the floats, then the absolute, relative and fixed ones. |
| `OofIterators.FilterOfOne` | dw/oofawarewidget_iterator.cc:162-162 | A content passes the mask if and only if its own kind is in it. |
| `OofIterators.OOFAwareWidgetIterator.CompareTo` | dw/oofawarewidget_iterator.cc:118-126 | The sign is the order of the positions if and only if one of the two has content, or both are at the same end and have got there in the same way, or they are at different ends and not both of a widget without parts, at an END made there, and at a START made there or cloned from such an END. |
| `OofIterators.StartsDiffer` | dw/oofawarewidget_iterator.cc:118-126 | The START that is reached by going back is not equal to the START of a new iterator. |
| `OofIterators.EmptyEndsDiffer` | dw/oofawarewidget_iterator.cc:118-126 | In a widget without parts, the START of a new iterator does not come before the END made for it. |
| `DeepIterators.Whole` | dw/iterator.cc:671-730 | What is before a position, the content there and what is after it make up the flattened tree. |
| `DeepIterators.NextStepFollows` | dw/iterator.cc:671-697 | The recursion of next ends, and stops at the first content after the position; empty child widgets are skipped. |
| `DeepIterators.PrevStepPrecedes` | dw/iterator.cc:704-730 | The same backwards. |
| `DeepIterators.LevelOrder` | dw/iterator.cc:610-654 | The order of the cursors on the highest level with the same widgets is the order of the positions in the flattened tree. |
| `DeepIterators.DeepIterator.constructor` | dw/iterator.cc:497-588 | From an iterator at the START or END of a root widget: before the first or behind the last content of the flattened tree; an END made for a widget without parts becomes a START, as it is cloned. |
| `DeepIterators.DeepIterator.Clone` | dw/iterator.cc:596-608 | A clone of any deep iterator has its own iterators and is at the same position. |
| `DeepIterators.DeepIterator.Next` | dw/iterator.cc:671-697 | Exactly one leaf forward in the flattened tree, or to its end. |
| `DeepIterators.DeepIterator.Prev` | dw/iterator.cc:704-730 | Exactly one leaf back, or to the start. |
| `DeepIterators.DeepIterator.CommonLevel` | dw/iterator.cc:637-649 | The two loops find the highest level up to which the widgets are the same. |
| `DeepIterators.DeepIterator.CompareTo` | dw/iterator.cc:610-654 | The sign is the order of the positions if and only if one of the two has content, or their ends of the root widget are in order, as it is for one widget. |
| `CharIterators.CharIterator.constructor` | dw/iterator.cc:748-755 | A new iterator is before the first character, whether there are empty words or not. |
| `CharIterators.CharIterator.Next` | dw/iterator.cc:782-819 | Exactly one character forward in the text of the tree, as a cursor over it: words, the spaces after them and newlines for breaks; empty words are skipped. |
| `CharIterators.CharIterator.Prev` | dw/iterator.cc:821-855 | Exactly one character back, as a cursor. |
| `CharIterators.CharIterator.AtChar` | dw/iterator.cc:782-855 | The character at the position is that of the text; START and END are before and behind it. |
| `CharIterators.CharsExample` | dw/iterator.cc:782-819 | The characters of words with and without a space, of an empty word and of a break. |
| `CharIterators.CharIterator.Clone` | dw/iterator.cc:763-770 | A clone is at the same character. |
| `CharIterators.NextAlike` | dw/iterator.cc:782-819 | An iterator and a cursor over its text that stand alike still do after one step, with the same answer. |
| `CharIterators.PrevAlike` | dw/iterator.cc:821-855 | The same backwards. |
| `CharIterators.SameChar` | dw/iterator.hh:235-235 | Such two have the same character, the marks for START and END included. |
| `ImageRows.RowsOf` | dw/fltkimgbuf.cc:251-252 | The scaled rows from scaledY(row) up to scaledY(row + 1) are those whose last root row this is. |
| `ImageRows.NextScaled` | dw/fltkimgbuf.cc:272 | With no more scaled rows than root rows, the two differ by at most one, so that the assertion holds. |
| `ImageRows.BlockIsComplete` | dw/fltkimgbuf.cc:273-277 | When the last row of a scaled row arrives, all rows of its block have arrived. |
| `ImageRows.LastRowScales` | dw/fltkimgbuf.cc:568-584 | The last root row of a scaled row belongs to this scaled row. |
| `ImageRows.MultipleIsExact` | dw/fltkimgbuf.cc:568-584 | For a height that is a multiple, back-scaling gives the very row that has been scaled. |
| `ImageRows.OtherwiseNotExact` | dw/fltkimgbuf.cc:568-584 | For all other greater heights there is a row for which it does not. |
| `ImageBytes.ByteIndexInRange` | dw/fltkimgbuf.cc:341-347 | Every byte that is read or written lies within its buffer. |
| `ImageBytes.ByteIndexIsUnique` | dw/fltkimgbuf.cc:341-347 | Different bytes of different pixels have different places. |
| `ImageBytes.BytesAt` | dw/fltkimgbuf.cc:341-344 | The byte at its place in the one array is that of its pixel and row. |
| `ImageBytes.SetByte` | dw/fltkimgbuf.cc:347-350 | Writing a byte at its place changes this byte of this pixel and nothing else. |
| `ImageBytes.BytesOfRows` | dw/fltkimgbuf.cc:279-280 | The bytes between the places of two rows are those of the rows between them. |
| `ImageBytes.BytesFrom` | dw/fltkimgbuf.cc:162-163 | A pointer to a row leads to the bytes of the image from this row on. |
| `ImageBytes.RowOffset` | dw/fltkimgbuf.cc:259-260 | Places counted from a row are those of the rows behind it. |
| `ImageBytes.CopyBytes` | dw/fltkimgbuf.cc:370 | Copying the bytes of a row to its place replaces this row and nothing else. |
| `ImageBytes.BytesOfPixels` | dw/fltkimgbuf.cc:370 | The bytes that arrive for a row are those of its pixels. |
| `ImageBytes.CopyRow` | dw/fltkimgbuf.cc:370 | After copying, the buffer holds the bytes of the image with this row replaced. |
| `ImageBytes.PlainBytes` | dw/fltkimgbuf.cc:140-142 | A buffer with the same byte everywhere is that of a plain image. |
| `ImageBytes.BlockSums` | dw/fltkimgbuf.cc:335-344 | Reading bytes at the computed places, the loops add up the bytes of all pixels of the rectangle, each once (`SumChange`). |
| `ImageScaling.RangeInside` | dw/fltkimgbuf.cc:330-333 | The source columns and rows of a pixel are at least one, and within the source. |
| `ImageScaling.RangesPartition` | dw/fltkimgbuf.cc:330-333 | The ranges of successive pixels follow each other and end with the source; when the image is made larger, each is one pixel. |
| `ImageScaling.SumChange` | dw/fltkimgbuf.cc:335-344 | When one byte of the channel changes, the sum over a rectangle changes by the difference of the two values if the pixel is inside, and not at all if it is outside. |
| `ImageScaling.OutsideIsIrrelevant` | dw/fltkimgbuf.cc:335-350 | A scaled byte only depends on the pixels of its rectangle. |
| `ImageScaling.UniformIsKept` | dw/fltkimgbuf.cc:335-350 | If all pixels of the rectangle have the same byte, the scaled byte is this one, through both gamma tables. |
| `ImageScaling.IdentityRow` | dw/fltkimgbuf.cc:315-354 | With the same width and without gamma correction, a row of the same height is copied. |
| `ImageBytes.ScaleBuffer` | dw/fltkimgbuf.cc:315-354 | Reading and writing bytes at the computed places, exactly the requested rows are filled, each pixel with the mean over its rectangle (`UniformIsKept`, `OutsideIsIrrelevant`); all other bytes stay. |
| `ImageBuffers.FltkImgbuf.Scaled` | dw/fltkimgbuf.cc:160-166 | A new scaled buffer is light gray, and then the rows that have arrived have been passed to it in turn. |
| `ImageBuffers.FltkImgbuf.ScaleDown` | dw/fltkimgbuf.cc:272-291 | A row is scaled and marked exactly when its block is complete. |
| `ImageBuffers.FltkImgbuf.ScaleUp` | dw/fltkimgbuf.cc:258-264 | Exactly the scaled rows whose last root row this is are filled with it and marked. |
| `ImageBuffers.FltkImgbuf.ScaleRow` | dw/fltkimgbuf.cc:208-216 | Passing any root row, in any order, finishes exactly the rows that belong to it, are not done and have their block; nothing else changes. |
| `ImageBuffers.FltkImgbuf.CopyRow` | dw/fltkimgbuf.cc:356-379 | Any row, in any order, is stored with its bytes in the root buffer and passed to all scaled buffers; rows outside of the image are ignored. |
| `ImageBuffers.FltkImgbuf.GetScaledBuf` | dw/fltkimgbuf.cc:397-441 | An excessive size leads to the root buffer, any other one, limited to the maximum, to a buffer of this size; existing ones are reused and kept, a new one has got all rows that have arrived. |
| `ImageBuffers.FltkImgbuf.NewScan` | dw/fltkimgbuf.cc:381-395 | No row of a scaled buffer is done any more; the pixels and the root buffer stay. |
| `ImageBuffers.InitSize` | dw/fltkimgbuf.cc:96-128 | The size of a new buffer always fits; it is the wanted one, if this fits, and limited to the maximum, if it is not excessive. |
| `ImageBuffers.WhenFits` | dw/fltkimgbuf.cc:96-128 | A size fits if and only if both sides are positive and at most 32768, and the area is at most 36000000. |
| `ImageRuns.RowAfter` | dw/fltkimgbuf.cc:249-293 | After any run, a scaled row has the pixels of the image at the first arrival that finishes it, and before it is untouched: each one is written at most once. |
| `ImageRuns.FinishedRow` | dw/fltkimgbuf.cc:249-293 | When no row arrives twice, in whichever order, every finished row has the pixels of the image. |
| `ImageRuns.InOrderCompletes` | dw/fltkimgbuf.cc:249-293 | In order, every scaled row is done with its last root row at the latest, and in the end holds the pixels of its block. |
| `ImageRuns.WhenOrderDoesNotMatter` | dw/fltkimgbuf.cc:249-293 | Every order of the rows completes the scaled image, if and only if it is higher than the root image or its height divides that. |
| `ImageRuns.LateHasAll` | dw/fltkimgbuf.cc:160-166 | A buffer that is created late has all rows that one created before has. |
| `ImageRuns.LateIsComplete` | dw/fltkimgbuf.cc:160-166 | Created after all rows, it is complete, whatever their order was. |
| `ImageRuns.LateIsSame` | dw/fltkimgbuf.cc:160-166 | When the rows arrive in order, a buffer that is created late is as far as if it had been there from the beginning. |
| `ImageRuns.FurtherScan` | dw/fltkimgbuf.cc:381-395 | After a further scan, each scaled row has the pixels of the new scan up to the first root row that belongs to it, and of the former one behind. |
| `ImageRuns.RenewedRow` | dw/fltkimgbuf.cc:381-395 | It has the pixels of the new scan if nothing of its block is behind this row. |
| `ImageRuns.NotRenewedRow` | dw/fltkimgbuf.cc:381-395 | Otherwise there are two scans, of any size, for which it has not. |
| `ImageScaling.IncrementalIsOneStep` | dw/fltkimgbuf.cc:315-354 | For a height not greater than that of the root image, or a multiple of it, these are the pixels of scaling the finished image in one step. |
| `ImageScaling.OtherwiseDifferent` | dw/fltkimgbuf.cc:258-264 | For every other height there is an image for which they are not. |
| `Base64.RoundTrip` | dpi/datauri.c:54-110 | Decoding gives back the bytes, whatever stands between the digits of their encoding (section 4 of RFC 4648). |
| `Base64.LetterIs` | dpi/datauri.c:59-76 | The alphabet of section 4 of RFC 4648. |
| `Base64.GroupIsNumber` | dpi/datauri.c:85-105 | Three bytes and the four digits that encode them are the same number of 24 bits. |
| `Base64.LastGroup` | dpi/datauri.c:85-105 | One or two bytes at the end are filled with zeros, and have two or three digits. |
| `Base64.PaddedLength` | dpi/datauri.c:54-110 | With padding the length is a multiple of four. |
| `Base64.TestVectors` | dpi/datauri.c:54-110 | The test vectors "f", "fo", "foo" and "foobar" of section 10 of RFC 4648. |
| `Base64.EncodeDecode` | dpi/datauri.c:54-110 | The encoding itself is decoded, with or without padding. |
| `Base64.StripChangesNothing` | dpi/datauri.c:270-271 | Removing illegal characters first does not change what is decoded. |
| `Base64.StripIllegalChars` | dpi/datauri.c:40-52 | In place, exactly the legal characters are kept, in order. |
| `Base64.WhenLegal` | dpi/datauri.c:40-52 | Legal are exactly the letters of the alphabet and '='; exactly the former are digits for the decoder. |
| `Base64.Decode` | dpi/datauri.c:54-110 | In place, the write position never passes the read position; the decoded bytes, their number and a terminator are left, and nothing behind is changed. |
| `Base64.GetData` | dpi/datauri.c:268-271 | Stripping and decoding give back the bytes that have been encoded, and their number. |
| `Bookmarks.Bms.Add` | dpi/bookmarks.c:409-419 | The new bookmark has a key that no other one has. |
| `Bookmarks.Bms.SecAdd` | dpi/bookmarks.c:424-432 | The new section has the greatest number; the others are untouched. |
| `Bookmarks.Bms.Del` | dpi/bookmarks.c:437-450 | Exactly the bookmark with the key is gone; the counter is reset with the last one, and keys stay distinct. |
| `Bookmarks.Bms.SecDel` | dpi/bookmarks.c:455-475 | The section and exactly its bookmarks are gone, the others keep their order; every bookmark still is in a section; counters are reset with the last ones. |
| `Bookmarks.Bms.Move` | dpi/bookmarks.c:480-488 | Exactly the bookmark with the key changes its section. |
| `Bookmarks.RenumberStep` | dpi/bookmarks.c:556-564 | As the numbers ascend, no new number is taken for an old one still to come: one step extends the simultaneous substitution. |
| `Bookmarks.Bms.Normalize` | dpi/bookmarks.c:539-565 | The sections get the numbers 0 to n - 1 in order and keep their titles, without any there is one called Unclassified; every bookmark stays in its own section, as if all numbers were replaced at once. |
| `Bookmarks.NewNumber` | dpi/bookmarks.c:539-565 | A bookmark of a section gets the new number of this section. |
| `Crossing.GetTopLevel` | dw/widget.cc:1578-1586 | The ancestor that has no parent. |
| `Crossing.GetLevel` | dw/widget.cc:1593-1604 | The length of the way to the top. |
| `Crossing.GetNearestCommonAncestor` | dw/widget.cc:1629-1657 | The result of climbing in step, or null for different trees. |
| `Crossing.NearestIsCommon` | dw/widget.cc:1629-1657 | It is an ancestor, or the widget itself, of both. |
| `Crossing.NearestIsNearest` | dw/widget.cc:1625-1628 | No common ancestor is below it, and with one it is not null. |
| `Crossing.Layout.BuildTrack` | dw/layout.cc:1180-1205 | The array holds the way from the old widget up to the ancestor and down to the new one, without gaps. |
| `Crossing.Layout.MoveToWidget` | dw/layout.cc:1158-1241 | Afterwards the entered widgets are exactly the new widget and its ancestors; leaves are sent bottom-up, then enters top-down, to exactly the widgets that are left and entered. |
| `Crossing.CrossingLog` | dw/layout.cc:1213-1232 | These notifications send a leave to entered widgets only, and turn the ancestors of the old widget into those of the new one. |

## Left out

- Node pointers in the cookie store and lists are positions and values here; using a freed node is modelled by the result `ok` of `AddCookie`.
- `TrieBuilding.Sorted`: qsort(3) is given by what it promises; the model sorts by insertion.
- `TrieBuilding.TrieBuilder.CreateTrie`: says nothing about answers when bases exceed the 16 bits of `next`, where the source truncates them.
- `Hyphenation.LoadPatterns`: lines longer than the line buffer, which the source cuts, are not modelled.
- `hyphenateWord` and its platform (case folding, glyphs, the split into single words), `Trie::load` and `Trie::save`, and finding the files.
- `FloatOrder.FindFloatIndex`: relies on floats and child blocks of a block never having the same index, as each of them is a word of its own (dw/textblock.cc:2505, 2529).
- `VectorSearch.BSearch`: only the use with start 0 and without the demand that the key exists.
- Changing external indices of floats, marking of size changes, the update of generators, and drawing.
- Sizes, horizontal positions and generator offsets of floats are fixed during a pass and inputs of the model; a height is not negative.
- `hasFloat` and `getFloatHeight`, which only wrap the search for the first float, and the maximum over both sides in `getClearPosition`.
- The bare word at the head of dpip tags, reading that waits for data, the status of a handle, writing, and file descriptors.
- `FindText.FindtextState.Search`: when the iterator does not stand behind an occurrence, after a false hit or at a mark, only what the search answers is told, not in terms of occurrences; the recursive call in the source is written out; scrolling and drawing are left out, of the highlighted region only its start and its end are kept.
- `FindSessions.FindAll`: not the sessions that find a mark, which `FindSessions.WhenMarkIsMet` tells and two examples show.
- `CharIterators.CharIterator.constructor`: words contain no NUL, as they are C strings.
- `DeepIterators.DeepIterator.constructor`: only for an iterator at the START or END of a widget without a parent; for one at a content, the search for content near it and the way up to the root are left out.
- Widgets are values in the model of iterators, with an identity; the tree does not change while it is iterated.
- Cookie dates, the cookie file, parsing of the header, the rules that accept or deny cookies, session cookies, and the text of the header that is sent.
- `CookieMatch.Get`: the clock is a parameter, fixed during an operation.
- `Cookies.CookieStore.AddCookie`: the order that the flat list has after cookies have been removed from it, in which the last element takes the place of the removed one, is not told.
- In images: the mode without averaging, reference counts, drawing, and requests to a scaled buffer, which asks its root.
- `ImageBytes.ScaleBuffer`: sums are unbounded, a pointer that is only read is the sequence of bytes from it on, and gamma tables are arbitrary functions on bytes.
- `Base64.Decode`: bit operations are arithmetic on values without common bits; the parts of the URL before the data, and data that are not in base64, are left out.
- `Bookmarks.Bms.Add`: escaping of URLs and titles, changes of titles, the file and the pages.
- Bookmarks and sections are values in lists that are updated in place; pointers to them are not kept elsewhere.
- Other senders of enter and leave notifications, and moves between different widget trees, for which the source finds no common ancestor.
