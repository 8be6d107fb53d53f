# UCB verification

A Dafny model of the core algorithms of UCB, a base library in C, and of two of
its Python tools, with proofs of what they promise. `dafny verify dfyconfig.toml`
checks the whole project. One module stands for one component:

- **Unicode** (`src/ucb/unicode.c`). `Utf8` states the grammar of RFC 3629,
  sections 3 and 4, and the codec arithmetic; `Utf8Codec` has the validator and the
  encoders; `Buffer` (`src/ucb/buffer.c`) is the growable buffer they write to. `Grapheme` states the
  rules of UAX #29, section 3.1.1, and the incremental automaton; `GraphemeScan`
  the scans over bytes, forward and resumed from the middle. `Ordering`,
  `Decomposition`, `Composition`, `InPlaceComposition`, `NormContext` and
  `Normalization` cover normalization (section 3.11, D108 to D117, and section 3.12
  of the Unicode Standard): the mathematical text, the streaming window, the
  in-place loop and the quick check. `CaseMapping` has case mapping and the lazy
  fold comparison.
- **Paths** (`src/ucb/path.c`, `src/ucb/fs.c`), POSIX build with separator `/`:
  `PathText` (anchors, segments), `PathModel` (parse and compose), `PathNormal`
  (lexical normalization), `PathObject` (the path operations), `FsCanon`
  (canonicalization, containment, root test).
- **Memory debugging** (`src/ucb/memdbg.c`): `FreeLog` is the bounded log of freed
  pointers over a pool threaded through buckets, an age list and a slot list;
  `RecencyList` is the list it stands for and what that list promises over whole
  runs; `Tracker` is the allocation tracker with its lists of live blocks.
- **Smaller cores**: `ArgParse` and `TextWrap` (`src/ucb/argparse.c`),
  `CommandLine` (`src/ucb/process_win32.c`), `LookupTables`
  (`tools/ucparser/parser.py`), `Conditionals`
  (`tools/py_c_preprocessor/preprocessor.py`).

Methods with loops and fields follow the C and Python code and are proved against
functions; the lemmas prove the promises about those functions.

## Assumptions

The generated Unicode tables are parameters with these properties, which the
generator (`tools/ucparser/parser.py`) establishes or the Unicode data has:
decomposition is well founded and never yields a Hangul syllable; jamo and
syllables do not decompose in the table and have combining class 0; a combiner
entry (s, c) to p exists only if the canonical decomposition of p is exactly
[s, c], the class of s is 0 and the class of p is 0; entries are strictly sorted;
Extended_Pictographic implies Grapheme_Cluster_Break=Other; mapped values are
scalars, and a multiple mapping has 1 to M entries with M at least 3. The class of
p is needed: a composite with another class would be reordered when its text is
normalized again. `Composition.SampleIsValid` shows that the properties can be met.

A byte buffer's allocator has every block up to some size below SIZE_MAX and refuses
larger ones; every other allocation succeeds, except that the pool of the free log may
be missing.

The argument rules behind the command line are Microsoft's "Parsing C command-line
arguments".

## Where a promise fails

Each of these is code behaviour kept as it is, with a concrete input and the exact
condition under which the promise holds.

- Re-spelling a path by parse and compose keeps its anchor, except behind three or
  more leading separators with a directory name after them: `///a/b` becomes
  `//a/b` (`PathModel.ParseThenCompose`, `PathModel.TripleRootChangesAnchor`).
- `ucb_str_comp` returns a size difference cut to an `int`: strings whose sizes
  differ by 2^32 compare equal if one is a prefix of the other
  (`CaseMapping.StrCompSign`, `CaseMapping.StrCompTruncates`).
- A command line is read back exactly, for all arguments, if and only if the
  program name survives the runtime's simpler rules for argv[0], which know no
  backslash escapes (`CommandLine.RoundTripIff`; input:
  `CommandLine.QuoteInProgramName`).
- Splitting a bundle of short options keeps its meaning if no name that the scan gets
  to is a digit, `.` or `-`, and where positionals are collected only then
  (`ArgParse.SplitMeans`, `ArgParse.SplitExact`; input: `ArgParse.DigitsStayBundled`).
- An `#else` or `#elif` outside all conditional groups is accepted. The file stays on
  exactly if there is none, and behind the first one nothing is emitted
  (`Conditionals.FileStaysOn`, `Conditionals.StrayElseHides`).
- The containment test `fs_is_within` agrees with "same anchor and prefix of
  segments" except in exactly three cases: nothing counts as inside the empty text,
  which the only caller rejects before; everything behind `//` counts as inside `/`;
  and a backslash ends a segment although it does not separate
  (`FsCanon.WithinIsPrefix`; inputs: `FsCanon.WithinExceptions`).
- A canonical text may still have a `..` component for the test that also splits at
  backslashes: exactly if a leading `..` remains or a segment with a backslash has
  one. Without backslashes an absolute result has none (`FsCanon.CanonKeepsParents`,
  `FsCanon.AbsoluteCanonIsClean`; input: `FsCanon.BackslashParentStays`).
- Resuming segmentation away from a boundary forgets a pictograph exactly if one ends
  there, with its extenders, and an Extend or ZWJ follows
  (`Grapheme.ResumedNeedsBoundary`; input: `Grapheme.ResumedForgetsPictograph`).

Code and comment disagree in one place, and the model follows the code: the
comment at `src/ucb/fs.c:181-183` says that canonicalization leaves `..` untouched,
while `ucb_fs_canon` resolves it. `ucb_uc_encode_codepoints` is documented as
all-or-nothing with unspecified buffer content after a failure; the model states
what the code leaves there, the old content and possibly encoded chunks behind it.

## Model

| member | source | states |
|---|---|---|
| `Utf8.Encode` | src/ucb/unicode.c:333-402 | every scalar becomes one UTF-8 character of the RFC 3629 grammar, one to four bytes |
| `Utf8.CharDecodes` | src/ucb/unicode.c:117-169 | a byte string that is one character of the grammar decodes, by its lead byte and the fetch arithmetic, to a scalar whose encoding is that string |
| `Utf8.FetchEncode` | src/ucb/unicode.c:144-169 | decoding an encoded scalar in front of any other bytes gives the scalar back and stops at its end |
| `Utf8.DecodeAll` | src/ucb/unicode.c:144-191 | decoding a well-formed string and encoding the result gives the string back |
| `Utf8.DecodeEncode` | src/ucb/unicode.c:333-402 | encoding any scalar sequence gives a well-formed string that decodes to the sequence |
| `Utf8.WellFormedIffEncoding` | src/ucb/unicode.c:203-327 | the strings of the grammar are exactly the encodings of scalar sequences |
| `Utf8.CharPrefixUnique` | src/ucb/unicode.c:203-327 | no character is a proper prefix of another, so the cut into characters is unique |
| `Utf8.EncodeAllOrder` | src/ucb/unicode.c:1580-1613 | byte order of encodings is code point order, for all scalar sequences |
| `Utf8Codec.StepLenIsGrammar` | src/ucb/unicode.c:203-327 | the byte tests of the validator find a character of length k exactly where the grammar has one |
| `Utf8Codec.StopsMeansIllFormed` | src/ucb/unicode.c:203-327 | a string is ill-formed if behind some well-formed prefix no character starts |
| `Utf8Codec.Validate` | src/ucb/unicode.c:203-327 | accepts exactly the well-formed strings; otherwise reports the position where the first ill-formed character starts and whether it was cut off or malformed |
| `Utf8Codec.EncodeCodepoint` | src/ucb/unicode.c:333-402 | writes the encoding of a scalar behind what is there, touches no other byte, and refuses surrogates and values above 0x10FFFF |
| `Utf8Codec.EncodeCodepoints` | src/ucb/unicode.c:404-438 | through a scratch of 5*M bytes that it never overruns, appends exactly the plain concatenation of the encodings, ending with the capacity of one push; succeeds exactly if every value is a scalar and the allocator has that capacity, and otherwise leaves what was in the buffer in front |
| `Utf8Codec.NextValid` | src/ucb/unicode.c:144-169 | yields the next code point and moves to the rest of the text |
| `Utf8Codec.NumCodepoints` | src/ucb/unicode.c:444-461 | counting lead bytes counts the decoded code points |
| `Buffer.GrowDouble` | include/ucb/buffer.h:398-415 | the new capacity holds the request unless no size_t does, at least doubles, and is at most twice what was asked |
| `Buffer.CapacityInSteps` | include/ucb/buffer.h:398-415 | growing in two steps ends with the capacity of growing at once |
| `Buffer.ByteBuffer.Resize` | src/ucb/buffer.c:179-192 | keeps the contents, cut to the new capacity; a capacity that the allocator does not have is refused and changes nothing |
| `Buffer.ByteBuffer.Grow` | src/ucb/buffer.c:194-206 | keeps the contents and makes room; refuses exactly a capacity that no size_t or no block holds |
| `Buffer.ByteBuffer.Ensure` | src/ucb/buffer.c:208-215 | success means that the spare room holds the request, with either policy; a refusal changes nothing |
| `Buffer.ByteBuffer.Push` | src/ucb/buffer.c:230-246 | appends, or changes nothing, exactly if the allocator lacks the capacity it asks for; with the doubling policy the capacity stays within the initial one or twice the peak size, and all reallocations together move no more than the final capacity |
| `Buffer.ByteBuffer.Pop` | src/ucb/buffer.c:295-306 | undoes a push of as many bytes, or refuses and changes nothing |
| `Buffer.ByteBuffer.Truncate` | src/ucb/buffer.c:327-333 | keeps a prefix, or refuses a size beyond the contents |
| `Buffer.ByteBuffer.Clear` | src/ucb/buffer.c:308-312 | empties the buffer and keeps its capacity bound |
| `Grapheme.RegionalParity` | src/ucb/unicode.c:476-513 | ri_odd tells whether an odd run of regional indicators ends here (GB12, GB13 of UAX #29) |
| `Grapheme.ConjunctState` | src/ucb/unicode.c:476-513 | the InCB bits tell whether a consonant, extenders and linkers end here (GB9c) |
| `Grapheme.EmojiState` | src/ucb/unicode.c:476-513 | gb11 tells whether a pictograph, extenders and optionally a ZWJ end here (GB11) |
| `Grapheme.AutomatonIsRules` | src/ucb/unicode.c:517-562 | for every property sequence the incremental automaton breaks exactly where the look-behind rules GB3 to GB999 say so |
| `Grapheme.ResumedCatchesUp` | src/ucb/unicode.c:585-667 | resuming at a boundary from the partly rebuilt state (gb11 only 0 or 3) reaches the full forward state after one code point |
| `Grapheme.ResumedNeedsBoundary` | src/ucb/unicode.c:585-667 | resuming catches up exactly unless a pictograph with its extenders ends here and an Extend or ZWJ follows, which no boundary allows |
| `Grapheme.ResumedForgetsPictograph` | src/ucb/unicode.c:585-667 | the concrete case: resumed between a pictograph and its ZWJ, the state has lost the pictograph |
| `Grapheme.BoundariesSound` | src/ucb/unicode.c:517-562 | the boundary list used below is strictly increasing and holds exactly the boundaries of the rules |
| `GraphemeScan.PropAt` | src/ucb/unicode.c:575-582 | decodes the code point at a position, looks its properties up and finds its end |
| `GraphemeScan.PrevStart` | src/ucb/unicode.c:565-571 | backing over continuation bytes finds the start of the previous code point |
| `GraphemeScan.Scanner.Update` | src/ucb/unicode.c:476-513 | the in-place update of the four state fields is the transition function |
| `GraphemeScan.CharEndsAreBoundaries` | src/ucb/unicode.c:706-747 | the byte positions of character ends are those of the rule boundaries, then the end of the text |
| `GraphemeScan.NumChar` | src/ucb/unicode.c:706-747 | the single forward pass counts the characters |
| `GraphemeScan.CharIndex` | src/ucb/unicode.c:764-816 | returns the end of the k-th character counting from 1; the length for k = 0 and past the end |
| `GraphemeScan.StateBefore` | src/ucb/unicode.c:585-667 | the backward scan rebuilds the state the resumed scan needs at any code point |
| `GraphemeScan.NextFrom` | src/ucb/unicode.c:671-704 | from a boundary with the rebuilt state finds the next boundary |
| `GraphemeScan.NextChar` | src/ucb/unicode.c:749-762 | from a boundary returns the next one, or nothing at the last character and beyond the text |
| `GraphemeScan.VisitAll` | src/ucb/unicode.c:749-762 | iterating from 0 visits exactly the boundaries of the single forward pass |
| `GraphemeScan.MapCharPos` | src/ucb/string.c:58-85 | maps a character index to the byte position of that boundary, and tells an index past the end |
| `Ordering.BubbleEquivalent` | src/ucb/unicode.c:1109-1134 | moving a new mark left past higher classes keeps canonical equivalence (D108) |
| `Ordering.BubbleOrdered` | src/ucb/unicode.c:1109-1134 | and keeps the text in canonical order (D109) |
| `Ordering.UniqueOrdered` | src/ucb/unicode.c:1109-1134 | two canonically equivalent ordered texts are equal |
| `Ordering.ReorderSpec` | src/ucb/unicode.c:1109-1134 | the reordered text is the one ordered text equivalent to the input: per class the marks of each run keep their order |
| `Ordering.EquivalentIffReorder` | src/ucb/unicode.c:1109-1134 | texts are equivalent up to reordering exactly if they reorder to the same text |
| `Ordering.ReorderFixesOrdered` | src/ucb/unicode.c:1109-1134 | reordering changes nothing exactly on ordered texts |
| `Ordering.BubbleAllPermutes` | src/ucb/unicode.c:1109-1134 | reordering permutes: no code point is lost or added |
| `Decomposition.HangulParts` | src/ucb/unicode.c:1177-1192 | a syllable splits into L V or L V T jamo |
| `Decomposition.FullDecompAtoms` | src/ucb/unicode.c:1202-1232 | the recursion ends, and nothing in its result decomposes further |
| `Decomposition.FullDecompMeans` | src/ucb/unicode.c:1160-1232 | a code point whose mapping is canonical, or any mapped one in compatibility mode, decomposes to the decompositions of all values of its mapping; a syllable to the jamo its number says; any other to itself |
| `Decomposition.DecompAllFixesAtoms` | src/ucb/unicode.c:1202-1232 | a text is fully decomposed exactly if decomposing changes nothing |
| `Composition.ComposeHangul` | src/ucb/unicode.c:1194-1200 | inverse of the Hangul decomposition: the composed syllable splits into the same jamo |
| `Composition.FindComposite` | src/ucb/unicode.c:1234-1261 | the binary search over strictly sorted entries returns the composite of the pair, 0 exactly if there is none |
| `Composition.PairDecomposes` | tools/ucparser/parser.py:514-556 | decomposing the composite of a pair gives the decomposition of the first followed by the second |
| `Composition.StepPreserves` | src/ucb/unicode.c:1263-1318 | one step of the Canonical Composition Algorithm (D117) keeps canonical equivalence, also past skipped lower marks |
| `Composition.ComposePreserves` | src/ucb/unicode.c:1263-1318 | for every fully decomposed ordered text, decomposing and reordering its composition gives the text back |
| `Composition.SampleComposes` | src/ucb/unicode.c:1263-1318 | a skipped mark in practice: A, ring below, ring above composes over the ring below |
| `Composition.PairMeans` | src/ucb/unicode.c:1234-1287 | the composite of two jamo by arithmetic, of any other pair by its table entry, and none without one |
| `Composition.StepJoins` | src/ucb/unicode.c:1289-1307 | a character that reaches over marks of lower classes to a starter it has a composite with replaces the starter by the composite (D115, D117) |
| `Composition.StepKeeps` | src/ucb/unicode.c:1309-1314 | any other character stays |
| `Composition.JamoCompose` | src/ucb/unicode.c:1274-1287 | L V and L V T become the syllable, behind any text the first does not compose with |
| `Composition.NothingComposes` | src/ucb/unicode.c:1263-1318 | a text without any composable pair is left as it is |
| `InPlaceComposition.Splice` | src/ucb/unicode.c:1280-1304 | overwriting the starter and moving the tail down leaves the expected prefix and rest |
| `InPlaceComposition.HangulStep` | src/ucb/unicode.c:1274-1287 | joining L V or L V T in place is one or two steps of the algorithm |
| `InPlaceComposition.SeekBack` | src/ucb/unicode.c:1289-1315 | the backward search ends at the starter the algorithm would use, or proves that the mark is blocked |
| `InPlaceComposition.FoundStep` | src/ucb/unicode.c:1292-1307 | replacing the starter in place is the step of the algorithm |
| `InPlaceComposition.StuckStep` | src/ucb/unicode.c:1309-1314 | moving on is the step of the algorithm for a blocked or uncombinable character |
| `InPlaceComposition.NormCompose` | src/ucb/unicode.c:1263-1318 | the in-place loop ends and leaves exactly the result of the left-to-right Canonical Composition Algorithm |
| `NormContext.BubbleStopsAt` | src/ucb/unicode.c:1118-1132 | the insertion point of the backward loop is the place the mark sinks to |
| `NormContext.BubbleStaysInWindow` | src/ucb/unicode.c:1109-1158 | reordering never reaches into what was already flushed |
| `NormContext.Settle` | src/ucb/unicode.c:1109-1134 | the swap loop on the two arrays sinks the mark and its class together |
| `NormContext.OneSegmentMeans` | src/ucb/unicode.c:1109-1158 | the shape of the window between two code points: at most one starter, in front, and the marks behind it in ascending class |
| `NormContext.BubbleKeepsSegment` | src/ucb/unicode.c:1109-1134 | adding a mark keeps that shape |
| `NormContext.NormCtx.Grow` | src/ucb/unicode.c:1072-1107 | growing the window preserves its content |
| `NormContext.NormCtx.Add` | src/ucb/unicode.c:1109-1134 | adds to the window in canonical order and flushes nothing |
| `NormContext.NormCtx.Flush` | src/ucb/unicode.c:1136-1158 | hands the whole window out, in order, and empties it |
| `NormContext.NormCtx.DecomposeHangul` | src/ucb/unicode.c:1177-1192 | window and output together become the reordered text with the jamo added; the window ends with a starter, so that the flush that follows restores its shape |
| `NormContext.NormCtx.DecomposeCp` | src/ucb/unicode.c:1202-1232 | window and output together become the reordered text with the full decomposition added, and the window keeps its shape |
| `Normalization.Stream` | src/ucb/unicode.c:1320-1364 | the concatenation of all flushed windows is the whole-string reordering of the full decomposition |
| `Normalization.NormalizeFull` | src/ucb/unicode.c:1320-1364 | the full algorithm returns the encoded normal form |
| `Normalization.CheckOne` | src/ucb/unicode.c:1393-1432 | one turn of the quick check refuses a decomposable code point and a mark below the class before it |
| `Normalization.IsNormalized` | src/ucb/unicode.c:1383-1437 | the quick check accepts exactly the texts whose every code point passes |
| `Normalization.QuickCheckExact` | src/ucb/unicode.c:1383-1437 | for NFD and NFKD the quick check accepts exactly the texts equal to their normal form, in particular every output |
| `Normalization.Normalize` | src/ucb/unicode.c:1439-1511 | for NFD and NFKD, and wherever the quick check refuses, the result is the encoded normal form; an accepted text is returned as it is |
| `Normalization.Idempotent` | src/ucb/unicode.c:1439-1523 | all four forms are idempotent |
| `Normalization.FormsByName` | src/ucb/unicode.c:1439-1511 | NFD and NFC decompose canonically, NFKD and NFKC by every mapping; all reorder, NFC and NFKC then compose |
| `Normalization.QuickByName` | src/ucb/unicode.c:1409-1425 | NFC and NFKC accept what has no code point of the exclusion table, none that may compose, no vowel or trailing jamo, and marks in order |
| `Normalization.FormIsEquivalent` | src/ucb/unicode.c:1439-1523 | the normal form is equivalent to the text |
| `Normalization.FormsDecideEquivalence` | src/ucb/unicode.c:1439-1523 | two texts have the same normal form exactly if they are equivalent (canonically or compatibly) |
| `Normalization.DecomposeComposed` | src/ucb/unicode.c:1439-1511 | composing and then decomposing gives the decomposed form back |
| `Normalization.NormalIffFixed` | src/ucb/unicode.c:1383-1437 | fully decomposed and ordered is the same as being fixed by the full algorithm |
| `CaseMapping.CaseMap` | src/ucb/unicode.c:865-1010 | maps every code point to its simple, multiple or own mapping; title case starts words behind separators |
| `CaseMapping.UpperMaps` | src/ucb/unicode.c:865-945 | in the upper case text every code point stands as its upper case column says, by one value or several; U+0000, a code point without mapping and one with an empty column stand as they are |
| `CaseMapping.LowerMaps` | src/ucb/unicode.c:865-945 | the same for lower case and its column |
| `CaseMapping.FoldMaps` | src/ucb/unicode.c:865-945 | the same for folding and its column |
| `CaseMapping.TitleMaps` | src/ucb/unicode.c:865-945 | title case takes the title column exactly where a word starts, at the beginning or behind a separator (U+0000 does not count), and the lower case column elsewhere |
| `CaseMapping.OnlyTitleRemembers` | src/ucb/unicode.c:865-945 | every mapping but title case is independent of what came before |
| `CaseMapping.FoldIter.MoveNext` | src/ucb/unicode.c:1552-1578 | the lazy iterator yields the folded text one code point at a time and stops at its end |
| `CaseMapping.IComp` | src/ucb/unicode.c:1580-1613 | the lazy comparison is the lexicographic comparison of the folded texts |
| `CaseMapping.ICompIsPreorder` | src/ucb/unicode.c:1580-1613 | it is a total preorder whose ties are exactly equal foldings |
| `Utf8.CompareMeans` | src/ucb/unicode.c:1580-1613 | the three-way result says which text comes first: at the first difference, or by ending there |
| `CaseMapping.StrCompSign` | src/ucb/string.c:496-503 | the sign is that of byte order exactly if neither string is a prefix of the other or the truncated size difference keeps its sign |
| `CaseMapping.StrCompTruncates` | src/ucb/string.c:496-503 | two different strings compare equal: sizes that differ by 2^32 |
| `CaseMapping.LazyAgreesWithBytes` | src/ucb/unicode.c:1580-1613 | the lazy comparison agrees with comparing folded bytes under exactly that condition on the folded sizes |
| `PathText.SegmentsOfJoin` | src/ucb/path.c:239-294 | splitting joined segments gives them back, whatever follows behind a separator |
| `PathText.ReadRooted` | src/ucb/path.c:102-157 | anchor and segments can be read back from a canonical text |
| `PathText.CanonicalIdempotent` | src/ucb/path.c:239-294 | collapsing separators twice is collapsing them once |
| `PathModel.BuildDir` | src/ucb/path.c:239-294 | copies the anchor, collapses separators and drops trailing ones; for three or more leading separators in front of a name the result has two |
| `PathModel.SplitName` | src/ucb/path.c:299-336 | cuts the file name at the last dot that is not in front; stem and extension together are the name |
| `PathModel.ParseWellFormed` | src/ucb/path.c:341-389 | parsing gives a collapsed directory and one name without separators |
| `PathModel.ComposeIsRender` | src/ucb/path.c:433-468 | composing writes anchor, segments and name with single separators |
| `PathModel.PartsDetermineText` | src/ucb/path.c:433-468 | paths have the same parts exactly if they have the same text |
| `PathModel.ParseThenCompose` | src/ucb/path.c:341-468 | parsing and composing collapses separators and keeps the anchor exactly if the path does not start with three separators in front of a directory name |
| `PathModel.TripleRootChangesAnchor` | src/ucb/path.c:239-294 | the failing case: any parse of ///a/b comes out as //a/b, while its canonical text is /a/b |
| `PathNormal.NormalizeLexical` | src/ucb/path.c:518-624 | the truncating buffer with its stack of offsets computes the fold over segments: `.` dropped, `..` pops, never past the anchor, kept when leading and relative, `.` when empty; the stack stays in bounds |
| `PathNormal.PushAllResolved` | src/ucb/path.c:518-624 | every step of the fold keeps: no `.`, and `..` only in a leading block of a relative path |
| `PathNormal.NormalShape` | src/ucb/path.c:518-624 | the result keeps the anchor, has exactly the resolved segments and is collapsed |
| `PathNormal.NormalIdempotent` | src/ucb/path.c:518-624 | normalizing twice is normalizing once |
| `PathNormal.ParentCancels` | src/ucb/path.c:518-624 | `..` removes the ordinary segment before it, behind any anchor and among any other segments |
| `PathNormal.DotVanishes` | src/ucb/path.c:518-624 | `.` is dropped anywhere |
| `PathNormal.ParentOfRootVanishes` | src/ucb/path.c:518-624 | `..` directly behind an anchor is dropped |
| `PathNormal.ResolvedStays` | src/ucb/path.c:518-624 | what none of the three can change stays |
| `PathNormal.NormalByResolved` | src/ucb/path.c:518-624 | the normal form depends on anchor and resolved segments only, the empty text aside |
| `PathNormal.NormalCancels` | src/ucb/path.c:518-624 | so the normal form of a/g/../b is that of a/b, and `.` if nothing is left |
| `PathObject.Path.constructor` | src/ucb/path.c:341-389 | parsing a text gives directory, stem and extension |
| `PathObject.Path.ToStr` | src/ucb/path.c:433-468 | the text of a path is the rendering of its parts: anchor, segments and name with single separators |
| `PathObject.Path.Append` | src/ucb/path.c:971-1023 | appending an absolute path replaces; appending a relative one, even to itself, concatenates the parts |
| `PathObject.JoinedParts` | src/ucb/path.c:971-1023 | parts of the join of a relative path are the parts of both in order |
| `PathObject.Path.Normalize` | src/ucb/path.c:1070-1088 | the text becomes the normal form, through compose and re-parse |
| `PathObject.Path.Equals` | src/ucb/path.c:1090-1103 | two paths compare equal exactly if they have the same parts, however directory, stem and extension divide them |
| `PathObject.Path.InsideOne` | src/ucb/path.c:1139-1157 | decides whether the parts of the outer path are a non-empty proper prefix |
| `PathObject.JoinIsInside` | src/ucb/path.c:1139-1157 | the join of a path and a relative one is inside the first exactly if both have parts |
| `PathObject.Path.NumParts` | src/ucb/path.c:1170-1199 | counts the parts |
| `PathObject.Path.Part` | src/ucb/path.c:1201-1263 | returns the i-th part: anchor, directory segment or name; nothing beyond the last |
| `PathObject.Path.Parent` | src/ucb/path.c:1287-1347 | the parent has all parts but the last |
| `PathObject.ParentIsShorter` | src/ucb/path.c:1287-1347 | the parent has a shorter text unless it has the same parts, so that comparing texts, as the loop over parents does, tells when to stop |
| `PathObject.Path.Parents` | src/ucb/path.c:1349-1396 | returns the ancestors, nearest first |
| `PathObject.AncestorsAt` | src/ucb/path.c:1349-1396 | there are num_parts-1 of them, the i-th composing the first num_parts-1-i parts |
| `PathObject.ParseCanonical` | src/ucb/path.c:341-389 | a collapsed text composes to itself |
| `FsCanon.HasParentComponent` | src/ucb/fs.c:185-201 | finds out whether some component between slashes or backslashes is `..` |
| `FsCanon.FsCanonical` | src/ucb/fs.c:41-67 | re-spells the path, and normalizes it exactly if a `..` component occurs |
| `FsCanon.CanonByCase` | src/ucb/fs.c:41-67 | a text with single separators stays as it is, `.` included, unless a component is `..`; then it becomes its normal form |
| `FsCanon.CanonIdempotent` | src/ucb/fs.c:41-67 | canonicalizing twice is canonicalizing once |
| `FsCanon.CanonResolvesParents` | src/ucb/fs.c:41-67 | split at slashes, an absolute result has no `..`; a relative one only a leading block |
| `FsCanon.CanonKeepsParents` | src/ucb/fs.c:41-67 | split at backslashes too, the result has a `..` component exactly if a segment that resolving leaves has one |
| `FsCanon.AbsoluteCanonIsClean` | src/ucb/fs.c:41-67 | the canonical text of an absolute path without backslashes has no `..` component |
| `FsCanon.BackslashParentStays` | src/ucb/fs.c:41-67 | with one it may: every /a\.. is canonical as it is |
| `FsCanon.PrefixIsWithin` | src/ucb/fs.c:223-237 | the text test holds whenever the segments of the parent are a prefix |
| `FsCanon.WithinIsPrefix` | src/ucb/fs.c:223-237 | for all anchors and segments: the text test agrees with same anchor and prefix of segments exactly unless the parent is empty and the child relative, the child has anchor // and the parent is /, or the two have one anchor and the parent ends in the middle of a segment at a backslash |
| `FsCanon.WithinExceptions` | src/ucb/fs.c:223-237 | all three exceptions are real: nothing counts as inside the empty text, everything behind // counts as inside /, and a\b counts as inside a |
| `FsCanon.IsRoot` | src/ucb/fs.c:124-169 | accepts the non-empty texts of separators only |
| `FsCanon.RootHasNoSegments` | src/ucb/fs.c:124-169 | on canonical texts that is: absolute and without a segment |
| `CommandLine.ArgNeedsQuotes` | src/ucb/process_win32.c:51-62 | quotes are needed for the empty argument and for blanks and quotes |
| `CommandLine.PlainArgument` | src/ucb/process_win32.c:51-117 | any other argument stands as it is |
| `CommandLine.AppendEscaped` | src/ucb/process_win32.c:90-115 | doubles backslashes exactly in front of quotes and of the closing quote |
| `CommandLine.BuildCommandLine` | src/ucb/process_win32.c:71-123 | the command line is the quoted arguments separated by blanks |
| `CommandLine.ReadOne` | src/ucb/process_win32.c:85-117 | the argument parser of the Microsoft C runtime reads one quoted argument back and stops behind it |
| `CommandLine.ReadAll` | src/ucb/process_win32.c:71-123 | reads any list of arguments back, whatever blanks, quotes and backslash runs they hold |
| `CommandLine.RoundTrip` | src/ucb/process_win32.c:71-123 | the new process sees exactly argv[1..] |
| `CommandLine.RoundTripIff` | src/ucb/process_win32.c:71-123 | for all arguments exactly if the program name survives the simpler rules for argv[0], a check on the name alone |
| `CommandLine.QuoteInProgramName` | src/ucb/process_win32.c:71-123 | two names that fail: one invents an argument, one swallows the argument passed |
| `LookupTables.AddBlock` | tools/ucparser/parser.py:706-717 | reuses the number of an equal block or appends it under the next number; blocks stored before stay where they are |
| `LookupTables.CreateLookupTables` | tools/ucparser/parser.py:695-743 | for every domain size, block size and property map, the two-stage lookup agrees with the map and stays in bounds; equal blocks share a number; the table is no longer than the domain |
| `LookupTables.Found` | src/ucb/unicode.c:55-62 | the lookup the C code performs finds the index of any covered code point, also in a short last block, and reads neither table out of bounds |
| `RecencyList.HistoryIsLastFree` | src/ucb/memdbg.c:207-270 | the unbounded history holds a record exactly if it is the last free of its pointer with no reuse or reset since |
| `RecencyList.RunOnePerPointer` | src/ucb/memdbg.c:207-270 | after any run the log has at most one record per pointer and at most its capacity |
| `RecencyList.RunIsPrefix` | src/ucb/memdbg.c:207-270 | after any run the bounded log is the newest part of the full history |
| `RecencyList.FoundIsLastFree` | src/ucb/memdbg.c:142-153 | a record that is found is never stale |
| `RecencyList.FittingRunIsHistory` | src/ucb/memdbg.c:207-270 | as long as the history fits, nothing is forgotten |
| `RecencyList.InsertMembers` | src/ucb/memdbg.c:207-270 | an insertion keeps nothing but the new record and records of other pointers, and unless the log has no room at all the new record is in it, so that an immediate second free is found |
| `FreeLog.UnlinkHash` | src/ucb/memdbg.c:160-169 | walking the links of a bucket and redirecting one takes the node out of its chain and out of no other |
| `FreeLog.UnlinkAge` | src/ucb/memdbg.c:171-178 | the four link assignments take the node out of the doubly linked age list |
| `FreeLog.SlotsPartition` | src/ucb/memdbg.c:103-108 | age list and spare slots partition the pool; every logged slot is in exactly one bucket |
| `FreeLog.Table.constructor` | src/ucb/memdbg.c:477-488 | an empty log over a zeroed pool, or without one |
| `FreeLog.Table.Find` | src/ucb/memdbg.c:142-153 | finds a record exactly for the pointers in the log |
| `FreeLog.Table.Detach` | src/ucb/memdbg.c:156-187 | takes one record out of bucket and age list; all lists stay intact |
| `FreeLog.Table.ReturnSlot` | src/ucb/memdbg.c:190-194 | the detached slot becomes spare |
| `FreeLog.Table.Remove` | src/ucb/memdbg.c:196-204 | deletes the pointer from the log |
| `FreeLog.Table.Insert` | src/ucb/memdbg.c:207-270 | deletes the pointer, puts the record in front and drops the oldest beyond capacity |
| `FreeLog.Table.Clear` | src/ucb/memdbg.c:273-293 | empties the log and rebuilds the slot list |
| `Tracker.LinkBlock` | src/ucb/memdbg.c:766-775 | a new header becomes the first of its level; of all other headers only the link of the old first changes, size, call site and magic never |
| `Tracker.UnlinkLive` | src/ucb/memdbg.c:794-819 | unregistering a block of any level keeps every level list, what is known of every other block and the counters modulo 2^64 |
| `Tracker.MoveUp` | src/ucb/memdbg.c:651-666 | moving the blocks of a level keeps every one, relabelled and in front of the list above |
| `Tracker.AbsorbedCounted` | src/ucb/memdbg.c:669-671 | merging the counters of a level keeps the totals modulo 2^64 |
| `Tracker.CountedWithout` | src/ucb/memdbg.c:794-804 | taking a block off the current level keeps the totals modulo 2^64, whichever level the block is in |
| `Tracker.SingleLevelIsExact` | src/ucb/memdbg.c:777-804 | a tracker with one level has the live count and bytes modulo 2^64 in its counters |
| `Tracker.AllocTracker.constructor` | src/ucb/memdbg.c:467-506 | tracking starts with one empty level and an empty log |
| `Tracker.AllocTracker.Register` | src/ucb/memdbg.c:754-792 | the block becomes live with its size, call site and level, all others as before, and its pointer leaves the log |
| `Tracker.AllocTracker.Malloc` | src/ucb/memdbg.c:858-867 | a block of positive size becomes live with that size and call site; for size 0 the result is NULL and nothing is tracked |
| `Tracker.AllocTracker.Calloc` | src/ucb/memdbg.c:869-878 | the tracked size is the product modulo 2^64; for a factor 0 the result is NULL and nothing is tracked |
| `Tracker.AllocTracker.Free` | src/ucb/memdbg.c:977-1050 | a live pointer is unregistered and logged with the size and call site of its allocation, a logged one is reported as a double free with its record, any other is invalid; only the first changes anything |
| `Tracker.MallocThenFree` | src/ucb/memdbg.c:858-1050 | freeing what was just allocated never fails: a block is released and logged with its size and both call sites, the NULL for size 0 is ignored, and the live blocks are as before |
| `Tracker.StaysAllocated` | src/ucb/memdbg.c:651-819 | in any run of allocations, frees of other pointers, pushes and pops, a live block stays live with the size and call site of its allocation |
| `Tracker.PerformAll` | src/ucb/memdbg.c:589-1050 | any run of operations leaves the live blocks and levels that the run says |
| `Tracker.MallocRunFree` | src/ucb/memdbg.c:858-1050 | a block allocated at A and freed after any such run is released and logged, newest, with its size and A |
| `Tracker.AllocTracker.IsAlloc` | src/ucb/memdbg.c:550-582 | holds exactly for live pointers, with their size |
| `Tracker.AllocTracker.Push` | src/ucb/memdbg.c:589-617 | opens a level unless the limit is reached; live blocks and log stay |
| `Tracker.AllocTracker.Pop` | src/ucb/memdbg.c:619-688 | closes a level except the first; its live blocks join the level above with size and call site, the log stays |
| `ArgParse.SeekShort` | src/ucb/argparse.c:573-582 | finds the first option with the short name |
| `ArgParse.SeekLong` | src/ucb/argparse.c:584-595 | finds the first option with the long name, never for the empty name |
| `ArgParse.ArgParser.InitDefaults` | src/ucb/argparse.c:851-855 | writes every default in order and stops at the first bad one |
| `ArgParse.ArgParser.ApplyOption` | src/ucb/argparse.c:764-808 | checks choices, converts and stores, appends, sets or counts, and marks the option as seen unless it failed |
| `ArgParse.ArgParser.ParseLong` | src/ucb/argparse.c:869-920 | one long option with its value behind `=` or in the next argument |
| `ArgParse.ArgParser.ParseShort` | src/ucb/argparse.c:922-966 | a bundle of short options up to one that takes a value |
| `ArgParse.ArgParser.Run` | src/ucb/argparse.c:841-983 | the whole parse: defaults, scan, required options |
| `ArgParse.ScanWrites` | src/ucb/argparse.c:858-970 | a successful scan applies exactly the options the arguments name, in order |
| `ArgParse.ParsedDestination` | src/ucb/argparse.c:841-983 | after a successful parse a destination with one owner holds: for a counter its default plus the number of occurrences, for a list the values in order, for a stored value the reading of the last one or the default, for a flag true or false once named; an option is seen exactly if it is named, and values come from its choices |
| `ArgParse.BoolWords` | src/ucb/argparse.c:210-225 | true, 1, yes, on and false, 0, no, off in any case are the boolean words, and no others |
| `ArgParse.ConvertReads` | src/ucb/argparse.c:227-300 | a text is stored as itself, as the boolean its word names, or as the number the conversion gives; otherwise it is refused |
| `ArgParse.DefaultsStay` | src/ucb/argparse.c:385-437 | before the scan the owner of a destination has its default: as declared, or false, true, 0, the empty text or the empty list by action and type |
| `ArgParse.ScanBlames` | src/ucb/argparse.c:858-970 | a scan that stops early has a true cause: a help or version option, a name no option has, a value not among the choices, a text no value reads, and so on |
| `ArgParse.PositionalToken` | src/ucb/argparse.c:810-856 | a token without a dash, a lone dash, and a dash with a digit or a point behind it are positionals |
| `ArgParse.SplitMeans` | src/ucb/argparse.c:922-966 | a bundle -abVALUE scans like -a -b VALUE if none of the names the scan gets to is a digit, `.` or `-`; the scan stops at an unknown option, one that takes a value, help and version |
| `ArgParse.SplitExact` | src/ucb/argparse.c:922-966 | with positionals collected, that condition is exact: if it fails, some scan tells the bundle and its pieces apart |
| `ArgParse.LongSplit` | src/ucb/argparse.c:869-904 | --name=VALUE scans like --name VALUE |
| `ArgParse.DesugarMeans` | src/ucb/argparse.c:858-970 | rewriting all options along the scan keeps status, destinations, seen flags and positionals |
| `ArgParse.DesugaredParse` | src/ucb/argparse.c:841-983 | and so does the whole parse |
| `ArgParse.DigitsStayBundled` | src/ucb/argparse.c:818-825 | why: for every digit, `.` or `-` as c, -ac sets both options, while -a -c sets one and keeps -c as a positional (or, for `-`, ends the options) |
| `ArgParse.PositionalsAreUnconsumed` | src/ucb/argparse.c:858-970 | after a successful scan the positionals are the unconsumed tokens in order, verbatim behind `--` |
| `ArgParse.ParsedPositionals` | src/ucb/argparse.c:841-983 | the same for the whole parse, and every required option was seen |
| `TextWrap.AppendWrapped` | src/ucb/argparse.c:1163-1203 | the loop writes the lines of the greedy filling, with breaks and indents |
| `TextWrap.WrappedWords` | src/ucb/argparse.c:1163-1203 | reading the wrapped text word by word gives the words of the original |
| `TextWrap.WidthKept` | src/ucb/argparse.c:1182-1198 | a line is too wide only if it holds a single word |
| `TextWrap.LinesAreFull` | src/ucb/argparse.c:1182-1198 | within a paragraph a line ends only where the next word does not fit |
| `TextWrap.WrappedLines` | src/ucb/argparse.c:1163-1203 | between line breaks the wrapped text has the lines of the filling, every one but the first behind exactly indent blanks |
| `TextWrap.BreaksKept` | src/ucb/argparse.c:1169-1176 | a line break of the text always ends a line |
| `Conditionals.EnterKeeps` | tools/py_c_preprocessor/preprocessor.py:642-648 | entering a group: the three-valued state says again what it stands for |
| `Conditionals.ElseKeeps` | tools/py_c_preprocessor/preprocessor.py:657-664 | the same for another branch of the group |
| `Conditionals.Preprocessor.EnterIf` | tools/py_c_preprocessor/preprocessor.py:642-648 | pushes the state; every state on the stack stands for its groups |
| `Conditionals.Preprocessor.ElseIf` | tools/py_c_preprocessor/preprocessor.py:657-664 | another branch: on only if none of the group was true before |
| `Conditionals.Preprocessor.ExitIf` | tools/py_c_preprocessor/preprocessor.py:651-654 | restores the state of the enclosing group; an exception exactly outside all groups |
| `Conditionals.Preprocessor.PreprocessLine` | tools/py_c_preprocessor/preprocessor.py:312-326 | emits a source line exactly if every enclosing group is in its first true branch |
| `Conditionals.Preprocessor.IncludeFile` | tools/py_c_preprocessor/preprocessor.py:213-242 | the same for every line of a file, in order, up to an error; unbalanced groups are an error |
| `Conditionals.IfMeans` | tools/py_c_preprocessor/preprocessor.py:642-664 | a group with any #elif and #else branches reads, anywhere and with balanced bodies, like the body of its first branch that holds, or like nothing |
| `Conditionals.IfElseMeans` | tools/py_c_preprocessor/preprocessor.py:642-664 | #if c, A, #else, B, #endif reads like A if c holds and like B otherwise |
| `Conditionals.LineMeans` | tools/py_c_preprocessor/preprocessor.py:312-326 | outside all groups a line is emitted unless it is empty |
| `Conditionals.FileStaysOn` | tools/py_c_preprocessor/preprocessor.py:657-664 | the file itself stays on exactly if there is no #else or #elif outside all groups |
| `Conditionals.StrayElseHides` | tools/py_c_preprocessor/preprocessor.py:657-664 | nothing behind the first stray #else or #elif is emitted, whatever follows |

## Left out

- All operating-system calls and backends (files, directories, processes, environment, back traces, console output), error codes and error texts: no logic of their own to prove.
- Threads, mutexes and atexit in the tracker: it is single-threaded with tracking enabled, and the allocator is a parameter that returns an address that is not live.
- Reallocation in the tracker (`src/ucb/memdbg.c:885-974`): after a failure it registers a header again whose magic was overwritten, so the list invariants are not stated for it.
- Counters of a single trace level: a block is taken off the counters of the current level, not of its own, so only the sums over levels are stated; peak and total counters and reports are not modelled.
- Allocation failure outside the byte buffer and the pool of the free log.
- Tracker.AllocTracker.Free: memory in front of a pointer that was never handed out, or was released, is taken not to hold the magic number of a live block.
- FreeLog.Table.Insert: nodes are named by slot number, and each link field of the pool is a sequence indexed by slot, reassigned as one value; pointers into the pool do not alias anything else.
- FreeLog.Table.constructor: the bucket of a pointer is any function below the capacity, of which FREE_HASH is one.
- Tracker.LinkBlock: headers live in a map from the pointer handed out to the header in front of it, reassigned as one value; blocks that overlap in memory are not modelled.
- InPlaceComposition.NormCompose: the text holds no Hangul syllables, because the only caller hands over a fully decomposed text; an array index below zero in the backward search is an integer, without wrap-around.
- Normalization.Normalize: whether the NFC and NFKC quick check accepts only normalized texts depends on global facts of the Unicode data, and so does that composition is maximal.
- Normalization.NormalizeFull: the output buffer is a sequence; that appending to it succeeds is assumed.
- Utf8Codec.EncodeCodepoints: after a failure the buffer may hold encoded chunks, as in the code; how many is not stated.
- ArgParse.ArgParser.ApplyOption: numeric conversion (strtoll and its relatives, float and double) is a parameter with integer results, a counter has no upper limit, help and version texts are not printed, and options that share a destination agree on its type.
- Help text interpolation, option declaration checks and the rest of the help layout in `src/ucb/argparse.c`.
- General "append is concatenation" for the string class: strings are sequences, with `path.c`'s own append helpers.
- Windows anchors (drive, UNC) and the Windows output style of paths: on a POSIX build a backslash is written but not parsed.
- The conversion of the command line to UTF-16.
- Macro expansion, comments and line joining in the preprocessor: a line comes with its kind and its condition with its value.
- CaseMapping.CaseMap: the word separators come as a set; how the category table and the exception for the apostrophe give it (`src/ucb/unicode.c:831-856`) is not modelled.
- The `strlen` variants of the Unicode functions (a length of NPOS).
