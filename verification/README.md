# jqf command line: a verified model

This project models the parts of the `jqf` command line that keep promises across several functions or a whole run, and
proves those promises: the colour pass over printed JSON and over tree frames, the write paths that replace files
atomically, the constant evaluator, the argument loop, the configuration overlay, the variable bindings, the raw-line
input, the multi-file input with its line counter, the resident-memory governor, and the bounded error text.

The model is in Dafny 4.11. `dafny verify dfyconfig.toml` checks all of it.

## How the files fit together

| file | what it models |
|---|---|
| `Bytes.dfy` | byte strings, the output buffer, splitting and joining, the order of strings |
| `Colour.dfy`, `Strip.dfy` | the tokenizer that inserts colour spans, and the removal of spans |
| `JsonText.dfy` | the grammar of RFC 8259 with every white space kept, and the colouring by recursion on the value |
| `PaletteParse.dfy` | the colour environment variable against its split on `:` |
| `Painted.dfy` | from that variable to the colours of one item, by field number |
| `Terminal.dfy`, `TreeFrame.dfy` | the colour pass over tree frames, and the frame grammar it is measured against |
| `FsModel.dfy` | inodes, names, what a crash may leave, and what makes a name crash safe |
| `Output.dfy`, `Writer.dfy` | the one-shot replace and the buffered writer |
| `Ordinary.dfy` | what a stretch of a request does to names that are no links of a stale temp file |
| `InPlace.dfy`, `SplitFiles.dfy` | `--in-place` and `--split-exp`, over whole requests |
| `ObjectBuilder.dfy`, `SortedBuilder.dfy` | the two passes that collapse duplicate keys |
| `SearchTree.dfy`, `KeyIndex.dfy` | the balanced tree of a large object's index: as a value, and in its vector of nodes |
| `IndexedBuilder.dfy` | the object builder with that index |
| `Constant.dfy` | constant folding against output streams |
| `Args.dfy`, `Flags.dfy` | the argument loop with its push-back, and what each flag promises |
| `Config.dfy`, `Decimal.dfy` | the configuration files, their overlay and their numbers |
| `Bindings.dfy` | the binding fold and `$ARGS` |
| `RawInput.dfy`, `Utf8.dfy` | `-R` and the string literals it writes, with a reader; which byte strings are UTF-8 |
| `Provenance.dfy` | several files in one buffer, and the line a value is reported on |
| `Governor.dfy` | the memory governor, its ceiling and the cgroup walk |
| `Excerpt.dfy` | the caret excerpt and the bounded text |

Code that updates variables step by step is a method with loops, or a class whose methods change its fields; each is
proved equal to a function of its inputs or of the old state, and the promises are lemmas about those functions.

## The crash model

The file system is a sequence of inodes and a map of names. An inode's bytes are certain after a crash only when a
data sync came after the last write to it; otherwise any bytes at all may be found. A name may lead, after a crash, to
its present target or to any target it had since its directory was last synced. `rename` is atomic, and renaming a
name over another link of the same inode does nothing, as in POSIX.1-2017, System Interfaces, `rename()`. Every call
may fail, and a ghost trace records every state a crash could meet, so "in every run, with any step failing and a
crash between any two steps" is a statement about all states of the trace. Ghost counters count the failed calls, so
that a write path may give up only when a call failed, its run did, or its temp name was taken from it, may leave a
temp file only when a removal failed, and may leave the result undurable only when a directory sync failed.
`ShowsOnly` says that every possible target of a name is durably one of a set of contents;
`FsModel.ShowsOnlyIsCrashSafe` proves that to be exactly what no crash can break, and `FsModel.SafeIsCrashSafe` is the
case of one old and one new content.

Temp names are predictable, so a file of that name may already lie about, left by an earlier process of the same
number or made as a second link of somebody else's file. Nothing excludes that here. What a write path promises is
stated for every name that is no link of the temp file's inode (`Output.CrashSafe`), and what a whole request promises
for every name that is free of such files when it begins (`Ordinary.Clear`): where no temp file lies about these are
all names (`FsModel.NoTempsFree`). A destination that has the temp name itself is edited directly: it holds its output
in the end, and no promise is made of crashes. `FsModel.CreateSafeExactly` proves that no more can be promised: a name
that shares the inode is lost as soon as the temp file is opened.

## Where the code and its own comments disagree

The model follows the code in each case.

* `render_terminal` says its line grammar is exact and that terms colour by kind (`jqf-cli/src/colour.rs:339-343`).
  The renderer also writes `.payload` segments behind a tag (`jqf-codec/render/src/tree.rs:4-8`); the pass ends the
  path there and colours nothing after it. And it writes terms the pass does not know
  (`jqf-codec/render/src/scalar.rs:48-75`, `140-166`): the infinities and not-a-number, which are numbers, and bytes,
  dates and times, which are of none of the listed kinds. Of these the pass colours whatever number bytes they happen
  to start with. `TreeFrame.TreeLawExact` proves that a frame is coloured by kind exactly when it has neither;
  `TreeFrame.TreeLawCounterexample` is `$ = 0x61` and `$ = inf`, `TreeFrame.PayloadCounterexample` is `$.payload = 1`.
* The split destination's comment says its temp name is never shared, because one item is committed before the next
  opens (`jqf-cli/src/output.rs:70-73`), and its `open` asserts so in debug builds (87-96). The sink's contract says
  otherwise: an item that is skipped for a raw NUL byte opens and never finishes (`jqf-sdk/src/drive/mod.rs:546-552`).
  Its writer is still there when the next item opens; of the same directory, the assignment then drops it and removes
  the new writer's file, and that item fails at its rename. `SplitFiles.RunsThrough` says exactly which requests this
  ends, and `SplitFiles.SkippedHarmsNext` that it takes the same directory.
* The object builder is documented as first key position, last value (`jqf-data/src/value/object.rs:236-239`), and the
  comment on blind insertion asks its callers for unique keys (263-264), which is enough
  (`IndexedBuilder.DistinctAdmits`). `IndexedBuilder.Builder.InsertOrReplace` says for every builder exactly when a
  replacement means an insertion: without an index, when the key occurs at most once or its last value is the new one
  already, or, for a new key, when the builder is small or its keys are distinct; with an index, when the key is new,
  occurs once, or its first and last values are the new one already. `IndexedBuilder.BlindThenReplace` is the smallest
  builder that fails. Of the callers in the repository one mixes the two ways, the projection of a node with its facts
  (`jqf-builtins/src/registry/builtins/facts.rs:435-488`, 666-684): it puts in its own markers and the node's
  attributes blindly, and then the members by replacement. The markers are distinct, so it takes an object node with
  two attributes of one name, and then a member of that name behind `&` or enough members for an index. The markup
  codecs give attributes to elements only, which take another path (406-411); the binary image decoder adds facts as
  it finds them (`jqf-codec/jqft/src/jqfb_decode.rs:865-908`), and could.
* The comment above the cluster split says an unknown letter keeps the whole argument a program
  (`jqf-cli/src/args.rs:3236-3238`). The code a few lines below rejects it when it starts with a letter (3259-3269).
  `Args.UnknownClusterRejected` states both cases.
* The comment on the caret excerpt says that a line longer than the window is cut (`jqf-cli/src/errors.rs:282`). A
  line that fits is cut as well when the caret is more than 60 bytes into it: `Excerpt.ShownWhole` says exactly which
  lines are shown whole, and `Excerpt.FittingLineCut` is one of 61 bytes.
* The stride gate's comment allows for one early clock read when the 32-bit counter wraps (`jqf-cli/src/rss.rs:382`).
  There is none, because 64 divides 2^32: `Governor.StrideCount`.
* The configuration module says the nearest file wins per key (`jqf-cli/src/config.rs:21-22`). For the four keys of
  the indentation family it does not; `Config.PerKeyExactly` says exactly when it makes a difference, and
  `Config.PerKeyCounterexample` is one such pair of files.

The strip identity of the colour pass is stated by its test (`jqf-cli/src/colour.rs:623-650`), over printed JSON. The
pass itself takes any bytes, and `Strip.RenderStripIdentity` is the exact condition over all of them. This is no fault
of the code: the encoder escapes ESC, so `Strip.RenderStripCounterexample` is no input the pass is given, and printed
JSON always comes back (`JsonText.TextStripIdentity`).

## Model

| member | source | states |
|---|---|---|
| Colour.Render | jqf-cli/src/colour.rs:201-307 | the flat loop with its container stack and previous-token flag writes exactly the span list of the scan, on every byte string |
| Colour.ScanString | jqf-cli/src/colour.rs:319-331 | the end of a string token: behind the first unescaped quote, or the end of the item, never out of range |
| Colour.PushSpan | jqf-cli/src/colour.rs:310-314 | one span is the colour, the token and the reset |
| Colour.RenderBracket | jqf-cli/src/colour.rs:208-244 | brackets push and pop the stack; an empty container is one span |
| Colour.RenderSeparator | jqf-cli/src/colour.rs:245-260 | a comma takes the enclosing container's colour, a colon the object colour |
| Colour.RenderScalar | jqf-cli/src/colour.rs:261-304 | strings are keys or values by state, literals and numbers have their own colours, other bytes pass through and keep the flag |
| JsonText.ScanText | jqf-cli/src/colour.rs:201-307 | scanning a printed value gives its structural colouring and leaves the stack of open ancestors as it was |
| JsonText.ColouredIsStructural | jqf-cli/src/colour.rs:21-26 | for every JSON value, every layout and any framing bytes that start no token, the pass equals the recursion on the value |
| JsonText.StringEndsAtQuote | jqf-cli/src/colour.rs:319-331 | on every string the grammar allows the scanner stops at the closing quote, whatever follows |
| JsonText.TextStripIdentity | jqf-cli/src/colour.rs:623-650 | printed JSON comes back when the spans are removed |
| Strip.StripSpans | jqf-cli/src/colour.rs:604-621 | the removal loop computes the removal function |
| Strip.RenderStripIdentity | jqf-cli/src/colour.rs:623-650 | for every byte string and palette, removal gives the input back exactly when no quoted stretch of the input holds ESC `[` |
| Strip.ScanQuotes | jqf-cli/src/colour.rs:201-307 | of the tokens of any input only those that are its quoted stretches can hold ESC `[` |
| Strip.RenderStripEscFree | jqf-cli/src/colour.rs:623-650 | every byte string without ESC, valid JSON or not, comes back |
| Strip.RenderStripCounterexample | jqf-cli/src/colour.rs:201-307 | a string token holding ESC `[`, which no encoder writes, would not come back |
| Strip.ScanCovers | jqf-cli/src/colour.rs:201-307 | the tokens of any input together are the input, nothing lost, doubled or reordered; other bytes are copied one by one, and none of them open a span |
| Strip.StripEmit | jqf-cli/src/colour.rs:604-621 | for any tokens and single copied bytes: removal adds nothing, and gives the text back exactly when no token holds ESC `[` and no two copied bytes are ESC `[` |
| PaletteParse.ParseJqColors | jqf-cli/src/colour.rs:86-126 | for every value: fails exactly when one of the first seven fields has a byte outside digits and semicolons, otherwise slot k has field k, the default where the split has none, and every code is well shaped |
| PaletteParse.ScanFields | jqf-cli/src/colour.rs:93-110 | the index loop finds the start of every scanned field of the split, inside its nine-element array |
| PaletteParse.SlotCodesValid | jqf-cli/src/colour.rs:14-19 | every palette the parser can return has eight codes of the shape ESC `[` digits or semicolons `m` |
| Painted.ColouredIsPainted | jqf-cli/src/colour.rs:14-28 | for every palette and value: `null`, `false`, `true`, a number, a string, the brackets, commas and empty form of an array, those of an object with its colons, and an object's keys are written in fields 0 to 7, said in field numbers only |
| Painted.ColourItem | jqf-cli/src/main.rs:902-908 | from the environment to one item: each text is painted in the field of its kind, a last empty or missing field and a malformed value give the default, and only the latter is complained of |
| Painted.DefaultMember | jqf-cli/src/colour.rs:53-55 | without the variable every object of one string member has its key in `1;34`, its string in `0;32` and its punctuation in `1;39`, byte for byte |
| Terminal.RenderTerminal | jqf-cli/src/colour.rs:344-395 | the line loop writes exactly the span list of the frame scan |
| Terminal.WriteSeparatorAndAlias | jqf-cli/src/colour.rs:398-415 | separator and anchor are copied uncoloured, as far as they reach |
| Terminal.WriteTerm | jqf-cli/src/colour.rs:419-476 | a term is coloured by its kind and the rest of the line is copied |
| Terminal.ScanContainerTerm | jqf-cli/src/colour.rs:480-486 | a container term ends behind its closing parenthesis or at the line's end |
| Terminal.TerminalScanCovers | jqf-cli/src/colour.rs:344-486 | the pieces of any input together are the input |
| Terminal.TerminalStripExact | jqf-cli/src/colour.rs:333-337 | every byte string comes back exactly when no token holds ESC `[` and no copied ESC is followed by a copied `[` |
| Terminal.TerminalStripIdentity | jqf-cli/src/colour.rs:344-486 | every frame without ESC, well formed or not, comes back when the spans are removed |
| Terminal.OtherLineCopied | jqf-cli/src/colour.rs:344-395 | a line that is no node line, indented or not, is copied without colour, and the pass goes on behind it |
| TreeFrame.ScanFrame | jqf-cli/src/colour.rs:344-486 | what the pass does with every frame the renderer can print, line by line, terms of the kinds it does not know included |
| TreeFrame.TreeLawExact | jqf-cli/src/colour.rs:333-343 | a frame is coloured by kind, byte for byte and span for span, exactly when no path in it has a payload segment and no term is an infinity, not-a-number, bytes, a date or a time |
| TreeFrame.PayloadUncolours | jqf-codec/render/src/tree.rs:4-8 | behind a payload segment bytes of the path are never in the key colour |
| TreeFrame.UnknownMiscoloured | jqf-codec/render/src/scalar.rs:48-75 | every term of an unknown kind has a byte in the wrong colour: the end of an infinity or of not-a-number has none, the start of bytes, dates and times has the number colour |
| TreeFrame.TreeLawCounterexample | jqf-codec/render/src/tree.rs:264-283 | the one-line frames of a byte string and of an infinity are not coloured by kind |
| TreeFrame.PayloadCounterexample | jqf-codec/render/src/tree.rs:4-8 | the one-line frame of a number behind a payload segment is coloured at its `$` only |
| FsModel.SafeIsCrashSafe | jqf-cli/src/output.rs:5-16 | safety is exactly: no crash can show anything but the complete old or the complete new contents |
| FsModel.ShowsOnlyIsCrashSafe | jqf-cli/src/output.rs:5-16 | a name shows only a set of contents exactly when no crash can leave anything else there |
| FsModel.ShownContents | jqf-cli/src/output.rs:5-16 | a running reader finds one of the allowed contents as well |
| FsModel.RenameNeedsSync | jqf-cli/src/output.rs:401-406 | renaming over the target is safe exactly when the complete data was synced first |
| FsModel.CreateSafeExactly | jqf-cli/src/output.rs:389 | opening the temp name keeps a name safe exactly when the two cannot share an inode |
| FsModel.SecondOpenSteals | jqf-cli/src/output.rs:70-73 | opening a temp name somebody owns empties the owner's file, and one removal then removes it for both |
| Output.FileSystem.Rename | jqf-cli/src/output.rs:406 | the rename happens whole or not at all |
| Output.WriteAtomic | jqf-cli/src/output.rs:379-414 | in every run, whatever file already has the temp name: no state's crash shows any name that is no link of the temp file's inode anything but what it could show before or, for the target, the complete bytes; on success the target holds the bytes, durably unless the directory sync failed; it gives up only when a call failed, and then the target has its old contents; the temp is gone unless its removal failed or the target was a link of it |
| Output.ReplaceSteps | jqf-cli/src/output.rs:388-412 | every state of the step sequence is before the rename, with only the temp file touched, or behind it, with the complete bytes on disk |
| Output.AtomicTempDiffers | jqf-cli/src/output.rs:386-387 | the temp name is never the target's own, whether that is UTF-8 or not, and lies in the target's directory |
| Output.AtomicTempsApart | jqf-cli/src/output.rs:386-387 | one temp name belongs to one process and, among UTF-8 names, to one target |
| Output.SessionCrashSafe | jqf-cli/src/output.rs:5-16 | a trace of such states is crash safe for every name that is no link of the temp file's inode, the target with its new contents |
| Writer.CliWriter.Write | jqf-cli/src/output.rs:463-527 | file and buffer together hold exactly the accepted bytes, through partial writes and failures; bytes that fit in 64 KiB with what is buffered reach no call, and 64 KiB or more leave the buffer empty |
| Writer.CliWriter.WriteFully | jqf-cli/src/output.rs:521-527 | the write-all loop accepts every byte or reports a failure, and the session stays intact |
| Writer.CliWriter.Commit | jqf-cli/src/output.rs:480-510 | flush, sync, rename in that order: every state is before the rename or behind it with the complete bytes on disk; success means the writer still owned its temp name and the target has exactly the accepted bytes, durably unless the directory sync failed, and the slot is clear; failure needs a failed call or a temp name that was taken away, and drops the writer |
| Writer.CliWriter.Drop | jqf-cli/src/output.rs:513-519 | dropping removes the temp name, whatever it leads to by now, and touches no inode but the writer's own |
| Writer.TempNames | jqf-cli/src/output.rs:445 | two writers meet on a temp name exactly when one process opens them in one directory |
| InPlace.OpenWriter | jqf-cli/src/output.rs:434-476 | opening starts a session on the shared temp name, reusing a stale file's inode if there is one; a failure on the way removes the name again |
| InPlace.Publish | jqf-cli/src/output.rs:480-519 | the whole life of a writer: all chunks and a commit, or a drop at the first failure, as one session |
| InPlace.RunOne | jqf-cli/src/main.rs:1858-2029 | one run replaces its file with its complete output, or fails for a reason and leaves it alone; crash safe throughout; no other ordinary file is touched, and no temp file is added unless a removal failed or the file itself has that name |
| InPlace.EditInPlace | jqf-cli/src/main.rs:2030-2052 | over any list of files: after `done` successful runs every ordinary file holds what those runs on it make of it, one after the other, and files not listed what they held; no state of the whole request can show a file anything but its old contents or the complete output of one of its runs; what the runs left is durable unless a directory sync failed; a request stops early only at a failed call, a missing file or a failing run, and leaves no new temp file unless a removal failed |
| InPlace.EditOne | jqf-cli/src/main.rs:2037-2051 | one turn of the loop extends what holds of the files so far |
| InPlace.OwnBytes | jqf-cli/src/main.rs:2031-2038 | a file listed once is run on its own original bytes, whatever ran before, and holds the output of that until the end |
| InPlace.ProgressRead | jqf-cli/src/main.rs:2036-2051 | the next run gets what its file holds by then, and succeeds exactly when the engine does on that |
| InPlace.DurableKept | jqf-cli/src/main.rs:2030-2052 | a run that gives up keeps what the earlier ones left durable |
| InPlace.DurableNext | jqf-cli/src/main.rs:2030-2052 | a run that succeeds makes its own file durable and keeps all others |
| Ordinary.StretchThen | jqf-cli/src/output.rs:5-16 | what two stretches of a request may show, one after the other |
| Ordinary.ReplacedOrdinary | jqf-cli/src/output.rs:480-510 | a committed session keeps every ordinary name but its target, keeps ordinary names free of temp files, and leaves no temp file for an ordinary target |
| SplitFiles.SplitDestination.Open | jqf-cli/src/output.rs:87-96 | the new file is created before the writer of a skipped item is dropped: the new writer owns its temp name exactly when that writer was of another directory, or there was none, or its removal failed; nothing ordinary changes, in no state; a failure leaves the old writer |
| SplitFiles.SplitDestination.Commit | jqf-cli/src/output.rs:98-108 | the item's file holds what was written, durably unless the directory sync failed, or what it held before; no state shows anything else; without a failed call it fails only when the temp name was taken away |
| SplitFiles.SplitDestination.Abandon | jqf-cli/src/output.rs:513-519 | the drop of a writer that is still there, at the end or after a failure, changes no destination and shows none anything new |
| SplitFiles.SplitDestination.OnlyTemp | jqf-cli/src/output.rs:70-73 | while every removal worked, the only temp file that was not there before the request and is no destination is the open writer's, it leads to that writer's file, and no other name does |
| SplitFiles.PublishItems | jqf-sdk/src/drive/encode.rs:267-339 | over any list of items: each name holds the last item published to its file among those dealt with, or its old contents; where no two names mean one file, every completed item dealt with is found in its file; no state of the request shows a file anything but its old contents or one item's complete bytes; the published files are durable unless a directory sync failed; no item dealt with repeats a name; a request without failed calls stops exactly at the first item that must end it, and leaves no new temp file |
| SplitFiles.EncodeOne | jqf-sdk/src/drive/encode.rs:267-285 | one item: a name that an earlier item has is refused, the name of a skipped item counts, and an item without a name is passed over |
| SplitFiles.RepeatEnds | jqf-sdk/src/drive/encode.rs:270-276 | a second item of a name ends the request at the latest there, published or skipped as the first one was |
| SplitFiles.FirstItemStands | jqf-sdk/src/drive/mod.rs:1742-1745 | while no two names mean one file, every published item's file holds that item: the first of its name stands |
| SplitFiles.LastOfPathStands | jqf-sdk/src/drive/encode.rs:270-277 | names are compared as they are written, so of different names that mean one file the last item stands |
| SplitFiles.RunsThrough | jqf-sdk/src/drive/value.rs:886-902 | without failed calls a request gets through exactly when no name repeats, no item breaks off, and no item is published to the directory of a skipped item right before it |
| SplitFiles.SkippedHarmsNext | jqf-sdk/src/drive/mod.rs:546-552 | a skipped item costs the next named item its file exactly when both files are in one directory |
| SplitFiles.SkippedThenComplete | jqf-codec/json/src/encode.rs:652-654 | the smallest such request, a string with a NUL byte and then another one, in one directory and in two |
| ObjectBuilder.CollapseIsInsertion | jqf-data/README.md:107-109 | first key position and last value is the same as inserting the members one by one |
| ObjectBuilder.FinishLinear | jqf-data/src/value/object.rs:389-413 | the in-place pass for small objects collapses duplicates to first key position, last value |
| SortedBuilder.FinishSorted | jqf-data/src/value/object.rs:415-465 | the sorting pass for large objects computes the same function |
| SortedBuilder.CollapseGroups | jqf-data/src/value/object.rs:429-446 | the group scan leaves each key's last value at its first position and lists exactly the first positions |
| SortedBuilder.RetainKept | jqf-data/src/value/object.rs:449-456 | the retain pass keeps exactly the first occurrences, in order |
| SortedBuilder.KeptIsDeduplicated | jqf-data/README.md:107-109 | keeping first occurrences with last values, read off the positions, is the collapse |
| SortedBuilder.GroupEnds | jqf-data/src/value/object.rs:420-437 | in the sorted order a maximal stretch of one key starts at its first and ends at its last occurrence |
| SortedBuilder.FinishOccurrences | jqf-data/src/value/object.rs:353-356 | a builder without an index collapses its occurrences the same way below and above the threshold of 16 |
| IndexedBuilder.Builder.InsertOrReplace | jqf-data/src/value/object.rs:287-319 | for every builder: where the member goes, when the index is built, and exactly when the call means an insertion, said of the entries before it |
| IndexedBuilder.Builder.InsertLast | jqf-data/src/value/object.rs:263-275 | a blind insertion without an index always means an insertion, with one exactly when a replacement would |
| IndexedBuilder.Builder.Finish | jqf-data/src/value/object.rs:345-356 | with an index the entries are the object, without one their collapse is |
| IndexedBuilder.ReplaceExactly | jqf-data/src/value/object.rs:302-305 | replacing the first occurrence of a key means an insertion exactly when the key occurs once or its last value is the new one already |
| IndexedBuilder.ReplaceLastExactly | jqf-data/src/value/object.rs:289-298 | replacing the last occurrence among entries that are not collapsed any more means an insertion exactly when it is the first one too, or the first and last values are the new one already |
| IndexedBuilder.FreezeExactly | jqf-data/src/value/object.rs:307-318 | building the index with a new key, which ends the collapse, means an insertion exactly when no key occurs twice |
| IndexedBuilder.BlindThenReplace | jqf-data/src/value/object.rs:263-275 | a key put in twice blindly and then replaced finishes with its second value, not with the new one |
| IndexedBuilder.DistinctExactly | jqf-data/src/value/object.rs:346-352 | skipping the collapse, as a builder with an index does, is right exactly when no key occurs twice |
| IndexedBuilder.BuildIndex | jqf-data/src/value/object/index.rs:77-85 | the index built over any entries leads each key to its last position |
| KeyIndex.CompareIsBefore | jqf-data/src/value/object/index.rs:44-62 | comparing the prefix words first and the keys only where they are equal is the order of the keys |
| KeyIndex.PrefixIs | jqf-data/src/value/object/index.rs:53-59 | the prefix word is the big-endian number of the first eight bytes, padded with zeros |
| KeyIndex.IncrementalIndex.Get | jqf-data/src/value/object/index.rs:186-204 | the walk finds exactly the keys that are in the index, at their positions |
| KeyIndex.IncrementalIndex.WalkDown | jqf-data/src/value/object/index.rs:217-242 | the walk ends at the key's node or where the key is missing, its path leads back to the root, and it never fills the 128 places of its array |
| KeyIndex.IncrementalIndex.WalkUp | jqf-data/src/value/object/index.rs:253-263 | relinking and rebalancing up the path gives a balanced tree of the old slots in their order with the new one in its place, and changes nothing but links and heights |
| KeyIndex.IncrementalIndex.WalkInsert | jqf-data/src/value/object/index.rs:210-265 | one insertion or move: the index stays ordered, balanced, with true heights and every node reachable, and what it says changes at the one key only |
| KeyIndex.IncrementalIndex.Rebalance | jqf-data/src/value/object/index.rs:292-312 | the in-place rotations compute the rebalancing of the tree the node stands for, and touch no slot outside it |
| SearchTree.RebalancedIsBalanced | jqf-data/src/value/object/index.rs:292-312 | where the two sides differ by at most two, single or double rotation gives a balanced tree at most one lower, and a balanced one is left as it is |
| SearchTree.RebalancedKeepsOrder | jqf-data/src/value/object/index.rs:314-332 | rotations keep the order of the slots |
| SearchTree.StepUp | jqf-data/src/value/object/index.rs:253-263 | one step up the path: the subtree may have grown by one, and so may the result, no more |
| SearchTree.BalancedIsLarge | jqf-data/src/value/object/index.rs:208-209 | a balanced tree of height h has at least the (h + 2)-nd Fibonacci number of nodes, less one |
| SearchTree.BalancedFits | jqf-data/src/value/object/index.rs:208-217 | so a tree with fewer than 2^64 nodes is at most 91 high |
| Constant.EvaluateConstant | jqf-builtins/src/constant.rs:155-224 | the recursive evaluator computes the folding function |
| Constant.FoldConstantSeq | jqf-builtins/src/constant.rs:229-250 | the fold appends to the caller's vector and leaves its earlier elements alone, whatever the outcome |
| Constant.StaticTemplateText | jqf-builtins/src/constant.rs:258-276 | the text of a template whose segments are all decodable literals |
| Constant.ConstantObjectKey | jqf-builtins/src/constant.rs:289-328 | the text of a name or string key, and the errors of all other keys |
| Constant.ConstantSound | jqf-builtins/src/constant.rs:155-224 | when evaluation succeeds with a value, the stream of the expression is exactly that one output, whatever the uninterpreted forms do |
| Constant.SeqSound | jqf-builtins/src/constant.rs:229-250 | when the fold succeeds it appended exactly the stream in order; otherwise it appended a prefix of it |
| Constant.MembersSound | jqf-builtins/src/constant.rs:194-216 | the members handed to the builder are the members of the reference semantics |
| Constant.ConstantComplete | jqf-builtins/src/constant.rs:155-224 | evaluation succeeds exactly on the literal subset |
| Constant.ListComplete | jqf-builtins/src/constant.rs:229-250 | the fold succeeds exactly on comma lists of it |
| Constant.ConstantFails | jqf-builtins/src/constant.rs:155-224 | which error ends an evaluation, over the syntax: that of the first obstacle in evaluation order, text that does not decode or a construct outside the subset |
| Constant.ListFails | jqf-builtins/src/constant.rs:226-250 | a fold is declined with false when the construct comes first, and fails when the undecodable text does |
| Constant.NeverParse | jqf-engine/src/compile/lower/modules.rs:900-908 | where everything decodes no expression is a parse failure, so a list that is not constant is only declined |
| Constant.FirstObstacleWins | jqf-builtins/src/constant.rs:247-248 | a list of a path and an undecodable number is declined or fails, by their order |
| Args.ParseArguments | jqf-cli/src/args.rs:2592-3298 | the loop that reassigns its own input terminates on every argument list and computes the run of its steps |
| Args.StepLighter | jqf-cli/src/args.rs:3236-3258 | every iteration that goes on leaves a lighter input, a cluster of k letters weighing more than k tokens |
| Args.RunAppend | jqf-cli/src/args.rs:2592-3298 | after tokens that parse on their own, parsing goes on from their state with whatever follows |
| Args.ClusterIsSeparate | jqf-cli/src/args.rs:3236-3258 | a cluster in option position parses like its letters written separately, also when one of them takes the next token |
| Args.ClusterAnywhere | jqf-cli/src/args.rs:3236-3258 | the same at any place of an argument list that is still in option position |
| Args.UnknownClusterRejected | jqf-cli/src/args.rs:3259-3269 | one foreign letter rejects the whole token when it starts like an option, and otherwise makes it positional |
| Args.FormatLetterDoesNotCombine | jqf-cli/src/args.rs:3239-3248 | the format letter is not in the cluster set: `-no` fails where `-n -o` parses |
| Args.AfterMarker | jqf-cli/src/args.rs:2603-2624 | with option processing off every token becomes program, `$ARGS` value or input file in order, and no flag state changes |
| Args.MarkerEndsOptions | jqf-cli/src/args.rs:2593-2624 | behind any tokens that parse on their own with option processing on, `--` makes all tokens after it positional, whatever they look like |
| Args.DashProgram | jqf-cli/src/args.rs:2603-2607 | `jqf -- -n` runs the program `-n` and reads its input |
| Args.PlainTokens | jqf-cli/src/args.rs:3270-3297 | tokens that look like no option, the keyword apart, are placed the same way without the marker |
| Flags.ShortIsLong | jqf-cli/src/args.rs:2625-3009 | a short flag and its long name run to one outcome, whatever follows |
| Flags.SwitchOn | jqf-cli/src/args.rs:2686-3207 | each of the repeatable switches turns on what it is called, and nothing else changes |
| Flags.OtherSwitches | jqf-cli/src/args.rs:2767-2825 | `--stream-errors` turns on two things, `--binary` none, and `--header` and `--with-source` are refused the second time |
| Flags.ParallelExclusive | jqf-cli/src/args.rs:3068-3075 | the two parallelism switches may repeat and exclude each other |
| Flags.ValueFlag | jqf-cli/src/args.rs:2780-3120 | each flag with a value: a repetition, a missing value, a value that is not UTF-8 and a rejected one end the run in this order, otherwise it is set or cleared |
| Flags.PathFlag | jqf-cli/src/args.rs:2690-3175 | each flag with a path takes it once and in any encoding |
| Flags.SplitExclusive | jqf-cli/src/args.rs:3189-3203 | the two ways to name a split expression exclude each other and themselves |
| Flags.LastIndent | jqf-cli/src/args.rs:2850-2865 | the three indentation flags may repeat in any mix, and the last one stands |
| Flags.NameThenValue | jqf-cli/src/args.rs:2724-2747 | a binding takes its name first and its value second; the value of a file binding may be in any encoding |
| Flags.Modes | jqf-cli/src/args.rs:2755-2762 | what the later positional values are |
| Flags.OldThenNew | jqf-cli/src/args.rs:3176-3184 | `--diff` takes the old document first, and is refused the second time |
| Flags.AttachedLibrary | jqf-cli/src/args.rs:2625-2641 | a library directory attached to `-L` is the same as one that follows it, and paths keep their order |
| Flags.CommandFlag | jqf-cli/src/args.rs:2642-2671 | commands end the parse whatever follows; `-h` looks at nothing, `--help` at the next token |
| Flags.CommandWithValue | jqf-cli/src/args.rs:2672-2683 | the two commands with a value, and their failures |
| Flags.ServeKeyword | jqf-cli/src/args.rs:3270-3287 | the keyword in the program's place is the subcommand unless an option stands before it, and text behind a program or under `--follow` |
| Flags.Combined | jqf-cli/src/args.rs:3236-3269 | fifteen letters combine, in the order written, and one other character makes an option of the whole unknown |
| Flags.UnknownLong | jqf-cli/src/args.rs:3231-3235 | every other long spelling is an unknown option |
| Flags.OtherShort | jqf-cli/src/args.rs:3259-3269 | a dash and any other letter is an unknown option, a dash and anything else is text |
| Flags.OtherEncoding | jqf-cli/src/args.rs:3208-3230 | a token that is not UTF-8 is refused when it is spelled like an option and otherwise placed |
| Config.Resolve | jqf-cli/src/config.rs:134-159 | disabled reading shows nothing; an explicit file is shown alone; otherwise each ordinary key has the nearest file's value, else the global one's, the indentation is the nearest file's if it has a family key, else the global one's, and it fails exactly when one of the two is unusable |
| Config.FamilyDecides | jqf-cli/src/config.rs:109-114 | a file with a family key decides the indentation whatever was set before, also when it clears it |
| Config.ConfigView.ReadDefaults | jqf-cli/src/config.rs:218-228 | applying a table key by key: which tables fail, and what each key and the indentation become |
| Config.ConfigView.ApplyKey | jqf-cli/src/config.rs:256-400 | one key: type errors, unknown keys without effect, and the family keys with their clearing values |
| Config.ConfigView.ReadConfigFile | jqf-cli/src/config.rs:204-252 | which files are unusable, and that only the defaults section sets anything |
| Config.BooleanKeys | jqf-cli/src/config.rs:256-400 | the five plain switches: a boolean is the setting, anything else is an error |
| Config.CountKeys | jqf-cli/src/config.rs:256-400 | the three counts: an integer that is not negative |
| Config.NameKeys | jqf-cli/src/config.rs:256-400 | the three named settings, and the names each accepts |
| Config.IndentKeys | jqf-cli/src/config.rs:256-400 | the four keys of the indentation, with their ranges and their clearing values |
| Config.CeilingSpellings | jqf-cli/src/args.rs:2031-2064 | a percentage, and bytes with each binary unit: which number they mean, what disables and what is refused |
| Config.DialKeys | jqf-cli/src/config.rs:374-400 | the two dials are read from text as from the command line, and from integers |
| Config.OtherKeys | jqf-cli/src/config.rs:256-400 | any other key is without effect |
| Config.LastFamilySpeaks | jqf-cli/src/config.rs:109-114 | because tables iterate alphabetically, the last assignment is the alphabetically last family key's |
| Config.PerKeyExactly | jqf-cli/src/config.rs:21-22 | merging key by key would give the same indentation exactly when the nearest file has no family key, or the global file's last one is not alphabetically later, or both say the same |
| Config.PerKeyCounterexample | jqf-cli/src/config.rs:21-22 | two files for which the code indents by two spaces and a merge key by key would by tabs |
| Config.IntegerDials | jqf-cli/src/config.rs:374-389 | an integer written for a dial means itself, through its text and back, with zero, negative and too large ones told apart |
| Config.RunWith | jqf-cli/src/args.rs:3299-3503 | in its three cases, disabled, an explicit file, nearest over global: each key, the indentation and the colour switches are argv's, else that source's, else built in; it fails exactly when a file that is read is unusable or the merged disk ceiling has no spill store |
| Bindings.BindValues | jqf-cli/src/main.rs:1260-1328 | the first binding of a name wins across the four kinds, the schema ahead of all; once the files are read only a winner's value can fail |
| Bindings.ReadBindingFiles | jqf-cli/src/main.rs:949-957 | the files of all bindings are read before any is bound; it fails exactly when one of them cannot be read |
| Bindings.AddArgs | jqf-cli/src/main.rs:1329-1409 | `$ARGS` is built from the positional values and every winner, and replaces a winner of that name |
| Bindings.BuildEnvironment | jqf-cli/src/main.rs:949-1409 | files, schema, bindings, positional values and `$ARGS` in order; it fails exactly when the file of some binding, winner or loser, cannot be read, the schema cannot be read or parsed, a winner's value fails, or a positional value does |
| Bindings.LoserFails | jqf-cli/src/main.rs:949-957 | an unreadable file of a losing binding fails a request whose winners all evaluate |
| Bindings.EnvironmentMeans | jqf-cli/src/main.rs:1329-1409 | names are distinct, every name but `$ARGS` has its first offer's value, and `named` is exactly the map of winners, a user's own `ARGS` included |
| Bindings.ArgsHolds | jqf-cli/src/main.rs:1384-1409 | `$ARGS` has exactly two fields, `positional` with the values in order and `named` with the object of the winners |
| Bindings.RequestMeans | jqf-cli/src/main.rs:1271-1328 | the first binding of a name gives the value of the variable and of the name in `named`, evaluated with its own file's bytes |
| Bindings.SchemaMeans | jqf-cli/src/main.rs:1265-1273 | the schema document is bound as `$__schema`, whatever the bindings are |
| Bindings.OnlyNames | jqf-cli/src/main.rs:1260-1328 | nothing is bound but the schema and the given names |
| Bindings.WinnersAreFirst | jqf-cli/src/main.rs:1261-1264 | the winners are the offered names, each with its first offer |
| RawInput.RawInputBytes | jqf-cli/src/input.rs:573-596 | one literal per line, or one for the whole input |
| RawInput.PushJsonEscaped | jqf-codec/json/src/json_escape.rs:76-85 | the escaping loop computes the escape law byte by byte |
| RawInput.EscapeForm | jqf-codec/json/src/json_escape.rs:1-52 | which bytes stand for themselves, which seven have a short form, and that the others are two lower-case hexadecimal digits |
| RawInput.OneLiteralALine | jqf-cli/src/input.rs:592-607 | the output has one line for each converted line, and no newline but those |
| RawInput.LinesRejoin | jqf-cli/src/input.rs:569-591 | the lines are the newline split without the one empty segment of a final newline; none contains a newline, and rejoining restores every byte |
| RawInput.ReadLiterals | jqf-cli/src/input.rs:592-607 | for every input a reader after RFC 8259 gets back every converted line, in order, and nothing else |
| RawInput.RawInputReadsBack | jqf-cli/src/input.rs:569-607 | for valid UTF-8 it gets back exactly the lines, and with slurp exactly the input |
| Utf8.SplitUtf8 | jqf-cli/src/input.rs:588-607 | cutting valid UTF-8 at newlines leaves valid UTF-8, so the conversion changes no line |
| Provenance.AppendInputFile | jqf-cli/src/input.rs:230-270 | the bytes read before the end or the first failure are appended, interrupted reads retried |
| Provenance.DeliversAll | jqf-cli/src/input.rs:230-270 | all chunks before an end or a failure arrive, across interruptions, and nothing behind it; only a failure is one |
| Provenance.ReadCombinedInput | jqf-cli/src/input.rs:201-226 | for any files with any failures the ranges are contiguous from 0 to the end, each cuts out the bytes read from its file, and the missing flag is set exactly when some file failed |
| Provenance.ExactlyOneFile | jqf-cli/src/input.rs:196-199 | every byte of the buffer lies in exactly one file's range |
| Provenance.InputLines.AtValueEnd | jqf-sdk/src/drive/mod.rs:924-973 | the incremental counter, which never looks at a byte twice, answers as if the value's file were counted afresh |
| Provenance.InsideFile | jqf-sdk/src/drive/mod.rs:932-950 | the file a value is attributed to is the one that holds its last byte |
| Provenance.LineNumber | jqf-sdk/src/drive/mod.rs:924-973 | the number itself: the newlines of the value's file before its last byte, and one more exactly when a newline follows that byte in the file |
| Provenance.OneValueALine | jqf-sdk/src/drive/mod.rs:950-956 | in a file of one-line values the k-th value is reported on line k |
| Governor.Governor.SampleAndMaybeRefuse | jqf-cli/src/rss.rs:370-415 | one check, with its two gates, two readings and recorded refusal |
| Governor.RefusalExactly | jqf-cli/src/rss.rs:370-415 | what any check of any run does: it refuses exactly when the governor is armed, the check is forced or the run's every 64th unforced one with four milliseconds elapsed, the first reading exceeds the ceiling and the second, if there is one, does too; the last reading and the ceiling are recorded, and the clock is kept exactly by the unforced ones that are due |
| Governor.StridePhase | jqf-cli/src/rss.rs:380-389 | the stride gate counts unforced checks only, whatever else the run holds, and the counter's wrap does not show in it |
| Governor.RecordFilled | jqf-cli/src/rss.rs:471-478 | the refusal record is empty exactly as long as no check refused, so the message never falls back after a refusal |
| Governor.StrideCount | jqf-cli/src/rss.rs:109-114 | how many unforced checks of any run pass the stride gate, from any counter value and across its wrap |
| Governor.OncePerStride | jqf-cli/src/rss.rs:109-114 | any stretch with 64 unforced checks has exactly one that reads the clock |
| Governor.SamplesApart | jqf-cli/src/rss.rs:103-107 | under a monotone clock two unforced samples of a run are at least four milliseconds apart |
| Governor.Governor.Configure | jqf-cli/src/rss.rs:585-627 | what each dial arms, with the number of a byte dial and the share of the least known limit of a percentage, and how missing detection degrades or fails |
| Governor.EffectiveBytes | jqf-cli/src/rss.rs:650-657 | the least of the known limits, and none exactly when none is known |
| Governor.CeilingBelowEffective | jqf-cli/src/rss.rs:595 | up to 100 percent the saturating ceiling never exceeds the effective memory |
| Governor.CeilingExact | jqf-cli/src/rss.rs:595 | the ceiling is the exact floor precisely until saturation reaches a full hundred, and what it is from 2^64 on |
| Governor.DetectCgroupLimit | jqf-cli/src/rss.rs:782-814 | the least finite limit of the group and all its ancestors, the root included, and none exactly when no level has one |
| Governor.SegmentsAre | jqf-cli/src/rss.rs:782-786 | the walk's path is the group's non-empty parts in order, however its slashes are doubled, led or trailed |
| Decimal.WriteDecimal | jqf-cli/src/main.rs:348-361 | the 20-byte buffer never underflows for any 64-bit value, and what is written is the number's digits |
| Decimal.DigitsDenote | jqf-cli/src/main.rs:348-361 | the digits read back as the number, without a leading zero |
| Decimal.DigitsUnique | jqf-cli/src/main.rs:348-361 | no other digit string without a leading zero denotes it |
| Decimal.ParseTexts | jqf-cli/src/args.rs:2031-2064 | which texts are read as 64-bit numbers, and as which: plus sign, leading zeros, what does not fit and what is no number |
| Excerpt.ExcerptShows | jqf-cli/src/errors.rs:283-318 | for every source, start and end, what is shown: one line, from its start or 60 bytes before the caret, to its end or 120 bytes on, with cut marks exactly where it was cut, and carets over exactly the shown part of the span, or one column where that is empty |
| Excerpt.ShownWhole | jqf-cli/src/errors.rs:303-314 | a line is shown whole exactly when it has at most 120 bytes and the caret is at most 60 bytes into it |
| Excerpt.FittingLineCut | jqf-cli/src/errors.rs:282 | a line of 61 bytes that is cut |
| Excerpt.CaretsStandUnder | jqf-cli/src/errors.rs:303-317 | on an ASCII line a caret stands exactly under each shown byte of the span, spaces under all else, and the line has an ellipsis on exactly the sides it was cut on |
| Excerpt.BoundedText.WriteStr | jqf-cli/src/errors.rs:168-178 | a piece is taken whole when it fits, and not at all otherwise |
| Excerpt.RenderDiagnostic | jqf-cli/src/errors.rs:195-232 | a diagnostic is rendered exactly when all its pieces together fit in 4096 bytes |

## Left out

- SplitFiles.SplitDestination.Open: release builds are modelled, where the assertion that no writer is live is not compiled; a writer it finds there has taken no bytes, because the one skip the drive admits comes before an item's first byte.
- SplitFiles.PublishItems: the items are those the drive goes on to encode, in its order; which later results of an input value a skip passes over, and evaluating the split expression, are not part of the model, and a name's file is a function of the name.
- Provenance.InputLines.AtValueEnd: counters are unbounded numbers; the saturation of 64-bit counts is not modelled.
- RawInput.RawInputReadsBack: the conversion of invalid UTF-8 is a parameter that keeps valid UTF-8; what it makes of other bytes is the standard library's.
- InPlace.EditInPlace: the engine is a function from a file's position and bytes to the chunks it publishes and its success; the listed paths are already resolved.
- The `--no-atomic` path, which truncates the destination directly and makes no crash promise.
- Symlink resolution, mode, owner and hard-link preservation; keeping the mode is a step that may fail.
- KeyIndex.IncrementalIndex.WalkInsert: keys are byte strings, and vectors are shorter than 2^64, as in the original; the characters of the model are not bounded otherwise.
- Allocation failure everywhere; the Eytzinger table a finished large object carries, and its conversion into the incremental index.
- The document edit lane's own write, stdout, stderr buffering and signals.
- The negative-number splice of `lower_number`, and how number spellings and string segments decode; both are parameters.
- Object constructors with several outputs per member are left to an arbitrary stream in the reference semantics; the folder declines them.
- Help text, format and dialect tables, and the value grammars of the single flags; a flag's parser is a parameter of the argument loop.
- Warnings, error wording and exit classes of the configuration reader; the discovery walk for the nearest file.
- Reading `statm`, `getrusage`, `sysctl` and the limit files; the release of freed pages; concurrency of the governor's atomics.
- The choice of stdin against files and the streaming drives; the codecs, the engine and the record routes.
- Whether colour is engaged at all, and the raw-text exception of the sink.
