# A model of multitop, with proofs

multitop watches several hosts from one terminal. Most of it is input and
output; between the reads and the writes stand small algorithms whose answers
have to be exactly right. This project models those algorithms in Dafny and
proves what the code and its documentation promise of them.

`dafny verify dfyconfig.toml` checks everything. Each file is one module; the
code's loops and mutable objects are methods and classes, its expressions are
functions. Most methods are proved against a statement that does not follow
their loop. The loops over a format (`Chunked.DecodeBody`, `LogoDb.EntriesAt`,
`LogoDb.FieldsAt`, `Markers.Emitted`) are proved against a recursive form of
themselves, and lemmas then say of that form what the format
promises.

| module | what it models |
|---|---|
| `ProcRead`, `FedLines`, `StdinWatch` | the line splitter that streams any input through one fixed buffer, what it feeds of lines that were written, and the size commands read through it |
| `Surface`, `Luminance`, `Painting`, `Adapt`, `Ansi` | HSL and back, relative luminance and contrast, the two bisections, how near to its target a colour is painted, the affine palette map, the colour escape printed and parsed |
| `ShareWidth`, `WrapWords`, `FitRow` | the surplus allocator, the word wrapper, the shed-order row fitter and the host banner |
| `Frame`, `CoreCells`, `Sizes` | predicted frame height and process budget against the renderer, the text of the core rows, and that of a process row |
| `Chunked`, `LogoDb`, `Markers`, `PidStat` | chunked bodies, the logo database with its writer, colour markers, `/proc/<pid>/stat` and the inline process name |
| `Sampler`, `History`, `Braille`, `Diag` | the process sampler over a run, the sample ring and the braille graph of it, the signal handshake of two threads |
| `Utf8`, `Text`, `Sorting`, `Wrappers`, `Basics` | what these need of the standard library |

How the source's terms are rendered: `usize`, `u64` and the like are natural
numbers with their limits written out where the code meets them (parsing,
saturation, length bytes). A `str` is a sequence of Unicode scalar values and its bytes are
the UTF-8 encoding of section 3 of RFC 3629, modelled byte for byte. `f32` and
`f64` are exact reals, with every tolerance and constant kept. `powf(2.4)` is
any function whose value is non-negative and whose fifth power is its
argument's twelfth, which is what 2.4 = 12/5 means. A reader is a byte string
with an arbitrary plan of read sizes and failures, so a statement about every
`Reader` is a statement about every way a pipe or a pseudofile can cut its data.

## Where the code does less than is said of it

- `adapt` says it preserves the order of the roles and their relative spacing.
  The target luminances keep the order exactly when the background is dark or
  the margined threshold is above zero (`Adapt.OrderIsKept`). What is painted is
  within 0.0112 of its target, a step of one byte, where the target is a
  luminance a colour can have (`Painting.PaintedIsNear`), so roles whose targets
  are two such steps apart are painted in order (`Adapt.PaintedOrderIsKept`).
  Two families of backgrounds fall outside that:
  - on a light one whose margined threshold is negative, every role of a palette
    that is not left alone is painted all but black, below a luminance of 0.0005
    (`Adapt.DimLightBlackens`). `#777777` at 4.5 is one, as soon as some role is
    brighter than 0.003 (`Adapt.MiddleGreyBlackens`);
  - on a dark one whose margined threshold is above 0.34, the brightest targets
    pass 1 (`Adapt.TargetsAreLuminances` has the exact condition) and those roles
    are painted all but white (`Adapt.DimDarkWhitens`). On `#404040` at 4.5, a
    palette of black, yellow, white and any other roles has its yellow and its
    white both painted `#FFFFFF` (`Adapt.DarkGreyWhitens`).
- That every target reaches 1.05 times the ratio has the same kind of exact
  condition (`Adapt.EveryTargetMeets`).
- `SIZE_MAX` is documented as where a size outgrows its column. The exact bound
  is 9999.95 TiB (`Sizes.SizeFitsColumn`), and `SIZE_MAX` itself still fits
  (`Sizes.SizeMaxFitsColumn`).
- `strip_color_markers` repeats text before a marker that opens and does not
  close. It deletes exactly the closed markers if and only if each such marker
  stands at the start of the line or right after a closed one
  (`Markers.StripsExactly`, `Markers.UnclosedMarkerRepeats`).
- `take_request` may return the number and name of the signal before, when it
  runs inside `note_signal`, and spends the new request doing so
  (`Diag.NumberIsLatest`, `Diag.NameIsLatest`, `Diag.PollDuringNoteIsStale`).
- Frame height and renderer measure the core index differently when core
  numbers have gaps. The frame is as tall as predicted exactly when the grid
  sized for the largest core number fills as many rows as the grid sized for the
  last core's position (`Frame.FrameHeight`, `Frame.GridsAgree`), and a frame
  that comes out taller is given (`Frame.SparseCoresOutgrowThePrediction`).
- The columns of the core rows are sized for temperatures of two characters. A
  third one, as in Fahrenheit, closes the gap to the next cell, and no more than
  that (`CoreCells.CellLeavesGap`). A row keeps a column and a last gap free that
  it does not always need: two cells that would fill 28 columns exactly are put
  on two rows (`Frame.RoomToSpare`).
- `fit_banner` keeps two machines apart only as far as the kept tail does, and a
  name that spells another's banner is shown as that one
  (`FitRow.BannersCollide`). `alpha-web-01` and `beta-web-01` are one banner in
  six cells (`FitRow.TailsCollide`). Names without an at sign or an ellipsis do not
  spell each other (`FitRow.PlainNamesDoNotSpell`).
- `truncate_name` overruns a width below three, where its three dots do not fit
  (`Sizes.TruncateName`); no row of a table asks for one.

## Model

| member | source | states |
|---|---|---|
| ProcRead.ForEachLineIn | crates/agent/src/proc_read.rs:51-91 | for every input, buffer of one byte or more and cutting into reads: the fed lines are the newline-split parts that fit and are UTF-8, in order, and the answer says whether there was input; a failed read answers false, having fed exactly the lines completed before it, a prefix of them |
| FedLines.LinedIsFed | crates/agent/src/proc_read.rs:51-91 | texts without newlines, written one a line and each shorter than the buffer, are fed exactly; bytes between them that are too many or no UTF-8 add nothing |
| FedLines.UnendedIsFed | crates/agent/src/proc_read.rs:65-70 | the newline after the last text may be missing |
| FedLines.FeedWritten | crates/agent/src/proc_read.rs:51-91 | the same of the splitter itself, however the input is cut into reads; a failed read has fed the first of the texts |
| ProcRead.FedIsStreamed | fuzz/fuzz_targets/fuzz_lines.rs:36-47 | the split-then-filter reference and the byte-at-a-time view of complete lines and unfinished tail are the same lines |
| ProcRead.CompleteIsPrefixOfFed | crates/agent/src/proc_read.rs:61-63 | what has been fed when a read fails is the start of what the whole input would feed |
| ProcRead.FeedEndedLines | crates/agent/src/proc_read.rs:72-80 | every line that ends within the held bytes is fed, the first not if it is being skipped, and no newline is left after `start` |
| ProcRead.FeedAndShift | crates/agent/src/proc_read.rs:81-89 | the unfinished line is kept at the front with room left to read, or dropped whole and skipped when it fills the buffer |
| ProcRead.Reader.Read | crates/agent/src/proc_read.rs:61-64 | an arbitrary reader, always called with room, answers zero bytes exactly at the end of its data |
| StdinWatch.ReadCommands | crates/agent/src/stdin_watch.rs:77-83 | on reaching the end the panel holds the last size stated by a part shorter than the buffer, whatever the chunking |
| StdinWatch.LastSizeIsLastStated | fuzz/fuzz_targets/fuzz_lines.rs:60-68 | the last size among the fed lines is the last one among the raw parts that are short enough and state one |
| StdinWatch.ParseInvertsSizeText | crates/agent/src/stdin_watch.rs:55-71 | the agent reads back every positive size the client writes, newline or not, and a zero states nothing |
| StdinWatch.OtherWordingStatesNothing | crates/agent/src/stdin_watch.rs:62-71 | only three words, the first `size` and the others numbers from 1 to 65535, state a size |
| Text.ParseTakesNumbers | crates/agent/src/stdin_watch.rs:62-71 | a number may begin with a plus sign, has a digit, and is nothing else |
| StdinWatch.UnpackInvertsPack | crates/agent/src/stdin_watch.rs:33-50 | get undoes set for every pair of sizes but the all-zero one, which means nothing said |
| StdinWatch.PanelSize.Set | crates/agent/src/stdin_watch.rs:38-41 | after set, the panel says those columns and lines together |
| StdinWatch.PanelSize.Get | crates/agent/src/stdin_watch.rs:33-36 | get answers what was last said |
| StdinWatch.ClientSizesReachThePanel | crates/agent/src/stdin_watch.rs:52-83 | of any run of positive sizes a client writes, the last is the one the agent's reading ends with |
| StdinWatch.WatchClient | crates/agent/src/stdin_watch.rs:52-83 | however the pipe cuts what a client writes, an agent that reads to the end is left with the client's last size |
| Utf8.DecodeInvertsEncode | crates/agent/src/proc_read.rs:52-56 | the bytes of any text decode to that text |
| Utf8.EncodeInvertsDecode | crates/agent/src/proc_read.rs:52-56 | bytes that decode at all are the encoding of what they decode to |
| Utf8.ByteForms | crates/agent/src/proc_read.rs:52-56 | the bytes of a character are those of the table in section 3 of RFC 3629 |
| Utf8.LossyReplaces | crates/multitop/src/fetch_render.rs:54-91 | an ill-formed byte between texts becomes one replacement character |
| Surface.FromHslInvertsHsl | crates/agent/src/surface.rs:236-292 | every 24-bit colour comes back from HSL byte for byte |
| Surface.FromHslInvertsToHsl | crates/agent/src/surface.rs:236-292 | in exact reals, any channels that tie or lie further apart than the tie epsilon come back, in all six sectors, at ties and at greys |
| Surface.FromHslIsMonotone | crates/agent/src/surface.rs:269-292 | for a fixed hue and saturation no channel falls as lightness rises |
| Surface.LightnessEnds | crates/agent/src/surface.rs:269-292 | lightness 0 is black and 1 is white, whatever the hue and saturation |
| Surface.HslInRange | crates/agent/src/surface.rs:229-265 | saturation and lightness of any colour are between 0 and 1 |
| Surface.ToByteIsNearest | crates/agent/src/surface.rs:269-292 | a channel is painted as the nearest byte |
| Luminance.LinIsMonotone | crates/agent/src/surface.rs:295-305 | gamma expansion never falls from byte to byte, across the knee included |
| Luminance.LinOfByte | crates/agent/src/surface.rs:295-305 | gamma expansion is the straight line up to byte 10 and the 2.4th power above |
| Luminance.LuminanceRange | crates/agent/src/surface.rs:204-218 | black has luminance 0, white 1, every colour between |
| Luminance.PrimaryShares | crates/agent/src/surface.rs:204-218 | green outshines red and red blue at every byte, and full they are 0.7152, 0.2126 and 0.0722 |
| Luminance.ContrastScale | crates/agent/src/surface.rs:220-227 | contrast is the same both ways and runs from 1 to 21, which black and white reach |
| Luminance.AtIsMonotone | crates/agent/src/surface.rs:412-418 | luminance never falls as lightness rises at a fixed hue and saturation, which makes the search well-posed |
| Luminance.BisectLightness | crates/agent/src/surface.rs:377-410 | what is returned passes the ratio inside the interval; when passing is one-sided, no passing lightness is closer to the original by more than 2^-20 of the interval, and nothing returned means none passes further than that from the far end |
| Luminance.FailureIsOneSided | crates/agent/src/adapt.rs:65-78 | from a colour that fails the ratio, passing is one-sided on the way the search goes, so the bisection's promise always applies |
| Luminance.EnsureContrast | crates/agent/src/adapt.rs:65-80 | a colour that reads is kept; otherwise the answer keeps hue and saturation, reaches the ratio and is within 2^-20 of the interval of the smallest adjustment; no answer means the interval is empty, or nothing in it reads but within that of its far end |
| Luminance.AtLuminance | crates/agent/src/surface.rs:419-444 | the colour at the target keeps hue and saturation and is within the tolerance, or in a lightness bracket of at most 2^-18 whose ends straddle the target |
| Luminance.HalvedSteps | crates/agent/src/surface.rs:61-75 | twenty and eighteen halvings leave 1/1048576 and 1/262144 of an interval |
| Painting.PaintedIsNear | crates/agent/src/surface.rs:419-444 | what is painted for a target is within one byte step of it in luminance; beyond black or white it is all but black or white, and exactly that from the tolerance on |
| Painting.PowStep | crates/agent/src/surface.rs:295-305 | the gamma curve never rises more than three times as fast as its argument |
| Painting.ColourStep | crates/agent/src/surface.rs:61-75 | two lightnesses of the bracket the search ends in differ by at most one byte in each channel |
| Adapt.ThresholdIsRatio | crates/agent/src/adapt.rs:179-199 | a luminance is past the closed-form threshold exactly when it is on the right side of the background and reaches the ratio |
| Adapt.IdentityWhenLegible | crates/agent/src/adapt.rs:209-239 | a palette is left alone exactly when every role, on the right side of the background, already reaches the unmargined ratio |
| Adapt.TargetIsAffine | crates/agent/src/adapt.rs:241-257 | differences of targets are differences of luminances times one factor for the palette |
| Adapt.OrderIsKept | crates/agent/src/adapt.rs:154-159 | the targets of two roles keep the order of their luminances exactly when the background is dark or the margined threshold is above zero |
| Adapt.EveryTargetMeets | crates/agent/src/adapt.rs:241-257 | every target reaches 1.05 times the ratio exactly when the background is dark or the margined threshold is not negative |
| Adapt.ConstrainedEndLands | crates/agent/src/adapt.rs:244-257 | the darkest role lands on the threshold on a dark background; on a light one the brightest does exactly when the luminances span the epsilon or the map is flat |
| Adapt.AwayFromBackground | crates/agent/src/adapt.rs:241-257 | a palette that is not left alone has no role sent towards its background |
| Adapt.EndsStand | crates/agent/src/adapt.rs:241-248 | the constrained end goes to the threshold; the other stays exactly when it clears the threshold by a factor of 0.34, and else goes just that far |
| Adapt.TargetsAreLuminances | crates/agent/src/adapt.rs:241-257 | every target is between 0 and 1 exactly when, on a light background, the margined threshold is not negative, and on a dark one the map stays below white |
| Adapt.DimLightBlackens | crates/agent/src/adapt.rs:195-257 | on a light background with a negative margined threshold every role of a palette not left alone is painted below luminance 0.0005 |
| Adapt.DimDarkWhitens | crates/agent/src/adapt.rs:195-257 | on a dark background every role whose target passes 1 is painted above luminance 0.9995, and there is one once the roles span the epsilon and the margined threshold passes 0.34 |
| Adapt.PaintedOrderIsKept | crates/agent/src/adapt.rs:154-159 | two roles whose targets lie between 0 and 1 and, by the slope of the map, two byte steps apart are painted in the order of their luminances |
| Adapt.MiddleGreyBlackens | crates/agent/src/adapt.rs:195-257 | on `#777777` at 4.5 a palette with one role brighter than 0.003 is not left alone, its targets are in reverse order, and all of it is painted below luminance 0.0005 |
| Adapt.DarkGreyWhitens | crates/agent/src/adapt.rs:195-257 | on `#404040` at 4.5, in a palette that holds black, yellow and white, yellow and white are both painted white |
| Adapt.AdaptPalette | crates/agent/src/adapt.rs:166-260 | no answer exactly when some escape is no colour; else every role is left alone, or painted for its target under the one fit over the palette's own extremes; a palette whose roles the epsilon tells apart and that is not left alone is led away from its background, its constrained end to the threshold and its other end nowhere if it clears 0.34 of the way and else as far as that; and on a background that leaves no room for it, it is all but black, or has a role all but white |
| Ansi.FromAnsi | crates/agent/src/surface.rs:167-202 | answers a colour exactly when the first marker is followed by three closed components of one to three digits that fit a byte and nothing but an `m` |
| Ansi.Component | crates/agent/src/surface.rs:337-368 | finds the component at a position when there is one, and only then |
| Ansi.AcceptedIsUnique | crates/agent/src/surface.rs:167-202 | no text holds two colours |
| Ansi.EscapeFor | crates/agent/src/palette_view.rs:265-275 | what is printed, after any text without a marker, reads back as its colour and as no other |
| Ansi.FromAnsiInvertsEscapeFor | crates/agent/src/palette_view.rs:44-49 | after any text without a marker, the printed escape reads back as its colour and no other |
| ShareWidth.Share | crates/multitop/src/layout.rs:79-120 | below the floor every cell gets its minimum; else the sum is what the budget leaves or all that is wanted, each cell is between its minimum and its want, and the shares are max-min fair |
| ShareWidth.FairShareIsUnique | crates/multitop/src/layout.rs:69-77 | the total, the bounds and fairness admit one answer only |
| ShareWidth.Round | crates/multitop/src/layout.rs:98-117 | one round gives each hungry cell its share or its need while the pool lasts, conserves the total, empties the pool some, and lists who is hungry still |
| ShareWidth.SumOfParts | crates/multitop/src/layout.rs:79-120 | the total of a row is the total of its parts |
| WrapWords.Wrap | crates/multitop/src/layout.rs:281-305 | every word stays, in order; every line fits or is one word; no other split by that rule has fewer lines |
| WrapWords.GreedyIsShortest | crates/multitop/src/layout.rs:287-304 | a split whose every next word would not have fitted is as short as any |
| FitRow.Fit | crates/multitop/src/layout.rs:37-60 | chunks go whole, in the declared order, no more than it takes to fit, and all of them when nothing less does; the kept ones are listed in display order, and the row fits exactly when giving up the whole list would make it fit |
| FitRow.SheddingNarrows | crates/multitop/src/layout.rs:50-57 | giving up more chunks never makes a row wider |
| FitRow.UsedIsJoined | crates/multitop/src/layout.rs:37-48 | the width of a row is the length of the kept texts joined by separators |
| FitRow.DefaultIsNotNamed | crates/multitop/src/layout.rs:243-256 | the user `default`, in any of its spellings, and no user make one banner |
| FitRow.OthersAreNamed | crates/multitop/src/layout.rs:243-256 | any user of another length is named where there is room |
| FitRow.FitBanner | crates/multitop/src/layout.rs:243-270 | a banner never exceeds its budget, names the user exactly when there is a user to name and room for both, ends with as much of the host as there is room for, and begins with an ellipsis when the host is cut |
| FitRow.BannersCollide | crates/multitop/src/layout.rs:221-241 | any two hosts render alike exactly when they are one name, are both cut to the same tail, or one spells the other |
| FitRow.PlainNamesDoNotSpell | crates/multitop/src/layout.rs:221-241 | without at signs and ellipses no name spells another, so banners of two cells and more collide by equal tails only |
| FitRow.TailsCollide | crates/multitop/src/layout.rs:221-241 | two host names with one tail are one banner in six cells |
| Frame.ProcBudget | crates/agent/src/render.rs:150-177 | the budget is the largest number of processes that fits below the frame's own rows, and a positive one fills the panel |
| Frame.BudgetIsUnique | crates/agent/src/render.rs:145-150 | there is one such budget |
| Frame.Render | crates/agent/src/render.rs:341-449 | the frame is its own rows and then the table of as many processes as the budget allows; where the grids agree it is as tall as predicted, fits the panel unless its own rows do not, and fills it when processes suffice; each core row's cells fit their columns with a gap, the row fits the panel once one cell fits beside the label, and one more column would not have gone in; and each height shows the rows it calls for |
| Frame.PushCoreRows | crates/agent/src/render.rs:243-302 | the core rows of the drawn grid are appended |
| Frame.PushProcTable | crates/agent/src/render.rs:304-337 | rule, header and body are appended, or nothing for no process |
| Frame.OwnRowsAreHeight | crates/agent/src/render_layout.rs:148-164 | the rows drawn without the table number the predicted height exactly when the grid sized for the largest core number fills as many rows as the one sized for the last position |
| Frame.FrameHeight | crates/agent/src/render_layout.rs:129-164 | the lines emitted are the predicted height plus the table's exactly when the grids agree, as they do for core numbers that do not widen the index |
| Frame.FrameFits | crates/agent/src/render.rs:145-177 | a frame is never taller than the panel unless its own rows are, and a positive budget with enough processes fills the panel exactly |
| Frame.SparseCoresOutgrowThePrediction | crates/agent/src/render_layout.rs:137-138 | cores 0 and 100 in 20 columns make a frame one line taller than predicted |
| Frame.EachProcOnce | crates/agent/src/render.rs:319-336 | every process of the table stands on one row, on one side, and no other does |
| Frame.CoreRowsTile | crates/agent/src/render.rs:287-301 | the core rows run through the cores in order without gap or overlap |
| Frame.ShownByHeight | crates/agent/src/render.rs:341-449 | one or two lines show the header and a note, three or four a summary, up to seven no table, and twelve or an unknown height everything |
| Frame.GridHoldsCells | crates/agent/src/render_layout.rs:17-43 | a column is one wider than the widest cell, and as many stand in a row as fit after the label with a column to spare, or one |
| Frame.MeterFillsPanel | crates/agent/src/render.rs:398-420 | with the bar length for its width, a memory or disk row fills the panel exactly from 36 columns on |
| Frame.RoomToSpare | crates/agent/src/render_layout.rs:35-36 | two cells that fill 28 columns exactly are put on two rows |
| CoreCells.CellLeavesGap | crates/agent/src/render.rs:263-285 | the text of a core's cell leaves a gap in its column exactly when its temperature has two characters at most |
| CoreCells.RowWidth | crates/agent/src/render.rs:287-301 | a core row is as wide as its label, its columns and the text of its last cell |
| CoreCells.RowFits | crates/agent/src/render.rs:287-301 | it is no wider than the panel once one cell fits beside the label |
| Sizes.SizeFitsColumn | crates/agent/src/fmt.rs:18-45 | a printed size has at most nine characters exactly below 9999.95 TiB, rounding up included |
| Sizes.SizeMaxFitsColumn | crates/agent/src/fmt.rs:18-45 | the documented limit is still within the column |
| Sizes.SizeIsNear | crates/agent/src/fmt.rs:18-45 | a printed size is the value to the nearest tenth of the largest unit it holds, at least 1.0 of it, and exact below 1024 |
| Sizes.CellShows | crates/agent/src/render.rs:204-228 | a process cell shows pid, name, share and memory in their columns, each aligned |
| Sizes.NamesGetTheRest | crates/agent/src/render.rs:173-190 | with one column more for names a row would not fit, unless names are at their widest |
| Sizes.RowsFitPanel | crates/agent/src/render.rs:181-228 | at 40 columns and more no process row is wider than the panel |
| Sizes.TruncateName | crates/agent/src/render.rs:195-202 | a short name is kept; a long one keeps its start, ends in three dots and is as wide as asked, or three wide when asked for less |
| Chunked.DecodeChunked | crates/agent/src/docker_transport.rs:145-175 | the loop computes the recursive decoding of the body |
| Chunked.DecodeInvertsChunks | crates/agent/src/docker_transport.rs:143-175 | decoding undoes section 7.1 of RFC 9112 for any chunks, any spelling of their sizes, any extensions without CRLF, any trailer |
| Chunked.DecodedIsNoLonger | crates/agent/src/docker_transport.rs:165-172 | no body yields more bytes than it has |
| Chunked.TruncationDecodesToPrefix | crates/agent/src/docker_transport.rs:165-172 | what arrived of a body decodes to a prefix of the whole decoding |
| Chunked.CutBodyYieldsArrived | crates/agent/src/docker_transport.rs:165-172 | a body cut inside a chunk decodes to all the data that arrived |
| LogoDb.PackDb | scripts/repack_logos.py:32-70 | writes the database when every count and size fits its field, and raises otherwise |
| LogoDb.FormatOfOneEntry | scripts/repack_logos.py:32-70 | the twenty bytes of a database of one small entry |
| LogoDb.ParseDb | crates/multitop/src/fetch_render.rs:41-95 | the cursor loop reads what the format says stands there, and panics exactly where it runs off the end |
| LogoDb.EntryReadsBack | crates/multitop/src/fetch_render.rs:54-91 | one written entry reads back, and the cursor has landed on the stated entry end |
| LogoDb.ParseInvertsPack | scripts/repack_logos.py:32-70 | every database that can be written reads back entry for entry, its texts cut to 255 bytes and its lines stripped |
| LogoDb.StrippedDatabase | crates/multitop/src/fetch_render.rs:78-91 | with no text over 255 bytes, the database comes back with exactly the closed markers deleted if and only if every unclosed one stands at the start of its line or right after a closed one |
| LogoDb.LosslessDatabase | scripts/repack_logos.py:32-70 | with no text over 255 bytes and no marker, what is read is what was written |
| Markers.StripColorMarkers | crates/multitop/src/fetch_render.rs:109-137 | the loop's output, unclosed markers included |
| Markers.StripsExactly | crates/multitop/src/fetch_render.rs:115-136 | exactly the closed markers are deleted if and only if every unclosed one stands at the start of the line or right after a closed one |
| Markers.ClosedMarkerVanishes | crates/multitop/src/fetch_render.rs:109-137 | `${c`, any digits and `}` are deleted, and the text before and after goes on |
| Markers.EmittedLength | crates/multitop/src/fetch_render.rs:122-135 | the output exceeds the stripped line by exactly the text repeated at unclosed markers |
| Markers.ClosedRepeatsNothing | crates/multitop/src/fetch_render.rs:115-136 | a line whose markers all close repeats nothing |
| Markers.UnclosedMarkerRepeats | crates/multitop/src/fetch_render.rs:122-130 | `ab${c1x` comes out as `abab${c1x` |
| PidStat.NewProcName | crates/agent/src/proc_name.rs:29-41 | the array holds the longest prefix of whole characters within 32 bytes, and zeros after it |
| PidStat.BoundaryEndsPrefix | crates/agent/src/proc_name.rs:31-33 | a byte position is a character boundary exactly when a whole number of characters ends there |
| PidStat.ParseInvertsStatLine | crates/agent/src/proc_sys.rs:41-71 | whatever the name holds, a printed line reads back as its pid, its name cut to fit, and its fields |
| PidStat.FiguresReadBack | crates/agent/src/proc_sys.rs:50-70 | the four figures come from their fields, the ticks the sum or, past 64 bits, the largest value |
| PidStat.RefusedFields | crates/agent/src/proc_sys.rs:50-70 | a line is refused exactly when it has fewer than 22 fields or one of its times is no number of 64 bits |
| Sampler.ProcSampler.Prime | crates/agent/src/proc.rs:308-320 | the baseline is exactly the scan |
| Sampler.ProcSampler.TopInto | crates/agent/src/proc.rs:324-395 | afterwards the baseline is exactly this scan; the rows are the first n in the order of figure, memory and pid, each with its process's name, its memory and its percentage of a core since the scan before |
| Sampler.ProcSampler.Forget | crates/agent/src/proc.rs:350-354 | no baseline of a process this scan did not see is left |
| Sampler.TopIsUnique | crates/agent/src/proc.rs:356-380 | with distinct pids there is one such table, whatever the unstable sort does |
| Sampler.CpuComesFromPreviousScan | crates/agent/src/proc.rs:335-340 | a figure is above zero exactly when time has passed and the scan before held the process with the same start time and fewer ticks |
| Sampler.FigureIsShare | crates/agent/src/proc.rs:335-340 | the figure of a process times the ticks that went by is 100 times the ticks it ran, if it was in the scan before, and zero otherwise |
| Sampler.FullCoreReadsHundred | crates/agent/src/proc.rs:335-340 | a process that ran in every tick reads exactly 100 |
| Sampler.TopOverTicks | crates/agent/src/proc.rs:324-395 | over any run of one sampler each tick's table is measured against the scan of the tick before and no older one, and the last scan is the baseline left |
| Sampler.FiguresComeFromPreviousScan | crates/agent/src/proc.rs:382-393 | a table holds the scan's processes that rank first, by name, memory and figure, and the figure times elapsed ticks is 100 times the ticks run, or zero when the scan before did not hold the process |
| Sampler.ProcSampler.FillNames | crates/agent/src/proc.rs:412-434 | the names are strictly increasing, non-empty, of the scan, and the least 2048 of them when there are more |
| Sampler.NamesSeenAreNames | crates/agent/src/proc.rs:412-434 | the names are the non-empty ones of the scan, the full name where there is one |
| Sampler.AtMostIsDictionaryOrder | crates/agent/src/proc.rs:412-434 | their order is that of a dictionary |
| History.Series.Push | crates/multitop/src/history.rs:31-45 | a series keeps the newest 4096 samples, a finite one that is not negative as it is and any other as zero |
| History.Series.Tail | crates/multitop/src/history.rs:56-59 | the newest n samples, oldest first |
| History.PushedIsNewest | crates/multitop/src/history.rs:31-45 | after any run of pushes the series is the newest 4096 clamped readings |
| History.StoredAsRead | crates/multitop/src/history.rs:31-45 | a finite reading that is not negative is stored as it is, whatever comes after it |
| Braille.BrailleRows | crates/multitop/src/graphs.rs:69-104 | every glyph is braille, and by Unicode's own numbering of the dots one is lit exactly when its column holds a sample tall enough, right-aligned |
| Braille.SettingOneDot | crates/multitop/src/graphs.rs:38-44 | no two dots share a bit |
| Braille.GlyphRaises | crates/multitop/src/graphs.rs:38-44 | a cell's dots are the ones its glyph raises by Unicode's numbers, 1, 2, 3, 7 down the left and 4, 5, 6, 8 down the right |
| Braille.LeftBars | crates/multitop/src/graphs.rs:38-44 | bars of one to four dots on the left are U+2840, U+2844, U+2846 and U+2847 |
| Braille.BarSteps | crates/multitop/src/graphs.rs:46-60 | a bar is h dots or taller exactly when h - 1 full steps of the scale lie below its value |
| Braille.DotsForIsMonotone | crates/multitop/src/graphs.rs:52-60 | a larger value never gets a shorter bar and a full-scale one gets every dot |
| Braille.DotsFor | crates/multitop/src/graphs.rs:46-60 | a bar is as tall as the graph at most, and a sample above zero always shows |
| Braille.GraphOfRun | crates/multitop/src/graphs.rs:69-104 | over any run of pushes, the dot in a column is lit exactly when the reading that many places from the newest is kept, finite, and above as many full steps of the scale as lie below the dot |
| Braille.DrawRun | crates/multitop/src/graphs.rs:69-104 | a series fed any run of readings, read back and drawn, lights a dot exactly when the reading that many places from the newest is kept and tall enough |
| Diag.EveryRun | crates/multitop/src/diag.rs:353-362 | in every interleaving, requests taken never exceed signals noted, and the signal files are numbered 0, 1, 2 and on, no two alike |
| Diag.RunKeepsInv | crates/multitop/src/diag.rs:205-226 | the relation of counters, flags and history holds after every step of either thread |
| Diag.FlaggedSignalIsTaken | crates/multitop/src/diag.rs:213-220 | once a signal's flag is up, a poll after it consumes a request, whatever happens in between |
| Diag.NotedSignalIsTaken | crates/multitop/src/diag.rs:205-226 | in any run in which a signal is noted as far as its flag and the loop polls afterwards, a request is consumed after that |
| Diag.UndisturbedPollIsLatest | crates/multitop/src/diag.rs:217-226 | a poll with no note in progress and none beginning returns the latest signal's number and name |
| Diag.SettledPollSetsOut | crates/multitop/src/diag.rs:217-221 | a poll that finds a request with no note in progress is such a poll |
| Diag.NumberIsLatest | crates/multitop/src/diag.rs:205-226 | the number read is the latest signal's exactly when no note is in progress then, or there has been one signal only |
| Diag.NameIsLatest | crates/multitop/src/diag.rs:205-226 | the name read is the latest signal's exactly when it is stored, or is the same as the one before |
| Diag.PollDuringNoteIsStale | crates/multitop/src/diag.rs:205-226 | a run in which a poll inside a note takes the old number and name a second time |

## Left out

- Sockets, processes, directory walks, foreign calls and terminal drawing: a scan, a read and a lookup of `/proc/<pid>/comm` are parameters.
- Floating-point rounding: `f32` and `f64` are exact reals, so one-decimal printing rounds the exact quotient and adapted colours are judged by their target luminance, not after their bytes are rounded.
- The closure that `for_each_line_in` calls: the model returns its arguments as a list, in order, and `ReadCommands` acts on the list.
- The text of a frame line: a line is what it shows (which cores, which processes); its text is modelled for core, meter and process rows only, without colours, and with percentages and temperatures as printed.
- Wide characters: a name's width is its number of characters, as in the source.
- `fit_banner_styled` and the fullwidth glyphs it chooses: it doubles cells of what `fit_banner` fits.
- `find_logo`, `pick_lines`, `clean_patterns` and the compression of the logo database.
- The meters and memory, disk, network and temperature sampling: sums and field lookups.
- `mode`, `health`, `filter`, `launchd`, `background` and the configuration screens: finite case checks.
- The `vte` escape machine, `proto`, `exec`, `vault` and `ssh` are not part of this model.
- Weaker memory orders in the handshake: the source's relaxed accesses are taken in one total order.
- ShareWidth.Share: the early `break` of the source's loop is not modelled, because the pool is empty where it is reached and the loop ends there anyway.
- Frame.FrameFits: requires the two grids to agree, because predictor and renderer disagree otherwise; `Frame.FrameHeight` has the exact condition.
- Luminance.AtLuminance: for a target below 0 or above 1, which no colour has, the bracket ends at black or white.
- Sampler.ProcSampler.TopInto: requires distinct pids in one scan, as the kernel lists them.
