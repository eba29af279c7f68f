# AceTree image-name logic in Dafny

This project models `ImageNameLogic`, AceTree's engine for image-name conventions, and proves properties of the model. The engine is a set of static string functions over image paths. They handle four layouts:

- 8-bit slices: `.../image/tif/<prefix>-t<NNN>-p<NN>.tif`;
- 16-bit stacks: `<prefix>_t<N>.TIF`;
- iSIM stacks: one flat directory whose names differ in the digit after `_w`;
- diSPIM stacks: fused `Color1/` and `Color2/` trees, or single views under `### nm/` wavelength directories.

The engine builds names in these layouts, parses them (slice test, time, prefix), and finds the second colour channel of an image. Only two things touch the filesystem: "does this path exist" and "list this directory".

Modules, one per part of the source:

- `JavaStrings` (`java_strings.dfy`) models the `String`, `Character` and `Integer` calls the code relies on, over `seq<char>`:
  - `indexOf` and `lastIndexOf` return -1 when nothing matches; `contains`, `startsWith`, `endsWith`;
  - `charAt` and `substring` return `Outcome.Throws(StringIndexOutOfBounds)` where Java would throw;
  - `Integer.parseInt` returns `Throws(NumberFormat)` where Java would throw, and `Integer.toString` is modelled over 32-bit ints;
  - `isDigit`, `getNumericValue` and the case mappings are ASCII only.
- `FileSystemProbe` (`file_system.dfy`) is the filesystem as a snapshot passed in as a parameter. The snapshot is a set of existing paths plus, for each directory that `listFiles()` can read, its entries in listing order (name, absolute path, is-directory).
- `ImageNames` (`image_names.dfy`) holds the naming constants, the builders (`formatTimeInteger`, `formatPlaneInteger`, the `appendTime…` family) and the parsers (`doesImageFollow8bitDeletedConvention`, `isSliceImage`, `extractTimeFromImageFileName`, `getImagePrefix`). The parsers are specification functions, and the source's loops are methods proved equal to them.
- `SliceChannelResolver` (`slice_channel.dfy`) models `findSecondColorChannelFromSliceImage`.
- `BitDepthPathMapper` (`bit_depth.dfy`) models `reconfigureImagePathFrom8bitTo16bit`, together with its round trip against the builders and the finding below.
- `ISimChannelResolver` (`isim_channel.dfy`) models `findSecondiSIMColorChannel`.
- `DiSpimChannelResolver` (`dispim_channel.dfy`) models `findSecondDiSPIMColorChannel`, both the fused and the single-view layout.
- `NameRoundTrips` (`name_round_trips.dfy`) proves that the parsers read back what the builders write: the time, the slice verdict and the prefix.

Quirks of the code are modelled as written:

- `BACKSLASH` is the one-character string `"` (a double quote), not a backslash.
- `fileNameNoPlane` drops the character before `-p`.
- A time with no leading zero leaves the 8-bit rewrite's time start on `-t`; see Findings.
- `isSliceImage` tries `_p` only when the last segment has no `-` at all.
- Single-view matching compares the lower-cased entry name with the image's own directory name, which is not lower-cased.
- `getImagePrefix` on a slice name with no `-t` returns its first character.

Where the documentation in the source, or the behaviour a caller might expect, differs from the code, the model follows the code:

- The Javadoc of `reconfigureImagePathFrom8bitTo16bit` (`src/org/rhwlab/image/ParsingLogic/ImageNameLogic.java:109`) says it returns the original path if a failure occurs, and a caller might expect the same fail-soft answer (the input or `""`) from the other methods. The code throws on several inputs instead, and the model returns `Throws` there:
  - `substring(-1)` in `extractTimeFromImageFileName`, `getImagePrefix` and `findSecondiSIMColorChannel` when `/` or `_s` is absent;
  - `charAt` past the end in the 8-bit rewrite and in the fused diSPIM swap;
  - `parseInt` of an empty or non-digit run;
  - `substring(b, e)` with `b > e`.
- The Javadoc of `isSliceImage` (`src/org/rhwlab/image/ParsingLogic/ImageNameLogic.java:431`) says it checks for a plane identifier in the file name, so a caller might expect `isSliceImage("foo-p03.tif")` to be true. The code looks only at the text from the last `/` (or `"`), so a name with neither gives false (`NotSliceWithoutDelimiter`).
- A caller might expect `extractTimeFromImageFileName("prefix_t007.TIF")` to be 7, since the name follows the `_t###.TIF` convention of `src/org/rhwlab/image/ParsingLogic/ImageNameLogic.java:519`. The code throws, because the name has no `/` (`TimeOfPath`).
- A caller might expect either `-p` or `_p` to mark a slice. The code tries `_p` only when the last segment has no `-`.

## Model

| member | source | states |
|---|---|---|
| SliceChannelResolver.FindSecondColorChannelFromSliceImage | src/org/rhwlab/image/ParsingLogic/ImageNameLogic.java:57-80 | The result is the input, or a path that exists. It differs from the input exactly when the input is non-empty, contains `/tif/` (tried first) or `/tifR/`, and its copy with the first occurrence swapped for the other directory exists. In that case it is that copy. |
| SliceChannelResolver.SliceChannelsArePaired | src/org/rhwlab/image/ParsingLogic/ImageNameLogic.java:57-80 | Take a path with exactly one `/tif/` and no `/tifR/`. Its `/tifR/` sibling has no `/tif/`, and swapping the sibling back gives the original. Each path resolves to the other whenever the other exists. |
| BitDepthPathMapper.FileNameAfterDelimiter | src/org/rhwlab/image/ParsingLogic/ImageNameLogic.java:116-130 | A file name is found exactly when the last `/` or the last BACKSLASH lies past index 0. It is the suffix that starts right after a `/` or BACKSLASH. When the last `/` lies past index 0, the file name holds no `/`. Otherwise it holds no BACKSLASH. |
| BitDepthPathMapper.SplitEightBitName | src/org/rhwlab/image/ParsingLogic/ImageNameLogic.java:116-176 | When every stage of the parse succeeds, `-p` lies past index 0 inside the file name, and the last `-t` lies past index 0 and inside the file name. |
| BitDepthPathMapper.SkipZeros | src/org/rhwlab/image/ParsingLogic/ImageNameLogic.java:169-171 | The zero-skipping loop stops at the first non-`0` character from the start. It throws exactly when only zeros remain to the end. |
| BitDepthPathMapper.TimeDigitsStart | src/org/rhwlab/image/ParsingLogic/ImageNameLogic.java:164-172 | The time start is never before the `-t` marker. It stays on the marker when the character after `-t` is not `0`. When that character is `0`, it is the first non-`0` character after `-t`. It throws exactly when `charAt(tIdx+2)` is past the end, or when that character is `0` and the zeros run to the end. |
| BitDepthPathMapper.Reconfigured8bitTo16bit | src/org/rhwlab/image/ParsingLogic/ImageNameLogic.java:112-192 | The rewrite throws only StringIndexOutOfBounds. It throws exactly when the parse succeeds but the time start fails or lies past `-p`. A changed path starts with the text before `image/tif`, then the shared prefix with `_`, then `t`, and ends with the upper-cased extension. |
| BitDepthPathMapper.ReconfigureImagePathFrom8bitTo16bit | src/org/rhwlab/image/ParsingLogic/ImageNameLogic.java:112-192 | The method, with its zero-skipping loop, computes exactly `Reconfigured8bitTo16bit`. |
| BitDepthPathMapper.FindTimeDigitsStart | src/org/rhwlab/image/ParsingLogic/ImageNameLogic.java:164-172 | The `while` loop computes exactly `TimeDigitsStart`. |
| BitDepthPathMapper.ReconfigureEightBitName | src/org/rhwlab/image/ParsingLogic/ImageNameLogic.java:112-192 | Round trip with the 8-bit builder, for a prefix with no `-` or `/`, any plane and a time of at least 1. The rewrite of `root image/tif/pre-t<time>-p<plane>.tif` is `root pre_t<time>.TIF` below 100 and `root pre_t-t<time>.TIF` from 100 on. |
| BitDepthPathMapper.ReconfigureFindsSixteenBitStack | src/org/rhwlab/image/ParsingLogic/ImageNameLogic.java:112-192 | For 1 ≤ time < 100, the rewrite of the builder's 8-bit name is exactly the 16-bit builder's name for prefix `root pre_t`. |
| BitDepthPathMapper.ReconfigureKeepsTimeMarkerFrom100 | src/org/rhwlab/image/ParsingLogic/ImageNameLogic.java:164-178 | As written, for time ≥ 100 the rewrite gives `root pre_t-t<time>.TIF`. That is not the 16-bit builder's name for the same prefix and time. |
| BitDepthPathMapper.ReconfigureIntendedEightBitName | src/org/rhwlab/image/ParsingLogic/ImageNameLogic.java:164-178 | With the time start placed past `-t` and its zeros, every built 8-bit name (time ≥ 1) rewrites to `root pre_t<time>.TIF`. |
| BitDepthPathMapper.ReconfigureIntendedFindsSixteenBitStack | src/org/rhwlab/image/ParsingLogic/ImageNameLogic.java:164-178 | The corrected rewrite of every built 8-bit name (time ≥ 1) is the 16-bit builder's name for prefix `root pre_t`. |
| BitDepthPathMapper.IntendedDiffersOnlyWithoutPadding | src/org/rhwlab/image/ParsingLogic/ImageNameLogic.java:166-172 | The rewrite as written and the corrected rewrite differ only on paths whose character after `-t` exists and is not `0`. |
| BitDepthPathMapper.PaddedSliceExample | src/org/rhwlab/image/ParsingLogic/ImageNameLogic.java:613-630 | Prefix `/d/image/tif/p-t` with time 5 and plane 1 builds `/d/image/tif/p-t005-p01.tif`. |
| BitDepthPathMapper.UnpaddedSliceExample | src/org/rhwlab/image/ParsingLogic/ImageNameLogic.java:613-630 | Prefix `/d/image/tif/p-t` with time 100 and plane 1 builds `/d/image/tif/p-t100-p01.tif`. |
| BitDepthPathMapper.ReconfigurePaddedExample | src/org/rhwlab/image/ParsingLogic/ImageNameLogic.java:112-192 | `/d/image/tif/p-t005-p01.tif` rewrites to `/d/p_t5.TIF`. |
| BitDepthPathMapper.ReconfigureUnpaddedExample | src/org/rhwlab/image/ParsingLogic/ImageNameLogic.java:164-178 | `/d/image/tif/p-t100-p01.tif` rewrites to `/d/p_t-t100.TIF` as written, and to `/d/p_t100.TIF` corrected. |
| ImageNames.FormatTimeInteger | src/org/rhwlab/image/ParsingLogic/ImageNameLogic.java:617-630 | The time token is empty exactly below 1, is all digits, and has at least three characters from 1 on. |
| ImageNames.FormatPlaneInteger | src/org/rhwlab/image/ParsingLogic/ImageNameLogic.java:632-642 | The plane token is empty exactly below 1, is all digits, and has at least two characters from 1 on. |
| ImageNames.AppendTimeAndPlaneTo8BitTifPrefix | src/org/rhwlab/image/ParsingLogic/ImageNameLogic.java:613-615 | The 8-bit name starts with the prefix and ends in `.tif`. For times 1 to 999 and planes 1 to 99 it is exactly 11 characters longer than the prefix. |
| ImageNames.AppendTimeToSingle16BitTifPrefix | src/org/rhwlab/image/ParsingLogic/ImageNameLogic.java:604-611 | The name throws exactly for the empty prefix, and then only StringIndexOutOfBounds. Otherwise it starts with the prefix and ends in `.TIF` or `.tif`, in `.TIF` exactly when the prefix ends in `t`. |
| ImageNames.FormatTimeIntegerMeaning | src/org/rhwlab/image/ParsingLogic/ImageNameLogic.java:617-630 | The token is `""` below 1 and all digits. From 1 on its decimal value is the time, it starts with `0` exactly below 100, and it is exactly three characters long up to 999 and longer after. |
| ImageNames.FormatPlaneIntegerMeaning | src/org/rhwlab/image/ParsingLogic/ImageNameLogic.java:632-642 | The token is `""` below 1 and all digits. From 1 on its decimal value is the plane, it is exactly two characters long up to 99, and at most three characters long exactly up to 999. |
| ImageNames.SingleNameExtension | src/org/rhwlab/image/ParsingLogic/ImageNameLogic.java:604-611 | The name throws exactly for the empty prefix (`charAt(-1)`). Otherwise it starts with the prefix and the decimal time, and ends in `.TIF` exactly when the prefix ends in `t` and in `.tif` exactly when it does not. |
| ImageNames.AppendTimeToMultiple16BitTifPrefixes | src/org/rhwlab/image/ParsingLogic/ImageNameLogic.java:577-590 | The result is a new array of the same length. An empty prefix maps to `""`, and every other prefix maps to its single-prefix name. |
| ImageNames.DoesImageFollow8bitDeletedConvention | src/org/rhwlab/image/ParsingLogic/ImageNameLogic.java:424-428 | True exactly when `/image/tif/` occurs in the name. |
| ImageNames.IsSliceImage | src/org/rhwlab/image/ParsingLogic/ImageNameLogic.java:436-467 | The test throws only StringIndexOutOfBounds. It is false when the name has neither `/` nor BACKSLASH. When true, the last segment has `-p` at its last `-` or `_p` at its last `_`. |
| ImageNames.TimeFromFileName | src/org/rhwlab/image/ParsingLogic/ImageNameLogic.java:475-514 | The empty name has time -1, and a non-empty name with no `/` throws StringIndexOutOfBounds. |
| ImageNames.ExtractTimeFromImageFileName | src/org/rhwlab/image/ParsingLogic/ImageNameLogic.java:475-514 | The method computes exactly the three-grammar time function `TimeFromFileName`. |
| ImageNames.ReadSliceTime | src/org/rhwlab/image/ParsingLogic/ImageNameLogic.java:481-496 | The `-t…-p` branch computes `SliceNameTime`: -1 for a run shorter than three characters, else the run with up to two leading zeros dropped, parsed. |
| ImageNames.ScanDiSpimTime | src/org/rhwlab/image/ParsingLogic/ImageNameLogic.java:500-511 | The backward `for` loop computes `DiSpimNameTime`: the digits between the last `_` or `-` and the first `.tif`, parsed. It gives -1 when there is no delimiter. |
| ImageNames.NameTimeFallbacks | src/org/rhwlab/image/ParsingLogic/ImageNameLogic.java:481-513 | A name cut at its last `/` reads as -1 in three cases: its `-t`/`-p` run is shorter than three characters; it has no `_` or `-` before its `.tif`; or it matches none of the three grammars. |
| ImageNames.TimeOfPath | src/org/rhwlab/image/ParsingLogic/ImageNameLogic.java:475-479 | The empty name reads as -1, a name with no `/` throws, and any other name reads as the time of its segment from the last `/`. |
| ImageNames.ImagePrefix | src/org/rhwlab/image/ParsingLogic/ImageNameLogic.java:531-574 | The prefix reader throws only StringIndexOutOfBounds. It gives `""` for the empty name, and a prefix is never longer than the name. |
| ImageNames.DiSpimPrefix | src/org/rhwlab/image/ParsingLogic/ImageNameLogic.java:543-571 | The diSPIM reading throws only StringIndexOutOfBounds, and always throws for a name with no `/`. A prefix is never longer than the name. |
| ImageNames.GetImagePrefix | src/org/rhwlab/image/ParsingLogic/ImageNameLogic.java:531-574 | The method computes exactly `ImagePrefix`. |
| ImageNames.GetDiSpimPrefix | src/org/rhwlab/image/ParsingLogic/ImageNameLogic.java:543-571 | The diSPIM fallback, with its digit-checking loop, computes exactly `DiSpimPrefix`. |
| ImageNames.ScanDigits | src/org/rhwlab/image/ParsingLogic/ImageNameLogic.java:560-565 | The loop answers exactly whether every character is a digit. |
| ImageNames.DiSpimPrefixShape | src/org/rhwlab/image/ParsingLogic/ImageNameLogic.java:543-571 | A diSPIM prefix starts the name. A non-empty one ends in `_` or `-`, and only digits follow it up to the first `.tif`. |
| ImageNames.ImagePrefixShape | src/org/rhwlab/image/ParsingLogic/ImageNameLogic.java:531-574 | A prefix starts the name. A non-empty one ends in `-t`, `_t`, `_` or `-`, or is the first character of a name with no `-t` that the slice test accepts. |
| ISimChannelResolver.IsOtherChannel | src/org/rhwlab/image/ParsingLogic/ImageNameLogic.java:254-257 | An entry qualifies exactly when it starts with the text through `_w`, ends with the text from `_s`, and holds a digit different from the input's at the channel position. It throws exactly when the start and end match but the entry is too short for that position. |
| ISimChannelResolver.FirstOtherChannel | src/org/rhwlab/image/ParsingLogic/ImageNameLogic.java:253-262 | A non-empty result is the path of a qualifying entry with no qualifying entry before it. `""` means no entry qualifies. It throws only StringIndexOutOfBounds. |
| ISimChannelResolver.SecondISimChannel | src/org/rhwlab/image/ParsingLogic/ImageNameLogic.java:210-269 | The finder throws only StringIndexOutOfBounds. |
| ISimChannelResolver.SecondISimChannelEmpty | src/org/rhwlab/image/ParsingLogic/ImageNameLogic.java:210-265 | The finder gives `""`, not a throw, for an empty or missing image and for a name without `_w`. Given that the earlier guards pass, it also gives `""` for a non-digit after `_w`, for a path with no delimiter, and for a directory that cannot be listed. |
| ISimChannelResolver.SecondISimChannelSound | src/org/rhwlab/image/ParsingLogic/ImageNameLogic.java:210-269 | A non-empty result has a different digit at the input's channel position, and keeps the input's text up to that digit and from `_s` on. It is an entry of the listing of the input's directory. |
| ISimChannelResolver.SecondISimChannelThrows | src/org/rhwlab/image/ParsingLogic/ImageNameLogic.java:225-238 | The finder throws for an existing input that ends just after `_w`. It also throws for one with a digit after `_w` but no `_s`. |
| ISimChannelResolver.FindSecondISimColorChannel | src/org/rhwlab/image/ParsingLogic/ImageNameLogic.java:210-269 | The method, with its listing loop and early return, computes exactly `SecondISimChannel`. |
| ISimChannelResolver.SecondISimChannelExists | src/org/rhwlab/image/ParsingLogic/ImageNameLogic.java:251-262 | In a snapshot where listed entries exist, a non-empty result exists. |
| ISimChannelResolver.PairScan | src/org/rhwlab/image/ParsingLogic/ImageNameLogic.java:253-262 | In a directory that holds only the two channel stacks, the scan from one stack finds the other. |
| ISimChannelResolver.SecondISimChannelScans | src/org/rhwlab/image/ParsingLogic/ImageNameLogic.java:210-262 | For an existing image with a digit after `_w`, `_s` after it and a listed directory, the finder's answer is the scan of that directory. |
| ISimChannelResolver.ISimScanFindsTwin | src/org/rhwlab/image/ParsingLogic/ImageNameLogic.java:210-262 | Take an existing image and its twin, which differs only in the digit after `_w`, where the digit lies before `_s` and after the directory's delimiter. If the image's directory lists the twin and nothing else but the image, the finder returns the twin. |
| ISimChannelResolver.ISimChannelsArePaired | src/org/rhwlab/image/ParsingLogic/ImageNameLogic.java:210-262 | Under the same conditions, with both stacks existing and listed, each stack's second channel is the other. |
| DiSpimChannelResolver.FusedSwap | src/org/rhwlab/image/ParsingLogic/ImageNameLogic.java:310-331 | The swap throws exactly when `Color` ends the name, and gives `""` exactly when the character after the first `Color` is neither `1` nor `2`. Otherwise the result is the input with only that character changed, from `1` to `2` or from `2` to `1`. |
| DiSpimChannelResolver.FusedSwapInvolution | src/org/rhwlab/image/ParsingLogic/ImageNameLogic.java:310-331 | The swapped path still has its first `Color` at the same place, and swapping it again gives the original. |
| DiSpimChannelResolver.FusedChannelsArePaired | src/org/rhwlab/image/ParsingLogic/ImageNameLogic.java:305-331 | Applying the diSPIM finder twice to a fused image returns the image. |
| DiSpimChannelResolver.MatchInDir | src/org/rhwlab/image/ParsingLogic/ImageNameLogic.java:382-388 | A match is the path of the first entry whose lower-cased name equals the lower-cased image name. None means no entry matches. |
| DiSpimChannelResolver.SingleViewScan | src/org/rhwlab/image/ParsingLogic/ImageNameLogic.java:365-401 | A non-empty result is a file, with the image's name up to case, in a listed sibling directory. That directory's lower-cased name differs from the own directory name. Its name is six characters, ends in ` nm` and starts with three digits. |
| DiSpimChannelResolver.FindInDir | src/org/rhwlab/image/ParsingLogic/ImageNameLogic.java:382-388 | The inner listing loop, with its early return, computes exactly `MatchInDir`. |
| DiSpimChannelResolver.SingleView | src/org/rhwlab/image/ParsingLogic/ImageNameLogic.java:332-412 | A non-empty single-view result means the path has a last separator and one before it, and the directory above the image's own is listed. |
| DiSpimChannelResolver.ScanOtherViews | src/org/rhwlab/image/ParsingLogic/ImageNameLogic.java:365-401 | The nested listing loops with early returns compute exactly `SingleViewScan`. |
| DiSpimChannelResolver.SingleViewScanStopsAtUnlisted | src/org/rhwlab/image/ParsingLogic/ImageNameLogic.java:365-401 | A qualifying sibling directory that cannot be listed ends the scan with `""`, provided every qualifying sibling before it is listed and holds no match. |
| DiSpimChannelResolver.SingleViewScanFinds | src/org/rhwlab/image/ParsingLogic/ImageNameLogic.java:365-401 | Suppose the i-th entry is a qualifying sibling whose listing matches, and every earlier qualifying sibling is listed without a match. Then the scan returns the i-th entry's match. |
| DiSpimChannelResolver.SecondDiSpimChannel | src/org/rhwlab/image/ParsingLogic/ImageNameLogic.java:305-413 | The finder throws only StringIndexOutOfBounds. |
| DiSpimChannelResolver.FindSecondDiSpimColorChannel | src/org/rhwlab/image/ParsingLogic/ImageNameLogic.java:305-413 | The method computes exactly `SecondDiSpimChannel`. |
| DiSpimChannelResolver.SingleViewSound | src/org/rhwlab/image/ParsingLogic/ImageNameLogic.java:332-412 | A non-empty single-view result means the input contains `SPIM` and has two path separators. The parent of its own directory is listed, and the result is found in another wavelength directory of that listing. |
| DiSpimChannelResolver.SingleViewExists | src/org/rhwlab/image/ParsingLogic/ImageNameLogic.java:332-412 | In a snapshot where listed entries exist, a non-empty single-view result exists. |
| NameRoundTrips.TimeOfEightBitName | src/org/rhwlab/image/ParsingLogic/ImageNameLogic.java:475-496 | For a prefix with a `/` that ends in `-t`, time ≥ 1 and plane ≥ 1, extracting the time of the 8-bit builder's name gives back the time. |
| NameRoundTrips.TimeOfStackName | src/org/rhwlab/image/ParsingLogic/ImageNameLogic.java:475-499 | For a prefix with a `/` that ends in `_t`, whose last segment has neither `-p` nor `.TIF`, and time ≥ 0, extracting the time of the 16-bit builder's name gives back the time. |
| NameRoundTrips.TimeOfDiSpimName | src/org/rhwlab/image/ParsingLogic/ImageNameLogic.java:475-511 | For a prefix with a `/` that ends in `_` or `-`, whose last segment has no `-t`, `_t` or `.tif`, and time ≥ 0, extracting the time of the builder's `.tif` name gives back the time. |
| NameRoundTrips.SliceVerdictOfSliceName | src/org/rhwlab/image/ParsingLogic/ImageNameLogic.java:436-467 | For a prefix with a `/`, `isSliceImage` of the 8-bit builder's name is true exactly when the plane is at most 999. |
| NameRoundTrips.NotSliceOfStackName | src/org/rhwlab/image/ParsingLogic/ImageNameLogic.java:436-467 | For a prefix with a `/` that ends in `_t` and has no `-p` in its last segment, `isSliceImage` of the 16-bit builder's name is false. |
| NameRoundTrips.NotSliceOfDiSpimName | src/org/rhwlab/image/ParsingLogic/ImageNameLogic.java:436-467 | For a prefix with a `/` that ends in `_` or `-` and has no `-p` in its last segment, `isSliceImage` of the builder's `.tif` name is false. |
| NameRoundTrips.NotSliceWithoutDelimiter | src/org/rhwlab/image/ParsingLogic/ImageNameLogic.java:436-448 | A name with neither `/` nor BACKSLASH, the empty name included, is not a slice. |
| NameRoundTrips.NotSliceImage | src/org/rhwlab/image/ParsingLogic/ImageNameLogic.java:449-463 | A name is not a slice when its last segment has a character other than `p` after its last `-`. The same holds, for a segment with no `-`, after its last `_`. |
| NameRoundTrips.PrefixOfSliceName | src/org/rhwlab/image/ParsingLogic/ImageNameLogic.java:531-536 | For a prefix with a `/` that ends in `-t`, any time and a plane of at most 999, `getImagePrefix` of the 8-bit builder's name gives back the prefix. |
| NameRoundTrips.PrefixOfStackName | src/org/rhwlab/image/ParsingLogic/ImageNameLogic.java:531-541 | For a prefix with a `/` that ends in `_t` and has no `-p` in its last segment, and time ≥ 0, `getImagePrefix` of the 16-bit builder's name gives back the prefix. |
| NameRoundTrips.PrefixOfUndelimitedStackName | src/org/rhwlab/image/ParsingLogic/ImageNameLogic.java:436-541 | For a prefix with neither `/` nor BACKSLASH that ends in `_t`, and time ≥ 0, `getImagePrefix` of the 16-bit builder's name gives back the prefix, because the slice test answers false. |
| NameRoundTrips.PrefixOfDiSpimName | src/org/rhwlab/image/ParsingLogic/ImageNameLogic.java:531-571 | Take a prefix with a `/` that ends in `_`, or in `-` with no `_` in its last segment. It must have no `-p` in its last segment and no `_t` or `.tif` anywhere, and time ≥ 0. Then `getImagePrefix` of the builder's `.tif` name gives back the prefix. |

## Left out

- `NucleiConfig` is not part of this model. It ingests configuration values, most of them floating point, and builds a CSV reader whose source is not available.
- The `System.out.println` diagnostics are left out; they do not affect what any method returns.
- Real `java.io.File` behaviour is replaced by the snapshot parameter. Listing order is whatever order the snapshot gives, and a `null` from `listFiles()` is a directory missing from the snapshot's listings.
- `java.lang.Character` is modelled for ASCII only (`isDigit`, `getNumericValue`, `toUpperCase`, `toLowerCase`); Unicode digits and case mappings are not modelled.
- A `null` argument is not modelled; every argument is a string.
- The commented-out `main` at `ImageNameLogic.java:644-661` is left out.
- NameRoundTrips.TimeOfEightBitName, NameRoundTrips.TimeOfStackName and NameRoundTrips.TimeOfDiSpimName need a `/` in the prefix, because without one `extractTimeFromImageFileName` throws. NameRoundTrips.PrefixOfSliceName needs one because without a delimiter `isSliceImage` answers false. NameRoundTrips.PrefixOfDiSpimName needs one because the diSPIM prefix reading throws without it. A stack prefix without any delimiter is covered by NameRoundTrips.PrefixOfUndelimitedStackName, and NameRoundTrips.NotSliceWithoutDelimiter covers the slice verdict of such names. The 16-bit and diSPIM round trips also need a last segment free of the markers the parsers search for.
- NameRoundTrips.PrefixOfSliceName needs the plane to be at most 999, because a longer plane token makes `isSliceImage` false.
- ISimChannelResolver.SecondISimChannelSound states soundness only. Completeness is stated by ISimChannelResolver.ISimChannelsArePaired, for a directory that holds only the two channel stacks.
- ImageNames.DiSpimPrefixShape states what a non-empty result looks like. The cases that give `""` are stated only by the definition `DiSpimPrefix`, which the method is proved equal to.
- BitDepthPathMapper.ReconfigureEightBitName, BitDepthPathMapper.ReconfigureFindsSixteenBitStack, BitDepthPathMapper.ReconfigureKeepsTimeMarkerFrom100 and the two corrected round trips take a prefix with no `-` at all. The rewrite itself only needs the prefix to have no `-p`.
- BitDepthPathMapper.SplitEightBitName states only the bounds the later stages rely on. Its full result is given by `SplitFromStages` and the round-trip lemmas.

## Findings

| source | as written | input that shows it | evidently intended | confidence | as-written member | corrected member |
|---|---|---|---|---|---|---|
| src/org/rhwlab/image/ParsingLogic/ImageNameLogic.java:164-178 | When the character after `-t` is not `0`, `tIdx` stays on the `-t`, so the time token keeps the marker | `/d/image/tif/p-t100-p01.tif` rewrites to `/d/p_t-t100.TIF` | `/d/p_t100.TIF`, the 16-bit stack the builder names for `/d/p_t` and time 100 | not executed | BitDepthPathMapper.ReconfigureKeepsTimeMarkerFrom100 | BitDepthPathMapper.ReconfigureIntendedFindsSixteenBitStack |
