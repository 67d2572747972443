# Playlist mirror and image renaming: a Dafny model

This project models the sequential logic of two Python scripts.

- `download-youtube-playlist.py` mirrors a YouTube playlist into a folder:
  - it resolves the playlist into a dict of descriptors keyed by video id;
  - it loads a ledger file of URLs already downloaded;
  - it renames files that an earlier naming scheme saved as `{id}.{ext}` to
    their stable name `{position:03d} - {safe_title}{suffix}`;
  - it then downloads every video not in the ledger, in dict order, with a
    bounded retry loop, and appends each URL to the ledger after its download
    succeeds;
  - it stops the whole run at the first video that fails all its attempts.
- `caption.py` gives the images of a folder sequential names
  (`image1.jpg`, `image2.png`, ...) in sorted order, without ever replacing a
  file. It also strips an `ASSISTANT:` tag from each generated caption and
  derives the `.txt` path of the caption file.

The outside world is abstract:
- the metadata extractor's answer is a parameter, an `Option<seq<Entry>>`;
- the downloader is a `Downloader` object whose answer to the k-th call is
  fixed by a function `outcomes`;
- `time.sleep` is a `Clock` that records each pause;
- a folder is a `Directory` object holding a set of names, with an oracle
  `refuses` for the renames the operating system rejects;
- the ledger file is a `TrackerFile` object holding the file's text.

Each loop of the scripts is a Dafny method with invariants. Its postcondition
ties the new state to a specification function: `RetrySpec` for the retry
loop, `Processed` for the download loop, `Turn` for `rename_existing_videos`
(with the files the glob picked as a ghost sequence), `RenameRun` for
`rename_images`. The lemmas then prove the scripts' promises about those
functions:
- skip what the ledger holds (`SkipsDone`);
- record a URL only after a downloader call for it succeeded and left the
  item's file behind (`RecordsOnlyDownloaded`);
- fail fast: an item whose three attempts all fail ends the run there with
  exit status 1 (`AllAttemptsFailedStops`), and a stopped run does nothing
  more (`FailFast`);
- the ledger only grows (`LedgerAfterRun`);
- the reconcile renames only `{id}.*` files of ledger keys, to their stable
  names, and goes on after a refused rename (`TurnRemovesOnlyMatches`,
  `TurnAddsOnlyTargets`, `RenameAtTurn`);
- no image file is lost or replaced (`RenameKeepsCount`).

Modules:
- `Strings`: `strip`, `lower`, search, comparison, `{n:03d}`.
- `Paths`: `os.path.splitext`, `PurePath.suffix`.
- `Collections`, `Sorting`: lists, `list.sort`.
- `Optional`.
- `FileSystem`: the directory.
- `Naming`: file names and the watch URL.
- `Playlist`: `get_playlist_info`.
- `DiskSpace`: `check_disk_space`.
- `Ledger`: the tracker file.
- `Retry`: `download_with_retry`.
- `Reconcile`: the two rename functions.
- `Orchestrator`: `__main__`.
- `Captions`: `caption.py`.

Some behaviour of the code worth knowing:
- The download loop walks the dict in insertion order (entry order), not in
  ascending position.
- `check_disk_space` is never called, so no disk guard appears in the loop.
- A rename onto an existing name replaces that file on POSIX rather than
  failing.
- Zero-padding to three digits keeps names in position order only below
  1000. `Naming.PositionPrefixOrderStopsAt1000` shows where this breaks.

## Model

| member | source | states |
|---|---|---|
| Naming.SafeTitle | download-youtube-playlist.py:63 | the sanitised title contains none of `<>:"/\|?*` and is no longer than the title |
| Naming.SafeTitleIsSubsequence | download-youtube-playlist.py:63 | the sanitised title is a subsequence of the title: characters keep their order |
| Naming.SafeTitleCounts | download-youtube-playlist.py:63 | exactly the forbidden characters are dropped: every other character keeps its number of occurrences |
| Naming.SafeTitleAppend | download-youtube-playlist.py:63 | sanitising a concatenation is concatenating the sanitised parts |
| Naming.SafeTitleKeepsClean | download-youtube-playlist.py:117 | a title without forbidden characters is kept unchanged |
| Naming.SafeTitleIdempotent | download-youtube-playlist.py:117 | sanitising twice gives the same result as sanitising once |
| Strings.ZeroPaddedParses | download-youtube-playlist.py:64 | `FormatZeroPadded`, i.e. `{n:0wd}`: at least `w` characters, all digits reading back as `n` for `n >= 0`; a `-` and the digits of `-n` otherwise |
| Strings.ZeroPaddedMinimal | download-youtube-playlist.py:64 | `FormatZeroPadded` pads no more than needed: a result longer than `w` has no leading zero after the sign (the lone digit `0` aside), so its length is the larger of `w` and sign plus digits |
| Strings.DecimalRoundTrip | download-youtube-playlist.py:64 | the decimal digits of `n` read back as `n` |
| Strings.ParseLeadingZeros | download-youtube-playlist.py:64 | leading zeros from the padding do not change the value read back |
| Naming.ArtifactIsStable | download-youtube-playlist.py:63-64 | the file the output template `{position:03d} - {safe_title}.%(ext)s` yields for extension `ext` is the `StableName` with suffix `.ext` |
| Naming.PositionPrefixChars | download-youtube-playlist.py:118 | `{position:03d}` holds only digits and a minus sign |
| Naming.StableNameParts | download-youtube-playlist.py:118 | `StableName`, the f-string `{position:03d} - {safe_title}{suffix}`, splits back into at least three digits reading as the position, `" - "`, then the sanitised title and the suffix |
| Naming.StableNameDeterminesPosition | download-youtube-playlist.py:118 | two stable names that are equal have equal positions, whatever the titles and suffixes |
| Naming.PositionPrefixDigits | download-youtube-playlist.py:118 | below 1000 the prefix is exactly the three decimal digits of the position |
| Naming.PositionPrefixOrder | download-youtube-playlist.py:118 | for positions 0..999 the prefixes compare as strings exactly as the positions compare as numbers (both directions) |
| Naming.StableNamesSortByPosition | download-youtube-playlist.py:118 | for positions 0..999, stable names sort by position whatever their titles and suffixes |
| Naming.PositionPrefixOrderStopsAt1000 | download-youtube-playlist.py:118 | position 1000's prefix sorts before position 999's, so three-digit padding orders names only below 1000 |
| Naming.WatchUrl | download-youtube-playlist.py:103 | the canonical URL is the watch prefix followed by exactly the id |
| Strings.Find | download-youtube-playlist.py:24 | `find`: the first occurrence of the pattern at or after `from`, or -1 when there is none |
| Naming.SafeFilename | download-youtube-playlist.py:22-24 | `split('watch?v=')[1]` fails exactly when the URL lacks the marker; otherwise it is the text after the marker's first occurrence, up to its next occurrence or the end |
| Naming.SafeFilenameOfWatchUrl | download-youtube-playlist.py:22-24 | the id is recovered from its watch URL whenever the id does not contain `watch?v=` |
| DiskSpace.CheckDiskSpace | download-youtube-playlist.py:26-29 | true exactly when the free bytes cover the required mebibytes plus the margin (500 by default) |
| DiskSpace.PartialMebibyteIgnored | download-youtube-playlist.py:28 | a partial mebibyte of free space never changes the answer |
| Strings.Strip | download-youtube-playlist.py:54 | `strip()` leaves no whitespace at either end and is an infix with only whitespace around it |
| Strings.StripPadded | download-youtube-playlist.py:54 | stripping a string padded with whitespace gives back the string whenever it has no whitespace at its edges |
| Strings.StripIdempotent | download-youtube-playlist.py:54 | stripping twice gives the same result as stripping once |
| Strings.StripIgnoresTrailingSpace | download-youtube-playlist.py:54 | a line's trailing newline or other whitespace does not change its stripped form |
| Ledger.LinesJoin | download-youtube-playlist.py:53-54 | the lines the file yields, put back together, are the file's text |
| Ledger.LinesShape | download-youtube-playlist.py:53-54 | every line is non-empty with a `\n` only at its end, and every line but the last ends in `\n` |
| Ledger.LoadedMembers | download-youtube-playlist.py:53-54 | `Loaded`: a URL is in the loaded set exactly when some line of the file strips to it |
| Ledger.Record | download-youtube-playlist.py:58-59 | after a save the file ends in a newline |
| Ledger.LinesAppend | download-youtube-playlist.py:58-59 | appending to a text that ends in a newline appends lines and leaves the earlier lines alone |
| Ledger.LinesOfRecord | download-youtube-playlist.py:59 | a URL without a newline, written with its `\n`, is read back as one line |
| Ledger.RecordLines | download-youtube-playlist.py:58-59 | a save adds exactly one line after the existing ones |
| Ledger.StrippedRecordLine | download-youtube-playlist.py:54 | the saved line strips to the stripped URL |
| Ledger.RecordLoads | download-youtube-playlist.py:45-59 | a save followed by a load gives the earlier set plus exactly the stripped URL |
| Ledger.UnterminatedSaveMerges | download-youtube-playlist.py:53-59 | a ledger holding `a` without a final newline, then a save of `b`, loads as `{"ab"}`: the earlier entry is lost |
| Ledger.SavedUrlIsLoaded | download-youtube-playlist.py:45-59 | a saved URL without surrounding whitespace is in the next load, and no earlier entry is lost |
| Ledger.RecordAllSnoc | download-youtube-playlist.py:58-59 | a run of saves followed by one more save is the longer run of saves |
| Ledger.StrippedSetHas | download-youtube-playlist.py:54 | a saved URL without surrounding whitespace is itself among the stripped lines |
| Ledger.RecordAllLoads | download-youtube-playlist.py:45-59 | after any run of saves the file still ends in a newline and loads to the old set plus the stripped saved URLs |
| Ledger.TrackerFile.Load | download-youtube-playlist.py:45-54 | a missing file is created empty and gives the empty set; an existing one is unchanged and gives the set of its stripped lines |
| Ledger.TrackerFile.Save | download-youtube-playlist.py:56-59 | the file exists afterwards and holds its old text (empty if it was missing) followed by the URL and `\n` |
| Playlist.Describe | download-youtube-playlist.py:100-104 | position is `playlist_index` or else `idx + 1`, title is `title` or else "Unknown Title", url is the watch URL of the id |
| Playlist.PlaylistInfo | download-youtube-playlist.py:99-106 | the dict's insertion order lists each key exactly once and only its keys |
| Playlist.PlaylistInfoKeys | download-youtube-playlist.py:99-106 | the dict is keyed by exactly the ids of the entries |
| Playlist.PlaylistInfoLastWins | download-youtube-playlist.py:99-106 | duplicate ids collapse and the last entry with an id decides its descriptor, with that entry's own index |
| Playlist.PlaylistInfoFirstSeenOrder | download-youtube-playlist.py:99-106 | the dict iterates its keys in the order in which the ids first appear among the entries |
| Playlist.PlaylistInfoUrls | download-youtube-playlist.py:103 | every descriptor's url is the watch URL of its own key |
| Playlist.ItemUrlsDistinct | download-youtube-playlist.py:99-106 | the descriptors in iteration order have pairwise distinct urls |
| Playlist.Items | download-youtube-playlist.py:136 | `video_info.items()` in iteration order: the descriptor of each key in the insertion order |
| Retry.Downloader.Download | download-youtube-playlist.py:76-77 | one call: logged with its URL, answered by the next scripted outcome |
| Retry.Clock.Sleep | download-youtube-playlist.py:84 | one pause, recorded with its length |
| Retry.RepeatElements | download-youtube-playlist.py:74 | the calls (or pauses) a run logs all carry the same URL (or delay) |
| Retry.RetrySucceedsAfter | download-youtube-playlist.py:74-84 | if the first `r < max_retries` attempts fail and the next succeeds, the result is success after exactly `r + 1` calls and `r` pauses |
| Retry.RetryExhausted | download-youtube-playlist.py:74-86 | if every attempt fails, the result carries the last attempt's error, after exactly `max_retries` calls and `max_retries - 1` pauses |
| Retry.RetryShape | download-youtube-playlist.py:74-86 | with at least one attempt the loop always returns; it succeeds exactly when its last call succeeded, every earlier call failed, and it gives up only once the bound is used up |
| Retry.RetryFromTurn | download-youtube-playlist.py:75-86 | the one-iteration unfolding of `RetrySpec` that the loop's proof uses: success returns, a failure before the last attempt continues, a failure on the last attempt returns its error |
| Retry.SucceedsAtTurn | download-youtube-playlist.py:75-78 | the unfolding the loop's proof uses for a success at attempt `a`: success after `a + 1` calls and `a` pauses, leaving the payload's file |
| Retry.GivesUpAtTurn | download-youtube-playlist.py:80-86 | the unfolding the loop's proof uses for a failure at the last attempt: that attempt's error, a pause after each earlier attempt, no file |
| Retry.RetryWithoutAttempts | download-youtube-playlist.py:74 | with `max_retries <= 0` nothing is called and the result is `None` |
| Retry.DownloadWithRetry | download-youtube-playlist.py:61-86 | the result, the calls, the pauses (one between attempts, none after the last) and the file created are those of `RetrySpec` |
| Reconcile.RenameAgreesWithDownload | download-youtube-playlist.py:64 | the name a file `{id}.{ext}` is renamed to is the name the downloader saves that payload under |
| Reconcile.MatchesOneId | download-youtube-playlist.py:113 | `MatchesId`, the glob `{id}.*` read as "the id, then a dot": for ids without a dot, no file name matches two different ids |
| Reconcile.StableNameMatchesNoId | download-youtube-playlist.py:113-118 | a stable name matches the glob of no id without a dot or a space, so a renamed file is never picked up for another key |
| Reconcile.RenameVideoFile | download-youtube-playlist.py:109-130 | renames one `{id}.*` file to its stable name keeping its suffix; without a match, or when refused, returns false and changes nothing; with a match and no refusal it renames |
| Reconcile.DoneCountZero | download-youtube-playlist.py:136-138 | no key is counted exactly when no key's url is in the ledger set |
| Reconcile.VanishedNamesMatch | download-youtube-playlist.py:136-142 | the names gone after key `i` are `{id}.*` files of keys up to `i` whose urls are in the ledger set |
| Reconcile.TurnCountBound | download-youtube-playlist.py:136-142 | in the fold `Turn` over the keys, the count never exceeds the number of keys whose url is in the ledger set |
| Reconcile.TurnRemovesOnlyMatches | download-youtube-playlist.py:136-142 | in the fold, every name that disappears is an `{id}.*` file of a key whose url is in the ledger set |
| Reconcile.TurnAddsOnlyTargets | download-youtube-playlist.py:117-122 | in the fold, every name that appears is the stable name `RenamedTo` gives an `{id}.*` file of such a key |
| Reconcile.TurnIdle | download-youtube-playlist.py:136-138 | with no key's url in the ledger set the fold changes nothing and counts zero |
| Reconcile.RenameAtTurn | download-youtube-playlist.py:121-142 | whatever the earlier keys did, refused renames included, a listed key with a file at its turn whose rename is accepted gets that file renamed and counted: a failed rename does not stop the loop |
| Reconcile.RenamesEveryMatch | download-youtube-playlist.py:136-142 | with no refusal, the count is the number of listed keys that have an `{id}.*` file at their turn |
| Reconcile.LaterMatchesUntouched | download-youtube-playlist.py:113-122 | with plain ids, a later key's `{id}.*` files are neither removed nor added by earlier turns |
| Reconcile.MatchAtTurn | download-youtube-playlist.py:113 | with plain ids, a key has an `{id}.*` file at its turn exactly when it had one before the loop |
| Reconcile.OldMatchRenamed | download-youtube-playlist.py:136-142 | with plain ids and no refusal, every listed key that had an `{id}.*` file before the loop gets one of them renamed to its stable name |
| Reconcile.RenamesEveryOldMatch | download-youtube-playlist.py:132-143 | with plain ids and no refusal, `renamed_count` is the number of listed keys that had an `{id}.*` file before the loop |
| Reconcile.LoopTurn | download-youtube-playlist.py:136-142 | the unfolding the loop's proof uses: one pass of the loop body, as `RenameVideoFile` describes it, is the next turn of the fold |
| Reconcile.RenameExistingVideos | download-youtube-playlist.py:132-143 | the new folder and `renamed_count` are the fold `Turn` over every key, with the files the glob picked; the count is at most the number of ledger keys, only `{id}.*` files of those keys vanish, and with no such key nothing changes |
| Orchestrator.StepExtends | download-youtube-playlist.py:163-186 | one iteration of the loop body (`Step`) only appends to the ledger, call and pause logs and only adds files; after a failure nothing changes |
| Orchestrator.ProcessedExtends | download-youtube-playlist.py:163-186 | the ledger, the calls and the pauses only grow over the loop, and a stopped loop does nothing more |
| Orchestrator.AfterNext | download-youtube-playlist.py:163 | the unfolding the loop proofs use: the loop after `k + 1` items is one more `Step` after `k` items |
| Orchestrator.FailFast | download-youtube-playlist.py:175-178 | once an item has failed, no later item is downloaded, paused for or recorded |
| Orchestrator.StepCalls | download-youtube-playlist.py:165-174 | the calls one iteration adds are all for its item's URL, which is not in the ledger set |
| Orchestrator.StepRecords | download-youtube-playlist.py:172-180 | the URL one `Step` records is its item's, not in the ledger set, and that iteration's last downloader call fetched it and left the item's file |
| Orchestrator.SkipsDone | download-youtube-playlist.py:163-167 | every downloader call of the loop is for an item URL that is not in the ledger set |
| Orchestrator.RecordsOnlyDownloaded | download-youtube-playlist.py:172-180 | every URL the loop records is the URL of an item not in the ledger set; one of the loop's downloader calls for it succeeded, and the file it saved under the item's name was created |
| Orchestrator.CallBound | download-youtube-playlist.py:163-174 | at most three calls and three pauses per item |
| Orchestrator.CompleteRunCoversAll | download-youtube-playlist.py:163-181 | when no item failed, every item's URL is in the ledger set or was recorded |
| Orchestrator.ResumeIsIdle | download-youtube-playlist.py:163-167 | a run over items whose URLs are all in the ledger calls, pauses, records and creates nothing |
| Orchestrator.StopsAtFirstFailure | download-youtube-playlist.py:172-178 | a stopped run stopped at one item, as `StoppedAt` describes |
| Orchestrator.StoppedInPrefix | download-youtube-playlist.py:175-178 | a stop among the earlier items is the stop of the whole run |
| Orchestrator.StoppedAtLast | download-youtube-playlist.py:172-178 | a run that had not stopped before its last item and stops, stops there: the last item was not in the set, had three failed attempts and was not recorded |
| Orchestrator.AllAttemptsFailedStops | download-youtube-playlist.py:172-178 | an item not in the ledger set, reached before any failure, whose three attempts all fail stops the run there: the final state is the state right after it and is failed, so the exit status is 1 |
| Orchestrator.LedgerAfterRun | download-youtube-playlist.py:156-181 | the ledger never loses an entry, and after a complete run it lists every item's URL |
| Orchestrator.DownloadRemaining | download-youtube-playlist.py:163-186 | the calls, pauses, files, ledger text and exit status are those of `Processed` over the descriptors in dict order |
| Orchestrator.Run | download-youtube-playlist.py:146-192 | without a playlist exits 1 and changes nothing; otherwise the ledger is loaded (created when missing), the folder is the reconcile fold `Turn` over every key plus the files `Processed` created, and the ledger, calls, pauses and exit status are those of `Processed` |
| FileSystem.Directory.Listing | caption.py:11 | `os.listdir`: every name of the directory exactly once |
| FileSystem.Directory.Rename | download-youtube-playlist.py:122 | succeeds exactly when the source exists and the system does not refuse; the source name is then gone and the target present, otherwise nothing changes |
| FileSystem.Directory.Create | download-youtube-playlist.py:76-77 | the downloaded payload adds its file name |
| Strings.Lower | caption.py:11 | `lower()` keeps the length and maps each character on its own: ASCII capitals to their lower-case letter, every other character unchanged |
| Captions.ImagesOf | caption.py:10-11 | the candidates are exactly the listed names whose lower-cased form ends in `.jpg`, `.jpeg` or `.png`, none added |
| Strings.LexLessTransitive | caption.py:12 | string `<` is transitive |
| Strings.LexLessTotal | caption.py:12 | any two distinct strings are ordered one way or the other |
| Strings.LexLessAsymmetric | caption.py:12 | string `<` is asymmetric |
| Strings.LexLessIrreflexive | caption.py:12 | no string is less than itself |
| Strings.LexLessExtend | download-youtube-playlist.py:118 | between strings of equal length the order is decided within them, whatever follows |
| Sorting.Sort | caption.py:12 | the sorted list is a permutation of the list and is in ascending order |
| Sorting.Insert | caption.py:12 | inserting into a sorted list keeps it sorted and adds exactly the element |
| Sorting.SortedUnique | caption.py:12 | only one arrangement of a list is sorted, so any correct sort gives `Sort`'s result |
| Collections.DistinctCounts | caption.py:11-12 | a list is duplicate-free exactly when each element occurs at most once in its multiset |
| Collections.DistinctSubmultiset | caption.py:11-12 | filtering or reordering a duplicate-free listing keeps it duplicate-free |
| Captions.SortedImages | caption.py:10-12 | the sorted candidates: sorted, duplicate-free, and exactly the directory's image names |
| Paths.SplitExt | caption.py:15 | `splitext`: root plus extension is the path, and the extension is empty or a dot followed by neither dot nor slash |
| Paths.SplitExtOfExtended | caption.py:15 | `splitext` takes back exactly an extension appended to a path whose last component has a non-dot character |
| Paths.SplitExtBase | caption.py:15 | a non-empty extension only follows a root whose last component has a non-dot character, so leading dots are never an extension; with `SplitExtOfExtended` this determines `splitext` |
| Paths.DotNameHasNoExt | caption.py:15 | a name that is a dot and an extension's letters, such as `.jpg`, has no extension: the root is the whole name |
| Captions.TargetKeepsExtension | caption.py:15-16 | `Target`, the new name `image{i}{ext}`, has the old name's extension, its case kept |
| Captions.TargetsDistinct | caption.py:15-16 | `Target` gives distinct indices distinct names, whatever the extensions |
| Captions.DotImageLosesExtension | caption.py:11-16 | an image named `.jpg` passes the filter but gets the new name `image{i}` with no extension |
| Captions.RenameKeepsCount | caption.py:20-24 | the number of files never changes: no file is lost or replaced |
| Captions.RenameKeepsOthers | caption.py:20-24 | every name that is not an image candidate stays |
| Captions.RenameAddsOnlyTargets | caption.py:14-24 | every new name is `image{j+1}{ext}` for an image processed already |
| Captions.PendingImagesPresent | caption.py:20-24 | the images not yet processed are all still present, so no rename meets a missing file |
| Captions.RenameCompletes | caption.py:14-24 | when the system refuses no rename, the loop runs to its end |
| Captions.RenameStopsAtRaise | caption.py:24 | once `os.rename` has raised, nothing more happens |
| Captions.RenameImages | caption.py:8-25 | the images are the sorted candidates; the directory's names and whether the loop finished are those of `RenameRun` over them |
| Captions.StripAssistant | caption.py:99-100 | a caption without the tag is unchanged; a tagged one has no whitespace at its edges and is shorter than the caption by at least the tag |
| Captions.StripAssistantReply | caption.py:99-100 | the reply after `ASSISTANT:` comes back exactly, whatever whitespace surrounds it |
| Captions.CaptionPathOfImage | caption.py:106 | `CaptionPath`: the caption path is the image path with its extension replaced by `.txt`, and `.txt` is the extension `splitext` finds on it |
| Paths.Suffix | download-youtube-playlist.py:118 | `PurePath.suffix`: empty, or a dot and at least one non-dot character ending the name and shorter than it |
| Paths.SuffixPresent | download-youtube-playlist.py:118 | the suffix is non-empty exactly when the name has a dot, neither its first nor its last character, with no dot after it |
| Paths.SuffixOfFormatTagged | download-youtube-playlist.py:118 | only the last extension is the suffix: `abc.f137.mp4` has suffix `.mp4` |

## Left out

- The metadata extractor and the downloader (`yt_dlp`) are not executed. Their answers are parameters. A playlist answer is a list of entries or `None` for a raised exception. A download's answer comes from a scripted sequence of outcomes; a success adds the file named by the output template with the payload's extension. A failed attempt is modelled as creating nothing: partial `.part` or fragment files that `yt_dlp` may leave behind are not modelled (they never match a `{id}.*` glob of the reconcile).
- `time.sleep` is recorded as a list of pause lengths; no time passes.
- `shutil.disk_usage` becomes the free byte count passed to `DiskSpace.CheckDiskSpace`. The script never calls `check_disk_space`, so the download loop has no disk guard.
- `load_cookies`, `parse_arguments`, the import-time `os.makedirs`, and every `print` and `traceback` call are left out.
- `generate_captions` model loading and inference (torch, PIL, LLaVA) are left out. The model keeps only its two string steps, the `ASSISTANT:` strip and the caption path, and does not write caption files.
- `caption.py`'s `__main__`, which calls `rename_images` and then `generate_captions`, is left out.
- I/O errors are not modelled. This covers reading or appending the ledger, listing a folder, and the exception handler at download-youtube-playlist.py:183-186. That handler turns any other exception inside the loop into exit 1.
- A `playlist_index` or `title` key that is present with value `None` is not modelled. `Entry` only distinguishes present from absent.
- `Path.glob` metacharacters in an id are not modelled. `MatchesId` treats the pattern `{id}.*` literally as "starts with the id and a dot". `next(...)` picks an arbitrary match, as `:|` does.
- Universal-newline translation of `\r\n` and `\r` is left out. The ledger is split on `\n` only.
- Strings.Lower: only ASCII letters are lower-cased. Python's full Unicode case mapping is not modelled.
- The ledger file is a separate `TrackerFile`, not one of the names of the downloads folder. `FileSystem.Directory` holds only the media files.
- Windows rename semantics (failing on an existing target) are left out. Renames follow POSIX.
- `list.sort()` sorts in place a list that nothing else refers to. It is modelled by the value function `Sorting.Sort`, which leaves out the in-place update.
- `Reconcile.RenameExistingVideos` returns `renamed_count`, which the script only prints.
- Ledger.RecordLoads, Ledger.SavedUrlIsLoaded and Ledger.RecordAllLoads require the ledger text to be empty or to end in a newline. The script only ever writes such text. A hand-edited file without a final newline has the next URL merged into its last line, so that entry is lost; `Ledger.UnterminatedSaveMerges` shows this on a small file.
- Orchestrator.LedgerAfterRun assumes item URLs without newlines and without surrounding whitespace. Watch URLs built from ordinary ids satisfy this; `strip()` could otherwise change what is read back.
- Reconcile.RenamesEveryOldMatch, Reconcile.OldMatchRenamed, Reconcile.MatchAtTurn and Reconcile.LaterMatchesUntouched require ids without a dot or a space, as the platform's video ids are. With such characters one key's glob can match another key's file or a stable name, and the count is then only bounded (`TurnCountBound`).
- Naming.SafeFilenameOfWatchUrl requires the id not to contain `watch?v=`. With such an id, `split` cuts the id short.
