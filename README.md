# A verified model of the YouTube audio and transcript pipeline

The repository downloads the audio of a channel's videos and has it transcribed with speaker labels. It keeps every per-video artifact in one directory tree:
- the `.mp3` audio;
- the diarised `_diarized_content.json`;
- the segmented `_diarized_content_processed_diarized.txt`.

This project models the sequential logic around that tree in Dafny and proves what each piece does.

- **Catalog and matcher** (`catalog.dfy`). The catalog of known videos and its title normalisation. The position-wise fuzzy matcher `find_closest_match`. The lookup of a catalog row by title. The recovery of a title from an artifact's file name.
- **Tree maintenance** (`fullwidth.dfy`, `colon_merge.dfy`, `reconcile.dfy`, `gc.dfy`). These are the passes of `src/utils/utils.py`:
  - the bottom-up full-width clean-up;
  - the merge of directories whose names differ only in the full-width colon;
  - the three reconciliation passes that move loose artifacts into `<date>_<title>` directories, written once and parametrised by artifact kind;
  - the deletion of audio that a derived artifact supersedes.
- **Producer side** (`download.dfy`). Batching. The gate that keeps live streams and processed videos out. The `<YYYY-MM-DD>_<title>` naming. The catalog filter. The retry loop. The order of the clean-up phases.
- **Transcripts** (`transcripts.dfy`). `HH:MM:SS.mmm` formatting, the segmentation of an utterance into groups of sentences, and the output of `process_transcript`.
- **Diarisation** (`diarization.dfy`). File selection, transcript paths, the skips of `transcribe_and_save`, and the sharing of files among API keys.
- **String passes** (`typos.dfy`, `pdf_links.dfy`). The ordered typo replacement. The arXiv rewrite, grouping by domain and sorted output of the link extractor.
- **Support** (`filetree.dfy`, `text.dfy`, `ordering.dfy`, `wrappers.dfy`). Support modules:
  - the tree, as a map from paths to `File(content) | Dir`, held by a `FileSystem` class whose methods are `os.remove`, `shutil.rmtree`, `os.rename`, `open(...).write` and `os.makedirs`;
  - the Python string built-ins the code calls;
  - string ordering and `sorted`;
  - `Option`.

Every pass that walks the tree takes the visits of `os.walk` as a given sequence of `(root, dirs, files)` triples. Each pass is specified by a fold over that sequence. Its method is a loop proved equal to the fold. Lemmas state what the fold guarantees.

Where the repository's own description and its code differ, the model follows the code:
- The colon merge's target is the last sibling with the same standardised name, which need not be the ASCII-named one.
- A full-width directory whose ASCII name is taken is removed with `rmtree`, not merged.
- The mp3 pass skips a file only when its recovered title equals its directory's name. The txt and json passes skip it only when `<date>_<title>` equals its directory's name.
- The batch download saves each audio file as `<dir>/<title>.mp3` (`src/youtube/download_mp3.py:156`); the mp3 pass then moves it into `<date>_<title>/`. The per-video `<date>_<title>/<date>_<title>.mp3` naming of `prepare_download_info` is modelled, but no modelled path calls it.
- The catalog normalisation collapses spaces before it drops quotes, and the txt and json passes skip as the code does. The passes and the catalog use this order and these skips. The intended variants (`NormalizeTitle`, `Plan`, `ReconciledCorrected`) are kept beside them, with their properties proved (see Findings).

## Model

| member | source | states |
|---|---|---|
| Catalog.CollapseSpaces | src/utils/utils.py:147 | the result has no two consecutive spaces, keeps the first character and adds no character |
| Catalog.CollapseAppend | src/utils/utils.py:147 | collapsing distributes over a concatenation that does not join two spaces |
| Catalog.CollapseRun | src/utils/utils.py:147 | a run of one or more spaces collapses to exactly one space |
| Catalog.CollapseSeparates | src/utils/utils.py:147 | two non-space characters separated by one or more spaces end up separated by exactly one space, and the text on either side is collapsed on its own |
| Catalog.CollapseKeepsText | src/utils/utils.py:147 | collapsing runs of spaces keeps every non-space character, in order |
| Catalog.CollapseKeepsSingleSpaced | src/utils/utils.py:147 | a title without a double space is unchanged |
| Catalog.DropQuotes | src/utils/utils.py:148 | no `"` remains, every other character is kept, and a title without quotes is unchanged |
| Catalog.NormalizeAsWrittenNotIdempotent | src/utils/utils.py:147-148 | collapse-then-drop turns `a " b` into `a  b`, which still has a double space and normalises again to `a b` |
| Catalog.NormalizeTitle | src/utils/utils.py:147-148 | a normalised title has no `"` and no double space |
| Catalog.NormalizeTitleIdempotent | src/utils/utils.py:147-148 | normalising a normalised title changes nothing |
| Catalog.CollapseBeforeDropIsAbsorbed | src/utils/utils.py:147-148 | collapsing again after dropping quotes gives the same title whether or not the spaces were collapsed before the drop |
| Catalog.AsWrittenTwiceIsNormalized | src/utils/utils.py:147-148 | applying the code's collapse-then-drop twice gives the quote-first normalised title |
| Catalog.NormalizeCatalog | src/utils/utils.py:147-148 | the catalog keeps its rows and dates in order; each title is the code's collapse-then-drop of the old one and holds no `"` |
| Catalog.NormalizeCatalogSettles | src/utils/utils.py:147-148 | loading the catalog twice gives every row the quote-first normalised title, and a third load changes nothing |
| Catalog.Overlap | src/utils/utils.py:136 | the score of two titles is at most the length of either |
| Catalog.OverlapFull | src/utils/utils.py:136 | a title scores its full length exactly against the titles that start with it |
| Catalog.ScanSpec | src/utils/utils.py:130-140 | the loop keeps the highest score seen; it has no best title iff that score is 0; the best title is the first one reaching it |
| Catalog.BestMatchSpec | src/utils/utils.py:130-140 | the match is None iff every title scores 0 (including the empty list); otherwise it is the first title in list order with the maximal score |
| Catalog.ExactTitleMatchesPrefix | src/utils/utils.py:130-140 | a non-empty title in the list is always matched, by a title that starts with it |
| Catalog.ExactTitleCanLose | src/utils/utils.py:137-139 | an earlier, longer title wins the tie: `ab` against `[abc, ab]` gives `abc` |
| Catalog.FindClosestMatch | src/utils/utils.py:130-140 | the loop over the titles returns the best match |
| Catalog.FirstIndexWithTitle | src/utils/utils.py:171-174 | the index of the first row carrying the title, or -1 when no row does |
| Catalog.FirstWithTitle | src/utils/utils.py:171-174 | a row is found iff the title is given and in the catalog, and it is the first row carrying it |
| Catalog.MatchHasRow | src/utils/utils.py:170-173 | a title the matcher returns always has a catalog row |
| Catalog.TidyKeeps | src/utils/utils.py:163 | a title without double spaces or surrounding white space is unchanged by `replace('  ', ' ').strip()` |
| Catalog.Mp3TitleRoundTrip | src/utils/utils.py:161-163 | the mp3 pass reads the tidy dot-free title `t` back off `t.mp3` |
| Catalog.RemoveSuffixOnce | src/utils/utils.py:205 | removing a one-dot suffix from a dot-free title followed by it leaves the title |
| Catalog.ArtifactTitleRoundTrip | src/utils/utils.py:205-207 | the txt and json passes read the tidy dot-free title `t` back off `t<suffix>` |
| Catalog.DottedTitleIsCut | src/utils/utils.py:161 | a title containing `.` is cut at its last dot: `Ep. 5.mp3` gives `Ep. 5`, and `Ep. 5` gives `Ep` |
| Fullwidth.AsciiToFullwidth | src/utils/utils.py:355-358 | every printable ASCII character has a full-width form |
| Fullwidth.FullwidthToAscii | src/utils/utils.py:353-358 | U+FF01..U+FF5E map to the printable ASCII character whose full-width form they are; every other character is unchanged; the result is never full-width |
| Fullwidth.AsciiRoundTrip | src/utils/utils.py:353-358 | mapping the full-width form of a printable ASCII character gives the character back |
| Fullwidth.FullwidthToAsciiIdempotent | src/utils/utils.py:353-358 | mapping twice is mapping once |
| Fullwidth.MapName | src/utils/utils.py:365 | the new name has the same length, character by character mapped |
| Fullwidth.DirtyIffFullwidth | src/utils/utils.py:369 | the mapping changes a name iff the name holds a full-width character |
| Fullwidth.MapNameIdempotent | src/utils/utils.py:365 | a mapped name is left unchanged by the mapping |
| Fullwidth.Listing | src/utils/utils.py:364-380 | a visit handles its files first, then its directories, in listing order |
| Fullwidth.CleanItem | src/utils/utils.py:364-393 | a clean name changes nothing; a dirty name disappears; it is renamed when its mapped name is free; an existing mapped entry is never changed; a dirty directory whose mapped name exists is removed with everything below it |
| Fullwidth.CleanEntry | src/utils/utils.py:364-393 | the body of either loop for one entry has the effect of `CleanItem` |
| Fullwidth.CleanNames | src/utils/utils.py:364-393 | either loop of a visit handles its listed names in order |
| Fullwidth.CleanVisitEntries | src/utils/utils.py:362-393 | one visit's files and then directories are handled in order |
| Fullwidth.CleanFullwidthCharacters | src/utils/utils.py:361-393 | the pass over a bottom-up walk leaves the tree `CleanWalk` gives |
| Fullwidth.CleanItemsOfCleanNames | src/utils/utils.py:369-385 | a listing of clean names changes nothing |
| Fullwidth.CleanWalkFixpoint | src/utils/utils.py:361-393 | a walk whose listed names are all clean performs no mutation |
| Fullwidth.CleanItemsOrigin | src/utils/utils.py:364-393 | every entry below the directory after a listing comes from an entry there before with the same path except that its first name below the directory may be mapped; an entry whose name there is still dirty is unchanged and was not listed |
| Fullwidth.CleanItemsAddsBelow | src/utils/utils.py:364-393 | a listing adds entries only below its directory |
| Fullwidth.VisitCleansBelow | src/utils/utils.py:361-393 | when a visit lists every entry of its directory and its subdirectories are already clean below, every name below the directory is clean afterwards |
| Fullwidth.VisitKeepsClean | src/utils/utils.py:361-393 | a visit keeps clean the directories already clean below, and leaves its own directory clean below |
| Fullwidth.CleanWalkCleansVisited | src/utils/utils.py:361-393 | a bottom-up walk (`topdown=False`) that lists every entry leaves every visited directory with only clean names below it |
| Fullwidth.PresentNamesClean | src/utils/utils.py:361-369 | a visit of a tree clean below the base that lists only present names lists only clean names |
| Fullwidth.CleanWalkTwice | src/utils/utils.py:361-393 | after a bottom-up pass that visits the base, a second pass over any walk within the base that lists only present entries changes nothing |
| Fullwidth.CleanItemsChildren | src/utils/utils.py:364-393 | after a listing, a name left in the directory is clean, or was there before and not listed |
| Fullwidth.VisitLeavesCleanNames | src/utils/utils.py:361-393 | a visit that lists every entry of its directory leaves only clean names there |
| Fullwidth.CleanItemFrame | src/utils/utils.py:369-393 | handling one entry leaves alone what is neither at nor below its old or new path |
| Fullwidth.CleanItemsFrame | src/utils/utils.py:361-393 | a visit leaves alone every entry that is not a listed dirty name of its directory or below one |
| ColonMerge.StandardizeSpec | src/utils/utils.py:301-302 | standardising replaces each U+FF1A by `:` and changes nothing else |
| ColonMerge.StandardizeIdempotent | src/utils/utils.py:301-302 | standardising twice is standardising once |
| ColonMerge.StandardizeNoColon | src/utils/utils.py:301-302 | a name without a full-width colon is its own standard name |
| ColonMerge.StandardDirs | src/utils/utils.py:310-314 | every listed sibling's standard name is a key of `standard_dirs` |
| ColonMerge.StandardDirsTarget | src/utils/utils.py:313-320 | each sibling's target is the last sibling in the listing that shares its standard name |
| ColonMerge.LastOfGroupIsOwnTarget | src/utils/utils.py:313-320 | a sibling whose standard name no later sibling shares is its own target |
| ColonMerge.BuildStandardDirs | src/utils/utils.py:310-314 | the first loop builds `standard_dirs` |
| ColonMerge.MergeItemsKeepsTarget | src/utils/utils.py:330-339 | whatever lies in the target keeps its place and content, so nothing there is overwritten |
| ColonMerge.MergeItemsSourceChildren | src/utils/utils.py:330-339 | an entry left in the source was there from the start and was not listed |
| ColonMerge.MergeItemWellFormed | src/utils/utils.py:332-339 | a turn that does not raise keeps the tree well-formed and the target a directory |
| ColonMerge.MergeItemsWellFormed | src/utils/utils.py:330-339 | on every run where no conflicting item is a directory, so that `os.remove` does not raise, the merge keeps the tree well-formed |
| ColonMerge.ConflictingDirOrphansSubtree | src/utils/utils.py:333-335 | where the code raises `IsADirectoryError` (directory `s/a` against a taken `d/a`), the model drops only the key `s/a` and leaves `s/a/f` without a parent |
| ColonMerge.ItemPlaced | src/utils/utils.py:330-339 | once its turn has come, each listed source entry has a counterpart under its standard name in the target |
| ColonMerge.SourceSubtreeWaits | src/utils/utils.py:330-339 | until its turn, a listed source entry and everything below it keep their place and content |
| ColonMerge.TargetSlotStaysFree | src/utils/utils.py:330-339 | a free target name stays free until an item with that standard name has its turn |
| ColonMerge.ItemPlacedWithContent | src/utils/utils.py:332-339 | an item whose standard name is free in the target and taken by no earlier item is moved there with everything below it, content unchanged |
| ColonMerge.MergedEntryContent | src/utils/utils.py:330-339 | after the sorted listing, a source entry that shares its standard name with no sibling and whose target name was free sits in the target with its whole subtree and contents |
| ColonMerge.MergeIntoTarget | src/utils/utils.py:330-339 | after merging the sorted listing, every source entry has a counterpart in the target; the target's old content is kept; an entry moved to a free name arrives with its whole subtree and contents; the source is empty |
| ColonMerge.RemoveEmpty | src/utils/utils.py:345-350 | the last loop only removes entries and reports only queued directories |
| ColonMerge.RemoveEmptyKeepsUnqueued | src/utils/utils.py:345-350 | a directory that was not queued is not removed |
| ColonMerge.RemoveEmptyRemovesEmpty | src/utils/utils.py:345-350 | a queued directory that is empty is removed |
| ColonMerge.RemoveEmptyReportsKept | src/utils/utils.py:345-350 | a queued directory still present at the end was reported as not empty |
| ColonMerge.RemoveEmptyOnlyIfEmpty | src/utils/utils.py:345-348 | an entry is removed only if it was queued and empty at its turn |
| ColonMerge.RemoveEmptyReportsOnlyNonEmpty | src/utils/utils.py:345-350 | a directory is reported only if it was queued and not empty at its turn |
| ColonMerge.RemoveEmptyKeepsAfter | src/utils/utils.py:345-350 | an entry present after some turns and not queued again is still present, and still reported, at the end |
| ColonMerge.RemoveEmptyKeepsReported | src/utils/utils.py:345-350 | a directory present and not empty at its turn, and not queued again, is kept and reported |
| ColonMerge.RemoveEmptyReportedKept | src/utils/utils.py:345-350 | with a queue of present directories without repeats, every reported directory is still there at the end |
| ColonMerge.LastOfGroupUntouched | src/utils/utils.py:317-323 | a sibling whose standard name no later sibling shares is left untouched |
| ColonMerge.MergeSiblingSpec | src/utils/utils.py:317-342 | a sibling that is its own target is left alone; when its target is absent it is renamed to it; otherwise it is merged into the target as `MergeIntoTarget` states and queued for removal |
| ColonMerge.NoColonNoChange | src/utils/utils.py:308-342 | a visit whose subdirectory names hold no full-width colon changes nothing |
| ColonMerge.MergeOneSibling | src/utils/utils.py:317-342 | the second loop's body for one sibling has the effect of `MergeSibling` |
| ColonMerge.MergeContents | src/utils/utils.py:330-339 | the loop over the source's contents deletes each item whose standardised name is taken in the target and moves every other one, with the effect of `MergeItems` |
| ColonMerge.MergeVisitDirs | src/utils/utils.py:308-342 | both loops for one visit |
| ColonMerge.RemoveEmptyDirectories | src/utils/utils.py:345-350 | the removal loop has the effect of `RemoveEmpty` |
| ColonMerge.MergeDirectories | src/utils/utils.py:286-350 | `merge_directories` leaves the tree and reports the directories `MergeDirectoriesSpec` gives |
| Reconcile.Suffix | src/utils/utils.py:154-254 | each kind's suffix (`.mp3`, `_diarized_content_processed_diarized.txt`, `_diarized_content.json`) has at least four characters |
| Reconcile.SuffixHasOneDot | src/utils/utils.py:154-254 | each suffix holds exactly one `.` |
| Reconcile.WithSuffix | src/utils/utils.py:153-155 | the collected paths of one listing are its files that end with the suffix |
| Reconcile.WithSuffixComplete | src/utils/utils.py:153-155 | every file of the listing that ends with the suffix is collected |
| Reconcile.Artifacts | src/utils/utils.py:151-155 | every collected path names a file ending with the suffix |
| Reconcile.ArtifactsComplete | src/utils/utils.py:151-155 | every walked file ending with the suffix is collected |
| Reconcile.CollectListing | src/utils/utils.py:152-155 | the inner loop over one directory's files collects exactly `WithSuffix` of that listing |
| Reconcile.CollectArtifacts | src/utils/utils.py:150-155 | the collecting loop builds `Artifacts` |
| Reconcile.Titled | src/utils/utils.py:159-163 | each collected path is paired with its recovered title |
| Reconcile.Decide | src/utils/utils.py:159-233 | the mp3 pass skips when the title is the directory name; otherwise the result is "not found" exactly when no title scores; on a match the file goes to `<date>_<title>/<date>_<title><suffix>` beside it, built from the first row carrying the matched title; the mp3 pass never deletes; the txt and json passes delete when the destination exists and move only when it does not |
| Reconcile.Plan | src/utils/utils.py:213-220 | the corrected decision, used only by the corrected pass: mp3 is unchanged; it differs from the code's decision only by skipping, and it always skips a file whose recovered title is its directory's name |
| Reconcile.MoveEffect | src/utils/utils.py:177-181 | moving a file into a new directory beside it: the content is at the destination, the file is gone, everything else is unchanged, and only the destination and the new directories are added |
| Reconcile.DeleteEffect | src/utils/utils.py:226-228 | deleting the source leaves the destination and everything else unchanged |
| Reconcile.StepEffect | src/utils/utils.py:159-233 | under the code's decision: a skipped or unmatched file leaves the tree unchanged; a moved file takes its content to the destination; a deleted file leaves the destination as it was; nothing else changes except the directories created |
| Reconcile.ReconcileKeepsUnrelated | src/utils/utils.py:150-183 | a pass never changes an entry none of whose names ends with the suffix it collects |
| Reconcile.UnmatchedPassIsIdentity | src/utils/utils.py:170-183 | a pass in which no title scores above 0 changes nothing |
| Reconcile.PlacedTitleRecovered | src/utils/utils.py:205-207 | the title read off a placed file `<D><suffix>` is `D` |
| Reconcile.PlacedFileIsSkipped | src/utils/utils.py:213-220 | the corrected decision leaves alone a file already at `<D>/<D><suffix>` |
| Reconcile.MovedFileStaysPut | src/utils/utils.py:213-231 | a file that the corrected decision moves is left alone by the next corrected decision |
| Reconcile.PlacedStepIsIdentity | src/utils/utils.py:213-220 | the corrected decision skips every placed file |
| Reconcile.PlacedPassIsIdentity | src/utils/utils.py:159-233 | a corrected pass over placed files only leaves the tree unchanged |
| Reconcile.MatchedInOwnDirMoves | src/utils/utils.py:213-220 | as written, a txt or json file titled `d` in directory `d` is moved into a new directory inside `d` whenever `d` matches |
| Reconcile.PlacedArtifactMovedAgain | src/utils/utils.py:213-220 | as written, the txt and json passes move an already placed file once more whenever its name scores above 0 |
| Reconcile.RecapIsMovedAgain | src/utils/utils.py:263-270 | the json of "2023 Recap", published 2023-12-30 and already in `2023-12-30_2023 Recap/`, is moved into a new directory inside it |
| Reconcile.PlaceFile | src/utils/utils.py:175-181 | creates the new directory, then deletes the source when a txt or json destination exists and moves it otherwise |
| Reconcile.ReconcileFile | src/utils/utils.py:159-183 | one iteration of the processing loop has the effect of `Step`, which applies the code's decision |
| Reconcile.ReconcileAll | src/utils/utils.py:159-183 | the processing loop has the effect of `Reconciled`, the code's decision applied to each file in turn |
| Reconcile.MoveRemainingToSubdirs | src/utils/utils.py:143-183 | a whole pass as written: the catalog is normalised in the code's order, the artifacts are collected and then reconciled in turn with the code's decision |
| StageGC.AudioIsNotDerived | src/utils/utils.py:403-404 | no name is both an mp3 and a txt or json file |
| StageGC.AudioIn | src/utils/utils.py:403 | exactly the mp3 files listed in the directory |
| StageGC.CollectDirSpec | src/utils/utils.py:401-412 | the mp3 files of a directory are deleted exactly when a txt or json file sits beside them; nothing else is deleted or changed; the directory is settled afterwards |
| StageGC.CollectDirKeepsDerived | src/utils/utils.py:404-412 | treating a directory never deletes a txt or json file |
| StageGC.CollectDirWellFormed | src/utils/utils.py:404-412 | treating a directory in which no `.mp3` entry to delete is a directory keeps the tree well-formed |
| StageGC.CollectedWellFormed | src/utils/utils.py:396-412 | a pass in which no directory raises keeps the tree well-formed |
| StageGC.Subdirs | src/utils/utils.py:397-399 | the pass visits only directories strictly below the base |
| StageGC.ChildDirs | src/utils/utils.py:398-399 | the subdirectories of one visit, joined to its root |
| StageGC.CollectedOnlyDeletesAudio | src/utils/utils.py:396-417 | the pass only deletes mp3 files, and only from the directories it visits, and changes no remaining entry |
| StageGC.CollectedKeepsDerived | src/utils/utils.py:396-417 | the pass never deletes or adds a txt or json file |
| StageGC.CollectedSettles | src/utils/utils.py:396-417 | after the pass every visited directory holds no mp3 or no txt or json file |
| StageGC.SettledUnchanged | src/utils/utils.py:396-417 | a pass over settled directories changes nothing |
| StageGC.CollectedIdempotent | src/utils/utils.py:396-417 | running the pass again over the same directories changes nothing |
| StageGC.CollectOneDir | src/utils/utils.py:406-412 | the removal loop for one directory has the effect of `CollectDir` |
| StageGC.CollectVisit | src/utils/utils.py:398-412 | the loop over one visit's subdirectories |
| StageGC.DeleteMp3IfTextOrJsonExists | src/utils/utils.py:396-417 | the whole pass treats the walked subdirectories in order |
| Download.ChunksSpec | src/youtube/download_mp3.py:32-39 | for a positive size the chunks are non-empty, all but the last hold exactly `size` items, and together they are the input in order; size 0 yields nothing |
| Download.ChunkedIterable | src/youtube/download_mp3.py:32-39 | the generator loop yields `Chunks` |
| Download.NormalizedTitle | src/youtube/download_mp3.py:92 | the same length, no `/`, and every other character kept |
| Download.LiveIffContainsLive | src/youtube/download_mp3.py:93-96 | a title is refused as live iff its lower-cased form contains `live` |
| Download.TranscriptSuffixSubsumed | src/youtube/download_mp3.py:110-111 | the third suffix test is implied by the fourth |
| Download.TitleExistsInFiles | src/youtube/download_mp3.py:99-103 | the result is true iff some listed name contains the title and ends with the suffix |
| Download.StageArtifactExists | src/youtube/download_mp3.py:107-112 | the result is true iff some listed name contains the title and ends with one of the four stage suffixes |
| Download.VideoValidForProcessing | src/youtube/download_mp3.py:90-119 | the gate refuses live titles and titles found in a walked directory, and accepts all others |
| Download.LiveTitle | src/youtube/download_mp3.py:91-95 | the denylist loop reports a live title exactly when one of the three words occurs in the lower-cased normalised title |
| Download.ProcessedInWalk | src/youtube/download_mp3.py:104-113 | the walk loop reports a hit exactly when some visited directory lists a stage artifact whose name contains the normalised title |
| Download.DatePrefix | src/youtube/download_mp3.py:123-124 | at most 10 characters, with no `:` or `.`, and every other character of `publishedAt` kept in place |
| Download.DatePrefixOfTimestamp | src/youtube/download_mp3.py:123-124 | an ISO 8601 time yields its `YYYY-MM-DD` date |
| Download.DownloadName | src/youtube/download_mp3.py:125 | the name is the date prefix, `_` and the title |
| Download.PrepareDownloadInfo | src/youtube/download_mp3.py:122-142 | the audio path is `dir/<d>/<d>.mp3` and the template `dir/<d>/<d>.%(ext)s`; the directory is created only when missing (the helper has no caller in the batch download) |
| Download.DownloadedAudioBlocksRedownload | src/youtube/download_mp3.py:104-113 | once the batch download's `<title>.mp3` (a title without `/`) sits in a walked directory, the video is no longer valid for processing |
| Download.MovedAudioBlocksRedownload | src/youtube/download_mp3.py:104-113 | the same holds after the mp3 pass has moved the file to `<date>_<title>.mp3` |
| Download.DownloadedAudioIsPlaced | src/youtube/download_mp3.py:125-132 | an audio file at the `<d>/<d>.mp3` path of `prepare_download_info` already sits where the mp3 pass puts files, so the pass as written skips it |
| Download.DownloadedAudioIsMoved | src/youtube/download_mp3.py:156 | the batch download's `<dir>/<title>.mp3`, for a catalog title, is moved by the mp3 pass as written into `<date>_<title>/<date>_<title>.mp3` beside it, with the date of a catalog row |
| Download.InfoTitles | src/youtube/download_mp3.py:78 | the titles of the API list, in order |
| Download.SelectByTitle | src/youtube/download_mp3.py:81-84 | a row is selected iff its title is one of the API titles |
| Download.SelectByTitleAppend | src/youtube/download_mp3.py:81-87 | selection keeps catalog order |
| Download.FilterVideosInDataframe | src/youtube/download_mp3.py:73-87 | the table's titles are normalised in place, and the selected rows are returned in table order |
| Download.DownloadVideo | src/youtube/download_mp3.py:42-53 | the download succeeds iff one of the first `retries` attempts succeeds; it stops at the first success; without success it makes `max(retries, 0)` attempts |
| Download.CleanMp3s | src/youtube/download_mp3.py:262-267 | GC, then full-width clean-up, then mp3 reconciliation, then colon merge |
| Download.Run | src/youtube/download_mp3.py:198-259 | the tree is cleaned, the downloads add their files, and the tree is cleaned again |
| Transcripts.Decompose | src/youtube/create_transcripts_from_raw_json_utterances.py:12-15 | `h*3600000 + m*60000 + s*1000 + r == ms` with `m < 60`, `s < 60` and `r < 1000` |
| Transcripts.FormatTime | src/youtube/create_transcripts_from_raw_json_utterances.py:12-16 | the stamp is digits with `:`, `:` and `.` at the last-but-9th, -6th and -3rd places |
| Transcripts.FieldWidth | src/youtube/create_transcripts_from_raw_json_utterances.py:16 | a field below `10^w` is printed with exactly `w` digits |
| Transcripts.ParseFormatTime | src/youtube/create_transcripts_from_raw_json_utterances.py:12-16 | reading the stamp back gives the milliseconds |
| Transcripts.Texts | src/youtube/create_transcripts_from_raw_json_utterances.py:27 | the words' texts, in order |
| Transcripts.ScanWordsInvariant | src/youtube/create_transcripts_from_raw_json_utterances.py:26-41 | the loop loses no word and repeats none, keeps the speaker, chains the segments and closes each emitted one |
| Transcripts.SegmentsSpec | src/youtube/create_transcripts_from_raw_json_utterances.py:19-49 | the segments' words are the utterance's words in order; each segment has the speaker and some words; each starts where the previous ended, the first at the utterance's start; for `n >= 1` all but the last close exactly `n` sentences on a dotted word, and the last does too or ends at the utterance's end with fewer |
| Transcripts.NoWordsNoSegments | src/youtube/create_transcripts_from_raw_json_utterances.py:43-49 | an utterance without words yields no segment |
| Transcripts.RenderAll | src/youtube/create_transcripts_from_raw_json_utterances.py:33-36 | one formatted line per segment |
| Transcripts.ProcessUtterance | src/youtube/create_transcripts_from_raw_json_utterances.py:19-49 | the loop outputs the lines of the segments |
| Transcripts.OutputPath | src/youtube/create_transcripts_from_raw_json_utterances.py:56-57 | the transcript lies in the same directory as its input |
| Transcripts.OutputOfDiarization | src/youtube/create_transcripts_from_raw_json_utterances.py:56-57 | `<D>_diarized_content.json` yields `<D>_diarized_content_processed_diarized.txt` |
| Transcripts.TranscribedSpec | src/youtube/create_transcripts_from_raw_json_utterances.py:52-93 | only the output path can change; it changes only for non-blank content that decodes to a non-empty list, and then it holds each segment line of each utterance followed by a newline |
| Transcripts.GatherSegments | src/youtube/create_transcripts_from_raw_json_utterances.py:85-87 | all utterances' lines, in utterance order |
| Transcripts.WriteLines | src/youtube/create_transcripts_from_raw_json_utterances.py:91-93 | each line followed by a newline |
| Transcripts.ProcessTranscript | src/youtube/create_transcripts_from_raw_json_utterances.py:52-98 | `process_transcript` has the effect of `Transcribed` |
| Diarization.DownloadNameValid | src/youtube/save_speaker_raw_diarized_audio_files.py:40-41 | the audio name of a download passes `is_valid_filename` iff its date part is a date stamp |
| Diarization.DownloadedAudioSelected | src/youtube/save_speaker_raw_diarized_audio_files.py:127 | the audio of a video published at an ISO 8601 time is selected |
| Diarization.Mp3sInSpec | src/youtube/save_speaker_raw_diarized_audio_files.py:127 | a listing yields exactly its selected files, joined to the root |
| Diarization.Mp3FilesSpec | src/youtube/save_speaker_raw_diarized_audio_files.py:127 | the list holds exactly the walked files that end with `.mp3` and start with a date stamp |
| Diarization.Mp3FilesSelected | src/youtube/save_speaker_raw_diarized_audio_files.py:127 | every listed path has a selected name |
| Diarization.StemOfAudio | src/youtube/save_speaker_raw_diarized_audio_files.py:68 | cutting the extension of `<d>.mp3` gives `d` |
| Diarization.TranscriptOfAudio | src/youtube/save_speaker_raw_diarized_audio_files.py:68 | the transcript of `<d>.mp3` is `<d>_diarized_content.json` beside it, and the transcript stage turns it into `<d>_diarized_content_processed_diarized.txt` |
| Diarization.SelectedStem | src/youtube/save_speaker_raw_diarized_audio_files.py:68 | a selected name's stem is the name without `.mp3` |
| Diarization.TranscriptNameDiffers | src/youtube/save_speaker_raw_diarized_audio_files.py:68 | a transcript never lands on its own audio file |
| Diarization.TranscriptPathInjective | src/youtube/save_speaker_raw_diarized_audio_files.py:68 | two selected audio files never share a transcript |
| Diarization.ChannelOfLayout | src/youtube/save_speaker_raw_diarized_audio_files.py:80-83 | in the `<channel>/<video>/<file>` layout, the third segment from the end is the channel |
| Diarization.DiarizedSpec | src/youtube/save_speaker_raw_diarized_audio_files.py:63-108 | only the transcript path can change; an existing transcript means no change; the transcript exists afterwards iff it existed, or the audio exists, the path has a channel and the service answered; the audio is kept |
| Diarization.TranscribeAndSave | src/youtube/save_speaker_raw_diarized_audio_files.py:63-108 | `transcribe_and_save` has the effect of `Diarized` |
| Diarization.DiarizedAllAppend | src/youtube/save_speaker_raw_diarized_audio_files.py:111-116 | transcribing `a + b` is transcribing `a` and then `b` |
| Diarization.DiarizedAllKeeps | src/youtube/save_speaker_raw_diarized_audio_files.py:111-116 | a run never removes or changes an entry |
| Diarization.DiarizedAllOnlyTranscripts | src/youtube/save_speaker_raw_diarized_audio_files.py:111-116 | each new entry is the transcript of a file on the work list |
| Diarization.DiarizedAllCovers | src/youtube/save_speaker_raw_diarized_audio_files.py:111-116 | every listed existing file below a channel that the service answers for gets a transcript |
| Diarization.UnlistedNotTranscribed | src/youtube/save_speaker_raw_diarized_audio_files.py:111-116 | a selected file left off the work list gets no transcript |
| Diarization.Worker | src/youtube/save_speaker_raw_diarized_audio_files.py:111-116 | the worker's calls, one after another, have the effect of `DiarizedAll` |
| Diarization.ChunksPrefix | src/youtube/save_speaker_raw_diarized_audio_files.py:134 | the first `m` chunks of size `size` are the first `m*size` files |
| Diarization.ChunksCount | src/youtube/save_speaker_raw_diarized_audio_files.py:134 | `m` chunks suffice for at most `m*size` files |
| Diarization.AsWrittenFewerFilesFails | src/youtube/save_speaker_raw_diarized_audio_files.py:133-134 | with fewer files than keys the chunk size is 0 and `range` fails |
| Diarization.AsWrittenShares | src/youtube/save_speaker_raw_diarized_audio_files.py:133-137 | when there are at least `k` chunks, key `i` gets chunk `i` |
| Diarization.AsWrittenTakesPrefix | src/youtube/save_speaker_raw_diarized_audio_files.py:133-137 | the keys together get only the first `k*(n div k)` files |
| Diarization.AsWrittenDropsFifthFile | src/youtube/save_speaker_raw_diarized_audio_files.py:133-137 | with five files and two keys, the fifth file is handed to no key |
| Diarization.AsWrittenFifthFileUntranscribed | src/youtube/save_speaker_raw_diarized_audio_files.py:133-137 | with five files and two keys, the fifth never gets a transcript, whatever the service answers |
| Diarization.ShareSize | src/youtube/save_speaker_raw_diarized_audio_files.py:133 | `ceil(n/k)`: `k` shares of it hold `n`, and `k` shares of one less do not |
| Diarization.AssignEvenly | src/youtube/save_speaker_raw_diarized_audio_files.py:133-137 | one work list per key |
| Diarization.AssignEvenlyCovers | src/youtube/save_speaker_raw_diarized_audio_files.py:133-137 | the work lists together are the files in order, each of at most `ceil(n/k)` files |
| Diarization.MainSpec | src/youtube/save_speaker_raw_diarized_audio_files.py:119-137 | stops iff the keys are missing or no file is selected; otherwise one work list per key, together exactly the selected files |
| Diarization.RunWorkers | src/youtube/save_speaker_raw_diarized_audio_files.py:136-139 | the workers, one after another, transcribe the work lists' files in key order |
| Diarization.RunTranscribesEverySelectedFile | src/youtube/save_speaker_raw_diarized_audio_files.py:119-139 | every selected existing file below a channel that the service answers for gets a transcript, and only selected files do |
| Typos.ApplyAllAppend | src/youtube/clean_transcripts_utterances.py:35-36 | applying `a + b` is applying `a` and then `b` |
| Typos.ApplyAllNoTypo | src/youtube/clean_transcripts_utterances.py:35-36 | text holding none of the typos is unchanged |
| Typos.CorrectedNoTypo | src/youtube/clean_transcripts_utterances.py:17-36 | a transcript holding none of the seven typos is written back unchanged |
| Typos.NoLTwosAfterLTwo | src/youtube/clean_transcripts_utterances.py:19-20 | after `L Two` becomes `L2`, nothing spells `L Two s` |
| Typos.LTwosEntryIsDead | src/youtube/clean_transcripts_utterances.py:18-36 | the table acts as if the `L Two s` entry were not there |
| Typos.CorrectText | src/youtube/clean_transcripts_utterances.py:33-36 | the replacement loop yields `Corrected` |
| Typos.TranscriptsInSpec | src/youtube/clean_transcripts_utterances.py:30-32 | a listing yields exactly its files with the transcript ending |
| Typos.ListedSpec | src/youtube/clean_transcripts_utterances.py:29-32 | every listed path is a walked file with the transcript ending |
| Typos.ListedComplete | src/youtube/clean_transcripts_utterances.py:29-32 | every walked file with the transcript ending is listed |
| Typos.TranscriptsInDistinct | src/youtube/clean_transcripts_utterances.py:30-32 | a listing of distinct names lists no path twice |
| Typos.ListedDistinct | src/youtube/clean_transcripts_utterances.py:29-32 | a walk that visits each directory once lists no path twice |
| Typos.FixAllSpec | src/youtube/clean_transcripts_utterances.py:33-42 | the paths are kept; an unlisted entry is unchanged; a listed file holds the corrected text of its old content |
| Typos.TyposCorrectedSpec | src/youtube/clean_transcripts_utterances.py:29-42 | only the files with the transcript ending change, and each now holds its corrected text |
| Typos.CorrectVisit | src/youtube/clean_transcripts_utterances.py:30-42 | the inner loop rewrites one listing's transcripts in order |
| Typos.CorrectTyposInFiles | src/youtube/clean_transcripts_utterances.py:6-42 | `correct_typos_in_files` has the effect of `TyposCorrected` |
| PdfLinks.AbstractToPdfUrl | src/pdf_extraction/save_pdf_from_link.py:6-8 | the result is 4 characters longer and ends with `.pdf` |
| PdfLinks.SingleAbstractRewritten | src/pdf_extraction/save_pdf_from_link.py:6-8 | a URL with a single `/abs/` gets `/pdf/` there and `.pdf` at the end, and is otherwise unchanged |
| PdfLinks.DomainKey | src/pdf_extraction/save_pdf_from_link.py:38 | a key holds no dot |
| PdfLinks.DomainKeyOfLabels | src/pdf_extraction/save_pdf_from_link.py:38 | the key of a dotted host is its second-to-last label; a host of one label has none |
| PdfLinks.DomainKeyExamples | src/pdf_extraction/save_pdf_from_link.py:38 | `www.youtube.com` is keyed `youtube` and `arxiv.org` `arxiv` |
| PdfLinks.StoredSpec | src/pdf_extraction/save_pdf_from_link.py:41-42 | a link changes iff its domain is `arxiv` and it contains `/abs/`, and then it ends with `.pdf` |
| PdfLinks.GroupedNone | src/pdf_extraction/save_pdf_from_link.py:37-38 | the grouping fails iff some host has no second-to-last label |
| PdfLinks.GroupedOrdered | src/pdf_extraction/save_pdf_from_link.py:44-47 | the dictionary's keys are listed once each, in insertion order |
| PdfLinks.GroupedKeys | src/pdf_extraction/save_pdf_from_link.py:37-47 | there is one set per domain that occurs, and no other |
| PdfLinks.GroupedMembers | src/pdf_extraction/save_pdf_from_link.py:37-47 | a link is in a domain's set iff some link of that domain is stored as it |
| PdfLinks.MembersStep | src/pdf_extraction/save_pdf_from_link.py:44-47 | one step adds exactly the stored link to its domain's set |
| PdfLinks.GroupedSpec | src/pdf_extraction/save_pdf_from_link.py:37-47 | the loop fails iff a host lacks a label; otherwise keys are ordered, exactly the occurring domains, and each set holds exactly its domain's stored links |
| PdfLinks.GroupedNoneStays | src/pdf_extraction/save_pdf_from_link.py:37-38 | once the grouping fails on a prefix, it fails on the whole list |
| PdfLinks.GroupLinks | src/pdf_extraction/save_pdf_from_link.py:35-47 | the grouping loop yields `Grouped` |
| PdfLinks.WrittenFiles | src/pdf_extraction/save_pdf_from_link.py:50-52 | each domain's file holds its sorted, newline-joined links |
| PdfLinks.OutputPathInjective | src/pdf_extraction/save_pdf_from_link.py:51 | different domains are saved in different files |
| PdfLinks.WrittenKeeps | src/pdf_extraction/save_pdf_from_link.py:50-52 | a path that is no domain's file keeps its entry |
| PdfLinks.SavedSpec | src/pdf_extraction/save_pdf_from_link.py:23-52 | with every host keyed, each link's domain has a file holding that domain's output, and the link as stored is among its sorted lines |
| PdfLinks.SavedKeeps | src/pdf_extraction/save_pdf_from_link.py:23-52 | apart from the save directory, a path that is no domain's file keeps its entry |
| PdfLinks.ExtractAndSaveLinksByDomain | src/pdf_extraction/save_pdf_from_link.py:11-52 | the function has the effect of `Saved` |
| Text.ReplaceAbsent | src/youtube/clean_transcripts_utterances.py:36 | `str.replace` with an absent pattern changes nothing |
| Text.ReplaceOneChar | src/utils/utils.py:302 | replacing a one-character pattern substitutes character by character |
| Text.ReplaceLeavesNoOccurrence | src/youtube/clean_transcripts_utterances.py:36 | when the replacement cannot form the pattern, no occurrence remains |
| Text.SplitJoin | src/pdf_extraction/save_pdf_from_link.py:38 | joining dot-free labels with `.` and splitting again gives the labels back |
| Text.JoinSplit | src/pdf_extraction/save_pdf_from_link.py:38 | splitting a host at `.` and joining again gives the host back |
| Ordering.SortedSet | src/pdf_extraction/save_pdf_from_link.py:52 | `sorted` of a set is strictly increasing and holds exactly the set's elements |

## Left out

- Network and services are left out: the YouTube Data API, yt_dlp downloads, AssemblyAI transcription and the reading of the links file. Their outcomes are parameters:
  - a per-attempt success function;
  - a tree of downloaded files;
  - the service's JSON text per file;
  - the list of links with their `netloc`.
- JSON decoding, `re.findall` and `urlparse` are parameters. So is the `Path -> Option<...>` transcription function.
- Concurrency is left out. The thread and process pools and the asyncio tasks are taken one after another, in submission order.
- `random_sleep`, `time.sleep`, `set_api_key`, `utterance_to_dict`, the HTTP logging filter, `start_logging`, `timeit`, `root_directory`, `authenticate_service_account` and all `print` and `logging` output are left out. They only touch the environment or the log.
- OS error paths are left out: `os.rename` onto a non-empty directory, permission errors. The tree primitives are total functions.
- ColonMerge.MergeItem: a conflicting source item that is a directory makes `os.remove` raise `IsADirectoryError` (src/utils/utils.py:335), and nothing catches it, so `merge_directories` stops there. The model does not stop: it drops only that item's key and leaves its subtree without a parent (ColonMerge.ConflictingDirOrphansSubtree). So ColonMerge.MergeIntoTarget, MergeSiblingSpec and MergeDirectoriesSpec describe such a run past the point where the code raises. ColonMerge.MergeItemsWellFormed states that the runs without a raise (no turn satisfies ColonMerge.RaisesAt) keep the tree well-formed.
- StageGC.CollectDir: an entry named `*.mp3` that is a directory makes `os.remove` raise at src/utils/utils.py:412, and the pass stops. The model removes only its key and goes on. StageGC.CollectedWellFormed covers the runs where no directory raises (StageGC.RaisesIn).
- The order of `os.walk` and `os.listdir` is not modelled. The walk is a given sequence of visits. `os.listdir(src)` in the colon merge is taken in sorted order, and the other listings are sets.
- `download_audio_batch`, `process_video_batches`, `process_video_batches_async`, `get_youtube_channels_from_file` and the CLI `main` of `download_mp3.py` are left out. They are async orchestration and argument parsing around the modelled gate, filter and naming.
- `run` of `create_transcripts_from_raw_json_utterances.py` is left out. It is a walk with the `_diarized_content.json` filter, followed by a thread-pool map of `process_transcript`.
- src/youtube/extraction/youtube_downloader.py and src/utils/download.py are not part of this model.
- Text.ToLower: lower-cases ASCII letters only. Python's `str.lower` also folds other letters, which can matter only for non-ASCII titles.
- Diarization.IsValidFilename: `\d` is taken as the ASCII digits. Python's `re` also matches other Unicode decimal digits.
- Transcripts.FormatTime: defined for non-negative milliseconds only. The service never reports a negative time, and Python's `divmod` would floor a negative one.
- Transcripts.TranscribedSpec: the `SKIP_EXISTING` branch is dropped, because the constant is `False`. An exception inside `process_utterance` on malformed fields is not modelled; the decoder's result is typed.
- Diarization.ChannelName: the `IndexError` for a path of fewer than three segments is caught by the code's `except`. It is modelled as "no transcript written".
- PdfLinks.DomainKey: the `IndexError` for a host without a dot escapes the function. It is modelled as `None`, and in that case nothing is written.
- PdfLinks.SingleAbstractRewritten: the rewrite is stated only for URLs with exactly one `/abs/`. For more occurrences only the length and the `.pdf` ending are stated.
- Typos.FixAllSpec: requires a walk that lists no path twice (`WalkedOnce`, as `os.walk` does). A listing with repeats would apply the corrections twice.
- Typos.Corrected: it is not proved that a corrected text holds none of the typos. Only text that holds none is shown to be left unchanged, and the `L Two s` entry is shown to be dead.
- Download.ValidForProcessing: the `except` branch that returns `False` is not modelled, because no modelled operation raises.
- Download.PrepareDownloadInfo: models a helper that the batch download does not call; `process_video_batches` writes `<dir>/<title>.mp3` (line 156), which Download.DownloadedAudioIsMoved covers.
- ColonMerge.MergeIntoTarget: the moved subtree's contents are stated only for entries whose standard name no sibling shares and whose target name was free. When siblings share it, the first in sorted order takes the name and the others are deleted, which ColonMerge.MergeItemsKeepsTarget covers.
- ColonMerge.RemoveEmptyReportedKept: requires a queue of present directories without repeats. A directory queued twice could be reported at its first turn and removed at a later one.
- Fullwidth.CleanWalkTwice: takes as hypotheses that the walk is bottom-up and that each visit lists every entry of its directory, as `os.walk(topdown=False)` does over an unchanging tree.
- Download.Run: the downloads are a given tree added to the cleaned tree, rather than the per-video effect of yt_dlp.
- StageGC.CollectedIdempotent: idempotence is over the same directory list. A second `os.walk` of the changed tree lists the same directories, because the pass deletes only files.

## Findings

| source | as written | input that shows it | evidently intended | confidence | as-written member | corrected member |
|---|---|---|---|---|---|---|
| src/utils/utils.py:147-148 | runs of spaces are collapsed before double quotes are removed (also src/youtube/download_mp3.py:75) | the title `a " b` normalises to `a  b`, which still holds a double space | a normalised title has no double space, and normalising is idempotent: quotes removed first | not executed | Catalog.NormalizeAsWrittenNotIdempotent | Catalog.NormalizeTitleIdempotent |
| src/youtube/save_speaker_raw_diarized_audio_files.py:133-137 | `files_per_key = n // k`, chunks of that size, key `i` gets chunk `i % len(chunks)` | 5 files and 2 keys give chunks `[a,b] [c,d] [e]`; the keys get the first two, so `e` is never transcribed. With fewer files than keys, `range` gets step 0 and raises `ValueError` | every selected file is handed to exactly one key: chunks of `ceil(n/k)` | not executed | Diarization.AsWrittenDropsFifthFile | Diarization.AssignEvenlyCovers |
| src/utils/utils.py:213-220 | the txt and json passes skip only when the directory is `<date>_<title>` for the title read off the file | the json of "2023 Recap" (2023-12-30) already at `2023-12-30_2023 Recap/2023-12-30_2023 Recap_diarized_content.json` is moved into `2023-12-30_2023 Recap/2023-12-30_2023-12-30_2023 Recap/`, and again on every later run (lines 263-270 alike) | a file already in its own `<date>_<title>` directory is left alone, as the mp3 pass does | not executed | Reconcile.RecapIsMovedAgain | Reconcile.PlacedPassIsIdentity |
