# whisper-gradio transcription outputs, in Dafny

A model of the deterministic core of the whisper-gradio `app.py`. The app
transcribes an uploaded audio file and hands back the same transcript in
three forms: plain text, SubRip subtitles and JSON. It writes each form to
`transcriptions/` and bundles the three files into one zip archive. The
speech model itself is outside the model. What remains, and what is modelled
here:

- `format_timestamp`: a number of seconds becomes an SRT timecode
  `HH:MM:SS,mmm`, through Python's `timedelta` normalisation
  (modules `Timecode` and `Digits`).
- the loop in `transcribe` that builds the SubRip document. It makes one
  numbered block per segment, and each block holds the two timecodes
  joined by ` --> ` and the segment's text with its whitespace stripped
  (modules `Srt` and `Whitespace`).
- `save_files`. It covers:
  - the stem of the upload's base name;
  - the four output paths;
  - creating the directory;
  - the three text writes;
  - the archive, which holds those files under their bare names.

  This is module `Bundle`, over a filesystem modelled as a map from path
  to node.
- `transcribe` composed from the pieces above, with the model's result and
  its `json.dumps` text as inputs (module `App`).

Timestamps are integers of microseconds: the value a `timedelta` holds. Python
normalises a `timedelta` with floor division, and Dafny's `/` and `%` agree
with floor division whenever the divisor is positive. Negative inputs
therefore behave as they do in Python: the day count goes negative and the
seconds field stays within one day.

Each block joins the two timecodes with ` --> ` (app.py:66).

## Model

| member | source | states |
|---|---|---|
| Timecode.FromMicros | app.py:13 | the timedelta built from a microsecond count is normalised (0 <= seconds < 86400, 0 <= microseconds < 10^6) and denotes exactly that count |
| Timecode.NormalFormUnique | app.py:13 | any normalised timedelta denoting the same count is the one `FromMicros` builds, so the days/seconds/microseconds split is forced |
| Timecode.Fields | app.py:14-17 | hours, minutes, seconds and milliseconds are in range (hours < 24) and together denote the input's offset into its day, truncated to whole milliseconds |
| Timecode.ClockDeterminedByMillis | app.py:14-17 | in-range fields denoting the same offset are the same fields, and conversely |
| Timecode.RenderIsPadded | app.py:18 | the timecode is the `02d` rendering of hours, minutes and seconds and the `03d` rendering of milliseconds, separated by `:`, `:` and `,` |
| Timecode.Render | app.py:18 | the rendered fields always have the timecode shape; `RenderIsPadded` ties each field to its `02d`/`03d` rendering and `ReadRender` reads the fields back |
| Timecode.FormatTimestamp | app.py:11-18 | the result is always twelve characters: digits, with `:` at positions 2 and 5 and `,` at 8 |
| Timecode.ReadClock | app.py:18 | a string reads back as four numbers exactly when it has the timecode shape |
| Timecode.ReadRender | app.py:18 | reading a rendered timecode recovers the fields rendered |
| Timecode.ParseFormat | app.py:11-18 | round trip: the timecode reads back as fields denoting the input's millisecond offset into its day |
| Timecode.FormatEqualIff | app.py:11-18 | two inputs give the same timecode if and only if they fall in the same millisecond of a day |
| Timecode.DayWrap | app.py:13-14 | adding any whole number of days, negative ones included, does not change the timecode: hours wrap at 24 |
| Timecode.SameMillisecond | app.py:17 | milliseconds are truncated, not rounded: inputs within one millisecond print alike |
| Timecode.FormatZero | app.py:11-18 | zero seconds prints `00:00:00,000` |
| Timecode.FormatOneHourOneMinute | app.py:11-18 | 3661.5 seconds prints `01:01:01,500` |
| Digits.Decimal | app.py:66 | `{i}` renders as a nonempty digit string with no leading zero (unless the value is 0) that reads back as the value |
| Digits.DecimalLength | app.py:18 | the plain rendering fits in w digits exactly when the value is below 10^w |
| Digits.Pad | app.py:18 | zero padding keeps the value and yields the longer of the plain rendering and the width |
| Digits.PadWidth | app.py:18 | a value below 10^width fills exactly `width` characters |
| Digits.PadTwoDigits | app.py:18 | `02d` of a value below 100 is its tens digit then its units digit |
| Digits.PadThreeDigits | app.py:18 | `03d` of a value below 1000 is its hundreds, tens and units digits |
| Whitespace.IsSpace | app.py:65 | the characters `str.isspace()` accepts; `IsSpaceExamples` pins ASCII and Unicode spaces in and the zero-width space, BOM, ESC and letters out |
| Whitespace.IsSpaceExamples | app.py:65 | TAB, LF, CR, SPACE, U+001F, NO-BREAK SPACE, THIN SPACE and IDEOGRAPHIC SPACE are whitespace; `a`, U+200B, U+FEFF and ESC are not |
| Whitespace.SkipForward | app.py:65 | the index returned ends a run of whitespace starting at the given index, and that run cannot be extended |
| Whitespace.SkipBackward | app.py:65 | the cut returned starts a run of whitespace ending at the upper bound, and that run cannot be extended downward past the lower bound |
| Whitespace.SkipForwardStops | app.py:65 | the end of a maximal whitespace run is the only place forward skipping can stop |
| Whitespace.SkipBackwardStops | app.py:65 | the start of a maximal whitespace run is the only place backward skipping can stop |
| Whitespace.Strip | app.py:65 | the result is a slice of the input between two all-whitespace margins and neither of its ends is whitespace |
| Whitespace.StripUnique | app.py:65 | an unpadded core between any two whitespace margins is exactly what stripping returns |
| Whitespace.StripIdempotent | app.py:65 | stripping twice is stripping once |
| Whitespace.StripFixedIff | app.py:65 | stripping leaves a string unchanged if and only if neither end is whitespace |
| Srt.CueOf | app.py:63-65 | a segment yields two well-formed timecodes and a text with no surrounding whitespace |
| Srt.CuesOf | app.py:62-65 | one cue per segment, in segment order |
| Srt.SrtOf | app.py:61-66 | the document is empty exactly when there are no segments |
| Srt.SrtOfEndsBlank | app.py:61-66 | a document built from at least one segment ends in a blank line |
| Srt.SrtFromSnoc | app.py:62-66 | one more cue appends exactly one block, numbered one past the last |
| Srt.CuesOfSnoc | app.py:62-65 | one more segment adds exactly its own cue at the end |
| Srt.SrtSnoc | app.py:61-66 | one more segment appends exactly one block, numbered by the new segment count |
| Srt.AssembleSrt | app.py:61-66 | the loop that appends block by block produces the document for all segments |
| Srt.SrtOfIsConcat | app.py:61-66 | the document is the concatenation of one block per segment, block k carrying number k+1 and the k-th segment's cue |
| Srt.Block | app.py:66 | one numbered block; its layout is stated by `BlockLayout` and its contents by `SegmentBlockDecodes` |
| Srt.BlockLayout | app.py:66 | a block is the index line, then the two timecodes around ` --> `, then the text, then a blank line, at fixed offsets after the index |
| Srt.SegmentBlockDecodes | app.py:62-66 | a segment's block reads back the millisecond offsets of its start and end and its stripped text |
| Bundle.LastIndexOf | app.py:71 | the index returned holds the character and no later position does, or -1 when it is absent |
| Bundle.Basename | app.py:71 | `os.path.basename` is the suffix of the path after its last `/` (the whole path when there is none) |
| Bundle.BasenameOfJoin | app.py:71 | the base name of `dir/name` is `name` whenever `name` holds no `/` |
| Bundle.PathName | app.py:27 | a path's name holds no `/` and is never `.` |
| Bundle.PathNameOfEmpty | app.py:27 | the empty path and `.` have the empty name, so an upload path ending in `/` or `/.` yields an empty stem |
| Bundle.PathNameFacts | app.py:27 | a plain component is its own name, a trailing `/` or `/.` does not change a path's name |
| Bundle.SuffixStart | app.py:27 | the suffix starts at the last dot of the name exactly when that dot is neither the first nor the last character, and there is no suffix otherwise |
| Bundle.Stem | app.py:27 | `Path.stem`; stated by `StemSuffixSplit`, `StemOfExtended` and `StemExamples` |
| Bundle.Suffix | app.py:27 | `Path.suffix`; stated by `StemSuffixSplit` and `StemOfExtended` |
| Bundle.StemOf | app.py:27 | the stem of the base name's last component; `StemOfHasNoSlash` and `UploadNames` state it |
| Bundle.StemOfHasNoSlash | app.py:27 | the derived stem is a single path component (no `/`) |
| Bundle.StemSuffixSplit | app.py:27 | stem followed by suffix is the name; the suffix is empty or one dot-led extension with no further dot |
| Bundle.StemExamples | app.py:27 | `clip.tar.gz` has stem `clip.tar`; `.bashrc`, `notes.` and `..` keep their whole name |
| Bundle.StemOfExtended | app.py:27 | `name.ext`, with no dot in `ext`, has stem `name` and suffix `.ext` |
| Bundle.UploadNames | app.py:27 | a one-component upload `name.ext` gives the stem `name` |
| Bundle.NamesFor | app.py:28-31 | the four bare names, stem plus `.txt`, `.srt`, `.json` and `_all.zip`; `ArchiveNamesAreBareNames` states they are the paths' last components |
| Bundle.PathsFor | app.py:28-31 | the four output paths under the directory; `PathsDistinct` and `ArchiveNamesAreBareNames` state them |
| Bundle.ArchiveNamesAreBareNames | app.py:28-31 | for any base name, each output path's `.name` is its bare name, so the archive entries are named as the files |
| Bundle.PathsDistinct | app.py:28-31 | the four output paths differ from each other and from the directory |
| Bundle.MakeDir | app.py:23-24 | in this model `mkdir(exist_ok=True)` fails exactly when a non-directory stands at the path, and otherwise puts a directory there |
| Bundle.WriteText | app.py:34-36 | in this model a text write fails exactly on a directory, and otherwise replaces only that path |
| Bundle.ReadText | app.py:40-42 | in this model a read succeeds exactly on a text file and returns its contents |
| Bundle.WriteZip | app.py:39-42 | in this model the archive write succeeds exactly when no directory stands at its path and every source reads; it then holds the entries read, in order, and no other path changes |
| Bundle.ReadEntries | app.py:40-42 | in this model archive entries are read exactly when every source is a text file, one per source in order, each under its given name with that file's contents |
| Bundle.ReadWrittenEntries | app.py:39-42 | the archive reads back exactly the three texts just written, under their bare names |
| Bundle.SaveFiles | app.py:20-44 | `save_files`: the save under the stem derived from the base name; stated by `SaveFilesSpec` |
| Bundle.SaveUnder | app.py:23-44 | the directory, the three writes and the archive in order, stopping at the first error; stated by `SaveSucceedsIff`, `SaveSpec`, `SavePartial` and `SaveIdempotent` |
| Bundle.SaveSucceedsIff | app.py:20-44 | in this model saving succeeds if and only if nothing but a directory stands at the output directory and no directory stands at any of the four output paths |
| Bundle.SaveSpec | app.py:20-44 | on success the returned paths are the four output paths; the directory exists; the paths hold the three texts and the archive; no other path changes |
| Bundle.SaveFilesSpec | app.py:20-44 | with the outputs writable, `save_files` returns the four paths of the derived stem and leaves exactly the saved filesystem |
| Bundle.SavedHolds | app.py:24-42 | after a save the directory exists and each output path holds its text or the archive |
| Bundle.ArchiveMatchesFiles | app.py:39-44 | the archive holds three entries, and each one equals the file written beside it under the entry's name |
| Bundle.SavedWritable | app.py:20-44 | after a save the same outputs can be written again |
| Bundle.SavedTwice | app.py:20-44 | writing the same bundle over itself leaves the filesystem as it was |
| Bundle.SaveIdempotent | app.py:20-44 | saving the same texts under the same name twice gives the same result and filesystem as saving once |
| Bundle.SavePartial | app.py:33-42 | with a directory at the archive path the call raises only after the three text files have been replaced: nothing is rolled back |
| App.Transcribe | app.py:47-76 | the handler; stated by `TranscribeSucceedsIff`, `TranscribeOutcome` and `TranscribeViewsAgree` |
| App.TranscribeOutcome | app.py:55-76 | with the outputs writable, the handler returns the saved paths, the text, the SubRip document built from the segments and the JSON text, and leaves the saved filesystem |
| App.TranscribeSucceedsIff | app.py:69-72 | in this model the handler fails exactly when the stem of the upload's base name cannot be written to the output directory |
| App.TranscribeViewsAgree | app.py:55-76 | the strings shown, the files written and the archive entries are the same three texts, and the subtitle text is the document built from the segments |
| App.UploadNaming | app.py:71 | an upload at `dir/name.ext` is saved as `transcriptions/name.txt`, `.srt`, `.json` and `name_all.zip` |

## Left out

- The speech model (`whisper.load_model`, `model.transcribe`): the transcript is an input of `App.Transcribe`.
- `json.dumps(result, indent=2)`: its text is an input. JSON serialisation is not modelled.
- The GPU decorator and the Gradio interface: these are framework wiring with no logic of their own.
- The float-to-`timedelta` conversion: segment times enter as whole microseconds. Python rounds a float number of seconds to the nearest microsecond (half to even), and that rounding is not modelled.
- Timecode.FromMicros: it does not raise `OverflowError` outside timedelta's range of ±999999999 days. Times that large do not occur in audio.
- Bundle.WriteText: it covers only the directory-in-the-way error. Permission errors, a full disk and a missing parent directory are not modelled.
- Bundle.WriteZip: the archive is its entries' names and texts. Compression, timestamps and the byte layout are not modelled, and neither is text encoding. Opening the archive can also fail on a permission error, a read-only filesystem or a full disk; those errors are not modelled, so `SaveSucceedsIff` and `TranscribeSucceedsIff` state the success condition of the model only.
- Bundle.Stem: it follows Python up to 3.13, where a name ending in `.` has no suffix. Python 3.14 changed that case.
- Bundle.ReadText, Bundle.ReadEntries, Bundle.WriteZip: `zipfile` behaves differently on sources `save_files` never passes it. It archives a directory as a `name/` entry, it reads any regular file's bytes, and it truncates the archive before reading any source, whereas the model fails without touching the archive. `save_files` only archives the three text files it has just written, and `ReadWrittenEntries` shows every read then succeeds.
- Bundle.PathName: it covers POSIX paths only, so Windows drive letters and backslashes are not modelled.
- Bundle.MakeDir: it does not check for a missing parent of the output directory, which is a relative single component. Permission errors, a read-only filesystem and a full disk are not modelled either: the only failure modelled is a non-directory at the path.
- Concurrency: two requests writing the same stem at once are not modelled. Each call is modelled alone.
