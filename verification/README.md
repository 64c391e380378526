# A verified model of the narration-video pipeline core

This project models the parts of the short-video pipeline that compute something, as opposed to driving media tools. There are five:

- **Captions** (`src/narrator/whisper_transcribe.py`). `chunk_words` groups timed words into captions. The SubRip writer numbers the captions from 1 and writes `HH:MM:SS,mmm --> HH:MM:SS,mmm` lines. A segment without word timings falls back to sharing its duration evenly among its tokens.
- **Clips** (`src/videoclipper/videoclipper.py`).
  - `get_all_videos_from_category` walks a category folder and keeps the files whose lower-cased extension is a video extension.
  - `extract_clip_from_video` clamps the end of a slice to the video.
  - `create_clip_with_merging` draws random videos and takes slices of them. It stops once at most 0.1 s is left to fill or `max_videos` videos have been drawn, then merges the slices.
- **WAV header** (`src/narrator/gemini_narrator.py`).
  - `parse_audio_mime_type` reads the sample width and the rate from a media type such as `audio/L16;rate=24000`.
  - `convert_to_wav` puts the 44-byte header of a one-channel PCM WAVE file in front of the samples. That header is a `RIFF` form of type `WAVE`, with a 16-byte `fmt ` chunk (format tag 1, WAVE_FORMAT_PCM) and a `data` chunk.
- **Voice picker** (`src/utils/voice_picker.py`). `pick_voice` reads its argument in this order: an exact voice name, then a gender word, then a `style-gender` pair, and otherwise falls back to any voice. It then chooses from constant tables.
- **Speed-up** (`src/utils/speed_increaser.py`). `speed_up_video` checks its input, scales the video timestamps by `1/speed`, and splits the audio speed into a chain of `atempo` factors. Each factor lies in ffmpeg's accepted range of 0.5 to 2.0.

The files:

| file | module | contents |
|---|---|---|
| `wrappers.dfy` | `Wrappers` | `Option` and `Result` |
| `seqs.dfy` | `Seqs` | generic sequence lemmas, `MapFilter` (a filtered map), `LastSome` (the last value a sequence yields) |
| `text.dfy` | `Text` | Python's `str.isspace`, `strip`, `split()`, `split(c)`, `join`, ASCII `lower`, decimal output and `int()` |
| `timestamps.dfy` | `Timestamps` | the `fmt` timestamp and its reader |
| `captions.dfy` | `Captions` | `chunk_words`, the fallback cues, and the SubRip writer as methods |
| `clips.dfy` | `Clips` | the video filter and walk, the slice clamp, and the merging loop |
| `wav.dfy` | `Wav` | the media-type parser and the header packer |
| `voices.dfy` | `Voices` | the voice tables and `pick_voice` |
| `speed.dfy` | `Speed` | the checks and the `atempo` chain |

How the model represents the inputs:

- **Loops.** Code that loops and appends is modelled as methods with loop invariants. Each method is proved equal to a specification function, and that function's properties are proved as lemmas.
- **Randomness.** Every random choice is a parameter:
  - `random.choice` is an index, or a number taken modulo the length of the list.
  - `random.uniform(a, b)` is `a + (b - a) * u` for a given `u` in `[0, 1)`.
- **The file system.** Whether a path exists is a `bool` parameter. The folder walk is a sequence of (folder, file names) steps. The durations of the videos are a pool of non-negative reals.
- **Times.** Caption times are whole milliseconds. Clip durations and speeds are exact reals.

## Model

| member | source | states |
|---|---|---|
| Captions.ChunkWords | src/narrator/whisper_transcribe.py:58-78 | A zero chunk size fails as Python's `range` with step 0 does; a negative one yields no chunk; otherwise the chunks are `ChunksOf` the words |
| Captions.ChunkLoop | src/narrator/whisper_transcribe.py:69-78 | The loop over `range(0, len(words), size)` for a positive size builds exactly `ChunksOf` the words |
| Captions.ChunksAreWindows | src/narrator/whisper_transcribe.py:70-77 | Chunk `k` is made from the `k`-th slice `words[i:i+size]`: there is one chunk per non-empty slice, none is skipped |
| Captions.WindowsShape | src/narrator/whisper_transcribe.py:70-71 | Every slice has 1 to `size` words, and every slice but the last is full |
| Captions.WindowsFlatten | src/narrator/whisper_transcribe.py:70-71 | The slices, concatenated, give back exactly the words from the start position on |
| Captions.WindowsCount | src/narrator/whisper_transcribe.py:70 | The number of slices is the ceiling of the word count divided by `size` |
| Captions.ChunkTextSplits | src/narrator/whisper_transcribe.py:74 | Splitting a chunk's text on white space gives back the stripped words of its group |
| Captions.FallbackTimeBounds | src/narrator/whisper_transcribe.py:127-133 | A fallback time is never negative. It starts at the segment's start for position 0, ends at its end for the last position, and stays between them |
| Captions.FallbackAreWindows | src/narrator/whisper_transcribe.py:130-137 | Fallback cue `k` carries the `k`-th group of tokens joined by single spaces |
| Captions.FallbackFromSpan | src/narrator/whisper_transcribe.py:130-136 | Each fallback cue ends where the next one starts; the first starts at its token's share of the duration, and the last ends at the segment's end |
| Captions.FallbackCuesSpan | src/narrator/whisper_transcribe.py:124-136 | The fallback cues of a segment run from exactly its start to exactly its end, with no gap or overlap between consecutive cues |
| Captions.FallbackCuesCoverTokens | src/narrator/whisper_transcribe.py:126-137 | The fallback cues' texts, split again, give back all tokens of the stripped segment text, in order |
| Captions.EmptyTextNoCues | src/narrator/whisper_transcribe.py:126-130 | A segment without words and without tokens writes no caption |
| Captions.SrtTextAt | src/narrator/whisper_transcribe.py:111-138 | The record of cue `j` carries number `j + 1`; the file is the records of the earlier cues, then that record, then the later records numbered on from `j + 2` |
| Captions.SrtTextSnoc | src/narrator/whisper_transcribe.py:113-138 | One more segment appends exactly its own records, numbered on from where the file stopped |
| Captions.Record | src/narrator/whisper_transcribe.py:120-137 | A record split at its line breaks is the caption number, the `start --> end` line, the text and a blank line, when the text is on one line |
| Captions.WriteChunkRecords | src/narrator/whisper_transcribe.py:119-123 | The loop over chunks appends one numbered record per chunk and advances the counter by the number of chunks |
| Captions.WriteFallbackRecords | src/narrator/whisper_transcribe.py:130-138 | The fallback loop appends one numbered record per token group and advances the counter accordingly |
| Captions.WriteWordCues | src/narrator/whisper_transcribe.py:115-123 | A segment with words fails for a zero size and otherwise appends the records of its cues |
| Captions.WriteFallbackCues | src/narrator/whisper_transcribe.py:124-138 | A segment without words fails for a zero size and otherwise appends the records of its fallback cues |
| Captions.WriteSegment | src/narrator/whisper_transcribe.py:113-138 | One segment appends the records of its cues, whichever branch it takes, and fails only for a zero size |
| Captions.WriteSegments | src/narrator/whisper_transcribe.py:110-138 | The file is the numbered records of all cues of all segments; a zero size fails exactly when there is a segment |
| Captions.WriteSrt | src/narrator/whisper_transcribe.py:101-138 | The SubRip text is `SrtText` of the segments, or the zero-size error |
| Timestamps.RoundMs | src/narrator/whisper_transcribe.py:108 | The rounded time lies within half a millisecond of the time |
| Timestamps.FieldsRecompose | src/narrator/whisper_transcribe.py:104-108 | Hours, minutes, seconds and milliseconds recompose the time; minutes and seconds stay below 60 |
| Timestamps.Fmt | src/narrator/whisper_transcribe.py:104-108 | A timestamp of whole milliseconds has its `:`, `:` and `,` in fixed places from the end; it is 12 characters long exactly when the time is under 100 hours |
| Timestamps.FmtFields | src/narrator/whisper_transcribe.py:104-108 | The four fields of a timestamp are digits that read as the hours, minutes, seconds and milliseconds of the time, so the minutes and the seconds read below 60 |
| Timestamps.ParseFmt | src/narrator/whisper_transcribe.py:104-108 | Reading a written timestamp gives back the time, so nothing is lost |
| Timestamps.FmtAsWritten | src/narrator/whisper_transcribe.py:104-108 | `fmt` as written, splitting off hours and minutes before rounding the seconds: the text has the same `HH:MM:SS,mmm` layout |
| Timestamps.AsWrittenReadsBack | src/narrator/whisper_transcribe.py:104-108 | What `fmt` as written prints always reads back, as a time within half a millisecond of the input |
| Timestamps.SixtySeconds | src/narrator/whisper_transcribe.py:104-108 | As written, every time from 59.9995 s up to 60 s prints as `00:00:60,000`; rounding first gives `00:01:00,000` |
| Clips.Extension | src/videoclipper/videoclipper.py:35 | `os.path.splitext(name)[1]` is empty or starts with a dot, and is shorter than the name |
| Clips.ExtensionShape | src/videoclipper/videoclipper.py:35 | A non-empty extension is a suffix of the name that holds no other dot and no `/`, and some character of the last path component before it is neither a dot nor a `/` |
| Clips.NoDotNoExtension | src/videoclipper/videoclipper.py:35 | A name without a dot has no extension |
| Clips.DefaultVideo | src/videoclipper/videoclipper.py:21-35 | A plain stem followed by a default extension, in any mix of upper and lower case, has that extension and is kept |
| Clips.JoinPathShape | src/videoclipper/videoclipper.py:36 | `os.path.join(root, name)` ends with the name; for a relative name it starts with the folder, with at most one `/` between them |
| Clips.KeptFilesMembership | src/videoclipper/videoclipper.py:34-36 | A path is kept from a folder exactly when it joins the folder with one of its files that passes the filter |
| Clips.FoundMembership | src/videoclipper/videoclipper.py:33-36 | A path is found exactly when some folder of the walk holds a file that passes the filter and the path joins the two |
| Clips.KeepVideos | src/videoclipper/videoclipper.py:34-36 | The inner loop appends exactly the kept paths of one folder, in order |
| Clips.CollectVideos | src/videoclipper/videoclipper.py:9-45 | A missing folder fails first, and no video found fails next; otherwise the result is every kept path of the walk. Without extensions, the defaults apply |
| Clips.ClipEnd | src/videoclipper/videoclipper.py:98-99 | The end is the requested end or the video's end, whichever comes first |
| Clips.Uniform | src/videoclipper/videoclipper.py:141-149 | `random.uniform(0, b)` with a draw in [0, 1) lies in [0, b] |
| Clips.Round | src/videoclipper/videoclipper.py:133-155 | A round slices the drawn video, and the slice length plus what is left afterwards is what was left before |
| Clips.RoundWithin | src/videoclipper/videoclipper.py:133-155 | Each round slices the drawn video and stays within it |
| Clips.RoundLong | src/videoclipper/videoclipper.py:139-145 | A video long enough gives a slice of exactly the remaining length, starting no later than its duration less that length; nothing is left |
| Clips.RoundShort | src/videoclipper/videoclipper.py:147-155 | A short video is taken to its end, starting at 0 or within its first 30 %; what is left drops by the slice length and stays positive |
| Clips.FillConservation | src/videoclipper/videoclipper.py:124-157 | The slices' total length plus what is left equals the required duration |
| Clips.FillRounds | src/videoclipper/videoclipper.py:130 | There are at most `max_videos` slices, and fewer only when at most 0.1 s is left |
| Clips.FillWithin | src/videoclipper/videoclipper.py:130-157 | Every slice lies within its video |
| Clips.PlanOf | src/videoclipper/videoclipper.py:159-167 | No slice fails; otherwise the clip is the single slice, or a merge of all slices when there are several, and the shortfall is flagged exactly when more than 0.1 s is left |
| Clips.AssemblePlan | src/videoclipper/videoclipper.py:124-167 | The loop's slices and remainder are those of `FillFrom`. The clip is a merge of several slices or the single one; no slice at all fails; the shortfall is flagged above 0.1 s |
| Wav.AfterFirst | src/narrator/gemini_narrator.py:57-63 | `split(c, 1)[1]` exists exactly when `c` occurs, and is what follows the first `c` |
| Wav.Apply | src/narrator/gemini_narrator.py:53-65 | A piece sets the rate it holds and the width it holds, never both, and leaves the other parameter as it was |
| Wav.ParamsOfLast | src/narrator/gemini_narrator.py:49-67 | The rate and the width are each decided by the last piece that sets them, else by the defaults |
| Wav.RateIsLastSetting | src/narrator/gemini_narrator.py:50-60 | The rate is 24000 when no piece sets it, and otherwise the value of the last piece that sets it |
| Wav.BitsIsLastSetting | src/narrator/gemini_narrator.py:61-65 | The width is 16 when no piece sets it, and otherwise the value of the last `audio/L` piece |
| Wav.ParseAudioMimeType | src/narrator/gemini_narrator.py:48-67 | The loop over the `;`-separated pieces returns `MimeParams` of the media type |
| Wav.WidthPiece | src/narrator/gemini_narrator.py:61-63 | The piece `audio/L<n>` sets the width to `n` and not the rate |
| Wav.RatePiece | src/narrator/gemini_narrator.py:55-58 | The piece `rate=<n>` sets the rate to `n` and not the width |
| Wav.MimeRoundTrip | src/narrator/gemini_narrator.py:48-67 | `audio/L<b>;rate=<r>` parses back to width `b` and rate `r` |
| Wav.U16RoundTrip | src/narrator/gemini_narrator.py:30-31 | A 16-bit little-endian field reads back as the number written |
| Wav.U32RoundTrip | src/narrator/gemini_narrator.py:30-31 | A 32-bit little-endian field reads back as the number written |
| Wav.HeaderFields | src/narrator/gemini_narrator.py:21-28 | The header is PCM (format 1), one channel, with a 16-byte `fmt ` chunk; the RIFF size counts the `WAVE` tag and both chunks with their heads; block align is the bytes per sample and the byte rate is the rate times the block align |
| Wav.Pack | src/narrator/gemini_narrator.py:30-45 | The packed header is 44 bytes long |
| Wav.ReadPack | src/narrator/gemini_narrator.py:30-46 | Reading the packed header, followed by any samples, gives back every field |
| Wav.ConvertToWav | src/narrator/gemini_narrator.py:18-46 | The result is `WavOf` of the samples and the parsed media type |
| Wav.WavLayout | src/narrator/gemini_narrator.py:18-46 | `convert_to_wav` fails exactly when a field does not fit. Otherwise it returns 44 + n bytes, the samples follow the header unchanged, and the header reads back as the computed fields |
| Wav.PackableExactly | src/narrator/gemini_narrator.py:24-45 | The header fits exactly when the data size, rate, width and byte rate fit their fields |
| Voices.StylesWithinGenders | src/utils/voice_picker.py:3-42 | Every style lists both genders; each list is non-empty and holds only voices of that gender |
| Voices.PickVoice | src/utils/voice_picker.py:45-86 | An exact voice name comes back unchanged; every answer is a known voice |
| Voices.NamesAreNotRequests | src/utils/voice_picker.py:65-81 | No voice name reads as a gender word or holds a `-`, so the exact-name case hides no other request |
| Voices.PickGender | src/utils/voice_picker.py:71-72 | `female` or `male`, in any case, yields a voice of that gender; every voice of that gender is the answer for some draw |
| Voices.StyleBranch | src/utils/voice_picker.py:75-81 | A known `style-gender` request is answered from that style's list for that gender |
| Voices.PickStyle | src/utils/voice_picker.py:75-81 | A `style-gender` request yields a voice listed for it, hence one of that gender; every listed voice is reachable |
| Voices.PickFallback | src/utils/voice_picker.py:83-86 | Any other request, including one with three or more parts, yields a voice of the drawn gender; every voice is reachable |
| Voices.CaseInsensitive | src/utils/voice_picker.py:71-81 | Apart from exact names, requests that lower-case alike get the same answer |
| Voices.StyleRequestOf | src/utils/voice_picker.py:75-80 | A style, a `-` and a gender word read back as that style and gender |
| Voices.ChoiceReaches | src/utils/voice_picker.py:72-86 | Every element of a list is chosen by some draw |
| Voices.ExampleEducationalFemale | src/utils/voice_picker.py:59 | `educational-female` yields one of the four female educational voices |
| Voices.ExampleMotivationalMale | src/utils/voice_picker.py:60 | `motivational-male` yields one of the four male motivational voices |
| Voices.ExampleFemale | src/utils/voice_picker.py:61 | `female` yields a female voice |
| Speed.SpeedUpFilters | src/utils/speed_increaser.py:26-47 | A missing input fails first, then a speed that is not positive. Otherwise the video factor times the speed is 1 and the audio chain is `Chain(speed)` |
| Speed.AtempoChain | src/utils/speed_increaser.py:36-47 | The two loops and the final append build exactly `Chain(speed)` |
| Speed.HalveAbove | src/utils/speed_increaser.py:39-41 | The first loop leaves a speed in (0, 2] and its 2.0s, which together with the chain of what is left make up the whole chain |
| Speed.DoubleBelow | src/utils/speed_increaser.py:43-45 | The second loop leaves a speed in [0.5, 2] and its 0.5s, which together with the chain of what is left make up the whole chain |
| Speed.HalveCloser | src/utils/speed_increaser.py:39-41 | Halving a speed above 2 leaves it above 1 and brings it closer to the range, so the first loop ends |
| Speed.DoubleCloser | src/utils/speed_increaser.py:43-45 | Doubling a speed below 0.5 leaves it below 1 and brings it closer to the range, so the second loop ends |
| Speed.ChainInRange | src/utils/speed_increaser.py:34-47 | Every factor lies in [0.5, 2.0] |
| Speed.ChainProduct | src/utils/speed_increaser.py:37-47 | The factors multiply to exactly the speed |
| Speed.ChainShape | src/utils/speed_increaser.py:39-47 | The chain is either some 2.0s then a factor in (1, 2], or some 0.5s then a factor in [0.5, 1), never both kinds. A speed already in range is the single factor itself |
| Text.SplitOn | src/narrator/gemini_narrator.py:52 | `split(";")` gives at least one piece; no piece holds the separator; joining the pieces gives back the string |
| Text.SplitOfJoin | src/narrator/gemini_narrator.py:52 | Splitting a join of separator-free pieces gives back the pieces |
| Text.Strip | src/narrator/whisper_transcribe.py:126 | `strip()` is no longer than its input and neither starts nor ends with white space |
| Text.StripShape | src/narrator/whisper_transcribe.py:126 | `strip()` removes exactly the white space at both ends |
| Text.Words | src/narrator/whisper_transcribe.py:126 | `split()` of a string that ends with a non-space yields at least one word |
| Text.WordsAreTokens | src/narrator/whisper_transcribe.py:126 | `split()` yields only non-empty runs of characters none of which is white space |
| Text.WordsOfJoin | src/narrator/whisper_transcribe.py:137 | Splitting a space-join of tokens gives back the tokens |
| Text.ParseInt | src/narrator/gemini_narrator.py:58-63 | `int()` raises for white space alone and for text that does not end with a digit; a negative result comes from text starting with `-` |
| Text.ParseIntOfIntToString | src/narrator/gemini_narrator.py:58-63 | `int()` reads back any integer written in decimal |
| Seqs.LastSomeSpec | src/narrator/gemini_narrator.py:53-65 | A later setting overrides an earlier one: the value is that of the last element that sets one, else the default |

## Left out

- Media I/O is not modelled: opening, cutting, merging and writing video and audio, ffmpeg, moviepy and Whisper itself. The model starts from their results: the segments and words, the durations of the videos, and the audio bytes.
- `os.path.exists` and `Path.exists` are `bool` parameters. `os.walk` is a given sequence of (folder, files) steps, in the order it yields them.
- Logging, the shortfall warning and the fallback `print` are left out. `Plan.shortfall` records only whether the shortfall warning would be logged.
- Floating point is not modelled. Durations, speeds and times are exact reals, or whole milliseconds for the caption inputs.
- Timestamps.RoundMs rounds halves up. Python's `{:06.3f}` rounds the binary value, so the two can differ on exact ties. The SubRip writer formats each time as `Fmt(RoundMs(t))`, which rounds the whole time once; see Findings.
- Captions.FallbackMs has a branch for negative times that is never taken (Captions.FallbackTimeBounds).
- The `atempo=` and `setpts=` filter texts are not modelled: Python's float-to-text formatting is left out. The chain is modelled as a sequence of reals.
- Text.Lower lower-cases ASCII letters only. Python's `str.lower` also maps other scripts; every table key and default extension here is ASCII.
- `int()` in Text.ParseInt accepts ASCII digits only. Python also accepts other Unicode decimal digits.
- Extension and path joining follow POSIX `os.path`; Windows separators and drive letters are left out.
- `random` is not modelled as a distribution. Each draw is a parameter, and lemmas show every allowed value is reachable.
- Clips.AssemblePlan takes the list of video durations, not the file list, and requires it to be non-empty: Clips.CollectVideos fails when no video is found, so the source never draws from an empty list. The folder scan is Clips.CollectVideos, and `get_random_video_from_category` is left out.

## Findings

| source | as written | input that shows it | evidently intended | confidence | as-written member | corrected member |
|---|---|---|---|---|---|---|
| src/narrator/whisper_transcribe.py:104-108 | `fmt` fixes hours and minutes by `divmod` first, then rounds the leftover seconds to three decimals on their own | t = 59.9996 s (any t from 59.9995 s up to 60 s) prints `00:00:60,000`, a seconds field of 60 that SubRip does not allow | round the time to milliseconds first, then split it, giving `00:01:00,000` | high, not executed | Timestamps.FmtAsWritten, Timestamps.SixtySeconds | Timestamps.Fmt, Timestamps.FmtFields, Timestamps.ParseFmt |
