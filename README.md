# Video-to-text converter: upload filter and segmented transcription

This project models the two pieces of logic in the Flask application
`appPy_flask.py` that can be stated exactly:

- **The upload filter** `allowed_file`. A file name is accepted when it holds a
  dot and the text after its *last* dot, lower-cased, is in the whitelist
  `{"mp4"}`. This is module `Upload` (`upload.dfy`). Python's `rsplit('.', 1)` is
  modelled by `RSplitOnce`.
- **Segmentation and transcript aggregation**, the core of `transcribe_audio`.
  The audio track is known only by its length in milliseconds. It is cut into
  segments of `segment_length` seconds (60 by default):
  - the segment count is `(lenMs div 1000) div L + 1`;
  - segment `i` is the half-open interval `[i*L*1000, min((i+1)*L*1000, lenMs))`;
  - segment `i` is exported as `temp_segment_{i+1}.wav`.

  Module `Segmenter` (`segmenter.dfy`) holds the arithmetic. Module `Decimal`
  (`decimal.dfy`) renders the 1-based numbers in the file names.
  Module `Transcriber` (`transcriber.dfy`) holds the loop, modelled as the method
  `TranscribeAudio`. The loop asks the recognizer once per segment, in index
  order. On success it appends `text + " "` to the accumulator. On
  `UnknownValueError` or `RequestError` it appends nothing and goes on.

The speech recognizer is a parameter `recognize: Segment -> Outcome`. An
`Outcome` is `Recognized(text)`, `UnknownValue` or `RequestError(detail)`.
The loop consults the recognizer once per segment, so a function of the
segment can stand for any run of the network service. The method also returns
the list of segments the loop went through. Its postcondition makes that list
equal to `Segments(lenMs, L)`, and the returned text equal to the transcript of
the recognizer's answers for that list. So, on the paths the model covers, every
segment's single outcome enters the transcript once, in index order.

Two facts about the code shape the model:

- The code transcribes synchronously inside the upload handler. There is no
  background job and no completion flag, so neither is modelled.
- The transcript is not joined with spaces between fragments. Every recognized
  text is followed by one space, so a non-empty transcript ends with a space.

## Model

| member | source | states |
|---|---|---|
| `Upload.LowerChar` | appPy_flask.py:39 | An ASCII capital becomes a small letter, every other character is kept, and the result is never an ASCII capital. |
| `Upload.Lower` | appPy_flask.py:39 | Lower-casing keeps the length, and a position holds a dot after lower-casing exactly when it held one before. |
| `Upload.AllowedFile` | appPy_flask.py:38-39 | A name without a dot is never accepted. |
| `Upload.RSplitOnce` | appPy_flask.py:39 | Without the separator the result is the whole string. Otherwise there are two parts, the string is `before + sep + after`, and `after` holds no separator, so the split is at the last occurrence. |
| `Upload.LastIndexOf` | appPy_flask.py:39 | The returned position holds the character, and no later position does. |
| `Upload.NoDotInExtension` | appPy_flask.py:31 | A text that lower-cases to an allowed extension contains no dot. |
| `Upload.AllowedFileIffSuffix` | appPy_flask.py:31-39 | A name is accepted exactly when its fourth-last character is a dot and its last three characters lower-case to "mp4". So only the final extension counts. |
| `Upload.AllowedFileIgnoresCase` | appPy_flask.py:39 | Two names with equal ASCII lower-casings are both accepted or both refused. |
| `Upload.AcceptedByExtension` | appPy_flask.py:38-39 | A name ending in a dot and a three-character extension that lower-cases to "mp4" is accepted. |
| `Upload.Mp4ExtensionAccepted` | appPy_flask.py:38-39 | Every name ending in ".mp4" or ".MP4" is accepted, whatever comes before, including the bare ".mp4". |
| `Upload.InnerExtensionRefused` | appPy_flask.py:38-39 | Every name ending in ".mp4.exe" is refused. |
| `Upload.EmptyExtensionRefused` | appPy_flask.py:38-39 | Every name ending in a dot is refused. |
| `Decimal.NatToString` | appPy_flask.py:62 | The numeral in a file name is non-empty, all digits, and has no leading zero unless the number is zero. |
| `Decimal.ParseNatToString` | appPy_flask.py:62 | Parsing the numeral gives the number back. |
| `Decimal.NatToStringInjective` | appPy_flask.py:62 | Different numbers have different numerals. |
| `Segmenter.SegmentCount` | appPy_flask.py:54-55 | There is always at least one segment, even for a track of length 0. |
| `Segmenter.SegmentStart` | appPy_flask.py:59 | Segment `i` starts `i` whole spans of `L*1000` milliseconds into the track. |
| `Segmenter.SegmentEnd` | appPy_flask.py:60 | Segment `i` ends at the end of its nominal span or at the end of the track, whichever comes first, and never past either. |
| `Segmenter.SegmentAt` | appPy_flask.py:58-60 | Segment `i` has number `i+1`, starts at `i*L*1000` and ends within the track. |
| `Segmenter.Segments` | appPy_flask.py:55-60 | There are `SegmentCount` segments, at least one. The `i`-th has number `i+1` and ends within the track. |
| `Segmenter.SegmentsPrefix` | appPy_flask.py:58 | The first `i+1` segments are the first `i` followed by segment `i`. |
| `Segmenter.Segment.TempFileName` | appPy_flask.py:62 | The temporary name starts with `temp_segment_`, ends with `.wav` and has at least one character between them. |
| `Segmenter.MultipleIff` | appPy_flask.py:54-55 | Rounding a division down loses nothing exactly when the remainder is zero. |
| `Segmenter.SegmentCountIsQuotient` | appPy_flask.py:54-55 | The count equals `lenMs div (L*1000) + 1`, so the two floor divisions lose nothing. All segments but the last start inside the track, and all of them together reach past its end. |
| `Segmenter.SegmentBounds` | appPy_flask.py:58-60 | Segment `i` has number `i+1`. It satisfies `start <= end <= lenMs` and `end - start <= L*1000`. |
| `Segmenter.SegmentsContiguous` | appPy_flask.py:55-60 | The first segment starts at 0. Each segment ends where the next one starts. The last segment ends at `lenMs`. |
| `Segmenter.SegmentsCover` | appPy_flask.py:55-61 | Every millisecond `t < lenMs` lies in some segment `[start, end)`. |
| `Segmenter.SegmentsDisjoint` | appPy_flask.py:58-60 | An earlier segment ends no later than a later one starts, so no two segments overlap. |
| `Segmenter.LastSegmentEmptyIff` | appPy_flask.py:55-60 | The last segment is empty exactly when `lenMs` is a multiple of `L*1000`, zero included. This is the extra segment added by `+ 1`. |
| `Segmenter.ContiguousTelescopes` | appPy_flask.py:58-60 | The lengths of contiguous segments add up to the distance from the first start to the last end. |
| `Segmenter.SegmentsCoverExactly` | appPy_flask.py:55-61 | The segment lengths add up to exactly `lenMs`. |
| `Segmenter.Example150Seconds` | appPy_flask.py:54-60 | A 150 s track with the default length gives `[0,60000)`, `[60000,120000)` and `[120000,150000)`, numbered 1 to 3. |
| `Segmenter.Example120Seconds` | appPy_flask.py:54-60 | A 120 s track with the default length gives three segments, and the third, `[120000,120000)`, is empty. |
| `Segmenter.TempFileNameCarriesNumber` | appPy_flask.py:62 | The temporary name is `temp_segment_` + digits + `.wav`, and the digits parse to the segment's 1-based number. |
| `Segmenter.TempFileNamesDistinct` | appPy_flask.py:58-62 | The segments of one run have pairwise distinct temporary file names. |
| `Transcriber.Fragment` | appPy_flask.py:67-75 | A segment adds nothing exactly when its recognition failed. What a recognized segment adds ends with a space. |
| `Transcriber.Outcomes` | appPy_flask.py:65-68 | There is one answer per segment, and the `i`-th is the recognizer's answer for the `i`-th segment. |
| `Transcriber.OutcomesSnoc` | appPy_flask.py:58-68 | Going through one more segment appends its answer to the answers so far. |
| `Transcriber.TranscriptSnoc` | appPy_flask.py:56-75 | One more outcome appends exactly its fragment to the transcript so far. |
| `Transcriber.TranscriptAppend` | appPy_flask.py:58-75 | The transcript of two consecutive runs of outcomes is the first run's transcript followed by the second's. |
| `Transcriber.TranscriptIsRecognizedTexts` | appPy_flask.py:56-75 | The transcript is the concatenation, in segment order, of `text + " "` over exactly the recognized segments. |
| `Transcriber.FailureContributesNothing` | appPy_flask.py:72-75 | A segment failing with either error adds nothing, wherever it stands, and the segments after it are still transcribed. |
| `Transcriber.RecognizedTextInPlace` | appPy_flask.py:67-71 | A recognized segment's `text + " "` stands right after the transcript of the segments before it and right before that of the segments after it. |
| `Transcriber.TranscriptEndsWithSpace` | appPy_flask.py:71 | A non-empty transcript ends with a space. |
| `Transcriber.AllFailedIsEmpty` | appPy_flask.py:56-75 | When every segment fails, the transcript is empty. |
| `Transcriber.TranscribeAudio` | appPy_flask.py:54-75 | The segments the loop goes through are exactly `Segments(lenMs, L)`, in index order. The accumulated text is the transcript of the recognizer's answers for those segments, in that order. |

## Left out

- Audio extraction with moviepy (`extract_audio_from_video`, appPy_flask.py:42-47): foreign library, media decoding and file writes.
- pydub decoding, slicing and WAV export (appPy_flask.py:53,61,63): the audio is modelled by its length in milliseconds, and a slice by its `[start, end)` bounds.
- `sr.AudioFile`, `recognizer.record` and the Google recognition call (appPy_flask.py:65-68): replaced by the `recognize` parameter, which gives one outcome per segment.
- Errors that escape the loop: an exception from `segment.export` (appPy_flask.py:63), `sr.AudioFile` (appPy_flask.py:65) or `recognizer.record` (appPy_flask.py:66), or one from `recognize_google` (appPy_flask.py:68) other than `UnknownValueError` and `RequestError`, ends the loop and `transcribe_audio` without writing `transcricao.txt`. `Outcome` has no case for such an error, so the model covers only the runs in which none occurs.
- `print` logging (appPy_flask.py:69-70,73,75): output only.
- Writing `transcricao.txt` and returning its path (appPy_flask.py:77-81): file I/O. `TranscribeAudio` returns the text that would be written.
- `os.path.join` with the output directory (appPy_flask.py:45,62,77): only the base file names are modelled.
- The Flask routes, request and file handling, `secure_filename`, template rendering, `send_from_directory`, directory creation and `app.run` (appPy_flask.py:83-127): web and I/O glue, or foreign code.
- Unicode case folding: `Upload.LowerChar` folds only ASCII `A`-`Z`. Python's `str.lower()` follows Unicode case rules, which are not modelled.
- `Segmenter.SegmentCount`: requires `segment_length > 0`. With 0, Python raises `ZeroDivisionError`, and that error is not handled. A negative length, which no caller passes, is not modelled.
- Background jobs and a completion or status flag: the code runs everything synchronously in the request handler, so there is no such state.
