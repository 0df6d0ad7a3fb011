# Transcript normalisation of the audio/video transcription app

The app sends an audio file to a speech recogniser. The recogniser returns a
list of chunks, and each chunk holds a text and an optional `(start, end)`
timestamp. Two functions in `app.py` turn that output into text:

- `format_transcription` makes one pass over the chunks and builds two strings.
  - The timestamped transcript has one line per chunk: `[start - end] text`,
    or `[No Timestamp] text` when the chunk has no timestamp.
  - The flat transcript holds the trimmed chunk texts separated by spaces. A
    text is skipped when it equals the last text that was appended.
  - Both strings are stripped before they are returned.
- `remove_repeated_words` splits a string on whitespace. It drops every word
  equal to the word just before it in the split list, and joins what is left
  with single spaces.

Both functions are written as loops that grow their outputs step by step. The
model has one Dafny method for each, with the source's loop and state
(`FormatTranscription`, `RemoveRepeatedWords`). Each method is proved equal
to specification functions, and the properties the code promises are proved
as lemmas about those functions:

- `FormatTranscription` returns `FormattedText` and `FlatText` of
  `ChunksOf(transcription)`.
  - `FormattedText` strips `FormattedRaw`, the chunks' `Line`s one after the other.
  - `FlatText` strips `FlatRaw` of `Accepted`, the texts the `previous_text`
    rule appends.
- `RemoveRepeatedWords` returns `RemoveRepeated(text)`, which is
  `Join(Dedup(Split(text)), " ")`.

Files:

- `wrappers.dfy`: the `Option` type.
- `pystr.dfy`: Python's whitespace class and `str.strip`, `str.split` and `str.join`.
- `fixed_point.dfy`: the `:.2f` rendering of a timestamp, with a parser that reads it back.
- `word_dedup.dfy`: adjacent-duplicate removal and `remove_repeated_words`.
- `transcript.dfy`: chunks and `format_transcription`.

Modelling choices:

- A timestamp is a whole number of centiseconds. Under that choice `:.2f` is
  an exact fixed-point rendering (`Fmt2`).
- `IsSpace` lists the characters Python's `str.isspace` accepts. `strip()`
  and `split()` with no argument both cut on exactly these characters.
- A chunk's timestamp is `Option<(int, int)>`. `None` stands for a missing or
  `None` timestamp, which are the falsy cases of `if timestamps:`.
- `transcription.get('chunks', [])` is modelled by `ChunksOf`. A result
  without a `chunks` entry is the Dafny value `Option.None` and gives no chunks.

The code of `remove_repeated_words` compares each word with the previous word
of the original list. The rule can also be read as a comparison with the
previous *kept* word. The model follows the code (`Dedup`), and
`WordDedup.DedupIsKeepVsKept` proves that both readings give the same result.
The flat transcript's rule compares with the last *appended* text.
`Transcript.AcceptedIsDedup` shows that this is the same adjacent-duplicate
rule (`Dedup`) applied to the trimmed texts, with `""` placed before the first
one.

## Model

| member | source | states |
|---|---|---|
| PyStr.IsSpace | app.py:58 | definition (no contract): the characters Python's `str.isspace` accepts, which `strip()` and `split()` cut on |
| PyStr.LStripSpec | app.py:58 | `lstrip` keeps a suffix of its argument, drops only whitespace, and the suffix starts with non-whitespace |
| PyStr.RStripSpec | app.py:58 | `rstrip` keeps a prefix, drops only whitespace, and the prefix ends with non-whitespace |
| PyStr.Strip | app.py:58 | the result of `strip()` neither starts nor ends with whitespace |
| PyStr.StripSubset | app.py:58 | `strip()` introduces no character not in its argument |
| PyStr.StripExact | app.py:67 | stripping a stripped string followed by a whitespace tail gives back exactly that string |
| PyStr.StripIdempotent | app.py:63 | `strip()` applied twice equals `strip()` applied once |
| PyStr.Split | app.py:71 | every token `split()` returns is non-empty and free of whitespace |
| PyStr.Join | app.py:76 | definition (no contract): `sep.join(ws)`, the strings of `ws` with `sep` between neighbours |
| PyStr.SplitJoin | app.py:71-76 | splitting the space-join of a list of words returns that list |
| PyStr.SplitEmptyIff | app.py:71 | `split()` returns no token exactly when the string is all whitespace |
| FixedPoint.NatStr | app.py:58 | the decimal rendering of a natural number is a non-empty run of digits |
| FixedPoint.NatStrNoLeadingZero | app.py:58 | the decimal rendering of `n` starts with `0` only when `n` is zero; with NatStrValue this makes it Python's canonical form |
| FixedPoint.NatStrValue | app.py:58 | the decimal rendering of `n` denotes `n` |
| FixedPoint.Fmt2 | app.py:58 | a rendered timestamp is non-empty and holds no whitespace |
| FixedPoint.Fmt2Whole | app.py:58 | a whole number of seconds renders as its decimal digits followed by `.00` |
| FixedPoint.Fmt2RoundTrip | app.py:58 | parsing the `[-]digits.dd` rendering of a timestamp gives back that timestamp, so distinct times render differently |
| WordDedup.KeepAt | app.py:74 | definition (no contract): the test `i == 0 or word != words[i - 1]` that decides whether position `i` is kept |
| WordDedup.Dedup | app.py:73-75 | definition (no contract): the words at positions `i` with `i == 0` or `words[i] != words[i-1]`, built prefix by prefix as the loop builds `cleaned_words` |
| WordDedup.RemoveRepeated | app.py:70-76 | definition (no contract): `" ".join` of the words `Dedup` keeps from `text.split()`; RemoveRepeatedWords is proved equal to it |
| WordDedup.RemoveRepeatedWords | app.py:70-76 | the loop over `enumerate(words)` returns `" ".join` of the words kept by the adjacent-duplicate rule; its invariant is that `cleaned_words` is that rule applied to the words seen so far |
| WordDedup.DedupIsKeptPositions | app.py:73-75 | the kept words are those at positions `i` with `i == 0` or `words[i] != words[i-1]`, in increasing position order; a position is kept if and only if that holds |
| WordDedup.DedupEnds | app.py:74 | for a non-empty list, the first word and the last word are always kept |
| WordDedup.DedupNoAdjacentDup | app.py:74-75 | no two adjacent kept words are equal |
| WordDedup.DedupFixpoint | app.py:74-75 | a list without adjacent duplicates is kept whole |
| WordDedup.DedupIdempotent | app.py:74-75 | removing adjacent duplicates twice equals removing them once |
| WordDedup.DedupSubsequence | app.py:73-75 | the kept words are a subsequence of the input words |
| WordDedup.DedupElements | app.py:73-75 | every kept word occurs in the input |
| WordDedup.DedupIsKeepVsKept | app.py:73-75 | comparing each word with the previous input word gives the same output as comparing it with the last kept word |
| WordDedup.DedupIsCollapse | app.py:73-75 | the code's rule gives the same output as collapsing each run of equal words read from the front, where a word is dropped when the next word equals it |
| WordDedup.DedupSkipsRepeats | app.py:74 | repeats of a word immediately after it are all dropped |
| WordDedup.RemoveRepeatedSplit | app.py:71-76 | splitting the output gives back exactly the kept words |
| WordDedup.RemoveRepeatedNoAdjacent | app.py:74-76 | the output has no two adjacent equal words |
| WordDedup.RemoveRepeatedSubsequence | app.py:71-76 | the output's words are a subsequence of the input's words, and the first input word survives |
| WordDedup.RemoveRepeatedIdempotent | app.py:70-76 | applying `remove_repeated_words` twice equals applying it once |
| WordDedup.RemoveRepeatedEmpty | app.py:71-76 | the output is `""` if and only if the input is empty or all whitespace |
| WordDedup.ExampleTheCat | app.py:70-76 | `"the the cat sat sat down"` becomes `"the cat sat down"` |
| Transcript.FormatTranscription | app.py:46-67 | the loop returns the stripped timestamped transcript and the stripped flat transcript of the chunks, with `previous_text` the last appended text or `""` |
| Transcript.ChunksOf | app.py:51 | the chunk list is empty exactly when the recogniser's result has no chunk list or an empty one |
| Transcript.Line | app.py:56-60 | a chunk's line, given by the two f-strings, is at least four characters long, starts with `[` and ends with a newline |
| Transcript.FormattedRaw | app.py:47-60 | definition (no contract): `formatted_text` before the final strip, the chunks' lines one after the other as the `+=` steps build it |
| Transcript.FormattedText | app.py:67 | the returned timestamped transcript, the stripped concatenation of the lines, is stripped |
| Transcript.Trimmed | app.py:62-64 | the per-chunk `text.strip()` values, one for each chunk, in chunk order |
| Transcript.Accepted | app.py:62-65 | the texts the `previous_text` rule appends, one test per chunk, are never more than the chunks |
| Transcript.FlatRaw | app.py:48-64 | definition (no contract): `full_text` before the final strip, every appended text followed by one space, as the `+=` at app.py:64 builds it |
| Transcript.FlatText | app.py:67 | the returned flat transcript, the stripped space-separated appended texts, is stripped |
| Transcript.Tag | app.py:56-60 | a line's tag starts with `[`, ends with `]`, and holds no whitespace but plain spaces |
| Transcript.WholeSecondsLine | app.py:56-58 | a chunk timed `a` to `b` whole seconds gets the tag `[a.00 - b.00]` and the line made of that tag, a space, its stripped text and a newline |
| Transcript.FormattedRawAppend | app.py:51-60 | the transcript of two runs of chunks is the transcript of the first followed by that of the second |
| Transcript.LineNewlines | app.py:58-60 | a chunk whose stripped text holds no newline contributes exactly one newline |
| Transcript.NewlineCount | app.py:51-60 | when no stripped chunk text holds a newline, the transcript before the final strip has exactly one newline per chunk |
| Transcript.FormattedRawStart | app.py:56-60 | a non-empty transcript starts with `[` |
| Transcript.FormattedTextShape | app.py:67 | the returned transcript is all lines but the last, then the last line without its newline, and without the space after its tag when its text trims to nothing |
| Transcript.FormattedTextEmptyIff | app.py:51-67 | the returned transcript is empty if and only if there are no chunks |
| Transcript.AcceptedNoAdjacentDup | app.py:62-65 | no two adjacent appended texts are equal |
| Transcript.AcceptedSubsequence | app.py:62-65 | the appended texts are a subsequence of the trimmed chunk texts |
| Transcript.AcceptedStripped | app.py:63-65 | every appended text is stripped |
| Transcript.AcceptedIsDedup | app.py:49-65 | the appended texts are the trimmed texts with adjacent duplicates removed, with `""` standing before the first one |
| Transcript.AcceptedEmptyIff | app.py:49-65 | nothing is appended if and only if every chunk text trims to `""` |
| Transcript.AcceptedFirstNonEmpty | app.py:49-63 | the first appended text is never empty |
| Transcript.LeadingEmptyVanish | app.py:49-65 | leading chunks whose texts trim to `""` do not change the appended texts |
| Transcript.FlatRawJoin | app.py:64 | before the final strip, the flat transcript is the appended texts joined by spaces, plus one trailing space |
| Transcript.StripFlatRaw | app.py:64-67 | for stripped texts whose first is non-empty, stripping the flat accumulator equals stripping their space-join, and equals the join itself when the last text is non-empty |
| Transcript.FlatTextIsJoin | app.py:64-67 | the returned flat transcript is the stripped space-join of the appended texts, and is that join itself when the last appended text is non-empty |
| Transcript.NoChunks | app.py:47-67 | without a chunk list, or with an empty one, both returned strings are `""` |
| Transcript.ExampleNoTimestamp | app.py:59-60 | one chunk `"test"` without a timestamp gives `[No Timestamp] test` |
| Transcript.ExampleFormatted | app.py:51-67 | three timestamped chunks, two with the same text, give three lines |
| Transcript.ExampleFlat | app.py:62-67 | with the same chunks, the repeated text enters the flat transcript once: `hello world goodbye` |

## Left out

- The Streamlit interface (`main`): page setup, tabs, upload widgets, text areas, download buttons and the timing display. It is presentation and I/O.
- Loading and running the Whisper pipeline. It is a foreign call. The model starts from the chunk list the recogniser returns.
- The YouTube download with `yt_dlp`, the audio decoding with moviepy, and the temporary files with their removal. These are network, library and filesystem I/O.
- Cleanup on every path. The code has no `finally`, so it does not implement this guarantee, and the model does not claim it.
- `remove_repeated_words` is not called from `main`. It is modelled as the stand-alone function it is.
- FixedPoint.Fmt2: models `:.2f` on a whole number of centiseconds. The conversion of a float to centiseconds, including its rounding, is floating point and is not modelled.
- Transcript.ChunksOf: a `chunks` entry that is present but `None` makes the `for` loop raise `TypeError` in the source. It is not representable here, because a present entry always holds a list.
- Transcript.Chunk: a timestamp `(start, None)` makes `:.2f` raise `TypeError` in the source. It is not representable here, because a present timestamp always holds two numbers.
- Transcript.Chunk: a chunk without a `"text"` key raises `KeyError` in the source. It is not representable here, because every chunk has a text.
- Transcript.Chunk: a timestamp that is neither `None` nor a pair is not modelled. This covers an empty tuple and other falsy or malformed values, which Python truthiness would treat differently.
- Transcript.NewlineCount: holds only when no chunk text keeps a newline after `strip()`, because `strip()` removes whitespace only at the ends of a text.
