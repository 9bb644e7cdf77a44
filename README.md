# Codec capability layer of the transcoder (Dafny model)

This project models `core/transcoder/codecs.go` of the streaming server's
transcoder package. The file has two parts:

- **The codec table.** The `Codec` interface has six parameterless
  implementations: libx264, OMX, VAAPI, NVENC, Quick Sync and Video4Linux.
  Each one returns constant strings for `Name`, `GlobalFlags`, `PixelFormat`
  and `ExtraArguments`. Beside them sits the `supportedCodecs` catalog, a map
  from encoder name to description.
- **Detection (`GetCodecs`).** It runs the transcoding tool with `-encoders`.
  When the command fails it returns an empty list. Otherwise it splits the
  output on newlines. For every line containing `H.264` it takes the second
  whitespace-separated field. It appends that field, in line order, when the
  field is a key of the catalog.

Files:

- `go_strings.dfy`, module `GoStrings`: models of Go's `strings.Split`,
  `strings.Contains`, `strings.Fields` and `strings.Join`. Each comes with
  lemmas that pin it down: split/join round trips, the occurrence
  characterisation of `Contains`, and the fields of joined words.
- `codecs.dfy`, module `Transcoder`: the `Codec` datatype with its four
  queries and the `SupportedCodecs` map. It also holds the detection step as
  the pure specification `ParseLines` / `ParseEncoders` / `DetectCodecs`, the
  imperative `GetCodecs` loop proved equal to it, and the lemmas about
  detection.

The `fields[1]` index at codecs.go:169 has no guard. A line that contains
`H.264` but has only one field makes the Go code panic. The model makes
this visible as the outcome `IndexPanic(i)`, where `i` is the index of the
first such line. `PanicAtFirstShortLine` and `BareMarkerRowPanics` state it.

The model keeps these details of the code as they are:

- Video4Linux is a variant, but its name `h264_v4l2m2m` is not a catalog
  key. Only five names are keys, so Video4Linux can never be detected.
- The NVENC description in the catalog is spelled "NVIDEA nvenc".
- The four queries return single strings, joined with spaces where the code
  joins a list. They do not return sequences of arguments.
- A line that contains `H.264` but has fewer than two fields is not skipped.
  It panics, as described above.

## Model

| member | source | states |
|---|---|---|
| `Transcoder.Codec.Name` | core/transcoder/codecs.go:10-131 | a variant's name is a catalog key exactly when the variant is not Video4Linux (`h264_v4l2m2m` is absent from the map) |
| `Transcoder.Codec.GlobalFlags` | core/transcoder/codecs.go:25-135 | global flags are non-empty exactly for VAAPI (device selection) and NVENC (CUDA acceleration) |
| `Transcoder.Codec.PixelFormat` | core/transcoder/codecs.go:29-139 | the pixel format differs from yuv420p exactly for VAAPI and Quick Sync |
| `Transcoder.Codec.ExtraArguments` | core/transcoder/codecs.go:33-143 | extra arguments are non-empty exactly for OMX and VAAPI; libx264 joins an empty list |
| `Transcoder.NamesDistinct` | core/transcoder/codecs.go:21-131 | two variants have the same name if and only if they are the same variant |
| `Transcoder.CatalogKeys` | core/transcoder/codecs.go:10-16 | the catalog `SupportedCodecs` has exactly the keys libx264, h264_omx, h264_vaapi, h264_nvenc and h264_qsv; h264_v4l2m2m is not one of them; NVENC's description is "NVIDEA nvenc" |
| `Transcoder.CatalogKeysAreCodecNames` | core/transcoder/codecs.go:10-16 | the catalog keys are exactly the names of the five variants other than Video4Linux |
| `Transcoder.FixedParameters` | core/transcoder/codecs.go:21-131 | the six names are libx264, h264_omx, h264_vaapi, h264_nvenc, h264_qsv and h264_v4l2m2m (Video4Linux); libx264 extra arguments are "", OMX's are "-tune zerolatency", VAAPI's flags are "-vaapi_device /dev/dri/renderD128" and its extra arguments "-vf 'format=nv12,hwupload'", NVENC's flags are "-hwaccel cuda", Quick Sync's pixel format is nv12 and VAAPI's is vaapi_vld |
| `Transcoder.ClassifyLine` | core/transcoder/codecs.go:167-172 | a line without "H.264" is ignored; a line is kept exactly when it contains "H.264", has two fields and its second field is a catalog key, and then the kept name is that second field; the field index is out of range exactly on a marked line with fewer than two fields |
| `Transcoder.ParseLines` | core/transcoder/codecs.go:165-174 | scanning lines yields at most one name per line, every name a catalog key; a panic names one of the lines |
| `Transcoder.ParseEncoders` | core/transcoder/codecs.go:164-174 | detection on the tool's output yields at most one catalog name per newline-separated line (newline count + 1); a panic names one of those lines |
| `Transcoder.DetectCodecs` | core/transcoder/codecs.go:155-176 | a failed command detects the empty list; otherwise every detected name is a catalog key, and Video4Linux's name is never detected |
| `Transcoder.GetCodecs` | core/transcoder/codecs.go:154-177 | the loop that appends names line by line returns exactly the specified detection outcome; a failed command gives the empty list |
| `Transcoder.ParseLinesAppend` | core/transcoder/codecs.go:165-174 | scanning two listings in sequence: names of the first come before names of the second; a panic in the first stops the scan; a panic in the second is reported at its shifted line |
| `Transcoder.PanicStopsScan` | core/transcoder/codecs.go:168-169 | once a line indexes a missing second field, the whole scan ends in that panic |
| `Transcoder.IgnoredLineContributesNothing` | core/transcoder/codecs.go:167-172 | a line without "H.264", or whose second field is not a catalog key, changes neither the names nor whether the scan panics, wherever it stands |
| `Transcoder.KeptLineContributesOnce` | core/transcoder/codecs.go:167-172 | a marked line whose second field is a catalog key contributes exactly that field, once, between the names of the lines before and after it |
| `Transcoder.PanicAtFirstShortLine` | core/transcoder/codecs.go:166-169 | the scan panics if and only if some line contains "H.264" and has fewer than two fields, and it reports the first such line |
| `Transcoder.MarkedLineHasAField` | core/transcoder/codecs.go:167-169 | a line containing "H.264" always has a first field, so the panic happens exactly on marked lines with one field |
| `Transcoder.SingleRowListing` | core/transcoder/codecs.go:164-174 | output without a newline is one line, and detection gives exactly what that line contributes |
| `Transcoder.ListingRow` | core/transcoder/codecs.go:164-172 | a listing row "flags name blanks description" is detected as its name exactly when it contains "H.264" and the name is a catalog key |
| `Transcoder.NvencRowDetected` | core/transcoder/codecs.go:164-172 | the row `V..... h264_nvenc   NVIDIA NVENC H.264 encoder` is detected as h264_nvenc |
| `Transcoder.Mpeg4RowIgnored` | core/transcoder/codecs.go:167 | the row `V..... mpeg4   MPEG-4 part 2` does not contain "H.264" and detects nothing |
| `Transcoder.VideoToolboxRowFiltered` | core/transcoder/codecs.go:167-172 | the H.264 row for h264_videotoolbox is filtered out because the name is not in the catalog |
| `Transcoder.BareMarkerRowPanics` | core/transcoder/codecs.go:168-169 | output consisting of the one-field line "H.264" panics on line 0 |
| `Transcoder.ListingDetectsNvencOnly` | core/transcoder/codecs.go:164-176 | a three-line listing of those rows detects exactly ["h264_nvenc"] |
| `GoStrings.JoinShape` | core/transcoder/codecs.go:33-97 | `strings.Join` as the codec table uses it: joining a list with one more element appends the separator and that element to the join of the shorter list; the length is the elements' lengths plus one separator per neighbouring pair; the join starts with the first element and ends with the last |
| `GoStrings.Split` | core/transcoder/codecs.go:165 | splitting on a newline gives one more piece than there are newlines, and no piece contains a newline |
| `GoStrings.SplitThenJoin` | core/transcoder/codecs.go:165 | joining the pieces back with the separator gives the original output |
| `GoStrings.JoinThenSplit` | core/transcoder/codecs.go:165 | separator-free pieces are recovered by splitting their join |
| `GoStrings.SplitAtSeparator` | core/transcoder/codecs.go:165 | the pieces of `a + sep + b` are the pieces of `a` followed by the pieces of `b` |
| `GoStrings.SplitNoSeparator` | core/transcoder/codecs.go:165 | text without the separator is a single piece |
| `GoStrings.Contains` | core/transcoder/codecs.go:167 | `Contains(s, sub)` holds if and only if `sub` occurs at some index of `s` |
| `GoStrings.ShiftOccurrence` | core/transcoder/codecs.go:167 | an occurrence in the tail of a string is an occurrence one index later in the string, and every occurrence past index 0 arises this way |
| `GoStrings.MissingFirstCharacter` | core/transcoder/codecs.go:167 | a non-empty substring cannot occur in text that lacks its first character |
| `GoStrings.Fields` | core/transcoder/codecs.go:168 | every field is non-empty and free of white space |
| `GoStrings.FieldsKeepAllNonSpace` | core/transcoder/codecs.go:168 | the fields, concatenated, are exactly the non-space characters of the line, in order |
| `GoStrings.FieldsOfJoin` | core/transcoder/codecs.go:168 | words joined by single spaces are recovered by Fields |
| `GoStrings.FieldsFirstWord` | core/transcoder/codecs.go:168 | a word followed by white space or the end of the line is the first field |
| `GoStrings.FieldsSkipSpace` | core/transcoder/codecs.go:168 | leading white space does not change the fields |
| `GoStrings.FieldsNonEmpty` | core/transcoder/codecs.go:168 | a line with a non-space character has at least one field |

## Left out

- Running the tool (`exec.Command(ffmpegPath, "-encoders").CombinedOutput()`, codecs.go:157-158) is I/O. It becomes the input `CommandResult`: either `CommandFailed` or `CommandOutput(out)`. The tool path is therefore not modelled, and the output that Go's `CombinedOutput` also returns on failure is not modelled.
- `log.Errorln` (codecs.go:160) is a logging side effect that has no effect on the result.
- The descriptions in the catalog are kept in the map but never read, as in the source.
- Strings are sequences of Unicode characters. Go strings are bytes decoded as UTF-8, so invalid UTF-8 and the byte/character distinction are not modelled.
- `GoStrings.Split` handles only a one-character separator, which covers the one call (`"\n"`). Go's general string separator and empty separator are not modelled.
- `GoStrings.Fields` splits on the characters of Go's `unicode.IsSpace`, written out as a fixed set.
- Go's panic is modelled as the `IndexPanic` outcome. How the panic unwinds through callers is not modelled.
- How the caller combines a codec's flags, pixel format and arguments into a command line is not part of this model.
- Idempotence of detection needs no lemma, because detection is a function of the command's result.
