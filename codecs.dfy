/** The codec layer of the transcoder: the fixed table of H.264 encoder
    variants with their invocation parameters, the supported-codec catalog,
    and the detection step that parses the transcoding tool's encoder
    listing into the list of usable codec names. */
module Transcoder {
  import opened GoStrings

  // ---------------------------------------------------------------- catalog

  /** The supported-codec catalog: encoder name to description. Only its keys
      are consulted. `h264_v4l2m2m` is not among them. */
  const SupportedCodecs: map<string, string> := map[
    "libx264" := "libx264",
    "h264_omx" := "omx",
    "h264_vaapi" := "vaapi",
    "h264_nvenc" := "NVIDEA nvenc",
    "h264_qsv" := "Intel Quicksync"
  ]

  // ---------------------------------------------------------------- codecs

  /** The `Codec` interface and its six parameterless implementations; each
      query is a constant of the variant. */
  datatype Codec =
    | Libx264Codec
    | OmxCodec
    | VaapiCodec
    | NvencCodec
    | QuicksyncCodec
    | Video4Linux
  {
    /** The encoder's name in the tool's own listing. Every variant but
        Video4Linux is named in the catalog. */
    function Name(): (r: string)
      ensures r in SupportedCodecs <==> !Video4Linux?
    {
      match this
      case Libx264Codec => "libx264"
      case OmxCodec => "h264_omx"
      case VaapiCodec => "h264_vaapi"
      case NvencCodec => "h264_nvenc"
      case QuicksyncCodec => "h264_qsv"
      case Video4Linux => "h264_v4l2m2m"
    }

    /** Tool-level flags placed before the input. Only the two hardware
        backends that select a device or an acceleration API have any. */
    function GlobalFlags(): (r: string)
      ensures r != "" <==> VaapiCodec? || NvencCodec?
    {
      match this
      case VaapiCodec => Join(["-vaapi_device", "/dev/dri/renderD128"], " ")
      case NvencCodec => Join(["-hwaccel cuda"], " ")
      case _ => ""
    }

    /** The pixel format the encoder's input is converted to: yuv420p unless
        the hardware driver dictates its own. */
    function PixelFormat(): (r: string)
      ensures r != "yuv420p" <==> VaapiCodec? || QuicksyncCodec?
    {
      match this
      case VaapiCodec => "vaapi_vld"
      case QuicksyncCodec => "nv12"
      case _ => "yuv420p"
    }

    /** Encoder-specific arguments placed near the output. libx264 joins an
        empty list (its zero-latency tuning is disabled), so only OMX and
        VAAPI have any. */
    function ExtraArguments(): (r: string)
      ensures r != "" <==> OmxCodec? || VaapiCodec?
    {
      match this
      case Libx264Codec => Join([], " ")
      case OmxCodec => Join(["-tune", "zerolatency"], " ")
      case VaapiCodec => "-vf 'format=nv12,hwupload'"
      case _ => ""
    }
  }

  /** Names identify the variants: no two variants share a name. */
  lemma NamesDistinct(a: Codec, b: Codec)
    ensures a.Name() == b.Name() <==> a == b
  {
  }

  /** The catalog holds five entries; NVENC's description is spelled as in
      the source. */
  lemma CatalogKeys()
    ensures SupportedCodecs.Keys == {"libx264", "h264_omx", "h264_vaapi", "h264_nvenc", "h264_qsv"}
    ensures SupportedCodecs["h264_nvenc"] == "NVIDEA nvenc"
    ensures "h264_v4l2m2m" !in SupportedCodecs
  {
  }

  /** The catalog's keys are exactly the names of the five variants other
      than Video4Linux. */
  lemma CatalogKeysAreCodecNames(key: string)
    ensures key in SupportedCodecs <==> exists c: Codec :: !c.Video4Linux? && c.Name() == key
  {
    if key in SupportedCodecs {
      var c :=
        if key == "libx264" then Libx264Codec
        else if key == "h264_omx" then OmxCodec
        else if key == "h264_vaapi" then VaapiCodec
        else if key == "h264_nvenc" then NvencCodec
        else QuicksyncCodec;
      assert c.Name() == key;
    }
  }

  /** The name of each variant and the parameter values the transcoder
      passes for it. */
  lemma FixedParameters()
    ensures Libx264Codec.Name() == "libx264"
    ensures OmxCodec.Name() == "h264_omx"
    ensures VaapiCodec.Name() == "h264_vaapi"
    ensures NvencCodec.Name() == "h264_nvenc"
    ensures QuicksyncCodec.Name() == "h264_qsv"
    ensures Video4Linux.Name() == "h264_v4l2m2m"
    ensures Libx264Codec.ExtraArguments() == ""
    ensures OmxCodec.ExtraArguments() == "-tune zerolatency"
    ensures VaapiCodec.GlobalFlags() == "-vaapi_device /dev/dri/renderD128"
    ensures NvencCodec.GlobalFlags() == "-hwaccel cuda"
    ensures QuicksyncCodec.PixelFormat() == "nv12"
    ensures VaapiCodec.PixelFormat() == "vaapi_vld"
    ensures VaapiCodec.ExtraArguments() == "-vf 'format=nv12,hwupload'"
  {
  }

  // ---------------------------------------------------------------- detection

  /** What running the tool with `-encoders` hands back: a failure (missing
      binary, non-zero exit, I/O error) or its combined output text. */
  datatype CommandResult = CommandFailed | CommandOutput(out: string)

  /** What one line of the listing does to the result: nothing, append a
      catalog name, or index the missing second field (a Go panic). */
  datatype LineOutcome = Ignored | Kept(codec: string) | FieldIndexOutOfRange

  /** The outcome of detection: the codec names found, or the index panic
      raised on line number `line` of the listing. */
  datatype Detection = Codecs(codecs: seq<string>) | IndexPanic(line: nat)

  /** The marker that identifies an H.264 encoder row. */
  const H264Marker := "H.264"

  /** The line names the H.264 family but has a single field, so asking
      for its second field is out of range. */
  predicate ShortMarkedLine(line: string)
  {
    Contains(line, H264Marker) && |Fields(line)| < 2
  }

  /** The effect of one line of the listing: a line without the marker is
      ignored, a kept name is the line's second field and a catalog key, and
      the index is out of range exactly on a short marked line. */
  function ClassifyLine(line: string): (r: LineOutcome)
    ensures !Contains(line, H264Marker) ==> r == Ignored
    ensures r.Kept? ==> |Fields(line)| >= 2 && r.codec == Fields(line)[1] && r.codec in SupportedCodecs
    ensures r.Kept? <==> Contains(line, H264Marker) && |Fields(line)| >= 2 && Fields(line)[1] in SupportedCodecs
    ensures r.FieldIndexOutOfRange? <==> ShortMarkedLine(line)
  {
    if !Contains(line, H264Marker) then Ignored
    else
      var fields := Fields(line);
      if |fields| < 2 then FieldIndexOutOfRange
      else if fields[1] in SupportedCodecs then Kept(fields[1])
      else Ignored
  }

  /** The outcome of scanning `lines` front to back, appending each kept
      name; the first out-of-range line stops the scan. */
  function ParseLines(lines: seq<string>): (r: Detection)
    ensures r.Codecs? ==> |r.codecs| <= |lines|
    ensures r.Codecs? ==> forall k :: 0 <= k < |r.codecs| ==> r.codecs[k] in SupportedCodecs
    ensures r.IndexPanic? ==> r.line < |lines|
    decreases |lines|
  {
    if lines == [] then Codecs([])
    else
      var last := |lines| - 1;
      var before := ParseLines(lines[..last]);
      match before
      case IndexPanic(_) => before
      case Codecs(cs) =>
        match ClassifyLine(lines[last])
        case Ignored => before
        case Kept(c) => Codecs(cs + [c])
        case FieldIndexOutOfRange => IndexPanic(last)
  }

  /** The parse of the tool's output: its newline-separated lines, scanned.
      It yields at most one catalog name per line, and a panic names one of
      the lines. */
  function ParseEncoders(out: string): (r: Detection)
    ensures r.Codecs? ==> |r.codecs| <= Count(out, '\n') + 1
    ensures r.Codecs? ==> forall k :: 0 <= k < |r.codecs| ==> r.codecs[k] in SupportedCodecs
    ensures r.IndexPanic? ==> r.line <= Count(out, '\n')
  {
    ParseLines(Split(out, '\n'))
  }

  /** The whole detection: a failed command detects nothing, and whatever
      the command produced, no name outside the catalog is reported; in
      particular Video4Linux is never detected. */
  function DetectCodecs(cmd: CommandResult): (r: Detection)
    ensures cmd.CommandFailed? ==> r == Codecs([])
    ensures r.Codecs? ==> forall k :: 0 <= k < |r.codecs| ==> r.codecs[k] in SupportedCodecs
    ensures r.Codecs? ==> Video4Linux.Name() !in r.codecs
  {
    match cmd
    case CommandFailed => Codecs([])
    case CommandOutput(out) => ParseEncoders(out)
  }

  /** GetCodecs, given what the tool invocation produced: starts from an
      empty list, returns it at once when the command failed, and otherwise
      appends the catalog names of the H.264 rows in order. */
  method GetCodecs(cmd: CommandResult) returns (result: Detection)
    ensures result == DetectCodecs(cmd)
    ensures cmd.CommandFailed? ==> result == Codecs([])
  {
    var codecs: seq<string> := [];
    if cmd.CommandFailed? {
      return Codecs(codecs);
    }
    var lines := Split(cmd.out, '\n');
    for i := 0 to |lines|
      invariant ParseLines(lines[..i]) == Codecs(codecs)
    {
      var line := lines[i];
      assert lines[..i + 1][..i] == lines[..i];
      if Contains(line, H264Marker) {
        var fields := Fields(line);
        if |fields| < 2 {
          PanicStopsScan(lines[..i + 1], lines[i + 1..]);
          assert lines[..i + 1] + lines[i + 1..] == lines;
          return IndexPanic(i);
        }
        var codec := fields[1];
        if codec in SupportedCodecs {
          codecs := codecs + [codec];
        }
      }
    }
    assert lines[..|lines|] == lines;
    return Codecs(codecs);
  }

  // ---------------------------------------------------------------- properties

  /** Scanning two listings one after the other: a panic in the first stops
      the scan; otherwise the names of the first come before those of the
      second, and a panic in the second is reported at its shifted line. */
  lemma {:induction false} ParseLinesAppend(a: seq<string>, b: seq<string>)
    ensures ParseLines(a).IndexPanic? ==> ParseLines(a + b) == ParseLines(a)
    ensures ParseLines(a).Codecs? && ParseLines(b).IndexPanic? ==>
      ParseLines(a + b) == IndexPanic(|a| + ParseLines(b).line)
    ensures ParseLines(a).Codecs? && ParseLines(b).Codecs? ==>
      ParseLines(a + b) == Codecs(ParseLines(a).codecs + ParseLines(b).codecs)
    decreases |b|
  {
    if b == [] {
      assert a + b == a;
    } else {
      var b' := b[..|b| - 1];
      assert (a + b)[..|a + b| - 1] == a + b';
      assert (a + b)[|a + b| - 1] == b[|b| - 1];
      ParseLinesAppend(a, b');
      if ParseLines(a).Codecs? && ParseLines(b').Codecs? {
        var ca, cb := ParseLines(a).codecs, ParseLines(b').codecs;
        match ClassifyLine(b[|b| - 1])
        case Ignored =>
        case FieldIndexOutOfRange =>
        case Kept(c) =>
          assert ca + cb + [c] == ca + (cb + [c]);
      }
    }
  }

  /** Once a prefix of the listing panics, the whole scan ends in that panic. */
  lemma PanicStopsScan(a: seq<string>, b: seq<string>)
    requires a != [] && ClassifyLine(a[|a| - 1]) == FieldIndexOutOfRange
    requires ParseLines(a[..|a| - 1]).Codecs?
    ensures ParseLines(a + b) == IndexPanic(|a| - 1)
  {
    ParseLinesAppend(a, b);
  }

  /** A line without the H.264 marker, or whose second field is not in the
      catalog, contributes nothing wherever it stands. */
  lemma IgnoredLineContributesNothing(before: seq<string>, line: string, after: seq<string>)
    requires !Contains(line, H264Marker) || (|Fields(line)| >= 2 && Fields(line)[1] !in SupportedCodecs)
    ensures ParseLines(before + [line] + after).Codecs? <==> ParseLines(before + after).Codecs?
    ensures ParseLines(before + [line] + after).Codecs? ==>
      ParseLines(before + [line] + after).codecs == ParseLines(before + after).codecs
  {
    ParseLinesAppend(before, [line]);
    ParseLinesAppend(before + [line], after);
    ParseLinesAppend(before, after);
    assert ParseLines([line]) == Codecs([]) by {
      assert [line][..0] == [];
    }
  }

  /** A marked line whose second field is a catalog key contributes exactly
      that field, once, between the names of the lines around it. */
  lemma KeptLineContributesOnce(before: seq<string>, line: string, after: seq<string>)
    requires Contains(line, H264Marker) && |Fields(line)| >= 2 && Fields(line)[1] in SupportedCodecs
    requires ParseLines(before).Codecs? && ParseLines(after).Codecs?
    ensures ParseLines(before + [line] + after) ==
      Codecs(ParseLines(before).codecs + [Fields(line)[1]] + ParseLines(after).codecs)
  {
    ParseLinesAppend(before, [line]);
    ParseLinesAppend(before + [line], after);
    assert ParseLines([line]) == Codecs([Fields(line)[1]]) by {
      assert [line][..0] == [];
    }
  }

  /** The scan panics exactly when some line is a short marked line, and it
      reports the first such line. */
  lemma {:induction false} PanicAtFirstShortLine(lines: seq<string>)
    ensures ParseLines(lines).IndexPanic? <==> exists i :: 0 <= i < |lines| && ShortMarkedLine(lines[i])
    ensures ParseLines(lines).IndexPanic? ==>
      ParseLines(lines).line < |lines| && ShortMarkedLine(lines[ParseLines(lines).line]) &&
      forall j :: 0 <= j < ParseLines(lines).line ==> !ShortMarkedLine(lines[j])
    decreases |lines|
  {
    if lines != [] {
      var last := |lines| - 1;
      var prefix := lines[..last];
      PanicAtFirstShortLine(prefix);
      assert forall j :: 0 <= j < last ==> prefix[j] == lines[j];
      if !ParseLines(prefix).IndexPanic? && !ShortMarkedLine(lines[last]) {
        forall i | 0 <= i < |lines| ensures !ShortMarkedLine(lines[i]) {
          if i < last {
            assert !ShortMarkedLine(prefix[i]);
          }
        }
      }
    }
  }

  /** A marked line always has a first field (the marker's own characters),
      so a short marked line is one with exactly one field. */
  lemma MarkedLineHasAField(line: string)
    requires Contains(line, H264Marker)
    ensures |Fields(line)| >= 1
  {
    var i :| OccursAt(line, H264Marker, i);
    assert line[i] == line[i..i + |H264Marker|][0] == 'H';
    FieldsNonEmpty(line, i);
  }

  // ---------------------------------------------------------------- scenarios

  /** A listing of a single row detects what that row contributes. */
  lemma SingleRowListing(line: string)
    requires '\n' !in line
    ensures ParseEncoders(line) == match ClassifyLine(line)
      case Ignored => Codecs([])
      case Kept(c) => Codecs([c])
      case FieldIndexOutOfRange => IndexPanic(0)
  {
    SplitNoSeparator(line, '\n');
    assert ParseEncoders(line) == ParseLines([line]);
    assert [line][..0] == [];
    assert ParseLines([line][..0]) == Codecs([]);
  }

  /** A row of the tool's encoder listing (capability flags, one space, the
      encoder name, blanks, a description) is detected exactly when it
      carries the H.264 marker and its name is in the catalog. */
  lemma ListingRow(flags: string, name: string, gap: string, desc: string)
    requires IsWord(flags) && IsWord(name)
    requires |gap| > 0 && forall k :: 0 <= k < |gap| ==> gap[k] == ' '
    requires '\n' !in desc
    ensures var line := flags + " " + name + gap + desc;
      ParseEncoders(line) ==
        if Contains(line, H264Marker) && name in SupportedCodecs then Codecs([name]) else Codecs([])
  {
    var line := flags + " " + name + gap + desc;
    assert line == flags + (" " + (name + (gap + desc)));
    FieldsFirstWord(flags, " " + (name + (gap + desc)));
    FieldsSkipSpace(" ", name + (gap + desc));
    FieldsFirstWord(name, gap + desc);
    FieldsSkipSpace(gap, desc);
    assert Fields(line)[1] == name;
    assert '\n' !in line by {
      assert IsSpace('\n');
      assert '\n' !in flags && '\n' !in name && '\n' !in gap;
    }
    SingleRowListing(line);
  }

  // Rows of an encoder listing, written as their flags, name, blanks and
  // description.
  const Mpeg4Row := "V....." + " " + "mpeg4" + "   " + "MPEG-4 part 2"
  const NvencRow := "V....." + " " + "h264_nvenc" + "   " + "NVIDIA NVENC H.264 encoder"
  const VideoToolboxRow := "V....." + " " + "h264_videotoolbox" + " " + "VideoToolbox H.264 Encoder"
  const BareMarkerRow := "H.264"

  /** The NVENC row is detected. */
  lemma NvencRowDetected()
    ensures ParseEncoders(NvencRow) == Codecs(["h264_nvenc"])
  {
    var desc := "NVIDIA NVENC H.264 encoder";
    assert forall k :: 0 <= k < |desc| ==> desc[k] != '\n';
    ListingRow("V.....", "h264_nvenc", "   ", desc);
    assert OccursAt(NvencRow, H264Marker, 33);
  }

  /** The MPEG-4 row carries no H.264 marker and is ignored. */
  lemma Mpeg4RowIgnored()
    ensures !Contains(Mpeg4Row, H264Marker)
    ensures ParseEncoders(Mpeg4Row) == Codecs([])
  {
    var desc := "MPEG-4 part 2";
    assert forall k :: 0 <= k < |desc| ==> desc[k] != '\n';
    ListingRow("V.....", "mpeg4", "   ", desc);
    assert forall k :: 0 <= k < |Mpeg4Row| ==> Mpeg4Row[k] != 'H';
    MissingFirstCharacter(Mpeg4Row, H264Marker);
  }

  /** An H.264 encoder missing from the catalog is extracted but filtered
      out. */
  lemma VideoToolboxRowFiltered()
    ensures ParseEncoders(VideoToolboxRow) == Codecs([])
  {
    var desc := "VideoToolbox H.264 Encoder";
    assert forall k :: 0 <= k < |desc| ==> desc[k] != '\n';
    ListingRow("V.....", "h264_videotoolbox", " ", desc);
  }

  /** A row that is nothing but the marker has one field: the scan panics
      on its first line. */
  lemma BareMarkerRowPanics()
    ensures ParseEncoders(BareMarkerRow) == IndexPanic(0)
  {
    var line := BareMarkerRow;
    assert IsWord(line);
    FieldsFirstWord(line, []);
    assert line + [] == line;
    assert OccursAt(line, H264Marker, 0);
    assert forall k :: 0 <= k < |line| ==> line[k] != '\n';
    SingleRowListing(line);
  }

  /** A listing of the three rows above, one per line, detects only NVENC. */
  lemma ListingDetectsNvencOnly()
    ensures ParseEncoders(Mpeg4Row + "\n" + NvencRow + "\n" + VideoToolboxRow) == Codecs(["h264_nvenc"])
  {
    var l1, l2, l3 := Mpeg4Row, NvencRow, VideoToolboxRow;
    Mpeg4RowIgnored();
    NvencRowDetected();
    VideoToolboxRowFiltered();
    SplitAtSeparator(l2, l3, '\n');
    SplitAtSeparator(l1, l2 + "\n" + l3, '\n');
    assert l1 + "\n" + l2 + "\n" + l3 == l1 + ['\n'] + (l2 + ['\n'] + l3);
    var lines := Split(l1, '\n') + (Split(l2, '\n') + Split(l3, '\n'));
    assert Split(l1 + "\n" + l2 + "\n" + l3, '\n') == lines;
    ParseLinesAppend(Split(l2, '\n'), Split(l3, '\n'));
    ParseLinesAppend(Split(l1, '\n'), Split(l2, '\n') + Split(l3, '\n'));
  }
}
