/**
 * `Base64ImageField.to_internal_value`: a string that starts with
 * "data:image" is split at ";base64," into a format and a payload, and
 * becomes a file named "temp." plus the text after the format's last "/".
 * Anything else goes to the image field unchanged.
 */
module ImageField {
  import opened Strings

  const DataPrefix: string := "data:image"
  const Base64Marker: string := ";base64,"

  /** What the client sent for `image`: JSON text, or an uploaded file. */
  datatype ImageInput = Text(s: string) | Upload(name: string, content: string)

  /** What the field passes on, or how it fails:
      - `FileValue`: a named file handed to the image field's own checks
        (the base64 decoding and the image check are not modelled, so the
        content is the undecoded payload);
      - `NotAFile`: a plain string, which the image field refuses as not a
        file (400);
      - `Crash`: the two-name unpacking of the split raises `ValueError`,
        which nothing catches (500). */
  datatype ImageOutcome = FileValue(name: string, content: string) | NotAFile | Crash

  predicate StartsWith(s: string, p: string) {
    |p| <= |s| && s[..|p|] == p
  }

  /** The extension: what follows the last "/" of the format. */
  function Extension(format: string): string {
    Last(Split(format, "/"))
  }

  function ToInternalValue(data: ImageInput): (r: ImageOutcome)
    ensures data.Upload? ==> r == FileValue(data.name, data.content)
    ensures r.Crash? ==> data.Text? && StartsWith(data.s, DataPrefix)
    ensures data.Text? && r.FileValue? ==> StartsWith(r.name, "temp.")
  {
    match data
    case Upload(name, content) => FileValue(name, content)
    case Text(s) =>
      if StartsWith(s, DataPrefix) then
        var parts := Split(s, Base64Marker);
        if |parts| != 2 then Crash
        else FileValue("temp." + Extension(parts[0]), parts[1])
      else NotAFile
  }

  // ---------------------------------------------------------------------------
  // Properties
  // ---------------------------------------------------------------------------

  lemma MarkerUnbordered()
    ensures Unbordered(Base64Marker)
  {
    var m := Base64Marker;
    forall k | 0 < k < |m| ensures Border(m, k) != m[|m| - k..] {
      assert Border(m, k)[0] == ';';
      assert m[|m| - k..][0] == m[|m| - k];
      assert m[|m| - k] != ';';
    }
  }

  /** A string holding the separator splits into at least two pieces. */
  lemma SplitsWhenContains(s: string, sep: string)
    requires |sep| > 0 && Contains(s, sep)
    ensures |Split(s, sep)| >= 2
  {
    var parts := Split(s, sep);
    JoinSplit(s, sep);
    PiecesAreFree(s, sep);
  }

  /** Uploaded files and strings without the data prefix are passed on as
      they came: a file stays that file, a string is not a file. */
  lemma PassedThrough(data: ImageInput)
    requires data.Upload? || !StartsWith(data.s, DataPrefix)
    ensures data.Upload? ==> ToInternalValue(data) == FileValue(data.name, data.content)
    ensures data.Text? ==> ToInternalValue(data) == NotAFile
  {
  }

  /** A decoded data URI is the format, one marker and the payload; the file
      name is "temp." followed by a slash-free suffix of the format. */
  lemma DecodedShape(s: string)
    requires ToInternalValue(Text(s)).FileValue?
    ensures var r := ToInternalValue(Text(s));
      exists format, ext ::
        && s == format + Base64Marker + r.content
        && StartsWith(format, DataPrefix)
        && !Contains(format, Base64Marker) && !Contains(r.content, Base64Marker)
        && r.name == "temp." + ext
        && !Contains(ext, "/")
        && (format == ext || exists h :: format == h + "/" + ext)
  {
    var parts := Split(s, Base64Marker);
    SplitInTwo(s, Base64Marker);
    LastPiece(parts[0], "/");
    var format := parts[0];
    assert s == format + Base64Marker + parts[1];
    PrefixBeforeMarker(s, format, parts[1]);
    assert format[..|DataPrefix|] == s[..|DataPrefix|];
  }

  /** The data prefix holds no ';', so a marker cannot start inside it. */
  lemma PrefixBeforeMarker(s: string, format: string, payload: string)
    requires s == format + Base64Marker + payload && StartsWith(s, DataPrefix)
    ensures |format| >= |DataPrefix|
  {
    assert s[|format|] == ';';
    forall i | 0 <= i < |DataPrefix| ensures s[i] != ';' {
      assert s[i] == s[..|DataPrefix|][i];
    }
  }

  /** The inverse direction: a prefixed format and a payload, neither holding
      the marker, joined by one marker decode to "temp." + extension and the
      payload. */
  lemma DecodeRoundTrip(format: string, payload: string)
    requires StartsWith(format, DataPrefix)
    requires !Contains(format, Base64Marker) && !Contains(payload, Base64Marker)
    ensures ToInternalValue(Text(format + Base64Marker + payload))
      == FileValue("temp." + Extension(format), payload)
  {
    var s := format + Base64Marker + payload;
    MarkerUnbordered();
    SplitAfterHead(format, Base64Marker, payload);
    SplitWithoutSeparator(payload, Base64Marker);
    assert s[..|DataPrefix|] == format[..|DataPrefix|];
  }

  /** A data URI without the marker fails. */
  lemma MissingMarkerCrashes(s: string)
    requires StartsWith(s, DataPrefix) && !Contains(s, Base64Marker)
    ensures ToInternalValue(Text(s)) == Crash
  {
    SplitWithoutSeparator(s, Base64Marker);
  }

  /** A data URI with the marker twice fails, whatever surrounds it. */
  lemma RepeatedMarkerCrashes(format: string, middle: string, rest: string)
    requires StartsWith(format, DataPrefix) && !Contains(format, Base64Marker)
    ensures ToInternalValue(Text(format + Base64Marker + middle + Base64Marker + rest)) == Crash
  {
    var m := Base64Marker;
    var tail := middle + m + rest;
    var s := format + m + tail;
    assert format + m + middle + m + rest == s;
    MarkerUnbordered();
    SplitAfterHead(format, m, tail);
    assert OccursAt(tail, m, |middle|) by {
      assert tail[|middle|..|middle| + |m|] == m;
    }
    SplitsWhenContains(tail, m);
    assert s[..|DataPrefix|] == format[..|DataPrefix|];
  }
}
