/** The photo picker (components/FileUpload.tsx): the size and format checks
    on a chosen file, the base64 payload taken from the file's data URL, and
    the photo record handed to the form. Reading the file is not modelled:
    the data URL the browser produces is an input. */
module FileUpload {
  import opened Wrappers
  import opened Text
  import opened Types

  /** 5 MB, the largest accepted file. */
  const MaxPhotoBytes: nat := 5 * 1024 * 1024

  /** The accepted MIME types. */
  const AcceptedFormats: seq<string> := ["image/jpeg", "image/png", "image/webp", "image/gif"]

  const SizeError: string := "File too large. Max 5MB."
  const FormatError: string := "Invalid format. Use JPG, PNG, WebP or GIF."

  /** What the browser reports about a chosen file. */
  datatype FileInfo = FileInfo(name: string, mimeType: string, size: nat)

  /** The error `handleFile` leaves for `file`, `None` when it accepts it:
      the size check comes first, the format check second. */
  function FileError(file: FileInfo): (r: Option<string>)
    ensures file.size > MaxPhotoBytes ==> r == Some(SizeError)
    ensures file.size <= MaxPhotoBytes && file.mimeType !in AcceptedFormats ==> r == Some(FormatError)
  {
    if file.size > MaxPhotoBytes then Some(SizeError)
    else if file.mimeType !in AcceptedFormats then Some(FormatError)
    else None
  }

  /** A file is accepted exactly when it is at most 5 MB (5 MB itself
      included) and is a JPEG, PNG, WebP or GIF image. */
  lemma FileAcceptedIff(file: FileInfo)
    ensures FileError(file) == None <==>
      && file.size <= 5242880
      && (file.mimeType == "image/jpeg" || file.mimeType == "image/png"
          || file.mimeType == "image/webp" || file.mimeType == "image/gif")
  {
  }

  /** `s.split(c)`: the pieces between the occurrences of `c`; a string
      without `c` is one piece. */
  function SplitOn(s: string, c: char): (pieces: seq<string>)
    ensures |pieces| >= 1
    ensures forall k :: 0 <= k < |pieces| ==> c !in pieces[k]
  {
    if s == [] then [[]]
    else if s[0] == c then [[]] + SplitOn(s[1..], c)
    else
      var rest := SplitOn(s[1..], c);
      [[s[0]] + rest[0]] + rest[1..]
  }

  /** Joining the pieces of a split with the same separator gives the
      string back: the split loses nothing. */
  lemma {:induction false} JoinSplitOn(s: string, c: char)
    ensures Join(SplitOn(s, c), c) == s
  {
    if s != [] {
      var rest := SplitOn(s[1..], c);
      JoinSplitOn(s[1..], c);
      if s[0] == c {
        assert SplitOn(s, c) == [[]] + rest;
      } else {
        var pieces := SplitOn(s, c);
        assert pieces == [[s[0]] + rest[0]] + rest[1..];
        if |rest| == 1 {
          assert Join(pieces, c) == [s[0]] + rest[0];
        } else {
          assert pieces[1..] == rest[1..];
          assert Join(pieces, c) == [s[0]] + rest[0] + [c] + Join(rest[1..], c);
        }
      }
    }
  }

  /** The split of a string without `c` is that string alone. */
  lemma {:induction false} SplitOnWithout(s: string, c: char)
    requires c !in s
    ensures SplitOn(s, c) == [s]
  {
    if s != [] {
      assert c !in s[1..];
      SplitOnWithout(s[1..], c);
      assert s[0] != c;
      assert SplitOn(s, c) == [[s[0]] + s[1..]] + [s[1..]][1..];
      assert [s[0]] + s[1..] == s;
    }
  }

  /** `dataUrl.split(',')[1]`: `None` (`undefined`) without a comma. */
  function Base64Payload(dataUrl: string): (r: Option<string>)
    ensures r == None <==> ',' !in dataUrl
    ensures r.Some? ==> ',' !in r.value
  {
    var pieces := SplitOn(dataUrl, ',');
    if ',' !in dataUrl then
      None
    else
      SplitHasSecondPiece(dataUrl, ',');
      Some(pieces[1])
  }

  /** A string holding `c` splits into at least two pieces. */
  lemma {:induction false} SplitHasSecondPiece(s: string, c: char)
    requires c in s
    ensures |SplitOn(s, c)| >= 2
  {
    if s[0] != c {
      SplitHasSecondPiece(s[1..], c);
    }
  }

  /** The payload is the text between the first comma and the next comma
      (or the end): for a data URL `header,payload` whose header and payload
      hold no comma, it is exactly the payload. */
  lemma {:induction false} Base64PayloadOfDataUrl(header: string, payload: string)
    requires ',' !in header && ',' !in payload
    ensures Base64Payload(header + [','] + payload) == Some(payload)
  {
    HeaderSplit(header, payload);
  }

  /** The payload stops at the next comma: for `header,payload,rest`
      whose header and payload hold no comma, it is `payload`, whatever
      `rest` holds. */
  lemma Base64PayloadStopsAtComma(header: string, payload: string, rest: string)
    requires ',' !in header && ',' !in payload
    ensures Base64Payload(header + [','] + payload + [','] + rest) == Some(payload)
  {
    var s := header + [','] + (payload + [','] + rest);
    assert header + [','] + payload + [','] + rest == s;
    SplitAtFirst(header, payload + [','] + rest, ',');
    SplitAtFirst(payload, rest, ',');
    assert ',' in s by {
      assert s[|header|] == ',';
    }
  }

  lemma HeaderSplit(header: string, payload: string)
    requires ',' !in header && ',' !in payload
    ensures SplitOn(header + [','] + payload, ',') == [header, payload]
  {
    SplitAtFirst(header, payload, ',');
    SplitOnWithout(payload, ',');
  }

  /** The first piece of a split is the text before the first separator,
      and the rest is the split of what follows it. */
  lemma {:induction false} SplitAtFirst(p: string, rest: string, c: char)
    requires c !in p
    ensures SplitOn(p + [c] + rest, c) == [p] + SplitOn(rest, c)
  {
    var s := p + [c] + rest;
    if p == [] {
      assert s == [c] + rest;
      assert s[1..] == rest;
    } else {
      assert s[1..] == p[1..] + [c] + rest;
      assert c !in p[1..];
      SplitAtFirst(p[1..], rest, c);
      assert [p[0]] + p[1..] == p;
    }
  }

  /** The record `handleFile` hands to the form once the file is read. */
  function PhotoOf(file: FileInfo, dataUrl: string): (p: PhotoData)
    ensures p.fileName == file.name && p.mimeType == file.mimeType && p.size == file.size
    ensures p.preview == dataUrl && p.data == Base64Payload(dataUrl)
  {
    PhotoData(file.name, file.mimeType, Base64Payload(dataUrl), dataUrl, file.size)
  }

  /** The component's error message and the calls it makes to the form's
      `onPhotoChange` callback (`None` for "remove the photo"). */
  class Uploader {
    var error: Option<string>
    ghost var photoChanges: seq<Option<PhotoData>>

    constructor ()
      ensures error == None && photoChanges == []
    {
      error := None;
      photoChanges := [];
    }

    /** `handleFile`: the error is reset first; a rejected file sets its
        error and never reaches the form; an accepted file is read (its data
        URL is `dataUrl`) and its photo record is handed to the form. */
    method HandleFile(file: FileInfo, dataUrl: string)
      modifies this
      ensures error == FileError(file)
      ensures FileError(file).Some? ==> photoChanges == old(photoChanges)
      ensures FileError(file) == None ==> photoChanges == old(photoChanges) + [Some(PhotoOf(file, dataUrl))]
    {
      error := None;
      if file.size > MaxPhotoBytes {
        error := Some(SizeError);
        return;
      }
      if file.mimeType !in AcceptedFormats {
        error := Some(FormatError);
        return;
      }
      photoChanges := photoChanges + [Some(PhotoOf(file, dataUrl))];
    }

    /** A drop or a file-input change: only a present file is handled. */
    method Receive(file: Option<FileInfo>, dataUrl: string)
      modifies this
      ensures file == None ==> error == old(error) && photoChanges == old(photoChanges)
      ensures file.Some? ==> error == FileError(file.value)
      ensures file.Some? && FileError(file.value).Some? ==> photoChanges == old(photoChanges)
      ensures file.Some? && FileError(file.value) == None ==>
        photoChanges == old(photoChanges) + [Some(PhotoOf(file.value, dataUrl))]
    {
      if file.Some? {
        HandleFile(file.value, dataUrl);
      }
    }

    /** The remove button asks the form to drop the photo. */
    method Remove()
      modifies this
      ensures error == old(error) && photoChanges == old(photoChanges) + [None]
    {
      photoChanges := photoChanges + [None];
    }
  }
}
