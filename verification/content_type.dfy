/** The Content-Type the download handler sets before serving a file: the
    file name's extension, lower-cased, looked up in a fixed table. */
module ContentType {
  import opened GoPath
  import opened GoStrings

  const OctetStream: string := "application/octet-stream"
  const Pdf: string := "application/pdf"

  /** The table written out in full, one entry per recognised extension. */
  const KnownTypes: map<string, string> := map[
    ".png" := "image/png",
    ".jpg" := "image/jpg",
    ".jpeg" := "image/jpeg",
    ".gif" := "image/gif",
    ".pdf" := Pdf
  ]

  /** The handler's if/else chain on an already lower-cased extension: the
      four image extensions give `image/` followed by the extension without
      its dot, `.pdf` gives the PDF type, anything else the generic binary
      type. */
  function TypeForExt(ext: string): (ct: string)
    ensures ext in KnownTypes ==> ct == KnownTypes[ext]
    ensures ext !in KnownTypes ==> ct == OctetStream
  {
    if ext == ".png" || ext == ".jpg" || ext == ".jpeg" || ext == ".gif" then
      "image/" + ext[1..]
    else if ext == ".pdf" then Pdf
    else OctetStream
  }

  /** The Content-Type for a requested file name. */
  function ContentTypeOf(filename: string): (ct: string)
    ensures ct in KnownTypes.Values || ct == OctetStream
    ensures ct == OctetStream <==> ToLower(Ext(filename)) !in KnownTypes
    ensures ToLower(Ext(filename)) in KnownTypes ==> ct == KnownTypes[ToLower(Ext(filename))]
  {
    TypeForExt(ToLower(Ext(filename)))
  }

  /** Taking the extension and lower-casing commute: neither `.` nor `/`
      is produced or removed by lower-casing. */
  lemma ExtOfLower(p: string)
    ensures Ext(ToLower(p)) == ToLower(Ext(p))
  {
    var e := Ext(p);
    var lp := ToLower(p);
    var le := ToLower(e);
    var k := |p| - |e|;
    assert le == lp[k..] by {
      assert forall i :: 0 <= i < |le| ==> le[i] == LowerChar(p[k + i]);
    }
    if e == "" {
      forall i | 0 <= i < |lp| && Separator !in lp[i..]
        ensures lp[i] != '.'
      {
        assert Separator !in p[i..];
      }
    }
    assert IsExtOf(lp, le);
    ExtUnique(lp, le);
  }

  /** The Content-Type ignores the case of the file name: two names that
      lower-case alike get the same type (so `photo.JPG` and `photo.jpg`
      are both served as `image/jpg`). */
  lemma ContentTypeIgnoresCase(f: string, g: string)
    requires ToLower(f) == ToLower(g)
    ensures ContentTypeOf(f) == ContentTypeOf(g)
  {
    ExtOfLower(f);
    ExtOfLower(g);
  }

  /** The Content-Type depends on nothing but the lower-cased extension. */
  lemma ContentTypeOnlyFromExt(f: string, g: string)
    requires ToLower(Ext(f)) == ToLower(Ext(g))
    ensures ContentTypeOf(f) == ContentTypeOf(g)
  {
  }

  /** A name with no extension, or with one outside the table, is served
      as generic binary data. */
  lemma UnknownExtIsOctetStream(f: string)
    requires Ext(f) == "" || ToLower(Ext(f)) !in KnownTypes
    ensures ContentTypeOf(f) == OctetStream
  {
  }

  /** Worked cases from the handler's table: an upper-case extension is
      served like its lower-case form, with the dot stripped. */
  lemma UpperCaseJpg()
    ensures ContentTypeOf("photo.JPG") == "image/jpg"
    ensures ContentTypeOf("photo.JPG") == ContentTypeOf("photo.jpg")
  {
    ExtUnique("photo.JPG", ".JPG");
    assert ToLower(".JPG") == ".jpg";
    ExtUnique("photo.jpg", ".jpg");
    assert ToLower(".jpg") == ".jpg";
  }

  lemma JpegKeepsFourLetters()
    ensures ContentTypeOf("scan.jpeg") == "image/jpeg"
  {
    ExtUnique("scan.jpeg", ".jpeg");
  }

  lemma MixedCasePdf()
    ensures ContentTypeOf("Report.Pdf") == Pdf
  {
    ExtUnique("Report.Pdf", ".Pdf");
    assert ToLower(".Pdf") == ".pdf";
  }

  /** Only the last extension counts: `.tar.gz` is not in the table. */
  lemma LastExtensionOnly()
    ensures ContentTypeOf("archive.tar.gz") == OctetStream
  {
    ExtUnique("archive.tar.gz", ".gz");
  }

  /** A trailing dot is an extension of its own, and not a known one. */
  lemma BareDot()
    ensures ContentTypeOf("notes.") == OctetStream
  {
    ExtUnique("notes.", ".");
  }
}
