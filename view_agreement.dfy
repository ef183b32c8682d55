/**
  How the two views' independent extension logic relates: the list view's
  `isPreviewable` and the catalog view's classification.
 */
module ViewAgreement {
  import opened Optional
  import opened Strings
  import ControlCenter
  import Download
  import Uploads

  /**
    For a name with a dot, the list view opens a file without asking exactly
    when the catalog view shows it as an image, a video or an audio file.
   */
  lemma PreviewableIffMedia(fileName: string)
    requires '.' in fileName
    ensures Download.IsPreviewable(fileName) <==>
      ControlCenter.Classify(fileName) in {ControlCenter.Image, ControlCenter.Video, ControlCenter.Audio}
  {
    var ext := ControlCenter.GetFileExtension(fileName);
    LastPiece(fileName, '.');
    var piece := fileName[|fileName| - |ext|..];
    assert IsLastPiece(piece, fileName, '.');
    assert Download.IsPreviewable(fileName) <==> ext in Download.PreviewableExtensions;
  }

  /**
    Without a dot the two disagree: `PNG` is previewable for the list view
    but has no extension, and so no preview, in the catalog view.
   */
  lemma DotlessNamesDisagree()
    ensures Download.IsPreviewable("PNG")
    ensures ControlCenter.Classify("PNG") == ControlCenter.Unknown
  {
    Download.DotlessPngIsPreviewable();
    assert '.' !in "PNG";
  }

  /**
    The two views read different fields of the same listed record: the
    catalog takes the extension and the link from `name`, the list view from
    `filename`. When the two fields hold the same text, a click in the list
    opens without asking exactly when the catalog's tile is a picture, a
    video or an audio player, and both link to the same URL.
   */
  lemma SameRecordBothViews(r: Download.FileRecord, date: string)
    requires r.name == r.filename && '.' in r.filename
    ensures var tile := ControlCenter.RenderPreview(ControlCenter.FileData(r.name, r.size, date));
      && (Download.FileClickOpens(r, false).Some? <==>
          ControlCenter.CategoryOf(tile) in {ControlCenter.Image, ControlCenter.Video, ControlCenter.Audio})
      && (ControlCenter.LoadsContent(tile) ==> Download.FileClickOpens(r, true) == Some(tile.url))
  {
    PreviewableIffMedia(r.filename);
  }

  /** The extension of `photo.png` is `png`: its only dot stands right before it. */
  lemma PhotoPngExtension(name: string)
    requires name == "photo.png"
    ensures ControlCenter.GetFileExtension(name) == "png"
  {
    assert name[5] == '.' && name[6..] == "png";
    LastPiece(name, '.');
    LastPieceUnique(name[6..], Last(Split(name, '.')), name, '.');
    assert "png"[0] != '.' && "png"[1] != '.' && "png"[2] != '.';
    assert Lower("png") == "png";
  }

  /**
    When the fields differ the views part ways: a record stored as `x` and
    displayed as `photo.png` is a picture of `uploads/photo.png` in the
    catalog, while the list view links `uploads/x` and asks before opening it.
   */
  lemma DisplayNameLinksDiffer(r: Download.FileRecord)
    requires r.filename == "x" && r.name == "photo.png"
    ensures ControlCenter.RenderPreview(ControlCenter.FileData(r.name, r.size, ""))
      == ControlCenter.Picture(Uploads.AssetUrl(r.name))
    ensures Download.FileClickOpens(r, false) == None
    ensures Download.FileClickOpens(r, true) == Some(Uploads.AssetUrl(r.filename))
  {
    PhotoPngExtension(r.name);
    assert "png" in ControlCenter.ImageExtensions;
    assert Lower(r.filename) == r.filename;
    assert r.filename !in Download.PreviewableExtensions;
  }
}
