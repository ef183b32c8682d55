/**
  The catalog (grid) view: extension extraction, the five-way preview
  classification behind the compact and the large renderer, the live search
  filter and the open/close state of the large-preview overlay.
  Everything here is a value; the view's state changes only by replacement.
 */
module ControlCenter {
  import opened Optional
  import opened Strings
  import opened Sequences
  import Uploads

  /** A listed file as the catalog view sees it. */
  datatype FileData = FileData(name: string, size: int, date: string)

  // ---------------------------------------------------------------------
  // Extensions

  /** `getFileExtension`: the lower-cased text after the last dot, or "" without a dot. */
  function GetFileExtension(fileName: string): (ext: string)
    ensures '.' !in fileName ==> ext == ""
    ensures '.' in fileName ==>
      && |ext| < |fileName|
      && fileName[|fileName| - |ext| - 1] == '.'
      && '.' !in fileName[|fileName| - |ext|..]
      && ext == Lower(fileName[|fileName| - |ext|..])
  {
    var parts := Split(fileName, '.');
    LastPiece(fileName, '.');
    if |parts| > 1 then Lower(Last(parts)) else ""
  }

  /** A name that ends with a dot has the empty extension. */
  lemma TrailingDotHasNoExtension(fileName: string)
    requires |fileName| > 0 && fileName[|fileName| - 1] == '.'
    ensures GetFileExtension(fileName) == ""
  {
  }

  /** The extension depends only on the lower-cased name. */
  lemma {:induction false} ExtensionIgnoresCase(fileName: string)
    ensures GetFileExtension(Lower(fileName)) == GetFileExtension(fileName)
  {
    SplitLower(fileName);
    var parts := Split(fileName, '.');
    if |parts| > 1 {
      LowerIdempotent(Last(parts));
    }
  }

  /** Two names equal up to case have the same extension. */
  lemma SameExtensionUpToCase(a: string, b: string)
    requires Lower(a) == Lower(b)
    ensures GetFileExtension(a) == GetFileExtension(b)
  {
    ExtensionIgnoresCase(a);
    ExtensionIgnoresCase(b);
  }

  const ImageExtensions: seq<string> := ["jpg", "jpeg", "png", "gif", "bmp", "svg"]
  const VideoExtensions: seq<string> := ["mp4", "webm", "ogg"]
  const AudioExtensions: seq<string> := ["mp3", "wav", "ogg"]
  const DocExtensions: seq<string> :=
    ["html", "htm", "txt", "md", "ts", "tsx", "js", "jsx", "c", "cpp", "java", "css", "scss", "sql", "py", "rb", "php"]

  // ---------------------------------------------------------------------
  // Classification

  /** The five ways a file is previewed. */
  datatype Category = Image | Video | Audio | Document | Unknown

  /** The order in which the renderers test the lists: image first, unknown last. */
  function Rank(c: Category): nat
  {
    match c
    case Image => 0
    case Video => 1
    case Audio => 2
    case Document => 3
    case Unknown => 4
  }

  /** The extension list a category is tested against (none for unknown). */
  function ExtensionsOf(c: Category): seq<string>
  {
    match c
    case Image => ImageExtensions
    case Video => VideoExtensions
    case Audio => AudioExtensions
    case Document => DocExtensions
    case Unknown => []
  }

  /**
    The category of a file name: the first list, in the order image, video,
    audio, document, that holds its extension; unknown when none does.
   */
  function Classify(fileName: string): (c: Category)
    ensures c != Unknown ==> GetFileExtension(fileName) in ExtensionsOf(c)
    ensures forall d :: Rank(d) < Rank(c) ==> GetFileExtension(fileName) !in ExtensionsOf(d)
  {
    var ext := GetFileExtension(fileName);
    if ext in ImageExtensions then Image
    else if ext in VideoExtensions then Video
    else if ext in AudioExtensions then Audio
    else if ext in DocExtensions then Document
    else Unknown
  }

  /** Classification is case-insensitive. */
  lemma ClassifyIgnoresCase(a: string, b: string)
    requires Lower(a) == Lower(b)
    ensures Classify(a) == Classify(b)
  {
    SameExtensionUpToCase(a, b);
  }

  /** The category is the only one satisfying the first-match rule. */
  lemma ClassifyUnique(fileName: string, c: Category)
    requires c != Unknown ==> GetFileExtension(fileName) in ExtensionsOf(c)
    requires forall d :: Rank(d) < Rank(c) ==> GetFileExtension(fileName) !in ExtensionsOf(d)
    ensures c == Classify(fileName)
  {
    var k := Classify(fileName);
    assert Rank(k) == Rank(c);
  }

  /** A name without a dot, or ending with one, is unknown. */
  lemma NoExtensionIsUnknown(fileName: string)
    requires '.' !in fileName || (|fileName| > 0 && fileName[|fileName| - 1] == '.')
    ensures Classify(fileName) == Unknown
  {
    if '.' in fileName {
      TrailingDotHasNoExtension(fileName);
    }
  }

  /** `ogg` is on the video and on the audio list; it is always video. */
  lemma OggIsVideo(fileName: string)
    requires GetFileExtension(fileName) == "ogg"
    ensures "ogg" in VideoExtensions && "ogg" in AudioExtensions
    ensures Classify(fileName) == Video
  {
  }

  /** Only `mp3` and `wav` files are ever audio. */
  lemma AudioIsMp3OrWav(fileName: string)
    ensures Classify(fileName) == Audio <==> GetFileExtension(fileName) in ["mp3", "wav"]
  {
  }

  // ---------------------------------------------------------------------
  // Rendering

  /** What a renderer mounts for a file. */
  datatype Preview =
    | Picture(url: string)                      // an image element
    | VideoPlaceholder                          // a play glyph and "click to view"; no media element
    | VideoPlayer(url: string)                  // a playable video element
    | AudioPlayer(url: string)                  // a playable audio element
    | DocumentFrame(url: string, blurred: bool) // an embedded frame of the raw content
    | Unavailable                               // "preview unavailable"

  /** The category a mounted preview belongs to. */
  function CategoryOf(p: Preview): Category
  {
    match p
    case Picture(_) => Image
    case VideoPlaceholder => Video
    case VideoPlayer(_) => Video
    case AudioPlayer(_) => Audio
    case DocumentFrame(_, _) => Document
    case Unavailable => Unknown
  }

  /** Does the preview load the file's content? */
  predicate LoadsContent(p: Preview)
  {
    !p.VideoPlaceholder? && !p.Unavailable?
  }

  /**
    `renderPreview`, the tile inside the grid: a video is only a placeholder,
    a document is blurred.
   */
  function RenderPreview(file: FileData): (p: Preview)
    ensures CategoryOf(p) == Classify(file.name)
    ensures !p.VideoPlayer?
    ensures p.DocumentFrame? ==> p.blurred
    ensures LoadsContent(p) ==> p.url == Uploads.AssetUrl(file.name)
  {
    var ext := GetFileExtension(file.name);
    var url := Uploads.AssetUrl(file.name);
    if ext != "" && ext in ImageExtensions then Picture(url)
    else if ext != "" && ext in VideoExtensions then VideoPlaceholder
    else if ext != "" && ext in AudioExtensions then AudioPlayer(url)
    else if ext != "" && ext in DocExtensions then DocumentFrame(url, true)
    else Unavailable
  }

  /**
    `renderLargePreview`, the content of the overlay: a video is playable,
    a document is not blurred.
   */
  function RenderLargePreview(file: FileData): (p: Preview)
    ensures CategoryOf(p) == Classify(file.name)
    ensures !p.VideoPlaceholder?
    ensures p.DocumentFrame? ==> !p.blurred
    ensures LoadsContent(p) ==> p.url == Uploads.AssetUrl(file.name)
  {
    var ext := GetFileExtension(file.name);
    var url := Uploads.AssetUrl(file.name);
    if ext != "" && ext in ImageExtensions then Picture(url)
    else if ext != "" && ext in VideoExtensions then VideoPlayer(url)
    else if ext != "" && ext in AudioExtensions then AudioPlayer(url)
    else if ext != "" && ext in DocExtensions then DocumentFrame(url, false)
    else Unavailable
  }

  /** The two renderers put every file in the same category, and differ only for video and documents. */
  lemma RenderersAgree(file: FileData)
    ensures CategoryOf(RenderPreview(file)) == CategoryOf(RenderLargePreview(file))
    ensures Classify(file.name) !in {Video, Document} ==> RenderPreview(file) == RenderLargePreview(file)
  {
  }

  // ---------------------------------------------------------------------
  // Search

  /** The test the search box applies to one file. */
  function NameTest(searchQuery: string): (test: FileData -> bool)
    ensures forall f :: test(f) <==> Includes(Lower(f.name), Lower(searchQuery))
  {
    (f: FileData) => MatchesQuery(f.name, searchQuery)
  }

  /** `filteredFiles`: the files whose name contains the query, ignoring case, in list order. */
  function FilteredFiles(files: seq<FileData>, searchQuery: string): (r: seq<FileData>)
    ensures IsSubsequence(r, files)
    ensures forall f :: f in r <==> f in files && MatchesQuery(f.name, searchQuery)
    ensures searchQuery == "" ==> r == files
  {
    var r := Filter(files, NameTest(searchQuery));
    if searchQuery == "" then
      forall f | f in files ensures MatchesQuery(f.name, searchQuery) {
        EmptyQueryMatches(f.name);
      }
      FilterKeepsAll(files, NameTest(searchQuery));
      r
    else r
  }

  /** The filter keeps every copy of a matching file and no copy of another one. */
  lemma FilteredFilesCounts(files: seq<FileData>, searchQuery: string, f: FileData)
    ensures multiset(FilteredFiles(files, searchQuery))[f] ==
      if MatchesQuery(f.name, searchQuery) then multiset(files)[f] else 0
  {
    FilterCounts(files, NameTest(searchQuery));
  }

  /** A query that is, up to case, part of a listed file's name keeps that file. */
  lemma PartOfNameKeepsFile(files: seq<FileData>, f: FileData, i: nat, j: nat)
    requires f in files && i <= j <= |f.name|
    ensures f in FilteredFiles(files, f.name[i..j])
  {
    BlockOfNameMatches(f.name, i, j);
  }

  // ---------------------------------------------------------------------
  // View state

  /** The catalog view's state: the fetched files, the query, the tile size and the opened file. */
  datatype CatalogState = CatalogState(
    files: seq<FileData>,
    searchQuery: string,
    boxSize: int,
    selectedFile: Option<FileData>)

  /** The user and network events the view reacts to. */
  datatype CatalogEvent =
    | FilesLoaded(data: seq<FileData>)  // the listing arrived
    | QueryTyped(query: string)         // the search box changed
    | BoxResized(px: int)               // the tile-size slider moved
    | TileClicked(file: FileData)       // a tile of the grid
    | OverlayClicked                    // the dark backdrop around the overlay's content
    | ContentClicked                    // inside the overlay's content, not on the close button
    | CloseClicked                      // the close button

  /** The state of a freshly mounted view. */
  function InitialCatalog(): (s: CatalogState)
    ensures s.files == [] && s.searchQuery == "" && s.selectedFile == None
    ensures s.boxSize == 300 && Tiles(s) == [] && Overlay(s) == None
  {
    CatalogState([], "", 300, None)
  }

  /** How one event replaces the state. */
  function Step(s: CatalogState, e: CatalogEvent): (t: CatalogState)
    ensures t.files == if e.FilesLoaded? then e.data else s.files
    ensures t.searchQuery == if e.QueryTyped? then e.query else s.searchQuery
    ensures t.boxSize == if e.BoxResized? then e.px else s.boxSize
    ensures t.selectedFile ==
      if e.TileClicked? then Some(e.file)
      else if e.OverlayClicked? || e.CloseClicked? then None
      else s.selectedFile
  {
    match e
    case FilesLoaded(data) => s.(files := data)
    case QueryTyped(q) => s.(searchQuery := q)
    case BoxResized(px) => s.(boxSize := px)
    case TileClicked(f) => s.(selectedFile := Some(f))
    case OverlayClicked => s.(selectedFile := None)
    // the content stops the click from reaching the backdrop
    case ContentClicked => s
    case CloseClicked => s.(selectedFile := None)
  }

  /** The tiles on screen: one compact preview per filtered file. */
  function Tiles(s: CatalogState): (tiles: seq<Preview>)
    ensures |tiles| == |FilteredFiles(s.files, s.searchQuery)|
    ensures forall i :: 0 <= i < |tiles| ==>
      tiles[i] == RenderPreview(FilteredFiles(s.files, s.searchQuery)[i])
  {
    var shown := FilteredFiles(s.files, s.searchQuery);
    seq(|shown|, i requires 0 <= i < |shown| => RenderPreview(shown[i]))
  }

  /** What the overlay mounts: the large preview of the opened file, or nothing. */
  function Overlay(s: CatalogState): (p: Option<Preview>)
    ensures p.Some? <==> s.selectedFile.Some?
    ensures p.Some? ==> p.value == RenderLargePreview(s.selectedFile.value)
  {
    match s.selectedFile
    case Some(f) => Some(RenderLargePreview(f))
    case None => None
  }

  /** Opening a tile shows its large preview; the backdrop or the close button unmounts it, stopping a video. */
  lemma {:induction false} OpenThenClose(s: CatalogState, f: FileData, close: CatalogEvent)
    requires close.OverlayClicked? || close.CloseClicked?
    ensures Overlay(Step(s, TileClicked(f))) == Some(RenderLargePreview(f))
    ensures Overlay(Step(Step(s, TileClicked(f)), ContentClicked)) == Some(RenderLargePreview(f))
    ensures Overlay(Step(Step(s, TileClicked(f)), close)) == None
    ensures Step(Step(s, TileClicked(f)), close).files == s.files
  {
  }

  /** No video plays in the grid: a tile never mounts a video element. */
  lemma GridNeverPlaysVideo(s: CatalogState)
    ensures forall i :: 0 <= i < |Tiles(s)| ==> !Tiles(s)[i].VideoPlayer?
  {
  }
}
