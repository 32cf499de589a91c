/**
 Classification of files into categories: a first-match lookup of the
 lower-cased extension in a fixed, ordered table, with "Others" for every
 extension the table does not list (`CATEGORY_MAP`, `categoryOfExtension`
 and the lookup in `organize`).
 */
module Categories {
  import opened Strings
  import opened Optional
  import opened Extension

  /** A category name and the lower-case extensions, without dot, it owns. */
  datatype Category = Category(name: string, extensions: seq<string>)

  const ImageExtensions: seq<string> := ["jpg", "jpeg", "png", "gif", "bmp", "webp", "svg", "heic"]
  const VideoExtensions: seq<string> := ["mp4", "mkv", "mov", "avi", "flv", "wmv", "webm"]
  const AudioExtensions: seq<string> := ["mp3", "wav", "aac", "flac", "ogg", "m4a"]
  const DocumentExtensions: seq<string> := ["pdf", "doc", "docx", "xls", "xlsx", "ppt", "pptx", "txt", "md", "odt"]
  const ArchiveExtensions: seq<string> := ["zip", "rar", "7z", "tar", "gz", "bz2", "xz"]

  /** The default table, in the order the lookup consults it. */
  const Table: seq<Category> := [
    Category("Images", ImageExtensions),
    Category("Videos", VideoExtensions),
    Category("Audio", AudioExtensions),
    Category("Documents", DocumentExtensions),
    Category("Archives", ArchiveExtensions)
  ]

  /** The category of every file whose extension the table does not list. */
  const Others: string := "Others"

  /** The name of a table category, or "Others". */
  predicate IsCategoryName(n: string) {
    n == Others || exists i :: 0 <= i < |Table| && n == Table[i].name
  }

  /** No extension is listed by two different categories of `table`. */
  predicate Disjoint(table: seq<Category>) {
    forall i, j, e :: 0 <= i < j < |table| && e in table[i].extensions ==> e !in table[j].extensions
  }

  /** Every listed extension is a non-empty lower-case word without a dot. */
  predicate TableWellFormed(table: seq<Category>) {
    forall i, e :: 0 <= i < |table| && e in table[i].extensions ==> e != "" && '.' !in e && IsLower(e)
  }

  /** `i` is the first position of `table` whose category lists `ext`. */
  predicate FirstOwner(table: seq<Category>, ext: string, i: int) {
    && 0 <= i < |table|
    && ext in table[i].extensions
    && forall j :: 0 <= j < i ==> ext !in table[j].extensions
  }

  /** Name of the first category of `table` that lists `ext`, if any. */
  function FirstMatch(table: seq<Category>, ext: string): (r: Option<string>)
    ensures r.None? <==> forall i :: 0 <= i < |table| ==> ext !in table[i].extensions
    ensures r.Some? ==> exists i :: FirstOwner(table, ext, i) && r.value == table[i].name
  {
    if |table| == 0 then None
    else if ext in table[0].extensions then
      assert FirstOwner(table, ext, 0);
      Some(table[0].name)
    else
      var r := FirstMatch(table[1..], ext);
      if r.Some? then
        var i :| FirstOwner(table[1..], ext, i) && r.value == table[1..][i].name;
        assert FirstOwner(table, ext, i + 1);
        r
      else
        assert forall i :: 1 <= i < |table| ==> ext !in table[i].extensions by {
          forall i | 1 <= i < |table| ensures ext !in table[i].extensions {
            assert table[i] == table[1..][i - 1];
          }
        }
        r
  }

  /** Category of an already lower-cased extension; the empty extension has none. */
  function CategoryOfExtension(ext: string): (r: Option<string>)
    ensures ext == "" ==> r.None?
    ensures r.None? <==> ext == "" || forall i :: 0 <= i < |Table| ==> ext !in Table[i].extensions
    ensures r.Some? ==> exists i :: FirstOwner(Table, ext, i) && r.value == Table[i].name
  {
    if ext == "" then None else FirstMatch(Table, ext)
  }

  /** Category a file of this name is moved into. */
  function Classify(name: string): (r: string)
    ensures IsCategoryName(r)
  {
    CategoryOfExtension(Lower(FileExtension(name))).GetOr(Others)
  }

  predicate ListsDisjoint(a: seq<string>, b: seq<string>) {
    forall e :: e in a ==> e !in b
  }

  predicate ListWellFormed(a: seq<string>) {
    forall e :: e in a ==> e != "" && '.' !in e && IsLower(e)
  }

  /** The five default lists share no extension. */
  lemma DefaultTableDisjoint()
    ensures Disjoint(Table)
  {
    ImagesDisjointFromMedia();
    ImagesDisjointFromFiles();
    VideosDisjointFromLater();
    AudioDisjointFromLater();
    DocumentsDisjointFromLater();
    forall i, j, e | 0 <= i < j < |Table| && e in Table[i].extensions
      ensures e !in Table[j].extensions
    {
      assert ListsDisjoint(Table[i].extensions, Table[j].extensions);
    }
  }

  lemma ImagesDisjointFromMedia()
    ensures ListsDisjoint(ImageExtensions, VideoExtensions)
    ensures ListsDisjoint(ImageExtensions, AudioExtensions)
  {
  }

  lemma ImagesDisjointFromFiles()
    ensures ListsDisjoint(ImageExtensions, DocumentExtensions)
    ensures ListsDisjoint(ImageExtensions, ArchiveExtensions)
  {
  }

  lemma VideosDisjointFromLater()
    ensures ListsDisjoint(VideoExtensions, AudioExtensions)
    ensures ListsDisjoint(VideoExtensions, DocumentExtensions)
    ensures ListsDisjoint(VideoExtensions, ArchiveExtensions)
  {
  }

  lemma AudioDisjointFromLater()
    ensures ListsDisjoint(AudioExtensions, DocumentExtensions)
    ensures ListsDisjoint(AudioExtensions, ArchiveExtensions)
  {
  }

  lemma DocumentsDisjointFromLater()
    ensures ListsDisjoint(DocumentExtensions, ArchiveExtensions)
  {
  }

  /** Every default extension is a non-empty lower-case word without a dot. */
  lemma DefaultTableWellFormed()
    ensures TableWellFormed(Table)
  {
    ImagesWellFormed();
    VideosWellFormed();
    AudioWellFormed();
    DocumentsWellFormed();
    ArchivesWellFormed();
    forall i, e | 0 <= i < |Table| && e in Table[i].extensions
      ensures e != "" && '.' !in e && IsLower(e)
    {
      assert ListWellFormed(Table[i].extensions);
    }
  }

  lemma ImagesWellFormed()
    ensures ListWellFormed(ImageExtensions)
  {
  }

  lemma VideosWellFormed()
    ensures ListWellFormed(VideoExtensions)
  {
  }

  lemma AudioWellFormed()
    ensures ListWellFormed(AudioExtensions)
  {
  }

  lemma DocumentsWellFormed()
    ensures ListWellFormed(DocumentExtensions)
  {
  }

  lemma ArchivesWellFormed()
    ensures ListWellFormed(ArchiveExtensions)
  {
  }

  /** In a disjoint table the first owner of an extension is its only owner. */
  lemma FirstOwnerIsOnlyOwner(table: seq<Category>, ext: string, i: int, k: int)
    requires Disjoint(table)
    requires FirstOwner(table, ext, i)
    requires 0 <= k < |table| && ext in table[k].extensions
    ensures i == k
  {
  }

  /** A listed extension is looked up to the one category that lists it. */
  lemma OwnerIsFound(ext: string, k: int)
    requires 0 <= k < |Table| && ext in Table[k].extensions
    ensures CategoryOfExtension(ext) == Some(Table[k].name)
  {
    DefaultTableDisjoint();
    DefaultTableWellFormed();
    var r := CategoryOfExtension(ext);
    var i :| FirstOwner(Table, ext, i) && r.value == Table[i].name;
    FirstOwnerIsOnlyOwner(Table, ext, i, k);
  }

  /** A file goes to the category listing its lower-cased extension ... */
  lemma ClassifyKnown(name: string, k: int)
    requires 0 <= k < |Table| && Lower(FileExtension(name)) in Table[k].extensions
    ensures Classify(name) == Table[k].name
  {
    OwnerIsFound(Lower(FileExtension(name)), k);
  }

  /** ... and to "Others" exactly when no category lists it. */
  lemma ClassifyOthers(name: string)
    ensures Classify(name) == Others <==>
              forall i :: 0 <= i < |Table| ==> Lower(FileExtension(name)) !in Table[i].extensions
  {
    var ext := Lower(FileExtension(name));
    if ext == "" {
      DefaultTableWellFormed();
    }
  }

  /** Two names that differ only in letter case are put in the same category. */
  lemma ClassifyIgnoresCase(a: string, b: string)
    requires Lower(a) == Lower(b)
    ensures Classify(a) == Classify(b)
  {
    FileExtensionLower(a);
    FileExtensionLower(b);
  }

  /** Upper-case extensions are found through their lower-case form. */
  lemma ClassifyUpperJpg()
    ensures Classify("PHOTO.JPG") == "Images"
    ensures Classify("b.JPG") == "Images"
  {
    ExtensionIsAfterLastDot("PHOTO.JPG", "JPG");
    ExtensionIsAfterLastDot("b.JPG", "JPG");
    assert Lower("JPG") == "jpg";
    OwnerIsFound("jpg", 0);
  }

  /** Only the text after the last dot counts: `gz` is an archive extension. */
  lemma ClassifyTarGz()
    ensures Classify("archive.tar.gz") == "Archives"
  {
    ExtensionIsAfterLastDot("archive.tar.gz", "gz");
    assert Lower("gz") == "gz";
    OwnerIsFound("gz", 4);
  }

  lemma ClassifyNotesTxt()
    ensures Classify("notes.txt") == "Documents"
  {
    ExtensionIsAfterLastDot("notes.txt", "txt");
    assert Lower("txt") == "txt";
    OwnerIsFound("txt", 3);
  }

  /** A name with no dot, or ending in one, has no extension and goes to "Others". */
  lemma ClassifyNoExtension()
    ensures Classify("README") == Others
    ensures Classify("notes.") == Others
  {
    assert FileExtension("README") == "";
    assert FileExtension("notes.") == "";
  }

  /** A name ending in `.txt` is a document. */
  lemma ClassifyDocuments(name: string, base: string)
    requires name == base + ".txt"
    ensures Classify(name) == "Documents"
  {
    ExtensionIsAfterLastDot(name, "txt");
    assert Lower("txt") == "txt";
    OwnerIsFound("txt", 3);
  }
}
