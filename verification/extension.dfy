/**
 File-name extension extraction: the text after the last dot of a file name,
 or the empty string when the name has no dot or ends with one
 (`getFileExtension` in FileOrganizer).
 */
module Extension {
  import opened Strings

  /** The extension of `name`, without its dot. */
  function FileExtension(name: string): (ext: string)
    ensures '.' !in ext
    ensures ext == "" <==> ('.' !in name || name[|name| - 1] == '.')
    ensures ext != "" ==>
              && |ext| < |name|
              && name[|name| - |ext| - 1] == '.'
              && name[|name| - |ext|..] == ext
  {
    LastIndexOfAbsent(name, '.');
    var idx := LastIndexOf(name, '.');
    if idx == -1 || idx == |name| - 1 then ""
    else name[idx + 1..]
  }

  /** Any two candidate "extensions" that both satisfy the contract are the same one. */
  lemma ExtensionIsAfterLastDot(name: string, ext: string)
    requires ext != "" && '.' !in ext
    requires |ext| < |name| && name[|name| - |ext| - 1] == '.' && name[|name| - |ext|..] == ext
    ensures FileExtension(name) == ext
  {
    assert name[|name| - 1] != '.' by {
      assert ext[|ext| - 1] == name[|name| - 1];
    }
  }

  /** Lower-casing a name lower-cases its extension and nothing else about it. */
  lemma FileExtensionLower(name: string)
    ensures FileExtension(Lower(name)) == Lower(FileExtension(name))
  {
    LastIndexOfDotLower(name);
    var idx := LastIndexOf(name, '.');
    if idx != -1 && idx != |name| - 1 {
      LowerSuffix(name, idx + 1);
    }
  }

  lemma LowerSuffix(s: string, i: nat)
    requires i <= |s|
    ensures Lower(s)[i..] == Lower(s[i..])
  {
  }

  lemma Examples()
    ensures FileExtension("archive.tar.gz") == "gz"
    ensures FileExtension(".bashrc") == "bashrc"
    ensures FileExtension("notes.") == ""
    ensures FileExtension("README") == ""
  {
    ExtensionIsAfterLastDot("archive.tar.gz", "gz");
    ExtensionIsAfterLastDot(".bashrc", "bashrc");
  }
}
