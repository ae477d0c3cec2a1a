// Where downloaded material goes, and how a file's extension is taken from
// its link (posixpath.splitext, with '/' as the only separator).

module Paths {
  import opened Text

  /** There is a '.' at `i` and a character other than '.' at `k` before it,
      with no '/' from `k` to the end: the last path component has a dot
      that does not merely belong to its leading dots. */
  ghost predicate ExtensionDotAfter(p: string, k: int, i: int) {
    && 0 <= k < i < |p|
    && p[k] != '.'
    && p[i] == '.'
    && (forall j :: k <= j < |p| ==> p[j] != '/')
  }

  /** os.path.splitext: splits at the last '.' when it lies in the last path
      component after some character other than '.'; the extension keeps
      the dot. Otherwise the extension is empty. */
  function Splitext(p: string): (r: (string, string))
    ensures r.0 + r.1 == p
    ensures r.1 != [] ==>
      && r.1[0] == '.'
      && (forall j :: 0 <= j < |r.1| ==> r.1[j] != '/')
      && (forall j :: 1 <= j < |r.1| ==> r.1[j] != '.')
  {
    var sep := RFind(p, '/');
    var dot := RFind(p, '.');
    if dot > sep && (exists k :: sep < k < dot && p[k] != '.') then
      assert p[..dot] + p[dot..] == p;
      (p[..dot], p[dot..])
    else
      assert p + "" == p;
      (p, "")
  }

  /** The extension is non-empty exactly when the last component has a dot
      preceded by a character other than '.'. */
  lemma SplitextHasExtensionIff(p: string)
    ensures Splitext(p).1 != [] <==> exists k, i :: ExtensionDotAfter(p, k, i)
  {
    var sep := RFind(p, '/');
    var dot := RFind(p, '.');
    if Splitext(p).1 != [] {
      var k :| sep < k < dot && p[k] != '.';
      assert ExtensionDotAfter(p, k, dot);
    }
    if exists k, i :: ExtensionDotAfter(p, k, i) {
      var k, i :| ExtensionDotAfter(p, k, i);
      assert sep < k;
      assert i <= dot;
      assert sep < k < dot && p[k] != '.';
    }
  }

  /** The directory holding one course's material. */
  function MaterialsDir(destination: string, courseName: string): string {
    destination + "/" + courseName + "/materijali"
  }

  /** Where a folder's archive is extracted. */
  function FolderTarget(destination: string, courseName: string, folderName: string): string {
    MaterialsDir(destination, courseName) + "/" + folderName
  }

  /** Where a file is saved; `ext` is the extension with its leading dot. */
  function FileTarget(destination: string, courseName: string, name: string, ext: string): string {
    MaterialsDir(destination, courseName) + "/" + name + "." + ext
  }

  /** A staged download's path in the staging directory. */
  function StagedPath(stagingDir: string, entry: string): string {
    stagingDir + "/" + entry
  }

  /** Since the extension keeps its dot, a saved file's name carries two dots
      before the extension proper: "name..pdf". */
  lemma FileTargetDoublesDot(destination: string, courseName: string, name: string, link: string)
    requires Splitext(link).1 != []
    ensures FileTarget(destination, courseName, name, Splitext(link).1)
      == MaterialsDir(destination, courseName) + "/" + name + ".." + Splitext(link).1[1..]
  {
    var ext := Splitext(link).1;
    assert ext == "." + ext[1..];
  }
}
