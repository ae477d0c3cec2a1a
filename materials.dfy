// download_course_materials of ferbot/main.py: for one course page, every
// folder is downloaded as an archive through the browser and extracted, then
// every file with an extension is fetched over HTTP. The browser, the HTTP
// client and the archive library are not modelled; the method yields the
// actions it performs, in order, with the paths it gives them.

module Materials {
  import opened Wrappers
  import opened Text
  import opened Downloads
  import opened Paths
  import opened Courses
  import opened Configs

  /** A folder item of the page: the inner HTML of its name element, and the
      staging directory as the wait for its archive observes it. */
  datatype FolderItem = FolderItem(nameHtml: string, staging: seq<Poll>)

  /** A file item of the page: the inner HTML of its name element and its link. */
  datatype FileItem = FileItem(nameHtml: string, href: string)

  /** A course's materials page: how many nodes the materials area parses
      into, then its folder items and its file items, in page order. */
  datatype MaterialsPage = MaterialsPage(areaNodes: nat, folders: seq<FolderItem>, files: seq<FileItem>)

  /** What the download does with one item. */
  datatype Action =
    | Extract(archive: string, into: string)   // makedirs, extract the zip, delete the archive
    | Fetch(url: string, saveAs: string)       // authenticated GET, body written to saveAs
    | SkipNoExtension(url: string)             // link without extension: warned and skipped

  /** Done: the course was processed to the end. Hung: a folder's archive
      never settled, and the wait, which has no timeout, does not return. */
  datatype Status = Done | Hung

  /** The extraction of a folder's archive, once its wait returns. */
  function FolderExtraction(config: Config, course: Course, folder: FolderItem): Option<Action> {
    match Wait(folder.staging, None, Some(1))
    case StillWaiting => None
    case Returned(dls) =>
      SingleFileWait(folder.staging);
      Some(Extract(StagedPath(config.incompleteDownloads, dls[0]),
                   FolderTarget(config.destination, course.name, Strip(folder.nameHtml))))
  }

  /** What is done with a file item. */
  function FileAction(config: Config, course: Course, file: FileItem): Action {
    var ext := Splitext(file.href).1;
    if ext == [] then SkipNoExtension(file.href)
    else Fetch(file.href, FileTarget(config.destination, course.name, Strip(file.nameHtml), ext))
  }

  /** Some folder of a non-empty page never gets a settled archive. */
  ghost predicate CourseHangs(page: MaterialsPage) {
    page.areaNodes > 0 &&
    exists i :: 0 <= i < |page.folders| && Wait(page.folders[i].staging, None, Some(1)).StillWaiting?
  }

  /** The actions taken for one course, and whether it got to the end. */
  method DownloadCourseMaterials(config: Config, course: Course, page: MaterialsPage)
    returns (actions: seq<Action>, status: Status)
    ensures status == Hung <==> CourseHangs(page)
    ensures page.areaNodes == 0 ==> actions == []
    ensures status == Done && page.areaNodes > 0 ==> |actions| == |page.folders| + |page.files|
    ensures status == Hung ==>
      |actions| < |page.folders| && FolderExtraction(config, course, page.folders[|actions|]).None?
    ensures forall i :: 0 <= i < |actions| && i < |page.folders| ==>
      FolderExtraction(config, course, page.folders[i]) == Some(actions[i])
    ensures forall i :: |page.folders| <= i < |actions| ==>
      actions[i] == FileAction(config, course, page.files[i - |page.folders|])
  {
    actions := [];
    status := Done;
    if page.areaNodes == 0 {
      return;
    }

    for i := 0 to |page.folders|
      invariant |actions| == i
      invariant forall j :: 0 <= j < i ==> Wait(page.folders[j].staging, None, Some(1)).Returned?
      invariant forall j :: 0 <= j < i ==> FolderExtraction(config, course, page.folders[j]) == Some(actions[j])
    {
      var folder := page.folders[i];
      var name := Strip(folder.nameHtml);
      var dls, _ := WaitDownloads(folder.staging, None, Some(1));
      if dls.StillWaiting? {
        status := Hung;
        return;
      }
      SingleFileWait(folder.staging);
      assert |dls.files| == 1;
      var source := StagedPath(config.incompleteDownloads, dls.files[0]);
      var destination := FolderTarget(config.destination, course.name, name);
      actions := actions + [Extract(source, destination)];
    }

    for i := 0 to |page.files|
      invariant |actions| == |page.folders| + i
      invariant forall j :: 0 <= j < |page.folders| ==> FolderExtraction(config, course, page.folders[j]) == Some(actions[j])
      invariant forall j :: |page.folders| <= j < |actions| ==>
        actions[j] == FileAction(config, course, page.files[j - |page.folders|])
    {
      var file := page.files[i];
      var name := Strip(file.nameHtml);
      var (_, ext) := Splitext(file.href);
      var destination := FileTarget(config.destination, course.name, name, ext);
      if ext == [] {
        actions := actions + [SkipNoExtension(file.href)];
        continue;
      }
      actions := actions + [Fetch(file.href, destination)];
    }
  }

  /** A folder's archive is the one finished file the wait returned, taken
      from the staging directory and extracted under the course's materials
      directory, in a sub-directory named after the folder. */
  lemma FolderExtractionUsesTheSingleArchive(config: Config, course: Course, folder: FolderItem)
    ensures FolderExtraction(config, course, folder).Some? <==> Wait(folder.staging, None, Some(1)).Returned?
    ensures FolderExtraction(config, course, folder).Some? ==>
      exists entry ::
        && Wait(folder.staging, None, Some(1)) == Returned([entry])
        && !IsIncomplete(entry)
        && FolderExtraction(config, course, folder).value.archive == config.incompleteDownloads + "/" + entry
        && FolderExtraction(config, course, folder).value.into
           == MaterialsDir(config.destination, course.name) + "/" + Strip(folder.nameHtml)
  {
    SingleFileWait(folder.staging);
    if Wait(folder.staging, None, Some(1)).Returned? {
      var dls := Wait(folder.staging, None, Some(1)).files;
      assert dls == [dls[0]];
    }
  }

  /** A file is skipped exactly when its link has no extension in the sense
      of ExtensionDotAfter; otherwise it is saved under the course's
      materials directory as its name, a dot, and the extension with its own
      leading dot. */
  lemma FileActionNaming(config: Config, course: Course, file: FileItem)
    ensures FileAction(config, course, file).SkipNoExtension? <==>
      !exists k, i :: ExtensionDotAfter(file.href, k, i)
    ensures FileAction(config, course, file).Fetch? ==>
      var ext := Splitext(file.href).1;
      && FileAction(config, course, file).url == file.href
      && file.href == Splitext(file.href).0 + ext
      && FileAction(config, course, file).saveAs
         == MaterialsDir(config.destination, course.name) + "/" + Strip(file.nameHtml) + ".." + ext[1..]
  {
    SplitextHasExtensionIff(file.href);
    if Splitext(file.href).1 != [] {
      FileTargetDoublesDot(config.destination, course.name, Strip(file.nameHtml), file.href);
    }
  }
}
