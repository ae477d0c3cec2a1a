// The top level of ferbot/main.py: choose and read the configuration, then
// process the enrolled courses one after another. Browser start-up, login
// and the navigation between pages are not modelled.

module Ferbot {
  import opened Wrappers
  import opened Text
  import opened Configs
  import opened Courses
  import opened Materials

  /** The configuration entries with lower-cased keys, read from ".env" if it
      exists, else from ".example.env"; nothing when neither exists (the
      program then fails on the missing dictionary). */
  method LoadSettings(files: map<string, Env>) returns (settings: Option<map<string, Option<string>>>)
    ensures settings.None? <==> ".env" !in files && ".example.env" !in files
    ensures ".env" in files ==> settings == Some(LowerKeys(files[".env"]))
    ensures ".env" !in files && ".example.env" in files ==> settings == Some(LowerKeys(files[".example.env"]))
  {
    var env := TryConfigs(Candidates, files);
    assert Candidates[0] == ".env" && Candidates[1] == ".example.env" && |Candidates| == 2;
    if env.None? {
      return None;
    }
    settings := Some(LowerKeys(env.value));
  }

  /** The courses are processed in order; a course whose folder download
      never settles stops the whole run there. `pages[i]` is what the
      materials page of `courses[i]` shows. Returns every action taken and
      how many courses were processed to the end. */
  method RunCourses(config: Config, courses: seq<Course>, pages: seq<MaterialsPage>)
    returns (actions: seq<Action>, finished: nat, status: Status)
    requires |pages| == |courses|
    ensures finished <= |courses|
    ensures forall j :: 0 <= j < finished ==> !CourseHangs(pages[j])
    ensures status == Done <==> finished == |courses|
    ensures status == Hung ==> CourseHangs(pages[finished])
  {
    actions := [];
    finished := 0;
    status := Done;
    while finished < |courses|
      invariant finished <= |courses|
      invariant forall j :: 0 <= j < finished ==> !CourseHangs(pages[j])
    {
      var done, courseStatus := DownloadCourseMaterials(config, courses[finished], pages[finished]);
      actions := actions + done;
      if courseStatus == Hung {
        status := Hung;
        return;
      }
      finished := finished + 1;
    }
  }
}
