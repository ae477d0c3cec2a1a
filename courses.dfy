// Course enumeration of ferbot/main.py: the anchors of the course list, in
// document order, become Course records. The HTML parse is not modelled; its
// result is given as the sequence of anchors.

module Courses {
  import opened Wrappers
  import opened Text

  /** An anchor element of the course list: its href attribute (absent when
      the element has none) and its visible text. */
  datatype Anchor = Anchor(href: Option<string>, text: string)

  /** A course: the portal-relative link and the display name. */
  datatype Course = Course(url: Option<string>, name: string)

  /** One course per anchor, in order, with the href verbatim as the link and
      the stripped text as the name. */
  method GetCourseList(anchors: seq<Anchor>) returns (courses: seq<Course>)
    ensures |courses| == |anchors|
    ensures forall i :: 0 <= i < |anchors| ==>
      courses[i].url == anchors[i].href && courses[i].name == Strip(anchors[i].text)
  {
    courses := [];
    for i := 0 to |anchors|
      invariant |courses| == i
      invariant forall j :: 0 <= j < i ==>
        courses[j].url == anchors[j].href && courses[j].name == Strip(anchors[j].text)
    {
      courses := courses + [Course(anchors[i].href, Strip(anchors[i].text))];
    }
  }
}
