/** Page detection on load: the page name is the last `/`-separated segment
    of the URL path (`index.html` when that segment is empty), and the name
    selects one of four page behaviours, the home page being the default. */
module Pages {
  import opened Strings

  /** What `handlePageLoad` starts: the course list, the enrolment list, the
      registration form, or the home page. */
  datatype Behaviour = Courses | Enrolled | Register | Home

  /** The element `Array.prototype.pop` removes and returns. */
  function Last<T>(xs: seq<T>): T
    requires |xs| >= 1
  {
    xs[|xs| - 1]
  }

  /** `seg` is the final `/`-separated segment of `path`: a suffix of it
      without `/` that is either the whole path or preceded by a `/`. */
  predicate IsLastSegment(path: string, seg: string) {
    '/' !in seg && |seg| <= |path| && path[|path| - |seg|..] == seg
    && (|seg| < |path| ==> path[|path| - |seg| - 1] == '/')
  }

  /** The last piece of `path.split('/')` is the final segment of `path`. */
  lemma {:induction false} LastOfSplit(path: string)
    ensures IsLastSegment(path, Last(Split(path, '/')))
  {
    if path != [] {
      var rest := path[1..];
      var parts := Split(rest, '/');
      LastOfSplit(rest);
      if path[0] == '/' {
        assert Last(Split(path, '/')) == Last(parts);
      } else if |parts| == 1 {
        JoinSplit(rest, '/');
        assert Last(Split(path, '/')) == path;
      } else {
        if '/' !in rest {
          SplitPlain(rest, '/');
        }
        assert Last(Split(path, '/')) == Last(parts);
      }
    }
  }

  /** A path has only one final segment. */
  lemma LastSegmentUnique(path: string, a: string, b: string)
    requires IsLastSegment(path, a) && IsLastSegment(path, b)
    ensures a == b
  {
  }

  /** `getCurrentPageName()` for the path `pathname`: its final segment, or
      `index.html` when that is empty (a path that is empty or ends in `/`).
      The result is never empty and never contains `/`. */
  function CurrentPageName(pathname: string): (page: string)
    ensures page != [] && '/' !in page
    ensures forall seg {:trigger IsLastSegment(pathname, seg)} ::
              IsLastSegment(pathname, seg) ==> page == (if seg == [] then "index.html" else seg)
  {
    var seg := Last(Split(pathname, '/'));
    LastOfSplit(pathname);
    forall other | IsLastSegment(pathname, other) ensures other == seg {
      LastSegmentUnique(pathname, other, seg);
    }
    if seg == [] then "index.html" else seg
  }

  /** The names the `switch` of `handlePageLoad` gives a page of its own. */
  const PageNames: set<string> :=
    {"availcourse.html", "availcourse", "enrolled.html", "enrolled", "register.html", "register"}

  /** The `switch` of `handlePageLoad` on the page name: each page answers
      to its name with and without `.html`, and every other name falls to
      the home page. */
  function Dispatch(page: string): (b: Behaviour)
    ensures b == Courses <==> page == "availcourse.html" || page == "availcourse"
    ensures b == Enrolled <==> page == "enrolled.html" || page == "enrolled"
    ensures b == Register <==> page == "register.html" || page == "register"
    ensures b == Home <==> page !in PageNames
  {
    if page == "availcourse.html" || page == "availcourse" then Courses
    else if page == "enrolled.html" || page == "enrolled" then Enrolled
    else if page == "register.html" || page == "register" then Register
    else Home
  }

  /** `handlePageLoad()`: the behaviour chosen for the path `pathname`,
      decided by its final segment. */
  function HandlePageLoad(pathname: string): (b: Behaviour)
    ensures forall seg {:trigger IsLastSegment(pathname, seg)} ::
              IsLastSegment(pathname, seg) ==> b == Dispatch(if seg == [] then "index.html" else seg)
  {
    Dispatch(CurrentPageName(pathname))
  }

  /** For a path made of a directory part and a final name, the page name
      is that name, or `index.html` when the name is empty. */
  lemma PageNameOfPath(dir: string, name: string)
    requires dir == [] || dir[|dir| - 1] == '/'
    requires '/' !in name
    ensures CurrentPageName(dir + name) == (if name == [] then "index.html" else name)
  {
    var path := dir + name;
    assert path[|path| - |name|..] == name;
    assert |name| < |path| ==> path[|path| - |name| - 1] == dir[|dir| - 1];
    assert IsLastSegment(path, name);
  }

  /** Dispatch is total over paths: for a path made of a directory part and a
      final name, each named page is recognised with or without `.html`, and
      every other name, including `index`, `index.html` and the empty name,
      gives the home page. */
  lemma PageLoadOfPath(dir: string, name: string)
    requires dir == [] || dir[|dir| - 1] == '/'
    requires '/' !in name
    ensures HandlePageLoad(dir + name) == Courses <==> name == "availcourse.html" || name == "availcourse"
    ensures HandlePageLoad(dir + name) == Enrolled <==> name == "enrolled.html" || name == "enrolled"
    ensures HandlePageLoad(dir + name) == Register <==> name == "register.html" || name == "register"
    ensures HandlePageLoad(dir + name) == Home <==> name !in PageNames
  {
    PageNameOfPath(dir, name);
  }
}
