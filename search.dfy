/** The course search of `renderSearchCourses` (project.js:345-377): an ordered filter of
    the course list by case-insensitive text match and by the active tag. Lower-casing is
    modelled on ASCII letters only. */
module Search {
  import opened Strings

  datatype Course = Course(title: string, description: string, tags: seq<string>)

  /** `toLowerCase` on one character, restricted to ASCII. */
  function LowerChar(c: char): (r: char)
    ensures 'A' <= c <= 'Z' ==> 'a' <= r <= 'z' && r as int - c as int == 'a' as int - 'A' as int
    ensures !('A' <= c <= 'Z') ==> r == c
  {
    if 'A' <= c <= 'Z' then (c as int - 'A' as int + 'a' as int) as char else c
  }

  /** `toLowerCase` on a string, character by character. */
  function Lower(s: string): (r: string)
    ensures |r| == |s| && forall i | 0 <= i < |s| :: r[i] == LowerChar(s[i])
  {
    seq(|s|, i requires 0 <= i < |s| => LowerChar(s[i]))
  }

  /** The predicate handed to `filter`; `searchText` is already lower-cased. A course
      matches when the search text occurs in its lower-cased title or description and the
      active tag is "all" or one of its tags; the empty search text with "all" matches every
      course. */
  function Matches(course: Course, searchText: string, activeTag: string): (m: bool)
    ensures m <==>
      && ((exists j: nat :: OccursAt(Lower(course.title), searchText, j))
          || (exists j: nat :: OccursAt(Lower(course.description), searchText, j)))
      && (activeTag == "all" || activeTag in course.tags)
    ensures searchText == [] && activeTag == "all" ==> m
  {
    assert searchText == [] ==> OccursAt(Lower(course.title), searchText, 0);

    && (Includes(Lower(course.title), searchText) || Includes(Lower(course.description), searchText))
    && (activeTag == "all" || activeTag in course.tags)
  }

  /** `courses.filter(...)`, keeping the courses that match, in their order. */
  function Filter(courses: seq<Course>, searchText: string, activeTag: string): (r: seq<Course>)
    ensures |r| <= |courses|
    ensures forall c | c in r :: c in courses && Matches(c, searchText, activeTag)
  {
    if courses == [] then []
    else if Matches(courses[0], searchText, activeTag)
    then [courses[0]] + Filter(courses[1..], searchText, activeTag)
    else Filter(courses[1..], searchText, activeTag)
  }

  /** The courses rendered for what the user typed in the search box. */
  function SearchResults(courses: seq<Course>, input: string, activeTag: string): (r: seq<Course>)
    ensures IsSublist(r, courses)
    ensures forall c :: c in r <==> c in courses && Matches(c, Lower(input), activeTag)
  {
    FilterIsSublist(courses, Lower(input), activeTag);
    FilterMembers(courses, Lower(input), activeTag);
    Filter(courses, Lower(input), activeTag)
  }

  /** `xs` is `ys` with some elements left out and the rest kept in order. */
  predicate IsSublist<T(==)>(xs: seq<T>, ys: seq<T>)
    decreases |ys|
  {
    if xs == [] then true
    else if ys == [] then false
    else (xs[0] == ys[0] && IsSublist(xs[1..], ys[1..])) || IsSublist(xs, ys[1..])
  }

  /** The results are an order-preserving sublist of the course list. */
  lemma {:induction false} FilterIsSublist(courses: seq<Course>, searchText: string, activeTag: string)
    ensures IsSublist(Filter(courses, searchText, activeTag), courses)
  {
    if courses != [] {
      FilterIsSublist(courses[1..], searchText, activeTag);
      var rest := Filter(courses[1..], searchText, activeTag);
      if Matches(courses[0], searchText, activeTag) {
        assert ([courses[0]] + rest)[1..] == rest;
      } else if rest != [] {
        assert IsSublist(rest, courses[1..]);
      }
    }
  }

  /** The results hold exactly the matching courses, each as often as in the list. */
  lemma {:induction false} FilterCounts(courses: seq<Course>, searchText: string, activeTag: string, c: Course)
    ensures multiset(Filter(courses, searchText, activeTag))[c] ==
      if Matches(c, searchText, activeTag) then multiset(courses)[c] else 0
  {
    if courses != [] {
      FilterCounts(courses[1..], searchText, activeTag, c);
      assert courses == [courses[0]] + courses[1..];
    }
  }

  /** A course is kept exactly when it is in the list and matches. */
  lemma FilterMembers(courses: seq<Course>, searchText: string, activeTag: string)
    ensures forall c :: c in Filter(courses, searchText, activeTag) <==>
      c in courses && Matches(c, searchText, activeTag)
  {
    forall c ensures c in Filter(courses, searchText, activeTag) <==>
      c in courses && Matches(c, searchText, activeTag)
    {
      FilterCounts(courses, searchText, activeTag, c);
    }
  }

  /** A course is shown exactly when its title or description contains the lower-cased
      search text, ignoring case, and the tag filter is "all" or one of its tags. */
  lemma SearchResultsExactly(courses: seq<Course>, input: string, activeTag: string, c: Course)
    ensures c in SearchResults(courses, input, activeTag) <==>
      && c in courses
      && ((exists j: nat :: OccursAt(Lower(c.title), Lower(input), j))
          || (exists j: nat :: OccursAt(Lower(c.description), Lower(input), j)))
      && (activeTag == "all" || activeTag in c.tags)
  {
    FilterCounts(courses, Lower(input), activeTag, c);
  }

  /** An empty search box with the "all" tag shows every course, in order. */
  lemma {:induction false} EmptySearchShowsAll(courses: seq<Course>)
    ensures SearchResults(courses, "", "all") == courses
  {
    if courses != [] {
      assert OccursAt(Lower(courses[0].title), "", 0);
      EmptySearchShowsAll(courses[1..]);
    }
  }

  /** The "no results" message is shown exactly when no course matches. */
  lemma NoResultsExactly(courses: seq<Course>, input: string, activeTag: string)
    ensures SearchResults(courses, input, activeTag) == [] <==>
      forall c | c in courses :: !Matches(c, Lower(input), activeTag)
  {
    var r := SearchResults(courses, input, activeTag);
    if r == [] {
      forall c | c in courses ensures !Matches(c, Lower(input), activeTag) {
        FilterCounts(courses, Lower(input), activeTag, c);
      }
    } else {
      assert r[0] in r;
    }
  }
}
