/** The course and lecture catalog (backend/controllers/courseController.js).
    courseModel.js and lectureModel.js are not part of this model: the
    defaults a new course or lecture gets are stated below as assumptions. */
module Catalog {
  import opened Js
  import opened Http

  type Id = string
  type Url = string

  /** A Course document. Fields the creation request does not set are None
      until an edit sets them; `lectures` is the ordered list of lecture ids. */
  datatype Course = Course(
    title: string, subTitle: Option<string>, description: Option<string>,
    category: string, level: Option<string>, price: Option<real>,
    isPublished: bool, thumbnail: Option<Url>, creator: Id, lectures: seq<Id>)

  datatype Lecture = Lecture(lectureTitle: string, videoUrl: Option<Url>, isPreviewFree: bool)

  /** The file part of a multipart request: no file, or a file whose upload
      returned a URL (None when the media service returned null). */
  datatype Upload = NoFile | Uploaded(url: Option<Url>)

  /** The fields of an edit request. None is a field absent from the request:
      the update leaves the stored value as it is. */
  datatype CourseForm = CourseForm(
    title: Option<string>, subTitle: Option<string>, description: Option<string>,
    category: Option<string>, level: Option<string>, price: Option<real>,
    isPublished: Value)

  /** A course as `createCourse` creates it (assumed schema defaults: not
      published, no lectures). */
  function NewCourse(title: string, category: string, creator: Id, upload: Upload): Course
  {
    Course(title, None, None, category, None, None, false,
           if upload.Uploaded? then upload.url else None, creator, [])
  }

  /** A lecture as `createLecture` creates it (assumed schema defaults: no
      video, not a free preview). */
  function NewLecture(title: string): Lecture
  {
    Lecture(title, None, false)
  }

  function Override<T>(stored: T, given: Option<T>): T
  {
    if given.Some? then given.value else stored
  }

  /** `findByIdAndUpdate(courseId, updateData)`: present fields overwrite,
      `isPublished` is always normalised and written, the thumbnail changes
      only when a file was sent. */
  function Edited(c: Course, f: CourseForm, upload: Upload): Course
  {
    c.(title := Override(c.title, f.title),
       subTitle := Override(c.subTitle, if f.subTitle.Some? then Some(f.subTitle) else None),
       description := Override(c.description, if f.description.Some? then Some(f.description) else None),
       category := Override(c.category, f.category),
       level := Override(c.level, if f.level.Some? then Some(f.level) else None),
       price := Override(c.price, if f.price.Some? then Some(f.price) else None),
       isPublished := IsTrueFlag(f.isPublished),
       thumbnail := if upload.Uploaded? then upload.url else c.thumbnail)
  }

  /** An edit publishes the course exactly when the flag is `true` or the
      string `'true'`; an absent flag or `'false'` unpublishes it. A field sent
      replaces the stored one and an absent field keeps it; a sent file
      replaces the thumbnail. The creator and the lecture list are never
      touched by an edit. */
  lemma EditRules(c: Course, f: CourseForm, upload: Upload)
    ensures var e := Edited(c, f, upload);
      && (e.isPublished <==> f.isPublished == Bool(true) || f.isPublished == Str("true"))
      && (f.isPublished == Undefined || f.isPublished == Str("false") ==> !e.isPublished)
      && e.creator == c.creator && e.lectures == c.lectures
      && (f.title.None? ==> e.title == c.title) && (f.title.Some? ==> e.title == f.title.value)
      && (f.category.None? ==> e.category == c.category) && (f.category.Some? ==> e.category == f.category.value)
      && (f.subTitle.None? ==> e.subTitle == c.subTitle) && (f.subTitle.Some? ==> e.subTitle == f.subTitle)
      && (f.description.None? ==> e.description == c.description) && (f.description.Some? ==> e.description == f.description)
      && (f.level.None? ==> e.level == c.level) && (f.level.Some? ==> e.level == f.level)
      && (f.price.None? ==> e.price == c.price) && (f.price.Some? ==> e.price == f.price)
      && (upload.NoFile? ==> e.thumbnail == c.thumbnail)
      && (upload.Uploaded? ==> e.thumbnail == upload.url)
  {
  }

  /** `editLecture`: a truthy title replaces the stored one, a sent file
      replaces the video, and `isPreviewFree` is always overwritten by its
      normalised value. */
  function EditedLecture(l: Lecture, title: string, isPreviewFree: Value, upload: Upload): Lecture
  {
    l.(lectureTitle := if title != "" then title else l.lectureTitle,
       videoUrl := if upload.Uploaded? then upload.url else l.videoUrl,
       isPreviewFree := IsTrueFlag(isPreviewFree))
  }

  lemma EditLectureRules(l: Lecture, title: string, isPreviewFree: Value, upload: Upload)
    ensures var e := EditedLecture(l, title, isPreviewFree, upload);
      && (title == "" ==> e.lectureTitle == l.lectureTitle)
      && (title != "" ==> e.lectureTitle == title)
      && (isPreviewFree == Undefined ==> !e.isPreviewFree)
      && (e.isPreviewFree <==> isPreviewFree == Bool(true) || isPreviewFree == Str("true"))
  {
  }

  /** `$pull`: every occurrence of `x` leaves the list, the other entries stay
      in order. */
  function Pull(s: seq<Id>, x: Id): (r: seq<Id>)
    ensures forall y :: y in r <==> y in s && y != x
    ensures multiset(r) == multiset(s)[x := 0]
    ensures |r| <= |s|
  {
    if s == [] then []
    else
      assert s == [s[0]] + s[1..];
      if s[0] == x then Pull(s[1..], x)
      else [s[0]] + Pull(s[1..], x)
  }

  /** The kept entries stay in their order: pulling from two stretches of a
      list one after the other is pulling from the whole. */
  lemma {:induction false} PullKeepsOrder(a: seq<Id>, b: seq<Id>, x: Id)
    ensures Pull(a + b, x) == Pull(a, x) + Pull(b, x)
  {
    if a == [] {
      assert a + b == b;
    } else {
      assert (a + b)[0] == a[0];
      assert (a + b)[1..] == a[1..] + b;
      PullKeepsOrder(a[1..], b, x);
    }
  }

  /** Pulling an id that is not listed changes nothing. */
  lemma {:induction false} PullAbsent(s: seq<Id>, x: Id)
    requires x !in s
    ensures Pull(s, x) == s
  {
    if s != [] {
      PullAbsent(s[1..], x);
      assert s == [s[0]] + s[1..];
    }
  }

  /** Pulling the id just appended by `createLecture` gives back the list
      as it was before. */
  lemma {:induction false} PullAfterAppend(s: seq<Id>, x: Id)
    requires x !in s
    ensures Pull(s + [x], x) == s
  {
    if s == [] {
      assert [x][1..] == [];
    } else {
      assert (s + [x])[1..] == s[1..] + [x];
      PullAfterAppend(s[1..], x);
      assert s == [s[0]] + s[1..];
    }
  }

  predicate NoDuplicates(s: seq<Id>)
  {
    forall i, j :: 0 <= i < j < |s| ==> s[i] != s[j]
  }

  lemma {:induction false} PullNoDuplicates(s: seq<Id>, x: Id)
    requires NoDuplicates(s)
    ensures NoDuplicates(Pull(s, x))
  {
    if s != [] {
      PullNoDuplicates(s[1..], x);
      if s[0] != x {
        assert s[0] !in s[1..];
        var r := Pull(s, x);
        assert r == [s[0]] + Pull(s[1..], x);
        forall i, j | 0 <= i < j < |r| ensures r[i] != r[j] {
          if i == 0 { assert r[j] in Pull(s[1..], x); }
        }
      }
    }
  }

  /** What the catalog keeps true: every listed lecture exists, a course lists
      a lecture at most once, and no two courses list the same lecture. */
  predicate CatalogValid(courses: map<Id, Course>, lectures: map<Id, Lecture>)
  {
    && (forall c, l :: c in courses && l in courses[c].lectures ==> l in lectures)
    && (forall c :: c in courses ==> NoDuplicates(courses[c].lectures))
    && (forall c, d, l :: c in courses && d in courses && l in courses[c].lectures && l in courses[d].lectures ==> c == d)
  }

  /** `getCourseById`, `editCourse` and `removeCourse` answer 404 for an
      unknown id. */
  function CourseById(courses: map<Id, Course>, id: Id): (r: Result<Course>)
    ensures r.Err? <==> id !in courses
    ensures r.Err? ==> r.error == Error(404, "Course not found")
    ensures r.Ok? ==> r == Ok(200, courses[id])
  {
    if id in courses then Ok(200, courses[id]) else Err(Error(404, "Course not found"))
  }

  /** `getPublishedCourses`: the published courses and no others. */
  function PublishedCourses(courses: map<Id, Course>): (r: map<Id, Course>)
    ensures forall id :: id in r <==> id in courses && courses[id].isPublished
    ensures forall id :: id in r ==> r[id] == courses[id]
  {
    map id | id in courses && courses[id].isPublished :: courses[id]
  }

  /** `getCreatorCourses`: the caller's own courses and no others. */
  function CreatorCourses(courses: map<Id, Course>, caller: Id): (r: map<Id, Course>)
    ensures forall id :: id in r <==> id in courses && courses[id].creator == caller
    ensures forall id :: id in r ==> r[id] == courses[id]
  {
    map id | id in courses && courses[id].creator == caller :: courses[id]
  }

  /** An edit decides whether the course is listed as published. */
  lemma {:induction false} PublishedAfterEdit(courses: map<Id, Course>, id: Id, f: CourseForm, upload: Upload)
    requires id in courses
    ensures var after := courses[id := Edited(courses[id], f, upload)];
      && (id in PublishedCourses(after) <==> IsTrueFlag(f.isPublished))
      && (forall other :: other != id ==> (other in PublishedCourses(after) <==> other in PublishedCourses(courses)))
  {
    var after := courses[id := Edited(courses[id], f, upload)];
    assert after[id].isPublished == IsTrueFlag(f.isPublished);
  }

  /** `$pull` of one lecture id applied to every course. */
  function PullEverywhere(courses: map<Id, Course>, l: Id): map<Id, Course>
  {
    map c | c in courses :: courses[c].(lectures := Pull(courses[c].lectures, l))
  }

  /** Removing a lecture keeps the catalog valid: no course lists it any
      more, the courses that did not list it are unchanged, and the course
      that listed it keeps its other lectures in order, losing only that
      one position. */
  lemma PullEverywhereRules(courses: map<Id, Course>, lectures: map<Id, Lecture>, l: Id)
    requires CatalogValid(courses, lectures)
    ensures var r := PullEverywhere(courses, l);
      && r.Keys == courses.Keys
      && CatalogValid(r, lectures - {l})
      && (forall c :: c in r ==> l !in r[c].lectures)
      && (forall c :: c in r && l !in courses[c].lectures ==> r[c] == courses[c])
      && (forall c, i :: c in r && 0 <= i < |courses[c].lectures| && courses[c].lectures[i] == l ==>
            r[c].lectures == courses[c].lectures[..i] + courses[c].lectures[i + 1..])
  {
    var r := PullEverywhere(courses, l);
    forall c | c in courses
      ensures NoDuplicates(r[c].lectures)
      ensures l !in courses[c].lectures ==> r[c] == courses[c]
    {
      PullNoDuplicates(courses[c].lectures, l);
      if l !in courses[c].lectures { PullAbsent(courses[c].lectures, l); }
    }
    forall c, i | c in r && 0 <= i < |courses[c].lectures| && courses[c].lectures[i] == l
      ensures r[c].lectures == courses[c].lectures[..i] + courses[c].lectures[i + 1..]
    {
      PullOnePosition(courses[c].lectures, i, l);
    }
  }

  /** In a list without duplicates, pulling an entry removes just its position. */
  lemma PullOnePosition(s: seq<Id>, i: nat, x: Id)
    requires NoDuplicates(s) && i < |s| && s[i] == x
    ensures Pull(s, x) == s[..i] + s[i + 1..]
  {
    var a, b := s[..i], s[i + 1..];
    assert s == a + ([x] + b);
    assert x !in a by {
      forall k | 0 <= k < |a| ensures a[k] != x { assert a[k] == s[k]; }
    }
    assert x !in b by {
      forall k | 0 <= k < |b| ensures b[k] != x { assert b[k] == s[i + 1 + k]; }
    }
    PullKeepsOrder(a, [x] + b, x);
    PullKeepsOrder([x], b, x);
    assert Pull([x], x) == [] by { assert [x][1..] == []; }
    PullAbsent(a, x);
    PullAbsent(b, x);
  }

  /** `updateOne` on the course that lists the lecture has the effect of
      pulling it everywhere, because no other course lists it. */
  lemma UpdateOneIsPullEverywhere(courses: map<Id, Course>, lectures: map<Id, Lecture>, l: Id, c: Id)
    requires CatalogValid(courses, lectures) && c in courses && l in courses[c].lectures
    ensures courses[c := courses[c].(lectures := Pull(courses[c].lectures, l))] == PullEverywhere(courses, l)
  {
    var one := courses[c := courses[c].(lectures := Pull(courses[c].lectures, l))];
    var all := PullEverywhere(courses, l);
    forall d | d in courses
      ensures one[d] == all[d]
    {
      if d != c {
        assert l !in courses[d].lectures;
        PullAbsent(courses[d].lectures, l);
      }
    }
    assert one.Keys == all.Keys;
  }

  /** When no course lists the lecture, `updateOne` matches nothing. */
  lemma UpdateNoneIsPullEverywhere(courses: map<Id, Course>, l: Id)
    requires forall c :: c in courses ==> l !in courses[c].lectures
    ensures courses == PullEverywhere(courses, l)
  {
    forall d | d in courses ensures Pull(courses[d].lectures, l) == courses[d].lectures {
      PullAbsent(courses[d].lectures, l);
    }
  }

  /** The answer of `createLecture` on success. */
  datatype LectureCreated = LectureCreated(lecture: Lecture, course: Course)

  /** The courses and lectures collections. */
  class Catalog {
    var courses: map<Id, Course>
    var lectures: map<Id, Lecture>

    ghost predicate Valid()
      reads this
    {
      CatalogValid(courses, lectures)
    }

    constructor ()
      ensures Valid() && courses == map[] && lectures == map[]
    {
      courses := map[];
      lectures := map[];
    }

    /** `createCourse` by the authenticated `caller`; `newId` is the id the
        store assigns. */
    method CreateCourse(caller: Id, title: string, category: string, upload: Upload, newId: Id)
      returns (r: Result<Course>)
      requires Valid() && caller != "" && newId !in courses
      modifies this
      ensures Valid() && lectures == old(lectures)
      ensures title == "" || category == "" ==>
        r == Err(Error(400, "Title and Category is required!")) && courses == old(courses)
      ensures title != "" && category != "" ==>
        && courses == old(courses)[newId := NewCourse(title, category, caller, upload)]
        && r == Ok(201, courses[newId])
        && courses[newId].creator == caller
        && (upload.NoFile? ==> courses[newId].thumbnail == None)
    {
      if title == "" || category == "" {
        return Err(Error(400, "Title and Category is required!"));
      }
      var course := NewCourse(title, category, caller, upload);
      courses := courses[newId := course];
      r := Ok(201, course);
    }

    /** `editCourse`. */
    method EditCourse(courseId: Id, form: CourseForm, upload: Upload) returns (r: Result<Course>)
      requires Valid()
      modifies this
      ensures Valid() && lectures == old(lectures)
      ensures courseId !in old(courses) ==>
        r == Err(Error(404, "Course not found")) && courses == old(courses)
      ensures courseId in old(courses) ==>
        && courses == old(courses)[courseId := Edited(old(courses)[courseId], form, upload)]
        && r == Ok(200, courses[courseId])
        && (courses[courseId].isPublished <==> IsTrueFlag(form.isPublished))
    {
      if courseId !in courses {
        return Err(Error(404, "Course not found"));
      }
      var course := Edited(courses[courseId], form, upload);
      courses := courses[courseId := course];
      r := Ok(200, course);
    }

    /** `removeCourse`: the course goes; its lectures stay in their collection. */
    method RemoveCourse(courseId: Id) returns (r: Result<string>)
      requires Valid()
      modifies this
      ensures Valid() && lectures == old(lectures)
      ensures courseId !in old(courses) ==>
        r == Err(Error(404, "Course not found")) && courses == old(courses)
      ensures courseId in old(courses) ==>
        courses == old(courses) - {courseId} && r == Ok(200, "Course Removed Successfully")
    {
      if courseId !in courses {
        return Err(Error(404, "Course not found"));
      }
      courses := courses - {courseId};
      r := Ok(200, "Course Removed Successfully");
    }

    /** `createLecture` under `courseId`; `newId` is the id the store assigns.
        The lecture is created before the course is looked up, so an unknown
        course leaves the new lecture behind and the request fails with 500. */
    method CreateLecture(courseId: Id, title: string, newId: Id) returns (r: Result<LectureCreated>)
      requires Valid() && newId !in lectures
      modifies this
      ensures Valid()
      ensures title == "" || courseId == "" ==>
        r == Err(Error(400, "Lecture Title is required")) && courses == old(courses) && lectures == old(lectures)
      ensures title != "" && courseId != "" ==> lectures == old(lectures)[newId := NewLecture(title)]
      ensures title != "" && courseId != "" && courseId in old(courses) ==>
        && courses == old(courses)[courseId := old(courses)[courseId].(lectures := old(courses)[courseId].lectures + [newId])]
        && r == Ok(201, LectureCreated(lectures[newId], courses[courseId]))
      ensures title != "" && courseId != "" && courseId !in old(courses) ==>
        courses == old(courses) && r.Err? && r.error.status == 500
    {
      if title == "" || courseId == "" {
        return Err(Error(400, "Lecture Title is required"));
      }
      var lecture := NewLecture(title);
      lectures := lectures[newId := lecture];
      if courseId !in courses {
        return Err(Error(500, "Failed to Create Lecture error: TypeError: Cannot read properties of null (reading 'populate')"));
      }
      var course := courses[courseId];
      assert newId !in course.lectures;
      course := course.(lectures := course.lectures + [newId]);
      courses := courses[courseId := course];
      r := Ok(201, LectureCreated(lecture, course));
    }

    /** `editLecture`. */
    method EditLecture(lectureId: Id, title: string, isPreviewFree: Value, upload: Upload)
      returns (r: Result<Lecture>)
      requires Valid()
      modifies this
      ensures Valid() && courses == old(courses)
      ensures lectureId !in old(lectures) ==>
        r == Err(Error(404, "Lecture not found")) && lectures == old(lectures)
      ensures lectureId in old(lectures) ==>
        && lectures == old(lectures)[lectureId := EditedLecture(old(lectures)[lectureId], title, isPreviewFree, upload)]
        && r == Ok(200, lectures[lectureId])
    {
      if lectureId !in lectures {
        return Err(Error(404, "Lecture not found"));
      }
      var lecture := EditedLecture(lectures[lectureId], title, isPreviewFree, upload);
      lectures := lectures[lectureId := lecture];
      r := Ok(200, lecture);
    }

    /** `removeLecture`: the lecture is deleted and `updateOne` pulls it from
        the first course that lists it. Since at most one course lists it,
        that is the same as pulling it from every course. */
    method RemoveLecture(lectureId: Id) returns (r: Result<string>)
      requires Valid()
      modifies this
      ensures Valid()
      ensures lectureId !in old(lectures) ==>
        r == Err(Error(404, "Lecture not found")) && lectures == old(lectures) && courses == old(courses)
      ensures lectureId in old(lectures) ==>
        && lectures == old(lectures) - {lectureId}
        && courses == PullEverywhere(old(courses), lectureId)
        && r == Ok(200, "Lecture Remove Successfully")
    {
      if lectureId !in lectures {
        return Err(Error(404, "Lecture not found"));
      }
      PullEverywhereRules(courses, lectures, lectureId);
      lectures := lectures - {lectureId};
      if exists c :: c in courses && lectureId in courses[c].lectures {
        var c :| c in courses && lectureId in courses[c].lectures;
        UpdateOneIsPullEverywhere(courses, old(lectures), lectureId, c);
        courses := courses[c := courses[c].(lectures := Pull(courses[c].lectures, lectureId))];
      } else {
        UpdateNoneIsPullEverywhere(courses, lectureId);
      }
      r := Ok(200, "Lecture Remove Successfully");
    }
  }
}
