/** The course page's client-side predicates (frontend/src/pages/ViewCourse.jsx):
    the average rating, the already-reviewed check, enrolment, the creator's
    other courses and the preview-lecture gate. */
module ViewCourse {
  import opened Js
  import Catalog

  type Id = string

  /** A review's `user`: missing, populated with the user document (whose
      `_id` may be absent), or the raw id. */
  datatype ReviewUser = NoUser | Populated(docId: Option<Id>) | Raw(rawId: Id)

  datatype Review = Review(user: ReviewUser, rating: int)

  // ----- average rating -----

  function SumRatings(reviews: seq<Review>): int
  {
    if reviews == [] then 0 else SumRatings(reviews[..|reviews| - 1]) + reviews[|reviews| - 1].rating
  }

  /** `calculateAverageRating`: 0 for missing or empty reviews, otherwise the
      sum of the ratings over their number. */
  function AverageRating(reviews: Option<seq<Review>>): (avg: real)
    ensures reviews.None? || reviews.value == [] ==> avg == 0.0
    ensures reviews.Some? && reviews.value != [] ==>
      avg * (|reviews.value| as real) == SumRatings(reviews.value) as real
  {
    if reviews.None? || reviews.value == [] then 0.0
    else SumRatings(reviews.value) as real / (|reviews.value| as real)
  }

  predicate RatingsWithin(reviews: seq<Review>, lo: int, hi: int)
  {
    forall i :: 0 <= i < |reviews| ==> lo <= reviews[i].rating <= hi
  }

  lemma {:induction false} SumWithin(reviews: seq<Review>, lo: int, hi: int)
    requires RatingsWithin(reviews, lo, hi)
    ensures lo * |reviews| <= SumRatings(reviews) <= hi * |reviews|
    decreases |reviews|
  {
    if reviews != [] {
      var init := reviews[..|reviews| - 1];
      assert RatingsWithin(init, lo, hi) by {
        forall i | 0 <= i < |init| ensures lo <= init[i].rating <= hi {
          assert init[i] == reviews[i];
        }
      }
      SumWithin(init, lo, hi);
    }
  }

  /** With every rating between 1 and 5 stars, a course with reviews averages
      between 1 and 5 stars, and equal ratings average to that rating. */
  lemma AverageWithinStars(reviews: seq<Review>)
    requires reviews != [] && RatingsWithin(reviews, 1, 5)
    ensures 1.0 <= AverageRating(Some(reviews)) <= 5.0
  {
    SumWithin(reviews, 1, 5);
    var n := |reviews| as real;
    var sum := SumRatings(reviews) as real;
    assert n <= sum <= 5.0 * n;
    QuotientBetween(sum, n, 1.0, 5.0);
  }

  lemma QuotientBetween(s: real, n: real, lo: real, hi: real)
    requires n > 0.0 && lo * n <= s <= hi * n
    ensures lo <= s / n <= hi
  {
    var q := s / n;
    assert q * n == s;
    assert (q - lo) * n == s - lo * n;
    assert (hi - q) * n == hi * n - s;
  }

  lemma AverageOfEqualRatings(reviews: seq<Review>, r: int)
    requires reviews != [] && RatingsWithin(reviews, r, r)
    ensures AverageRating(Some(reviews)) == r as real
  {
    SumWithin(reviews, r, r);
    assert SumRatings(reviews) == r * |reviews|;
  }

  // ----- reviews -----

  /** `r.user && (r.user._id === me || r.user === me)`. */
  predicate ByUser(u: ReviewUser, me: Id)
  {
    match u
    case NoUser => false
    case Populated(id) => id == Some(me)
    case Raw(id) => id == me
  }

  /** The `.some(...)` scan over a review list, front to back. */
  function SomeReviewBy(reviews: seq<Review>, me: Id): (b: bool)
    ensures b <==> exists i :: 0 <= i < |reviews| && ByUser(reviews[i].user, me)
  {
    if reviews == [] then false
    else if ByUser(reviews[0].user, me) then true
    else
      var b := SomeReviewBy(reviews[1..], me);
      assert b ==> exists i :: 0 <= i < |reviews| && ByUser(reviews[i].user, me) by {
        if b {
          var j :| 0 <= j < |reviews| - 1 && ByUser(reviews[1..][j].user, me);
          assert ByUser(reviews[j + 1].user, me);
        }
      }
      assert (exists i :: 0 <= i < |reviews| && ByUser(reviews[i].user, me)) ==> b by {
        if exists i :: 0 <= i < |reviews| && ByUser(reviews[i].user, me) {
          var i :| 0 <= i < |reviews| && ByUser(reviews[i].user, me);
          assert i != 0 && ByUser(reviews[1..][i - 1].user, me);
        }
      }
      b
  }

  /** `reviews?.some(...)`: false when the course has no review list. */
  function AlreadyReviewed(reviews: Option<seq<Review>>, me: Id): (b: bool)
    ensures b <==> reviews.Some? && exists i :: 0 <= i < |reviews.value| && ByUser(reviews.value[i].user, me)
  {
    match reviews
    case None => false
    case Some(rs) => SomeReviewBy(rs, me)
  }

  /** The review `handleReview` posts, if it posts one. */
  datatype ReviewRequest = ReviewRequest(rating: int, comment: string, courseId: Id)

  function HandleReview(reviews: Option<seq<Review>>, me: Id, rating: int, comment: string, courseId: Id): (post: Option<ReviewRequest>)
    ensures post.None? <==> AlreadyReviewed(reviews, me)
    ensures post.Some? ==> post.value == ReviewRequest(rating, comment, courseId)
  {
    if AlreadyReviewed(reviews, me) then None else Some(ReviewRequest(rating, comment, courseId))
  }

  /** A user who has reviewed a course never posts a second review of it,
      whichever form (populated or raw) their earlier review's user takes. */
  lemma NoSecondReview(reviews: seq<Review>, me: Id, i: nat, rating: int, comment: string, courseId: Id)
    requires i < |reviews| && (reviews[i].user == Raw(me) || reviews[i].user == Populated(Some(me)))
    ensures HandleReview(Some(reviews), me, rating, comment, courseId) == None
  {
    assert ByUser(reviews[i].user, me);
  }

  // ----- enrolment -----

  /** An entry of `enrolledCourses`: an id string, or a course object whose
      `_id` may be absent. */
  datatype Enrolled = IdString(s: Id) | CourseObject(id: Option<Id>)

  predicate EntryIs(e: Enrolled, courseId: Id)
  {
    match e
    case IdString(s) => s == courseId
    case CourseObject(id) => id == Some(courseId)
  }

  /** The `verify` of `checkEnrollment`: some enrolled entry names the course;
      false when the user or the list is missing. */
  function IsEnrolledIn(enrolled: Option<seq<Enrolled>>, courseId: Id): (b: bool)
    ensures b <==> enrolled.Some? && exists i :: 0 <= i < |enrolled.value| && EntryIs(enrolled.value[i], courseId)
  {
    match enrolled
    case None => false
    case Some(es) => SomeEntryIs(es, courseId)
  }

  /** The `.some(...)` scan over the enrolled entries, front to back. */
  function SomeEntryIs(entries: seq<Enrolled>, courseId: Id): (b: bool)
    ensures b <==> exists i :: 0 <= i < |entries| && EntryIs(entries[i], courseId)
  {
    if entries == [] then false
    else if EntryIs(entries[0], courseId) then true
    else
      var b := SomeEntryIs(entries[1..], courseId);
      assert b ==> exists i :: 0 <= i < |entries| && EntryIs(entries[i], courseId) by {
        if b {
          var j :| 0 <= j < |entries| - 1 && EntryIs(entries[1..][j], courseId);
          assert EntryIs(entries[j + 1], courseId);
        }
      }
      assert (exists i :: 0 <= i < |entries| && EntryIs(entries[i], courseId)) ==> b by {
        if exists i :: 0 <= i < |entries| && EntryIs(entries[i], courseId) {
          var i :| 0 <= i < |entries| && EntryIs(entries[i], courseId);
          assert i != 0 && EntryIs(entries[1..][i - 1], courseId);
        }
      }
      b
  }

  /** `checkEnrollment` as written: the page's `isEnrolled` flag is set when
      `verify` holds and otherwise left as it was. */
  function CheckEnrollmentAsWritten(isEnrolled: bool, enrolled: Option<seq<Enrolled>>, courseId: Id): (b: bool)
    ensures b <==> isEnrolled || IsEnrolledIn(enrolled, courseId)
  {
    if IsEnrolledIn(enrolled, courseId) then true else isEnrolled
  }

  /** The page keeps its state when the route moves to another course, so a
      flag set for one course survives a move to a course the user is not
      enrolled in. */
  lemma EnrolmentSurvivesNavigation(a: Id, b: Id)
    requires a != b
    ensures var enrolled := Some([IdString(a)]);
      && CheckEnrollmentAsWritten(false, enrolled, a)
      && !IsEnrolledIn(enrolled, b)
      && CheckEnrollmentAsWritten(CheckEnrollmentAsWritten(false, enrolled, a), enrolled, b)
  {
    assert EntryIs([IdString(a)][0], a);
  }

  /** The flag after the page shows the courses `visits` in turn, as written. */
  function VisitAllAsWritten(flag: bool, enrolled: Option<seq<Enrolled>>, visits: seq<Id>): bool
    decreases |visits|
  {
    if visits == [] then flag
    else CheckEnrollmentAsWritten(VisitAllAsWritten(flag, enrolled, visits[..|visits| - 1]), enrolled, visits[|visits| - 1])
  }

  /** The flag after the page shows the courses `visits` in turn, with the
      intended check, which sets the flag to `verify` whichever way it
      comes out. */
  function VisitAll(flag: bool, enrolled: Option<seq<Enrolled>>, visits: seq<Id>): bool
  {
    if visits == [] then flag else IsEnrolledIn(enrolled, visits[|visits| - 1])
  }

  /** As written the flag says whether the user is enrolled in any course the
      page has shown so far; corrected it says whether they are enrolled in
      the one shown now. The two agree on the first course shown. */
  lemma {:induction false} EnrolmentFollowsRoute(enrolled: Option<seq<Enrolled>>, visits: seq<Id>)
    ensures VisitAllAsWritten(false, enrolled, visits) <==>
      exists i :: 0 <= i < |visits| && IsEnrolledIn(enrolled, visits[i])
    ensures visits != [] ==> VisitAll(false, enrolled, visits) == IsEnrolledIn(enrolled, visits[|visits| - 1])
    ensures |visits| == 1 ==> VisitAllAsWritten(false, enrolled, visits) == VisitAll(false, enrolled, visits)
    decreases |visits|
  {
    if visits != [] {
      var init := visits[..|visits| - 1];
      EnrolmentFollowsRoute(enrolled, init);
      assert forall i :: 0 <= i < |init| ==> init[i] == visits[i];
      if VisitAllAsWritten(false, enrolled, init) {
        var i :| 0 <= i < |init| && IsEnrolledIn(enrolled, init[i]);
        assert IsEnrolledIn(enrolled, visits[i]);
      }
      if exists i :: 0 <= i < |visits| && IsEnrolledIn(enrolled, visits[i]) {
        var i :| 0 <= i < |visits| && IsEnrolledIn(enrolled, visits[i]);
        if i < |init| {
          assert IsEnrolledIn(enrolled, init[i]);
        }
      }
    }
  }

  // ----- the creator's other courses -----

  /** `courseData.filter(course => course.creator === creatorId && course._id !== courseId)`
      over (id, course) pairs, in list order. */
  function OtherCoursesBy(courses: seq<(Id, Catalog.Course)>, creatorId: Id, courseId: Id): (r: seq<(Id, Catalog.Course)>)
    ensures forall e :: e in r <==> e in courses && e.1.creator == creatorId && e.0 != courseId
    ensures forall e :: multiset(r)[e] == if e.1.creator == creatorId && e.0 != courseId then multiset(courses)[e] else 0
    ensures |r| <= |courses|
  {
    if courses == [] then []
    else
      assert courses == [courses[0]] + courses[1..];
      if courses[0].1.creator == creatorId && courses[0].0 != courseId then
        [courses[0]] + OtherCoursesBy(courses[1..], creatorId, courseId)
      else OtherCoursesBy(courses[1..], creatorId, courseId)
  }

  /** The filter keeps list order: filtering two stretches of the list one
      after the other is filtering the whole. */
  lemma {:induction false} OtherCoursesKeepOrder(a: seq<(Id, Catalog.Course)>, b: seq<(Id, Catalog.Course)>,
                                                creatorId: Id, courseId: Id)
    ensures OtherCoursesBy(a + b, creatorId, courseId) ==
      OtherCoursesBy(a, creatorId, courseId) + OtherCoursesBy(b, creatorId, courseId)
  {
    if a == [] {
      assert a + b == b;
    } else {
      assert (a + b)[0] == a[0];
      assert (a + b)[1..] == a[1..] + b;
      OtherCoursesKeepOrder(a[1..], b, creatorId, courseId);
    }
  }

  /** The effect that fills the list: it runs only once the creator's id is
      known and the course list is not empty, and otherwise keeps the list it had. */
  function OtherCoursesEffect(prev: seq<(Id, Catalog.Course)>, creatorId: Option<Id>,
                              courses: seq<(Id, Catalog.Course)>, courseId: Id): (r: seq<(Id, Catalog.Course)>)
    ensures creatorId.None? || creatorId.value == "" || courses == [] ==> r == prev
    ensures creatorId.Some? && creatorId.value != "" && courses != [] ==>
      r == OtherCoursesBy(courses, creatorId.value, courseId)
  {
    if creatorId.Some? && creatorId.value != "" && courses != [] then
      OtherCoursesBy(courses, creatorId.value, courseId)
    else prev
  }

  /** The course being viewed is never among the creator's other courses. */
  lemma CurrentCourseExcluded(courses: seq<(Id, Catalog.Course)>, creatorId: Id, courseId: Id, c: Catalog.Course)
    ensures (courseId, c) !in OtherCoursesBy(courses, creatorId, courseId)
  {
  }

  // ----- preview -----

  /** A click on a curriculum entry: only a free-preview lecture becomes the
      selected one; any other click changes nothing. */
  function SelectPreview(selected: Option<Catalog.Lecture>, l: Catalog.Lecture): (r: Option<Catalog.Lecture>)
    ensures l.isPreviewFree ==> r == Some(l)
    ensures !l.isPreviewFree ==> r == selected
  {
    if l.isPreviewFree then Some(l) else selected
  }

  function ClickAll(clicks: seq<Catalog.Lecture>): Option<Catalog.Lecture>
    decreases |clicks|
  {
    if clicks == [] then None else SelectPreview(ClickAll(clicks[..|clicks| - 1]), clicks[|clicks| - 1])
  }

  /** Whatever is clicked, the lecture shown in the preview player is a free
      preview, and it is the last free lecture clicked. */
  lemma {:induction false} PreviewIsAlwaysFree(clicks: seq<Catalog.Lecture>)
    ensures ClickAll(clicks).Some? ==> ClickAll(clicks).value.isPreviewFree && ClickAll(clicks).value in clicks
    ensures ClickAll(clicks).None? <==> forall i :: 0 <= i < |clicks| ==> !clicks[i].isPreviewFree
    decreases |clicks|
  {
    if clicks != [] {
      var init := clicks[..|clicks| - 1];
      PreviewIsAlwaysFree(init);
      assert forall i :: 0 <= i < |init| ==> init[i] == clicks[i];
      assert forall x :: x in init ==> x in clicks;
    }
  }
}
