/** The dashboard header: which lecture is running at the current hour, and the banner shown
    for it. */
module AttendanceDashboard {
  import opened Wrappers
  import opened Entities

  /** The banner of the running lecture; `caption` is its `label`. */
  datatype LectureInfo = LectureInfo(caption: string, color: string, icon: string)

  /** `updateCurrentLecture()` at hour `hour` (`new Date().getHours()`). */
  function CurrentLecture(hour: int): (current: Option<Slot>)
    ensures current == Some(Lecture8am) <==> 8 <= hour < 10
    ensures current == Some(Lecture10am) <==> 10 <= hour < 13
    ensures current == Some(Lecture1pm) <==> 13 <= hour < 16
    ensures current.None? <==> hour < 8 || 16 <= hour
  {
    if 8 <= hour < 10 then Some(Lecture8am)
    else if 10 <= hour < 13 then Some(Lecture10am)
    else if 13 <= hour < 16 then Some(Lecture1pm)
    else None
  }

  /** The hour each lecture begins. */
  function StartHour(slot: Slot): nat
  {
    match slot
    case Lecture8am => 8
    case Lecture10am => 10
    case Lecture1pm => 13
  }

  /** The position of each lecture in the day. */
  function Order(slot: Slot): nat
  {
    match slot
    case Lecture8am => 0
    case Lecture10am => 1
    case Lecture1pm => 2
  }

  /** Each lecture is current from its own start hour until the next one starts, and the
      current lecture never goes back as the day advances. */
  lemma CurrentLectureFollowsTheDay(slot: Slot, h1: int, h2: int)
    ensures CurrentLecture(StartHour(slot)) == Some(slot)
    ensures h1 <= h2 && CurrentLecture(h1).Some? && CurrentLecture(h2).Some? ==>
      Order(CurrentLecture(h1).value) <= Order(CurrentLecture(h2).value)
    ensures CurrentLecture(h1).Some? ==> StartHour(CurrentLecture(h1).value) <= h1
  {
  }

  /** `getCurrentLectureInfo()`: the banner of the running lecture, or `null`. */
  function CurrentLectureInfo(currentLecture: Option<Slot>): (info: Option<LectureInfo>)
    ensures info.Some? <==> currentLecture.Some?
    ensures currentLecture == Some(Lecture8am) ==> info.value.caption == "8:00 AM Lecture"
    ensures currentLecture == Some(Lecture10am) ==> info.value.caption == "10:00 AM Lecture"
    ensures currentLecture == Some(Lecture1pm) ==> info.value.caption == "1:00 PM Lecture"
  {
    match currentLecture
    case None => None
    case Some(Lecture8am) => Some(LectureInfo("8:00 AM Lecture", "bg-primary", "Clock8"))
    case Some(Lecture10am) => Some(LectureInfo("10:00 AM Lecture", "bg-secondary", "Clock10"))
    case Some(Lecture1pm) => Some(LectureInfo("1:00 PM Lecture", "bg-success", "Clock1"))
  }

  /** Different lectures get different banners, and a banner is shown exactly during
      lecture hours. */
  lemma BannerIdentifiesLecture(a: Slot, b: Slot, hour: int)
    ensures a != b ==> CurrentLectureInfo(Some(a)).value.caption != CurrentLectureInfo(Some(b)).value.caption
    ensures CurrentLectureInfo(CurrentLecture(hour)).Some? <==> 8 <= hour < 16
  {
    var la, lb := CurrentLectureInfo(Some(a)).value.caption, CurrentLectureInfo(Some(b)).value.caption;
    if a != b {
      assert la[0] != lb[0] || la[1] != lb[1];
    }
  }
}
