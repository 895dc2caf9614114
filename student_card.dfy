/** One student's card on the dashboard: the present count and status badge for the day's
    record, the value a slot button sends when clicked, and the initials avatar. */
module StudentCard {
  import opened Wrappers
  import opened Seqs
  import opened Text
  import opened Entities

  /** The badge variant `getAttendanceStatus` picks. */
  datatype CardStatus = Present | Absent | Partial

  /** The arguments of one `onAttendanceChange` call. */
  datatype Change = Change(studentId: int, lectureSlot: Slot, present: bool)

  /** `getPresentCount()`: 0 without a record, otherwise the number of attended lectures. */
  function PresentCount(attendanceRecord: Option<AttendanceRecord>): (n: nat)
    ensures n <= 3
    ensures n == 0 <==> attendanceRecord.None? || !(attendanceRecord.value.lecture8am || attendanceRecord.value.lecture10am || attendanceRecord.value.lecture1pm)
    ensures n == 3 <==> attendanceRecord.Some? && attendanceRecord.value.lecture8am && attendanceRecord.value.lecture10am && attendanceRecord.value.lecture1pm
  {
    match attendanceRecord
    case None => 0
    case Some(r) => r.PresentCount()
  }

  /** `getAttendanceStatus()`. */
  function AttendanceStatus(attendanceRecord: Option<AttendanceRecord>): (s: CardStatus)
    ensures s == Present <==> PresentCount(attendanceRecord) == 3
    ensures s == Absent <==> PresentCount(attendanceRecord) == 0
    ensures s == Partial <==> attendanceRecord.Some? && IsPartial(attendanceRecord.value)
  {
    var count := PresentCount(attendanceRecord);
    if count == 3 then Present
    else if count == 0 then Absent
    else Partial
  }

  /** `!attendanceRecord?.[key]`: the value a slot button sends. A missing record reads as
      `undefined`, whose negation is `true`. */
  function ToggledValue(attendanceRecord: Option<AttendanceRecord>, slot: Slot): (v: bool)
    ensures attendanceRecord.None? ==> v
    ensures attendanceRecord.Some? ==> v != attendanceRecord.value.Get(slot)
  {
    match attendanceRecord
    case None => true
    case Some(r) => !r.Get(slot)
  }

  /** `handleAttendanceToggle(key, attendanceRecord?.[key])`: the call made when a slot button
      is clicked, or none when the card has no `onAttendanceChange`. */
  function HandleToggle(student: Student, attendanceRecord: Option<AttendanceRecord>, slot: Slot, hasHandler: bool): (c: Option<Change>)
    ensures c.None? <==> !hasHandler
    ensures c.Some? ==> c.value.studentId == student.Id && c.value.lectureSlot == slot
    ensures c.Some? ==> c.value.present == ToggledValue(attendanceRecord, slot)
  {
    if hasHandler then Some(Change(student.Id, slot, ToggledValue(attendanceRecord, slot))) else None
  }

  /** Storing the value a click sends and clicking the same button again sends the slot's
      original value: two clicks undo each other. */
  lemma ToggleTwice(r: AttendanceRecord, slot: Slot)
    ensures var once := r.With(slot, ToggledValue(Some(r), slot));
      && once.Get(slot) != r.Get(slot)
      && ToggledValue(Some(once), slot) == r.Get(slot)
      && PresentCount(Some(r.With(slot, ToggledValue(Some(once), slot)))) == PresentCount(Some(r))
  {
    var once := r.With(slot, ToggledValue(Some(r), slot));
    var twice := r.With(slot, ToggledValue(Some(once), slot));
    assert twice == r by {
      assert twice.Get(slot) == r.Get(slot);
      assert forall other :: twice.Get(other) == r.Get(other);
      assert twice.lecture8am == r.Get(Lecture8am) && twice.lecture10am == r.Get(Lecture10am);
      assert twice.lecture1pm == r.Get(Lecture1pm);
    }
  }

  /** `n => n[0]`, joined with `''`: a word's first character, or nothing for an empty word
      (whose `n[0]` is `undefined` and joins as the empty string). */
  function FirstChar(word: string): (r: string)
    ensures |r| <= 1
    ensures word != [] ==> r == [word[0]]
  {
    if word == [] then [] else [word[0]]
  }

  /** Every word's first character, in order, concatenated. */
  function Heads(words: seq<string>): string
  {
    Join(Map(words, FirstChar), "")
  }

  /** `name.split(' ').map(n => n[0]).join('').substring(0, 2)`. */
  function Initials(name: string): (r: string)
    ensures |r| <= 2
    ensures |r| <= |Heads(Split(name, ' '))| && r == Heads(Split(name, ' '))[..|r|]
    ensures |r| < 2 ==> r == Heads(Split(name, ' '))
  {
    var heads := Heads(Split(name, ' '));
    if |heads| <= 2 then heads else heads[..2]
  }

  /** A name of one word has its first character as initials. */
  lemma InitialsOfOneWord(word: string)
    requires word != [] && ' ' !in word
    ensures Initials(word) == [word[0]]
  {
    SplitNoSeparator(word, ' ');
    assert Map([word], FirstChar) == [[word[0]]];
  }

  /** A first name and a last name separated by a space have the two first characters as
      initials, whatever follows after a further space. */
  lemma InitialsOfFullName(first: string, last: string, rest: seq<string>)
    requires first != [] && last != []
    requires ' ' !in first && ' ' !in last
    ensures Initials(first + " " + Join([last] + rest, " ")) == [first[0], last[0]]
  {
    var tail := Join([last] + rest, " ");
    assert first + " " + tail == first + [' '] + tail;
    SplitAtSeparator(first, tail, ' ');
    var words := Split(first + " " + tail, ' ');
    var tailWords := Split(tail, ' ');
    assert words == [first] + tailWords;
    assert tailWords[0] == last by {
      SplitFirstWord(last, rest);
    }
    var heads := Map(words, FirstChar);
    assert heads[0] == [first[0]] && heads[1] == [last[0]];
    HeadsPrefix(heads);
  }

  /** Splitting `last` followed by further space-separated words starts with `last`. */
  lemma SplitFirstWord(last: string, rest: seq<string>)
    requires ' ' !in last
    ensures Split(Join([last] + rest, " "), ' ')[0] == last
  {
    if rest == [] {
      assert [last] + rest == [last];
      SplitNoSeparator(last, ' ');
    } else {
      var parts := [last] + rest;
      assert parts[1..] == rest && parts[0] == last && |parts| > 1;
      assert Join(parts, " ") == last + [' '] + Join(rest, " ");
      SplitAtSeparator(last, Join(rest, " "), ' ');
    }
  }

  /** Joining single characters with `''` whose first two are `[a]` and `[b]` starts with `ab`. */
  lemma HeadsPrefix(heads: seq<string>)
    requires |heads| >= 2 && |heads[0]| == 1 && |heads[1]| == 1
    ensures |Join(heads, "")| >= 2
    ensures Join(heads, "")[..2] == heads[0] + heads[1]
  {
    var tail := heads[1..];
    assert tail[0] == heads[1];
    if |tail| == 1 {
      assert Join(heads, "") == heads[0] + "" + heads[1];
    } else {
      assert Join(tail, "") == tail[0] + "" + Join(tail[1..], "");
      assert Join(heads, "") == heads[0] + "" + Join(tail, "");
      assert Join(heads, "")[..2] == (heads[0] + heads[1] + Join(tail[1..], ""))[..2];
    }
  }
}
