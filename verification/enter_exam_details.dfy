/**
 * The exam-details form (src/app/enter-exam-details/page.tsx): the list of subjects
 * is edited field by field and resized to the requested number of subjects, and
 * Next is offered once the form is complete.
 */
module EnterExamDetails {

  datatype Subject = Subject(name: string, code: string)

  /** `keyof Subject`. */
  datatype SubjectField = Name | Code

  const BlankSubject: Subject := Subject("", "")

  function FieldOf(s: Subject, key: SubjectField): string
  {
    match key
    case Name => s.name
    case Code => s.code
  }

  function OtherField(key: SubjectField): SubjectField
  {
    match key
    case Name => Code
    case Code => Name
  }

  /** `{ ...s, [key]: val }`. */
  function WithField(s: Subject, key: SubjectField, val: string): (r: Subject)
    ensures FieldOf(r, key) == val
    ensures FieldOf(r, OtherField(key)) == FieldOf(s, OtherField(key))
  {
    match key
    case Name => s.(name := val)
    case Code => s.(code := val)
  }

  /**
   * updateSubject: entry `idx` gets `val` in field `key` and keeps its other field;
   * every other entry, and the length, stay as they were (so an index out of range
   * changes nothing).
   */
  function UpdateSubject(subjects: seq<Subject>, idx: int, key: SubjectField, val: string): (r: seq<Subject>)
    ensures |r| == |subjects|
    ensures forall i :: 0 <= i < |r| && i != idx ==> r[i] == subjects[i]
    ensures 0 <= idx < |r| ==> FieldOf(r[idx], key) == val
    ensures 0 <= idx < |r| ==> FieldOf(r[idx], OtherField(key)) == FieldOf(subjects[idx], OtherField(key))
  {
    seq(|subjects|, i requires 0 <= i < |subjects| => if i == idx then WithField(subjects[i], key, val) else subjects[i])
  }

  /** Writing a field twice keeps only the second value. */
  lemma UpdateTwice(subjects: seq<Subject>, idx: int, key: SubjectField, a: string, b: string)
    ensures UpdateSubject(UpdateSubject(subjects, idx, key, a), idx, key, b) == UpdateSubject(subjects, idx, key, b)
  {
    var once := UpdateSubject(UpdateSubject(subjects, idx, key, a), idx, key, b);
    var direct := UpdateSubject(subjects, idx, key, b);
    forall i | 0 <= i < |direct|
      ensures once[i] == direct[i]
    {
      if i == idx {
        match key
        case Name =>
        case Code =>
      }
    }
  }

  /** The end index `slice(0, end)` uses on a list of `len` entries (a negative end counts from the back). */
  function SliceEnd(len: nat, end: int): (e: nat)
    ensures e <= len
    ensures 0 <= end ==> e == if end < len then end else len
  {
    if end < 0 then (if len + end < 0 then 0 else len + end)
    else if end < len then end else len
  }

  /** What onNumSubjectsChange leaves in the list, as a function of the old list and `n`. */
  function Resized(prev: seq<Subject>, n: int): seq<Subject>
  {
    var grown := prev + seq(if n > |prev| then n - |prev| else 0, _ => BlankSubject);
    grown[..SliceEnd(|grown|, n)]
  }

  /**
   * onNumSubjectsChange: copy the list, push blank subjects while it is shorter than
   * `n`, then keep `slice(0, n)`.
   */
  method OnNumSubjectsChange(prev: seq<Subject>, n: int) returns (next: seq<Subject>)
    ensures next == Resized(prev, n)
  {
    next := prev;
    while |next| < n
      invariant |prev| <= |next|
      invariant |next| == |prev| || |next| <= n
      invariant next == prev + seq(|next| - |prev|, _ => BlankSubject)
      decreases n - |next|
    {
      next := next + [BlankSubject];
    }
    next := next[..SliceEnd(|next|, n)];
  }

  /**
   * For a non-negative `n` the list has exactly `n` subjects: the first
   * min(old length, n) are the old ones, unchanged, and any new ones are blank.
   */
  lemma ResizedShape(prev: seq<Subject>, n: int)
    requires 0 <= n
    ensures |Resized(prev, n)| == n
    ensures forall i :: 0 <= i < n && i < |prev| ==> Resized(prev, n)[i] == prev[i]
    ensures forall i :: |prev| <= i < n ==> Resized(prev, n)[i] == BlankSubject
  {
  }

  /** A negative `n` drops |n| subjects from the end, down to none. */
  lemma ResizedNegative(prev: seq<Subject>, n: int)
    requires n < 0
    ensures Resized(prev, n) == prev[..if |prev| + n < 0 then 0 else |prev| + n]
  {
    assert prev + seq(0, _ => BlankSubject) == prev;
  }

  /** Resizing to the current length changes nothing, and resizing twice to the same count is resizing once. */
  lemma ResizedIdempotent(prev: seq<Subject>, n: int)
    requires 0 <= n
    ensures Resized(prev, |prev|) == prev
    ensures Resized(Resized(prev, n), n) == Resized(prev, n)
  {
    assert prev + seq(0, _ => BlankSubject) == prev;
    ResizedShape(prev, n);
    var r := Resized(prev, n);
    assert r + seq(0, _ => BlankSubject) == r;
  }

  /** `subjects.some(s => !s.name || !s.code)`. */
  function SomeIncomplete(subjects: seq<Subject>): (b: bool)
    ensures b <==> exists i :: 0 <= i < |subjects| && (subjects[i].name == "" || subjects[i].code == "")
  {
    if |subjects| == 0 then false
    else subjects[0].name == "" || subjects[0].code == "" || SomeIncomplete(subjects[1..])
  }

  /** The Next button: a non-zero student count and every subject named and coded. */
  function NextEnabled(students: int, subjects: seq<Subject>): (b: bool)
    ensures b <==> students != 0 && forall i :: 0 <= i < |subjects| ==> subjects[i].name != "" && subjects[i].code != ""
  {
    !(students == 0 || SomeIncomplete(subjects))
  }

  /** Adding subjects disables Next until the new ones are filled in. */
  lemma GrowingDisablesNext(students: int, prev: seq<Subject>, n: int)
    requires n > |prev|
    ensures !NextEnabled(students, Resized(prev, n))
  {
    ResizedShape(prev, n);
    assert Resized(prev, n)[|prev|] == BlankSubject;
  }

  /** Shrinking a complete list keeps it complete. */
  lemma ShrinkingKeepsNext(students: int, prev: seq<Subject>, n: int)
    requires 0 <= n <= |prev| && NextEnabled(students, prev)
    ensures NextEnabled(students, Resized(prev, n))
  {
    ResizedShape(prev, n);
  }

  /** Filling a field with a non-empty value cannot make a complete form incomplete. */
  lemma UpdateKeepsNext(students: int, subjects: seq<Subject>, idx: int, key: SubjectField, val: string)
    requires NextEnabled(students, subjects) && val != ""
    ensures NextEnabled(students, UpdateSubject(subjects, idx, key, val))
  {
    var r := UpdateSubject(subjects, idx, key, val);
    forall i | 0 <= i < |r|
      ensures r[i].name != "" && r[i].code != ""
    {
      if i == idx {
        match key
        case Name =>
        case Code =>
      }
    }
  }
}
