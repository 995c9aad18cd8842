/** The request and response records of domain/. A request is built in two stages: the
    record's compact constructor runs while the body is decoded, then the framework applies
    the bean-validation annotations (`@NotBlank`, `@NotNull`, `@Size`). The `New...`
    functions below perform both stages, in that order, and report the first failure. */
module Requests {
  import opened Common

  /** `@Size(max = ...)` on event titles. The constants class is not part of this model; the
      storage column holds 256 characters and the tests reject 300. */
  const MAX_TITLE: nat := 256

  /** `@Size(max = ...)` on person names, with the same bound. */
  const MAX_NAME: nat := 256

  /** `@NotBlank` fails when the trimmed string is empty; `String.trim` strips every
      character up to and including the space. */
  predicate IsBlank(s: string) {
    forall i :: 0 <= i < |s| ==> s[i] <= ' '
  }

  /** `String.length()`, which `@Size` checks: the number of UTF-16 code units, that is two
      for a character outside the Basic Multilingual Plane and one for any other. */
  function Utf16Length(s: string): (n: nat)
    ensures |s| <= n <= 2 * |s|
    ensures n == |s| <==> forall i :: 0 <= i < |s| ==> s[i] as int <= 0xFFFF
  {
    if s == [] then 0
    else
      var rest := Utf16Length(s[1..]);
      assert forall i :: 1 <= i < |s| ==> s[i] == s[1..][i - 1];
      (if s[0] as int > 0xFFFF then 2 else 1) + rest
  }

  /** The leading half of `String.trim`: drops every character up to and including the
      space from the front. */
  function TrimStart(s: string): (r: string)
    ensures |r| <= |s| && r == s[|s| - |r|..]
    ensures r != [] ==> r[0] > ' '
    ensures forall i :: 0 <= i < |s| - |r| ==> s[i] <= ' '
  {
    if s != [] && s[0] <= ' ' then TrimStart(s[1..]) else s
  }

  /** The trailing half of `String.trim`: drops every character up to and including the
      space from the back. */
  function TrimEnd(s: string): (r: string)
    ensures |r| <= |s| && r == s[..|r|]
    ensures r != [] ==> r[|r| - 1] > ' '
    ensures forall i :: |r| <= i < |s| ==> s[i] <= ' '
  {
    if s != [] && s[|s| - 1] <= ' ' then TrimEnd(s[..|s| - 1]) else s
  }

  /** `String.trim`. */
  function Trim(s: string): string {
    TrimEnd(TrimStart(s))
  }

  /** `@NotBlank` reads `trim().length() > 0`: a string is blank exactly when trimming it
      leaves nothing. */
  lemma BlankIffTrimEmpty(s: string)
    ensures IsBlank(s) <==> Trim(s) == []
  {
  }

  /** The blank test follows `trim()`, not `Character.isWhitespace`: the empty string and
      control characters up to the space are blank, while a no-break space or any
      printable character makes the string non-blank. */
  lemma BlankFollowsTrim()
    ensures IsBlank("") && IsBlank(" \t\n\r")
    ensures !IsBlank("\U{00A0}") && !IsBlank(" x ")
  {
    assert " x "[1] == 'x';
    assert "\U{00A0}"[0] > ' ';
  }

  /** `@NotBlank @Size(max = bound)` on a required string. */
  predicate ValidRequired(s: string, bound: nat) {
    !IsBlank(s) && Utf16Length(s) <= bound
  }

  datatype EventCreationRequest = EventCreationRequest(title: string, start: Time, end: Time) {
    /** What every accepted creation request satisfies. */
    predicate Valid() {
      ValidRequired(title, MAX_TITLE) && start <= end
    }
  }

  /** A creation request as the Java record can exist: its compact constructor refuses a
      start after the end, so every instance is ordered. */
  type OrderedEventCreationRequest = r: EventCreationRequest | r.start <= r.end
    witness EventCreationRequest("", 0, 0)

  /** Decoding an `EventCreationRequest`. The compact constructor dereferences both times, so
      a missing one is a null-pointer failure before the ordering check; annotations on the
      title are checked afterwards. */
  function NewEventCreationRequest(title: Nullable<string>, start: Nullable<Time>, end: Nullable<Time>): (r: Result<OrderedEventCreationRequest>)
    ensures r.Ok? <==> title.Ref? && start.Ref? && end.Ref?
                       && EventCreationRequest(title.value, start.value, end.value).Valid()
    ensures r.Ok? ==> r.value.title == title.value && r.value.start == start.value && r.value.end == end.value
    ensures start.Null? || end.Null? ==> r == Err(NullPointer)
    ensures start.Ref? && end.Ref? ==> (r == Err(StartIsAfterEnd(start.value, end.value)) <==> start.value > end.value)
    ensures start.Ref? && end.Ref? && start.value <= end.value && !r.Ok? ==> r == Err(ConstraintViolation("title"))
  {
    if start.Null? || end.Null? then Err(NullPointer)
    else if start.value > end.value then Err(StartIsAfterEnd(start.value, end.value))
    else if title.Null? || IsBlank(title.value) || Utf16Length(title.value) > MAX_TITLE then Err(ConstraintViolation("title"))
    else Ok(EventCreationRequest(title.value, start.value, end.value))
  }

  datatype EventUpdateRequest = EventUpdateRequest(title: Option<string>, start: Option<Time>, end: Option<Time>) {
    /** What every accepted update request satisfies: a present title is short enough (it may
        be blank) and two present times are ordered. */
    predicate Valid() {
      && (title.Some? ==> Utf16Length(title.value) <= MAX_TITLE)
      && (start.Some? && end.Some? ==> start.value <= end.value)
    }
  }

  /** Decoding an `EventUpdateRequest`: the compact constructor compares the times only when
      both are present, then `@Size` applies to a present title. */
  function NewEventUpdateRequest(title: Option<string>, start: Option<Time>, end: Option<Time>): (r: Result<EventUpdateRequest>)
    ensures r.Ok? <==> EventUpdateRequest(title, start, end).Valid()
    ensures r.Ok? ==> r.value == EventUpdateRequest(title, start, end)
    ensures start.None? || end.None? ==> !r.Err? || r.failure.ConstraintViolation?
    ensures r.Err? && r.failure.StartIsAfterEnd? <==> start.Some? && end.Some? && start.value > end.value
    ensures r.Err? && !r.failure.StartIsAfterEnd? ==> r.failure == ConstraintViolation("title")
    ensures start.Some? && end.Some? && start.value > end.value ==> r == Err(StartIsAfterEnd(start.value, end.value))
  {
    if start.Some? && end.Some? && start.value > end.value then Err(StartIsAfterEnd(start.value, end.value))
    else if title.Some? && Utf16Length(title.value) > MAX_TITLE then Err(ConstraintViolation("title"))
    else Ok(EventUpdateRequest(title, start, end))
  }

  /** The body of a participants update: the complete list of person ids wanted. */
  datatype EventParticipantsUpdateRequest = EventParticipantsUpdateRequest(personIds: seq<Uuid>)

  datatype EventResponse = EventResponse(id: Uuid, title: string, startTime: Time, endTime: Time)

  datatype PersonCreationRequest = PersonCreationRequest(name: string)

  /** Decoding a `PersonCreationRequest`: the name is required, non-blank and bounded. */
  function NewPersonCreationRequest(name: Nullable<string>): (r: Result<PersonCreationRequest>)
    ensures r.Ok? <==> name.Ref? && ValidRequired(name.value, MAX_NAME)
    ensures r.Ok? ==> r.value.name == name.value
    ensures r.Err? ==> r.failure == ConstraintViolation("name")
  {
    if name.Null? || IsBlank(name.value) || Utf16Length(name.value) > MAX_NAME then Err(ConstraintViolation("name"))
    else Ok(PersonCreationRequest(name.value))
  }

  datatype PersonUpdateRequest = PersonUpdateRequest(name: Option<string>)

  /** Decoding a `PersonUpdateRequest`: only `@Size` applies to a present name. */
  function NewPersonUpdateRequest(name: Option<string>): (r: Result<PersonUpdateRequest>)
    ensures r.Ok? <==> name.None? || Utf16Length(name.value) <= MAX_NAME
    ensures r.Ok? ==> r.value.name == name
    ensures r.Err? ==> r.failure == ConstraintViolation("name")
  {
    if name.Some? && Utf16Length(name.value) > MAX_NAME then Err(ConstraintViolation("name"))
    else Ok(PersonUpdateRequest(name))
  }

  datatype PersonResponse = PersonResponse(id: Uuid, name: string)

  /** `n` copies of one character, as the tests' `"X".repeat(n)`. */
  function Repeat(c: char, n: nat): (s: string)
    ensures |s| == n
    ensures forall i :: 0 <= i < n ==> s[i] == c
  {
    seq(n, _ => c)
  }

  /** The validation cases of the controller tests: a blank title, a 300-character title, a
      missing start, a missing end and a start after the end are all refused; equal times
      are accepted. */
  lemma CreationRequestCases(t: Time)
    ensures NewEventCreationRequest(Ref(" "), Ref(t), Ref(t)).Err?
    ensures NewEventCreationRequest(Ref(Repeat('X', 300)), Ref(t), Ref(t + 12)).Err?
    ensures NewEventCreationRequest(Ref("Some event"), Null, Ref(t)) == Err(NullPointer)
    ensures NewEventCreationRequest(Ref("Some event"), Ref(t), Null) == Err(NullPointer)
    ensures NewEventCreationRequest(Ref("Some event"), Ref(t + 1), Ref(t)) == Err(StartIsAfterEnd(t + 1, t))
    ensures NewEventCreationRequest(Ref("Some event"), Ref(t), Ref(t)) == Ok(EventCreationRequest("Some event", t, t))
  {
    assert !IsBlank("Some event") by {
      assert "Some event"[0] == 'S';
    }
  }

  /** The update cases of the tests: the all-absent request is valid, a 300-character title
      and a start after the end are refused, equal times are accepted, and a single time is
      never checked for ordering. */
  lemma UpdateRequestCases(t: Time, u: Time)
    ensures NewEventUpdateRequest(None, None, None) == Ok(EventUpdateRequest(None, None, None))
    ensures NewEventUpdateRequest(Some(Repeat('X', 300)), None, None).Err?
    ensures NewEventUpdateRequest(None, Some(t + 1), Some(t)) == Err(StartIsAfterEnd(t + 1, t))
    ensures NewEventUpdateRequest(None, Some(t), Some(t)).Ok?
    ensures NewEventUpdateRequest(None, Some(t), None).Ok? && NewEventUpdateRequest(None, None, Some(u)).Ok?
  {
  }

  /** A character outside the Basic Multilingual Plane takes two UTF-16 units, so a string of
      200 such characters exceeds the 256 bound of every request, as it does in Java. */
  lemma {:induction false} AstralCharactersCountTwice(c: char, n: nat)
    requires c as int > 0xFFFF
    ensures Utf16Length(Repeat(c, n)) == 2 * n
    ensures n == 200 ==> && NewPersonCreationRequest(Ref(Repeat(c, n))).Err?
                         && NewPersonUpdateRequest(Some(Repeat(c, n))).Err?
                         && NewEventUpdateRequest(Some(Repeat(c, n)), None, None).Err?
  {
    if n > 0 {
      AstralCharactersCountTwice(c, n - 1);
      assert Repeat(c, n)[1..] == Repeat(c, n - 1);
    }
  }
}
