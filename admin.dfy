/** The admin dashboard's forms (src/pages/Admin.tsx): the member and event
    forms hold plain strings; saving turns an empty optional field into `null`,
    and loading a row for editing turns `null` back into `''`. */
module Admin {
  import opened JsValues
  import opened Events
  import opened Team

  // ---------------------------------------------------------------------------
  // The team member form

  /** `memberForm`: every field is a string, the position one of the labels. */
  datatype MemberForm = MemberForm(
    name: string,
    position: StoredPosition,
    domain: string,
    imageUrl: string,
    linkedinUrl: string,
    email: string,
    discordUrl: string)

  /** `memberData`, the row sent to `insert` or `update`. */
  datatype MemberPayload = MemberPayload(
    name: string,
    position: StoredPosition,
    domain: Option<string>,
    imageUrl: Option<string>,
    linkedinUrl: Option<string>,
    email: Option<string>,
    discordUrl: Option<string>)

  /** An optional column as the payload builder leaves it: `null` exactly for
      the empty field, the field itself otherwise. */
  predicate NullForEmpty(field: string, column: Option<string>)
  {
    (column == None <==> field == "") && (column.Some? ==> column.value == field)
  }

  /** `memberData` built from the form with `field || null`. */
  function MemberPayloadOf(f: MemberForm): (p: MemberPayload)
    ensures p.name == f.name && p.position == f.position
    ensures NullForEmpty(f.domain, p.domain) && NullForEmpty(f.imageUrl, p.imageUrl)
    ensures NullForEmpty(f.linkedinUrl, p.linkedinUrl) && NullForEmpty(f.email, p.email)
    ensures NullForEmpty(f.discordUrl, p.discordUrl)
  {
    MemberPayload(f.name, f.position, OrNull(f.domain), OrNull(f.imageUrl),
      OrNull(f.linkedinUrl), OrNull(f.email), OrNull(f.discordUrl))
  }

  /** A form field filled from a nullable column with `column || ''`: empty
      exactly when the column is falsy, the stored text otherwise. */
  predicate EmptyForFalsy(column: Option<string>, field: string)
  {
    (field == "" <==> !Truthy(column)) && (Truthy(column) ==> field == column.value)
  }

  /** The form filled by `startEditingMember`. */
  function MemberFormOf(m: Member): (f: MemberForm)
    ensures f.name == m.name && f.position == m.position
    ensures EmptyForFalsy(m.domain, f.domain) && EmptyForFalsy(m.imageUrl, f.imageUrl)
    ensures EmptyForFalsy(m.linkedinUrl, f.linkedinUrl) && EmptyForFalsy(m.email, f.email)
    ensures EmptyForFalsy(m.discordUrl, f.discordUrl)
  {
    MemberForm(m.name, m.position, OrElse(m.domain, ""), OrElse(m.imageUrl, ""),
      OrElse(m.linkedinUrl, ""), OrElse(m.email, ""), OrElse(m.discordUrl, ""))
  }

  /** The row the table holds after a payload is written under `id`. */
  function StoredMember(id: string, p: MemberPayload): Member
  {
    Member(id, p.name, p.position, p.imageUrl, p.domain, p.linkedinUrl, p.email, p.discordUrl)
  }

  /** A payload with no empty string in it, as the builder always makes. */
  predicate NormalizedPayload(p: MemberPayload)
  {
    p.domain != Some("") && p.imageUrl != Some("") && p.linkedinUrl != Some("")
    && p.email != Some("") && p.discordUrl != Some("")
  }

  /** Saving a form and loading the saved row for editing gives the same form back. */
  lemma MemberFormRoundTrip(id: string, f: MemberForm)
    ensures MemberFormOf(StoredMember(id, MemberPayloadOf(f))) == f
  {
  }

  /** Loading a row for editing and saving it unchanged writes the same row,
      except that a stored `''` comes back as `null`. */
  lemma MemberPayloadRoundTrip(m: Member)
    ensures var p := MemberPayloadOf(MemberFormOf(m));
      p.name == m.name && p.position == m.position &&
      p.domain == Normalized(m.domain) && p.imageUrl == Normalized(m.imageUrl) &&
      p.linkedinUrl == Normalized(m.linkedinUrl) && p.email == Normalized(m.email) &&
      p.discordUrl == Normalized(m.discordUrl)
    ensures NormalizedPayload(MemberPayloadOf(MemberFormOf(m)))
  {
  }

  /** For a payload the builder could have made, edit-and-save is the identity. */
  lemma NormalizedPayloadFixed(id: string, p: MemberPayload)
    requires NormalizedPayload(p)
    ensures MemberPayloadOf(MemberFormOf(StoredMember(id, p))) == p
  {
  }

  // ---------------------------------------------------------------------------
  // The event form

  /** `eventForm`. */
  datatype EventForm = EventForm(
    title: string,
    description: string,
    eventDate: string,
    status: Status,
    imageUrl: string)

  /** `{...eventForm, image_url: eventForm.image_url || null}`. */
  datatype EventPayload = EventPayload(
    title: string,
    description: string,
    eventDate: string,
    status: Status,
    imageUrl: Option<string>)

  function EventPayloadOf(f: EventForm): (p: EventPayload)
    ensures p.title == f.title && p.description == f.description
    ensures p.eventDate == f.eventDate && p.status == f.status
    ensures NullForEmpty(f.imageUrl, p.imageUrl)
  {
    EventPayload(f.title, f.description, f.eventDate, f.status, OrNull(f.imageUrl))
  }

  /** The form filled by `startEditingEvent`; `isoMinutes` is
      `new Date(...).toISOString().slice(0, 16)` of the stored date: UTC, to the minute. */
  function EventFormOf(e: Event, isoMinutes: string): (f: EventForm)
    ensures f.title == e.title && f.description == e.description
    ensures f.eventDate == isoMinutes && f.status == e.status
    ensures EmptyForFalsy(e.imageUrl, f.imageUrl)
  {
    EventForm(e.title, e.description, isoMinutes, e.status, OrElse(e.imageUrl, ""))
  }

  /** The row the table holds after an event payload is written. */
  function StoredEvent(id: string, createdAt: string, p: EventPayload): Event
  {
    Event(id, p.title, p.description, p.imageUrl, p.eventDate, p.status, createdAt)
  }

  /** Saving an event form and loading the row again gives the same form, when
      the date comes back in the form's own format. */
  lemma EventFormRoundTrip(id: string, createdAt: string, f: EventForm)
    ensures EventFormOf(StoredEvent(id, createdAt, EventPayloadOf(f)), f.eventDate) == f
  {
  }

  /** Loading an event and saving it unchanged writes its fields back, with a
      stored `''` image as `null`. */
  lemma EventPayloadRoundTrip(e: Event, isoMinutes: string)
    ensures EventPayloadOf(EventFormOf(e, isoMinutes)) ==
      EventPayload(e.title, e.description, isoMinutes, e.status, Normalized(e.imageUrl))
  {
  }

  // ---------------------------------------------------------------------------
  // The dashboard's form state and its handlers

  /** The literal every event-form reset writes back. */
  const EmptyEventForm: EventForm := EventForm("", "", "", Upcoming, "")
  /** The literal every member-form reset writes back. */
  const EmptyMemberForm: MemberForm := MemberForm("", Lead, "", "", "", "", "")

  /** The form-related state of the dashboard. */
  datatype AdminState = AdminState(
    eventForm: EventForm,
    memberForm: MemberForm,
    editingEvent: Option<Event>,
    editingMember: Option<Member>)

  /** The `useState` initial values of the two forms and the two edit targets. */
  const InitialState: AdminState := AdminState(
    EventForm("", "", "", Upcoming, ""),
    MemberForm("", Lead, "", "", "", "", ""),
    None,
    None)

  /** The write a handler sends to the `events` or `team_members` table. */
  datatype Request =
    | InsertEvent(event: EventPayload)
    | UpdateEvent(eventId: string, event: EventPayload)
    | InsertMember(member: MemberPayload)
    | UpdateMember(memberId: string, member: MemberPayload)

  /** What a handler does: the write it sends, if any, and the state after the
      answer; `ok` says whether the table reported no error. */
  datatype Step = Step(sent: Option<Request>, state: AdminState)

  function HandleCreateEvent(s: AdminState, ok: bool): (r: Step)
    ensures r.sent == Some(InsertEvent(EventPayloadOf(s.eventForm)))
    ensures r.state.memberForm == s.memberForm && r.state.editingEvent == s.editingEvent
    ensures r.state.editingMember == s.editingMember
    ensures r.state.eventForm == if ok then EmptyEventForm else s.eventForm
  {
    Step(Some(InsertEvent(EventPayloadOf(s.eventForm))),
      if ok then s.(eventForm := EmptyEventForm) else s)
  }

  function HandleUpdateEvent(s: AdminState, ok: bool): (r: Step)
    ensures s.editingEvent == None ==> r == Step(None, s)
    ensures s.editingEvent.Some? ==> r.sent == Some(UpdateEvent(s.editingEvent.value.id, EventPayloadOf(s.eventForm)))
    ensures s.editingEvent.Some? && ok ==> r.state == s.(eventForm := EmptyEventForm, editingEvent := None)
    ensures !ok ==> r.state == s
  {
    match s.editingEvent
    case None => Step(None, s)
    case Some(e) =>
      Step(Some(UpdateEvent(e.id, EventPayloadOf(s.eventForm))),
        if ok then s.(eventForm := EmptyEventForm, editingEvent := None) else s)
  }

  function CancelEditingEvent(s: AdminState): (r: AdminState)
    ensures r == s.(eventForm := EmptyEventForm, editingEvent := None)
  {
    s.(editingEvent := None, eventForm := EmptyEventForm)
  }

  function StartEditingEvent(s: AdminState, e: Event, isoMinutes: string): (r: AdminState)
    ensures r.editingEvent == Some(e) && r.eventForm == EventFormOf(e, isoMinutes)
    ensures r.memberForm == s.memberForm && r.editingMember == s.editingMember
  {
    s.(editingEvent := Some(e), eventForm := EventFormOf(e, isoMinutes))
  }

  function HandleCreateMember(s: AdminState, ok: bool): (r: Step)
    ensures r.sent == Some(InsertMember(MemberPayloadOf(s.memberForm)))
    ensures r.state.eventForm == s.eventForm && r.state.editingEvent == s.editingEvent
    ensures r.state.editingMember == s.editingMember
    ensures r.state.memberForm == if ok then EmptyMemberForm else s.memberForm
  {
    Step(Some(InsertMember(MemberPayloadOf(s.memberForm))),
      if ok then s.(memberForm := EmptyMemberForm) else s)
  }

  function HandleUpdateMember(s: AdminState, ok: bool): (r: Step)
    ensures s.editingMember == None ==> r == Step(None, s)
    ensures s.editingMember.Some? ==> r.sent == Some(UpdateMember(s.editingMember.value.id, MemberPayloadOf(s.memberForm)))
    ensures s.editingMember.Some? && ok ==> r.state == s.(memberForm := EmptyMemberForm, editingMember := None)
    ensures !ok ==> r.state == s
  {
    match s.editingMember
    case None => Step(None, s)
    case Some(m) =>
      Step(Some(UpdateMember(m.id, MemberPayloadOf(s.memberForm))),
        if ok then s.(memberForm := EmptyMemberForm, editingMember := None) else s)
  }

  function CancelEditingMember(s: AdminState): (r: AdminState)
    ensures r == s.(memberForm := EmptyMemberForm, editingMember := None)
  {
    s.(editingMember := None, memberForm := EmptyMemberForm)
  }

  function StartEditingMember(s: AdminState, m: Member): (r: AdminState)
    ensures r.editingMember == Some(m) && r.memberForm == MemberFormOf(m)
    ensures r.eventForm == s.eventForm && r.editingEvent == s.editingEvent
  {
    s.(editingMember := Some(m), memberForm := MemberFormOf(m))
  }

  // ---------------------------------------------------------------------------
  // Properties of the handlers

  /** Saving a member straight after loading it for editing writes its row back
      under its own id, `''` columns as `null`, and leaves the form empty. */
  lemma EditAndSaveMember(s: AdminState, m: Member)
    ensures var r := HandleUpdateMember(StartEditingMember(s, m), true);
      r.sent == Some(UpdateMember(m.id, MemberPayload(m.name, m.position, Normalized(m.domain),
        Normalized(m.imageUrl), Normalized(m.linkedinUrl), Normalized(m.email), Normalized(m.discordUrl)))) &&
      r.state.memberForm == EmptyMemberForm && r.state.editingMember == None
  {
    MemberPayloadRoundTrip(m);
  }

  /** The same for an event. */
  lemma EditAndSaveEvent(s: AdminState, e: Event, isoMinutes: string)
    ensures var r := HandleUpdateEvent(StartEditingEvent(s, e, isoMinutes), true);
      r.sent == Some(UpdateEvent(e.id, EventPayload(e.title, e.description, isoMinutes, e.status, Normalized(e.imageUrl)))) &&
      r.state.eventForm == EmptyEventForm && r.state.editingEvent == None
  {
    EventPayloadRoundTrip(e, isoMinutes);
  }

  /** After a cancel or a successful update nothing is being edited, so a
      second update sends nothing and changes nothing. */
  lemma UpdateAfterCancelIsNoop(s: AdminState, ok: bool)
    ensures HandleUpdateMember(CancelEditingMember(s), ok) == Step(None, CancelEditingMember(s))
    ensures HandleUpdateEvent(CancelEditingEvent(s), ok) == Step(None, CancelEditingEvent(s))
    ensures s.editingMember.Some? ==>
      var t := HandleUpdateMember(s, true).state; HandleUpdateMember(t, ok) == Step(None, t)
    ensures s.editingEvent.Some? ==>
      var t := HandleUpdateEvent(s, true).state; HandleUpdateEvent(t, ok) == Step(None, t)
  {
  }

  /** The emptied forms are the dashboard's initial forms, and saving an empty
      member form sends no optional column at all. */
  lemma ResetFormsAreInitial()
    ensures InitialState.eventForm == EmptyEventForm && InitialState.memberForm == EmptyMemberForm
    ensures CancelEditingMember(InitialState) == InitialState
    ensures CancelEditingEvent(InitialState) == InitialState
    ensures MemberPayloadOf(EmptyMemberForm) == MemberPayload("", Lead, None, None, None, None, None)
    ensures EventPayloadOf(EmptyEventForm) == EventPayload("", "", "", Upcoming, None)
  {
  }
}
