# Club website: event status, team hierarchy and admin forms in Dafny

This project models the in-memory logic of a club website. The site is built with React and keeps its data in Supabase tables. Three pieces are modelled:

- **Events page** (`src/pages/Events.tsx`). `getEventStatus` (`Events.GetEventStatus`) classifies an event as upcoming, ongoing or past. It uses the event's start and a fixed three-hour window. `fetchEvents` (`Events.FetchEvents`) recomputes every event's status and splits the rows into three lists. It sorts only the upcoming list, by start time. The model is made of functions (module `Events`).
- **Team page** (`src/pages/Team.tsx`). `fetchMembers` walks the `team_members` rows once. It sorts the rows into dignitaries, the president, vice-presidents and domain members. It sorts the dignitaries by position and the vice-presidents by name. A reduce then groups the domain members by `domain || 'General'` into leads and coordinators. The walk and the reduce are loops that build their results step by step. They are modelled as the method `Team.BuildHierarchy`, proved equal to the specification function `Team.HierarchyOf`. It calls `Team.GroupDomains` for the reduce, proved equal to `Team.GroupByDomain`, and that calls `Team.AddMember` for the reduce's callback. The properties are proved as lemmas about that function.
- **Admin dashboard** (`src/pages/Admin.tsx`). The member and event forms hold plain strings. Saving a form sends `field || null` for each optional column. Loading a row into a form uses `column || ''`. The handlers reset the forms after a successful write and after cancel. The update handlers do nothing when no record is being edited. The model is made of functions on an `AdminState` value (module `Admin`).

Two support modules carry the JavaScript semantics the pages rely on:

- `JsValues`: nullable strings, `||` on strings, and the string order.
- `JsArray`: `filter` as `Select`; `Array.prototype.sort` as a stable insertion sort `SortBy`, proved to be a permutation, stable, sorted, and the only stable sorted order.

Time is an integer count of milliseconds. `new Date(s)` is a parameter `parse: string -> Option<TimeValue>`, where `None` is an Invalid Date (time value NaN). Every comparison against NaN is false. A `Date` built from a time value beyond ±8.64e15 ms is also invalid; the model applies this limit when it computes the end of the window. The clock is a parameter `now`.

## Model

| member | source | states |
|---|---|---|
| Events.GetEventStatus | src/pages/Events.tsx:21-37 | `getEventStatus`. An empty or unparseable date is upcoming. Ongoing implies a parsed start with start <= now <= start + 10,800,000 ms. Past implies now is after that window. The full case analysis is in `Events.StatusWindow`, `Events.UnrepresentableEndIsUpcoming` and `Events.StatusMonotone`. |
| Events.UnknownStartIsUpcoming | src/pages/Events.tsx:21-36 | An empty date string, or one that does not parse (NaN), is always upcoming. |
| Events.StatusWindow | src/pages/Events.tsx:27-36 | For a start whose end is representable: upcoming iff now < start; ongoing iff start <= now <= start + 10,800,000 ms, both ends inclusive; past iff now > start + 10,800,000 ms. |
| Events.UnrepresentableEndIsUpcoming | src/pages/Events.tsx:28-36 | A start within three hours of the largest `Date` has an invalid end date, so it is upcoming whatever the clock says. |
| Events.StatusMonotone | src/pages/Events.tsx:30-36 | For a fixed date string, a later clock never gives an earlier status: upcoming, then ongoing, then past. |
| Events.ThreeHourScenario | src/pages/Events.tsx:21-36 | For a 09:00 start: 08:00 is upcoming, 10:00 ongoing, 12:30 past. |
| Events.WithDerivedStatus | src/pages/Events.tsx:58-61 | The status is replaced by the one computed from the event's own date, and every other field is unchanged. |
| Events.ProcessEvents | src/pages/Events.tsx:58-61 | Same length as the rows, and each position holds that row with its derived status. |
| Events.FetchEvents | src/pages/Events.tsx:58-67 | The three lists `fetchEvents` sets: every event in a list carries that list's status. `Events.BucketsPartition`, `Events.BucketMembership` and `Events.UpcomingSorted` state the permutation, the membership and the order. |
| Events.TabHasStatus | src/pages/Events.tsx:65-67 | Every event a status filter keeps has that status. |
| Events.StatusSplit | src/pages/Events.tsx:63-67 | The three status filters together hold every event exactly once, as a multiset. |
| JsArray.SelectPartition3 | src/pages/Events.tsx:63-67 | When every element has one of three different keys, the three filters together hold the input exactly once, as a multiset. |
| Events.BucketsPartition | src/pages/Events.tsx:58-67 | The three lists form a permutation of the processed events, and their sizes sum to the input length. |
| Events.BucketMembership | src/pages/Events.tsx:63-67 | An event is in a list iff it is a processed event with that list's status. |
| Events.AscendingTimes | src/pages/Events.tsx:64 | A list sorted by the date comparator, whose dates all parse, has non-decreasing start times. |
| Events.UpcomingSorted | src/pages/Events.tsx:64 | When every date parses, the upcoming list is ascending by start time, and events with equal dates keep the order of the filter. |
| Events.UpcomingTimesKnown | src/pages/Events.tsx:58-66 | Deriving the status keeps the start date, so when every input date parses, so does every upcoming event's. |
| Events.EarlierDateStrictTotal | src/pages/Events.tsx:64 | On dates that parse, the start-time comparator is a strict total order. |
| JsArray.Select | src/pages/Events.tsx:66-67 | A filter never yields more elements than its input. |
| JsArray.SelectMembers | src/pages/Events.tsx:66-67 | An element is kept by the filter iff it is in the input and has the key. |
| JsArray.SelectAppend | src/pages/Team.tsx:84-94 | Filtering a concatenation is the concatenation of the filtered parts, so the filter keeps input order. |
| JsArray.SelectNested | src/pages/Team.tsx:101-110 | Two filters in a row equal one filter on the conjunction of their keys. |
| JsArray.SelectLast | src/pages/Team.tsx:87-88 | The last kept element is an element of the input with the key, and no later input element has the key. |
| JsArray.SortBy | src/pages/Team.tsx:97-99 | Sorting keeps the elements: a permutation of the input. |
| JsArray.SortByMembers | src/pages/Events.tsx:64 | Sorting keeps exactly the elements it was given. |
| JsArray.SortByStable | src/pages/Team.tsx:97 | Sorting keeps the input order among elements with equal keys. |
| JsArray.SortBySorted | src/pages/Team.tsx:99 | Under a strict total order on the keys, no element is followed by one with a smaller key. |
| JsArray.SortByUnique | src/pages/Team.tsx:97 | Any list that is sorted and keeps input order among equal keys is the result of the sort. |
| JsValues.StringLessIrreflexive | src/pages/Team.tsx:99 | No name sorts before itself. |
| JsValues.StringLessTransitive | src/pages/Team.tsx:99 | The name order is transitive. |
| JsValues.StringLessTotal | src/pages/Team.tsx:99 | Of two different names, one sorts before the other. |
| Team.ParsePosition | src/pages/Team.tsx:14 | Reading a stored label gives a position whose label is that string; it is one of the seven known positions iff the string is one of their labels. |
| Team.ParsePositionLabel | src/pages/Team.tsx:14 | Every stored position comes back unchanged from its own label, because `Other` never carries one of the seven known labels. |
| Team.IsDignitary | src/pages/Team.tsx:23 | A member is a dignitary iff its position has an index in the Principal, Head of Department, Faculty Coordinator order. |
| Team.BuildHierarchy | src/pages/Team.tsx:77-114 | The loop, the two sorts and the reduce produce exactly `HierarchyOf` of the rows. |
| Team.GroupDomains | src/pages/Team.tsx:101-112 | The reduce produces the grouping `GroupByDomain` and creates the domain keys in first-encounter order. |
| Team.AddMember | src/pages/Team.tsx:102-110 | One step of the reduce: the groups become `AddToGroup` of the old groups and the member; the key list gains the member's domain exactly when it had no group, so keys and groups stay in step. |
| Team.GroupFoldIsGrouping | src/pages/Team.tsx:101-112 | Applying the reduce step to the domain members one after another gives the grouping `GroupByDomain`. |
| Team.GroupByDomainSnoc | src/pages/Team.tsx:102-110 | Grouping one more member is one step of the reduce: create the domain's group if it is missing, then append a lead or a coordinator. |
| Team.CategoriesPartition | src/pages/Team.tsx:84-94 | Every member lands in exactly one of dignitaries, the president slot, vice-presidents and domain members; together they hold the input as a multiset, and the sizes add up. |
| JsArray.SelectPartition4 | src/pages/Team.tsx:84-94 | When every element has one of four different keys, the four filters together hold the input exactly once, as a multiset. |
| Team.PresidentIsLast | src/pages/Team.tsx:81-88 | The president is null iff no member is President, and otherwise it is the last President in input order. |
| Team.DignitariesOrdered | src/pages/Team.tsx:96-97 | The dignitaries are all Principals, then all Heads of Department, then all Faculty Coordinators, each group in input order. |
| Team.DignitaryBlocksSorted | src/pages/Team.tsx:96-97 | That order is sorted by position index. |
| Team.DignitaryRank | src/pages/Team.tsx:96-97 | That order keeps the input order among dignitaries with the same position. |
| JsArray.SelectBlocks3 | src/pages/Team.tsx:96-97 | Filtering three blocks, each of a single different key, by a key gives back that key's block, or nothing for any other key. |
| JsArray.SortedBlocks3 | src/pages/Team.tsx:96-97 | Three single-key blocks whose keys never go down are sorted. |
| Team.StringLessStrictTotal | src/pages/Team.tsx:99 | The name order is a strict total order on any set of names. |
| Team.VicePresidentsByName | src/pages/Team.tsx:89-99 | The vice-presidents are a permutation of the input's Vice-Presidents, sorted by name, with equal names in input order. |
| Team.DomainKeyDefault | src/pages/Team.tsx:102 | A member's group key is its domain, or "General" when the domain is null or empty. |
| Team.DomainTeamsExact | src/pages/Team.tsx:101-112 | A domain has a group iff some domain member carries it. Its leads are exactly the input's Leads of that domain, and its coordinators exactly its Coordinators, both in input order. |
| Team.DomainMemberHasGroup | src/pages/Team.tsx:103-110 | Every domain member's group exists, and a Lead or a Coordinator is in its list. |
| Team.DomainOrderFirstSeen | src/pages/Team.tsx:101-105 | The domain keys are the keys of the grouping, each listed once, in the order their first member appears. |
| Team.DomainKeysSet | src/pages/Team.tsx:102-105 | The keys created by the reduce are exactly the members' domain keys, each once. |
| Team.DomainKeysFirstSeen | src/pages/Team.tsx:102-105 | Each key is created before any key whose first member comes later. |
| Team.DomainKeysEmpty | src/pages/Team.tsx:101-105 | No key is created iff there are no domain members. |
| Team.NewDomainIsEmpty | src/pages/Team.tsx:103-104 | A domain no member has yet holds neither leads nor coordinators. |
| Team.GroupWithoutLeadsScenario | src/pages/Team.tsx:102-110 | A member that is neither Lead nor Coordinator, with an empty domain, creates an empty "General" group. |
| Team.EmptyTableIsInitial | src/pages/Team.tsx:63-77 | No rows give the page's initial state: no dignitaries, no president, no vice-presidents and no domain groups, so there is nothing to show. |
| Team.HasAnyMembers | src/pages/Team.tsx:122 | `hasAnyMembers`: the page has something to show iff its state, apart from the domain lookup, differs from the initial state. |
| Team.HasAnyMembersIff | src/pages/Team.tsx:122 | The page has something to show iff the table has at least one row. |
| Team.AddToGroupAsWritten | src/pages/Team.tsx:103-110 | On an object literal, a domain that is not an inherited property name takes the intended reduce step. On groups without inherited keys, the step throws iff the domain is an inherited name and the member is a Lead or a Coordinator. |
| Team.GroupAsWritten | src/pages/Team.tsx:101-112 | The reduce as written throws iff some Lead or Coordinator has a domain named after an inherited property, and a reduce that finishes never has such a key. |
| Team.GroupAsWrittenAgrees | src/pages/Team.tsx:101-112 | With no inherited property name as a domain, the reduce as written gives the intended grouping. |
| Team.InheritedDomainThrows | src/pages/Team.tsx:103-107 | A Lead whose domain is "constructor" makes the reduce as written throw, while the intended grouping has a group holding that Lead. |
| Team.InheritedDomainDropsGroup | src/pages/Team.tsx:103-105 | A non-lead whose domain is "toString" gets no group from the reduce as written. |
| Admin.MemberPayloadOf | src/pages/Admin.tsx:178-187 | Name and position pass through; each optional column is null iff its field is empty, and the field otherwise. |
| Admin.MemberFormOf | src/pages/Admin.tsx:249-259 | Name and position are copied; each optional field is empty iff its column is null, undefined or empty, and the stored text otherwise. |
| Admin.MemberFormRoundTrip | src/pages/Admin.tsx:182-186 | Saving a member form and loading the saved row gives the same form back. |
| Admin.MemberPayloadRoundTrip | src/pages/Admin.tsx:254-258 | Loading a row and saving it unchanged gives back its optional columns, with a stored '' as null. |
| Admin.NormalizedPayloadFixed | src/pages/Admin.tsx:204-212 | For a row with no '' column, loading and saving it unchanged writes the same row. |
| Admin.EventPayloadOf | src/pages/Admin.tsx:135 | Every form field passes through, except that the image URL is null iff it is empty. |
| Admin.EventFormOf | src/pages/Admin.tsx:238-246 | Title, description and status are copied, the date is the formatted date, and the image URL is empty iff it is null or empty. |
| Admin.EventFormRoundTrip | src/pages/Admin.tsx:150 | Saving an event form and loading the row again gives the same form, when the date comes back in the form's format. |
| Admin.EventPayloadRoundTrip | src/pages/Admin.tsx:245 | Loading an event and saving it unchanged writes its fields back, with a stored '' image as null. |
| Admin.HandleCreateEvent | src/pages/Admin.tsx:132-144 | It sends the insert, and empties the event form only when the insert succeeds. |
| Admin.HandleUpdateEvent | src/pages/Admin.tsx:146-160 | With no event being edited it sends nothing and changes nothing. Otherwise it sends the update under the edited event's id, and on success it empties the form and ends editing. |
| Admin.CancelEditingEvent | src/pages/Admin.tsx:344 | Cancel ends editing and empties the event form. |
| Admin.StartEditingEvent | src/pages/Admin.tsx:238-247 | The event becomes the edited one, its values fill the form, and the member side is untouched. |
| Admin.HandleCreateMember | src/pages/Admin.tsx:175-197 | It sends the insert, and empties the member form only when the insert succeeds. |
| Admin.HandleUpdateMember | src/pages/Admin.tsx:199-223 | With no member being edited it sends nothing and changes nothing. Otherwise it sends the update under the edited member's id, and on success it empties the form and ends editing. |
| Admin.CancelEditingMember | src/pages/Admin.tsx:429 | Cancel ends editing and empties the member form to position Lead. |
| Admin.StartEditingMember | src/pages/Admin.tsx:249-260 | The member becomes the edited one, its values fill the form, and the event side is untouched. |
| Admin.EditAndSaveMember | src/pages/Admin.tsx:201-217 | Saving straight after loading a member writes its row back under its own id, with '' columns as null, and leaves the form empty. |
| Admin.EditAndSaveEvent | src/pages/Admin.tsx:148-154 | Saving straight after loading an event writes its fields back under its own id and leaves the form empty. |
| Admin.UpdateAfterCancelIsNoop | src/pages/Admin.tsx:199-217 | After a cancel or a successful update nothing is being edited, so a second update sends nothing. |
| Admin.ResetFormsAreInitial | src/pages/Admin.tsx:58-88 | The reset literals equal the `useState` initial forms, written out separately: status upcoming and position Lead, all strings empty. Cancelling from the initial state changes nothing, and saving the empty forms sends no optional column. |

## Left out

- Supabase I/O is not modelled: the queries, `Promise.all`, toasts, `confirm` dialogs, React state setters and rendering. A handler's write is returned as a value, and the table's answer is a boolean parameter.
- The `order('event_date', { ascending: false })` of the query is not modelled; the rows arrive in any order. The ongoing and past lists keep that order because a filter keeps input order.
- The fetch error paths are not modelled. When the query fails, the page keeps its previous lists.
- The clock is a parameter read once. The source calls `new Date()` once per event, so a slow map could see two readings.
- `new Date(string)` is an abstract parser. The model fixes only that an empty string gives NaN.
- Events.UpcomingSorted: the ascending order is proved only when every date parses. With a NaN date the comparator returns NaN, which the sort treats as "equal", and `Array.prototype.sort` may then return any order. For that case the model proves only that the list is a permutation of the filter.
- JsValues.StringLess: `localeCompare` is locale-dependent collation. The model uses code-point (Unicode scalar value) lexicographic order as a fixed strict total order.
- Team.DomainOrderFirstSeen: JavaScript lists keys that look like integers first, in numeric order. The model keeps every key in first-encounter order.
- Admin.EventFormOf: `new Date(...).toISOString().slice(0, 16)` is a host call, so the formatted UTC date is a parameter. For an unparseable stored date that call throws a RangeError, and the model does not capture this.
- Admin.StartEditingEvent: `setEditingEvent(event)` (src/pages/Admin.tsx:239) runs before the call that throws (src/pages/Admin.tsx:243). So for an unparseable stored date the event is already being edited while the form keeps its old values. The model describes only the case where the date formats.
- Delete handlers, the newsletter form and the contact and subscriber lists are table plumbing with no logic of their own.
- `src/components/HeroSection.tsx` and `src/components/Navbar.tsx` are not part of this model: they hold browser storage, timers and event listeners.

## Findings

| source | as written | input that shows it | evidently intended | confidence | as-written member | corrected member |
|---|---|---|---|---|---|---|
| src/pages/Team.tsx:101-110 | The reduce starts from `{}` and tests `!acc[domain]`. Names inherited from Object.prototype are already truthy, so no group is created for them. `acc[domain].leads.push` then throws a TypeError. The catch only logs, so the domain groups are never set. | one member `{position: 'Lead', domain: 'constructor'}`; with position 'Volunteer' and domain 'toString' the member gets no group | every domain, whatever its name, gets its own group | not executed; follows from the ECMAScript property lookup rules | Team.AddToGroupAsWritten, Team.InheritedDomainThrows, Team.InheritedDomainDropsGroup | Team.GroupByDomain, Team.GroupByDomainSnoc, Team.GroupAsWrittenAgrees |
