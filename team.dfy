/** The team page: one pass splits the `team_members` rows into dignitaries,
    the president, vice-presidents and domain members; the first two lists are
    sorted, and the domain members are grouped by domain into leads and
    coordinators (src/pages/Team.tsx). */
module Team {
  import opened JsValues
  import opened JsArray

  /** The `position` column: the seven labels of the schema, and `Other` for
      any other stored label (rows are cast, not checked, on the way in). */
  datatype Position =
    | Principal | HeadOfDepartment | FacultyCoordinator
    | President | VicePresident | Lead | Coordinator
    | Other(text: string)

  /** A position as read from a row: `Other` never carries one of the seven
      known labels, which `===` would have matched. */
  type StoredPosition = p: Position | p.Other? ==> p.text !in KnownLabels witness Principal

  function PositionLabel(p: Position): string
  {
    match p
    case Principal => "Principal"
    case HeadOfDepartment => "Head of Department"
    case FacultyCoordinator => "Faculty Coordinator"
    case President => "President"
    case VicePresident => "Vice-President"
    case Lead => "Lead"
    case Coordinator => "Coordinator"
    case Other(text) => text
  }

  const KnownLabels: seq<string> :=
    ["Principal", "Head of Department", "Faculty Coordinator", "President", "Vice-President", "Lead", "Coordinator"]

  /** Reads a stored label; `===` against the seven labels decides the variant. */
  function ParsePosition(s: string): (p: StoredPosition)
    ensures PositionLabel(p) == s
    ensures p.Other? <==> s !in KnownLabels
  {
    if s == "Principal" then Principal
    else if s == "Head of Department" then HeadOfDepartment
    else if s == "Faculty Coordinator" then FacultyCoordinator
    else if s == "President" then President
    else if s == "Vice-President" then VicePresident
    else if s == "Lead" then Lead
    else if s == "Coordinator" then Coordinator
    else Other(s)
  }

  /** A position read from its own label comes back unchanged. */
  lemma ParsePositionLabel(p: StoredPosition)
    ensures ParsePosition(PositionLabel(p)) == p
  {
  }

  /** A `team_members` row; `None` is `null` or an absent property. */
  datatype Member = Member(
    id: string,
    name: string,
    position: StoredPosition,
    imageUrl: Option<string>,
    domain: Option<string>,
    linkedinUrl: Option<string>,
    email: Option<string>,
    discordUrl: Option<string>)

  /** `positionOrder.indexOf(position)` with positionOrder = Principal, Head of
      Department, Faculty Coordinator; -1 when absent. */
  function PositionIndex(p: Position): int
  {
    match p
    case Principal => 0
    case HeadOfDepartment => 1
    case FacultyCoordinator => 2
    case _ => -1
  }

  /** `['Principal', 'Head of Department', 'Faculty Coordinator'].includes(position)`:
      the same three labels as positionOrder, so a dignitary always has a rank. */
  predicate IsDignitary(p: Position)
    ensures IsDignitary(p) <==> 0 <= PositionIndex(p) <= 2
  {
    p == Principal || p == HeadOfDepartment || p == FacultyCoordinator
  }

  /** The four places the forEach pass can put a member. */
  datatype Category = DignitarySlot | PresidentSlot | VicePresidentSlot | DomainSlot

  function CategoryOf(m: Member): Category
  {
    if IsDignitary(m.position) then DignitarySlot
    else if m.position == President then PresidentSlot
    else if m.position == VicePresident then VicePresidentSlot
    else DomainSlot
  }

  function PositionOf(m: Member): Position
  {
    m.position
  }

  /** Sort key of the dignitaries: `positionOrder.indexOf(a.position) - ...` is negative. */
  function RankKey(m: Member): int
  {
    PositionIndex(m.position)
  }

  predicate IntLess(a: int, b: int)
  {
    a < b
  }

  /** Sort key of the vice-presidents: `a.name.localeCompare(b.name)` is negative. */
  function NameKey(m: Member): string
  {
    m.name
  }

  /** `member.domain || 'General'`. */
  function DomainKey(m: Member): string
  {
    OrElse(m.domain, "General")
  }

  lemma DomainKeyDefault(m: Member)
    ensures !Truthy(m.domain) ==> DomainKey(m) == "General"
    ensures Truthy(m.domain) ==> DomainKey(m) == m.domain.value
  {
  }

  /** A domain member's place inside its group. */
  function RoleKey(m: Member): (string, Position)
  {
    (DomainKey(m), m.position)
  }

  datatype DomainTeam = DomainTeam(leads: seq<Member>, coordinators: seq<Member>)

  /** What the page renders: the four state values set by fetchMembers. The
      `Record` of domain teams is its entries in key order plus the lookup. */
  datatype Hierarchy = Hierarchy(
    dignitaries: seq<Member>,
    president: Option<Member>,
    vicePresidents: seq<Member>,
    domainOrder: seq<string>,
    teamsByDomain: map<string, DomainTeam>)

  /** The state before fetchMembers has run. */
  const EmptyHierarchy := Hierarchy([], None, [], [], map[])

  function DomainMembers(all: seq<Member>): seq<Member>
  {
    Select(all, CategoryOf, DomainSlot)
  }

  /** The keys of the domain grouping, in the order they are first met. */
  function DomainKeys(dm: seq<Member>): seq<string>
  {
    if dm == [] then []
    else
      var keys := DomainKeys(dm[..|dm| - 1]);
      var d := DomainKey(dm[|dm| - 1]);
      if d in keys then keys else keys + [d]
  }

  function LeadsIn(dm: seq<Member>, d: string): seq<Member>
  {
    Select(dm, RoleKey, (d, Lead))
  }

  function CoordinatorsIn(dm: seq<Member>, d: string): seq<Member>
  {
    Select(dm, RoleKey, (d, Coordinator))
  }

  /** The reduce over the domain members: each key holds the leads and the
      coordinators of that domain, in input order. */
  function GroupByDomain(dm: seq<Member>): map<string, DomainTeam>
  {
    map d | d in DomainKeys(dm) :: DomainTeam(LeadsIn(dm, d), CoordinatorsIn(dm, d))
  }

  /** `dignitariesList` after its sort. */
  function Dignitaries(all: seq<Member>): seq<Member>
  {
    SortBy(Select(all, CategoryOf, DignitarySlot), RankKey, IntLess)
  }

  /** `tempPresident` after the loop. */
  function PresidentOf(all: seq<Member>): Option<Member>
  {
    Last(Select(all, CategoryOf, PresidentSlot))
  }

  /** `tempVPs` after its sort. */
  function VicePresidents(all: seq<Member>): seq<Member>
  {
    SortBy(Select(all, CategoryOf, VicePresidentSlot), NameKey, StringLess)
  }

  function DomainOrder(all: seq<Member>): seq<string>
  {
    DomainKeys(DomainMembers(all))
  }

  /** `groupedByDomain`. */
  function TeamsByDomain(all: seq<Member>): map<string, DomainTeam>
  {
    GroupByDomain(DomainMembers(all))
  }

  /** What fetchMembers computes from the rows, as one value. */
  function HierarchyOf(all: seq<Member>): Hierarchy
  {
    Hierarchy(Dignitaries(all), PresidentOf(all), VicePresidents(all), DomainOrder(all), TeamsByDomain(all))
  }

  /** `hasAnyMembers`. */
  predicate HasAnyMembers(h: Hierarchy)
    ensures HasAnyMembers(h) <==> h.(teamsByDomain := map[]) != EmptyHierarchy
  {
    |h.dignitaries| > 0 || h.president.Some? || |h.vicePresidents| > 0 || |h.domainOrder| > 0
  }

  // ---------------------------------------------------------------------------
  // The domain keys

  /** The keys are exactly the domains of the members, each listed once. */
  lemma {:induction false} DomainKeysSet(dm: seq<Member>)
    ensures forall d :: d in DomainKeys(dm) <==> d in KeySet(dm, DomainKey)
    ensures forall i, j :: 0 <= i < j < |DomainKeys(dm)| ==> DomainKeys(dm)[i] != DomainKeys(dm)[j]
  {
    if dm != [] {
      var init := dm[..|dm| - 1];
      DomainKeysSet(init);
      assert dm == init + [dm[|dm| - 1]];
      assert KeySet(dm, DomainKey) == KeySet(init, DomainKey) + {DomainKey(dm[|dm| - 1])};
    }
  }

  /** First-encounter order: whenever a member's domain is the j-th key, every
      earlier key belongs to some member before it. */
  lemma {:induction false} DomainKeysFirstSeen(dm: seq<Member>)
    ensures forall i, j, q ::
      (0 <= i < j < |DomainKeys(dm)| && 0 <= q < |dm| && DomainKey(dm[q]) == DomainKeys(dm)[j])
      ==> DomainKeys(dm)[i] in KeySet(dm[..q], DomainKey)
  {
    if dm != [] {
      var n := |dm| - 1;
      var init := dm[..n];
      var keys := DomainKeys(init);
      DomainKeysFirstSeen(init);
      DomainKeysSet(init);
      var ks := DomainKeys(dm);
      forall i, j, q | 0 <= i < j < |ks| && 0 <= q < |dm| && DomainKey(dm[q]) == ks[j]
        ensures ks[i] in KeySet(dm[..q], DomainKey)
      {
        if q < n {
          assert dm[..q] == init[..q];
          assert init[q] == dm[q];
          assert init[q] in init;
          assert DomainKey(dm[q]) in KeySet(init, DomainKey);
          if j == |keys| {
            // the new key was not the domain of any earlier member
            assert false;
          }
        } else {
          assert dm[..q] == init;
          assert ks[i] == keys[i];
        }
      }
    }
  }

  lemma DomainKeysEmpty(dm: seq<Member>)
    ensures DomainKeys(dm) == [] <==> dm == []
  {
    if dm != [] {
      DomainKeysSet(dm);
      assert DomainKey(dm[0]) in KeySet(dm, DomainKey);
    }
  }

  /** One step of the reduce: create the member's domain group when it is
      missing, then file a lead or a coordinator under it. */
  function AddToGroup(acc: map<string, DomainTeam>, m: Member): map<string, DomainTeam>
  {
    var d := DomainKey(m);
    var t := if d in acc then acc[d] else DomainTeam([], []);
    acc[d :=
      if m.position == Lead then t.(leads := t.leads + [m])
      else if m.position == Coordinator then t.(coordinators := t.coordinators + [m])
      else t]
  }

  lemma DomainKeysSnoc(dm: seq<Member>, m: Member)
    ensures DomainKeys(dm + [m]) ==
      if DomainKey(m) in DomainKeys(dm) then DomainKeys(dm) else DomainKeys(dm) + [DomainKey(m)]
  {
    assert (dm + [m])[..|dm|] == dm;
  }

  /** A domain that no member has yet holds neither leads nor coordinators. */
  lemma NewDomainIsEmpty(dm: seq<Member>, d: string)
    requires d !in DomainKeys(dm)
    ensures LeadsIn(dm, d) == [] && CoordinatorsIn(dm, d) == []
  {
    DomainKeysSet(dm);
    forall x | x in dm
      ensures RoleKey(x) != (d, Lead) && RoleKey(x) != (d, Coordinator)
    {
      assert DomainKey(x) in KeySet(dm, DomainKey);
    }
    SelectNone(dm, RoleKey, (d, Lead));
    SelectNone(dm, RoleKey, (d, Coordinator));
  }

  /** The grouping of one more member is one more step of the reduce. */
  lemma GroupByDomainSnoc(dm: seq<Member>, m: Member)
    ensures GroupByDomain(dm + [m]) == AddToGroup(GroupByDomain(dm), m)
  {
    var g := GroupByDomain(dm);
    var d := DomainKey(m);
    var dm' := dm + [m];
    var g' := GroupByDomain(dm');
    var r := AddToGroup(g, m);
    DomainKeysSnoc(dm, m);
    assert g'.Keys == r.Keys;
    forall e | e in g'.Keys
      ensures g'[e] == r[e]
    {
      SelectSnoc(dm, m, RoleKey, (e, Lead));
      SelectSnoc(dm, m, RoleKey, (e, Coordinator));
      if e != d {
        assert g'[e] == g[e];
      } else {
        var t := if d in g then g[d] else DomainTeam([], []);
        if d !in g {
          NewDomainIsEmpty(dm, d);
        }
        assert LeadsIn(dm, d) == t.leads && CoordinatorsIn(dm, d) == t.coordinators;
        if m.position == Lead {
          assert g'[e] == t.(leads := t.leads + [m]);
        } else if m.position == Coordinator {
          assert g'[e] == t.(coordinators := t.coordinators + [m]);
        } else {
          assert g'[e] == t;
        }
      }
    }
  }

  /** The reduce itself: the steps applied to the members in order, from `{}`. */
  function GroupFold(dm: seq<Member>): map<string, DomainTeam>
  {
    if dm == [] then map[] else AddToGroup(GroupFold(dm[..|dm| - 1]), dm[|dm| - 1])
  }

  /** The reduce computes the grouping. */
  lemma {:induction false} GroupFoldIsGrouping(dm: seq<Member>)
    ensures GroupFold(dm) == GroupByDomain(dm)
  {
    if dm == [] {
      assert GroupByDomain(dm).Keys == {};
    } else {
      var init, m := dm[..|dm| - 1], dm[|dm| - 1];
      assert dm == init + [m];
      GroupFoldIsGrouping(init);
      GroupByDomainSnoc(init, m);
    }
  }

  // ---------------------------------------------------------------------------
  // fetchMembers

  /** The body of fetchMembers after the rows arrive: the forEach pass, the two
      sorts and the reduce. */
  method BuildHierarchy(allMembers: seq<Member>) returns (h: Hierarchy)
    ensures h == HierarchyOf(allMembers)
  {
    var dignitariesList: seq<Member> := [];
    var domainMembers: seq<Member> := [];
    var tempPresident: Option<Member> := None;
    var tempVPs: seq<Member> := [];
    var i := 0;
    while i < |allMembers|
      invariant 0 <= i <= |allMembers|
      invariant dignitariesList == Select(allMembers[..i], CategoryOf, DignitarySlot)
      invariant tempPresident == Last(Select(allMembers[..i], CategoryOf, PresidentSlot))
      invariant tempVPs == Select(allMembers[..i], CategoryOf, VicePresidentSlot)
      invariant domainMembers == Select(allMembers[..i], CategoryOf, DomainSlot)
    {
      var member := allMembers[i];
      assert allMembers[..i + 1] == allMembers[..i] + [member];
      SelectSnoc(allMembers[..i], member, CategoryOf, DignitarySlot);
      SelectSnoc(allMembers[..i], member, CategoryOf, PresidentSlot);
      SelectSnoc(allMembers[..i], member, CategoryOf, VicePresidentSlot);
      SelectSnoc(allMembers[..i], member, CategoryOf, DomainSlot);
      if IsDignitary(member.position) {
        dignitariesList := dignitariesList + [member];
      } else if member.position == President {
        tempPresident := Some(member);
      } else if member.position == VicePresident {
        tempVPs := tempVPs + [member];
      } else {
        domainMembers := domainMembers + [member];
      }
      i := i + 1;
    }
    assert allMembers[..i] == allMembers;

    var dignitaries := SortBy(dignitariesList, RankKey, IntLess);
    var vicePresidents := SortBy(tempVPs, NameKey, StringLess);

    var domainOrder, teamsByDomain := GroupDomains(domainMembers);
    h := Hierarchy(dignitaries, tempPresident, vicePresidents, domainOrder, teamsByDomain);
  }

  /** The reduce of fetchMembers over the domain members, together with the
      order in which it creates the domain keys. */
  method GroupDomains(domainMembers: seq<Member>) returns (domainOrder: seq<string>, acc: map<string, DomainTeam>)
    ensures domainOrder == DomainKeys(domainMembers)
    ensures acc == GroupByDomain(domainMembers)
  {
    domainOrder := [];
    acc := map[];
    var j := 0;
    while j < |domainMembers|
      invariant 0 <= j <= |domainMembers|
      invariant domainOrder == DomainKeys(domainMembers[..j])
      invariant acc == GroupFold(domainMembers[..j])
      invariant forall d :: d in acc <==> d in domainOrder
    {
      var member := domainMembers[j];
      assert domainMembers[..j + 1] == domainMembers[..j] + [member];
      assert domainMembers[..j + 1][..j] == domainMembers[..j];
      DomainKeysSnoc(domainMembers[..j], member);
      acc, domainOrder := AddMember(acc, domainOrder, member);
      j := j + 1;
    }
    assert domainMembers[..j] == domainMembers;
    GroupFoldIsGrouping(domainMembers);
  }

  /** The callback of the reduce: file one member under its domain, creating
      the group (and so the next key) on first encounter. */
  method AddMember(acc: map<string, DomainTeam>, keys: seq<string>, member: Member)
    returns (acc': map<string, DomainTeam>, keys': seq<string>)
    requires forall d :: d in acc <==> d in keys
    ensures acc' == AddToGroup(acc, member)
    ensures keys' == if DomainKey(member) in keys then keys else keys + [DomainKey(member)]
    ensures forall d :: d in acc' <==> d in keys'
  {
    acc', keys' := acc, keys;
    var domain := OrElse(member.domain, "General");
    ghost var t := if domain in acc then acc[domain] else DomainTeam([], []);
    if domain !in acc' {
      acc' := acc'[domain := DomainTeam([], [])];
      keys' := keys' + [domain];
    }
    assert acc' == acc[domain := t];
    if member.position == Lead {
      acc' := acc'[domain := acc'[domain].(leads := acc'[domain].leads + [member])];
    } else if member.position == Coordinator {
      acc' := acc'[domain := acc'[domain].(coordinators := acc'[domain].coordinators + [member])];
    }
  }

  // ---------------------------------------------------------------------------
  // What the hierarchy promises

  /** Every member lands in exactly one of the four places: together they hold
      the input, as a multiset. */
  lemma CategoriesPartition(all: seq<Member>)
    ensures multiset(all) ==
      multiset(Select(all, CategoryOf, DignitarySlot)) + multiset(Select(all, CategoryOf, PresidentSlot))
      + multiset(Select(all, CategoryOf, VicePresidentSlot)) + multiset(Select(all, CategoryOf, DomainSlot))
    ensures |all| ==
      |Select(all, CategoryOf, DignitarySlot)| + |Select(all, CategoryOf, PresidentSlot)|
      + |Select(all, CategoryOf, VicePresidentSlot)| + |Select(all, CategoryOf, DomainSlot)|
  {
    SelectPartition4(all, CategoryOf, DignitarySlot, PresidentSlot, VicePresidentSlot, DomainSlot);
  }

  /** The president slot is empty exactly when no member is President, and
      otherwise holds the last President of the input. */
  lemma PresidentIsLast(all: seq<Member>)
    ensures PresidentOf(all) == None <==> forall x :: x in all ==> x.position != President
    ensures PresidentOf(all).Some? ==> exists i :: (0 <= i < |all| &&
      all[i] == PresidentOf(all).value && all[i].position == President &&
      forall j :: i < j < |all| ==> all[j].position != President)
  {
    var sel := Select(all, CategoryOf, PresidentSlot);
    SelectMembers(all, CategoryOf, PresidentSlot);
    if sel != [] {
      SelectLast(all, CategoryOf, PresidentSlot);
      assert sel[|sel| - 1] in sel;
    }
  }

  /** Members of one dignitary position, taken from the whole input or from the
      dignitaries only, are the same list. */
  lemma DignitariesOfPosition(all: seq<Member>, p: Position)
    requires IsDignitary(p)
    ensures Select(Select(all, CategoryOf, DignitarySlot), RankKey, PositionIndex(p)) == Select(all, PositionOf, p)
    ensures forall x :: x in Select(all, PositionOf, p) ==> x.position == p
  {
    SelectNested(all, CategoryOf, DignitarySlot, RankKey, PositionIndex(p), PositionOf, p);
    SelectMembers(all, PositionOf, p);
  }

  /** The dignitaries of one rank are the members of that position, and there
      are none of any other rank. */
  lemma DignitaryRank(all: seq<Member>, k: int)
    ensures var p := Select(all, PositionOf, Principal);
      var hd := Select(all, PositionOf, HeadOfDepartment);
      var fc := Select(all, PositionOf, FacultyCoordinator);
      Select(p + hd + fc, RankKey, k) == Select(Select(all, CategoryOf, DignitarySlot), RankKey, k)
  {
    var d := Select(all, CategoryOf, DignitarySlot);
    var p := Select(all, PositionOf, Principal);
    var hd := Select(all, PositionOf, HeadOfDepartment);
    var fc := Select(all, PositionOf, FacultyCoordinator);
    assert Select(p + hd + fc, RankKey, k) == if k == 0 then p else if k == 1 then hd else if k == 2 then fc else [] by {
      DignitariesOfPosition(all, Principal);
      DignitariesOfPosition(all, HeadOfDepartment);
      DignitariesOfPosition(all, FacultyCoordinator);
      SelectBlocks3(p, hd, fc, RankKey, 0, 1, 2, k);
    }
    if k == 0 {
      DignitariesOfPosition(all, Principal);
    } else if k == 1 {
      DignitariesOfPosition(all, HeadOfDepartment);
    } else if k == 2 {
      DignitariesOfPosition(all, FacultyCoordinator);
    } else {
      SelectMembers(all, CategoryOf, DignitarySlot);
      SelectNone(d, RankKey, k);
    }
  }

  /** Principals, then Heads of Department, then Faculty Coordinators: the
      ranks never go down. */
  lemma DignitaryBlocksSorted(all: seq<Member>)
    ensures SortedBy(Select(all, PositionOf, Principal) + Select(all, PositionOf, HeadOfDepartment)
      + Select(all, PositionOf, FacultyCoordinator), RankKey, IntLess)
  {
    DignitariesOfPosition(all, Principal);
    DignitariesOfPosition(all, HeadOfDepartment);
    DignitariesOfPosition(all, FacultyCoordinator);
    SortedBlocks3(Select(all, PositionOf, Principal), Select(all, PositionOf, HeadOfDepartment),
      Select(all, PositionOf, FacultyCoordinator), RankKey, IntLess, 0, 1, 2);
  }

  /** The dignitaries are all Principals, then all Heads of Department, then all
      Faculty Coordinators, each group in input order: the comparator on
      `positionOrder` and the stable sort allow no other result. */
  lemma DignitariesOrdered(all: seq<Member>)
    ensures Dignitaries(all) ==
      Select(all, PositionOf, Principal) + Select(all, PositionOf, HeadOfDepartment)
      + Select(all, PositionOf, FacultyCoordinator)
  {
    var d := Select(all, CategoryOf, DignitarySlot);
    var r := Select(all, PositionOf, Principal) + Select(all, PositionOf, HeadOfDepartment)
      + Select(all, PositionOf, FacultyCoordinator);
    DignitaryBlocksSorted(all);
    forall k: int
      ensures Select(r, RankKey, k) == Select(d, RankKey, k)
    {
      DignitaryRank(all, k);
    }
    assert StableFor(r, d, RankKey);
    SortByUnique(d, r, RankKey, IntLess);
  }

  /** The string order is a strict total order on any set of names. */
  lemma StringLessStrictTotal(ks: set<string>)
    ensures StrictTotalOn(StringLess, ks)
  {
    forall a | a in ks
      ensures !StringLess(a, a)
    {
      StringLessIrreflexive(a);
    }
    forall a, b, c | a in ks && b in ks && c in ks && StringLess(a, b) && StringLess(b, c)
      ensures StringLess(a, c)
    {
      StringLessTransitive(a, b, c);
    }
    forall a, b | a in ks && b in ks && a != b
      ensures StringLess(a, b) || StringLess(b, a)
    {
      StringLessTotal(a, b);
    }
  }

  /** The vice-presidents are exactly the input's Vice-Presidents, ordered by
      name, with equal names in input order. */
  lemma VicePresidentsByName(all: seq<Member>)
    ensures var vps := VicePresidents(all);
      multiset(vps) == multiset(Select(all, PositionOf, VicePresident)) &&
      SortedBy(vps, NameKey, StringLess) &&
      StableFor(vps, Select(all, PositionOf, VicePresident), NameKey)
  {
    var s := Select(all, CategoryOf, VicePresidentSlot);
    forall x | x in all
      ensures CategoryOf(x) == VicePresidentSlot <==> PositionOf(x) == VicePresident
    {
    }
    SelectSameKey(all, CategoryOf, VicePresidentSlot, PositionOf, VicePresident);
    StringLessStrictTotal(KeySet(s, NameKey));
    SortBySorted(s, NameKey, StringLess);
    forall x | x in s
      ensures !StringLess(NameKey(x), NameKey(x))
    {
      StringLessIrreflexive(NameKey(x));
    }
    SortByStable(s, NameKey, StringLess);
  }

  /** The group of a domain holds exactly that domain's Leads and exactly its
      Coordinators from the whole input, in input order; a domain has a group
      exactly when some domain member carries it. */
  lemma DomainTeamsExact(all: seq<Member>, d: string)
    ensures d in TeamsByDomain(all) <==> exists x :: x in all && CategoryOf(x) == DomainSlot && DomainKey(x) == d
    ensures d in TeamsByDomain(all) ==>
      TeamsByDomain(all)[d].leads == Select(all, RoleKey, (d, Lead)) &&
      TeamsByDomain(all)[d].coordinators == Select(all, RoleKey, (d, Coordinator))
  {
    var dm := DomainMembers(all);
    assert d in DomainKeys(dm) <==> exists x :: x in all && CategoryOf(x) == DomainSlot && DomainKey(x) == d by {
      DomainKeysSet(dm);
      SelectMembers(all, CategoryOf, DomainSlot);
      if exists x :: x in all && CategoryOf(x) == DomainSlot && DomainKey(x) == d {
        var x :| x in all && CategoryOf(x) == DomainSlot && DomainKey(x) == d;
        assert x in dm;
      }
    }
    if d in TeamsByDomain(all) {
      assert LeadsIn(dm, d) == Select(all, RoleKey, (d, Lead)) by {
        SelectNested(all, CategoryOf, DomainSlot, RoleKey, (d, Lead), RoleKey, (d, Lead));
      }
      assert CoordinatorsIn(dm, d) == Select(all, RoleKey, (d, Coordinator)) by {
        SelectNested(all, CategoryOf, DomainSlot, RoleKey, (d, Coordinator), RoleKey, (d, Coordinator));
      }
    }
  }

  /** Every domain member's group exists, and a group's two lists hold only
      members of that domain. */
  lemma DomainMemberHasGroup(all: seq<Member>, m: Member)
    requires m in all && CategoryOf(m) == DomainSlot
    ensures DomainKey(m) in TeamsByDomain(all)
    ensures m.position == Lead ==> m in TeamsByDomain(all)[DomainKey(m)].leads
    ensures m.position == Coordinator ==> m in TeamsByDomain(all)[DomainKey(m)].coordinators
  {
    DomainTeamsExact(all, DomainKey(m));
    SelectMembers(all, RoleKey, (DomainKey(m), Lead));
    SelectMembers(all, RoleKey, (DomainKey(m), Coordinator));
  }

  /** The domain keys are listed once each, in the order their first member
      appears among the domain members. */
  lemma DomainOrderFirstSeen(all: seq<Member>)
    ensures forall d :: d in DomainOrder(all) <==> d in TeamsByDomain(all)
    ensures forall i, j :: 0 <= i < j < |DomainOrder(all)| ==> DomainOrder(all)[i] != DomainOrder(all)[j]
    ensures var dm := DomainMembers(all); var ks := DomainOrder(all);
      forall i, j, q ::
        (0 <= i < j < |ks| && 0 <= q < |dm| && DomainKey(dm[q]) == ks[j]) ==> ks[i] in KeySet(dm[..q], DomainKey)
  {
    DomainKeysSet(DomainMembers(all));
    DomainKeysFirstSeen(DomainMembers(all));
  }

  /** The page has something to show exactly when the table has a row. */
  lemma HasAnyMembersIff(all: seq<Member>)
    ensures HasAnyMembers(HierarchyOf(all)) <==> |all| > 0
  {
    CategoriesPartition(all);
    DomainKeysEmpty(DomainMembers(all));
  }

  /** No rows (`data || []` with no data) give the page's initial state, which
      has nothing to show. */
  lemma EmptyTableIsInitial()
    ensures HierarchyOf([]) == EmptyHierarchy
    ensures !HasAnyMembers(EmptyHierarchy)
  {
    assert Select([], CategoryOf, PresidentSlot) == [];
  }

  /** A member whose position is neither Lead nor Coordinator still opens its
      domain's group, and an empty domain string files it under "General". */
  lemma GroupWithoutLeadsScenario()
    ensures var m := Member("1", "Ravi", Other("Volunteer"), None, Some(""), None, None, None);
      DomainOrder([m]) == ["General"] && TeamsByDomain([m]) == map["General" := DomainTeam([], [])]
  {
    var m := Member("1", "Ravi", Other("Volunteer"), None, Some(""), None, None, None);
    assert DomainMembers([m]) == [m];
    assert DomainKeys([m]) == ["General"] by {
      assert [m][..0] == [];
    }
    assert LeadsIn([m], "General") == [] && CoordinatorsIn([m], "General") == [];
  }

  // ---------------------------------------------------------------------------
  // The reduce as written, on a plain object literal

  /** Names that every object literal inherits from Object.prototype, so that
      `acc[name]` is already truthy before the reduce stores anything there. */
  const InheritedKeys: set<string> := {
    "constructor", "__proto__", "hasOwnProperty", "isPrototypeOf", "propertyIsEnumerable",
    "toLocaleString", "toString", "valueOf",
    "__defineGetter__", "__defineSetter__", "__lookupGetter__", "__lookupSetter__"}

  /** One step of the reduce on `{}`: an inherited name skips the creation of
      the group, and `acc[domain].leads.push` then throws a TypeError (`None`). */
  function AddToGroupAsWritten(acc: map<string, DomainTeam>, m: Member): (r: Option<map<string, DomainTeam>>)
    ensures DomainKey(m) !in InheritedKeys ==> r == Some(AddToGroup(acc, m))
    ensures (forall d :: d in acc ==> d !in InheritedKeys) ==>
      && (r.None? <==> DomainKey(m) in InheritedKeys && (m.position == Lead || m.position == Coordinator))
      && (r.Some? ==> forall d :: d in r.value ==> d !in InheritedKeys)
  {
    var d := DomainKey(m);
    if d in InheritedKeys && d !in acc then
      if m.position == Lead || m.position == Coordinator then None else Some(acc)
    else Some(AddToGroup(acc, m))
  }

  /** The whole reduce as written; `None` when some step throws. */
  function GroupAsWritten(dm: seq<Member>): (r: Option<map<string, DomainTeam>>)
    ensures r.None? <==>
      exists x :: x in dm && DomainKey(x) in InheritedKeys && (x.position == Lead || x.position == Coordinator)
    ensures r.Some? ==> forall d :: d in r.value ==> d !in InheritedKeys
  {
    if dm == [] then Some(map[])
    else
      assert dm == dm[..|dm| - 1] + [dm[|dm| - 1]];
      match GroupAsWritten(dm[..|dm| - 1])
      case None => None
      case Some(acc) => AddToGroupAsWritten(acc, dm[|dm| - 1])
  }

  /** Away from the inherited names the reduce as written is the grouping. */
  lemma {:induction false} GroupAsWrittenAgrees(dm: seq<Member>)
    requires forall x :: x in dm ==> DomainKey(x) !in InheritedKeys
    ensures GroupAsWritten(dm) == Some(GroupByDomain(dm))
  {
    if dm != [] {
      var init := dm[..|dm| - 1];
      var m := dm[|dm| - 1];
      assert dm == init + [m];
      assert forall x :: x in init ==> x in dm;
      GroupAsWrittenAgrees(init);
      GroupByDomainSnoc(init, m);
    }
  }

  /** A Lead of a domain named "constructor" makes the reduce throw, where the
      grouping has a group holding that Lead. */
  lemma InheritedDomainThrows()
    ensures var m := Member("1", "Asha", Lead, None, Some("constructor"), None, None, None);
      GroupAsWritten([m]) == None && GroupByDomain([m]) == map["constructor" := DomainTeam([m], [])]
  {
    var m := Member("1", "Asha", Lead, None, Some("constructor"), None, None, None);
    assert [m][..0] == [];
    assert DomainKeys([m]) == ["constructor"];
    assert LeadsIn([m], "constructor") == [m] && CoordinatorsIn([m], "constructor") == [];
  }

  /** A Volunteer of a domain named "toString" gets no group at all. */
  lemma InheritedDomainDropsGroup()
    ensures var m := Member("1", "Ravi", Other("Volunteer"), None, Some("toString"), None, None, None);
      GroupAsWritten([m]) == Some(map[]) && "toString" in GroupByDomain([m])
  {
    var m := Member("1", "Ravi", Other("Volunteer"), None, Some("toString"), None, None, None);
    assert [m][..0] == [];
    assert DomainKeys([m]) == ["toString"];
  }
}
